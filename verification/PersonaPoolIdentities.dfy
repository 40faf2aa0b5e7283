/**
 One persona per session: which steps keep the active identities pairwise distinct. A new
 session looks for an identity nobody has; a rotation and a restore do not look.
 */
module PersonaPoolIdentities {
  import opened Wrappers
  import opened PersonaPoolSpec
  import opened PersonaPoolSafety

  /** No two sessions present the same identity. */
  ghost predicate DistinctIdentities(p: Pool) {
    forall a, b | a in p.sessions && b in p.sessions && a != b ::
      !SameIdentity(p.sessions[a].identity, p.sessions[b].identity)
  }

  /** A new session's persona differs from every active one, unless all 65 seeds tried clash. */
  lemma NewPersonaIsDistinct(p: Pool, domain: string, newId: nat)
    ensures ActiveIdentity(p.sessions, Create(p, domain, newId).sessions[newId].identity)
            <==> forall c | p.nextSeed <= c <= p.nextSeed + 64 :: Clashes(p.config, p.sessions, c)
  {
    hide Draw, ActiveIdentity, Chosen;
    ChosenSettles(p.config, p.sessions, p.nextSeed);
    var chosen := Chosen(p.config, p.sessions, p.nextSeed);
    assert Create(p, domain, newId).sessions[newId].identity == p.config.identify(Draw(chosen));
    assert Clashes(p.config, p.sessions, chosen) == ActiveIdentity(p.sessions, p.config.identify(Draw(chosen)));
  }

  /** Some session other than `id` has the identity. */
  predicate OtherHas(p: Pool, id: nat, identity: Identity) {
    exists other | other in p.sessions :: other != id && SameIdentity(p.sessions[other].identity, identity)
  }

  /** Putting a session in keeps identities distinct exactly when no other has its identity. */
  lemma PutKeepsIdentities(p: Pool, id: nat, s: Session, q: Pool)
    requires DistinctIdentities(p) && q.sessions == p.sessions[id := s]
    ensures DistinctIdentities(q) <==> !OtherHas(p, id, s.identity)
  {
    if other :| other in p.sessions && other != id && SameIdentity(p.sessions[other].identity, s.identity) {
      assert q.sessions[other] == p.sessions[other] && q.sessions[id] == s;
    }
  }

  /** A rotation draws one seed and keeps identities distinct exactly when no other session
      has the identity of that seed: one clash is enough. */
  lemma RotationKeepsIdentities(p: Pool, id: nat, domain: string)
    requires Inv(p) && DistinctIdentities(p) && id in p.sessions && p.sessions[id].inFlight == 0
    ensures DistinctIdentities(Step(p, Rotate(id, domain))) <==> !OtherHas(p, id, p.config.identify(Draw(p.nextSeed)))
  {
    hide Draw, OtherHas, DistinctIdentities;
    PutKeepsIdentities(p, id, Build(p.config, id, Draw(p.nextSeed)), Step(p, Rotate(id, domain)));
  }

  /** The steps that give two sessions one identity. */
  ghost predicate Repeats(p: Pool, e: Event) {
    && Enabled(p, e) && Outcome(p, e).Ok?
    && match e
       case Acquire(domain, pick, _) =>
         && Reused(p, domain, pick).None?
         && forall c | p.nextSeed <= c <= p.nextSeed + 64 :: Clashes(p.config, p.sessions, c)
       case Rotate(id, _) => OtherHas(p, id, p.config.identify(Draw(p.nextSeed)))
       case Restore(snap, _) => ActiveIdentity(p.sessions, p.config.identify(snap.seed))
       case Release(_) => false
       case Burn(_) => false
  }

  /** Over all operations, a step keeps identities distinct exactly when it is none of: a
      creation whose 65 candidates all clash, a rotation onto an identity another session
      has, a restore of an identity that is active. */
  lemma StepKeepsIdentitiesExactly(p: Pool, e: Event)
    requires Inv(p) && DistinctIdentities(p)
    ensures DistinctIdentities(Step(p, e)) <==> !Repeats(p, e)
  {
    hide Draw, DistinctIdentities, Inv, ActiveIdentity, OtherHas, FirstFree, PickOk;
    if Enabled(p, e) && Outcome(p, e).Ok? {
      match e
      case Acquire(domain, pick, newId) => AcquireKeepsIdentities(p, domain, pick, newId);
      case Rotate(id, domain) => RotationKeepsIdentities(p, id, domain);
      case Release(id) => SameIdentitiesStay(p, id, Step(p, e));
      case Burn(id) => SameIdentitiesStay(p, id, Step(p, e));
      case Restore(snap, newId) => RestoreKeepsIdentities(p, snap, newId);
    }
  }

  /** Changing only counters and flags of one session. */
  lemma SameIdentitiesStay(p: Pool, id: nat, q: Pool)
    requires DistinctIdentities(p) && id in p.sessions && id in q.sessions
    requires q.sessions == p.sessions[id := q.sessions[id]] && q.sessions[id].identity == p.sessions[id].identity
    ensures DistinctIdentities(q)
  {
  }

  lemma FreeSlot(p: Pool, id: nat, identity: Identity)
    requires id !in p.sessions
    ensures OtherHas(p, id, identity) <==> ActiveIdentity(p.sessions, identity)
  {
  }

  lemma RestoreKeepsIdentities(p: Pool, snap: Snapshot, newId: nat)
    requires Inv(p) && DistinctIdentities(p)
    requires Enabled(p, Restore(snap, newId)) && Outcome(p, Restore(snap, newId)).Ok?
    ensures DistinctIdentities(Step(p, Restore(snap, newId)))
        <==> !ActiveIdentity(p.sessions, p.config.identify(snap.seed))
  {
    hide DistinctIdentities, ActiveIdentity, OtherHas, FirstFree;
    FirstFreeIsWord(p, newId);
    var at, q := Outcome(p, Restore(snap, newId)).value, Step(p, Restore(snap, newId));
    FreeSlot(p, at, p.config.identify(snap.seed));
    PutKeepsIdentities(p, at, q.sessions[at], q);
  }

  lemma AcquireKeepsIdentities(p: Pool, domain: string, pick: Option<nat>, newId: nat)
    requires Inv(p) && DistinctIdentities(p)
    requires Enabled(p, Acquire(domain, pick, newId)) && Outcome(p, Acquire(domain, pick, newId)).Ok?
    ensures DistinctIdentities(Step(p, Acquire(domain, pick, newId))) <==> !Repeats(p, Acquire(domain, pick, newId))
  {
    hide Draw, DistinctIdentities, Inv, ActiveIdentity, OtherHas, FirstFree, ShouldRotate, Chosen, Clashes;
    var e := Acquire(domain, pick, newId);
    var id, r := Outcome(p, e).value, Step(p, e);
    ReusedIsLive(p, domain, pick);
    if Reused(p, domain, pick).Some? {
      SameIdentitiesStay(p, id, r);
    } else {
      FirstFreeIsWord(p, newId);
      var q := Create(p, domain, id);
      NewPersonaIsDistinct(p, domain, id);
      FreeSlot(p, id, q.sessions[id].identity);
      PutKeepsIdentities(p, id, q.sessions[id], q);
      assert r == Use(q, id, domain);
      UseKeepsIdentities(q, id, domain);
    }
  }

  lemma UseKeepsIdentities(q: Pool, id: nat, domain: string)
    requires id in q.sessions
    ensures DistinctIdentities(Use(q, id, domain)) <==> DistinctIdentities(q)
  {
    var r := Use(q, id, domain);
    assert forall a | a in q.sessions :: a in r.sessions && r.sessions[a].identity == q.sessions[a].identity;
    assert r.sessions.Keys == q.sessions.Keys;
  }

  /** Identities are distinct in every state of the run. */
  ghost predicate DistinctAlong(p: Pool, es: seq<Event>)
    decreases |es|
  {
    DistinctIdentities(Run(p, es)) && (es != [] ==> DistinctAlong(p, es[..|es| - 1]))
  }

  /** No step of the run gives two sessions one identity. */
  ghost predicate NeverRepeats(p: Pool, es: seq<Event>)
    decreases |es|
  {
    es == [] || (NeverRepeats(p, es[..|es| - 1]) && !Repeats(Run(p, es[..|es| - 1]), es[|es| - 1]))
  }

  /** Over any run identities are distinct in every state exactly when no step repeats one. */
  lemma {:induction false} RunKeepsIdentitiesExactly(p: Pool, es: seq<Event>)
    requires Inv(p) && DistinctIdentities(p)
    ensures DistinctAlong(p, es) <==> NeverRepeats(p, es)
    decreases |es|
  {
    hide Inv, Step, DistinctIdentities, Repeats;
    if es == [] {
    } else {
      var m := |es| - 1;
      RunKeepsIdentitiesExactly(p, es[..m]);
      RunKeepsInv(p, es[..m]);
      if DistinctIdentities(Run(p, es[..m])) {
        StepKeepsIdentitiesExactly(Run(p, es[..m]), es[m]);
      }
    }
  }

  /** One clashing seed: a new session would draw past it, a rotation takes it. */
  lemma RotationTakesWhatCreationSkips(p: Pool, id: nat, domain: string, newId: nat)
    requires Inv(p) && DistinctIdentities(p) && id in p.sessions && p.sessions[id].inFlight == 0
    requires OtherHas(p, id, p.config.identify(Draw(p.nextSeed))) && !Clashes(p.config, p.sessions, p.nextSeed + 1)
    ensures !ActiveIdentity(p.sessions, Create(p, domain, newId).sessions[newId].identity)
    ensures !DistinctIdentities(Step(p, Rotate(id, domain)))
  {
    hide Draw, DistinctIdentities, Inv, OtherHas, Clashes, ActiveIdentity, Step, Create;
    RotationKeepsIdentities(p, id, domain);
    NewPersonaIsDistinct(p, domain, newId);
  }
}
