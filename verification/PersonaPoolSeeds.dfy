/**
 Seeds over whole runs of the session pool. Without restores no two sessions ever share
 a seed and no quarantined seed comes back; a restore keeps that exactly when the
 restored seed is not live.
 */
module PersonaPoolSeeds {
  import opened Wrappers
  import opened PersonaPoolSpec
  import opened PersonaPoolSafety
  import SeedExpansion

  ghost predicate DrawnBefore(seed: Seed, counter: nat) {
    exists k: nat | 1 <= k < counter :: seed == Draw(k)
  }

  ghost predicate DistinctSeeds(p: Pool) {
    forall a, b | a in p.sessions && b in p.sessions && a != b :: p.sessions[a].seed != p.sessions[b].seed
  }

  /** Every seed in the pool was drawn from the counter, sessions have distinct seeds, and
      a session's seed is quarantined exactly when the session is burned. */
  ghost predicate SeedsInv(p: Pool) {
    && p.nextSeed >= 1
    && (forall id | id in p.sessions :: DrawnBefore(p.sessions[id].seed, p.nextSeed))
    && (forall s | s in p.quarantine :: DrawnBefore(s, p.nextSeed))
    && DistinctSeeds(p)
    && (forall id | id in p.sessions :: p.sessions[id].burned <==> p.sessions[id].seed in p.quarantine)
  }

  /** A counter not drawn yet gives a seed no earlier counter gave. */
  lemma NewDrawIsNew(counter: nat, c: nat)
    requires counter <= c < WORD
    ensures !DrawnBefore(Draw(c), counter)
    ensures counter >= 1 ==> DrawnBefore(Draw(c), c + 1)
  {
    hide Draw;
    if k: nat :| 1 <= k < counter && Draw(c) == Draw(k) {
      DrawIsInjective(c, k);
    }
  }

  lemma DrawIsInjective(a: nat, b: nat)
    requires a < WORD && b < WORD && Draw(a) == Draw(b)
    ensures a == b
  {
    hide SeedExpansion.SeedOf;
    SeedExpansion.SeedOfIsInjective(a, b);
  }

  lemma DrawnBeforeGrows(seed: Seed, c: nat, d: nat)
    requires DrawnBefore(seed, c) && c <= d
    ensures DrawnBefore(seed, d)
  {
    hide Draw;
  }

  /** Giving one session a seed drawn just now keeps everything. */
  lemma NewSeedKeepsSeeds(p: Pool, id: nat, c: nat, q: Pool)
    requires SeedsInv(p) && p.nextSeed <= c < WORD - 1
    requires q.sessions == p.sessions[id := Build(p.config, id, Draw(c))]
    requires q.quarantine == p.quarantine && q.nextSeed == c + 1
    ensures SeedsInv(q)
  {
    hide Draw, DrawnBefore;
    NewDrawIsNew(p.nextSeed, c);
    forall s | DrawnBefore(s, p.nextSeed)
      ensures DrawnBefore(s, q.nextSeed)
    {
      DrawnBeforeGrows(s, p.nextSeed, q.nextSeed);
    }
  }

  /** Changing only counters and flags of a session, with its seed quarantined when it burns. */
  lemma SameSeedsKeepSeeds(p: Pool, id: nat, s: Session, q: Pool)
    requires SeedsInv(p) && id in p.sessions && s.seed == p.sessions[id].seed
    requires q.sessions == p.sessions[id := s] && q.nextSeed == p.nextSeed
    requires q.quarantine == if s.burned then p.quarantine + {s.seed} else p.quarantine
    requires p.sessions[id].burned ==> s.burned
    ensures SeedsInv(q)
  {
    hide Draw, DrawnBefore;
  }

  lemma StepKeepsSeeds(p: Pool, e: Event)
    requires SeedsInv(p) && !e.Restore? && p.nextSeed + RETRIES + 1 < WORD
    ensures SeedsInv(Step(p, e))
    ensures p.nextSeed <= Step(p, e).nextSeed <= p.nextSeed + RETRIES + 1
  {
    hide Draw, Chosen, FirstFree, SeedsInv, PickOk;
    var q := Step(p, e);
    if Enabled(p, e) && Outcome(p, e).Ok? {
      match e
      case Acquire(domain, pick, newId) => AcquireKeepsSeeds(p, domain, pick, newId);
      case Rotate(id, domain) => NewSeedKeepsSeeds(p, id, p.nextSeed, q);
      case Release(id) => ReleaseKeepsSeeds(p, id);
      case Burn(id) => SameSeedsKeepSeeds(p, id, q.sessions[id], q);
    }
  }

  lemma ReleaseKeepsSeeds(p: Pool, id: nat)
    requires SeedsInv(p) && id in p.sessions
    ensures SeedsInv(Step(p, Release(id)))
  {
    hide Draw, DrawnBefore, DistinctSeeds;
    BurnedAddsNothing(p, id);
    SameSeedsKeepSeeds(p, id, Step(p, Release(id)).sessions[id], Step(p, Release(id)));
  }

  lemma BurnedAddsNothing(p: Pool, id: nat)
    requires SeedsInv(p) && id in p.sessions
    ensures p.sessions[id].burned ==> p.quarantine + {p.sessions[id].seed} == p.quarantine
  {
    hide DrawnBefore, DistinctSeeds;
  }

  lemma AcquireKeepsSeeds(p: Pool, domain: string, pick: Option<nat>, newId: nat)
    requires SeedsInv(p) && p.nextSeed + RETRIES + 1 < WORD
    ensures var q := Step(p, Acquire(domain, pick, newId));
            SeedsInv(q) && p.nextSeed <= q.nextSeed <= p.nextSeed + RETRIES + 1
  {
    hide Draw, Chosen, FirstFree, SeedsInv, ShouldRotate;
    var e := Acquire(domain, pick, newId);
    if Enabled(p, e) && Outcome(p, e).Ok? {
      ReusedIsLive(p, domain, pick);
      var id := Outcome(p, e).value;
      var q := if Reused(p, domain, pick).Some? then p else Create(p, domain, id);
      if Reused(p, domain, pick).None? {
        ChosenSettles(p.config, p.sessions, p.nextSeed);
        NewSeedKeepsSeeds(p, id, Chosen(p.config, p.sessions, p.nextSeed), q);
      }
      BurnedAddsNothing(q, id);
      SameSeedsKeepSeeds(q, id, Use(q, id, domain).sessions[id], Use(q, id, domain));
    }
  }

  /** Before every step the counter has the 65 draws a step may take left in its 64 bits. */
  ghost predicate SeedsLeft(config: Config, es: seq<Event>)
    decreases |es|
  {
    es == [] ||
    (SeedsLeft(config, es[..|es| - 1]) && Run(New(config), es[..|es| - 1]).nextSeed + RETRIES + 1 < WORD)
  }

  /** Without restores, as long as the seed counter does not run out, sessions carry
      pairwise distinct seeds and every quarantined seed belongs to burned sessions only:
      no session created or rotated after a burn carries the burned seed. */
  lemma {:induction false} SeedsStayDistinct(config: Config, es: seq<Event>)
    requires NoRestore(es) && SeedsLeft(config, es)
    ensures SeedsInv(Run(New(config), es))
    decreases |es|
  {
    hide SeedsInv, Step;
    if es == [] {
      NewSeeds(config);
    } else {
      var front := es[..|es| - 1];
      SeedsStayDistinct(config, front);
      StepKeepsSeeds(Run(New(config), front), es[|es| - 1]);
    }
  }

  /** A step draws at most 65 seeds, so the counter lasts for 2^64 / 65 of them. */
  lemma {:induction false} SeedsLast(config: Config, es: seq<Event>)
    requires NoRestore(es) && 65 * |es| + 1 < WORD
    ensures SeedsLeft(config, es)
    ensures Run(New(config), es).nextSeed <= 65 * |es| + 1
    decreases |es|
  {
    hide SeedsInv, Step;
    if es == [] {
      NewSeeds(config);
    } else {
      var front := es[..|es| - 1];
      SeedsLast(config, front);
      SeedsStayDistinct(config, front);
      StepKeepsSeeds(Run(New(config), front), es[|es| - 1]);
    }
  }

  lemma NewSeeds(config: Config)
    ensures SeedsInv(New(config)) && New(config).nextSeed == 1
  {
  }

  // ------------------------------------------------------------------ snapshots

  /** A snapshot restores the persona it was taken of: same seed, identity and request
      count, in a slot no session had, and refused exactly when the seed is quarantined. */
  lemma SnapshotRestores(p: Pool, id: nat, q: Pool, newId: nat)
    requires Inv(p) && id in p.sessions && q.config.identify == p.config.identify
    requires Enabled(q, Restore(SnapshotOf(p, id), newId))
    ensures var e, s := Restore(SnapshotOf(p, id), newId), p.sessions[id];
            var r := Step(q, e);
            && (Outcome(q, e).Err? <==> s.seed in q.quarantine)
            && (Outcome(q, e).Ok? ==>
                  var at := Outcome(q, e).value;
                  && at !in q.sessions && r.sessions == q.sessions[at := r.sessions[at]]
                  && (at == id <==> id !in q.sessions)
                  && r.sessions[at] == Session(at, s.seed, s.identity, s.requestCount, 0, false))
  {
    hide FirstFree;
    FirstFreeIsWord(q, newId);
  }

  // ------------------------------------------------------------------ exactly when a seed is shared

  /** Some session other than `id` carries the seed. */
  predicate OtherCarries(p: Pool, id: nat, seed: Seed) {
    exists other | other in p.sessions :: other != id && p.sessions[other].seed == seed
  }

  /** The steps that give two sessions one seed. A drawn seed can be live because a
      restored snapshot brought it in ahead of the counter. */
  ghost predicate SharesSeed(p: Pool, e: Event) {
    && Enabled(p, e) && Outcome(p, e).Ok?
    && match e
       case Acquire(domain, pick, newId) =>
         Reused(p, domain, pick).None? && OtherCarries(p, newId, Draw(Chosen(p.config, p.sessions, p.nextSeed)))
       case Rotate(id, _) => OtherCarries(p, id, Draw(p.nextSeed))
       case Restore(snap, _) => OtherCarries(p, Outcome(p, e).value, snap.seed)
       case Release(_) => false
       case Burn(_) => false
  }

  lemma PutKeepsDistinctSeeds(p: Pool, id: nat, s: Session, q: Pool)
    requires DistinctSeeds(p) && q.sessions == p.sessions[id := s]
    ensures DistinctSeeds(q) <==> !OtherCarries(p, id, s.seed)
  {
    if other :| other in p.sessions && other != id && p.sessions[other].seed == s.seed {
      assert q.sessions[other] == p.sessions[other] && q.sessions[id] == s;
    }
  }

  /** Over all operations, restores included, a step keeps seeds distinct exactly when it
      is none of: a creation or a rotation whose drawn seed another session carries, a
      restore of a seed that is live. */
  lemma StepKeepsDistinctSeedsExactly(p: Pool, e: Event)
    requires Inv(p) && DistinctSeeds(p)
    ensures DistinctSeeds(Step(p, e)) <==> !SharesSeed(p, e)
  {
    hide Draw, DistinctSeeds, Inv, OtherCarries, FirstFree, PickOk, Chosen;
    var q := Step(p, e);
    if Enabled(p, e) && Outcome(p, e).Ok? {
      match e
      case Acquire(domain, pick, newId) => AcquireKeepsDistinctSeeds(p, domain, pick, newId);
      case Rotate(id, domain) => PutKeepsDistinctSeeds(p, id, q.sessions[id], q);
      case Release(id) => SameSeedStays(p, id, q);
      case Burn(id) => SameSeedStays(p, id, q);
      case Restore(snap, newId) =>
        var at := Outcome(p, e).value;
        PutKeepsDistinctSeeds(p, at, q.sessions[at], q);
    }
  }

  /** Changing only counters and flags of one session. */
  lemma SameSeedStays(p: Pool, id: nat, q: Pool)
    requires DistinctSeeds(p) && id in p.sessions && id in q.sessions
    requires q.sessions == p.sessions[id := q.sessions[id]] && q.sessions[id].seed == p.sessions[id].seed
    ensures DistinctSeeds(q)
  {
  }

  lemma AcquireKeepsDistinctSeeds(p: Pool, domain: string, pick: Option<nat>, newId: nat)
    requires Inv(p) && DistinctSeeds(p)
    requires Enabled(p, Acquire(domain, pick, newId)) && Outcome(p, Acquire(domain, pick, newId)).Ok?
    ensures DistinctSeeds(Step(p, Acquire(domain, pick, newId))) <==> !SharesSeed(p, Acquire(domain, pick, newId))
  {
    hide Draw, DistinctSeeds, Inv, OtherCarries, FirstFree, ShouldRotate, Chosen;
    var e := Acquire(domain, pick, newId);
    var id, r := Outcome(p, e).value, Step(p, e);
    ReusedIsLive(p, domain, pick);
    if Reused(p, domain, pick).Some? {
      SameSeedStays(p, id, r);
    } else {
      var q := Create(p, domain, id);
      PutKeepsDistinctSeeds(p, id, q.sessions[id], q);
      assert r == Use(q, id, domain);
      UseKeepsDistinctSeeds(q, id, domain);
    }
  }

  lemma UseKeepsDistinctSeeds(q: Pool, id: nat, domain: string)
    requires id in q.sessions
    ensures DistinctSeeds(Use(q, id, domain)) <==> DistinctSeeds(q)
  {
    var r := Use(q, id, domain);
    assert forall a | a in q.sessions :: a in r.sessions && r.sessions[a].seed == q.sessions[a].seed;
    assert r.sessions.Keys == q.sessions.Keys;
  }

  /** Seeds are distinct in every state of the run. */
  ghost predicate DistinctAlong(p: Pool, es: seq<Event>)
    decreases |es|
  {
    DistinctSeeds(Run(p, es)) && (es != [] ==> DistinctAlong(p, es[..|es| - 1]))
  }

  /** No step of the run gives two sessions one seed. */
  ghost predicate NeverShares(p: Pool, es: seq<Event>)
    decreases |es|
  {
    es == [] || (NeverShares(p, es[..|es| - 1]) && !SharesSeed(Run(p, es[..|es| - 1]), es[|es| - 1]))
  }

  /** Over any run seeds are distinct in every state exactly when no step shares one. */
  lemma {:induction false} RunKeepsDistinctSeedsExactly(p: Pool, es: seq<Event>)
    requires Inv(p) && DistinctSeeds(p)
    ensures DistinctAlong(p, es) <==> NeverShares(p, es)
    decreases |es|
  {
    hide Inv, Step, DistinctSeeds, SharesSeed;
    if es == [] {
    } else {
      var m := |es| - 1;
      RunKeepsDistinctSeedsExactly(p, es[..m]);
      RunKeepsInv(p, es[..m]);
      if DistinctSeeds(Run(p, es[..m])) {
        StepKeepsDistinctSeedsExactly(Run(p, es[..m]), es[m]);
      }
    }
  }

  /** A creation shares a seed only when all its 65 candidates clash: a session with the
      drawn seed has the drawn identity. */
  lemma CreationSharesOnlyClashes(p: Pool, domain: string, pick: Option<nat>, newId: nat)
    requires Inv(p) && SharesSeed(p, Acquire(domain, pick, newId))
    ensures forall c | p.nextSeed <= c <= p.nextSeed + 64 :: Clashes(p.config, p.sessions, c)
  {
    hide Draw, Chosen;
    ChosenSettles(p.config, p.sessions, p.nextSeed);
    var c := Chosen(p.config, p.sessions, p.nextSeed);
    var other :| other in p.sessions && p.sessions[other].seed == Draw(c);
    assert SameIdentity(p.sessions[other].identity, p.config.identify(Draw(c)));
    assert Clashes(p.config, p.sessions, c);
  }

  // ------------------------------------------------------------------ exactly when a burned seed is back

  /** No unburned session carries a quarantined seed. */
  ghost predicate QuarantineHolds(p: Pool) {
    forall id | id in p.sessions && !p.sessions[id].burned :: p.sessions[id].seed !in p.quarantine
  }

  predicate UnburnedOtherCarries(p: Pool, id: nat, seed: Seed) {
    exists other | other in p.sessions :: other != id && !p.sessions[other].burned && p.sessions[other].seed == seed
  }

  /** The steps that leave an unburned session with a quarantined seed: drawing one that a
      restore had brought in and a burn quarantined, or burning one of two that share. */
  ghost predicate BreaksQuarantine(p: Pool, e: Event) {
    && Enabled(p, e) && Outcome(p, e).Ok?
    && match e
       case Acquire(domain, pick, newId) =>
         Reused(p, domain, pick).None? && Draw(Chosen(p.config, p.sessions, p.nextSeed)) in p.quarantine
       case Rotate(_, _) => Draw(p.nextSeed) in p.quarantine
       case Burn(id) => UnburnedOtherCarries(p, id, p.sessions[id].seed)
       case Release(_) => false
       case Restore(_, _) => false
  }

  lemma PutKeepsQuarantine(p: Pool, id: nat, s: Session, q: Pool)
    requires QuarantineHolds(p) && q.sessions == p.sessions[id := s] && q.quarantine == p.quarantine
    ensures QuarantineHolds(q) <==> s.burned || s.seed !in p.quarantine
  {
    assert q.sessions[id] == s;
  }

  /** A quarantined seed stays away over a step exactly when the step does not draw it and
      does not burn one of two unburned sessions that share a seed. */
  lemma StepKeepsQuarantineExactly(p: Pool, e: Event)
    requires Inv(p) && QuarantineHolds(p)
    ensures QuarantineHolds(Step(p, e)) <==> !BreaksQuarantine(p, e)
  {
    hide Draw, Inv, FirstFree, PickOk, Chosen, UnburnedOtherCarries, QuarantineHolds;
    var q := Step(p, e);
    if Enabled(p, e) && Outcome(p, e).Ok? {
      var id := Outcome(p, e).value;
      match e
      case Acquire(domain, pick, newId) => AcquireKeepsQuarantine(p, domain, pick, newId);
      case Rotate(_, _) => PutKeepsQuarantine(p, id, q.sessions[id], q);
      case Release(_) =>
        SessionHolds(p, id);
        PutKeepsQuarantine(p, id, q.sessions[id], q);
      case Burn(_) => BurnKeepsQuarantine(p, id, q);
      case Restore(_, _) => PutKeepsQuarantine(p, id, q.sessions[id], q);
    }
  }

  lemma SessionHolds(p: Pool, id: nat)
    requires QuarantineHolds(p) && id in p.sessions
    ensures p.sessions[id].burned || p.sessions[id].seed !in p.quarantine
  {
  }

  lemma BurnKeepsQuarantine(p: Pool, id: nat, q: Pool)
    requires QuarantineHolds(p) && id in p.sessions
    requires q.sessions == p.sessions[id := p.sessions[id].(burned := true)]
    requires q.quarantine == p.quarantine + {p.sessions[id].seed}
    ensures QuarantineHolds(q) <==> !UnburnedOtherCarries(p, id, p.sessions[id].seed)
  {
    if UnburnedOtherCarries(p, id, p.sessions[id].seed) {
      var other :|
        && other in p.sessions && other != id && !p.sessions[other].burned
        && p.sessions[other].seed == p.sessions[id].seed;
      assert q.sessions[other] == p.sessions[other];
    }
  }

  lemma AcquireKeepsQuarantine(p: Pool, domain: string, pick: Option<nat>, newId: nat)
    requires Inv(p) && QuarantineHolds(p)
    requires Enabled(p, Acquire(domain, pick, newId)) && Outcome(p, Acquire(domain, pick, newId)).Ok?
    ensures QuarantineHolds(Step(p, Acquire(domain, pick, newId)))
            <==> !BreaksQuarantine(p, Acquire(domain, pick, newId))
  {
    hide Draw, QuarantineHolds, Inv, FirstFree, ShouldRotate, Chosen;
    var e := Acquire(domain, pick, newId);
    var id, r := Outcome(p, e).value, Step(p, e);
    ReusedIsLive(p, domain, pick);
    if Reused(p, domain, pick).Some? {
      SessionHolds(p, id);
      PutKeepsQuarantine(p, id, r.sessions[id], r);
    } else {
      PutKeepsQuarantine(p, id, r.sessions[id], r);
    }
  }

  /** No unburned session carries a quarantined seed in any state of the run. */
  ghost predicate QuarantineAlong(p: Pool, es: seq<Event>)
    decreases |es|
  {
    QuarantineHolds(Run(p, es)) && (es != [] ==> QuarantineAlong(p, es[..|es| - 1]))
  }

  ghost predicate NeverBreaks(p: Pool, es: seq<Event>)
    decreases |es|
  {
    es == [] || (NeverBreaks(p, es[..|es| - 1]) && !BreaksQuarantine(Run(p, es[..|es| - 1]), es[|es| - 1]))
  }

  /** Over any run the quarantine holds in every state exactly when no step breaks it. */
  lemma {:induction false} RunKeepsQuarantineExactly(p: Pool, es: seq<Event>)
    requires Inv(p) && QuarantineHolds(p)
    ensures QuarantineAlong(p, es) <==> NeverBreaks(p, es)
    decreases |es|
  {
    hide Inv, Step, QuarantineHolds, BreaksQuarantine;
    if es == [] {
    } else {
      var m := |es| - 1;
      RunKeepsQuarantineExactly(p, es[..m]);
      RunKeepsInv(p, es[..m]);
      if QuarantineHolds(Run(p, es[..m])) {
        StepKeepsQuarantineExactly(Run(p, es[..m]), es[m]);
      }
    }
  }

  // ------------------------------------------------------------------ restores

  /** A restore keeps seeds distinct exactly when the restored seed is not live. */
  lemma RestoreSharesExactly(p: Pool, snap: Snapshot, newId: nat)
    requires Inv(p) && DistinctSeeds(p)
    requires Enabled(p, Restore(snap, newId)) && Outcome(p, Restore(snap, newId)).Ok?
    ensures DistinctSeeds(Step(p, Restore(snap, newId)))
            <==> forall id | id in p.sessions :: p.sessions[id].seed != snap.seed
  {
    hide FirstFree, DistinctSeeds, OtherCarries;
    FirstFreeIsWord(p, newId);
    var at := Outcome(p, Restore(snap, newId)).value;
    var q := Step(p, Restore(snap, newId));
    PutKeepsDistinctSeeds(p, at, q.sessions[at], q);
    FreeSlotCarries(p, at, snap.seed);
  }

  lemma FreeSlotCarries(p: Pool, at: nat, seed: Seed)
    requires at !in p.sessions
    ensures OtherCarries(p, at, seed) <==> exists id :: id in p.sessions && p.sessions[id].seed == seed
  {
  }

  /** So restoring the snapshot of a session that is still live always duplicates its persona. */
  lemma RestoringALiveSessionDuplicates(p: Pool, id: nat, newId: nat)
    requires Inv(p) && id in p.sessions && p.sessions[id].seed !in p.quarantine
    requires Enabled(p, Restore(SnapshotOf(p, id), newId))
    ensures var q := Step(p, Restore(SnapshotOf(p, id), newId));
            && id != newId && id in q.sessions && newId in q.sessions
            && q.sessions[id].seed == q.sessions[newId].seed
            && q.sessions[id].identity == q.sessions[newId].identity
  {
    hide FirstFree;
    FirstFreeIsWord(p, newId);
  }
}
