/**
 What each operation leaves for the later ones to see: the counts a request moves, the ids
 new sessions get, a rotation that starts the policy's count again, and a burned session
 that is neither served nor restored.
 */
module PersonaPoolEffects {
  import opened Wrappers
  import opened PersonaPoolSpec
  import opened PersonaPoolSafety
  import opened PersonaPoolRotation

  // ------------------------------------------------------------------ counts

  /** The requests counted on a session; a session not in the pool has had none. */
  function Requests(p: Pool, id: nat): nat {
    if id in p.sessions then p.sessions[id].requestCount else 0
  }

  /** A granted acquisition counts one request on its session, as a 64-bit word, and leaves
      every other session as it was. */
  lemma OneRequestCounted(p: Pool, domain: string, pick: Option<nat>, newId: nat, id: nat)
    requires Inv(p) && Grants(p, Acquire(domain, pick, newId), id)
    ensures var q := Step(p, Acquire(domain, pick, newId));
            && Requests(q, id) == (Requests(p, id) + 1) % 0x1_0000_0000_0000_0000
            && q.quarantine == p.quarantine && q.sessions.Keys == p.sessions.Keys + {id}
            && forall other | other in p.sessions && other != id :: q.sessions[other] == p.sessions[other]
  {
    hide Draw, Chosen, FirstFree, PickOk, ShouldRotate;
    ReusedIsLive(p, domain, pick);
    FirstFreeIsWord(p, newId);
  }

  // ------------------------------------------------------------------ ids

  /** The counter is ahead of every id in the pool. */
  ghost predicate Ahead(p: Pool) {
    forall id | id in p.sessions :: id < p.nextId
  }

  lemma FreeAhead(p: Pool, id: nat)
    requires Inv(p) && Ahead(p) && FirstFree(p.sessions.Keys, p.nextId, id)
    ensures id == p.nextId
  {
    hide FirstFree;
    FirstFreeIsLeast(p.sessions.Keys, p.nextId, id);
    assert p.nextId !in p.sessions.Keys && 0xFFFF_FFFF_FFFF_FFFF !in p.sessions.Keys;
  }

  /** Adding the session at the counter, which moves past it. */
  lemma AddedAhead(p: Pool, q: Pool, id: nat, next: nat)
    requires Inv(p) && Ahead(p) && id < 0x1_0000_0000_0000_0000
    requires q.sessions.Keys == p.sessions.Keys + {id} && id >= p.nextId
    requires q.nextId == if id == 0xFFFF_FFFF_FFFF_FFFF then next else id + 1
    requires next <= id
    ensures Ahead(q) <==> 0xFFFF_FFFF_FFFF_FFFF !in q.sessions
  {
    assert id in q.sessions.Keys;
  }

  lemma AcquireAhead(p: Pool, e: Event)
    requires Inv(p) && Ahead(p) && e.Acquire? && Enabled(p, e) && Outcome(p, e).Ok?
    ensures Ahead(Step(p, e)) <==> 0xFFFF_FFFF_FFFF_FFFF !in Step(p, e).sessions
  {
    AcquireEffect(p, e.domain, e.pick, e.newId);
    AcquireMovesCounter(p, e);
    hide Step, Enabled, Outcome, FirstFree;
    if Reused(p, e.domain, e.pick).None? {
      FreshIsFree(p, e);
      FreeAhead(p, e.newId);
      AddedAhead(p, Step(p, e), e.newId, 0);
    } else {
      SameAhead(p, Step(p, e));
    }
  }

  lemma SameAhead(p: Pool, q: Pool)
    requires Inv(p) && Ahead(p) && q.sessions.Keys == p.sessions.Keys && q.nextId == p.nextId
    ensures Ahead(q) && 0xFFFF_FFFF_FFFF_FFFF !in q.sessions
  {
    assert forall id :: id in q.sessions <==> id in p.sessions.Keys;
  }

  lemma FreshIsFree(p: Pool, e: Event)
    requires e.Acquire? && Enabled(p, e) && Outcome(p, e).Ok? && Reused(p, e.domain, e.pick).None?
    ensures FirstFree(p.sessions.Keys, p.nextId, e.newId) && e.newId < 0x1_0000_0000_0000_0000
  {
    FirstFreeIsWord(p, e.newId);
  }

  lemma AcquireMovesCounter(p: Pool, e: Event)
    requires e.Acquire? && Enabled(p, e) && Outcome(p, e).Ok?
    ensures Reused(p, e.domain, e.pick).Some? ==> Step(p, e).nextId == p.nextId
    ensures Reused(p, e.domain, e.pick).None? ==>
              Step(p, e).nextId == if e.newId == 0xFFFF_FFFF_FFFF_FFFF then 0 else e.newId + 1
  {
    hide Draw, Chosen, FirstFree, ShouldRotate, PickOk;
    FirstFreeIsWord(p, e.newId);
    Wraps(e.newId);
  }

  lemma Wraps(id: nat)
    ensures id < WORD ==> (id + 1) % WORD == if id == 0xFFFF_FFFF_FFFF_FFFF then 0 else id + 1
  {
  }

  lemma RestoreAhead(p: Pool, e: Event)
    requires Inv(p) && Ahead(p) && e.Restore? && Enabled(p, e) && Outcome(p, e).Ok?
    ensures Ahead(Step(p, e)) <==> 0xFFFF_FFFF_FFFF_FFFF !in Step(p, e).sessions
  {
    hide FirstFree, Build;
    FirstFreeIsWord(p, e.newId);
    if e.snapshot.id in p.sessions {
      FreeAhead(p, e.newId);
    }
    var id, q := Outcome(p, e).value, Step(p, e);
    assert q.sessions.Keys == p.sessions.Keys + {id};
    assert id in q.sessions.Keys;
  }

  /** A step keeps the counter ahead exactly when no session then has the largest id. */
  lemma StaysAheadExactly(p: Pool, e: Event)
    requires Inv(p) && Ahead(p)
    ensures Ahead(Step(p, e)) <==> 0xFFFF_FFFF_FFFF_FFFF !in Step(p, e).sessions
  {
    hide Ahead, Inv, Step, Enabled, Outcome;
    if !Enabled(p, e) || Outcome(p, e).Err? {
      NothingHappens(p, e);
      SameAhead(p, Step(p, e));
    } else if e.Acquire? {
      AcquireAhead(p, e);
    } else if e.Restore? {
      RestoreAhead(p, e);
    } else {
      OthersKeepIds(p, e);
      SameAhead(p, Step(p, e));
    }
  }

  lemma NothingHappens(p: Pool, e: Event)
    requires !Enabled(p, e) || Outcome(p, e).Err?
    ensures Step(p, e) == p
  {
  }

  lemma OthersKeepIds(p: Pool, e: Event)
    requires !e.Acquire? && !e.Restore?
    ensures Step(p, e).sessions.Keys == p.sessions.Keys && Step(p, e).nextId == p.nextId
  {
    hide Draw;
  }

  lemma NobodyLeaves(p: Pool, e: Event)
    requires Inv(p)
    ensures p.sessions.Keys <= Step(p, e).sessions.Keys
  {
    hide Inv, Step;
    forall id | id in p.sessions
      ensures id in Step(p, e).sessions
    {
      StepKeepsPersonas(p, e, id);
    }
  }

  /** Over any run from an empty pool the counter is ahead of every id in it exactly when no
      session has the largest id of all. */
  lemma {:induction false} RunStaysAheadExactly(config: Config, es: seq<Event>)
    ensures Ahead(Run(New(config), es)) <==> 0xFFFF_FFFF_FFFF_FFFF !in Run(New(config), es).sessions
    ensures Inv(Run(New(config), es))
    decreases |es|
  {
    hide Inv, Step;
    if es == [] {
      NewKeepsInv(config);
    } else {
      var m := |es| - 1;
      var q := Run(New(config), es[..m]);
      RunStaysAheadExactly(config, es[..m]);
      StepKeepsInv(q, es[m]);
      NobodyLeaves(q, es[m]);
      if Ahead(q) {
        StaysAheadExactly(q, es[m]);
      } else {
        LargestIsNotBehind(Run(New(config), es));
      }
    }
  }

  lemma LargestIsNotBehind(p: Pool)
    requires Inv(p) && 0xFFFF_FFFF_FFFF_FFFF in p.sessions
    ensures !Ahead(p)
  {
  }

  /** So a new session's id is above every id there is. */
  lemma NewIdsRise(config: Config, es: seq<Event>, domain: string, pick: Option<nat>, newId: nat)
    requires 0xFFFF_FFFF_FFFF_FFFF !in Run(New(config), es).sessions
    requires OpensNew(Run(New(config), es), Acquire(domain, pick, newId))
    ensures var p := Run(New(config), es);
            && Outcome(p, Acquire(domain, pick, newId)) == Ok(p.nextId)
            && forall id | id in p.sessions :: id < p.nextId
  {
    hide Run, FirstFree;
    var p := Run(New(config), es);
    RunStaysAheadExactly(config, es);
    ReusedIsLive(p, domain, pick);
    FreeAhead(p, newId);
  }

  /** A restore under its own id moves the counter past it where it was not already; under
      another id, past that one; never beyond the largest. */
  lemma RestoreMovesCounter(p: Pool, snap: Snapshot, newId: nat, id: nat)
    requires Inv(p) && Grants(p, Restore(snap, newId), id)
    ensures var next := Step(p, Restore(snap, newId)).nextId;
            if id == 0xFFFF_FFFF_FFFF_FFFF then next == id
            else if snap.id in p.sessions then next == id + 1
            else next >= id + 1 && next >= p.nextId && (next == id + 1 || next == p.nextId)
  {
    hide FirstFree, Build;
    FirstFreeIsWord(p, newId);
    Wraps(id);
  }

  // ------------------------------------------------------------------ rotations

  /** A rotation gives the session the next seed, unburned and unused, binds the domain to
      it, and starts the policy's count again; nothing else changes. */
  lemma RotationLeaves(p: Pool, id: nat, domain: string)
    requires Inv(p) && id in p.sessions && p.sessions[id].inFlight == 0
    ensures var q, seed := Step(p, Rotate(id, domain)), Draw(p.nextSeed);
            && q.sessions == p.sessions[id := Session(id, seed, p.config.identify(seed), 0, 0, false)]
            && q.bindings == p.bindings[domain := id] && q.quarantine == p.quarantine
            && q.rotation.requestCount == 0 && q.rotation.previousTarget == p.rotation.previousTarget
  {
    hide Draw;
  }

  /** Under PerRequests(n) with a positive n the first request granted after a rotation opens
      a session. */
  lemma RotationStartsCountAgain(p: Pool, id: nat, target: string, domain: string, pick: Option<nat>, newId: nat)
    requires Inv(p) && id in p.sessions && p.sessions[id].inFlight == 0
    requires p.config.policy.PerRequests? && p.config.policy.n > 0
    requires Enabled(Step(p, Rotate(id, target)), Acquire(domain, pick, newId))
    requires Outcome(Step(p, Rotate(id, target)), Acquire(domain, pick, newId)).Ok?
    ensures OpensNew(Step(p, Rotate(id, target)), Acquire(domain, pick, newId))
  {
    StepKeepsInv(p, Rotate(id, target));
    ConfigStays(p, Rotate(id, target));
    RotationLeaves(p, id, target);
    hide Step, Enabled, Outcome, OpensNew, Inv, Draw;
    GrantedExactly(Step(p, Rotate(id, target)), domain, pick, newId);
    assert 0 % p.config.policy.n == 0;
  }

  /** A rotation is refused exactly for an unknown session or a busy one, saying which and how
      busy. */
  lemma RotationRefusedExactly(p: Pool, id: nat, domain: string)
    ensures Outcome(p, Rotate(id, domain)).Ok? <==> id in p.sessions && p.sessions[id].inFlight == 0
    ensures id !in p.sessions ==> Outcome(p, Rotate(id, domain)) == Err(SessionNotFound(id))
    ensures id in p.sessions && p.sessions[id].inFlight > 0 ==>
              Outcome(p, Rotate(id, domain)) == Err(RotationInProgress(id, p.sessions[id].inFlight))
  {
  }

  /** A release takes one from the session's in-flight count, or leaves an idle one idle. */
  lemma ReleaseLeaves(p: Pool, id: nat)
    requires id in p.sessions
    ensures var q, s := Step(p, Release(id)), p.sessions[id];
            && (s.inFlight > 0 ==> q == p.(sessions := p.sessions[id := s.(inFlight := s.inFlight - 1)]))
            && (s.inFlight == 0 ==> q.sessions == p.sessions)
  {
    assert p.sessions[id := p.sessions[id]] == p.sessions;
  }

  /** Releasing, rotating or burning an unknown session is refused by its id and changes nothing. */
  lemma UnknownIsRefused(p: Pool, e: Event)
    requires (e.Release? || e.Burn? || e.Rotate?) && e.id !in p.sessions
    ensures Outcome(p, e) == Err(SessionNotFound(e.id)) && Step(p, e) == p
  {
  }

  // ------------------------------------------------------------------ burned sessions

  /** Burning unbinds exactly the session's domains and quarantines exactly its seed. */
  lemma BurnLeaves(p: Pool, id: nat)
    requires id in p.sessions
    ensures var q := Step(p, Burn(id));
            && q.sessions == p.sessions[id := p.sessions[id].(burned := true)]
            && q.quarantine == p.quarantine + {p.sessions[id].seed}
            && (forall d :: d in q.bindings <==> d in p.bindings && p.bindings[d] != id)
            && (forall d | d in q.bindings :: q.bindings[d] == p.bindings[d])
            && q.rotation == p.rotation && q.config == p.config
  {
  }

  /** The session is burned, and nothing rotates it while idle. */
  ghost predicate StaysBurned(p: Pool, es: seq<Event>, id: nat)
    decreases |es|
  {
    && (es == [] ==> id in p.sessions && p.sessions[id].burned)
    && (es != [] ==>
          var m := |es| - 1;
          && StaysBurned(p, es[..m], id)
          && !(es[m].Rotate? && es[m].id == id && InFlight(Run(p, es[..m]), id) == 0))
  }

  lemma {:induction false} BurnedStays(p: Pool, es: seq<Event>, id: nat)
    requires Inv(p) && StaysBurned(p, es, id)
    ensures var q := Run(p, es);
            && Inv(q) && id in q.sessions && q.sessions[id].burned
            && id in p.sessions && q.sessions[id].seed == p.sessions[id].seed
    decreases |es|
  {
    hide Inv, Step;
    if es == [] {
    } else {
      var m := |es| - 1;
      BurnedStays(p, es[..m], id);
      StepKeepsInv(Run(p, es[..m]), es[m]);
      StepKeepsPersonas(Run(p, es[..m]), es[m], id);
    }
  }

  lemma BurnedIsQuarantined(p: Pool, id: nat)
    requires Inv(p) && id in p.sessions && p.sessions[id].burned
    ensures p.sessions[id].seed in p.quarantine
  {
  }

  /** Until it is rotated, a burned session is granted to no acquisition, and its snapshot,
      whenever it was taken, is refused. */
  lemma BurnedIsNeverServed(p: Pool, es: seq<Event>, id: nat, domain: string, pick: Option<nat>, newId: nat)
    requires Inv(p) && StaysBurned(p, es, id) && id in p.sessions
    ensures !Grants(Run(p, es), Acquire(domain, pick, newId), id)
    ensures Outcome(Run(p, es), Restore(SnapshotOf(p, id), newId)) == Err(PoolError.Burned(id))
  {
    hide Inv, Run, FirstFree;
    var q := Run(p, es);
    BurnedStays(p, es, id);
    BurnedIsQuarantined(q, id);
    if PickOk(q, pick) {
      ReusedIsLive(q, domain, pick);
    }
    FirstFreeIsWord(q, newId);
  }
}
