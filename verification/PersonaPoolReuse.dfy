/**
 A pool that never rotates: one session serves every domain until it is burned. When a
 second unburned session comes about, which of them serves is up to the hash table.
 */
module PersonaPoolReuse {
  import opened Wrappers
  import opened PersonaPoolSpec
  import opened PersonaPoolSafety

  predicate Unburned(p: Pool, id: nat) {
    id in p.sessions && !p.sessions[id].burned
  }

  ghost predicate AtMostOne(p: Pool) {
    forall a, b | Unburned(p, a) && Unburned(p, b) :: a == b
  }

  predicate SomeUnburned(p: Pool) {
    exists id | id in p.sessions :: !p.sessions[id].burned
  }

  /** A restore, or the rotation of a burned session, while another session is unburned. */
  ghost predicate AddsUnburned(p: Pool, e: Event) {
    && Enabled(p, e) && Outcome(p, e).Ok? && SomeUnburned(p)
    && match e
       case Restore(_, _) => true
       case Rotate(id, _) => p.sessions[id].burned
       case _ => false
  }

  /** An acquisition opens a session only when all are burned. */
  lemma AcquireKeepsOne(p: Pool, domain: string, pick: Option<nat>, newId: nat)
    requires p.config.policy.Never? && AtMostOne(p)
    ensures AtMostOne(Step(p, Acquire(domain, pick, newId)))
  {
    hide Step, FirstFree, AtLimit;
    var e := Acquire(domain, pick, newId);
    var q := Step(p, e);
    if !Enabled(p, e) || Outcome(p, e).Err? {
      RefusedDoesNothing(p, e);
    } else {
      AcquireEffect(p, domain, pick, newId);
      forall a, b | Unburned(q, a) && Unburned(q, b)
        ensures a == b
      {
        if a in p.sessions {
          AcquireKeepsPersonas(p, domain, pick, newId, a);
          assert Unburned(p, a);
        }
        if b in p.sessions {
          AcquireKeepsPersonas(p, domain, pick, newId, b);
          assert Unburned(p, b);
        }
      }
    }
  }

  lemma RefusedDoesNothing(p: Pool, e: Event)
    requires !Enabled(p, e) || Outcome(p, e).Err?
    ensures Step(p, e) == p
  {
  }

  /** Putting in an unburned session keeps at most one exactly when no other is unburned. */
  lemma PutKeepsOne(p: Pool, id: nat, s: Session, q: Pool)
    requires AtMostOne(p) && q.sessions == p.sessions[id := s] && !s.burned
    ensures AtMostOne(q) <==> forall other | Unburned(p, other) :: other == id
  {
    if other :| Unburned(p, other) && other != id {
      assert Unburned(q, other) && Unburned(q, id);
    }
    assert forall a | Unburned(q, a) :: a == id || Unburned(p, a);
  }

  /** A step keeps at most one session unburned exactly when it is neither a restore nor the
      rotation of a burned session while one is unburned. */
  lemma StepKeepsOneExactly(p: Pool, e: Event)
    requires Inv(p) && p.config.policy.Never? && AtMostOne(p)
    ensures AtMostOne(Step(p, e)) <==> !AddsUnburned(p, e)
  {
    hide Draw, FirstFree, PickOk, Inv;
    if Enabled(p, e) && Outcome(p, e).Ok? {
      var id, q := Outcome(p, e).value, Step(p, e);
      match e
      case Acquire(domain, pick, newId) => AcquireKeepsOne(p, domain, pick, newId);
      case Rotate(_, _) =>
        hide AtMostOne;
        PutKeepsOne(p, id, q.sessions[id], q);
        OnlyItself(p, id);
      case Restore(_, newId) =>
        hide AtMostOne;
        FirstFreeIsWord(p, newId);
        PutKeepsOne(p, id, q.sessions[id], q);
        OnlyItself(p, id);
      case _ =>
        assert forall a | Unburned(q, a) :: Unburned(p, a);
    }
  }

  lemma OnlyItself(p: Pool, id: nat)
    requires AtMostOne(p)
    ensures (forall other | Unburned(p, other) :: other == id) <==> !(SomeUnburned(p) && !Unburned(p, id))
  {
    if other :| other in p.sessions && !p.sessions[other].burned {
      assert Unburned(p, other);
    }
  }

  ghost predicate OneAlong(p: Pool, es: seq<Event>)
    decreases |es|
  {
    AtMostOne(Run(p, es)) && (es != [] ==> OneAlong(p, es[..|es| - 1]))
  }

  ghost predicate NeverAdds(p: Pool, es: seq<Event>)
    decreases |es|
  {
    es == [] || (NeverAdds(p, es[..|es| - 1]) && !AddsUnburned(Run(p, es[..|es| - 1]), es[|es| - 1]))
  }

  /** Over any run, at most one session is unburned in every state exactly when no step
      adds an unburned one to another. */
  lemma {:induction false} OnePersonaExactly(p: Pool, es: seq<Event>)
    requires Inv(p) && p.config.policy.Never? && AtMostOne(p)
    ensures OneAlong(p, es) <==> NeverAdds(p, es)
    ensures Run(p, es).config == p.config
    decreases |es|
  {
    hide Inv, Step, AtMostOne, AddsUnburned;
    if es == [] {
    } else {
      var m := |es| - 1;
      OnePersonaExactly(p, es[..m]);
      RunKeepsInv(p, es[..m]);
      ConfigStays(Run(p, es[..m]), es[m]);
      if AtMostOne(Run(p, es[..m])) {
        StepKeepsOneExactly(Run(p, es[..m]), es[m]);
      }
    }
  }

  /** The run neither burns the session nor rotates it. */
  predicate LeavesAlone(es: seq<Event>, id: nat) {
    forall i | 0 <= i < |es| :: !(es[i].Burn? && es[i].id == id) && !(es[i].Rotate? && es[i].id == id)
  }

  lemma StepKeepsUnburned(p: Pool, e: Event, id: nat)
    requires Inv(p) && Unburned(p, id) && !(e.Burn? && e.id == id)
    ensures Unburned(Step(p, e), id)
  {
    hide Draw, Chosen, FirstFree, PickOk;
    if e.Acquire? {
      hide Build;
      AcquireKeepsPersonas(p, e.domain, e.pick, e.newId, id);
    } else if e.Restore? {
      FirstFreeIsWord(p, e.newId);
    }
  }

  lemma {:induction false} RunKeepsUnburned(p: Pool, es: seq<Event>, id: nat)
    requires Inv(p) && Unburned(p, id) && LeavesAlone(es, id)
    ensures var q := Run(p, es);
            && Unburned(q, id)
            && q.sessions[id].seed == p.sessions[id].seed && q.sessions[id].identity == p.sessions[id].identity
    decreases |es|
  {
    hide Inv, Step;
    if es == [] {
    } else {
      var m := |es| - 1;
      RunKeepsInv(p, es[..m]);
      RunKeepsUnburned(p, es[..m], id);
      StepKeepsUnburned(Run(p, es[..m]), es[m], id);
      StepKeepsPersonas(Run(p, es[..m]), es[m], id);
    }
  }

  /** While at most one session is unburned, every acquisition, for whatever domain, returns
      the unburned one with the persona it had, until it is burned or rotated; the only
      refusal is the cap's. */
  lemma OnePersonaServesAll(p: Pool, es: seq<Event>, id: nat, domain: string, pick: Option<nat>, newId: nat)
    requires Inv(p) && p.config.policy.Never? && AtMostOne(p) && Unburned(p, id)
    requires NeverAdds(p, es) && LeavesAlone(es, id)
    requires Enabled(Run(p, es), Acquire(domain, pick, newId))
    ensures var q := Run(p, es);
            && Outcome(q, Acquire(domain, pick, newId)) ==
                 (if AtLimit(q, domain) then Err(AtCapacity(p.config.maxSessions)) else Ok(id))
            && id in q.sessions
            && q.sessions[id].seed == p.sessions[id].seed && q.sessions[id].identity == p.sessions[id].identity
  {
    hide Inv, Run, FirstFree, NeverAdds, LeavesAlone;
    OnePersonaExactly(p, es);
    OneAtEnd(p, es);
    RunKeepsUnburned(p, es, id);
    PickedIsUnburned(Run(p, es), pick, id);
  }

  lemma OneAtEnd(p: Pool, es: seq<Event>)
    requires OneAlong(p, es)
    ensures AtMostOne(Run(p, es))
  {
  }

  lemma PickedIsUnburned(p: Pool, pick: Option<nat>, id: nat)
    requires PickOk(p, pick) && AtMostOne(p) && Unburned(p, id)
    ensures pick == Some(id)
  {
    if pick.Some? {
      assert Unburned(p, pick.value);
    }
  }

  /** The hash table's order can offer the session to an acquisition of the domain. */
  ghost predicate Serves(p: Pool, domain: string, id: nat) {
    exists pick, newId :: Granted(p, Acquire(domain, pick, newId), id)
  }

  ghost predicate Granted(p: Pool, e: Event, id: nat) {
    Enabled(p, e) && Outcome(p, e) == Ok(id)
  }

  /** Which session an acquisition gets is determined exactly while at most one is unburned:
      with two, either may be handed out. */
  lemma ServedIsDeterminedExactly(p: Pool, domain: string)
    requires p.config.policy.Never? && !AtLimit(p, domain)
    ensures AtMostOne(p) <==> forall a, b | Serves(p, domain, a) && Serves(p, domain, b) :: a == b
  {
    hide FirstFree, AtLimit;
    forall a, b | AtMostOne(p) && Serves(p, domain, a) && Serves(p, domain, b)
      ensures a == b
    {
      ServedIsTheOne(p, domain, a, b);
    }
    forall a | Unburned(p, a)
      ensures Serves(p, domain, a)
    {
      assert Granted(p, Acquire(domain, Some(a), 0), a);
    }
  }

  lemma ServedIsTheOne(p: Pool, domain: string, a: nat, b: nat)
    requires p.config.policy.Never? && !AtLimit(p, domain) && AtMostOne(p)
    requires Serves(p, domain, a) && Serves(p, domain, b)
    ensures a == b
  {
    hide FirstFree, AtLimit;
    var pickA, newA :| Granted(p, Acquire(domain, pickA, newA), a);
    var pickB, newB :| Granted(p, Acquire(domain, pickB, newB), b);
    if pickA.Some? {
      PickedIsUnburned(p, pickB, pickA.value);
    } else {
      FirstFreeIsUnique(p.sessions.Keys, p.nextId, newA, newB);
    }
  }
}
