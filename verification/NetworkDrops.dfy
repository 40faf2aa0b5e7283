/**
 What the drop counter says of a subscriber that falls behind: nothing. The counter moves
 only while nobody listens, and a subscriber misses messages only while it listens.
 */
module NetworkDrops {
  import opened Wrappers
  import opened NetworkSpec
  import opened NetworkAccounting
  import opened NetworkWaiter

  // ------------------------------------------------------------------ while somebody listens

  ghost predicate SomebodyListens(s: Log, es: seq<Event>)
    decreases |es|
  {
    es == [] || (SomebodyListens(s, es[..|es| - 1]) && Run(s, es[..|es| - 1]).receivers > 0)
  }

  /** Whatever happens to the log, the counter stands still while somebody listens. */
  lemma {:induction false} DropsStandStill(s: Log, es: seq<Event>)
    requires SomebodyListens(s, es)
    ensures Run(s, es).metrics.broadcastDrops == s.metrics.broadcastDrops
    decreases |es|
  {
    hide Step, Has;
    if es == [] {
    } else {
      DropsStandStill(s, es[..|es| - 1]);
      StepDrops(Run(s, es[..|es| - 1]), es[|es| - 1]);
    }
  }

  // ------------------------------------------------------------------ the waiter's place

  /** How many subscribers there are besides the waiter. */
  function Others(before: nat, actions: seq<Action>): nat
    decreases |actions|
  {
    if actions == [] then before
    else
      match actions[|actions| - 1]
      case Ingest(Listening(others)) => others
      case _ => Others(before, actions[..|actions| - 1])
  }

  /** The waiter holds one receiver exactly while it listens, whatever it does and however
      the others come and go. */
  lemma {:induction false} WaiterIsCounted(y: System, actions: seq<Action>)
    requires y.waiter.phase.Idle?
    ensures var f := Acts(y, actions);
            f.log.receivers == Others(y.log.receivers, actions) + if Listens(f.waiter) then 1 else 0
    decreases |actions|
  {
    hide Found, Matches, Step;
    if actions == [] {
    } else {
      var n := |actions| - 1;
      WaiterIsCounted(y, actions[..n]);
      if actions[n].Ingest? {
        var z := Acts(y, actions[..n]);
        StepCountsReceivers(z.log, Counting(z.waiter, actions[n].event));
      }
    }
  }

  lemma StepCountsReceivers(s: Log, e: Event)
    ensures Step(s, e).receivers == if e.Listening? then e.receivers else s.receivers
  {
    hide Has, Stash, Take, Overflow;
  }

  /** Messages the channel has overwritten before the waiter received them. */
  function Missed(y: System): nat {
    if |y.log.sent| > y.waiter.cursor + 1024 then |y.log.sent| - y.waiter.cursor - 1024 else 0
  }

  /** A waiting receiver is told that it lags exactly when it has missed a message; otherwise
      it gets the next one, if there is one. */
  lemma LagsExactly(y: System)
    requires y.waiter.phase.Waiting? && y.waiter.cursor <= |y.log.sent|
    ensures Act(y, Receive).waiter.phase.Lagged? <==> Missed(y) > 0
    ensures Act(y, Receive) == y <==> y.waiter.cursor == |y.log.sent|
    ensures Missed(y) == 0 && y.waiter.cursor < |y.log.sent| ==>
              var w := Act(y, Receive).waiter;
              if Matches(y.waiter.goal, y.log.sent[y.waiter.cursor])
              then w.phase == Returned(y.log.sent[y.waiter.cursor])
              else w.phase.Waiting? && w.cursor == y.waiter.cursor + 1
  {
    hide Matches;
  }

  lemma {:induction false} CounterStaysWhileListening(z: System, actions: seq<Action>)
    requires Listens(z.waiter) && z.log.receivers > 0
    ensures var f := Acts(z, actions);
            && !f.waiter.phase.Idle?
            && (Listens(f.waiter) ==>
                  f.log.receivers > 0 && f.log.metrics.broadcastDrops == z.log.metrics.broadcastDrops)
    decreases |actions|
  {
    hide Found, Matches, Step;
    if actions == [] {
    } else {
      var n := |actions| - 1;
      CounterStaysWhileListening(z, actions[..n]);
      if actions[n].Ingest? {
        var f := Acts(z, actions[..n]);
        StepDrops(f.log, Counting(f.waiter, actions[n].event));
        StepCountsReceivers(f.log, Counting(f.waiter, actions[n].event));
      }
    }
  }

  /** From its subscription on, as long as it listens, what a subscriber has missed is in
      the drop counter exactly when it has missed nothing. */
  lemma MissedIsCountedExactly(y: System, actions: seq<Action>)
    requires y.waiter.phase.Idle?
    ensures var z := Act(y, Subscribe);
            var f := Acts(z, actions);
            Listens(f.waiter) ==>
              (f.log.metrics.broadcastDrops == z.log.metrics.broadcastDrops + Missed(f) <==> Missed(f) == 0)
  {
    CounterStaysWhileListening(Act(y, Subscribe), actions);
  }

  // ------------------------------------------------------------------ a slow subscriber

  function Burst(rs: seq<Request>): (actions: seq<Action>)
    ensures |actions| == |rs|
  {
    seq(|rs|, i requires 0 <= i < |rs| => Ingest(Requested(rs[i])))
  }

  function Opened(rs: seq<Request>): (entries: seq<Entry>)
    ensures |entries| == |rs|
  {
    seq(|rs|, i requires 0 <= i < |rs| => Entry(rs[i], None, None))
  }

  ghost predicate OwnIds(rs: seq<Request>) {
    forall i, j | 0 <= i < j < |rs| :: rs[i].id != rs[j].id
  }

  /** Any number of such requests, the ids told apart by their length. */
  function Numbered(n: nat): (rs: seq<Request>)
    ensures |rs| == n && OwnIds(rs)
  {
    seq(n, i requires 0 <= i < n => Request(seq(i, _ => 'x'), "", "", 0))
  }

  lemma {:induction false} BurstIsSent(z: System, rs: seq<Request>)
    requires z.log == New(0, 0).(receivers := 1) && z.waiter.phase.Waiting? && OwnIds(rs)
    ensures Acts(z, Burst(rs)) == z.(log := z.log.(
              entries := Opened(rs), sent := Opened(rs), metrics := NO_METRICS.(requestsReceived := |rs|)))
    decreases |rs|
  {
    if rs == [] {
    } else {
      hide Step, OwnIds, Opened, Burst;
      var n := |rs| - 1;
      assert OwnIds(rs[..n]) && !Has(Opened(rs[..n]), rs[n].id) by {
        NewId(rs);
      }
      BurstIsSent(z, rs[..n]);
      assert Burst(rs)[..n] == Burst(rs[..n]) && Burst(rs)[n] == Ingest(Requested(rs[n])) by {
        BurstGrows(rs);
      }
      OpenedGrows(rs);
      OneRequest(Acts(z, Burst(rs[..n])).log, rs[n]);
    }
  }

  lemma NewId(rs: seq<Request>)
    requires rs != [] && OwnIds(rs)
    ensures var n := |rs| - 1;
            OwnIds(rs[..n]) && !Has(Opened(rs[..n]), rs[n].id)
  {
  }

  lemma BurstGrows(rs: seq<Request>)
    requires rs != []
    ensures var n := |rs| - 1;
            Burst(rs)[..n] == Burst(rs[..n]) && Burst(rs)[n] == Ingest(Requested(rs[n]))
  {
  }

  lemma OpenedGrows(rs: seq<Request>)
    requires rs != []
    ensures var n := |rs| - 1;
            Opened(rs) == Opened(rs[..n]) + [Entry(rs[n], None, None)]
  {
  }

  /** A request for a new id, with no cap, nothing waiting and somebody listening. */
  lemma OneRequest(s: Log, r: Request)
    requires s.maxEntries == 0 && s.receivers > 0 && !Has(s.entries, r.id)
    requires s.pendingResponses == map[] && s.pendingErrors == map[]
    ensures var e := Entry(r, None, None);
            Step(s, Requested(r)) == s.(
              entries := s.entries + [e], sent := s.sent + [e],
              metrics := s.metrics.(requestsReceived := s.metrics.requestsReceived + 1))
  {
    hide Has;
    assert s.pendingResponses - {r.id} == map[] && s.pendingErrors - {r.id} == map[];
  }

  /** A caller subscribes, looks, and is slow to receive while 1025 requests are made: its
      oldest message is gone, it gives up, and the drop counter still stands at zero. */
  lemma SlowSubscriberIsUncounted(id: string, rs: seq<Request>)
    requires OwnIds(rs) && |rs| == 1025
    ensures var start := System(New(0, 0), Waiter(ForResponse(id), Idle, 0));
            var late := Acts(Acts(start, [Subscribe, Check]), Burst(rs));
            && Missed(late) == 1 && late.log.metrics.broadcastDrops == 0
            && Act(late, Receive).waiter.phase.Lagged?
            && Act(late, Receive).log.metrics.broadcastDrops == 0
  {
    var start := System(New(0, 0), Waiter(ForResponse(id), Idle, 0));
    assert [Subscribe, Check][..1] == [Subscribe] && [Subscribe][..0] == [];
    assert Acts(start, []) == start && Acts(start, [Subscribe]) == Join(start);
    var z := Acts(start, [Subscribe, Check]);
    assert z == Act(Join(start), Check);
    BurstIsSent(z, rs);
  }
}
