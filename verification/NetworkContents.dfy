/**
 What the log holds after any legal run, whatever the caps and whatever its callers remove,
 retain, clear or drain: the requests that opened an entry and have not left since, in the
 order they were made, each with the last outcomes since its own were last taken out.
 */
module NetworkContents {
  import opened Wrappers
  import opened Sequences
  import opened SortedLists
  import opened NetworkSpec
  import opened NetworkHistory
  import opened NetworkLedger
  import opened NetworkFreshness

  ghost predicate Opens(s: Log, e: Event) {
    e.Requested? && !Has(s.entries, e.request.id)
  }

  /** Evicted, removed, not retained, or cleared. */
  ghost predicate Leaves(s: Log, e: Event, id: string) {
    Has(Leaving(s, e), id)
  }

  /** Step `t` of the run opens an entry, and no later step makes that entry leave. */
  ghost predicate Lives(s: Log, es: seq<Event>, t: nat)
    requires t < |es|
    decreases |es|
  {
    var n := |es| - 1;
    var q := Run(s, es[..n]);
    if t == n then Opens(q, es[n])
    else Lives(s, es[..n], t) && es[t].Requested? && !Leaves(q, es[n], es[t].request.id)
  }

  function StepIf(t: nat, lives: bool): seq<nat> {
    if lives then [t] else []
  }

  /** Those steps among the first `n`, in order. */
  ghost function LiveSteps(s: Log, es: seq<Event>, n: nat): (ts: seq<nat>)
    requires n <= |es|
    ensures forall t | t in ts :: t < n && Lives(s, es, t) && es[t].Requested?
  {
    if n == 0 then [] else LiveSteps(s, es, n - 1) + StepIf(n - 1, Lives(s, es, n - 1))
  }

  function ResponseIn(o: Option<Outcome>): Option<Response> {
    if o.Some? && o.value.Answered? then Some(o.value.response) else None
  }

  function ErrorIn(o: Option<Outcome>): Option<FetchError> {
    if o.Some? && o.value.Errored? then Some(o.value.error) else None
  }

  /** The last outcome since one of that id was last taken out. */
  ghost function Latest(s: Log, es: seq<Event>, k: Kind, id: string): Option<Outcome> {
    Last(es[LastTaken(s, es, k, id)..], k, id)
  }

  ghost function EntryAt(s: Log, es: seq<Event>, t: nat): Entry
    requires t < |es| && es[t].Requested?
  {
    var r := es[t].request;
    Entry(r, ResponseIn(Latest(s, es, ResponseKind, r.id)), ErrorIn(Latest(s, es, ErrorKind, r.id)))
  }

  /** The entries of the live steps. */
  ghost function Contents(s: Log, es: seq<Event>): seq<Entry> {
    var ts := LiveSteps(s, es, |es|);
    seq(|ts|, i requires 0 <= i < |ts| => assert ts[i] in ts; EntryAt(s, es, ts[i]))
  }

  // ------------------------------------------------------------------ one step on the requests

  /** Which entries stay. */
  ghost function Staying(s: Log, e: Event): (keep: seq<bool>)
    ensures |keep| == |s.entries|
    ensures forall i | 0 <= i < |keep| :: keep[i] <==> !Leaves(s, e, s.entries[i].request.id)
  {
    seq(|s.entries|, i requires 0 <= i < |s.entries| => !Leaves(s, e, s.entries[i].request.id))
  }

  ghost predicate MovesRequests(s: Log, e: Event) {
    RequestsOf(Step(s, e).entries) ==
    Select(RequestsOf(s.entries), Staying(s, e)) + if Opens(s, e) then [e.request] else []
  }

  lemma {:induction false} SelectAll<T>(s: seq<T>, keep: seq<bool>)
    requires |s| == |keep| && forall i | 0 <= i < |keep| :: keep[i]
    ensures Select(s, keep) == s
  {
    if s == [] {
    } else {
      SelectAll(s[1..], keep[1..]);
    }
  }

  lemma {:induction false} SelectNone<T>(s: seq<T>, keep: seq<bool>)
    requires |s| == |keep| && forall i | 0 <= i < |keep| :: !keep[i]
    ensures Select(s, keep) == []
  {
    if s == [] {
    } else {
      SelectNone(s[1..], keep[1..]);
    }
  }

  lemma {:induction false} SelectTail<T>(s: seq<T>, keep: seq<bool>, n: nat)
    requires |s| == |keep| && n <= |s| && forall i | 0 <= i < |keep| :: keep[i] <==> n <= i
    ensures Select(s, keep) == s[n..]
    decreases n
  {
    if n == 0 {
      SelectAll(s, keep);
    } else {
      SelectTail(s[1..], keep[1..], n - 1);
    }
  }

  lemma {:induction false} SelectRequests(entries: seq<Entry>, keep: seq<bool>)
    requires |entries| == |keep|
    ensures RequestsOf(Select(entries, keep)) == Select(RequestsOf(entries), keep)
  {
    if entries == [] {
    } else {
      SelectRequests(entries[1..], keep[1..]);
      assert RequestsOf(entries)[1..] == RequestsOf(entries[1..]);
    }
  }

  lemma {:induction false} SelectElements<T>(s: seq<T>, keep: seq<bool>, x: T)
    requires |s| == |keep|
    ensures x in Select(s, keep) <==> exists i | 0 <= i < |s| :: keep[i] && s[i] == x
  {
    if s == [] {
    } else {
      SelectElements(s[1..], keep[1..], x);
      if i :| 0 <= i < |s[1..]| && keep[1..][i] && s[1..][i] == x {
        assert keep[i + 1] && s[i + 1] == x;
      }
    }
  }

  lemma StepMovesRequests(s: Log, e: Event)
    requires Inv(s) && Enabled(s, e)
    ensures MovesRequests(s, e)
  {
    hide Inv, MovesRequests, Enabled;
    match e
    case Requested(r) => RequestMoves(s, r);
    case Removed(id) => RemovalMoves(s, id);
    case Retained(keep) => RetentionMoves(s, keep);
    case Cleared => ClearMoves(s);
    case _ => NothingMoves(s, e);
  }

  lemma NothingMoves(s: Log, e: Event)
    requires e.Responded? || e.Failed? || e.Drained? || e.Listening?
    ensures MovesRequests(s, e)
  {
    hide Has, Step, RequestsOf;
    assert Leaving(s, e) == [];
    NothingHasAny();
    SelectAll(RequestsOf(s.entries), Staying(s, e));
    SameRequestsStay(s, e);
  }

  lemma NothingHasAny()
    ensures forall id :: !Has([], id)
  {
  }

  lemma SameRequestsStay(s: Log, e: Event)
    requires e.Responded? || e.Failed? || e.Drained? || e.Listening?
    ensures RequestsOf(Step(s, e).entries) == RequestsOf(s.entries)
  {
    hide Has;
    if !e.Drained? {
      OutcomesMoveNothing(s, e);
    }
  }

  lemma ClearMoves(s: Log)
    ensures MovesRequests(s, Cleared)
  {
    forall i | 0 <= i < |s.entries|
      ensures Has(s.entries, s.entries[i].request.id)
    {
    }
    SelectNone(RequestsOf(s.entries), Staying(s, Cleared));
  }

  lemma RetentionMoves(s: Log, keep: seq<bool>)
    requires Inv(s) && Enabled(s, Retained(keep))
    ensures MovesRequests(s, Retained(keep))
  {
    hide Inv, Has, Select;
    InvMeansUnique(s);
    forall i | 0 <= i < |keep|
      ensures Staying(s, Retained(keep))[i] == keep[i]
    {
      RefusedLeaves(s.entries, keep, i);
    }
    assert Staying(s, Retained(keep)) == keep;
    SelectRequests(s.entries, keep);
  }

  lemma RefusedLeaves(entries: seq<Entry>, keep: seq<bool>, i: nat)
    requires UniqueIds(entries) && |entries| == |keep| && i < |entries|
    ensures Has(Select(entries, Negate(keep)), entries[i].request.id) <==> !keep[i]
  {
    hide Select;
    var out := Select(entries, Negate(keep));
    SelectElements(entries, Negate(keep), entries[i]);
    if Has(out, entries[i].request.id) {
      var e := out[IndexOf(out, entries[i].request.id)];
      SelectElements(entries, Negate(keep), e);
      var j :| 0 <= j < |entries| && Negate(keep)[j] && entries[j] == e;
      assert j == i;
    }
    if !keep[i] {
      assert entries[i] in out;
    }
  }

  lemma RemovalMoves(s: Log, id: string)
    requires Inv(s)
    ensures MovesRequests(s, Removed(id))
  {
    hide Inv, Has, Select, Step;
    InvMeansUnique(s);
    RemoveIsRetain(s, id);
    hide UniqueIds;
    var others := Others(s.entries, id);
    forall i | 0 <= i < |others|
      ensures Staying(s, Removed(id))[i] == others[i]
    {
      RemovedLeaves(s, id, i);
    }
    assert Staying(s, Removed(id)) == others;
    SelectRequests(s.entries, others);
    RetainedStep(s, others);
  }

  lemma RetainedStep(s: Log, keep: seq<bool>)
    requires |keep| == |s.entries|
    ensures Step(s, Retained(keep)).entries == Select(s.entries, keep)
  {
  }

  lemma RemovedLeaves(s: Log, id: string, i: nat)
    requires i < |s.entries|
    ensures Leaves(s, Removed(id), s.entries[i].request.id) <==> s.entries[i].request.id == id
  {
    if s.entries[i].request.id == id {
      assert Has(s.entries, id);
      assert Leaving(s, Removed(id))[0].request.id == id;
    }
  }

  lemma RequestMoves(s: Log, r: Request)
    requires Inv(s)
    ensures MovesRequests(s, Requested(r))
  {
    hide Inv, Has, Step, Overflow, RequestsOf, UniqueIds, Arrival, Select;
    InvMeansUnique(s);
    RequestStep(s, r);
    RequestEffect(s, r);
    ArrivalRequests(s, r);
    var keep := Staying(s, Requested(r));
    if Has(s.entries, r.id) {
      NothingHasAny();
      SelectAll(RequestsOf(s.entries), keep);
    } else {
      var n := Overflow(|s.entries|, s.maxEntries);
      forall i | 0 <= i < |keep|
        ensures keep[i] <==> n <= i
      {
        FoundAt(s.entries, i);
        SplitHas(s.entries, n, s.entries[i].request.id);
      }
      SelectTail(RequestsOf(s.entries), keep, n);
      RequestsSlide(s.entries, n, Arrival(s, r));
    }
  }

  // ------------------------------------------------------------------ whole runs

  ghost predicate AreRequests(es: seq<Event>, ts: seq<nat>) {
    forall t | t in ts :: t < |es| && es[t].Requested?
  }

  function RequestsAt(es: seq<Event>, ts: seq<nat>): (rs: seq<Request>)
    requires AreRequests(es, ts)
    ensures |rs| == |ts|
  {
    if ts == [] then []
    else
      assert forall t | t in ts[1..] :: t in ts;
      assert ts[0] in ts;
      [es[ts[0]].request] + RequestsAt(es, ts[1..])
  }

  lemma {:induction false} RequestsAtIndex(es: seq<Event>, ts: seq<nat>, i: nat)
    requires AreRequests(es, ts) && i < |ts|
    ensures ts[i] in ts && RequestsAt(es, ts)[i] == es[ts[i]].request
  {
    if i == 0 {
    } else {
      assert forall t | t in ts[1..] :: t in ts;
      RequestsAtIndex(es, ts[1..], i - 1);
    }
  }

  lemma {:induction false} SelectSnoc<T>(s: seq<T>, x: T, keep: seq<bool>, k: bool)
    requires |s| == |keep|
    ensures Select(s + [x], keep + [k]) == Select(s, keep) + if k then [x] else []
  {
    if s == [] {
    } else {
      SelectSnoc(s[1..], x, keep[1..], k);
      assert (s + [x])[1..] == s[1..] + [x] && (keep + [k])[1..] == keep[1..] + [k];
    }
  }

  /** Of the steps that lived before the last one, those it does not make leave. */
  ghost function Surviving(s: Log, es: seq<Event>, ts: seq<nat>): (keep: seq<bool>)
    requires es != [] && AreRequests(es, ts)
    ensures |keep| == |ts|
  {
    var n := |es| - 1;
    seq(|ts|, i requires 0 <= i < |ts| =>
      assert ts[i] in ts;
      !Leaves(Run(s, es[..n]), es[n], es[ts[i]].request.id))
  }

  /** The last step thins out what lived before it. */
  ghost predicate Thins(s: Log, es: seq<Event>, before: seq<nat>, after: seq<nat>)
    requires es != []
  {
    AreRequests(es, before) && after == Select(before, Surviving(s, es, before))
  }

  lemma {:induction false} LiveStepsThin(s: Log, es: seq<Event>, m: nat)
    requires m < |es|
    ensures Thins(s, es, LiveSteps(s, es[..|es| - 1], m), LiveSteps(s, es, m))
    decreases m
  {
    hide Lives, Thins;
    if m == 0 {
      NoneLive(s, es);
    } else {
      LiveStepsThin(s, es, m - 1);
      ThinsOn(s, es, LiveSteps(s, es[..|es| - 1], m - 1), LiveSteps(s, es, m - 1), m - 1);
    }
  }

  lemma ThinsOn(s: Log, es: seq<Event>, before: seq<nat>, after: seq<nat>, t: nat)
    requires t < |es| - 1 && Thins(s, es, before, after)
    ensures Thins(s, es, before + StepIf(t, Lives(s, es[..|es| - 1], t)), after + StepIf(t, Lives(s, es, t)))
  {
    hide Lives, Select, Surviving, AreRequests, Leaves;
    LivesOn(s, es, t);
    if Lives(s, es[..|es| - 1], t) {
      SurvivingSnoc(s, es, before, t);
      SelectSnoc(before, t, Surviving(s, es, before), Lives(s, es, t));
    } else {
      assert before + [] == before && after + [] == after;
    }
  }

  lemma NoneLive(s: Log, es: seq<Event>)
    requires es != []
    ensures Thins(s, es, [], [])
  {
  }

  lemma SurvivingSnoc(s: Log, es: seq<Event>, ts: seq<nat>, t: nat)
    requires AreRequests(es, ts) && t < |es| - 1 && Lives(s, es[..|es| - 1], t)
    ensures AreRequests(es, ts + [t])
    ensures Surviving(s, es, ts + [t]) == Surviving(s, es, ts) + [Lives(s, es, t)]
  {
    hide Leaves, Lives, Run;
    LivesOn(s, es, t);
    assert forall i | 0 <= i < |ts| :: (ts + [t])[i] == ts[i] && ts[i] in ts;
  }

  lemma LivesOn(s: Log, es: seq<Event>, t: nat)
    requires t < |es| - 1
    ensures Lives(s, es[..|es| - 1], t) ==> es[t].Requested?
    ensures Lives(s, es, t) <==>
            Lives(s, es[..|es| - 1], t) && !Leaves(Run(s, es[..|es| - 1]), es[|es| - 1], es[t].request.id)
  {
    hide Leaves;
  }

  lemma {:induction false} SelectAt(es: seq<Event>, ts: seq<nat>, keep: seq<bool>)
    requires AreRequests(es, ts) && |ts| == |keep|
    ensures AreRequests(es, Select(ts, keep))
    ensures RequestsAt(es, Select(ts, keep)) == Select(RequestsAt(es, ts), keep)
  {
    if ts == [] {
    } else {
      assert forall t | t in ts[1..] :: t in ts;
      SelectAt(es, ts[1..], keep[1..]);
    }
  }

  lemma {:induction false} RequestsAtSnoc(es: seq<Event>, ts: seq<nat>, t: nat)
    requires AreRequests(es, ts) && t < |es| && es[t].Requested?
    ensures AreRequests(es, ts + [t]) && RequestsAt(es, ts + [t]) == RequestsAt(es, ts) + [es[t].request]
  {
    if ts == [] {
    } else {
      assert forall u | u in ts[1..] :: u in ts;
      RequestsAtSnoc(es, ts[1..], t);
      assert (ts + [t])[1..] == ts[1..] + [t];
    }
  }

  lemma {:induction false} RequestsAtFront(es: seq<Event>, n: nat, ts: seq<nat>)
    requires n <= |es| && AreRequests(es[..n], ts)
    ensures AreRequests(es, ts) && RequestsAt(es, ts) == RequestsAt(es[..n], ts)
  {
    if ts == [] {
    } else {
      assert forall t | t in ts[1..] :: t in ts;
      RequestsAtFront(es, n, ts[1..]);
    }
  }

  /** The requests in the log are those of the live steps, in order. */
  lemma {:induction false} LiveRequests(es: seq<Event>, maxEntries: nat, maxPending: nat)
    requires Legal(New(maxEntries, maxPending), es)
    ensures var start := New(maxEntries, maxPending);
            var ts := LiveSteps(start, es, |es|);
            AreRequests(es, ts) && RequestsAt(es, ts) == RequestsOf(Run(start, es).entries)
    decreases |es|
  {
    hide Inv, Step, Enabled, Leaves, Opens, AreRequests, RequestsAt, Select, Lives, Surviving, RequestsOf;
    var start := New(maxEntries, maxPending);
    if es == [] {
      NothingRequested(start);
    } else {
      var n := |es| - 1;
      var q := Run(start, es[..n]);
      var ts := LiveSteps(start, es[..n], n);
      LiveRequests(es[..n], maxEntries, maxPending);
      ReachableInv(maxEntries, maxPending, es[..n]);
      StepMovesRequests(q, es[n]);
      LiveStepsThin(start, es, n);
      RequestsAtFront(es, n, ts);
      SurvivingIsStaying(start, es, ts);
      SelectAt(es, ts, Surviving(start, es, ts));
      assert Lives(start, es, n) == Opens(q, es[n]) by {
        LastLives(start, es);
      }
      if Opens(q, es[n]) {
        OpensRequest(q, es[n]);
        RequestsAtSnoc(es, Select(ts, Surviving(start, es, ts)), n);
      } else {
        assert LiveSteps(start, es, n) + [] == LiveSteps(start, es, n);
      }
    }
  }

  lemma NothingRequested(s: Log)
    requires s.entries == []
    ensures AreRequests([], LiveSteps(s, [], 0)) && RequestsAt([], LiveSteps(s, [], 0)) == RequestsOf(s.entries)
  {
  }

  lemma LastLives(s: Log, es: seq<Event>)
    requires es != []
    ensures Lives(s, es, |es| - 1) == Opens(Run(s, es[..|es| - 1]), es[|es| - 1])
  {
  }

  lemma OpensRequest(s: Log, e: Event)
    requires Opens(s, e)
    ensures e.Requested?
  {
  }

  lemma SurvivingIsStaying(s: Log, es: seq<Event>, ts: seq<nat>)
    requires es != [] && AreRequests(es, ts)
    requires RequestsAt(es, ts) == RequestsOf(Run(s, es[..|es| - 1]).entries)
    ensures Surviving(s, es, ts) == Staying(Run(s, es[..|es| - 1]), es[|es| - 1])
  {
    hide Leaves, AreRequests, RequestsAt, Run;
    var n := |es| - 1;
    var q := Run(s, es[..n]);
    assert |ts| == |RequestsAt(es, ts)| == |RequestsOf(q.entries)|;
    forall i | 0 <= i < |ts|
      ensures Surviving(s, es, ts)[i] == Staying(q, es[n])[i]
    {
      RequestsAtIndex(es, ts, i);
      assert RequestsOf(q.entries)[i] == q.entries[i].request;
    }
  }

  /** The log, exactly, after every legal run from an empty log with any caps. */
  lemma ContentsExactly(es: seq<Event>, maxEntries: nat, maxPending: nat)
    requires Legal(New(maxEntries, maxPending), es)
    ensures Run(New(maxEntries, maxPending), es).entries == Contents(New(maxEntries, maxPending), es)
  {
    hide Inv, Run, Legal, Lives, LiveSteps, AreRequests, RequestsAt, Held, Last, LastTaken;
    var start := New(maxEntries, maxPending);
    var s, ts := Run(start, es), LiveSteps(start, es, |es|);
    LiveRequests(es, maxEntries, maxPending);
    ReachableInv(maxEntries, maxPending, es);
    HeldIsEverything(s, ResponseKind);
    HeldIsEverything(s, ErrorKind);
    assert |ts| == |RequestsAt(es, ts)| == |RequestsOf(s.entries)|;
    forall i | 0 <= i < |s.entries|
      ensures s.entries[i] == Contents(start, es)[i]
    {
      var id := s.entries[i].request.id;
      RequestsAtIndex(es, ts, i);
      assert RequestsOf(s.entries)[i] == s.entries[i].request;
      HeldExactly(es, maxEntries, maxPending, ResponseKind, id);
      HeldExactly(es, maxEntries, maxPending, ErrorKind, id);
      assert Held(s, ResponseKind, id) == Shown(s.entries[i], ResponseKind);
      assert Held(s, ErrorKind, id) == Shown(s.entries[i], ErrorKind);
    }
  }

  /** So is what waits: the outcomes of ids without an entry. */
  lemma WaitingExactly(es: seq<Event>, maxEntries: nat, maxPending: nat, k: Kind, id: string)
    requires Legal(New(maxEntries, maxPending), es)
    ensures var start := New(maxEntries, maxPending);
            Pending(Run(start, es), k, id) ==
            if Has(Contents(start, es), id) then None else Latest(start, es, k, id)
  {
    hide Inv, Run, Legal, Contents, Last, LastTaken, Pending, Has, Shown;
    var start := New(maxEntries, maxPending);
    ContentsExactly(es, maxEntries, maxPending);
    HeldExactly(es, maxEntries, maxPending, k, id);
    ReachableInv(maxEntries, maxPending, es);
    if Has(Run(start, es).entries, id) {
      LiveHasNoPending(Run(start, es), k, id);
    }
  }
}
