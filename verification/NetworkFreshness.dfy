/**
 No lost and no stale outcomes: whatever the caps and the caller's removals and drains,
 the log holds for an id exactly the last outcome that came in since its last one was
 taken out. Responses and failures are treated alike.
 */
module NetworkFreshness {
  import opened Wrappers
  import opened Sequences
  import opened NetworkSpec
  import opened NetworkHistory

  datatype Kind = ResponseKind | ErrorKind

  datatype Outcome = Answered(response: Response) | Errored(error: FetchError)

  function OfResponse(r: Option<Response>): Option<Outcome> {
    if r.Some? then Some(Answered(r.value)) else None
  }

  function OfError(f: Option<FetchError>): Option<Outcome> {
    if f.Some? then Some(Errored(f.value)) else None
  }

  function Shown(e: Entry, k: Kind): Option<Outcome> {
    match k
    case ResponseKind => OfResponse(e.response)
    case ErrorKind => OfError(e.error)
  }

  function Pending(s: Log, k: Kind, id: string): Option<Outcome> {
    match k
    case ResponseKind => OfResponse(Take(s.pendingResponses, id))
    case ErrorKind => OfError(Take(s.pendingErrors, id))
  }

  /** What the log has of an id: what its entry shows, or without an entry what waits for it. */
  ghost function Held(s: Log, k: Kind, id: string): Option<Outcome> {
    if Has(s.entries, id) then Shown(s.entries[IndexOf(s.entries, id)], k) else Pending(s, k, id)
  }

  // ------------------------------------------------------------------ coming in, going out

  function Brings(e: Event, k: Kind, id: string): Option<Outcome> {
    match e
    case Responded(r, _) => if k.ResponseKind? && r.id == id then Some(Answered(r)) else None
    case Failed(f, _) => if k.ErrorKind? && f.id == id then Some(Errored(f)) else None
    case _ => None
  }

  /** The entry of the id is evicted, removed, not retained or cleared; or what waits for
      the id is given up for another outcome or drained. */
  ghost predicate TakesOut(s: Log, e: Event, k: Kind, id: string) {
    match e
    case Requested(r) =>
      !Has(s.entries, r.id) && Has(s.entries[..Overflow(|s.entries|, s.maxEntries)], id)
    case Responded(_, victim) => k.ResponseKind? && victim == Some(id)
    case Failed(_, victim) => k.ErrorKind? && victim == Some(id)
    case Removed(gone) => gone == id && Has(s.entries, id)
    case Retained(keep) => |keep| == |s.entries| && Has(s.entries, id) && !Has(Select(s.entries, keep), id)
    case Cleared => Has(s.entries, id)
    case Drained => !Has(s.entries, id)
    case Listening(_) => false
  }

  /** The last outcome brought for the id. */
  function Last(es: seq<Event>, k: Kind, id: string): Option<Outcome>
    decreases |es|
  {
    if es == [] then None
    else if Brings(es[|es| - 1], k, id).Some? then Brings(es[|es| - 1], k, id)
    else Last(es[..|es| - 1], k, id)
  }

  /** The last step that takes the outcome of the id out; the first step if none does. */
  ghost function LastTaken(s: Log, es: seq<Event>, k: Kind, id: string): (n: nat)
    ensures n <= |es|
    decreases |es|
  {
    if es == [] then 0
    else if TakesOut(Run(s, es[..|es| - 1]), es[|es| - 1], k, id) then |es| - 1
    else LastTaken(s, es[..|es| - 1], k, id)
  }

  // ------------------------------------------------------------------ one step

  ghost predicate HeldAfter(s: Log, e: Event, k: Kind, id: string) {
    Held(Step(s, e), k, id) ==
    if Brings(e, k, id).Some? then Brings(e, k, id) else if TakesOut(s, e, k, id) then None else Held(s, k, id)
  }

  lemma HeldStep(s: Log, e: Event, k: Kind, id: string)
    requires Inv(s) && Enabled(s, e)
    ensures HeldAfter(s, e, k, id)
  {
    hide Inv, HeldAfter, Enabled;
    match e
    case Requested(r) => RequestHolds(s, r, k, id);
    case Responded(r, victim) => ResponseHolds(s, r, victim, k, id);
    case Failed(f, victim) => FailureHolds(s, f, victim, k, id);
    case Drained => DrainHolds(s, k, id);
    case Listening(n) => ListeningHolds(s, n, k, id);
    case _ => DepartureHolds(s, e, k, id);
  }

  lemma DrainHolds(s: Log, k: Kind, id: string)
    ensures HeldAfter(s, Drained, k, id)
  {
    hide Has;
  }

  lemma ListeningHolds(s: Log, n: nat, k: Kind, id: string)
    ensures HeldAfter(s, Listening(n), k, id)
  {
    hide Has;
  }

  /** With unique ids there is one entry to find. */
  lemma FoundAt(entries: seq<Entry>, i: nat)
    requires UniqueIds(entries) && i < |entries|
    ensures Has(entries, entries[i].request.id) && IndexOf(entries, entries[i].request.id) == i
  {
  }

  /** An id that keeps its very entry keeps what it holds. */
  lemma SameEntry(s: Log, n: Log, k: Kind, id: string)
    requires UniqueIds(n.entries) && Has(s.entries, id) && s.entries[IndexOf(s.entries, id)] in n.entries
    ensures Held(n, k, id) == Held(s, k, id)
  {
    hide UniqueIds;
    var i :| 0 <= i < |n.entries| && n.entries[i] == s.entries[IndexOf(s.entries, id)];
    FoundAt(n.entries, i);
  }

  lemma LiveHasNoPending(s: Log, k: Kind, id: string)
    requires Inv(s) && Has(s.entries, id)
    ensures Pending(s, k, id) == None
  {
    hide Has, UniqueIds, OwnsAll, Capped;
  }

  lemma StepUnique(s: Log, e: Event)
    requires Inv(s)
    ensures UniqueIds(Step(s, e).entries)
  {
    hide Step, UniqueIds;
    StepKeepsInv(s, e);
  }

  lemma RequestHolds(s: Log, r: Request, k: Kind, id: string)
    requires Inv(s)
    ensures HeldAfter(s, Requested(r), k, id)
  {
    hide Inv, UniqueIds, Has, Overflow, Open, Held;
    var n := Open(s, r);
    assert Step(s, Requested(r)) == n;
    RequestEffect(s, r);
    StepUnique(s, Requested(r));
    if Has(s.entries, r.id) {
      KnownRequest(s, r, k, id);
    } else if id == r.id {
      NewRequest(s, r, k);
    } else {
      OtherRequest(s, r, k, id);
    }
  }

  lemma KnownRequest(s: Log, r: Request, k: Kind, id: string)
    requires Inv(s) && Has(s.entries, r.id)
    ensures Held(Open(s, r), k, id) == Held(s, k, id)
  {
    hide Inv, Has, Overflow, Open;
    RequestEffect(s, r);
    LiveHasNoPending(s, k, r.id);
  }

  lemma NewRequest(s: Log, r: Request, k: Kind)
    requires UniqueIds(Open(s, r).entries) && !Has(s.entries, r.id)
    ensures Held(Open(s, r), k, r.id) == Held(s, k, r.id)
    ensures !Has(s.entries[..Overflow(|s.entries|, s.maxEntries)], r.id)
  {
    hide UniqueIds, Overflow, Open;
    RequestEffect(s, r);
    PartHas(s.entries, 0, Overflow(|s.entries|, s.maxEntries), r.id);
    hide Has;
    var entries := Open(s, r).entries;
    FoundAt(entries, |entries| - 1);
  }

  lemma PartHas(entries: seq<Entry>, lo: nat, hi: nat, id: string)
    requires lo <= hi <= |entries|
    ensures Has(entries[lo..hi], id) ==> Has(entries, id)
  {
    if Has(entries[lo..hi], id) {
      assert entries[lo + IndexOf(entries[lo..hi], id)].request.id == id;
    }
  }

  /** What is left of the entries, then the new one. */
  lemma SlidHas(entries: seq<Entry>, n: nat, e: Entry, id: string)
    requires n <= |entries| && UniqueIds(entries) && e.request.id != id
    ensures Has(entries, id) <==> Has(entries[..n], id) || Has(entries[n..] + [e], id)
    ensures !(Has(entries[..n], id) && Has(entries[n..] + [e], id))
    ensures Has(entries[n..] + [e], id) ==> entries[IndexOf(entries, id)] in entries[n..] + [e]
  {
    hide Has, UniqueIds;
    AppendLookup(entries[n..], e);
    PartHas(entries, 0, n, id);
    assert entries[n..|entries|] == entries[n..];
    PartHas(entries, n, |entries|, id);
    if Has(entries, id) {
      SplitHas(entries, n, id);
      if n <= IndexOf(entries, id) {
        assert (entries[n..] + [e])[IndexOf(entries, id) - n] == entries[IndexOf(entries, id)];
      }
    }
  }

  lemma OthersWait(s: Log, n: Log, r: Request, k: Kind, id: string)
    requires id != r.id
    requires n.pendingResponses == s.pendingResponses - {r.id} && n.pendingErrors == s.pendingErrors - {r.id}
    ensures Pending(n, k, id) == Pending(s, k, id)
  {
  }

  lemma OtherRequest(s: Log, r: Request, k: Kind, id: string)
    requires Inv(s) && UniqueIds(Open(s, r).entries) && !Has(s.entries, r.id) && id != r.id
    ensures Held(Open(s, r), k, id) ==
            if Has(s.entries[..Overflow(|s.entries|, s.maxEntries)], id) then None else Held(s, k, id)
  {
    hide Inv, UniqueIds, Overflow, Open, Has, Arrival;
    var n := Open(s, r);
    RequestEffect(s, r);
    ArrivalRequests(s, r);
    InvMeansUnique(s);
    SlidHas(s.entries, Overflow(|s.entries|, s.maxEntries), Arrival(s, r), id);
    OthersWait(s, n, r, k, id);
    hide Pending, Shown;
    if Has(n.entries, id) {
      SameEntry(s, n, k, id);
    } else if Has(s.entries, id) {
      LiveHasNoPending(s, k, id);
    }
  }

  lemma InvMeansUnique(s: Log)
    requires Inv(s)
    ensures UniqueIds(s.entries)
  {
  }

  lemma SplitHas(entries: seq<Entry>, n: nat, id: string)
    requires UniqueIds(entries) && n <= |entries| && Has(entries, id)
    ensures Has(entries[..n], id) <==> IndexOf(entries, id) < n
    ensures Has(entries[n..], id) <==> n <= IndexOf(entries, id)
  {
    var i := IndexOf(entries, id);
    if i < n {
      assert entries[..n][i].request.id == id;
    } else {
      assert entries[n..][i - n].request.id == id;
    }
  }

  lemma ResponseHolds(s: Log, r: Response, victim: Option<string>, k: Kind, id: string)
    requires Inv(s) && Enabled(s, Responded(r, victim))
    ensures HeldAfter(s, Responded(r, victim), k, id)
  {
    hide Inv, Has, UniqueIds, VictimOk, Stash, Full;
    InvMeansUnique(s);
    if Has(s.entries, r.id) {
      var i := IndexOf(s.entries, r.id);
      UpdatedHolds(s, i, s.entries[i].(response := Some(r)), id);
    } else {
      VictimWaits(s, Responded(r, victim));
      StashTakes(s.pendingResponses, victim, r.id, r, id);
    }
  }

  lemma FailureHolds(s: Log, f: FetchError, victim: Option<string>, k: Kind, id: string)
    requires Inv(s) && Enabled(s, Failed(f, victim))
    ensures HeldAfter(s, Failed(f, victim), k, id)
  {
    hide Inv, Has, UniqueIds, VictimOk, Stash, Full;
    InvMeansUnique(s);
    if Has(s.entries, f.id) {
      var i := IndexOf(s.entries, f.id);
      UpdatedHolds(s, i, s.entries[i].(error := Some(f)), id);
    } else {
      VictimWaits(s, Failed(f, victim));
      StashTakes(s.pendingErrors, victim, f.id, f, id);
    }
  }

  lemma StashTakes<T>(pending: map<string, T>, victim: Option<string>, at: string, outcome: T, id: string)
    ensures Take(Stash(pending, victim, at, outcome), id) ==
            if id == at then Some(outcome) else if victim == Some(id) then None else Take(pending, id)
  {
  }

  /** Who is given up has no entry. */
  lemma VictimWaits(s: Log, e: Event)
    requires Inv(s) && Enabled(s, e) && (e.Responded? || e.Failed?)
    ensures e.victim.Some? ==> !Has(s.entries, e.victim.value)
  {
    hide Has, UniqueIds, OwnsAll, Capped;
  }

  /** Replacing one entry by one of the same request leaves every lookup where it was. */
  lemma UpdatedHolds(s: Log, i: nat, e: Entry, id: string)
    requires UniqueIds(s.entries) && i < |s.entries| && e.request == s.entries[i].request
    ensures Has(s.entries[i := e], id) <==> Has(s.entries, id)
    ensures Has(s.entries, id) ==> IndexOf(s.entries[i := e], id) == IndexOf(s.entries, id)
  {
    ReplaceKeepsLookup(s.entries, i, e);
    if Has(s.entries, id) {
      var j := IndexOf(s.entries, id);
      assert s.entries[i := e][j].request.id == id;
      FoundAt(s.entries[i := e], j);
    }
  }

  lemma DepartureHolds(s: Log, e: Event, k: Kind, id: string)
    requires Inv(s) && Enabled(s, e) && (e.Removed? || e.Retained? || e.Cleared?)
    ensures HeldAfter(s, e, k, id)
  {
    hide Inv, Has, UniqueIds, Thinned, Select;
    var n := Step(s, e);
    StepThins(s, e);
    StepUnique(s, e);
    InvMeansUnique(s);
    assert Pending(n, k, id) == Pending(s, k, id);
    DepartureTakes(s, e, k, id);
    ThinnedLookup(n.entries, s.entries, id);
    if Has(n.entries, id) {
      SameEntry(s, n, k, id);
    } else if Has(s.entries, id) {
      LiveHasNoPending(s, k, id);
    }
  }

  lemma ThinnedLookup(part: seq<Entry>, whole: seq<Entry>, id: string)
    requires Thinned(part, whole) && UniqueIds(whole)
    ensures Has(part, id) ==> Has(whole, id) && whole[IndexOf(whole, id)] in part
  {
    hide UniqueIds;
    if Has(part, id) {
      var e := part[IndexOf(part, id)];
      assert e in part;
      var j :| 0 <= j < |whole| && whole[j] == e;
      FoundAt(whole, j);
    }
  }

  lemma DepartureTakes(s: Log, e: Event, k: Kind, id: string)
    requires Inv(s) && Enabled(s, e) && (e.Removed? || e.Retained? || e.Cleared?)
    ensures TakesOut(s, e, k, id) <==> Has(s.entries, id) && !Has(Step(s, e).entries, id)
  {
    hide Inv, Has, Select;
    match e
    case Removed(gone) => RemovalTakes(s, gone, id);
    case Cleared =>
      assert !Has([], id) by {
        NothingHas(id);
      }
    case Retained(keep) =>
  }

  lemma NothingHas(id: string)
    ensures !Has([], id)
  {
  }

  lemma RemovalTakes(s: Log, gone: string, id: string)
    requires Inv(s)
    ensures gone == id && Has(s.entries, id) <==> Has(s.entries, id) && !Has(Step(s, Removed(gone)).entries, id)
  {
    hide Inv, Has;
    RemoveIsRetain(s, gone);
    if Has(s.entries, gone) && gone != id {
      OthersStay(s.entries, IndexOf(s.entries, gone), id);
    }
  }

  lemma OthersStay(entries: seq<Entry>, i: nat, id: string)
    requires i < |entries| && entries[i].request.id != id
    ensures Has(entries, id) ==> Has(entries[..i] + entries[i + 1..], id)
  {
    if Has(entries, id) {
      var j := IndexOf(entries, id);
      assert (entries[..i] + entries[i + 1..])[if j < i then j else j - 1].request.id == id;
    }
  }

  lemma StepThins(s: Log, e: Event)
    requires !e.Requested? && !e.Responded? && !e.Failed?
    ensures Thinned(Step(s, e).entries, s.entries)
  {
    hide Select, Has;
    if e.Retained? && Enabled(s, e) {
      hide Thinned;
      SelectThins(s.entries, e.keep);
    }
  }

  // ------------------------------------------------------------------ whole runs

  /** On every legal run, with any caps and any removals, retentions, clears and drains:
      the log holds an outcome for an id exactly when one came in since the last step that
      took one out (that step itself may bring another), and it is the last of those. */
  lemma {:induction false} HeldExactly(es: seq<Event>, maxEntries: nat, maxPending: nat, k: Kind, id: string)
    requires Legal(New(maxEntries, maxPending), es)
    ensures var start := New(maxEntries, maxPending);
            Held(Run(start, es), k, id) == Last(es[LastTaken(start, es, k, id)..], k, id)
    decreases |es|
  {
    hide Inv, Held, Step, Enabled, TakesOut, Brings;
    var start := New(maxEntries, maxPending);
    if es == [] {
      NothingHeld(maxEntries, maxPending, k, id);
    } else {
      var n := |es| - 1;
      var taken := LastTaken(start, es, k, id);
      HeldExactly(es[..n], maxEntries, maxPending, k, id);
      ReachableInv(maxEntries, maxPending, es[..n]);
      HeldStep(Run(start, es[..n]), es[n], k, id);
      assert es[taken..][..n - taken] == es[..n][taken..];
      assert es[taken..][n - taken] == es[n];
    }
  }

  lemma NothingHeld(maxEntries: nat, maxPending: nat, k: Kind, id: string)
    ensures Held(New(maxEntries, maxPending), k, id) == None
  {
  }

  /** Every entry's outcomes, and everything that waits, is held. */
  lemma HeldIsEverything(s: Log, k: Kind)
    requires Inv(s)
    ensures forall i | 0 <= i < |s.entries| :: Held(s, k, s.entries[i].request.id) == Shown(s.entries[i], k)
    ensures forall id | Pending(s, k, id).Some? :: Held(s, k, id) == Pending(s, k, id)
  {
    hide Inv;
    InvMeansUnique(s);
    hide UniqueIds, Has;
    forall i | 0 <= i < |s.entries|
      ensures Held(s, k, s.entries[i].request.id) == Shown(s.entries[i], k)
    {
      FoundAt(s.entries, i);
    }
    forall id | Pending(s, k, id).Some?
      ensures Held(s, k, id) == Pending(s, k, id)
    {
      if Has(s.entries, id) {
        LiveHasNoPending(s, k, id);
      }
    }
  }

  lemma {:induction false} LastOfSuffix(es: seq<Event>, n: nat, k: Kind, id: string)
    requires n <= |es|
    ensures Last(es[n..], k, id).Some? ==> Last(es[n..], k, id) == Last(es, k, id)
    decreases |es|
  {
    hide Brings;
    if n == |es| {
    } else {
      var m := |es| - 1;
      LastOfSuffix(es[..m], n, k, id);
      assert es[n..][..m - n] == es[..m][n..];
    }
  }

  lemma {:induction false} LastOfKind(es: seq<Event>, id: string)
    ensures Last(es, ResponseKind, id) == OfResponse(LastResponse(Responses(es), id))
    ensures Last(es, ErrorKind, id) == OfError(LastFailure(Failures(es), id))
    decreases |es|
  {
    if es == [] {
    } else {
      hide Responses, Failures, LastResponse, LastFailure;
      var n := |es| - 1;
      LastOfKind(es[..n], id);
      OutcomesGrow(es);
      match es[n]
      case Responded(r, _) => LastGrows(Responses(es[..n]), r, id);
      case Failed(f, _) => LastFailureGrows(Failures(es[..n]), f, id);
      case _ =>
    }
  }

  lemma OutcomesGrow(es: seq<Event>)
    requires es != []
    ensures var n := |es| - 1;
            && Responses(es) == (if es[n].Responded? then Responses(es[..n]) + [es[n].response] else Responses(es[..n]))
            && Failures(es) == (if es[n].Failed? then Failures(es[..n]) + [es[n].error] else Failures(es[..n]))
  {
  }

  lemma LastGrows(rs: seq<Response>, r: Response, id: string)
    ensures LastResponse(rs + [r], id) == if id == r.id then Some(r) else LastResponse(rs, id)
  {
    assert (rs + [r])[..|rs|] == rs;
  }

  lemma LastFailureGrows(fs: seq<FetchError>, f: FetchError, id: string)
    ensures LastFailure(fs + [f], id) == if id == f.id then Some(f) else LastFailure(fs, id)
  {
    assert (fs + [f])[..|fs|] == fs;
  }

  predicate FreshEntry(e: Entry, rs: seq<Response>, fs: seq<FetchError>) {
    && (e.response.Some? ==> e.response == LastResponse(rs, e.request.id))
    && (e.error.Some? ==> e.error == LastFailure(fs, e.request.id))
  }

  ghost predicate Fresh(s: Log, rs: seq<Response>, fs: seq<FetchError>) {
    && (forall i | 0 <= i < |s.entries| :: FreshEntry(s.entries[i], rs, fs))
    && (forall id | id in s.pendingResponses :: LastResponse(rs, id) == Some(s.pendingResponses[id]))
    && (forall id | id in s.pendingErrors :: LastFailure(fs, id) == Some(s.pendingErrors[id]))
  }

  /** So nothing is stale: what an entry shows, and what waits, is the latest outcome of
      its kind received for its id. */
  lemma NothingIsStale(es: seq<Event>, maxEntries: nat, maxPending: nat)
    requires Legal(New(maxEntries, maxPending), es)
    ensures Fresh(Run(New(maxEntries, maxPending), es), Responses(es), Failures(es))
  {
    hide Inv, Run, Legal, Held, Last, LastTaken, LastResponse, LastFailure, Responses, Failures;
    var start := New(maxEntries, maxPending);
    var s := Run(start, es);
    ReachableInv(maxEntries, maxPending, es);
    HeldIsEverything(s, ResponseKind);
    HeldIsEverything(s, ErrorKind);
    forall k: Kind, id
      ensures Held(s, k, id).Some? ==> Held(s, k, id) == Last(es, k, id)
      ensures Last(es, ResponseKind, id) == OfResponse(LastResponse(Responses(es), id))
      ensures Last(es, ErrorKind, id) == OfError(LastFailure(Failures(es), id))
    {
      HeldExactly(es, maxEntries, maxPending, k, id);
      LastOfSuffix(es, LastTaken(start, es, k, id), k, id);
      LastOfKind(es, id);
    }
    forall i | 0 <= i < |s.entries|
      ensures FreshEntry(s.entries[i], Responses(es), Failures(es))
    {
      var id := s.entries[i].request.id;
      assert Held(s, ResponseKind, id) == Shown(s.entries[i], ResponseKind);
      assert Held(s, ErrorKind, id) == Shown(s.entries[i], ErrorKind);
    }
    forall id | id in s.pendingResponses
      ensures LastResponse(Responses(es), id) == Some(s.pendingResponses[id])
    {
      assert Pending(s, ResponseKind, id) == Some(Answered(s.pendingResponses[id]));
    }
    forall id | id in s.pendingErrors
      ensures LastFailure(Failures(es), id) == Some(s.pendingErrors[id])
    {
      assert Pending(s, ErrorKind, id) == Some(Errored(s.pendingErrors[id]));
    }
  }
}
