/**
 The network capture log as a state machine over values: what each browser event
 and each caller operation does to the captured entries, to the outcomes waiting
 for their request, to the counters and to the stream of broadcast entries.

 Entries are looked up by request id in the entry list itself; the hash index that
 makes the lookup fast lives in `NetworkInner`, which refines this machine.
 Captured fields the log never inspects are represented by a few of them.
 */
module NetworkSpec {
  import opened Wrappers
  import opened Sequences

  datatype Request = Request(id: string, url: string, verb: string, timestamp: nat)
  datatype Response = Response(id: string, url: string, status: nat)
  datatype FetchError = FetchError(id: string, url: string, text: string)

  datatype Entry = Entry(request: Request, response: Option<Response>, error: Option<FetchError>) {
    predicate Complete() {
      response.Some? || error.Some?
    }
  }

  datatype Metrics = Metrics(
    requestsReceived: nat, responsesReceived: nat, errorsReceived: nat, entriesEvicted: nat,
    pendingResponsesDropped: nat, pendingErrorsDropped: nat, broadcastDrops: nat,
    duplicateResponses: nat, duplicateErrors: nat)

  /** `sent` is everything handed to the broadcast channel so far, oldest first. */
  datatype Log = Log(
    entries: seq<Entry>,
    pendingResponses: map<string, Response>, pendingErrors: map<string, FetchError>,
    maxEntries: nat, maxPending: nat,
    receivers: nat, sent: seq<Entry>, metrics: Metrics)

  /** One atomic step on the log. `victim` is the pending outcome the hash table's
      iteration order gives up when the table is full; `keep` lists the answers of the
      predicate passed to `retain`, in call order. */
  datatype Event =
    | Requested(request: Request)
    | Responded(response: Response, victim: Option<string>)
    | Failed(error: FetchError, victim: Option<string>)
    | Removed(id: string)
    | Retained(keep: seq<bool>)
    | Cleared
    | Drained
    | Listening(receivers: nat)

  const NO_METRICS := Metrics(0, 0, 0, 0, 0, 0, 0, 0, 0)

  function New(maxEntries: nat, maxPending: nat): Log {
    Log([], map[], map[], maxEntries, maxPending, 0, [], NO_METRICS)
  }

  // -------------------------------------------------------------------- lookup

  predicate Has(entries: seq<Entry>, id: string) {
    exists i | 0 <= i < |entries| :: entries[i].request.id == id
  }

  ghost function IndexOf(entries: seq<Entry>, id: string): (i: nat)
    requires Has(entries, id)
    ensures i < |entries| && entries[i].request.id == id
  {
    var i :| 0 <= i < |entries| && entries[i].request.id == id;
    i
  }

  ghost predicate UniqueIds(entries: seq<Entry>) {
    forall i, j | 0 <= i < j < |entries| :: entries[i].request.id != entries[j].request.id
  }

  function Take<T>(pending: map<string, T>, id: string): Option<T> {
    if id in pending then Some(pending[id]) else None
  }

  // --------------------------------------------------------------------- steps

  predicate Full<T>(pending: map<string, T>, maxPending: nat) {
    maxPending > 0 && |pending| >= maxPending
  }

  /** Who may be given up: someone in a full table, and nobody otherwise. */
  predicate VictimOk<T>(pending: map<string, T>, maxPending: nat, victim: Option<string>) {
    if Full(pending, maxPending) then victim.Some? && victim.value in pending else victim.None?
  }

  function Stash<T>(pending: map<string, T>, victim: Option<string>, id: string, outcome: T): map<string, T> {
    (if victim.Some? then pending - {victim.value} else pending)[id := outcome]
  }

  /** How many of the oldest entries make room for one more. */
  function Overflow(length: nat, maxEntries: nat): (n: nat)
    ensures n <= length
  {
    if maxEntries > 0 && length >= maxEntries then length - (maxEntries - 1) else 0
  }

  ghost function Push(s: Log, e: Entry): Log {
    if Has(s.entries, e.request.id) then s
    else s.(entries := s.entries[Overflow(|s.entries|, s.maxEntries)..] + [e],
            sent := s.sent + [e],
            metrics := s.metrics.(entriesEvicted := s.metrics.entriesEvicted + Overflow(|s.entries|, s.maxEntries),
                                  broadcastDrops := s.metrics.broadcastDrops + if s.receivers == 0 then 1 else 0))
  }

  /** The entry a request opens, carrying the outcomes that were waiting for it. */
  function Arrival(s: Log, r: Request): Entry {
    Entry(r, Take(s.pendingResponses, r.id), Take(s.pendingErrors, r.id))
  }

  ghost function Open(s: Log, r: Request): Log {
    Push(s.(pendingResponses := s.pendingResponses - {r.id},
            pendingErrors := s.pendingErrors - {r.id},
            metrics := s.metrics.(requestsReceived := s.metrics.requestsReceived + 1)),
         Arrival(s, r))
  }

  ghost function Respond(s: Log, r: Response, victim: Option<string>): Log {
    var m := s.metrics.(responsesReceived := s.metrics.responsesReceived + 1);
    if Has(s.entries, r.id) then
      var i := IndexOf(s.entries, r.id);
      var e := s.entries[i].(response := Some(r));
      s.(entries := s.entries[i := e], sent := s.sent + [e],
         metrics := m.(duplicateResponses := m.duplicateResponses + if s.entries[i].response.Some? then 1 else 0))
    else
      s.(pendingResponses := Stash(s.pendingResponses, victim, r.id, r),
         metrics := m.(pendingResponsesDropped := m.pendingResponsesDropped + if victim.Some? then 1 else 0))
  }

  ghost function Fail(s: Log, f: FetchError, victim: Option<string>): Log {
    var m := s.metrics.(errorsReceived := s.metrics.errorsReceived + 1);
    if Has(s.entries, f.id) then
      var i := IndexOf(s.entries, f.id);
      var e := s.entries[i].(error := Some(f));
      s.(entries := s.entries[i := e], sent := s.sent + [e],
         metrics := m.(duplicateErrors := m.duplicateErrors + if s.entries[i].error.Some? then 1 else 0))
    else
      s.(pendingErrors := Stash(s.pendingErrors, victim, f.id, f),
         metrics := m.(pendingErrorsDropped := m.pendingErrorsDropped + if victim.Some? then 1 else 0))
  }

  ghost function Remove(s: Log, id: string): Log {
    if Has(s.entries, id) then
      var i := IndexOf(s.entries, id);
      s.(entries := s.entries[..i] + s.entries[i + 1..])
    else s
  }

  predicate Enabled(s: Log, e: Event) {
    match e
    case Responded(r, victim) =>
      if Has(s.entries, r.id) then victim.None? else VictimOk(s.pendingResponses, s.maxPending, victim)
    case Failed(f, victim) =>
      if Has(s.entries, f.id) then victim.None? else VictimOk(s.pendingErrors, s.maxPending, victim)
    case Retained(keep) => |keep| == |s.entries|
    case _ => true
  }

  /** An event that cannot happen in `s` leaves it alone. */
  ghost function Step(s: Log, e: Event): Log {
    if !Enabled(s, e) then s else
    match e
    case Requested(r) => Open(s, r)
    case Responded(r, victim) => Respond(s, r, victim)
    case Failed(f, victim) => Fail(s, f, victim)
    case Removed(id) => Remove(s, id)
    case Retained(keep) => s.(entries := Select(s.entries, keep))
    case Cleared => s.(entries := [])
    case Drained => s.(pendingResponses := map[], pendingErrors := map[])
    case Listening(n) => s.(receivers := n)
  }

  ghost function Run(s: Log, es: seq<Event>): Log
    decreases |es|
  {
    if es == [] then s else Step(Run(s, es[..|es| - 1]), es[|es| - 1])
  }

  /** Every event of the run can happen where it happens. */
  ghost predicate Legal(s: Log, es: seq<Event>)
    decreases |es|
  {
    es == [] || (Legal(s, es[..|es| - 1]) && Enabled(Run(s, es[..|es| - 1]), es[|es| - 1]))
  }

  // ----------------------------------------------------------------- invariant

  /** The outcomes of an entry carry the entry's own request id. */
  predicate OwnOutcomes(e: Entry) {
    && (e.response.Some? ==> e.response.value.id == e.request.id)
    && (e.error.Some? ==> e.error.value.id == e.request.id)
  }

  ghost predicate OwnsAll(entries: seq<Entry>) {
    forall i | 0 <= i < |entries| :: OwnOutcomes(entries[i])
  }

  ghost predicate ResponsesWait(pending: map<string, Response>, entries: seq<Entry>) {
    forall k | k in pending :: pending[k].id == k && !Has(entries, k)
  }

  ghost predicate ErrorsWait(pending: map<string, FetchError>, entries: seq<Entry>) {
    forall k | k in pending :: pending[k].id == k && !Has(entries, k)
  }

  ghost predicate Keyed(s: Log) {
    OwnsAll(s.entries) && ResponsesWait(s.pendingResponses, s.entries) && ErrorsWait(s.pendingErrors, s.entries)
  }

  ghost predicate Capped(s: Log) {
    && (s.maxEntries > 0 ==> |s.entries| <= s.maxEntries)
    && (s.maxPending > 0 ==> |s.pendingResponses| <= s.maxPending && |s.pendingErrors| <= s.maxPending)
  }

  /** Ids are unique, an outcome waits only for a request the log does not hold, every
      outcome sits with its own id, and both caps hold. */
  ghost predicate Inv(s: Log) {
    UniqueIds(s.entries) && Keyed(s) && Capped(s)
  }

  lemma StepKeepsInv(s: Log, e: Event)
    requires Inv(s)
    ensures Inv(Step(s, e))
  {
    hide Inv, Open, Respond, Fail;
    match e
    case Requested(r) => RequestKeepsInv(s, r);
    case Responded(r, victim) =>
      if Enabled(s, e) { RespondKeepsInv(s, r, victim); }
    case Failed(f, victim) =>
      if Enabled(s, e) { FailKeepsInv(s, f, victim); }
    case _ => DepartureKeepsInv(s, e);
  }

  /** The same requests in the same places: lookups by id cannot tell the lists apart. */
  ghost predicate SameRequests(a: seq<Entry>, b: seq<Entry>) {
    |a| == |b| && forall i | 0 <= i < |a| :: a[i].request == b[i].request
  }

  lemma SameRequestsSameLookup(a: seq<Entry>, b: seq<Entry>)
    requires SameRequests(a, b)
    ensures UniqueIds(a) ==> UniqueIds(b)
    ensures forall id :: Has(a, id) <==> Has(b, id)
  {
    forall id
      ensures Has(a, id) <==> Has(b, id)
    {
      if i :| 0 <= i < |a| && a[i].request.id == id { assert b[i].request.id == id; }
      if i :| 0 <= i < |b| && b[i].request.id == id { assert a[i].request.id == id; }
    }
  }

  lemma StashFits<T>(pending: map<string, T>, maxPending: nat, victim: Option<string>, id: string, outcome: T)
    requires VictimOk(pending, maxPending, victim)
    requires maxPending > 0 ==> |pending| <= maxPending
    ensures maxPending > 0 ==> |Stash(pending, victim, id, outcome)| <= maxPending
  {
    if victim.Some? {
      var kept := pending - {victim.value};
      assert kept.Keys == pending.Keys - {victim.value};
      assert kept[id := outcome].Keys == kept.Keys + {id};
    } else {
      assert pending[id := outcome].Keys == pending.Keys + {id};
    }
  }

  lemma RemovalShrinks<T>(pending: map<string, T>, id: string)
    ensures |pending - {id}| <= |pending|
  {
    assert (pending - {id}).Keys == pending.Keys - {id};
  }

  lemma RequestKeepsEntries(s: Log, r: Request)
    requires UniqueIds(s.entries) && Keyed(s)
    ensures UniqueIds(Open(s, r).entries) && OwnsAll(Open(s, r).entries)
    ensures forall id | Has(Open(s, r).entries, id) :: Has(s.entries, id) || id == r.id
  {
    hide UniqueIds, Has, OwnsAll, OwnOutcomes, Take, Open, Overflow, ResponsesWait, ErrorsWait;
    RequestEffect(s, r);
    if !Has(s.entries, r.id) {
      var gone := Overflow(|s.entries|, s.maxEntries);
      SuffixLookup(s.entries, gone);
      AppendLookup(s.entries[gone..], Arrival(s, r));
      TakenOutcomesOwn(s, r);
      OwnsAllAppend(s.entries, gone, Arrival(s, r));
    }
  }

  lemma RequestKeepsWaiting(s: Log, r: Request)
    requires UniqueIds(s.entries) && Keyed(s)
    ensures ResponsesWait(Open(s, r).pendingResponses, Open(s, r).entries)
    ensures ErrorsWait(Open(s, r).pendingErrors, Open(s, r).entries)
  {
    hide UniqueIds, Has, OwnsAll, Open;
    RequestEffect(s, r);
    RequestKeepsEntries(s, r);
  }

  lemma RequestKeepsCaps(s: Log, r: Request)
    requires Capped(s)
    ensures Capped(Open(s, r))
  {
    hide Has, Open, Overflow;
    RequestEffect(s, r);
    RemovalShrinks(s.pendingResponses, r.id);
    RemovalShrinks(s.pendingErrors, r.id);
    OverflowMakesRoom(|s.entries|, s.maxEntries);
  }

  lemma RequestKeepsInv(s: Log, r: Request)
    requires Inv(s)
    ensures Inv(Open(s, r))
  {
    hide Open, UniqueIds, OwnsAll, ResponsesWait, ErrorsWait, Capped;
    RequestKeepsEntries(s, r);
    RequestKeepsWaiting(s, r);
    RequestKeepsCaps(s, r);
  }

  lemma OverflowMakesRoom(length: nat, maxEntries: nat)
    ensures maxEntries > 0 ==> length - Overflow(length, maxEntries) < maxEntries
  {
  }

  lemma RequestEffect(s: Log, r: Request)
    ensures var n := Open(s, r);
            && n.entries == (if Has(s.entries, r.id) then s.entries
              else s.entries[Overflow(|s.entries|, s.maxEntries)..] + [Arrival(s, r)])
            && n.pendingResponses == s.pendingResponses - {r.id}
            && n.pendingErrors == s.pendingErrors - {r.id}
            && n.maxEntries == s.maxEntries && n.maxPending == s.maxPending
  {
    hide Overflow, Has;
  }

  lemma TakenOutcomesOwn(s: Log, r: Request)
    requires Keyed(s)
    ensures OwnOutcomes(Arrival(s, r))
  {
  }

  lemma OwnsAllAppend(entries: seq<Entry>, n: nat, e: Entry)
    requires n <= |entries| && OwnsAll(entries) && OwnOutcomes(e)
    ensures OwnsAll(entries[n..] + [e])
  {
    hide OwnOutcomes;
  }

  lemma OwnsOne(entries: seq<Entry>, i: nat)
    requires i < |entries| && OwnsAll(entries)
    ensures OwnOutcomes(entries[i])
  {
  }

  lemma OwnsAllUpdate(entries: seq<Entry>, i: nat, e: Entry)
    requires i < |entries| && OwnsAll(entries) && OwnOutcomes(e)
    ensures OwnsAll(entries[i := e])
  {
    hide OwnOutcomes;
  }

  lemma ReplaceKeepsLookup(entries: seq<Entry>, i: nat, e: Entry)
    requires i < |entries| && e.request == entries[i].request
    ensures UniqueIds(entries) ==> UniqueIds(entries[i := e])
    ensures forall id :: Has(entries, id) <==> Has(entries[i := e], id)
  {
    SameRequestsSameLookup(entries, entries[i := e]);
  }

  lemma SuffixLookup(entries: seq<Entry>, n: nat)
    requires n <= |entries|
    ensures UniqueIds(entries) ==> UniqueIds(entries[n..])
    ensures forall id :: Has(entries[n..], id) ==> Has(entries, id)
  {
    forall id | Has(entries[n..], id)
      ensures Has(entries, id)
    {
      assert entries[IndexOf(entries[n..], id) + n].request.id == id;
    }
  }

  lemma AppendLookup(entries: seq<Entry>, e: Entry)
    ensures UniqueIds(entries) && !Has(entries, e.request.id) ==> UniqueIds(entries + [e])
    ensures forall id :: Has(entries + [e], id) <==> Has(entries, id) || id == e.request.id
  {
    assert (entries + [e])[|entries|] == e;
    forall id | Has(entries, id)
      ensures Has(entries + [e], id)
    {
      assert (entries + [e])[IndexOf(entries, id)].request.id == id;
    }
  }

  lemma ReplaceKeepsKeys(s: Log, i: nat, e: Entry)
    requires Inv(s) && i < |s.entries| && e.request == s.entries[i].request && OwnOutcomes(e)
    ensures var n := s.(entries := s.entries[i := e]);
            UniqueIds(n.entries) && Keyed(n) && Capped(n)
  {
    hide UniqueIds, Has, OwnsAll, OwnOutcomes;
    OwnsAllUpdate(s.entries, i, e);
    ReplaceKeepsLookup(s.entries, i, e);
  }

  /** An outcome for an id the log does not hold may wait. */
  lemma StashKeepsResponses(s: Log, r: Response, victim: Option<string>)
    requires ResponsesWait(s.pendingResponses, s.entries) && !Has(s.entries, r.id)
    ensures ResponsesWait(Stash(s.pendingResponses, victim, r.id, r), s.entries)
  {
    hide Has;
  }

  lemma StashKeepsErrors(s: Log, f: FetchError, victim: Option<string>)
    requires ErrorsWait(s.pendingErrors, s.entries) && !Has(s.entries, f.id)
    ensures ErrorsWait(Stash(s.pendingErrors, victim, f.id, f), s.entries)
  {
    hide Has;
  }

  lemma RespondKeepsInv(s: Log, r: Response, victim: Option<string>)
    requires Inv(s) && Enabled(s, Responded(r, victim))
    ensures Inv(Respond(s, r, victim))
  {
    hide UniqueIds, Has, OwnsAll, ResponsesWait, ErrorsWait, Stash;
    if Has(s.entries, r.id) {
      var i := IndexOf(s.entries, r.id);
      OwnsOne(s.entries, i);
      ReplaceKeepsKeys(s, i, s.entries[i].(response := Some(r)));
    } else {
      StashFits(s.pendingResponses, s.maxPending, victim, r.id, r);
      StashKeepsResponses(s, r, victim);
    }
  }

  lemma FailKeepsInv(s: Log, f: FetchError, victim: Option<string>)
    requires Inv(s) && Enabled(s, Failed(f, victim))
    ensures Inv(Fail(s, f, victim))
  {
    hide UniqueIds, Has, OwnsAll, ResponsesWait, ErrorsWait, Stash;
    if Has(s.entries, f.id) {
      var i := IndexOf(s.entries, f.id);
      OwnsOne(s.entries, i);
      ReplaceKeepsKeys(s, i, s.entries[i].(error := Some(f)));
    } else {
      StashFits(s.pendingErrors, s.maxPending, victim, f.id, f);
      StashKeepsErrors(s, f, victim);
    }
  }

  /** `part` keeps some entries of `whole`, in order and untouched. */
  ghost predicate Thinned(part: seq<Entry>, whole: seq<Entry>) {
    && |part| <= |whole|
    && (forall e | e in part :: e in whole)
    && (UniqueIds(whole) ==> UniqueIds(part))
  }

  lemma ThinnedKeepsInv(s: Log, entries: seq<Entry>)
    requires Inv(s) && Thinned(entries, s.entries)
    ensures Inv(s.(entries := entries))
  {
    forall id | Has(entries, id)
      ensures Has(s.entries, id)
    {
      var e := entries[IndexOf(entries, id)];
      assert e in entries;
      var j :| 0 <= j < |s.entries| && s.entries[j] == e;
    }
    forall i | 0 <= i < |entries|
      ensures entries[i].response.Some? ==> entries[i].response.value.id == entries[i].request.id
      ensures entries[i].error.Some? ==> entries[i].error.value.id == entries[i].request.id
    {
      assert entries[i] in entries;
      var j :| 0 <= j < |s.entries| && s.entries[j] == entries[i];
    }
  }

  lemma DepartureKeepsInv(s: Log, e: Event)
    requires Inv(s) && (e.Removed? || e.Retained? || e.Cleared? || e.Drained? || e.Listening?)
    ensures Inv(Step(s, e))
  {
    var n := Step(s, e);
    if e.Retained? && Enabled(s, e) {
      SelectThins(s.entries, e.keep);
    }
    if e.Removed? || e.Retained? || e.Cleared? {
      ThinnedKeepsInv(s, n.entries);
    }
  }

  lemma {:induction false} SelectThins(entries: seq<Entry>, keep: seq<bool>)
    requires |entries| == |keep|
    ensures Thinned(Select(entries, keep), entries)
  {
    if entries == [] {
    } else {
      var rest := entries[1..];
      SelectThins(rest, keep[1..]);
      assert UniqueIds(entries) ==> UniqueIds(rest);
      forall e | e in Select(rest, keep[1..]) && UniqueIds(entries)
        ensures e.request.id != entries[0].request.id
      {
        var j :| 0 <= j < |rest| && rest[j] == e;
        assert entries[j + 1] == e;
      }
    }
  }

  lemma StepKeepsCaps(s: Log, e: Event)
    ensures Step(s, e).maxEntries == s.maxEntries && Step(s, e).maxPending == s.maxPending
  {
  }

  /** Every reachable state satisfies the invariant, whatever the caps and the run. */
  lemma {:induction false} RunKeepsInv(s: Log, es: seq<Event>)
    requires Inv(s)
    ensures Inv(Run(s, es))
    ensures Run(s, es).maxEntries == s.maxEntries && Run(s, es).maxPending == s.maxPending
    decreases |es|
  {
    hide Inv, Step;
    if es == [] {
    } else {
      RunKeepsInv(s, es[..|es| - 1]);
      StepKeepsInv(Run(s, es[..|es| - 1]), es[|es| - 1]);
      StepKeepsCaps(Run(s, es[..|es| - 1]), es[|es| - 1]);
    }
  }

  lemma ReachableInv(maxEntries: nat, maxPending: nat, es: seq<Event>)
    ensures Inv(Run(New(maxEntries, maxPending), es))
    ensures Run(New(maxEntries, maxPending), es).maxEntries == maxEntries
    ensures Run(New(maxEntries, maxPending), es).maxPending == maxPending
  {
    RunKeepsInv(New(maxEntries, maxPending), es);
  }

  // ------------------------------------------------------------ removing is retaining the rest

  /** The answers of a predicate that refuses one id. */
  function Others(entries: seq<Entry>, id: string): (keep: seq<bool>)
    ensures |keep| == |entries|
  {
    seq(|entries|, i requires 0 <= i < |entries| => entries[i].request.id != id)
  }

  lemma {:induction false} SelectOthers(entries: seq<Entry>, id: string)
    requires !Has(entries, id)
    ensures Select(entries, Others(entries, id)) == entries
  {
    if entries == [] {
    } else {
      assert forall i | 0 <= i < |entries[1..]| :: entries[1..][i] == entries[i + 1];
      assert Others(entries, id)[1..] == Others(entries[1..], id);
      SelectOthers(entries[1..], id);
    }
  }

  lemma {:induction false} SelectWithout(entries: seq<Entry>, id: string, i: nat)
    requires UniqueIds(entries) && i < |entries| && entries[i].request.id == id
    ensures Select(entries, Others(entries, id)) == entries[..i] + entries[i + 1..]
  {
    assert Others(entries, id)[1..] == Others(entries[1..], id);
    if i == 0 {
      assert forall j | 0 <= j < |entries[1..]| :: entries[1..][j] == entries[j + 1];
      SelectOthers(entries[1..], id);
    } else {
      SelectWithout(entries[1..], id, i - 1);
      assert entries[..i] + entries[i + 1..] == [entries[0]] + (entries[1..][..i - 1] + entries[1..][i..]);
    }
  }

  /** Removing an id is retaining every other entry, untouched and in order. */
  lemma RemoveIsRetain(s: Log, id: string)
    requires Inv(s)
    ensures Step(s, Removed(id)) == Step(s, Retained(Others(s.entries, id)))
    ensures !Has(Step(s, Removed(id)).entries, id)
  {
    hide Select, Keyed, Capped;
    if Has(s.entries, id) {
      SelectWithout(s.entries, id, IndexOf(s.entries, id));
    } else {
      SelectOthers(s.entries, id);
    }
  }
}
