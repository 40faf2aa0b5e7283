/**
 Nothing received is lost without trace: every response and every error handed to the
 log is, exactly once, with an entry, waiting, or in one named place it went to.
 */
module NetworkLedger {
  import opened Wrappers
  import opened Sequences
  import opened NetworkSpec
  import opened NetworkHistory

  /** Where outcomes go that are neither with an entry of the log nor waiting. */
  datatype Fate<T> = Fate(
    departed: multiset<T>,     // left with the entry that held them
    replaced: multiset<T>,     // superseded on their entry by a later outcome
    dropped: multiset<T>,      // given up because the pending table was full
    drained: multiset<T>,      // handed to the caller of `drain_pending`
    overwritten: multiset<T>)  // superseded while waiting; no counter records this
  {
    ghost function Total(): multiset<T> {
      departed + replaced + dropped + drained + overwritten
    }
  }

  datatype Ledger = Ledger(responses: Fate<Response>, errors: Fate<FetchError>, pushed: nat, removed: nat)

  ghost function NoFate<T>(): Fate<T> {
    Fate(multiset{}, multiset{}, multiset{}, multiset{}, multiset{})
  }

  // ------------------------------------------------------------------ bookkeeping

  function ResponsesOf(entries: seq<Entry>): (column: seq<Option<Response>>)
    ensures |column| == |entries|
  {
    seq(|entries|, i requires 0 <= i < |entries| => entries[i].response)
  }

  function ErrorsOf(entries: seq<Entry>): (column: seq<Option<FetchError>>)
    ensures |column| == |entries|
  {
    seq(|entries|, i requires 0 <= i < |entries| => entries[i].error)
  }

  /** The values of a table, with multiplicity. */
  ghost function Waiting<T>(table: map<string, T>): multiset<T>
    decreases |table|
  {
    if table == map[] then multiset{} else
      var k :| k in table;
      RemovalShrinksStrictly(table, k);
      multiset{table[k]} + Waiting(table - {k})
  }

  lemma RemovalShrinksStrictly<T>(table: map<string, T>, k: string)
    requires k in table
    ensures |table - {k}| == |table| - 1
  {
    assert (table - {k}).Keys == table.Keys - {k};
  }

  /** The entries a step takes out of the log. */
  ghost function Leaving(s: Log, e: Event): seq<Entry> {
    if !Enabled(s, e) then [] else
    match e
    case Requested(r) => if Has(s.entries, r.id) then [] else s.entries[..Overflow(|s.entries|, s.maxEntries)]
    case Removed(id) => if Has(s.entries, id) then [s.entries[IndexOf(s.entries, id)]] else []
    case Retained(keep) => Select(s.entries, Negate(keep))
    case Cleared => s.entries
    case _ => []
  }

  ghost function Lost<T>(f: Fate<T>, table: map<string, T>, victim: Option<string>, id: string): Fate<T> {
    var left := if victim.Some? then table - {victim.value} else table;
    f.(dropped := f.dropped + One(if victim.Some? then Take(table, victim.value) else None),
       overwritten := f.overwritten + One(Take(left, id)))
  }

  ghost function BookResponses(f: Fate<Response>, s: Log, e: Event): Fate<Response> {
    var f := f.(departed := f.departed + Present(ResponsesOf(Leaving(s, e))));
    if e.Responded? && Has(s.entries, e.response.id) then
      f.(replaced := f.replaced + One(s.entries[IndexOf(s.entries, e.response.id)].response))
    else if e.Responded? then Lost(f, s.pendingResponses, e.victim, e.response.id)
    else if e.Drained? then f.(drained := f.drained + Waiting(s.pendingResponses))
    else f
  }

  ghost function BookErrors(f: Fate<FetchError>, s: Log, e: Event): Fate<FetchError> {
    var f := f.(departed := f.departed + Present(ErrorsOf(Leaving(s, e))));
    if e.Failed? && Has(s.entries, e.error.id) then
      f.(replaced := f.replaced + One(s.entries[IndexOf(s.entries, e.error.id)].error))
    else if e.Failed? then Lost(f, s.pendingErrors, e.victim, e.error.id)
    else if e.Drained? then f.(drained := f.drained + Waiting(s.pendingErrors))
    else f
  }

  ghost function Book(l: Ledger, s: Log, e: Event): Ledger {
    Ledger(BookResponses(l.responses, s, e), BookErrors(l.errors, s, e),
           l.pushed + (if e.Requested? && !Has(s.entries, e.request.id) then 1 else 0),
           l.removed + (if e.Requested? then 0 else |Leaving(s, e)|))
  }

  ghost function Books(s: Log, es: seq<Event>): Ledger
    decreases |es|
  {
    if es == [] then Ledger(NoFate(), NoFate(), 0, 0)
    else Book(Books(s, es[..|es| - 1]), Run(s, es[..|es| - 1]), es[|es| - 1])
  }

  // ---------------------------------------------------------------- table lemmas

  lemma WaitingPick<T>(table: map<string, T>) returns (k: string)
    requires table != map[]
    ensures k in table && Waiting(table) == multiset{table[k]} + Waiting(table - {k})
  {
    k :| k in table && Waiting(table) == multiset{table[k]} + Waiting(table - {k});
  }

  lemma {:induction false} WaitingTake<T>(table: map<string, T>, k: string)
    requires k in table
    ensures Waiting(table) == multiset{table[k]} + Waiting(table - {k})
    decreases |table|
  {
    hide Waiting;
    var c := WaitingPick(table);
    if c != k {
      RemovalShrinksStrictly(table, c);
      RemovalShrinksStrictly(table, k);
      WaitingTake(table - {c}, k);
      WaitingTake(table - {k}, c);
      assert table - {c} - {k} == table - {k} - {c};
    }
  }

  lemma WaitingRemove<T>(table: map<string, T>, id: string)
    ensures Waiting(table) == Waiting(table - {id}) + One(Take(table, id))
  {
    hide Waiting;
    if id in table {
      WaitingTake(table, id);
    } else {
      assert table - {id} == table;
    }
  }

  lemma WaitingPut<T>(table: map<string, T>, id: string, outcome: T)
    ensures Waiting(table[id := outcome]) + One(Take(table, id)) == Waiting(table) + multiset{outcome}
  {
    hide Waiting, One, Take;
    WaitingRemove(table, id);
    WaitingTake(table[id := outcome], id);
    assert table[id := outcome] - {id} == table - {id};
  }

  lemma WaitingStash<T>(table: map<string, T>, victim: Option<string>, id: string, outcome: T)
    requires victim.Some? ==> victim.value in table
    ensures var left := if victim.Some? then table - {victim.value} else table;
            Waiting(Stash(table, victim, id, outcome)) + One(Take(left, id))
            + One(if victim.Some? then Take(table, victim.value) else None)
            == Waiting(table) + multiset{outcome}
  {
    hide Waiting, Take;
    if victim.Some? {
      WaitingRemove(table, victim.value);
      WaitingPut(table - {victim.value}, id, outcome);
    } else {
      WaitingPut(table, id, outcome);
    }
  }

  // ------------------------------------------------------------------ conservation

  ghost predicate Balance<T>(received: multiset<T>, held: multiset<T>, waiting: multiset<T>, f: Fate<T>) {
    received == held + waiting + f.Total()
  }

  ghost predicate ResponsesBalance(s: Log, f: Fate<Response>, received: multiset<Response>) {
    Balance(received, Present(ResponsesOf(s.entries)), Waiting(s.pendingResponses), f)
  }

  ghost predicate ErrorsBalance(s: Log, f: Fate<FetchError>, received: multiset<FetchError>) {
    Balance(received, Present(ErrorsOf(s.entries)), Waiting(s.pendingErrors), f)
  }

  /** An outcome reaches an entry, and whatever it held before is superseded. */
  lemma ReplaceBalances<T>(received: multiset<T>, held: multiset<T>, waiting: multiset<T>, f: Fate<T>,
                           held': multiset<T>, old_: multiset<T>, arrived: multiset<T>)
    requires Balance(received, held, waiting, f)
    requires held' + old_ == held + arrived
    ensures Balance(received + arrived, held', waiting, f.(replaced := f.replaced + old_))
  {
    forall x: T
      ensures (received + arrived)[x] == (held' + waiting + f.(replaced := f.replaced + old_).Total())[x]
    {
      assert (held' + old_)[x] == (held + arrived)[x];
      assert received[x] == (held + waiting + f.Total())[x];
    }
  }

  /** An outcome starts to wait; a victim and an older outcome of its id may go. */
  lemma StashBalances<T>(received: multiset<T>, held: multiset<T>, waiting: multiset<T>, f: Fate<T>,
                         waiting': multiset<T>, older: multiset<T>, victim: multiset<T>, arrived: multiset<T>)
    requires Balance(received, held, waiting, f)
    requires waiting' + older + victim == waiting + arrived
    ensures Balance(received + arrived, held, waiting',
                    f.(dropped := f.dropped + victim, overwritten := f.overwritten + older))
  {
    forall x: T
      ensures (received + arrived)[x] == (held + waiting' +
              f.(dropped := f.dropped + victim, overwritten := f.overwritten + older).Total())[x]
    {
      assert (waiting' + older + victim)[x] == (waiting + arrived)[x];
      assert received[x] == (held + waiting + f.Total())[x];
    }
  }

  /** Entries leave with what they hold, and waiting outcomes may move onto an entry. */
  lemma MoveBalances<T>(received: multiset<T>, held: multiset<T>, waiting: multiset<T>, f: Fate<T>,
                        held': multiset<T>, waiting': multiset<T>, gone: multiset<T>, claimed: multiset<T>)
    requires Balance(received, held, waiting, f)
    requires held + claimed == held' + gone
    requires waiting == waiting' + claimed
    ensures Balance(received, held', waiting', f.(departed := f.departed + gone))
  {
    forall x: T
      ensures received[x] == (held' + waiting' + f.(departed := f.departed + gone).Total())[x]
    {
      assert (held + claimed)[x] == (held' + gone)[x];
      assert waiting[x] == (waiting' + claimed)[x];
      assert received[x] == (held + waiting + f.Total())[x];
    }
  }

  /** The counters tell the truth about the ledger. */
  ghost predicate CountersAgree(s: Log, l: Ledger) {
    && s.metrics.duplicateResponses == |l.responses.replaced|
    && s.metrics.duplicateErrors == |l.errors.replaced|
    && s.metrics.pendingResponsesDropped == |l.responses.dropped|
    && s.metrics.pendingErrorsDropped == |l.errors.dropped|
  }

  ghost predicate EntriesAgree(s: Log, l: Ledger) {
    l.pushed == |s.entries| + s.metrics.entriesEvicted + l.removed
  }

  lemma LeavingSplits(s: Log, e: Event)
    requires Inv(s) && Enabled(s, e) && !e.Responded? && !e.Failed?
    ensures e.Requested? ==>
              var arrived := if Has(s.entries, e.request.id) then [] else [Arrival(s, e.request)];
              && Present(ResponsesOf(s.entries)) + Present(ResponsesOf(arrived))
                 == Present(ResponsesOf(Step(s, e).entries)) + Present(ResponsesOf(Leaving(s, e)))
              && Present(ErrorsOf(s.entries)) + Present(ErrorsOf(arrived))
                 == Present(ErrorsOf(Step(s, e).entries)) + Present(ErrorsOf(Leaving(s, e)))
    ensures !e.Requested? ==>
              && Present(ResponsesOf(s.entries))
                 == Present(ResponsesOf(Step(s, e).entries)) + Present(ResponsesOf(Leaving(s, e)))
              && Present(ErrorsOf(s.entries))
                 == Present(ErrorsOf(Step(s, e).entries)) + Present(ErrorsOf(Leaving(s, e)))
  {
    hide Inv, Open, Present;
    PresentEmpty<Response>();
    PresentEmpty<FetchError>();
    match e
    case Requested(r) =>
      RequestEffect(s, r);
      if !Has(s.entries, r.id) {
        EvictedSplits(s.entries, Overflow(|s.entries|, s.maxEntries), Arrival(s, r));
      }
    case Removed(id) =>
      if Has(s.entries, id) {
        RemovedSplits(s.entries, IndexOf(s.entries, id));
      }
    case Retained(keep) =>
      ColumnsSelect(s.entries, keep);
      ColumnsSelect(s.entries, Negate(keep));
      PresentSelect(ResponsesOf(s.entries), keep);
      PresentSelect(ErrorsOf(s.entries), keep);
    case _ =>
  }

  lemma EvictedSplits(entries: seq<Entry>, n: nat, e: Entry)
    requires n <= |entries|
    ensures Present(ResponsesOf(entries)) + Present(ResponsesOf([e]))
            == Present(ResponsesOf(entries[n..] + [e])) + Present(ResponsesOf(entries[..n]))
    ensures Present(ErrorsOf(entries)) + Present(ErrorsOf([e]))
            == Present(ErrorsOf(entries[n..] + [e])) + Present(ErrorsOf(entries[..n]))
  {
    hide Present, ResponsesOf, ErrorsOf;
    ColumnsConcat(entries[..n], entries[n..]);
    ColumnsConcat(entries[n..], [e]);
    assert entries == entries[..n] + entries[n..];
  }

  lemma RemovedSplits(entries: seq<Entry>, i: nat)
    requires i < |entries|
    ensures Present(ResponsesOf(entries))
            == Present(ResponsesOf(entries[..i] + entries[i + 1..])) + Present(ResponsesOf([entries[i]]))
    ensures Present(ErrorsOf(entries))
            == Present(ErrorsOf(entries[..i] + entries[i + 1..])) + Present(ErrorsOf([entries[i]]))
  {
    hide Present, ResponsesOf, ErrorsOf;
    ColumnsConcat(entries[..i], [entries[i]] + entries[i + 1..]);
    ColumnsConcat([entries[i]], entries[i + 1..]);
    ColumnsConcat(entries[..i], entries[i + 1..]);
    assert entries == entries[..i] + ([entries[i]] + entries[i + 1..]);
  }

  lemma PresentEmpty<T>()
    ensures Present<T>([]) == multiset{}
  {
  }

  lemma ColumnsConcat(a: seq<Entry>, b: seq<Entry>)
    ensures Present(ResponsesOf(a + b)) == Present(ResponsesOf(a)) + Present(ResponsesOf(b))
    ensures Present(ErrorsOf(a + b)) == Present(ErrorsOf(a)) + Present(ErrorsOf(b))
  {
    assert ResponsesOf(a + b) == ResponsesOf(a) + ResponsesOf(b);
    assert ErrorsOf(a + b) == ErrorsOf(a) + ErrorsOf(b);
    PresentConcat(ResponsesOf(a), ResponsesOf(b));
    PresentConcat(ErrorsOf(a), ErrorsOf(b));
  }

  lemma {:induction false} ColumnsSelect(entries: seq<Entry>, keep: seq<bool>)
    requires |entries| == |keep|
    ensures ResponsesOf(Select(entries, keep)) == Select(ResponsesOf(entries), keep)
    ensures ErrorsOf(Select(entries, keep)) == Select(ErrorsOf(entries), keep)
  {
    if entries == [] {
    } else {
      ColumnsSelect(entries[1..], keep[1..]);
      assert ResponsesOf(entries)[1..] == ResponsesOf(entries[1..]);
      assert ErrorsOf(entries)[1..] == ErrorsOf(entries[1..]);
    }
  }

  lemma RespondColumns(s: Log, i: nat, r: Response)
    requires i < |s.entries|
    ensures var after := s.entries[i := s.entries[i].(response := Some(r))];
            && Present(ResponsesOf(after)) + One(s.entries[i].response) == Present(ResponsesOf(s.entries)) + multiset{r}
            && ErrorsOf(after) == ErrorsOf(s.entries)
  {
    var after := s.entries[i := s.entries[i].(response := Some(r))];
    assert ResponsesOf(after) == ResponsesOf(s.entries)[i := Some(r)];
    PresentUpdate(ResponsesOf(s.entries), i, Some(r));
  }

  lemma FailColumns(s: Log, i: nat, f: FetchError)
    requires i < |s.entries|
    ensures var after := s.entries[i := s.entries[i].(error := Some(f))];
            && Present(ErrorsOf(after)) + One(s.entries[i].error) == Present(ErrorsOf(s.entries)) + multiset{f}
            && ResponsesOf(after) == ResponsesOf(s.entries)
  {
    var after := s.entries[i := s.entries[i].(error := Some(f))];
    assert ErrorsOf(after) == ErrorsOf(s.entries)[i := Some(f)];
    PresentUpdate(ErrorsOf(s.entries), i, Some(f));
  }

  function ArrivedResponse(e: Event): Option<Response> {
    if e.Responded? then Some(e.response) else None
  }

  function ArrivedError(e: Event): Option<FetchError> {
    if e.Failed? then Some(e.error) else None
  }

  lemma StepBalances(s: Log, l: Ledger, e: Event, responses: multiset<Response>, errors: multiset<FetchError>)
    requires Inv(s) && Enabled(s, e)
    requires ResponsesBalance(s, l.responses, responses) && ErrorsBalance(s, l.errors, errors)
    ensures ResponsesBalance(Step(s, e), BookResponses(l.responses, s, e), responses + One(ArrivedResponse(e)))
    ensures ErrorsBalance(Step(s, e), BookErrors(l.errors, s, e), errors + One(ArrivedError(e)))
  {
    hide Inv, Has, Open, Respond, Fail, ResponsesBalance, ErrorsBalance, BookResponses, BookErrors;
    assert One<Response>(None) == multiset{} && One<FetchError>(None) == multiset{};
    assert responses + multiset{} == responses && errors + multiset{} == errors;
    match e
    case Requested(r) => RequestBalances(s, l, r, responses, errors);
    case Responded(r, victim) => ResponseBalances(s, l, r, victim, responses, errors);
    case Failed(f, victim) => FailureBalances(s, l, f, victim, responses, errors);
    case _ => DepartureBalances(s, l, e, responses, errors);
  }

  lemma DepartureBalances(s: Log, l: Ledger, e: Event, responses: multiset<Response>, errors: multiset<FetchError>)
    requires Inv(s) && Enabled(s, e) && !e.Requested? && !e.Responded? && !e.Failed?
    requires ResponsesBalance(s, l.responses, responses) && ErrorsBalance(s, l.errors, errors)
    ensures ResponsesBalance(Step(s, e), BookResponses(l.responses, s, e), responses)
    ensures ErrorsBalance(Step(s, e), BookErrors(l.errors, s, e), errors)
  {
    hide Inv, Present, Waiting, Has, ResponsesOf, ErrorsOf, Select, Balance;
    var n := Step(s, e);
    LeavingSplits(s, e);
    var goneR, goneE := Present(ResponsesOf(Leaving(s, e))), Present(ErrorsOf(Leaving(s, e)));
    MoveBalances(responses, Present(ResponsesOf(s.entries)), Waiting(s.pendingResponses), l.responses,
                 Present(ResponsesOf(n.entries)), Waiting(s.pendingResponses), goneR, multiset{});
    MoveBalances(errors, Present(ErrorsOf(s.entries)), Waiting(s.pendingErrors), l.errors,
                 Present(ErrorsOf(n.entries)), Waiting(s.pendingErrors), goneE, multiset{});
    if e.Drained? {
      DrainBalances(responses, Present(ResponsesOf(s.entries)), s.pendingResponses, 
                    l.responses.(departed := l.responses.departed + goneR));
      DrainBalances(errors, Present(ErrorsOf(s.entries)), s.pendingErrors,
                    l.errors.(departed := l.errors.departed + goneE));
    }
  }

  lemma DrainBalances<T>(received: multiset<T>, held: multiset<T>, table: map<string, T>, f: Fate<T>)
    requires Balance(received, held, Waiting(table), f)
    ensures Balance(received, held, Waiting<T>(map[]), f.(drained := f.drained + Waiting(table)))
  {
    assert Waiting<T>(map[]) == multiset{};
    assert received == held + Waiting(table) + f.Total();
  }

  lemma RequestBalances(s: Log, l: Ledger, r: Request, responses: multiset<Response>, errors: multiset<FetchError>)
    requires Inv(s)
    requires ResponsesBalance(s, l.responses, responses) && ErrorsBalance(s, l.errors, errors)
    ensures ResponsesBalance(Open(s, r), BookResponses(l.responses, s, Requested(r)), responses)
    ensures ErrorsBalance(Open(s, r), BookErrors(l.errors, s, Requested(r)), errors)
  {
    var e := Requested(r);
    var n := Open(s, r);
    var claimedR, claimedE := One(Take(s.pendingResponses, r.id)), One(Take(s.pendingErrors, r.id));
    hide Inv, Present, Waiting, Open, Has, ResponsesOf, ErrorsOf, Leaving, Take, One, Balance, Fate.Total;
    hide BookResponses, BookErrors;
    RequestEffect(s, r);
    RequestSplits(s, r);
    RequestBooksDepartures(s, l, r);
    WaitingRemove(s.pendingResponses, r.id);
    WaitingRemove(s.pendingErrors, r.id);
    MoveBalances(responses, Present(ResponsesOf(s.entries)), Waiting(s.pendingResponses), l.responses,
                 Present(ResponsesOf(n.entries)), Waiting(n.pendingResponses),
                 Present(ResponsesOf(Leaving(s, e))), claimedR);
    MoveBalances(errors, Present(ErrorsOf(s.entries)), Waiting(s.pendingErrors), l.errors,
                 Present(ErrorsOf(n.entries)), Waiting(n.pendingErrors),
                 Present(ErrorsOf(Leaving(s, e))), claimedE);
  }

  lemma RequestBooksDepartures(s: Log, l: Ledger, r: Request)
    ensures var e := Requested(r);
            && BookResponses(l.responses, s, e)
               == l.responses.(departed := l.responses.departed + Present(ResponsesOf(Leaving(s, e))))
            && BookErrors(l.errors, s, e)
               == l.errors.(departed := l.errors.departed + Present(ErrorsOf(Leaving(s, e))))
  {
    hide Leaving, Present, ResponsesOf, ErrorsOf;
  }

  /** A request moves what was waiting for it onto its entry; a duplicate finds nothing waiting. */
  lemma RequestSplits(s: Log, r: Request)
    requires Inv(s)
    ensures Present(ResponsesOf(s.entries)) + One(Take(s.pendingResponses, r.id))
            == Present(ResponsesOf(Open(s, r).entries)) + Present(ResponsesOf(Leaving(s, Requested(r))))
    ensures Present(ErrorsOf(s.entries)) + One(Take(s.pendingErrors, r.id))
            == Present(ErrorsOf(Open(s, r).entries)) + Present(ErrorsOf(Leaving(s, Requested(r))))
  {
    hide Present, Open, ResponsesOf, ErrorsOf, UniqueIds, Capped;
    LeavingSplits(s, Requested(r)) by { hide Keyed; }
    PresentEmpty<Response>();
    PresentEmpty<FetchError>();
    SingleColumns(Arrival(s, r));
    NoColumns();
  }

  lemma NoColumns()
    ensures ResponsesOf([]) == [] && ErrorsOf([]) == []
  {
  }

  lemma SingleColumns(e: Entry)
    ensures Present(ResponsesOf([e])) == One(e.response)
    ensures Present(ErrorsOf([e])) == One(e.error)
  {
    assert ResponsesOf([e]) == [e.response] + [];
    assert ErrorsOf([e]) == [e.error] + [];
    PresentCons(e.response, []);
    PresentCons(e.error, []);
  }

  lemma ResponseBalances(s: Log, l: Ledger, r: Response, victim: Option<string>,
                         responses: multiset<Response>, errors: multiset<FetchError>)
    requires Enabled(s, Responded(r, victim))
    requires ResponsesBalance(s, l.responses, responses) && ErrorsBalance(s, l.errors, errors)
    ensures ResponsesBalance(Respond(s, r, victim), BookResponses(l.responses, s, Responded(r, victim)),
                             responses + multiset{r})
    ensures ErrorsBalance(Respond(s, r, victim), BookErrors(l.errors, s, Responded(r, victim)), errors)
  {
    hide Present, Waiting, One, Has, Take, ResponsesOf, ErrorsOf, Stash, Balance, Leaving;
    NothingLeaves(s, Responded(r, victim));
    var held, waiting := Present(ResponsesOf(s.entries)), Waiting(s.pendingResponses);
    var n := Respond(s, r, victim);
    assert l.responses.departed + multiset{} == l.responses.departed;
    assert l.errors.departed + multiset{} == l.errors.departed;
    if Has(s.entries, r.id) {
      var i := IndexOf(s.entries, r.id);
      RespondColumns(s, i, r);
      ReplaceBalances(responses, held, waiting, l.responses, Present(ResponsesOf(n.entries)),
                      One(s.entries[i].response), multiset{r});
    } else {
      var left := if victim.Some? then s.pendingResponses - {victim.value} else s.pendingResponses;
      WaitingStash(s.pendingResponses, victim, r.id, r);
      StashBalances(responses, held, waiting, l.responses, Waiting(n.pendingResponses), One(Take(left, r.id)),
                    One(if victim.Some? then Take(s.pendingResponses, victim.value) else None), multiset{r});
    }
  }

  lemma FailureBalances(s: Log, l: Ledger, f: FetchError, victim: Option<string>,
                        responses: multiset<Response>, errors: multiset<FetchError>)
    requires Enabled(s, Failed(f, victim))
    requires ResponsesBalance(s, l.responses, responses) && ErrorsBalance(s, l.errors, errors)
    ensures ResponsesBalance(Fail(s, f, victim), BookResponses(l.responses, s, Failed(f, victim)), responses)
    ensures ErrorsBalance(Fail(s, f, victim), BookErrors(l.errors, s, Failed(f, victim)), errors + multiset{f})
  {
    hide Present, Waiting, One, Has, Take, ResponsesOf, ErrorsOf, Stash, Balance, Leaving;
    NothingLeaves(s, Failed(f, victim));
    var held, waiting := Present(ErrorsOf(s.entries)), Waiting(s.pendingErrors);
    var n := Fail(s, f, victim);
    assert l.responses.departed + multiset{} == l.responses.departed;
    assert l.errors.departed + multiset{} == l.errors.departed;
    if Has(s.entries, f.id) {
      var i := IndexOf(s.entries, f.id);
      FailColumns(s, i, f);
      ReplaceBalances(errors, held, waiting, l.errors, Present(ErrorsOf(n.entries)),
                      One(s.entries[i].error), multiset{f});
    } else {
      var left := if victim.Some? then s.pendingErrors - {victim.value} else s.pendingErrors;
      WaitingStash(s.pendingErrors, victim, f.id, f);
      StashBalances(errors, held, waiting, l.errors, Waiting(n.pendingErrors), One(Take(left, f.id)),
                    One(if victim.Some? then Take(s.pendingErrors, victim.value) else None), multiset{f});
    }
  }

  lemma NothingLeaves(s: Log, e: Event)
    requires e.Responded? || e.Failed?
    ensures Present(ResponsesOf(Leaving(s, e))) == multiset{}
    ensures Present(ErrorsOf(Leaving(s, e))) == multiset{}
  {
    assert Leaving(s, e) == [];
  }

  lemma StepKeepsCounters(s: Log, l: Ledger, e: Event)
    requires Enabled(s, e) && CountersAgree(s, l)
    ensures CountersAgree(Step(s, e), Book(l, s, e))
  {
    hide Step, BookResponses, BookErrors, Enabled;
    if e.Responded? {
      RespondedCounters(s, l.responses, e);
    } else {
      QuietForResponses(s, l.responses, e);
    }
    if e.Failed? {
      FailedCounters(s, l.errors, e);
    } else {
      QuietForErrors(s, l.errors, e);
    }
  }

  lemma QuietForResponses(s: Log, f: Fate<Response>, e: Event)
    requires !e.Responded?
    ensures Step(s, e).metrics.duplicateResponses == s.metrics.duplicateResponses
    ensures Step(s, e).metrics.pendingResponsesDropped == s.metrics.pendingResponsesDropped
    ensures BookResponses(f, s, e).replaced == f.replaced && BookResponses(f, s, e).dropped == f.dropped
  {
    hide Has, Present, Waiting, ResponsesOf, ErrorsOf, Leaving, Overflow, Stash, Enabled;
  }

  lemma QuietForErrors(s: Log, f: Fate<FetchError>, e: Event)
    requires !e.Failed?
    ensures Step(s, e).metrics.duplicateErrors == s.metrics.duplicateErrors
    ensures Step(s, e).metrics.pendingErrorsDropped == s.metrics.pendingErrorsDropped
    ensures BookErrors(f, s, e).replaced == f.replaced && BookErrors(f, s, e).dropped == f.dropped
  {
    hide Has, Present, Waiting, ResponsesOf, ErrorsOf, Leaving, Overflow, Stash, Enabled;
  }

  lemma OneCounts<T>(m: multiset<T>, o: Option<T>)
    ensures |m + One(o)| == |m| + if o.Some? then 1 else 0
  {
  }

  lemma RespondedCounters(s: Log, f: Fate<Response>, e: Event)
    requires e.Responded? && Enabled(s, e)
    requires s.metrics.duplicateResponses == |f.replaced| && s.metrics.pendingResponsesDropped == |f.dropped|
    ensures Step(s, e).metrics.duplicateResponses == |BookResponses(f, s, e).replaced|
    ensures Step(s, e).metrics.pendingResponsesDropped == |BookResponses(f, s, e).dropped|
  {
    hide Has, Present, Waiting, ResponsesOf, Leaving, One, Stash, Full;
    if Has(s.entries, e.response.id) {
      OneCounts(f.replaced, s.entries[IndexOf(s.entries, e.response.id)].response);
    } else {
      OneCounts(f.dropped, if e.victim.Some? then Take(s.pendingResponses, e.victim.value) else None);
    }
  }

  lemma FailedCounters(s: Log, f: Fate<FetchError>, e: Event)
    requires e.Failed? && Enabled(s, e)
    requires s.metrics.duplicateErrors == |f.replaced| && s.metrics.pendingErrorsDropped == |f.dropped|
    ensures Step(s, e).metrics.duplicateErrors == |BookErrors(f, s, e).replaced|
    ensures Step(s, e).metrics.pendingErrorsDropped == |BookErrors(f, s, e).dropped|
  {
    hide Has, Present, Waiting, ErrorsOf, Leaving, One, Stash, Full;
    if Has(s.entries, e.error.id) {
      OneCounts(f.replaced, s.entries[IndexOf(s.entries, e.error.id)].error);
    } else {
      OneCounts(f.dropped, if e.victim.Some? then Take(s.pendingErrors, e.victim.value) else None);
    }
  }

  lemma StepKeepsEntryCount(s: Log, l: Ledger, e: Event)
    requires Enabled(s, e) && EntriesAgree(s, l)
    ensures EntriesAgree(Step(s, e), Book(l, s, e))
  {
    hide Has, BookResponses, BookErrors, Stash;
    match e
    case Requested(r) => RequestEvicts(s, r);
    case Retained(keep) => SelectSizes(s.entries, keep);
    case _ =>
  }

  lemma RequestEvicts(s: Log, r: Request)
    ensures var n, gone := Open(s, r), if Has(s.entries, r.id) then 0 else Overflow(|s.entries|, s.maxEntries);
            && n.metrics.entriesEvicted == s.metrics.entriesEvicted + gone
            && |n.entries| + gone == |s.entries| + if Has(s.entries, r.id) then 0 else 1
  {
    hide Has, Overflow;
  }

  lemma {:induction false} SelectSizes<T>(s: seq<T>, keep: seq<bool>)
    requires |s| == |keep|
    ensures |Select(s, keep)| + |Select(s, Negate(keep))| == |s|
  {
    if s == [] {
    } else {
      assert Negate(keep)[1..] == Negate(keep[1..]);
      SelectSizes(s[1..], keep[1..]);
    }
  }

  /** Conservation over every legal run, with any caps: what was received is, with
      multiplicity, what entries hold, what waits, and what the ledger accounts for; and
      the log's own counters agree with the ledger. */
  lemma {:induction false} NothingIsLost(es: seq<Event>, maxEntries: nat, maxPending: nat)
    requires Legal(New(maxEntries, maxPending), es)
    ensures var s, l := Run(New(maxEntries, maxPending), es), Books(New(maxEntries, maxPending), es);
            && ResponsesBalance(s, l.responses, multiset(Responses(es)))
            && ErrorsBalance(s, l.errors, multiset(Failures(es)))
            && CountersAgree(s, l) && EntriesAgree(s, l)
            && s.metrics.responsesReceived == |Responses(es)|
            && s.metrics.errorsReceived == |Failures(es)|
            && s.metrics.requestsReceived == |Requests(es)|
    decreases |es|
  {
    hide Inv, Step, Book, ResponsesBalance, ErrorsBalance, CountersAgree, EntriesAgree, Enabled;
    hide Responses, Failures, Requests;
    var start := New(maxEntries, maxPending);
    if es == [] {
      FreshBalances(maxEntries, maxPending);
    } else {
      var n := |es| - 1;
      var s, l := Run(start, es[..n]), Books(start, es[..n]);
      ReachableInv(maxEntries, maxPending, es[..n]);
      NothingIsLost(es[..n], maxEntries, maxPending);
      StepBalances(s, l, es[n], multiset(Responses(es[..n])), multiset(Failures(es[..n])));
      StepKeepsCounters(s, l, es[n]);
      StepKeepsEntryCount(s, l, es[n]);
      HistoryGrows(es);
      StepCounts(s, es[n]);
      BookParts(l, s, es[n]);
    }
  }

  lemma FreshBalances(maxEntries: nat, maxPending: nat)
    ensures ResponsesBalance(New(maxEntries, maxPending), NoFate(), multiset{})
    ensures ErrorsBalance(New(maxEntries, maxPending), NoFate(), multiset{})
    ensures CountersAgree(New(maxEntries, maxPending), Ledger(NoFate(), NoFate(), 0, 0))
    ensures EntriesAgree(New(maxEntries, maxPending), Ledger(NoFate(), NoFate(), 0, 0))
    ensures Responses([]) == [] && Failures([]) == [] && Requests([]) == []
  {
  }

  lemma BookParts(l: Ledger, s: Log, e: Event)
    ensures Book(l, s, e).responses == BookResponses(l.responses, s, e)
    ensures Book(l, s, e).errors == BookErrors(l.errors, s, e)
  {
  }

  lemma StepCounts(s: Log, e: Event)
    requires Enabled(s, e)
    ensures var m, m' := s.metrics, Step(s, e).metrics;
            && m'.requestsReceived == m.requestsReceived + (if e.Requested? then 1 else 0)
            && m'.responsesReceived == m.responsesReceived + (if e.Responded? then 1 else 0)
            && m'.errorsReceived == m.errorsReceived + (if e.Failed? then 1 else 0)
  {
  }

  lemma HistoryGrows(es: seq<Event>)
    requires es != []
    ensures var n := |es| - 1;
            && multiset(Responses(es)) == multiset(Responses(es[..n])) + One(ArrivedResponse(es[n]))
            && multiset(Failures(es)) == multiset(Failures(es[..n])) + One(ArrivedError(es[n]))
            && |Responses(es)| == |Responses(es[..n])| + (if es[n].Responded? then 1 else 0)
            && |Failures(es)| == |Failures(es[..n])| + (if es[n].Failed? then 1 else 0)
            && |Requests(es)| == |Requests(es[..n])| + (if es[n].Requested? then 1 else 0)
  {
  }
}
