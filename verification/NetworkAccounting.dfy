/**
 What the log's counters account for. With the outcomes it still holds, hands out or lets
 go with their entries they cover everything received, except an outcome overwritten
 while it waits: exactly when that never happens do the numbers add up.
 */
module NetworkAccounting {
  import opened Wrappers
  import opened Sequences
  import opened NetworkSpec
  import opened NetworkHistory
  import opened NetworkLedger

  /** A response for an id that is not in the log, whose earlier response still waits and
      is not the one given up to make room. */
  predicate OverwritesResponse(s: Log, e: Event) {
    e.Responded? && !Has(s.entries, e.response.id) && e.response.id in s.pendingResponses
    && e.victim != Some(e.response.id)
  }

  predicate OverwritesError(s: Log, e: Event) {
    e.Failed? && !Has(s.entries, e.error.id) && e.error.id in s.pendingErrors && e.victim != Some(e.error.id)
  }

  /** No step of the run overwrites a waiting response. */
  ghost predicate NeverOverwritesResponse(s: Log, es: seq<Event>)
    decreases |es|
  {
    es == [] ||
    (NeverOverwritesResponse(s, es[..|es| - 1]) && !OverwritesResponse(Run(s, es[..|es| - 1]), es[|es| - 1]))
  }

  ghost predicate NeverOverwritesError(s: Log, es: seq<Event>)
    decreases |es|
  {
    es == [] ||
    (NeverOverwritesError(s, es[..|es| - 1]) && !OverwritesError(Run(s, es[..|es| - 1]), es[|es| - 1]))
  }

  lemma LostOverwrites<T>(f: Fate<T>, table: map<string, T>, victim: Option<string>, id: string)
    ensures Lost(f, table, victim, id).overwritten == multiset{}
            <==> f.overwritten == multiset{} && !(id in table && victim != Some(id))
  {
  }

  lemma BookOverwritesResponses(f: Fate<Response>, s: Log, e: Event)
    ensures BookResponses(f, s, e).overwritten == multiset{}
            <==> f.overwritten == multiset{} && !OverwritesResponse(s, e)
  {
    hide Has, Leaving, Present, ResponsesOf, Waiting, Lost, One;
    var g := f.(departed := f.departed + Present(ResponsesOf(Leaving(s, e))));
    if e.Responded? {
      LostOverwrites(g, s.pendingResponses, e.victim, e.response.id);
    }
  }

  lemma BookOverwritesErrors(f: Fate<FetchError>, s: Log, e: Event)
    ensures BookErrors(f, s, e).overwritten == multiset{}
            <==> f.overwritten == multiset{} && !OverwritesError(s, e)
  {
    hide Has, Leaving, Present, ErrorsOf, Waiting, Lost, One;
    var g := f.(departed := f.departed + Present(ErrorsOf(Leaving(s, e))));
    if e.Failed? {
      LostOverwrites(g, s.pendingErrors, e.victim, e.error.id);
    }
  }

  lemma {:induction false} OverwrittenExactly(s: Log, es: seq<Event>)
    ensures Books(s, es).responses.overwritten == multiset{} <==> NeverOverwritesResponse(s, es)
    ensures Books(s, es).errors.overwritten == multiset{} <==> NeverOverwritesError(s, es)
    decreases |es|
  {
    hide Run, Book, BookResponses, BookErrors, OverwritesResponse, OverwritesError;
    if es == [] {
    } else {
      var front := es[..|es| - 1];
      var q, l, e := Run(s, front), Books(s, front), es[|es| - 1];
      OverwrittenExactly(s, front);
      BookParts(l, q, e);
      BookOverwritesResponses(l.responses, q, e);
      BookOverwritesErrors(l.errors, q, e);
    }
  }

  /** The log accounts for every response: received ones are held, waiting, gone with their
      entry, drained, or in one of the two counters. */
  ghost predicate ResponsesAddUp(s: Log, f: Fate<Response>) {
    s.metrics.responsesReceived ==
    |Present(ResponsesOf(s.entries))| + |Waiting(s.pendingResponses)| + |f.departed| + |f.drained|
    + s.metrics.duplicateResponses + s.metrics.pendingResponsesDropped
  }

  ghost predicate ErrorsAddUp(s: Log, f: Fate<FetchError>) {
    s.metrics.errorsReceived ==
    |Present(ErrorsOf(s.entries))| + |Waiting(s.pendingErrors)| + |f.departed| + |f.drained|
    + s.metrics.duplicateErrors + s.metrics.pendingErrorsDropped
  }

  lemma BalanceCounts<T>(received: multiset<T>, held: multiset<T>, waiting: multiset<T>, f: Fate<T>)
    requires Balance(received, held, waiting, f)
    ensures |received| == |held| + |waiting| + |f.departed| + |f.replaced| + |f.dropped| + |f.drained| + |f.overwritten|
  {
  }

  /** Over every legal run, with any caps and caller operations, the counters account for
      everything received exactly when no step overwrites a waiting outcome. */
  lemma CountersAddUpExactly(es: seq<Event>, maxEntries: nat, maxPending: nat)
    requires Legal(New(maxEntries, maxPending), es)
    ensures var start := New(maxEntries, maxPending);
            var s, l := Run(start, es), Books(start, es);
            && (ResponsesAddUp(s, l.responses) <==> NeverOverwritesResponse(start, es))
            && (ErrorsAddUp(s, l.errors) <==> NeverOverwritesError(start, es))
  {
    hide Run, Books, Legal, NeverOverwritesResponse, NeverOverwritesError, Present, Waiting, Balance;
    hide Responses, Failures, Requests, EntriesAgree, ResponsesOf, ErrorsOf;
    var start := New(maxEntries, maxPending);
    var s, l := Run(start, es), Books(start, es);
    NothingIsLost(es, maxEntries, maxPending);
    OverwrittenExactly(start, es);
    BalanceCounts(multiset(Responses(es)), Present(ResponsesOf(s.entries)), Waiting(s.pendingResponses), l.responses);
    BalanceCounts(multiset(Failures(es)), Present(ErrorsOf(s.entries)), Waiting(s.pendingErrors), l.errors);
  }

  /** Two responses for one id and no request: two were received, one waits, and no counter
      knows of the other. */
  lemma OverwrittenIsUncounted(first: Response, second: Response)
    requires first.id == second.id
    ensures var es := [Responded(first, None), Responded(second, None)];
            var s := Run(New(0, 0), es);
            && Legal(New(0, 0), es)
            && s.entries == [] && s.pendingResponses == map[first.id := second]
            && s.metrics == NO_METRICS.(responsesReceived := 2)
            && !NeverOverwritesResponse(New(0, 0), es)
  {
    var es := [Responded(first, None), Responded(second, None)];
    var start := New(0, 0);
    assert es[..1] == [Responded(first, None)] && es[..1][..0] == [];
    assert Run(start, []) == start && Legal(start, []);
    var s := Step(start, Responded(first, None));
    assert s == start.(pendingResponses := map[first.id := first], metrics := NO_METRICS.(responsesReceived := 1));
    assert Run(start, es[..1]) == s && Legal(start, es[..1]);
    assert Enabled(s, es[1]) && OverwritesResponse(s, es[1]);
    assert Run(start, es) == Step(s, es[1]);
    assert map[first.id := first][first.id := second] == map[first.id := second];
  }

  /** A step gives up a waiting outcome, and counts it, exactly when one arrives for an id
      without an entry while a positive cap's worth of its kind is waiting. */
  lemma GivesUpExactly(s: Log, e: Event)
    requires Enabled(s, e)
    ensures Step(s, e).metrics.pendingResponsesDropped == s.metrics.pendingResponsesDropped
            + if e.Responded? && !Has(s.entries, e.response.id)
                 && s.maxPending > 0 && |s.pendingResponses| >= s.maxPending then 1 else 0
    ensures Step(s, e).metrics.pendingErrorsDropped == s.metrics.pendingErrorsDropped
            + if e.Failed? && !Has(s.entries, e.error.id)
                 && s.maxPending > 0 && |s.pendingErrors| >= s.maxPending then 1 else 0
  {
    hide Has, Overflow, Take, Stash;
  }

  // ------------------------------------------------------------------ broadcast drops

  /** The entries opened while nobody listened. */
  ghost function Unheard(s: Log, es: seq<Event>): nat
    decreases |es|
  {
    if es == [] then 0
    else
      var q, e := Run(s, es[..|es| - 1]), es[|es| - 1];
      Unheard(s, es[..|es| - 1])
      + if e.Requested? && !Has(q.entries, e.request.id) && q.receivers == 0 then 1 else 0
  }

  lemma StepDrops(s: Log, e: Event)
    ensures Step(s, e).metrics.broadcastDrops == s.metrics.broadcastDrops
            + if e.Requested? && !Has(s.entries, e.request.id) && s.receivers == 0 then 1 else 0
  {
    hide Has, Overflow, Take, Stash;
  }

  /** The drop counter is the number of entries opened while nobody listened: updates
      nobody heard, and messages a slow receiver missed, are not in it. */
  lemma {:induction false} DropsAreUnheardEntries(s: Log, es: seq<Event>)
    ensures Run(s, es).metrics.broadcastDrops == s.metrics.broadcastDrops + Unheard(s, es)
    decreases |es|
  {
    hide Step, Has;
    if es == [] {
    } else {
      DropsAreUnheardEntries(s, es[..|es| - 1]);
      StepDrops(Run(s, es[..|es| - 1]), es[|es| - 1]);
    }
  }
}
