/**
 What the log holds, said without the log: a function of the requests, responses and
 failures received so far. Outcomes may arrive before, after or between the requests
 they belong to; the result is the same.
 */
module NetworkHistory {
  import opened Wrappers
  import opened Sequences
  import opened NetworkSpec

  /** Only browser traffic: nobody removes, clears or drains. */
  predicate Traffic(es: seq<Event>) {
    forall i | 0 <= i < |es| :: es[i].Requested? || es[i].Responded? || es[i].Failed? || es[i].Listening?
  }

  function Requests(es: seq<Event>): seq<Request> {
    if es == [] then [] else
      var n := |es| - 1;
      Requests(es[..n]) + if es[n].Requested? then [es[n].request] else []
  }

  function Responses(es: seq<Event>): seq<Response> {
    if es == [] then [] else
      var n := |es| - 1;
      Responses(es[..n]) + if es[n].Responded? then [es[n].response] else []
  }

  function Failures(es: seq<Event>): seq<FetchError> {
    if es == [] then [] else
      var n := |es| - 1;
      Failures(es[..n]) + if es[n].Failed? then [es[n].error] else []
  }

  predicate Asked(rs: seq<Request>, id: string) {
    exists i | 0 <= i < |rs| :: rs[i].id == id
  }

  ghost predicate DistinctIds(rs: seq<Request>) {
    forall i, j | 0 <= i < j < |rs| :: rs[i].id != rs[j].id
  }

  /** The first request of each id, in order. */
  function FirstRequests(rs: seq<Request>): seq<Request> {
    if rs == [] then [] else
      var n := |rs| - 1;
      var earlier := FirstRequests(rs[..n]);
      if Asked(earlier, rs[n].id) then earlier else earlier + [rs[n]]
  }

  function LastResponse(rs: seq<Response>, id: string): Option<Response> {
    if rs == [] then None
    else if rs[|rs| - 1].id == id then Some(rs[|rs| - 1])
    else LastResponse(rs[..|rs| - 1], id)
  }

  function LastFailure(fs: seq<FetchError>, id: string): Option<FetchError> {
    if fs == [] then None
    else if fs[|fs| - 1].id == id then Some(fs[|fs| - 1])
    else LastFailure(fs[..|fs| - 1], id)
  }

  /** A cap of zero is no cap. */
  function Window<T>(s: seq<T>, cap: nat): seq<T> {
    if cap == 0 then s else Suffix(s, cap)
  }

  function RequestsOf(entries: seq<Entry>): (rs: seq<Request>)
    ensures |rs| == |entries|
    ensures forall i | 0 <= i < |rs| :: rs[i] == entries[i].request
  {
    seq(|entries|, i requires 0 <= i < |entries| => entries[i].request)
  }

  function EntryOf(es: seq<Event>, r: Request): Entry {
    Entry(r, LastResponse(Responses(es), r.id), LastFailure(Failures(es), r.id))
  }

  function EntriesOf(es: seq<Event>, rs: seq<Request>): (entries: seq<Entry>)
    ensures |entries| == |rs|
    ensures forall i | 0 <= i < |rs| :: entries[i] == EntryOf(es, rs[i])
  {
    seq(|rs|, i requires 0 <= i < |rs| => EntryOf(es, rs[i]))
  }

  /** One entry per id in order of first request, with the last outcomes of that id. */
  function Expected(es: seq<Event>): seq<Entry> {
    EntriesOf(es, FirstRequests(Requests(es)))
  }

  // ------------------------------------------------------- which requests are kept

  lemma {:induction false} FirstRequestsAsk(rs: seq<Request>)
    ensures forall id :: Asked(FirstRequests(rs), id) <==> Asked(rs, id)
    ensures DistinctIds(rs) ==> FirstRequests(rs) == rs
  {
    if rs == [] {
    } else {
      var n := |rs| - 1;
      FirstRequestsAsk(rs[..n]);
      var earlier := FirstRequests(rs[..n]);
      assert rs == rs[..n] + [rs[n]];
      AskedAppend(rs[..n], rs[n]);
      AskedAppend(earlier, rs[n]);
    }
  }

  lemma AskedAppend(rs: seq<Request>, r: Request)
    ensures forall id :: Asked(rs + [r], id) <==> Asked(rs, id) || id == r.id
    ensures DistinctIds(rs + [r]) <==> DistinctIds(rs) && !Asked(rs, r.id)
  {
    forall id
      ensures Asked(rs + [r], id) <==> Asked(rs, id) || id == r.id
    {
      if i :| 0 <= i < |rs| && rs[i].id == id { assert (rs + [r])[i].id == id; }
      assert (rs + [r])[|rs|] == r;
    }
    if Asked(rs, r.id) {
      var i :| 0 <= i < |rs| && rs[i].id == r.id;
      assert (rs + [r])[i].id == (rs + [r])[|rs|].id;
    }
    if DistinctIds(rs + [r]) {
      assert forall i, j | 0 <= i < j < |rs| :: rs[i] == (rs + [r])[i] && rs[j] == (rs + [r])[j];
    }
  }

  lemma HasIsAsked(entries: seq<Entry>, id: string)
    ensures Has(entries, id) <==> Asked(RequestsOf(entries), id)
  {
    if i :| 0 <= i < |entries| && entries[i].request.id == id { assert RequestsOf(entries)[i].id == id; }
    if i :| 0 <= i < |entries| && RequestsOf(entries)[i].id == id { assert entries[i].request.id == id; }
  }

  lemma AskedInWindow(rs: seq<Request>, cap: nat, id: string)
    ensures Asked(Window(rs, cap), id) ==> Asked(rs, id)
  {
    if i :| 0 <= i < |Window(rs, cap)| && Window(rs, cap)[i].id == id {
      assert rs[i + |rs| - |Window(rs, cap)|].id == id;
    }
  }

  /** No id is asked again once the cap has pushed it out. */
  predicate NoneReturns(rs: seq<Request>, cap: nat) {
    rs == [] ||
    var n := |rs| - 1;
    && NoneReturns(rs[..n], cap)
    && (Asked(rs[..n], rs[n].id) ==> Asked(Window(FirstRequests(rs[..n]), cap), rs[n].id))
  }

  lemma NoneReturnsAppend(rs: seq<Request>, r: Request, cap: nat)
    ensures NoneReturns(rs + [r], cap) <==>
            NoneReturns(rs, cap) && (Asked(rs, r.id) ==> Asked(Window(FirstRequests(rs), cap), r.id))
  {
    hide Asked, Window, FirstRequests;
    assert (rs + [r])[..|rs|] == rs;
  }

  /** Distinct ids never return, and without a cap no id does. */
  lemma {:induction false} WhenNoneReturns(rs: seq<Request>, cap: nat)
    ensures cap == 0 || DistinctIds(rs) ==> NoneReturns(rs, cap)
  {
    hide Asked, FirstRequests, DistinctIds;
    if rs == [] {
    } else {
      var n := |rs| - 1;
      assert rs == rs[..n] + [rs[n]];
      AskedAppend(rs[..n], rs[n]);
      WhenNoneReturns(rs[..n], cap);
      FirstRequestsAsk(rs[..n]);
    }
  }

  /** The entry list is the window of the latest first-requests, as long as no evicted
      id is asked again. */
  lemma {:induction false} KeptRequests(es: seq<Event>, maxEntries: nat, maxPending: nat)
    requires Traffic(es)
    requires NoneReturns(Requests(es), maxEntries)
    ensures RequestsOf(Run(New(maxEntries, maxPending), es).entries)
            == Window(FirstRequests(Requests(es)), maxEntries)
    decreases |es|
  {
    hide Inv, Step, NoneReturns, FirstRequests, Window, Asked, RequestsOf;
    if es == [] {
      EmptyWindow(maxEntries);
    } else {
      var n := |es| - 1;
      var before := Run(New(maxEntries, maxPending), es[..n]);
      ReachableInv(maxEntries, maxPending, es[..n]);
      if es[n].Requested? {
        NoneReturnsAppend(Requests(es[..n]), es[n].request, maxEntries);
        KeptRequests(es[..n], maxEntries, maxPending);
        RequestMovesWindow(before, es[n].request, Requests(es[..n]));
        RequestStep(before, es[n].request);
      } else {
        assert Requests(es) == Requests(es[..n]);
        KeptRequests(es[..n], maxEntries, maxPending);
        OutcomesMoveNothing(before, es[n]);
      }
    }
  }

  lemma EmptyWindow(cap: nat)
    ensures RequestsOf([]) == Window(FirstRequests([]), cap)
  {
  }

  lemma RequestStep(s: Log, r: Request)
    ensures Step(s, Requested(r)) == Open(s, r)
  {
  }

  lemma OutcomesMoveNothing(s: Log, e: Event)
    requires e.Responded? || e.Failed? || e.Listening?
    ensures RequestsOf(Step(s, e).entries) == RequestsOf(s.entries)
  {
    assert |Step(s, e).entries| == |s.entries|;
    assert forall i | 0 <= i < |s.entries| :: Step(s, e).entries[i].request == s.entries[i].request;
  }

  lemma RequestMovesWindow(s: Log, r: Request, rs: seq<Request>)
    requires Inv(s)
    requires RequestsOf(s.entries) == Window(FirstRequests(rs), s.maxEntries)
    requires NoneReturns(rs + [r], s.maxEntries)
    ensures RequestsOf(Open(s, r).entries) == Window(FirstRequests(rs + [r]), s.maxEntries)
  {
    hide Open, Asked, Has, Inv, Window, FirstRequests, NoneReturns, RequestsOf, Overflow, Arrival;
    var all := FirstRequests(rs);
    FirstRequestsGrow(rs, r);
    AskedFirst(rs, r.id);
    HasIsAsked(s.entries, r.id);
    NoneReturnsAppend(rs, r, s.maxEntries);
    AskedInWindow(all, s.maxEntries, r.id);
    RequestEffect(s, r);
    if !Asked(all, r.id) {
      ArrivalRequests(s, r);
      RequestsSlide(s.entries, Overflow(|s.entries|, s.maxEntries), Arrival(s, r));
      WindowMoves(all, r, s.maxEntries);
    }
  }

  lemma AskedFirst(rs: seq<Request>, id: string)
    ensures Asked(FirstRequests(rs), id) <==> Asked(rs, id)
  {
    hide Asked, FirstRequests;
    FirstRequestsAsk(rs);
  }

  lemma ArrivalRequests(s: Log, r: Request)
    ensures Arrival(s, r).request == r
  {
  }

  lemma RequestsSlide(entries: seq<Entry>, n: nat, e: Entry)
    requires n <= |entries|
    ensures RequestsOf(entries[n..] + [e]) == RequestsOf(entries)[n..] + [e.request]
  {
  }

  lemma FirstRequestsGrow(rs: seq<Request>, r: Request)
    ensures FirstRequests(rs + [r]) ==
            if Asked(FirstRequests(rs), r.id) then FirstRequests(rs) else FirstRequests(rs) + [r]
  {
    assert (rs + [r])[..|rs|] == rs;
  }

  lemma WindowMoves<T>(s: seq<T>, x: T, cap: nat)
    ensures |Window(s, cap)| <= |s|
    ensures cap > 0 ==> |Window(s, cap)| <= cap
    ensures Window(s + [x], cap) == Window(s, cap)[Overflow(|Window(s, cap)|, cap)..] + [x]
  {
  }

  /** The entry list is the window after every step of a run exactly when no evicted id
      is asked again: one that is comes back at the end. */
  lemma {:induction false} WindowExactly(es: seq<Event>, maxEntries: nat, maxPending: nat)
    requires Traffic(es)
    ensures NoneReturns(Requests(es), maxEntries) <==>
            forall n | 0 <= n <= |es| :: ShowsWindow(es[..n], maxEntries, maxPending)
    decreases |es|
  {
    hide NoneReturns, ShowsWindow;
    if NoneReturns(Requests(es), maxEntries) {
      forall n | 0 <= n <= |es| ensures ShowsWindow(es[..n], maxEntries, maxPending) {
        PrefixReturns(es, n, maxEntries);
        PrefixShowsWindow(es[..n], maxEntries, maxPending);
      }
    } else if es == [] {
      NothingReturns(maxEntries);
    } else if forall n | 0 <= n <= |es| :: ShowsWindow(es[..n], maxEntries, maxPending) {
      var m := |es| - 1;
      forall n | 0 <= n <= m ensures ShowsWindow(es[..m][..n], maxEntries, maxPending) {
        assert es[..m][..n] == es[..n];
      }
      WindowExactly(es[..m], maxEntries, maxPending);
      assert es[..|es|] == es;
      LastRequestReturned(es, maxEntries, maxPending);
    }
  }

  ghost predicate ShowsWindow(es: seq<Event>, maxEntries: nat, maxPending: nat) {
    RequestsOf(Run(New(maxEntries, maxPending), es).entries) == Window(FirstRequests(Requests(es)), maxEntries)
  }

  lemma PrefixShowsWindow(es: seq<Event>, maxEntries: nat, maxPending: nat)
    requires Traffic(es) && NoneReturns(Requests(es), maxEntries)
    ensures ShowsWindow(es, maxEntries, maxPending)
  {
    KeptRequests(es, maxEntries, maxPending);
  }

  lemma NothingReturns(cap: nat)
    ensures NoneReturns(Requests([]), cap)
  {
  }

  lemma {:induction false} PrefixReturns(es: seq<Event>, n: nat, cap: nat)
    requires n <= |es| && NoneReturns(Requests(es), cap)
    ensures NoneReturns(Requests(es[..n]), cap)
    decreases |es|
  {
    hide NoneReturns;
    if n < |es| {
      var m := |es| - 1;
      assert es[..m][..n] == es[..n];
      assert !es[m].Requested? ==> Requests(es) == Requests(es[..m]);
      if es[m].Requested? {
        NoneReturnsAppend(Requests(es[..m]), es[m].request, cap);
      }
      PrefixReturns(es[..m], n, cap);
    } else {
      assert es[..n] == es;
    }
  }

  lemma LastRequestReturned(es: seq<Event>, maxEntries: nat, maxPending: nat)
    requires es != [] && ShowsWindow(es[..|es| - 1], maxEntries, maxPending) && ShowsWindow(es, maxEntries, maxPending)
    requires NoneReturns(Requests(es[..|es| - 1]), maxEntries)
    ensures NoneReturns(Requests(es), maxEntries)
  {
    hide NoneReturns, Asked, FirstRequests, Window, RequestsOf, Open, Has;
    var m := |es| - 1;
    assert !es[m].Requested? ==> Requests(es) == Requests(es[..m]);
    if es[m].Requested? {
      var r, rs := es[m].request, Requests(es[..m]);
      var s := Run(New(maxEntries, maxPending), es[..m]);
      NoneReturnsAppend(rs, r, maxEntries);
      FirstRequestsGrow(rs, r);
      FirstRequestsAsk(rs);
      HasIsAsked(s.entries, r.id);
      RunKeepsCaps(es[..m], maxEntries, maxPending);
      RequestEffect(s, r);
      if Asked(rs, r.id) && !Has(s.entries, r.id) {
        var after := Open(s, r).entries;
        assert after[|after| - 1].request == r;
        HasLast(after);
        HasIsAsked(after, r.id);
      }
    }
  }

  lemma RunKeepsCaps(es: seq<Event>, maxEntries: nat, maxPending: nat)
    ensures Run(New(maxEntries, maxPending), es).maxEntries == maxEntries
  {
    ReachableInv(maxEntries, maxPending, es);
  }

  lemma HasLast(entries: seq<Entry>)
    requires entries != []
    ensures Has(entries, entries[|entries| - 1].request.id)
  {
  }

  /** With room for one entry, an id that was pushed out is asked again: its entry is back,
      though the other id was first asked for later. */
  lemma EvictedIdReturns(a: Request, b: Request)
    requires a.id != b.id
    ensures var es := [Requested(a), Requested(b), Requested(a)];
            && Run(New(1, 0), es).entries == [Entry(a, None, None)]
            && Window(FirstRequests(Requests(es)), 1) == [b]
            && !NoneReturns(Requests(es), 1) && !ShowsWindow(es, 1, 0)
  {
    hide Run, Requests, FirstRequests, NoneReturns, Asked;
    RunOfThree(a, b);
    RequestsOfThree(a, b);
    FirstRequestsAsk([a, b]);
    FirstRequestsGrow([a, b], a);
    NoneReturnsAppend([a, b], a, 1);
    AskedOfTwo(a, b);
    assert Window([a, b], 1) == [b];
    assert RequestsOf([Entry(a, None, None)]) == [a];
  }

  lemma RequestsOfThree(a: Request, b: Request)
    ensures Requests([Requested(a), Requested(b), Requested(a)]) == [a, b] + [a]
  {
    assert [Requested(a), Requested(b), Requested(a)][..2] == [Requested(a), Requested(b)];
    assert [Requested(a), Requested(b)][..1] == [Requested(a)];
    assert Requests([Requested(a)]) == [a];
    assert Requests([Requested(a), Requested(b)]) == [a] + [b] == [a, b];
  }

  lemma AskedOfTwo(a: Request, b: Request)
    requires a.id != b.id
    ensures Asked([a, b], a.id) && !Asked([b], a.id)
  {
    assert [a, b][0].id == a.id;
  }

  lemma RunOfThree(a: Request, b: Request)
    requires a.id != b.id
    ensures Run(New(1, 0), [Requested(a), Requested(b), Requested(a)]).entries == [Entry(a, None, None)]
  {
    hide Run, Step;
    var start, es := New(1, 0), [Requested(a), Requested(b), Requested(a)];
    RunGrows(start, [], Requested(a));
    RunGrows(start, [Requested(a)], Requested(b));
    RunGrows(start, [Requested(a), Requested(b)], Requested(a));
    assert [] + [Requested(a)] == [Requested(a)];
    assert [Requested(a)] + [Requested(b)] == [Requested(a), Requested(b)];
    assert [Requested(a), Requested(b)] + [Requested(a)] == es;
    OnlyEntry(start, a);
    OnlyEntry(Step(start, Requested(a)), b);
    OnlyEntry(Step(Step(start, Requested(a)), Requested(b)), a);
  }

  ghost predicate Single(s: Log) {
    s.maxEntries == 1 && |s.entries| <= 1 && s.pendingResponses == map[] && s.pendingErrors == map[]
  }

  lemma OnlyEntry(s: Log, r: Request)
    requires Single(s) && (s.entries != [] ==> s.entries[0].request.id != r.id)
    ensures Single(Step(s, Requested(r))) && Step(s, Requested(r)).entries == [Entry(r, None, None)]
  {
    RequestEffect(s, r);
  }

  lemma RunGrows(s: Log, es: seq<Event>, e: Event)
    ensures Run(s, []) == s && Run(s, es + [e]) == Step(Run(s, es), e)
  {
    assert (es + [e])[..|es|] == es;
  }

  // ------------------------------------------------------------ which outcomes they carry

  /** Every entry carries the last outcomes of its id. */
  ghost predicate Carry(entries: seq<Entry>, es: seq<Event>) {
    forall i | 0 <= i < |entries| :: entries[i] == EntryOf(es, entries[i].request)
  }

  /** Every kept entry carries the last outcomes of its id, and the outcomes of an id
      nobody asked for yet are all still waiting. */
  ghost predicate Reconciled(s: Log, es: seq<Event>) {
    && Carry(s.entries, es)
    && (forall id | !Asked(Requests(es), id) ::
          && Take(s.pendingResponses, id) == LastResponse(Responses(es), id)
          && Take(s.pendingErrors, id) == LastFailure(Failures(es), id))
  }

  lemma {:induction false} OutcomesReconciled(es: seq<Event>, maxEntries: nat)
    requires Traffic(es) && Legal(New(maxEntries, 0), es)
    requires NoneReturns(Requests(es), maxEntries)
    ensures Reconciled(Run(New(maxEntries, 0), es), es)
    decreases |es|
  {
    hide Inv, Step, NoneReturns, FirstRequests, Window, Asked, RequestsOf, Reconciled, Enabled;
    if es == [] {
      NothingToReconcile(maxEntries);
    } else {
      var n := |es| - 1;
      var s := Run(New(maxEntries, 0), es[..n]);
      ReachableInv(maxEntries, 0, es[..n]);
      if es[n].Requested? {
        NoneReturnsAppend(Requests(es[..n]), es[n].request, maxEntries);
      } else {
        assert Requests(es) == Requests(es[..n]);
      }
      OutcomesReconciled(es[..n], maxEntries);
      KeptRequests(es[..n], maxEntries, 0);
      assert es == es[..n] + [es[n]];
      EventReconciles(s, es[..n], es[n]);
    }
  }

  lemma NothingToReconcile(maxEntries: nat)
    ensures Reconciled(New(maxEntries, 0), [])
  {
  }

  lemma EventReconciles(s: Log, es: seq<Event>, e: Event)
    requires Inv(s) && Reconciled(s, es) && s.maxPending == 0 && Enabled(s, e)
    requires e.Requested? || e.Responded? || e.Failed? || e.Listening?
    requires RequestsOf(s.entries) == Window(FirstRequests(Requests(es)), s.maxEntries)
    requires NoneReturns(Requests(es + [e]), s.maxEntries)
    ensures Reconciled(Step(s, e), es + [e])
  {
    hide Inv, NoneReturns, FirstRequests, Window, Asked, RequestsOf, Open, Respond, Fail, Has;
    assert (es + [e])[..|es|] == es;
    match e
    case Requested(r) =>
      hide Reconciled;
      RequestReconciles(s, es, es + [e], r);
    case Responded(r, victim) =>
      hide Reconciled;
      ResponseReconciles(s, es, es + [e], r);
    case Failed(f, victim) =>
      hide Reconciled;
      FailureReconciles(s, es, es + [e], f);
    case Listening(k) =>
      assert Requests(es + [e]) == Requests(es) && Responses(es + [e]) == Responses(es);
      assert Failures(es + [e]) == Failures(es);
  }

  /** A live id was asked for. */
  lemma LiveIsAsked(s: Log, rs: seq<Request>, id: string)
    requires RequestsOf(s.entries) == Window(FirstRequests(rs), s.maxEntries)
    requires Has(s.entries, id)
    ensures Asked(rs, id)
  {
    HasIsAsked(s.entries, id);
    AskedInWindow(FirstRequests(rs), s.maxEntries, id);
    FirstRequestsAsk(rs);
  }

  lemma RequestGrows(es: seq<Event>, r: Request)
    ensures Requests(es + [Requested(r)]) == Requests(es) + [r]
    ensures Responses(es + [Requested(r)]) == Responses(es)
    ensures Failures(es + [Requested(r)]) == Failures(es)
  {
    assert (es + [Requested(r)])[..|es|] == es;
  }

  lemma ResponseGrows(es: seq<Event>, r: Response, id: string)
    ensures var es' := es + [Responded(r, None)];
            && Requests(es') == Requests(es) && Failures(es') == Failures(es)
            && LastResponse(Responses(es'), id) == if id == r.id then Some(r) else LastResponse(Responses(es), id)
  {
    assert (es + [Responded(r, None)])[..|es|] == es;
    assert (Responses(es) + [r])[..|Responses(es)|] == Responses(es);
  }

  lemma FailureGrows(es: seq<Event>, f: FetchError, id: string)
    ensures var es' := es + [Failed(f, None)];
            && Requests(es') == Requests(es) && Responses(es') == Responses(es)
            && LastFailure(Failures(es'), id) == if id == f.id then Some(f) else LastFailure(Failures(es), id)
  {
    assert (es + [Failed(f, None)])[..|es|] == es;
    assert (Failures(es) + [f])[..|Failures(es)|] == Failures(es);
  }

  lemma RequestReconciles(s: Log, es: seq<Event>, es': seq<Event>, r: Request)
    requires Reconciled(s, es)
    requires es' == es + [Requested(r)]
    requires RequestsOf(s.entries) == Window(FirstRequests(Requests(es)), s.maxEntries)
    requires NoneReturns(Requests(es) + [r], s.maxEntries)
    ensures Reconciled(Open(s, r), es')
  {
    hide Open, Asked, Has, NoneReturns, FirstRequests, Window, RequestsOf, Requests, Responses, Failures;
    hide LastResponse, LastFailure, Carry, Take, Overflow, Arrival;
    RequestGrows(es, r);
    NoneReturnsAppend(Requests(es), r, s.maxEntries);
    AskedAppend(Requests(es), r);
    RequestEffect(s, r);
    HasIsAsked(s.entries, r.id);
    SameOutcomesCarry(s.entries, es, es');
    if !Has(s.entries, r.id) {
      ArrivalCarries(s, es, es', r);
      ArrivalRequests(s, r);
      CarrySlides(s.entries, Overflow(|s.entries|, s.maxEntries), Arrival(s, r), es');
    }
    forall id | !Asked(Requests(es'), id)
      ensures Take(Open(s, r).pendingResponses, id) == LastResponse(Responses(es'), id)
      ensures Take(Open(s, r).pendingErrors, id) == LastFailure(Failures(es'), id)
    {
      TakeOthers(s.pendingResponses, r.id, id);
      TakeOthers(s.pendingErrors, r.id, id);
    }
  }

  lemma TakeOthers<T>(pending: map<string, T>, taken: string, id: string)
    requires id != taken
    ensures Take(pending - {taken}, id) == Take(pending, id)
  {
  }

  lemma SameOutcomesCarry(entries: seq<Entry>, es: seq<Event>, es': seq<Event>)
    requires Carry(entries, es) && Responses(es) == Responses(es') && Failures(es) == Failures(es')
    ensures Carry(entries, es')
  {
    hide LastResponse, LastFailure, Responses, Failures;
  }

  lemma ArrivalCarries(s: Log, es: seq<Event>, es': seq<Event>, r: Request)
    requires Reconciled(s, es) && !Asked(Requests(es), r.id)
    requires Responses(es) == Responses(es') && Failures(es) == Failures(es')
    ensures Arrival(s, r) == EntryOf(es', r)
  {
    hide LastResponse, LastFailure, Responses, Failures, Requests, Asked, Carry;
  }

  lemma CarrySlides(entries: seq<Entry>, n: nat, e: Entry, es: seq<Event>)
    requires n <= |entries| && Carry(entries, es) && e == EntryOf(es, e.request)
    ensures Carry(entries[n..] + [e], es)
  {
    hide EntryOf;
  }

  lemma ResponseReconciles(s: Log, es: seq<Event>, es': seq<Event>, r: Response)
    requires Inv(s) && Reconciled(s, es) && s.maxPending == 0
    requires es' == es + [Responded(r, None)]
    requires RequestsOf(s.entries) == Window(FirstRequests(Requests(es)), s.maxEntries)
    ensures Reconciled(Respond(s, r, None), es')
  {
    hide Asked, Has, FirstRequests, Window, RequestsOf, UniqueIds, Keyed, Capped, Requests, Responses, Failures;
    hide LastResponse, LastFailure;
    ResponseGrows(es, r, r.id);
    forall id
      ensures LastResponse(Responses(es'), id) == if id == r.id then Some(r) else LastResponse(Responses(es), id)
    {
      ResponseGrows(es, r, id);
    }
    if Has(s.entries, r.id) {
      LiveIsAsked(s, Requests(es), r.id);
      UniqueIndex(s.entries, r.id);
    } else {
      AbsentEverywhere(s.entries, r.id);
    }
  }

  lemma FailureReconciles(s: Log, es: seq<Event>, es': seq<Event>, f: FetchError)
    requires Inv(s) && Reconciled(s, es) && s.maxPending == 0
    requires es' == es + [Failed(f, None)]
    requires RequestsOf(s.entries) == Window(FirstRequests(Requests(es)), s.maxEntries)
    ensures Reconciled(Fail(s, f, None), es')
  {
    hide Asked, Has, FirstRequests, Window, RequestsOf, UniqueIds, Keyed, Capped, Requests, Responses, Failures;
    hide LastResponse, LastFailure;
    FailureGrows(es, f, f.id);
    forall id
      ensures LastFailure(Failures(es'), id) == if id == f.id then Some(f) else LastFailure(Failures(es), id)
    {
      FailureGrows(es, f, id);
    }
    if Has(s.entries, f.id) {
      LiveIsAsked(s, Requests(es), f.id);
      UniqueIndex(s.entries, f.id);
    } else {
      AbsentEverywhere(s.entries, f.id);
    }
  }

  lemma UniqueIndex(entries: seq<Entry>, id: string)
    requires UniqueIds(entries) && Has(entries, id)
    ensures forall j | 0 <= j < |entries| && j != IndexOf(entries, id) :: entries[j].request.id != id
  {
  }

  lemma AbsentEverywhere(entries: seq<Entry>, id: string)
    requires !Has(entries, id)
    ensures forall j | 0 <= j < |entries| :: entries[j].request.id != id
  {
  }

  // -------------------------------------------------------------------- main results

  /** The log is a function of the history: whatever the interleaving, it holds the
      latest first-requests with the last outcomes received for each of them. */
  lemma LogIsFunctionOfHistory(es: seq<Event>, maxEntries: nat)
    requires Traffic(es) && Legal(New(maxEntries, 0), es)
    requires NoneReturns(Requests(es), maxEntries)
    ensures Run(New(maxEntries, 0), es).entries == Window(Expected(es), maxEntries)
  {
    hide Run, Legal, Traffic, NoneReturns, FirstRequests, Requests, EntryOf;
    KeptRequests(es, maxEntries, 0);
    OutcomesReconciled(es, maxEntries);
    MatchingEntries(es, Run(New(maxEntries, 0), es).entries, FirstRequests(Requests(es)), maxEntries);
  }

  lemma MatchingEntries(es: seq<Event>, entries: seq<Entry>, rs: seq<Request>, cap: nat)
    requires RequestsOf(entries) == Window(rs, cap)
    requires forall i | 0 <= i < |entries| :: entries[i] == EntryOf(es, entries[i].request)
    ensures entries == Window(EntriesOf(es, rs), cap)
  {
    hide EntryOf;
    var all := EntriesOf(es, rs);
    var skipped := |rs| - |Window(rs, cap)|;
    assert Window(rs, cap) == rs[skipped..] && Window(all, cap) == all[skipped..];
    assert |entries| == |RequestsOf(entries)|;
    forall i | 0 <= i < |entries|
      ensures entries[i] == all[skipped + i]
    {
      assert entries[i].request == RequestsOf(entries)[i] == rs[skipped + i];
    }
  }

  /** Without caps the pending tables hold exactly the last outcomes of the ids never asked for. */
  lemma PendingIsFunctionOfHistory(es: seq<Event>, id: string)
    requires Traffic(es) && Legal(New(0, 0), es)
    ensures var s := Run(New(0, 0), es);
            && Take(s.pendingResponses, id) ==
                 (if Asked(Requests(es), id) then None else LastResponse(Responses(es), id))
            && Take(s.pendingErrors, id) ==
                 (if Asked(Requests(es), id) then None else LastFailure(Failures(es), id))
  {
    var s := Run(New(0, 0), es);
    ReachableInv(0, 0, es);
    WhenNoneReturns(Requests(es), 0);
    KeptRequests(es, 0, 0);
    OutcomesReconciled(es, 0);
    FirstRequestsAsk(Requests(es));
    HasIsAsked(s.entries, id);
  }

  /** Two histories with the same first requests, and for each id the same last outcomes,
      leave the same entries and the same pending tables: repeats, superseded outcomes and
      the order of outcomes against requests do not matter. */
  lemma ReorderingChangesNothing(es: seq<Event>, fs: seq<Event>)
    requires Traffic(es) && Legal(New(0, 0), es)
    requires Traffic(fs) && Legal(New(0, 0), fs)
    requires FirstRequests(Requests(es)) == FirstRequests(Requests(fs))
    requires forall id :: LastResponse(Responses(es), id) == LastResponse(Responses(fs), id)
    requires forall id :: LastFailure(Failures(es), id) == LastFailure(Failures(fs), id)
    ensures var s, t := Run(New(0, 0), es), Run(New(0, 0), fs);
            s.entries == t.entries && s.pendingResponses == t.pendingResponses && s.pendingErrors == t.pendingErrors
  {
    hide Run, Legal, Traffic, FirstRequests, Asked, LastResponse, LastFailure, Requests, Responses, Failures, Take;
    var s, t := Run(New(0, 0), es), Run(New(0, 0), fs);
    WhenNoneReturns(Requests(es), 0);
    WhenNoneReturns(Requests(fs), 0);
    LogIsFunctionOfHistory(es, 0);
    LogIsFunctionOfHistory(fs, 0);
    SameEntries(es, fs, FirstRequests(Requests(es)));
    FirstRequestsAsk(Requests(es));
    FirstRequestsAsk(Requests(fs));
    forall id
      ensures Take(s.pendingResponses, id) == Take(t.pendingResponses, id)
      ensures Take(s.pendingErrors, id) == Take(t.pendingErrors, id)
    {
      PendingIsFunctionOfHistory(es, id);
      PendingIsFunctionOfHistory(fs, id);
    }
    SameTakesSameTable(s.pendingResponses, t.pendingResponses);
    SameTakesSameTable(s.pendingErrors, t.pendingErrors);
  }

  lemma SameEntries(es: seq<Event>, fs: seq<Event>, rs: seq<Request>)
    requires forall id :: LastResponse(Responses(es), id) == LastResponse(Responses(fs), id)
    requires forall id :: LastFailure(Failures(es), id) == LastFailure(Failures(fs), id)
    ensures EntriesOf(es, rs) == EntriesOf(fs, rs)
  {
    hide LastResponse, LastFailure, Responses, Failures;
  }

  lemma SameTakesSameTable<T>(p: map<string, T>, q: map<string, T>)
    requires forall id :: Take(p, id) == Take(q, id)
    ensures p == q
  {
    assert forall id :: (id in p <==> Take(p, id).Some?) && (id in q <==> Take(q, id).Some?);
    assert forall id | id in p :: p[id] == Take(p, id).value && q[id] == Take(q, id).value;
  }
}
