/**
 The log as it is kept: entries in a vector, a hash index from request id to position,
 updated in place. Every operation performs one step of `NetworkSpec` and leaves the
 index exactly the inverse of the entry list.
 */
module NetworkInner {
  import opened Wrappers
  import opened Sequences
  import opened NetworkSpec
  import opened NetworkLedger

  /** `byId` is the inverse of position to request id. */
  ghost predicate Indexes(byId: map<string, nat>, entries: seq<Entry>) {
    && (forall i | 0 <= i < |entries| :: entries[i].request.id in byId && byId[entries[i].request.id] == i)
    && (forall id | id in byId :: byId[id] < |entries| && entries[byId[id]].request.id == id)
  }

  lemma IndexIsLookup(byId: map<string, nat>, entries: seq<Entry>, id: string)
    requires Indexes(byId, entries)
    ensures UniqueIds(entries)
    ensures id in byId <==> Has(entries, id)
    ensures id in byId ==> byId[id] == IndexOf(entries, id)
  {
    if id in byId {
      assert entries[byId[id]].request.id == id;
    }
  }

  lemma AppendIndex(byId: map<string, nat>, entries: seq<Entry>, e: Entry)
    requires Indexes(byId, entries) && e.request.id !in byId
    ensures Indexes(byId[e.request.id := |entries|], entries + [e])
  {
  }

  lemma ReplaceKeepsIndex(byId: map<string, nat>, entries: seq<Entry>, i: nat, e: Entry)
    requires Indexes(byId, entries) && i < |entries| && e.request == entries[i].request
    ensures Indexes(byId, entries[i := e])
  {
  }

  class Inner {
    var entries: seq<Entry>
    var byId: map<string, nat>
    var pendingResponses: map<string, Response>
    var pendingErrors: map<string, FetchError>
    const maxEntries: nat
    const maxPending: nat
    var receivers: nat
    ghost var sent: seq<Entry>
    var metrics: Metrics

    ghost function View(): Log
      reads this
    {
      Log(entries, pendingResponses, pendingErrors, maxEntries, maxPending, receivers, sent, metrics)
    }

    ghost predicate Valid()
      reads this
    {
      Indexes(byId, entries) && Inv(View())
    }

    constructor (maxEntries: nat, maxPending: nat)
      ensures Valid() && View() == New(maxEntries, maxPending)
    {
      this.maxEntries, this.maxPending := maxEntries, maxPending;
      entries, byId, pendingResponses, pendingErrors := [], map[], map[], map[];
      receivers, sent, metrics := 0, [], NO_METRICS;
    }

    /** Rebuilds the index from the entry list. */
    method Reindex()
      requires UniqueIds(entries)
      modifies this`byId
      ensures Indexes(byId, entries)
    {
      byId := map[];
      for i := 0 to |entries|
        invariant Indexes(byId, entries[..i])
      {
        assert entries[..i + 1] == entries[..i] + [entries[i]];
        AppendIndex(byId, entries[..i], entries[i]);
        byId := byId[entries[i].request.id := i];
      }
      assert entries[..|entries|] == entries;
    }

    /** Drops the oldest entries, just enough to stay under the cap with one more. */
    method EvictOldest()
      requires UniqueIds(entries) && Indexes(byId, entries)
      modifies this`entries, this`byId, this`metrics
      ensures var gone := Overflow(|old(entries)|, maxEntries);
              && entries == old(entries)[gone..]
              && metrics == old(metrics).(entriesEvicted := old(metrics).entriesEvicted + gone)
      ensures Indexes(byId, entries)
      ensures forall id :: Has(entries, id) ==> Has(old(entries), id)
    {
      hide Indexes, Has, UniqueIds;
      if maxEntries > 0 && |entries| >= maxEntries {
        var removed := |entries| - (maxEntries - 1);
        SuffixLookup(entries, removed);
        entries := entries[removed..];
        metrics := metrics.(entriesEvicted := metrics.entriesEvicted + removed);
        Reindex();
      }
    }

    method PushEntry(entry: Entry)
      requires Indexes(byId, entries)
      modifies this`entries, this`byId, this`sent, this`metrics
      ensures Indexes(byId, entries)
      ensures View() == Push(old(View()), entry)
    {
      hide Indexes, Has, UniqueIds, Push, Overflow;
      ghost var before := View();
      IndexIsLookup(byId, entries, entry.request.id);
      PushIs(before, entry);
      if entry.request.id in byId {
        return;
      }
      EvictOldest();
      IndexIsLookup(byId, entries, entry.request.id);
      AppendIndex(byId, entries, entry);
      byId := byId[entry.request.id := |entries|];
      entries := entries + [entry];
      sent := sent + [entry];
      if receivers == 0 {
        metrics := metrics.(broadcastDrops := metrics.broadcastDrops + 1);
      }
    }

    method IngestBeforeRequestSent(req: Request)
      requires Valid()
      modifies this
      ensures Valid() && View() == Step(old(View()), Requested(req))
    {
      hide Inv, Indexes, Push;
      StepKeepsInv(View(), Requested(req));
      metrics := metrics.(requestsReceived := metrics.requestsReceived + 1);
      var resp := Take(pendingResponses, req.id);
      var err := Take(pendingErrors, req.id);
      pendingResponses := pendingResponses - {req.id};
      pendingErrors := pendingErrors - {req.id};
      PushEntry(Entry(req, resp, err));
    }

    method IngestResponseCompleted(resp: Response)
      requires Valid()
      modifies this
      ensures Valid()
      ensures exists victim :: Enabled(old(View()), Responded(resp, victim))
                && View() == Step(old(View()), Responded(resp, victim))
    {
      hide Inv, Indexes, Has, Respond, Step, Enabled, VictimOk;
      ghost var before := View();
      ghost var victim: Option<string> := None;
      metrics := metrics.(responsesReceived := metrics.responsesReceived + 1);
      IndexIsLookup(byId, entries, resp.id);
      InvMeansCapped(before);
      if resp.id in byId {
        var idx := byId[resp.id];
        var entry := entries[idx];
        if entry.response.Some? {
          metrics := metrics.(duplicateResponses := metrics.duplicateResponses + 1);
        }
        entry := entry.(response := Some(resp));
        ReplaceKeepsIndex(byId, entries, idx, entry);
        RespondToEntry(before, resp, idx);
        entries := entries[idx := entry];
        sent := sent + [entry];
        assert View() == Respond(before, resp, victim);
      } else {
        var room, dropped;
        room, dropped, victim := MakeRoom(pendingResponses, maxPending);
        metrics := metrics.(pendingResponsesDropped := metrics.pendingResponsesDropped + dropped);
        pendingResponses := room[resp.id := resp];
        RespondToPending(before, resp, victim);
        assert View() == Respond(before, resp, victim);
      }
      assert Indexes(byId, entries) && View() == Respond(before, resp, victim);
      RespondIsStep(before, resp, victim);
      StepKeepsInv(before, Responded(resp, victim));
    }

    method IngestFetchError(err: FetchError)
      requires Valid()
      modifies this
      ensures Valid()
      ensures exists victim :: Enabled(old(View()), Failed(err, victim))
                && View() == Step(old(View()), Failed(err, victim))
    {
      hide Inv, Indexes, Has, Fail, Step, Enabled, VictimOk;
      ghost var before := View();
      ghost var victim: Option<string> := None;
      metrics := metrics.(errorsReceived := metrics.errorsReceived + 1);
      IndexIsLookup(byId, entries, err.id);
      InvMeansCapped(before);
      if err.id in byId {
        var idx := byId[err.id];
        var entry := entries[idx];
        if entry.error.Some? {
          metrics := metrics.(duplicateErrors := metrics.duplicateErrors + 1);
        }
        entry := entry.(error := Some(err));
        ReplaceKeepsIndex(byId, entries, idx, entry);
        FailToEntry(before, err, idx);
        entries := entries[idx := entry];
        sent := sent + [entry];
        assert View() == Fail(before, err, victim);
      } else {
        var room, dropped;
        room, dropped, victim := MakeRoom(pendingErrors, maxPending);
        metrics := metrics.(pendingErrorsDropped := metrics.pendingErrorsDropped + dropped);
        pendingErrors := room[err.id := err];
        FailToPending(before, err, victim);
        assert View() == Fail(before, err, victim);
      }
      assert Indexes(byId, entries) && View() == Fail(before, err, victim);
      FailIsStep(before, err, victim);
      StepKeepsInv(before, Failed(err, victim));
    }

    method RemoveById(id: string) returns (removed: Option<Entry>)
      requires Valid()
      modifies this
      ensures Valid() && View() == Step(old(View()), Removed(id))
      ensures removed == if Has(old(entries), id) then Some(old(entries)[IndexOf(old(entries), id)]) else None
    {
      hide Inv, Indexes, Has;
      StepKeepsInv(View(), Removed(id));
      IndexIsLookup(byId, entries, id);
      if id !in byId {
        return None;
      }
      var idx := byId[id];
      removed := Some(entries[idx]);
      byId := ShiftDown(byId, entries, id);
      entries := entries[..idx] + entries[idx + 1..];
    }

    /** `keep` lists the predicate's answers, in the order it is asked. */
    method Retain(keep: seq<bool>)
      requires Valid() && |keep| == |entries|
      modifies this
      ensures Valid() && View() == Step(old(View()), Retained(keep))
    {
      hide Inv, Indexes, UniqueIds;
      StepKeepsInv(View(), Retained(keep));
      IndexIsUnique(byId, entries);
      entries, byId := Keep(entries, keep);
    }

    method Clear()
      requires Valid()
      modifies this
      ensures Valid() && View() == Step(old(View()), Cleared)
    {
      entries, byId := [], map[];
    }

    /** Hands out everything that waits, in whatever order the tables give it. */
    method DrainPending() returns (responses: seq<Response>, errors: seq<FetchError>)
      requires Valid()
      modifies this
      ensures Valid() && View() == Step(old(View()), Drained)
      ensures multiset(responses) == Waiting(old(pendingResponses))
      ensures multiset(errors) == Waiting(old(pendingErrors))
    {
      hide Waiting, Inv;
      StepKeepsInv(View(), Drained);
      responses := Drain(pendingResponses);
      errors := Drain(pendingErrors);
      pendingResponses, pendingErrors := map[], map[];
    }

    method SetReceivers(n: nat)
      requires Valid()
      modifies this
      ensures Valid() && View() == Step(old(View()), Listening(n))
    {
      receivers := n;
    }
  }

  lemma PushIs(s: Log, e: Entry)
    ensures var gone := Overflow(|s.entries|, s.maxEntries);
            var m := s.metrics.(entriesEvicted := s.metrics.entriesEvicted + gone);
            Push(s, e) == if Has(s.entries, e.request.id) then s else
              s.(entries := s.entries[gone..] + [e], sent := s.sent + [e],
                 metrics := if s.receivers == 0 then m.(broadcastDrops := m.broadcastDrops + 1) else m)
  {
    hide Has, Overflow;
  }

  lemma RespondIsStep(s: Log, r: Response, victim: Option<string>)
    requires if Has(s.entries, r.id) then victim.None? else VictimOk(s.pendingResponses, s.maxPending, victim)
    ensures Enabled(s, Responded(r, victim)) && Step(s, Responded(r, victim)) == Respond(s, r, victim)
  {
    hide Respond, Has, VictimOk;
  }

  lemma RespondToEntry(s: Log, r: Response, i: nat)
    requires Has(s.entries, r.id) && IndexOf(s.entries, r.id) == i
    ensures i < |s.entries|
    ensures var e := s.entries[i].(response := Some(r));
            var m := s.metrics.(responsesReceived := s.metrics.responsesReceived + 1);
            Respond(s, r, None) == s.(
              entries := s.entries[i := e], sent := s.sent + [e],
              metrics := if s.entries[i].response.Some? then m.(duplicateResponses := m.duplicateResponses + 1) else m)
  {
    hide Has;
  }

  lemma RespondToPending(s: Log, r: Response, victim: Option<string>)
    requires !Has(s.entries, r.id)
    ensures var m := s.metrics.(responsesReceived := s.metrics.responsesReceived + 1);
            Respond(s, r, victim) == s.(
              pendingResponses := Stash(s.pendingResponses, victim, r.id, r),
              metrics := m.(pendingResponsesDropped := m.pendingResponsesDropped + if victim.Some? then 1 else 0))
  {
    hide Has, Stash;
  }

  lemma FailIsStep(s: Log, f: FetchError, victim: Option<string>)
    requires if Has(s.entries, f.id) then victim.None? else VictimOk(s.pendingErrors, s.maxPending, victim)
    ensures Enabled(s, Failed(f, victim)) && Step(s, Failed(f, victim)) == Fail(s, f, victim)
  {
    hide Fail, Has, VictimOk;
  }

  lemma FailToEntry(s: Log, f: FetchError, i: nat)
    requires Has(s.entries, f.id) && IndexOf(s.entries, f.id) == i
    ensures i < |s.entries|
    ensures var e := s.entries[i].(error := Some(f));
            var m := s.metrics.(errorsReceived := s.metrics.errorsReceived + 1);
            Fail(s, f, None) == s.(
              entries := s.entries[i := e], sent := s.sent + [e],
              metrics := if s.entries[i].error.Some? then m.(duplicateErrors := m.duplicateErrors + 1) else m)
  {
    hide Has;
  }

  lemma FailToPending(s: Log, f: FetchError, victim: Option<string>)
    requires !Has(s.entries, f.id)
    ensures var m := s.metrics.(errorsReceived := s.metrics.errorsReceived + 1);
            Fail(s, f, victim) == s.(
              pendingErrors := Stash(s.pendingErrors, victim, f.id, f),
              metrics := m.(pendingErrorsDropped := m.pendingErrorsDropped + if victim.Some? then 1 else 0))
  {
    hide Has, Stash;
  }

  /** Gives up pending outcomes until there is room for one more. */
  method MakeRoom<T>(table: map<string, T>, maxPending: nat)
    returns (room: map<string, T>, dropped: nat, ghost victim: Option<string>)
    requires maxPending > 0 ==> |table| <= maxPending
    ensures VictimOk(table, maxPending, victim)
    ensures room == if victim.Some? then table - {victim.value} else table
    ensures dropped == if victim.Some? then 1 else 0
  {
    room, dropped, victim := table, 0, None;
    while maxPending > 0 && |room| >= maxPending
      invariant victim.None? ==> room == table && dropped == 0
      invariant victim.Some? ==>
        && Full(table, maxPending) && victim.value in table && room == table - {victim.value}
        && |room| < maxPending && dropped == 1
      decreases |room|
    {
      var k :| k in room;
      RemovalShrinksStrictly(room, k);
      room, dropped, victim := room - {k}, dropped + 1, Some(k);
    }
  }

  /** The index once the entry with this id is taken out: later positions move down by one. */
  method ShiftDown(byId: map<string, nat>, entries: seq<Entry>, id: string) returns (index: map<string, nat>)
    requires Indexes(byId, entries) && id in byId
    ensures Indexes(index, entries[..byId[id]] + entries[byId[id] + 1..])
  {
    var idx := byId[id];
    var rest := entries[..idx] + entries[idx + 1..];
    index := byId - {id};
    for i := idx to |rest|
      invariant index.Keys == byId.Keys - {id}
      invariant forall k | k in index :: index[k] == if idx < byId[k] <= i then byId[k] - 1 else byId[k]
    {
      assert rest[i] == entries[i + 1];
      index := index[rest[i].request.id := i];
    }
    ShiftedIndex(byId, entries, id, index);
  }

  lemma ShiftedIndex(byId: map<string, nat>, entries: seq<Entry>, id: string, index: map<string, nat>)
    requires Indexes(byId, entries) && id in byId
    requires index.Keys == byId.Keys - {id}
    requires forall k | k in index :: index[k] == if byId[id] < byId[k] then byId[k] - 1 else byId[k]
    ensures Indexes(index, entries[..byId[id]] + entries[byId[id] + 1..])
  {
    var idx := byId[id];
    var rest := entries[..idx] + entries[idx + 1..];
    forall k | k in index
      ensures index[k] < |rest| && rest[index[k]].request.id == k
    {
      assert entries[byId[k]].request.id == k && byId[k] != idx;
    }
    forall i | 0 <= i < |rest|
      ensures rest[i].request.id in index && index[rest[i].request.id] == i
    {
      assert rest[i] == entries[if i < idx then i else i + 1];
    }
  }

  method Keep(entries: seq<Entry>, keep: seq<bool>) returns (kept: seq<Entry>, index: map<string, nat>)
    requires UniqueIds(entries) && |keep| == |entries|
    ensures kept == Select(entries, keep) && Indexes(index, kept)
  {
    hide Select, Indexes;
    kept, index := [], map[];
    EmptyIndex(keep[..0]);
    for i := 0 to |entries|
      invariant kept == Select(entries[..i], keep[..i])
      invariant Indexes(index, kept)
      invariant forall id | id in index :: Has(entries[..i], id)
    {
      SelectSnoc(entries[..i], keep[..i], entries[i], keep[i]);
      assert entries[..i + 1] == entries[..i] + [entries[i]] && keep[..i + 1] == keep[..i] + [keep[i]];
      AppendLookup(entries[..i], entries[i]);
      assert !Has(entries[..i], entries[i].request.id);
      if keep[i] {
        AppendIndex(index, kept, entries[i]);
        index := index[entries[i].request.id := |kept|];
        kept := kept + [entries[i]];
      }
    }
    assert entries[..|entries|] == entries && keep[..|entries|] == keep;
  }

  lemma EmptyIndex(keep: seq<bool>)
    requires keep == []
    ensures Select<Entry>([], keep) == [] && Indexes(map[], [])
  {
  }

  lemma IndexIsUnique(byId: map<string, nat>, entries: seq<Entry>)
    requires Indexes(byId, entries)
    ensures UniqueIds(entries)
  {
  }

  lemma InvMeansCapped(s: Log)
    requires Inv(s)
    ensures Capped(s)
  {
  }

  method Drain<T>(table: map<string, T>) returns (values: seq<T>)
    ensures multiset(values) == Waiting(table)
  {
    values := [];
    var rest := table;
    while rest != map[]
      invariant multiset(values) + Waiting(rest) == Waiting(table)
      decreases |rest|
    {
      var k :| k in rest;
      RemovalShrinksStrictly(rest, k);
      WaitingTake(rest, k);
      values := values + [rest[k]];
      rest := rest - {k};
    }
  }

  lemma {:induction false} SelectSnoc<T>(s: seq<T>, keep: seq<bool>, x: T, k: bool)
    requires |s| == |keep|
    ensures Select(s + [x], keep + [k]) == Select(s, keep) + if k then [x] else []
  {
    if s == [] {
    } else {
      assert (s + [x])[1..] == s[1..] + [x] && (keep + [k])[1..] == keep[1..] + [k];
      SelectSnoc(s[1..], keep[1..], x, k);
    }
  }
}
