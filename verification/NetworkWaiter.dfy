/**
 A caller of `wait_for_response` or `wait_for_url` running beside the event handler.
 Each of the waiter's actions and each log step is atomic, as the log's read and
 write guards make them; every interleaving is allowed. No wakeup is lost.
 */
module NetworkWaiter {
  import opened Wrappers
  import opened Sequences
  import opened NetworkSpec

  /** Unread messages the broadcast channel keeps for a receiver. */
  const CAPACITY := 1024

  datatype Goal = ForResponse(id: string) | ForUrl(needle: string)

  datatype Phase = Idle | Subscribed | Waiting | Returned(entry: Entry) | TimedOut | Lagged

  /** `cursor` counts the broadcast messages before the first one not yet received. */
  datatype Waiter = Waiter(goal: Goal, phase: Phase, cursor: nat)

  datatype System = System(log: Log, waiter: Waiter)

  datatype Action = Ingest(event: Event) | Subscribe | Check | Receive | Expire

  predicate Contains(text: string, needle: string) {
    exists i | 0 <= i <= |text| - |needle| :: OccursAt(text, needle, i)
  }

  predicate OccursAt(text: string, needle: string, i: nat)
    requires i + |needle| <= |text|
  {
    text[i..i + |needle|] == needle
  }

  /** A text contains the needle exactly when it is something, the needle, and something. */
  lemma ContainsExactly(text: string, needle: string)
    ensures Contains(text, needle) <==> exists before, after :: text == before + needle + after
  {
    if i :| 0 <= i <= |text| - |needle| && OccursAt(text, needle, i) {
      assert text == text[..i] + needle + text[i + |needle|..];
    }
    if before, after :| text == before + needle + after {
      assert text[|before|..|before| + |needle|] == needle;
      assert OccursAt(text, needle, |before|);
    }
  }

  predicate Matches(g: Goal, e: Entry) {
    match g
    case ForResponse(id) => e.request.id == id && e.Complete()
    case ForUrl(needle) => Contains(e.request.url, needle)
  }

  function FirstMatch(entries: seq<Entry>, g: Goal): Option<Entry> {
    if entries == [] then None
    else if Matches(g, entries[0]) then Some(entries[0])
    else FirstMatch(entries[1..], g)
  }

  /** What the waiter sees when it looks at the log: the entry with its id if that one
      is complete, or the oldest entry whose URL contains the needle. */
  ghost function Found(entries: seq<Entry>, g: Goal): Option<Entry> {
    match g
    case ForResponse(id) =>
      if Has(entries, id) && entries[IndexOf(entries, id)].Complete() then Some(entries[IndexOf(entries, id)]) else None
    case ForUrl(_) => FirstMatch(entries, g)
  }

  predicate Listens(w: Waiter) {
    w.phase.Subscribed? || w.phase.Waiting?
  }

  /** Other subscribers come and go; the waiter counts as one more while it listens. */
  function Counting(w: Waiter, e: Event): Event {
    match e
    case Listening(others) => Listening(others + if Listens(w) then 1 else 0)
    case _ => e
  }

  function Join(y: System): System {
    System(y.log.(receivers := y.log.receivers + 1), y.waiter.(phase := Subscribed, cursor := |y.log.sent|))
  }

  /** The call ends, and its receiver is dropped with it. */
  function Leave(y: System, p: Phase): System {
    System(y.log.(receivers := if y.log.receivers > 0 then y.log.receivers - 1 else 0), y.waiter.(phase := p))
  }

  ghost function Act(y: System, a: Action): System {
    var w := y.waiter;
    match a
    case Ingest(e) => y.(log := Step(y.log, Counting(w, e)))
    case Subscribe => if w.phase.Idle? then Join(y) else y
    case Check =>
      if !w.phase.Subscribed? then y
      else if Found(y.log.entries, w.goal).Some? then Leave(y, Returned(Found(y.log.entries, w.goal).value))
      else y.(waiter := w.(phase := Waiting))
    case Receive =>
      if !w.phase.Waiting? || |y.log.sent| <= w.cursor then y
      else if |y.log.sent| - w.cursor > CAPACITY then Leave(y, Lagged)
      else if Matches(w.goal, y.log.sent[w.cursor]) then Leave(y, Returned(y.log.sent[w.cursor]))
      else y.(waiter := w.(cursor := w.cursor + 1))
    case Expire =>
      if w.phase.Waiting? then Leave(y, TimedOut) else y
  }

  ghost function Acts(y: System, actions: seq<Action>): System
    decreases |actions|
  {
    if actions == [] then y else Act(Acts(y, actions[..|actions| - 1]), actions[|actions| - 1])
  }

  // ------------------------------------------------------------------ being woken

  /** The step gives the waiter's goal what it asks for: an outcome reaches the entry
      of its id (by update, or by a request claiming a pending outcome), or an entry
      with its URL is opened or updated. */
  ghost predicate Announces(s: Log, e: Event, g: Goal) {
    Enabled(s, e) &&
    match e
    case Requested(r) =>
      !Has(s.entries, r.id) &&
      (match g
       case ForResponse(id) => r.id == id && (id in s.pendingResponses || id in s.pendingErrors)
       case ForUrl(needle) => Contains(r.url, needle))
    case Responded(r, _) =>
      Has(s.entries, r.id) &&
      (match g
       case ForResponse(id) => r.id == id
       case ForUrl(needle) => Contains(s.entries[IndexOf(s.entries, r.id)].request.url, needle))
    case Failed(f, _) =>
      Has(s.entries, f.id) &&
      (match g
       case ForResponse(id) => f.id == id
       case ForUrl(needle) => Contains(s.entries[IndexOf(s.entries, f.id)].request.url, needle))
    case _ => false
  }

  /** Somewhere along the run the waiter's look at the log succeeds, or a step after
      its subscription announces what it waits for. */
  ghost predicate Woken(y: System, actions: seq<Action>)
    decreases |actions|
  {
    actions != [] &&
    var n := |actions| - 1;
    var z := Acts(y, actions[..n]);
    || Woken(y, actions[..n])
    || (actions[n].Check? && z.waiter.phase.Subscribed? && Found(z.log.entries, z.waiter.goal).Some?)
    || (actions[n].Ingest? && Listens(z.waiter) && Announces(z.log, actions[n].event, z.waiter.goal))
  }

  ghost predicate UnreadMatch(y: System) {
    exists j | y.waiter.cursor <= j < |y.log.sent| :: Matches(y.waiter.goal, y.log.sent[j])
  }

  /** The waiter has its entry, or the channel still holds it for the waiter. */
  ghost predicate Owed(y: System) {
    match y.waiter.phase
    case Returned(e) => Matches(y.waiter.goal, e)
    case Subscribed => UnreadMatch(y)
    case Waiting => UnreadMatch(y)
    case _ => false
  }

  predicate GaveUp(w: Waiter) {
    w.phase.TimedOut? || w.phase.Lagged?
  }

  /** The only message a step sends is the one it announces. */
  lemma SendsWhatItAnnounces(s: Log, e: Event, g: Goal)
    ensures var n := Step(s, e);
            && |s.sent| <= |n.sent| <= |s.sent| + 1
            && n.sent[..|s.sent|] == s.sent
            && (Announces(s, e, g) <==> |n.sent| > |s.sent| && Matches(g, n.sent[|s.sent|]))
  {
    hide Has, Contains, Overflow, Stash, VictimOk;
  }

  ghost predicate Oldest(entries: seq<Entry>, g: Goal, i: int) {
    0 <= i < |entries| && Matches(g, entries[i]) && forall k | 0 <= k < i :: !Matches(g, entries[k])
  }

  lemma {:induction false} FirstMatchIsOldest(entries: seq<Entry>, g: Goal)
    ensures FirstMatch(entries, g).Some?
        ==> exists i :: Oldest(entries, g, i) && entries[i] == FirstMatch(entries, g).value
    ensures FirstMatch(entries, g).None? ==> forall i | 0 <= i < |entries| :: !Matches(g, entries[i])
  {
    hide Matches;
    if entries == [] {
    } else {
      if Matches(g, entries[0]) {
        assert Oldest(entries, g, 0);
      } else {
        FirstMatchIsOldest(entries[1..], g);
        assert forall i | 1 <= i < |entries| :: entries[i] == entries[1..][i - 1];
        if i :| Oldest(entries[1..], g, i) && entries[1..][i] == FirstMatch(entries[1..], g).value {
          assert Oldest(entries, g, i + 1);
        }
      }
    }
  }

  /** The look at the log misses nothing: it succeeds exactly when some entry matches. */
  lemma FoundIsAnyMatch(entries: seq<Entry>, g: Goal)
    requires UniqueIds(entries)
    ensures Found(entries, g).Some? <==> exists i | 0 <= i < |entries| :: Matches(g, entries[i])
    ensures Found(entries, g).Some? ==> Matches(g, Found(entries, g).value)
  {
    hide Contains, FirstMatch;
    FirstMatchIsOldest(entries, g);
    match g
    case ForResponse(id) =>
      if i :| 0 <= i < |entries| && Matches(g, entries[i]) {
        assert Has(entries, id);
        assert IndexOf(entries, id) == i;
      }
    case ForUrl(_) =>
      if FirstMatch(entries, g).Some? {
        var i :| Oldest(entries, g, i) && entries[i] == FirstMatch(entries, g).value;
      }
  }

  lemma SelectedWasThere(entries: seq<Entry>, keep: seq<bool>, i: nat)
    requires |entries| == |keep| && i < |Select(entries, keep)|
    ensures exists j | 0 <= j < |entries| :: entries[j] == Select(entries, keep)[i]
  {
    SelectThins(entries, keep);
    assert Select(entries, keep)[i] in entries;
  }

  /** If a step makes a matching entry appear where there was none, it announces it. */
  lemma AppearanceIsAnnounced(s: Log, e: Event, g: Goal)
    requires forall i | 0 <= i < |s.entries| :: !Matches(g, s.entries[i])
    requires exists i | 0 <= i < |Step(s, e).entries| :: Matches(g, Step(s, e).entries[i])
    ensures Announces(s, e, g)
  {
    hide Contains, Stash, VictimOk, Overflow, Has, Open, Respond, Fail, Announces;
    var n := Step(s, e);
    var i :| 0 <= i < |n.entries| && Matches(g, n.entries[i]);
    match e
    case Requested(r) => ArrivalIsAnnounced(s, r, g, i);
    case Responded(r, victim) =>
      if Enabled(s, e) {
        AnswerIsAnnounced(s, r, victim, g, i);
      }
    case Failed(f, victim) =>
      if Enabled(s, e) {
        FailureIsAnnounced(s, f, victim, g, i);
      }
    case Retained(keep) =>
      if Enabled(s, e) {
        SelectedWasThere(s.entries, keep, i);
      }
    case _ =>
  }

  lemma AnswerIsAnnounced(s: Log, r: Response, victim: Option<string>, g: Goal, i: nat)
    requires forall j | 0 <= j < |s.entries| :: !Matches(g, s.entries[j])
    requires Enabled(s, Responded(r, victim))
    requires i < |Respond(s, r, victim).entries| && Matches(g, Respond(s, r, victim).entries[i])
    ensures Announces(s, Responded(r, victim), g)
  {
    hide Contains, Has, Stash, VictimOk;
  }

  lemma FailureIsAnnounced(s: Log, f: FetchError, victim: Option<string>, g: Goal, i: nat)
    requires forall j | 0 <= j < |s.entries| :: !Matches(g, s.entries[j])
    requires Enabled(s, Failed(f, victim))
    requires i < |Fail(s, f, victim).entries| && Matches(g, Fail(s, f, victim).entries[i])
    ensures Announces(s, Failed(f, victim), g)
  {
    hide Contains, Has, Stash, VictimOk;
  }

  lemma ArrivalIsAnnounced(s: Log, r: Request, g: Goal, i: nat)
    requires forall j | 0 <= j < |s.entries| :: !Matches(g, s.entries[j])
    requires i < |Open(s, r).entries| && Matches(g, Open(s, r).entries[i])
    ensures Announces(s, Requested(r), g)
  {
    hide Contains, Open, Has, Overflow;
    RequestEffect(s, r);
    if !Has(s.entries, r.id) {
      SlidEntry(s.entries, Overflow(|s.entries|, s.maxEntries), Arrival(s, r), i);
    }
  }

  lemma SlidEntry(entries: seq<Entry>, n: nat, e: Entry, i: nat)
    requires n <= |entries| && i < |entries[n..] + [e]|
    ensures (entries[n..] + [e])[i] == e || exists j | 0 <= j < |entries| :: entries[j] == (entries[n..] + [e])[i]
  {
  }

  // ----------------------------------------------------------------- no lost wakeup

  /** From subscription on, the waiter has its entry or is owed it exactly when it was
      woken, unless it timed out or fell more than the channel's capacity behind. */
  lemma {:induction false} OwedExactlyWhenWoken(y: System, actions: seq<Action>)
    requires y.waiter.phase.Idle? && Inv(y.log)
    requires !GaveUp(Acts(y, actions).waiter)
    ensures Owed(Acts(y, actions)) <==> Woken(y, actions)
    ensures Acts(y, actions).waiter.phase.Returned? ==> Owed(Acts(y, actions))
    ensures Inv(Acts(y, actions).log) && Acts(y, actions).waiter.goal == y.waiter.goal
    ensures Listens(Acts(y, actions).waiter) ==> Acts(y, actions).waiter.cursor <= |Acts(y, actions).log.sent|
    decreases |actions|
  {
    hide Inv, Act, Matches, Found, Announces, Step, UnreadMatch;
    if actions == [] {
    } else {
      var n := |actions| - 1;
      var z := Acts(y, actions[..n]);
      GivingUpIsFinal(z, actions[n]);
      OwedExactlyWhenWoken(y, actions[..n]);
      ActKeepsOwed(z, actions[n]);
    }
  }

  lemma GivingUpIsFinal(z: System, a: Action)
    ensures GaveUp(z.waiter) ==> GaveUp(Act(z, a).waiter)
  {
  }

  ghost predicate Wakes(z: System, a: Action) {
    || (a.Check? && z.waiter.phase.Subscribed? && Found(z.log.entries, z.waiter.goal).Some?)
    || (a.Ingest? && Listens(z.waiter) && Announces(z.log, a.event, z.waiter.goal))
  }

  lemma ActKeepsOwed(z: System, a: Action)
    requires Inv(z.log)
    requires Listens(z.waiter) ==> z.waiter.cursor <= |z.log.sent|
    requires z.waiter.phase.Returned? ==> Owed(z)
    requires !GaveUp(Act(z, a).waiter)
    ensures Owed(Act(z, a)) <==> Owed(z) || Wakes(z, a)
    ensures Act(z, a).waiter.phase.Returned? ==> Owed(Act(z, a))
    ensures Inv(Act(z, a).log) && Act(z, a).waiter.goal == z.waiter.goal
    ensures Listens(Act(z, a).waiter) ==> Act(z, a).waiter.cursor <= |Act(z, a).log.sent|
  {
    hide Inv, Matches, Found, Announces, Step;
    var w := z.waiter;
    match a
    case Ingest(e) =>
      StepKeepsInv(z.log, Counting(w, e));
      SendsWhatItAnnounces(z.log, Counting(w, e), w.goal);
      if Listens(w) {
        IngestExtendsUnread(z, e);
      }
    case Check =>
      InvMeansUnique(z.log);
      FoundIsAnyMatch(z.log.entries, w.goal);
      InvIgnoresReceivers(z.log);
    case _ => InvIgnoresReceivers(z.log);
  }

  lemma InvMeansUnique(s: Log)
    requires Inv(s)
    ensures UniqueIds(s.entries)
  {
  }

  lemma InvIgnoresReceivers(s: Log)
    requires Inv(s)
    ensures forall n: nat :: Inv(s.(receivers := n))
  {
  }

  lemma CountingAnnounces(s: Log, w: Waiter, e: Event, g: Goal)
    ensures Announces(s, Counting(w, e), g) <==> Announces(s, e, g)
  {
  }

  lemma IngestExtendsUnread(z: System, e: Event)
    requires z.waiter.cursor <= |z.log.sent|
    ensures UnreadMatch(Act(z, Ingest(e))) <==> UnreadMatch(z) || Announces(z.log, e, z.waiter.goal)
  {
    hide Matches, Announces, Step;
    CountingAnnounces(z.log, z.waiter, e, z.waiter.goal);
    SendsWhatItAnnounces(z.log, Counting(z.waiter, e), z.waiter.goal);
    var n := Step(z.log, Counting(z.waiter, e));
    assert forall j | 0 <= j < |z.log.sent| :: n.sent[j] == n.sent[..|z.log.sent|][j];
  }

  function Receives(actions: seq<Action>): nat {
    if actions == [] then 0
    else Receives(actions[..|actions| - 1]) + if actions[|actions| - 1].Receive? then 1 else 0
  }

  /** A waiter that is owed its entry and keeps receiving returns it, whatever the log
      does meanwhile, including evicting the entry. */
  lemma {:induction false} OwedEntryIsReturned(z: System, actions: seq<Action>, j: nat)
    requires Inv(z.log) && z.waiter.phase.Waiting?
    requires z.waiter.cursor <= j < |z.log.sent| && Matches(z.waiter.goal, z.log.sent[j])
    requires forall i | 0 <= i < |actions| :: !actions[i].Expire?
    requires !Acts(z, actions).waiter.phase.Lagged?
    ensures var f := Acts(z, actions);
            && f.waiter.goal == z.waiter.goal
            && |z.log.sent| <= |f.log.sent| && f.log.sent[j] == z.log.sent[j]
            && (f.waiter.phase.Returned? ==> Matches(z.waiter.goal, f.waiter.phase.entry))
            && (!f.waiter.phase.Returned? ==>
                  && f.waiter.phase.Waiting? && f.waiter.cursor <= j
                  && f.waiter.cursor == z.waiter.cursor + Receives(actions))
    decreases |actions|
  {
    hide Matches, Announces, Step, Inv;
    if actions == [] {
    } else {
      var n := |actions| - 1;
      var f := Acts(z, actions[..n]);
      GivingUpIsFinal(f, actions[n]);
      OwedEntryIsReturned(z, actions[..n], j);
      if actions[n].Ingest? {
        SendsWhatItAnnounces(f.log, Counting(f.waiter, actions[n].event), z.waiter.goal);
      }
    }
  }

  /** No lost wakeup: once woken, a waiting caller that neither times out nor lags
      returns a matching entry after at most as many receives as there are unread messages. */
  lemma NoLostWakeup(y: System, before: seq<Action>, after: seq<Action>)
    requires y.waiter.phase.Idle? && Inv(y.log)
    requires Woken(y, before) && Acts(y, before).waiter.phase.Waiting?
    requires forall i | 0 <= i < |after| :: !after[i].Expire?
    requires Receives(after) >= |Acts(y, before).log.sent| - Acts(y, before).waiter.cursor
    requires !Acts(Acts(y, before), after).waiter.phase.Lagged?
    ensures var w := Acts(Acts(y, before), after).waiter;
            w.phase.Returned? && Matches(y.waiter.goal, w.phase.entry)
  {
    OwedExactlyWhenWoken(y, before);
    var z := Acts(y, before);
    var j :| z.waiter.cursor <= j < |z.log.sent| && Matches(z.waiter.goal, z.log.sent[j]);
    OwedEntryIsReturned(z, after, j);
  }
}
