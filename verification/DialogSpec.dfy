/**
 The bounded capture list behind dialogs and downloads: records are appended, closed in
 place by a search from the newest, and dropped from the front beyond a bound. The flat
 list stands for one stack of open records per key (a browsing context for dialogs, a
 context and URL for downloads).
 */
module DialogSpec {
  import opened Wrappers

  const MAX_ENTRIES: nat := 1000

  /** `outcome` is `None` while the prompt is open or the download in flight. */
  datatype Record<K, D, O> = Record(key: K, data: D, outcome: Option<O>)

  /** `standalone` is what a closing event records when it finds nothing to close. */
  datatype Event<K, D, O> = Opened(key: K, data: D) | Closed(key: K, outcome: O, standalone: D) | Cleared

  // ------------------------------------------------------------------ the flat list

  function Push<K, D, O>(log: seq<Record<K, D, O>>, r: Record<K, D, O>): (after: seq<Record<K, D, O>>)
  {
    var after := log + [r];
    if |after| > MAX_ENTRIES then after[|after| - MAX_ENTRIES..] else after
  }

  /** A record goes to the end, and only a list of 1000 or more gives up its oldest for it. */
  lemma PushKeepsLatest<K, D, O>(log: seq<Record<K, D, O>>, r: Record<K, D, O>)
    ensures Push(log, r) == if |log| < 1000 then log + [r] else log[|log| - 999..] + [r]
  {
  }

  predicate IsOpen<K(==), D, O>(r: Record<K, D, O>, key: K) {
    r.key == key && r.outcome.None?
  }

  function LastOpen<K(==), D, O>(log: seq<Record<K, D, O>>, key: K): (at: Option<nat>)
    ensures at.Some? ==> at.value < |log| && IsOpen(log[at.value], key)
    ensures at.Some? ==> forall j | at.value < j < |log| :: !IsOpen(log[j], key)
    ensures at.None? ==> forall j | 0 <= j < |log| :: !IsOpen(log[j], key)
  {
    if log == [] then None
    else if IsOpen(log[|log| - 1], key) then Some(|log| - 1)
    else LastOpen(log[..|log| - 1], key)
  }

  function Step<K(==), D, O>(log: seq<Record<K, D, O>>, e: Event<K, D, O>): seq<Record<K, D, O>> {
    match e
    case Opened(key, data) => Push(log, Record(key, data, None))
    case Closed(key, outcome, standalone) =>
      var at := LastOpen(log, key);
      if at.Some? then log[at.value := log[at.value].(outcome := Some(outcome))]
      else Push(log, Record(key, standalone, Some(outcome)))
    case Cleared => []
  }

  function Run<K(==), D, O>(es: seq<Event<K, D, O>>): seq<Record<K, D, O>> {
    if es == [] then [] else Step(Run(es[..|es| - 1]), es[|es| - 1])
  }

  /** No history leaves more than 1000 records. */
  lemma {:induction false} RunIsBounded<K, D, O>(es: seq<Event<K, D, O>>)
    ensures |Run(es)| <= 1000
    decreases |es|
  {
    if es == [] {
    } else {
      RunIsBounded(es[..|es| - 1]);
    }
  }

  /** The open records of a key, oldest first, each with its serial number; `base` is
      the serial number of the first record in the list. */
  function OpenOf<K(==), D, O>(log: seq<Record<K, D, O>>, key: K, base: nat): seq<(nat, D)> {
    if log == [] then [] else
      var n := |log| - 1;
      OpenOf(log[..n], key, base) + if IsOpen(log[n], key) then [(base + n, log[n].data)] else []
  }

  // ------------------------------------------------------------------ the stacks

  /** `pushed` counts the records ever appended, which numbers them serially. */
  datatype Stacks<!K, D> = Stacks(pushed: nat, open: map<K, seq<(nat, D)>>)

  function StackOf<K, D>(a: Stacks<K, D>, key: K): seq<(nat, D)> {
    if key in a.open then a.open[key] else []
  }

  /** The serial number of the oldest record the bound has not dropped. */
  function Base(pushed: nat): nat {
    if pushed > MAX_ENTRIES then pushed - MAX_ENTRIES else 0
  }

  /** Opening pushes. Closing pops; if the bound dropped the record it pops, or there is
      none, the close is recorded on its own. */
  function StackStep<K, D, O>(a: Stacks<K, D>, e: Event<K, D, O>): Stacks<K, D> {
    match e
    case Opened(key, data) => Stacks(a.pushed + 1, a.open[key := StackOf(a, key) + [(a.pushed, data)]])
    case Closed(key, _, _) =>
      var stack := StackOf(a, key);
      if stack == [] then a.(pushed := a.pushed + 1)
      else
        var n := |stack| - 1;
        Stacks(a.pushed + (if stack[n].0 < Base(a.pushed) then 1 else 0), a.open[key := stack[..n]])
    case Cleared => Stacks(0, map[])
  }

  function StackRun<K, D, O>(es: seq<Event<K, D, O>>): Stacks<K, D> {
    if es == [] then Stacks(0, map[]) else StackStep(StackRun(es[..|es| - 1]), es[|es| - 1])
  }

  /** The top of a stack from serial number `base` on. */
  function TopFrom<D>(stack: seq<(nat, D)>, base: nat): seq<(nat, D)> {
    if stack == [] || stack[0].0 >= base then stack else TopFrom(stack[1..], base)
  }

  // ------------------------------------------------------------------ refinement

  ghost predicate Rising<D>(stack: seq<(nat, D)>, below: nat) {
    && (forall i, j | 0 <= i < j < |stack| :: stack[i].0 < stack[j].0)
    && (forall i | 0 <= i < |stack| :: stack[i].0 < below)
  }

  /** Every stack numbers its records upward, and its part the bound has not dropped is
      exactly the key's open records in the list. */
  ghost predicate Represents<K(!new), D, O>(log: seq<Record<K, D, O>>, a: Stacks<K, D>) {
    |log| == a.pushed - Base(a.pushed) && forall key :: RepresentsKey(log, a, key)
  }

  ghost predicate RepresentsKey<K, D, O>(log: seq<Record<K, D, O>>, a: Stacks<K, D>, key: K) {
    && Rising(StackOf(a, key), a.pushed)
    && OpenOf(log, key, Base(a.pushed)) == TopFrom(StackOf(a, key), Base(a.pushed))
  }

  lemma {:induction false} TopFromIsSuffix<D>(stack: seq<(nat, D)>, base: nat)
    ensures var top := TopFrom(stack, base);
            |top| <= |stack| && top == stack[|stack| - |top|..]
  {
    if stack != [] && stack[0].0 < base {
      TopFromIsSuffix(stack[1..], base);
    }
  }

  /** Dropping more of the bottom, in one go or two. */
  lemma {:induction false} TopFromTwice<D>(stack: seq<(nat, D)>, a: nat, b: nat)
    requires a <= b
    ensures TopFrom(TopFrom(stack, a), b) == TopFrom(stack, b)
  {
    if stack != [] && stack[0].0 < a {
      TopFromTwice(stack[1..], a, b);
    }
  }

  lemma {:induction false} TopFromSnoc<D>(stack: seq<(nat, D)>, base: nat, x: (nat, D))
    requires x.0 >= base
    ensures TopFrom(stack + [x], base) == TopFrom(stack, base) + [x]
  {
    if stack != [] && stack[0].0 < base {
      assert (stack + [x])[1..] == stack[1..] + [x];
      TopFromSnoc(stack[1..], base, x);
    } else {
      assert stack == [] ==> stack + [x] == [x];
    }
  }

  /** The top is empty exactly when the stack is, or all of it was dropped. */
  lemma {:induction false} TopFromEmpty<D>(stack: seq<(nat, D)>, base: nat, below: nat)
    requires Rising(stack, below)
    ensures TopFrom(stack, base) == [] <==> stack == [] || stack[|stack| - 1].0 < base
  {
    if stack != [] && stack[0].0 < base {
      if |stack| > 1 {
        TopFromEmpty(stack[1..], base, below);
      } else {
        assert TopFrom(stack[1..], base) == [];
      }
    }
  }

  /** Popping a stack pops its top part, when there is one. */
  lemma TopFromPop<D>(stack: seq<(nat, D)>, base: nat, below: nat)
    requires Rising(stack, below) && stack != []
    ensures var n, top := |stack| - 1, TopFrom(stack, base);
            && (stack[n].0 >= base ==> top != [] && TopFrom(stack[..n], base) == top[..|top| - 1])
            && (stack[n].0 < base ==> top == [] && TopFrom(stack[..n], base) == [])
  {
    var n := |stack| - 1;
    assert stack == stack[..n] + [stack[n]];
    if stack[n].0 >= base {
      TopFromSnoc(stack[..n], base, stack[n]);
    } else {
      TopFromEmpty(stack, base, below);
      TopFromEmpty(stack[..n], base, below);
      if n > 0 {
        assert stack[..n][n - 1] == stack[n - 1];
      }
    }
  }

  lemma {:induction false} OpenOfSerials<K, D, O>(log: seq<Record<K, D, O>>, key: K, base: nat)
    ensures forall i | 0 <= i < |OpenOf(log, key, base)| :: base <= OpenOf(log, key, base)[i].0 < base + |log|
  {
    if log == [] {
    } else {
      OpenOfSerials(log[..|log| - 1], key, base);
    }
  }

  /** Dropping the oldest record drops the bottom of the open records. */
  lemma {:induction false} OpenOfDrop<K, D, O>(log: seq<Record<K, D, O>>, key: K, base: nat)
    requires log != []
    ensures OpenOf(log[1..], key, base + 1) == TopFrom(OpenOf(log, key, base), base + 1)
  {
    hide OpenOf, TopFrom;
    var n := |log| - 1;
    if n == 0 {
      DropOnly(log, key, base);
    } else {
      var front := log[..n];
      OpenOfDrop(front, key, base);
      assert log[1..] == front[1..] + [log[n]] && log == front + [log[n]];
      OpenOfSnoc(front[1..], log[n], key, base + 1);
      OpenOfSnoc(front, log[n], key, base);
      if IsOpen(log[n], key) {
        TopFromSnoc(OpenOf(front, key, base), base + 1, (base + n, log[n].data));
      } else {
        assert OpenOf(log, key, base) == OpenOf(front, key, base);
      }
    }
  }

  lemma DropOnly<K, D, O>(log: seq<Record<K, D, O>>, key: K, base: nat)
    requires |log| == 1
    ensures OpenOf(log[1..], key, base + 1) == TopFrom(OpenOf(log, key, base), base + 1)
  {
    assert log[..0] == [] && log[1..] == [];
  }

  lemma OpenOfSnoc<K, D, O>(log: seq<Record<K, D, O>>, r: Record<K, D, O>, key: K, base: nat)
    ensures OpenOf(log + [r], key, base) ==
            OpenOf(log, key, base) + if IsOpen(r, key) then [(base + |log|, r.data)] else []
  {
    assert (log + [r])[..|log|] == log;
  }

  function CloseAt<K, D, O>(log: seq<Record<K, D, O>>, at: nat, outcome: O): (after: seq<Record<K, D, O>>)
    requires at < |log|
    ensures |after| == |log|
  {
    log[at := log[at].(outcome := Some(outcome))]
  }

  /** The list up to its last record, and that record. */
  lemma CloseSplits<K, D, O>(log: seq<Record<K, D, O>>, at: nat, outcome: O)
    requires at < |log|
    ensures var n := |log| - 1;
            && log == log[..n] + [log[n]]
            && CloseAt(log, at, outcome)
               == if at == n then log[..n] + [log[n].(outcome := Some(outcome))]
                  else CloseAt(log[..n], at, outcome) + [log[n]]
  {
  }

  lemma LastOpenFront<K, D, O>(log: seq<Record<K, D, O>>, key: K, at: nat)
    requires LastOpen(log, key) == Some(at)
    ensures var n := |log| - 1;
            if at == n then IsOpen(log[n], key) else LastOpen(log[..n], key) == Some(at) && !IsOpen(log[n], key)
  {
  }

  lemma {:induction false} CloseKeepsOthers<K, D, O>(log: seq<Record<K, D, O>>, base: nat, at: nat, outcome: O,
                                                     other: K)
    requires at < |log| && log[at].key != other
    ensures OpenOf(CloseAt(log, at, outcome), other, base) == OpenOf(log, other, base)
    decreases |log|
  {
    hide OpenOf, CloseAt;
    var n := |log| - 1;
    CloseSplits(log, at, outcome);
    OpenOfSnoc(log[..n], log[n], other, base);
    if at == n {
      OpenOfSnoc(log[..n], log[n].(outcome := Some(outcome)), other, base);
    } else {
      CloseKeepsOthers(log[..n], base, at, outcome, other);
      OpenOfSnoc(CloseAt(log[..n], at, outcome), log[n], other, base);
    }
  }

  lemma {:induction false} ClosePops<K, D, O>(log: seq<Record<K, D, O>>, key: K, base: nat, at: nat, outcome: O)
    requires LastOpen(log, key) == Some(at)
    ensures var open := OpenOf(log, key, base);
            open != [] && OpenOf(CloseAt(log, at, outcome), key, base) == open[..|open| - 1]
    decreases |log|
  {
    hide OpenOf, CloseAt, LastOpen;
    var n := |log| - 1;
    LastOpenFront(log, key, at);
    CloseSplits(log, at, outcome);
    OpenOfSnoc(log[..n], log[n], key, base);
    if at == n {
      OpenOfSnoc(log[..n], log[n].(outcome := Some(outcome)), key, base);
      assert OpenOf(CloseAt(log, at, outcome), key, base) == OpenOf(log[..n], key, base);
    } else {
      ClosePops(log[..n], key, base, at, outcome);
      var closed := CloseAt(log[..n], at, outcome);
      OpenOfSnoc(closed, log[n], key, base);
      assert OpenOf(closed + [log[n]], key, base) == OpenOf(closed, key, base);
      assert OpenOf(log, key, base) == OpenOf(log[..n], key, base);
    }
  }

  /** Closing the newest open record of a key takes it off the key's open records only. */
  lemma OpenOfClose<K, D, O>(log: seq<Record<K, D, O>>, key: K, base: nat, at: nat, outcome: O, other: K)
    requires LastOpen(log, key) == Some(at)
    ensures var after, open := log[at := log[at].(outcome := Some(outcome))], OpenOf(log, other, base);
            && (other == key ==> open != [] && OpenOf(after, other, base) == open[..|open| - 1])
            && (other != key ==> OpenOf(after, other, base) == open)
  {
    hide OpenOf, LastOpen;
    if other == key {
      ClosePops(log, key, base, at, outcome);
    } else {
      CloseKeepsOthers(log, base, at, outcome, other);
    }
  }

  lemma {:induction false} OpenOfNone<K, D, O>(log: seq<Record<K, D, O>>, key: K, base: nat)
    ensures LastOpen(log, key).None? <==> OpenOf(log, key, base) == []
  {
    if log == [] {
    } else {
      OpenOfNone(log[..|log| - 1], key, base);
    }
  }

  /** Appending a record, with or without dropping the oldest. */
  lemma PushKeepsOpen<K, D, O>(log: seq<Record<K, D, O>>, r: Record<K, D, O>, key: K, pushed: nat)
    requires |log| == pushed - Base(pushed)
    ensures |Push(log, r)| == pushed + 1 - Base(pushed + 1)
    ensures OpenOf(Push(log, r), key, Base(pushed + 1)) ==
            TopFrom(OpenOf(log, key, Base(pushed)) + (if IsOpen(r, key) then [(pushed, r.data)] else []),
                    Base(pushed + 1))
  {
    OpenOfSnoc(log, r, key, Base(pushed));
    if |log| == MAX_ENTRIES {
      OpenOfDrop(log + [r], key, Base(pushed));
    } else {
      NothingBelow(log + [r], key);
    }
  }

  lemma NothingBelow<K, D, O>(log: seq<Record<K, D, O>>, key: K)
    ensures TopFrom(OpenOf(log, key, 0), 0) == OpenOf(log, key, 0)
  {
  }

  /** A record that opens nothing leaves a key's stack as it is, but for what the bound drops. */
  lemma QuietPush<K, D, O>(log: seq<Record<K, D, O>>, r: Record<K, D, O>, key: K, pushed: nat, stack: seq<(nat, D)>)
    requires |log| == pushed - Base(pushed) && !IsOpen(r, key)
    requires OpenOf(log, key, Base(pushed)) == TopFrom(stack, Base(pushed))
    ensures OpenOf(Push(log, r), key, Base(pushed + 1)) == TopFrom(stack, Base(pushed + 1))
  {
    hide OpenOf, TopFrom, Push;
    PushKeepsOpen(log, r, key, pushed);
    assert OpenOf(log, key, Base(pushed)) + [] == OpenOf(log, key, Base(pushed));
    TopFromTwice(stack, Base(pushed), Base(pushed + 1));
  }

  lemma OpenedRefinesKey<K, D, O>(log: seq<Record<K, D, O>>, a: Stacks<K, D>, key: K, data: D, other: K)
    requires |log| == a.pushed - Base(a.pushed) && RepresentsKey(log, a, other)
    ensures RepresentsKey(Step(log, Opened(key, data)), StackStep<K, D, O>(a, Opened(key, data)), other)
  {
    hide OpenOf, TopFrom, Push, Base;
    var r: Record<K, D, O> := Record(key, data, None);
    var stack, base, base' := StackOf(a, other), Base(a.pushed), Base(a.pushed + 1);
    BaseGrows(a.pushed);
    if other == key {
      PushKeepsOpen(log, r, key, a.pushed);
      TopFromSnoc(TopFrom(stack, base), base', (a.pushed, data));
      TopFromTwice(stack, base, base');
      TopFromSnoc(stack, base', (a.pushed, data));
    } else {
      QuietPush(log, r, other, a.pushed, stack);
    }
  }

  lemma BaseGrows(pushed: nat)
    ensures Base(pushed) <= Base(pushed + 1) <= pushed
  {
  }

  /** What a close does to the stacks: its key's loses its top, and a record is appended
      when that top was dropped or missing. */
  lemma CloseOnStacks<K, D, O>(a: Stacks<K, D>, e: Event<K, D, O>, other: K)
    requires e.Closed?
    ensures var mine := StackOf(a, e.key);
            && StackStep(a, e).pushed
               == a.pushed + (if mine == [] || mine[|mine| - 1].0 < Base(a.pushed) then 1 else 0)
            && StackOf(StackStep(a, e), other)
               == if other == e.key && mine != [] then mine[..|mine| - 1] else StackOf(a, other)
  {
    hide Base;
  }

  lemma RisingPops<D>(stack: seq<(nat, D)>, below: nat, below': nat)
    requires Rising(stack, below) && below <= below'
    ensures Rising(stack, below') && (stack != [] ==> Rising(stack[..|stack| - 1], below'))
  {
  }

  lemma StepCloses<K, D, O>(log: seq<Record<K, D, O>>, e: Event<K, D, O>)
    requires e.Closed? && LastOpen(log, e.key).Some?
    ensures var at := LastOpen(log, e.key).value;
            Step(log, e) == log[at := log[at].(outcome := Some(e.outcome))]
  {
    hide LastOpen;
  }

  /** A close that finds its record takes it off its key's stack and no other. */
  lemma CloseRefinesKey<K, D, O>(log: seq<Record<K, D, O>>, a: Stacks<K, D>, e: Event<K, D, O>, other: K)
    requires e.Closed? && RepresentsKey(log, a, e.key) && RepresentsKey(log, a, other) && LastOpen(log, e.key).Some?
    ensures RepresentsKey(Step(log, e), StackStep(a, e), other)
    ensures |Step(log, e)| == |log| && StackStep(a, e).pushed == a.pushed
  {
    hide OpenOf, TopFrom, Base, LastOpen, Step, StackOf, StackStep, Rising;
    var key, base, mine := e.key, Base(a.pushed), StackOf(a, e.key);
    OpenOfNone(log, key, base);
    TopFromEmpty(mine, base, a.pushed);
    TopFromPop(mine, base, a.pushed);
    CloseOnStacks(a, e, other);
    StepCloses(log, e);
    OpenOfClose(log, key, base, LastOpen(log, key).value, e.outcome, other);
    RisingPops(mine, a.pushed, a.pushed);
  }

  /** A close that finds no record is recorded on its own; its key's stack loses a record
      the bound had dropped, if any. */
  lemma StandaloneRefinesKey<K, D, O>(log: seq<Record<K, D, O>>, a: Stacks<K, D>, e: Event<K, D, O>, other: K)
    requires e.Closed? && |log| == a.pushed - Base(a.pushed)
    requires RepresentsKey(log, a, e.key) && RepresentsKey(log, a, other) && LastOpen(log, e.key).None?
    ensures RepresentsKey(Step(log, e), StackStep(a, e), other)
    ensures |Step(log, e)| == a.pushed + 1 - Base(a.pushed + 1) && StackStep(a, e).pushed == a.pushed + 1
  {
    hide OpenOf, TopFrom, Push, Base, LastOpen, StackOf, StackStep, Rising;
    var key, base, mine := e.key, Base(a.pushed), StackOf(a, e.key);
    var r := Record(key, e.standalone, Some(e.outcome));
    OpenOfNone(log, key, base);
    TopFromEmpty(mine, base, a.pushed);
    CloseOnStacks(a, e, other);
    RisingPops(StackOf(a, other), a.pushed, a.pushed + 1);
    PushKeepsOpen(log, r, other, a.pushed);
    if mine != [] {
      TopFromPop(mine, base, a.pushed);
    }
    QuietPush(log, r, other, a.pushed, StackOf(StackStep(a, e), other));
  }

  lemma ClosedRefinesKey<K, D, O>(log: seq<Record<K, D, O>>, a: Stacks<K, D>, e: Event<K, D, O>, other: K)
    requires e.Closed? && |log| == a.pushed - Base(a.pushed)
    requires RepresentsKey(log, a, e.key) && RepresentsKey(log, a, other)
    ensures RepresentsKey(Step(log, e), StackStep(a, e), other)
    ensures |Step(log, e)| == StackStep(a, e).pushed - Base(StackStep(a, e).pushed)
  {
    hide RepresentsKey, Step, StackStep, Base, LastOpen;
    if LastOpen(log, e.key).Some? {
      CloseRefinesKey(log, a, e, other);
    } else {
      StandaloneRefinesKey(log, a, e, other);
    }
  }

  lemma OpenedRefines<K(!new), D, O>(log: seq<Record<K, D, O>>, a: Stacks<K, D>, key: K, data: D)
    requires Represents(log, a)
    ensures Represents(Step(log, Opened(key, data)), StackStep<K, D, O>(a, Opened(key, data)))
  {
    hide RepresentsKey, OpenOf;
    forall other
      ensures RepresentsKey(Step(log, Opened(key, data)), StackStep<K, D, O>(a, Opened(key, data)), other)
    {
      OpenedRefinesKey(log, a, key, data, other);
    }
    PushKeepsOpen(log, Record(key, data, None), key, a.pushed);
  }

  lemma ClosedRefines<K(!new), D, O>(log: seq<Record<K, D, O>>, a: Stacks<K, D>, e: Event<K, D, O>)
    requires Represents(log, a) && e.Closed?
    ensures Represents(Step(log, e), StackStep(a, e))
  {
    hide RepresentsKey, Step, StackStep;
    forall other
      ensures RepresentsKey(Step(log, e), StackStep(a, e), other)
    {
      ClosedRefinesKey(log, a, e, other);
    }
    ClosedRefinesKey(log, a, e, e.key);
  }

  /** The flat list refines per-key stacks: after any history of opens, closes and
      clears, the open records of every key are the part of its stack not yet dropped. */
  lemma {:induction false} ListRefinesStacks<K(!new), D, O>(es: seq<Event<K, D, O>>)
    ensures Represents(Run(es), StackRun(es))
    decreases |es|
  {
    hide Represents, Step, StackStep;
    if es == [] {
      EmptyRepresents<K, D, O>();
    } else {
      var n := |es| - 1;
      ListRefinesStacks(es[..n]);
      StepRefines(Run(es[..n]), StackRun(es[..n]), es[n]);
    }
  }

  lemma EmptyRepresents<K(!new), D, O>()
    ensures Represents<K, D, O>([], Stacks(0, map[]))
  {
  }

  lemma StepRefines<K(!new), D, O>(log: seq<Record<K, D, O>>, a: Stacks<K, D>, e: Event<K, D, O>)
    requires Represents(log, a)
    ensures Represents(Step(log, e), StackStep(a, e))
  {
    hide Represents;
    match e
    case Opened(key, data) => OpenedRefines(log, a, key, data);
    case Closed(_, _, _) => ClosedRefines(log, a, e);
    case Cleared => EmptyRepresents<K, D, O>();
  }

  // ------------------------------------------------------------------ records are final

  /** A retained record keeps its key and data, and once closed never changes again;
      `i` counts from the first record ever appended since the last clear. */
  lemma StepKeepsRecords<K, D, O>(log: seq<Record<K, D, O>>, pushed: nat, e: Event<K, D, O>, i: nat)
    requires |log| == pushed - Base(pushed) && !e.Cleared? && Base(pushed) <= i < pushed
    ensures var after := Step(log, e);
            var pushed' := if e.Closed? && LastOpen(log, e.key).Some? then pushed else pushed + 1;
            && |after| == pushed' - Base(pushed')
            && (Base(pushed') <= i ==>
                  var r, r' := log[i - Base(pushed)], after[i - Base(pushed')];
                  && r'.key == r.key && r'.data == r.data && (r.outcome.Some? ==> r' == r))
  {
    hide LastOpen, Push;
    if e.Opened? {
      PushKeepsRecords(log, Record(e.key, e.data, None), pushed, i);
    } else if LastOpen(log, e.key).None? {
      PushKeepsRecords(log, Record(e.key, e.standalone, Some(e.outcome)), pushed, i);
    }
  }

  lemma PushKeepsRecords<K, D, O>(log: seq<Record<K, D, O>>, r: Record<K, D, O>, pushed: nat, i: nat)
    requires |log| == pushed - Base(pushed) && Base(pushed) <= i < pushed
    ensures |Push(log, r)| == pushed + 1 - Base(pushed + 1)
    ensures Base(pushed + 1) <= i ==> Push(log, r)[i - Base(pushed + 1)] == log[i - Base(pushed)]
  {
  }

  /** The stacks count a record exactly when the list appends one. */
  lemma PushesAgree<K(!new), D, O>(log: seq<Record<K, D, O>>, a: Stacks<K, D>, e: Event<K, D, O>)
    requires Represents(log, a) && !e.Cleared?
    ensures StackStep(a, e).pushed == if e.Closed? && LastOpen(log, e.key).Some? then a.pushed else a.pushed + 1
  {
    if e.Closed? {
      assert RepresentsKey(log, a, e.key);
      OpenOfNone(log, e.key, Base(a.pushed));
      TopFromEmpty(StackOf(a, e.key), Base(a.pushed), a.pushed);
    }
  }

  /** Over any history without a clear, a closed record that is still retained is
      exactly as it was closed. */
  lemma {:induction false} ClosedRecordIsFinal<K(!new), D, O>(es: seq<Event<K, D, O>>, fs: seq<Event<K, D, O>>, i: nat)
    requires forall k | 0 <= k < |fs| :: !fs[k].Cleared?
    requires var p := StackRun(es).pushed;
             && |Run(es)| == p - Base(p) && Base(p) <= i < p && Run(es)[i - Base(p)].outcome.Some?
    ensures var p, p' := StackRun(es).pushed, StackRun(es + fs).pushed;
            && |Run(es + fs)| == p' - Base(p') && p <= p'
            && (Base(p') <= i ==> Run(es + fs)[i - Base(p')] == Run(es)[i - Base(p)])
    decreases |fs|
  {
    hide Step, StackStep, Represents, Base;
    if fs == [] {
      assert es + fs == es;
    } else {
      var n := |fs| - 1;
      assert (es + fs)[..|es + fs| - 1] == es + fs[..n];
      ClosedRecordIsFinal(es, fs[..n], i);
      ListRefinesStacks(es + fs[..n]);
      var log, a := Run(es + fs[..n]), StackRun(es + fs[..n]);
      PushesAgree(log, a, fs[n]);
      StepRefines(log, a, fs[n]);
      RepresentsLength(Step(log, fs[n]), StackStep(a, fs[n]));
      BaseRises(a.pushed, StackStep(a, fs[n]).pushed);
      if Base(a.pushed) <= i {
        StepKeepsRecords(log, a.pushed, fs[n], i);
      }
    }
  }

  lemma RepresentsLength<K(!new), D, O>(log: seq<Record<K, D, O>>, a: Stacks<K, D>)
    requires Represents(log, a)
    ensures |log| == a.pushed - Base(a.pushed)
  {
  }

  lemma BaseRises(p: nat, q: nat)
    ensures p <= q ==> Base(p) <= Base(q)
  {
  }

  // ------------------------------------------------------------------ queries

  function OpenRecords<K, D, O>(log: seq<Record<K, D, O>>): seq<Record<K, D, O>> {
    if log == [] then [] else
      var n := |log| - 1;
      OpenRecords(log[..n]) + if log[n].outcome.None? then [log[n]] else []
  }

  /** The data of a key's records, in order. */
  function DataOf<K(==), D, O>(rs: seq<Record<K, D, O>>, key: K): seq<D> {
    if rs == [] then [] else
      var n := |rs| - 1;
      DataOf(rs[..n], key) + if rs[n].key == key then [rs[n].data] else []
  }

  function Data<D>(numbered: seq<(nat, D)>): (r: seq<D>)
    ensures |r| == |numbered|
  {
    seq(|numbered|, i requires 0 <= i < |numbered| => numbered[i].1)
  }

  lemma {:induction false} OpenRecordsOfKey<K, D, O>(log: seq<Record<K, D, O>>, key: K, base: nat)
    ensures DataOf(OpenRecords(log), key) == Data(OpenOf(log, key, base))
  {
    if log == [] {
    } else {
      var n := |log| - 1;
      OpenRecordsOfKey(log[..n], key, base);
      var earlier, numbered := OpenRecords(log[..n]), OpenOf(log[..n], key, base);
      assert (earlier + [log[n]])[..|earlier|] == earlier;
      if IsOpen(log[n], key) {
        assert Data(numbered + [(base + n, log[n].data)]) == Data(numbered) + [log[n].data];
      } else {
        assert earlier + [] == earlier && numbered + [] == numbered;
        assert DataOf(earlier, key) + [] == DataOf(earlier, key);
      }
    }
  }

  /** The open records a caller sees for a key are its stack, bottom first, without what
      the bound dropped. */
  lemma OpenRecordsAreTheStack<K(!new), D, O>(es: seq<Event<K, D, O>>, key: K)
    ensures var a := StackRun(es);
            DataOf(OpenRecords(Run(es)), key) == Data(TopFrom(StackOf(a, key), Base(a.pushed)))
  {
    ListRefinesStacks(es);
    OpenRecordsOfKey(Run(es), key, Base(StackRun(es).pushed));
    assert RepresentsKey(Run(es), StackRun(es), key);
  }
}
