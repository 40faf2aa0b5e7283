/**
 Offline comparison of captured browser surfaces: two captures against each other, and
 stock, engine and disguise together.
 */
module CaptureDiff {
  import opened Wrappers
  import opened Sequences
  import opened SortedLists

  datatype Severity = Low | Medium | High

  function Rank(s: Severity): nat {
    match s
    case Low => 0
    case Medium => 1
    case High => 2
  }

  datatype Entry = Entry(severity: Severity, value: Result<string, string>)
  datatype Surface = Surface(name: string, entry: Entry)
  datatype Capture = Capture(title: string, surfaces: seq<Surface>)

  type Index = map<string, Entry>

  const MISSING: string := "<missing>"

  /** The last surface of a name counts. */
  function ByName(surfaces: seq<Surface>): Index {
    if surfaces == [] then map[]
    else
      var last := surfaces[|surfaces| - 1];
      ByName(surfaces[..|surfaces| - 1])[last.name := last.entry]
  }

  predicate NoDuplicates(surfaces: seq<Surface>) {
    forall i, j | 0 <= i < j < |surfaces| :: surfaces[i].name != surfaces[j].name
  }

  function Lookup(index: Index, name: string): Option<Entry> {
    if name in index then Some(index[name]) else None
  }

  // ------------------------------------------------------------------ two captures

  datatype Divergence = Divergence(surface: string, severity: Severity, a: string, b: string)

  datatype Verdict = Agreed | Errored | Diverged(divergence: Divergence)

  function Judge(name: string, a: Option<Entry>, b: Option<Entry>): Verdict {
    match (a, b)
    case (Some(Entry(sa, Ok(va))), Some(Entry(sb, Ok(vb)))) =>
      if va == vb then Agreed
      else Diverged(Divergence(name, if Rank(sa) >= Rank(sb) then sa else sb, va, vb))
    case (Some(Entry(sa, Ok(va))), None) => Diverged(Divergence(name, sa, va, MISSING))
    case (None, Some(Entry(sb, Ok(vb)))) => Diverged(Divergence(name, sb, MISSING, vb))
    case _ => Errored
  }

  function VerdictOf(a: Index, b: Index, name: string): Verdict {
    Judge(name, Lookup(a, name), Lookup(b, name))
  }

  datatype Report = Report(titleA: string, titleB: string, surfaces: nat,
                           agreed: nat, diverged: nat, errors: nat, divergences: seq<Divergence>) {
    predicate IsIdentical() {
      diverged == 0 && errors == 0
    }

    predicate IsConsistent() {
      agreed + diverged + errors == surfaces && |divergences| == diverged
    }

    function Worst(): Option<Severity> {
      WorstOf(divergences)
    }
  }

  /** The severity of highest rank, if any. */
  function WorstOf(ds: seq<Divergence>): Option<Severity> {
    if ds == [] then None
    else
      var rest, last := WorstOf(ds[..|ds| - 1]), ds[|ds| - 1].severity;
      if rest.Some? && Rank(rest.value) > Rank(last) then rest else Some(last)
  }

  /** Most severe first, then by name. */
  predicate Before(d: Divergence, e: Divergence) {
    Rank(d.severity) > Rank(e.severity) || (d.severity == e.severity && Less(d.surface, e.surface))
  }

  datatype Kind = Agreement | Difference | Failure

  function KindOf(v: Verdict): Kind {
    match v
    case Agreed => Agreement
    case Diverged(_) => Difference
    case Errored => Failure
  }

  /** The names whose verdict is of the kind. */
  function Names(a: Index, b: Index, among: set<string>, kind: Kind): set<string> {
    set n | n in among && KindOf(VerdictOf(a, b, n)) == kind
  }

  function All(a: Index, b: Index): set<string> {
    a.Keys + b.Keys
  }

  /** The divergences listed are those of the diverging names, each once and in order. */
  ghost predicate Lists(ds: seq<Divergence>, a: Index, b: Index) {
    && Increasing(Before, ds)
    && (forall d | d in ds :: d.surface in All(a, b) && VerdictOf(a, b, d.surface) == Diverged(d))
    && (forall n | n in All(a, b) && VerdictOf(a, b, n).Diverged? :: VerdictOf(a, b, n).divergence in ds)
  }

  /** What a report must say of two captures, in terms of their indexes alone. */
  ghost predicate IsDiff(titleA: string, titleB: string, a: Index, b: Index, r: Report) {
    && r.titleA == titleA && r.titleB == titleB
    && r.surfaces == |All(a, b)|
    && r.agreed == |Names(a, b, All(a, b), Agreement)|
    && r.diverged == |Names(a, b, All(a, b), Difference)|
    && r.errors == |Names(a, b, All(a, b), Failure)|
    && Lists(r.divergences, a, b)
  }

  lemma BeforeIsStrictOrder()
    ensures StrictOrder(Before)
  {
    hide Less;
    LessIsStrictOrder();
    forall d: Divergence ensures !Before(d, d) {
      LessIrreflexive(d.surface);
    }
    forall d: Divergence, e: Divergence, f: Divergence | Before(d, e) && Before(e, f) ensures Before(d, f) {
      if d.severity == e.severity == f.severity {
        LessTransitive(d.surface, e.surface, f.surface);
      }
    }
  }

  lemma BeforeIsTotal(d: Divergence, e: Divergence)
    requires d.surface != e.surface
    ensures Before(d, e) || Before(e, d)
  {
    LessTotal(d.surface, e.surface);
  }

  /** The library's sort: on divergences of distinct surfaces there is one result. */
  method SortDivergences(ds: seq<Divergence>) returns (sorted: seq<Divergence>)
    requires forall i, j | 0 <= i < j < |ds| :: ds[i].surface != ds[j].surface
    ensures Increasing(Before, sorted)
    ensures forall d :: d in sorted <==> d in ds
  {
    hide Before;
    BeforeIsStrictOrder();
    sorted := [];
    for i := 0 to |ds|
      invariant Increasing(Before, sorted)
      invariant forall d :: d in sorted <==> d in ds[..i]
    {
      forall y | y in sorted ensures Before(ds[i], y) || Before(y, ds[i]) {
        BeforeIsTotal(ds[i], y);
      }
      InsertIncreasing(Before, ds[i], sorted);
      InsertElements(Before, ds[i], sorted);
      sorted := Insert(Before, ds[i], sorted);
      assert ds[..i + 1] == ds[..i] + [ds[i]];
    }
  }

  function Elements(names: seq<string>): set<string> {
    set n | n in names
  }

  lemma OneMoreName(a: Index, b: Index, among: set<string>, n: string, kind: Kind)
    requires n !in among
    ensures |Names(a, b, among + {n}, kind)|
            == |Names(a, b, among, kind)| + if KindOf(VerdictOf(a, b, n)) == kind then 1 else 0
  {
    hide VerdictOf;
    assert Names(a, b, among + {n}, kind)
        == if KindOf(VerdictOf(a, b, n)) == kind then Names(a, b, among, kind) + {n} else Names(a, b, among, kind);
  }

  /** The tallies over the names judged so far. */
  predicate Tallied(a: Index, b: Index, names: seq<string>, agreed: nat, diverged: nat, errors: nat) {
    && agreed == |Names(a, b, Elements(names), Agreement)|
    && diverged == |Names(a, b, Elements(names), Difference)|
    && errors == |Names(a, b, Elements(names), Failure)|
  }

  lemma TallyOneMore(a: Index, b: Index, names: seq<string>, n: string, agreed: nat, diverged: nat, errors: nat)
    requires Tallied(a, b, names, agreed, diverged, errors) && n !in names
    ensures var v := VerdictOf(a, b, n);
            Tallied(a, b, names + [n], if v.Agreed? then agreed + 1 else agreed,
                    if v.Diverged? then diverged + 1 else diverged, if v.Errored? then errors + 1 else errors)
  {
    hide VerdictOf, Names;
    assert Elements(names + [n]) == Elements(names) + {n};
    OneMoreName(a, b, Elements(names), n, Agreement);
    OneMoreName(a, b, Elements(names), n, Difference);
    OneMoreName(a, b, Elements(names), n, Failure);
  }

  method Diff(a: Capture, b: Capture) returns (r: Report)
    ensures IsDiff(a.title, b.title, ByName(a.surfaces), ByName(b.surfaces), r)
  {
    hide Before, Judge, Less, VerdictOf, Tallied, Pushed, ByName, IsDiff, Lists, Increasing;
    var aMap, bMap := ByName(a.surfaces), ByName(b.surfaces);
    var keys := SortNames(aMap.Keys + bMap.Keys);
    var agreed, diverged, errors, divergences := 0, 0, 0, [];
    NothingYet(aMap, bMap);
    for i := 0 to |keys|
      invariant Tallied(aMap, bMap, keys[..i], agreed, diverged, errors)
      invariant Pushed(divergences, aMap, bMap, keys[..i])
    {
      var name := keys[i];
      TakeNext(keys, i);
      IncreasingIsFresh(keys, i);
      TallyOneMore(aMap, bMap, keys[..i], name, agreed, diverged, errors);
      PushOneMore(divergences, aMap, bMap, keys[..i], name);
      match VerdictOf(aMap, bMap, name) {
        case Agreed => agreed := agreed + 1;
        case Errored => errors := errors + 1;
        case Diverged(d) =>
          diverged := diverged + 1;
          divergences := divergences + [d];
      }
    }
    assert keys[..|keys|] == keys;
    PushedDistinct(divergences, aMap, bMap, keys);
    var sorted := SortDivergences(divergences);
    r := Report(a.title, b.title, |keys|, agreed, diverged, errors, sorted);
    Finish(aMap, bMap, keys, divergences, r);
  }

  lemma Finish(a: Index, b: Index, keys: seq<string>, ds: seq<Divergence>, r: Report)
    requires (forall n :: n in keys <==> n in a.Keys + b.Keys) && r.surfaces == |keys| == |a.Keys + b.Keys|
    requires Tallied(a, b, keys, r.agreed, r.diverged, r.errors) && Pushed(ds, a, b, keys)
    requires Increasing(Before, r.divergences) && forall d :: d in r.divergences <==> d in ds
    ensures IsDiff(r.titleA, r.titleB, a, b, r)
  {
    hide Names, Lists, Before, Pushed;
    assert Elements(keys) == All(a, b);
    PushedLists(ds, r.divergences, a, b, keys);
  }

  lemma NothingYet(a: Index, b: Index)
    ensures Pushed([], a, b, []) && Tallied(a, b, [], 0, 0, 0)
  {
  }

  lemma PushedDistinct(ds: seq<Divergence>, a: Index, b: Index, names: seq<string>)
    requires Pushed(ds, a, b, names)
    ensures forall i, j | 0 <= i < j < |ds| :: ds[i].surface != ds[j].surface
  {
  }

  lemma PushedLists(ds: seq<Divergence>, sorted: seq<Divergence>, a: Index, b: Index, names: seq<string>)
    requires Pushed(ds, a, b, names) && Elements(names) == All(a, b)
    requires Increasing(Before, sorted) && forall d :: d in sorted <==> d in ds
    ensures Lists(sorted, a, b)
  {
    hide VerdictOf, Before, All;
    assert forall n :: n in names <==> n in Elements(names);
  }

  /** The divergences of the names judged so far, in the order of the names. */
  predicate Pushed(ds: seq<Divergence>, a: Index, b: Index, names: seq<string>) {
    && (forall i, j | 0 <= i < j < |ds| :: ds[i].surface != ds[j].surface)
    && (forall d | d in ds :: d.surface in names && VerdictOf(a, b, d.surface) == Diverged(d))
    && (forall n | n in names && VerdictOf(a, b, n).Diverged? :: VerdictOf(a, b, n).divergence in ds)
  }

  lemma JudgeNames(name: string, a: Option<Entry>, b: Option<Entry>)
    ensures Judge(name, a, b).Diverged? ==> Judge(name, a, b).divergence.surface == name
  {
  }

  lemma PushOneMore(ds: seq<Divergence>, a: Index, b: Index, names: seq<string>, n: string)
    requires n !in names && Pushed(ds, a, b, names)
    ensures var v := VerdictOf(a, b, n);
            Pushed(if v.Diverged? then ds + [v.divergence] else ds, a, b, names + [n])
  {
    hide Judge, Lookup;
    JudgeNames(n, Lookup(a, n), Lookup(b, n));
    assert forall k | 0 <= k < |ds| :: ds[k] in ds;
  }

  lemma IncreasingIsFresh(keys: seq<string>, i: nat)
    requires Increasing(Less, keys) && i < |keys|
    ensures keys[i] !in keys[..i]
  {
    hide Less;
    LessIsStrictOrder();
  }
}
