/** What a two-capture report says, whatever order the surfaces were captured in. */
module CaptureDiffLaws {
  import opened Wrappers
  import opened Sequences
  import opened SortedLists
  import opened CaptureDiff

  // ------------------------------------------------------------------ the index

  /** A name is indexed under its last surface. */
  lemma {:induction false} ByNameIsLast(s: seq<Surface>, i: nat)
    requires i < |s| && forall j | i < j < |s| :: s[j].name != s[i].name
    ensures s[i].name in ByName(s) && ByName(s)[s[i].name] == s[i].entry
  {
    if i < |s| - 1 {
      var front := s[..|s| - 1];
      assert forall j | i < j < |front| :: front[j] == s[j];
      ByNameIsLast(front, i);
      assert s[|s| - 1].name != s[i].name;
    }
  }

  lemma {:induction false} ByNameKeys(s: seq<Surface>, name: string)
    ensures name in ByName(s) <==> exists i | 0 <= i < |s| :: s[i].name == name
  {
    if s == [] {
    } else {
      var front := s[..|s| - 1];
      ByNameKeys(front, name);
      if name in ByName(front) {
        var i :| 0 <= i < |front| && front[i].name == name;
        assert s[i].name == name;
      }
      if i :| 0 <= i < |s| && s[i].name == name {
        assert i < |front| ==> front[i].name == name;
      }
    }
  }

  /** Surfaces of one name all have the same entry. */
  predicate Consistent(s: seq<Surface>) {
    forall i, j | 0 <= i < |s| && 0 <= j < |s| && s[i].name == s[j].name :: s[i].entry == s[j].entry
  }

  /** The index holds, for each name, the entry of some surface of that name. */
  lemma {:induction false} ByNameWitness(s: seq<Surface>, name: string) returns (i: nat)
    requires name in ByName(s)
    ensures i < |s| && s[i].name == name && ByName(s)[name] == s[i].entry
  {
    var n := |s| - 1;
    if s[n].name == name {
      i := n;
    } else {
      i := ByNameWitness(s[..n], name);
    }
  }

  lemma ByNamePermuted(s: seq<Surface>, t: seq<Surface>, name: string)
    requires multiset(s) == multiset(t) && name in ByName(s)
    ensures name in ByName(t)
    ensures exists i, j | 0 <= i < |s| && 0 <= j < |s| ::
              && s[i].name == s[j].name == name
              && ByName(s)[name] == s[i].entry && ByName(t)[name] == s[j].entry
  {
    var i := ByNameWitness(s, name);
    assert s[i] in multiset(s);
    var k :| 0 <= k < |t| && t[k] == s[i];
    ByNameKeys(t, name);
    var l := ByNameWitness(t, name);
    assert t[l] in multiset(t);
    var j :| 0 <= j < |s| && s[j] == t[l];
  }

  lemma SameKeys(s: seq<Surface>, t: seq<Surface>)
    requires multiset(s) == multiset(t)
    ensures ByName(s).Keys == ByName(t).Keys
  {
    forall n ensures n in ByName(s) <==> n in ByName(t) {
      if n in ByName(s) {
        ByNamePermuted(s, t, n);
      }
      if n in ByName(t) {
        ByNamePermuted(t, s, n);
      }
    }
  }

  /** The capture with one of its surfaces moved to the end. */
  function MovedLast(s: seq<Surface>, i: nat): seq<Surface>
    requires i < |s|
  {
    s[..i] + s[i + 1..] + [s[i]]
  }

  lemma MovedLastCounts(s: seq<Surface>, i: nat)
    requires i < |s|
    ensures multiset(MovedLast(s, i)) == multiset(s)
    ensures s[i].name in ByName(MovedLast(s, i)) && ByName(MovedLast(s, i))[s[i].name] == s[i].entry
  {
    assert s == s[..i] + [s[i]] + s[i + 1..];
    ByNameIsLast(MovedLast(s, i), |s| - 1);
  }

  lemma NoDuplicatesIsConsistent(s: seq<Surface>)
    requires NoDuplicates(s)
    ensures Consistent(s)
  {
    assert forall i, j | 0 <= i < |s| && 0 <= j < |s| && s[i].name == s[j].name :: i == j;
  }

  ghost predicate OneIndex(s: seq<Surface>) {
    forall t: seq<Surface> | multiset(t) == multiset(s) :: ByName(t) == ByName(s)
  }

  lemma ConsistentHasOneIndex(s: seq<Surface>)
    requires Consistent(s)
    ensures OneIndex(s)
  {
    hide ByName;
    forall t: seq<Surface> | multiset(t) == multiset(s)
      ensures ByName(t) == ByName(s)
    {
      SameKeys(s, t);
      forall n | n in ByName(s) ensures ByName(s)[n] == ByName(t)[n] {
        ByNamePermuted(s, t, n);
      }
    }
  }

  /** The index is the same in every order of capture exactly when surfaces of one name
      all have the same entry; in particular when no name is captured twice. */
  lemma ByNameIgnoresOrderExactly(s: seq<Surface>)
    ensures Consistent(s) <==> OneIndex(s)
    ensures NoDuplicates(s) ==> Consistent(s)
  {
    hide ByName;
    if NoDuplicates(s) {
      NoDuplicatesIsConsistent(s);
    }
    if Consistent(s) {
      ConsistentHasOneIndex(s);
    }
    if OneIndex(s) {
      forall i, j | 0 <= i < |s| && 0 <= j < |s| && s[i].name == s[j].name
        ensures s[i].entry == s[j].entry
      {
        MovedLastCounts(s, i);
        MovedLastCounts(s, j);
        assert ByName(MovedLast(s, i)) == ByName(MovedLast(s, j));
      }
    }
  }

  // ------------------------------------------------------------------ the report

  /** Two captures have one report. */
  lemma DiffIsDetermined(titleA: string, titleB: string, a: Index, b: Index, r: Report, r': Report)
    requires IsDiff(titleA, titleB, a, b, r) && IsDiff(titleA, titleB, a, b, r')
    ensures r == r'
  {
    hide Before, VerdictOf, Names, All;
    BeforeIsStrictOrder();
    IncreasingIsUnique(Before, r.divergences, r'.divergences);
  }

  // ------------------------------------------------------------------ the order of capture

  /** No report tells the entries apart: they are equal, or both errors. */
  predicate Alike(e: Entry, f: Entry) {
    e == f || (e.value.Err? && f.value.Err?)
  }

  /** Surfaces of one name have entries no report tells apart. */
  predicate Interchangeable(s: seq<Surface>) {
    forall i, j | 0 <= i < |s| && 0 <= j < |s| && s[i].name == s[j].name :: Alike(s[i].entry, s[j].entry)
  }

  ghost predicate SameVerdicts(a: Index, a': Index) {
    a.Keys == a'.Keys && forall n | n in a :: Alike(a[n], a'[n])
  }

  lemma AlikeVerdict(a: Index, a': Index, b: Index, n: string)
    requires SameVerdicts(a, a')
    ensures VerdictOf(a, b, n) == VerdictOf(a', b, n)
  {
  }

  lemma AlikeReports(titleA: string, titleB: string, a: Index, a': Index, b: Index, r: Report)
    requires SameVerdicts(a, a') && IsDiff(titleA, titleB, a, b, r)
    ensures IsDiff(titleA, titleB, a', b, r)
  {
    hide VerdictOf, Before, SameVerdicts;
    forall n: string {
      AlikeVerdict(a, a', b, n);
    }
    assert All(a, b) == All(a', b) by {
      AllAlike(a, a', b);
    }
    AlikeNames(a, a', b, Agreement);
    AlikeNames(a, a', b, Difference);
    AlikeNames(a, a', b, Failure);
  }

  lemma AllAlike(a: Index, a': Index, b: Index)
    requires SameVerdicts(a, a')
    ensures All(a, b) == All(a', b)
  {
  }

  lemma AlikeNames(a: Index, a': Index, b: Index, kind: Kind)
    requires SameVerdicts(a, a')
    ensures Names(a, b, All(a, b), kind) == Names(a', b, All(a', b), kind)
  {
    hide VerdictOf, SameVerdicts;
    AllAlike(a, a', b);
    forall n: string {
      AlikeVerdict(a, a', b, n);
    }
  }

  lemma PermutedVerdicts(s: seq<Surface>, t: seq<Surface>)
    requires Interchangeable(s) && multiset(s) == multiset(t)
    ensures SameVerdicts(ByName(s), ByName(t))
  {
    hide ByName, Alike;
    SameKeys(s, t);
    forall n | n in ByName(s) ensures Alike(ByName(s)[n], ByName(t)[n]) {
      ByNamePermuted(s, t, n);
    }
  }

  /** Capturing the same surfaces in another order changes nothing in the report, as long
      as surfaces of one name are interchangeable. */
  lemma DiffIgnoresOrder(a: Capture, b: Capture, a': Capture, b': Capture, r: Report, r': Report)
    requires Interchangeable(a.surfaces) && multiset(a.surfaces) == multiset(a'.surfaces) && a.title == a'.title
    requires Interchangeable(b.surfaces) && multiset(b.surfaces) == multiset(b'.surfaces) && b.title == b'.title
    requires IsDiff(a.title, b.title, ByName(a.surfaces), ByName(b.surfaces), r)
    requires IsDiff(a'.title, b'.title, ByName(a'.surfaces), ByName(b'.surfaces), r')
    ensures r == r'
  {
    hide IsDiff, ByName, Interchangeable, SameVerdicts;
    var ia, ib, ia', ib' := ByName(a.surfaces), ByName(b.surfaces), ByName(a'.surfaces), ByName(b'.surfaces);
    PermutedVerdicts(a.surfaces, a'.surfaces);
    PermutedVerdicts(b.surfaces, b'.surfaces);
    AlikeReports(a.title, b.title, ia, ia', ib, r);
    DiffFlips(a.title, b.title, ia', ib, r);
    AlikeReports(b.title, a.title, ib, ib', ia', Flipped(r));
    DiffFlips(b.title, a.title, ib', ia', Flipped(r));
    FlipTwice(r);
    DiffIsDetermined(a.title, b.title, ia', ib', r, r');
  }

  lemma FlipTwice(r: Report)
    ensures Flipped(Flipped(r)) == r
  {
    assert FlipAll(FlipAll(r.divergences)) == r.divergences;
  }

  /** Every two captures have a report. */
  lemma ReportExists(titleA: string, titleB: string, a: Index, b: Index) returns (r: Report)
    ensures IsDiff(titleA, titleB, a, b, r)
  {
    hide VerdictOf, Names, Before;
    var ds := ListExists(a, b, All(a, b));
    r := Report(titleA, titleB, |All(a, b)|, |Names(a, b, All(a, b), Agreement)|,
                |Names(a, b, All(a, b), Difference)|, |Names(a, b, All(a, b), Failure)|, ds);
  }

  lemma {:induction false} ListExists(a: Index, b: Index, names: set<string>) returns (ds: seq<Divergence>)
    ensures Increasing(Before, ds)
    ensures forall d | d in ds :: d.surface in names && VerdictOf(a, b, d.surface) == Diverged(d)
    ensures forall n | n in names && VerdictOf(a, b, n).Diverged? :: VerdictOf(a, b, n).divergence in ds
    decreases |names|
  {
    hide Judge, Lookup, Before;
    if names == {} {
      ds := [];
    } else {
      var n :| n in names;
      ds := ListExists(a, b, names - {n});
      if VerdictOf(a, b, n).Diverged? {
        JudgeNames(n, Lookup(a, n), Lookup(b, n));
        var d := VerdictOf(a, b, n).divergence;
        BeforeIsStrictOrder();
        forall y | y in ds ensures Before(d, y) || Before(y, d) {
          BeforeIsTotal(d, y);
        }
        InsertIncreasing(Before, d, ds);
        InsertElements(Before, d, ds);
        ds := Insert(Before, d, ds);
      }
    }
  }

  /** Whatever it is compared with, the two indexes give one report. */
  ghost predicate SameReports(a: Index, a': Index) {
    forall b: Index, r, r' | IsDiff("", "", a, b, r) && IsDiff("", "", a', b, r') :: r == r'
  }

  /** A report is the same in every order of capture exactly when surfaces of one name are
      interchangeable: all with one entry, or all errors. */
  lemma OrderMattersExactly(s: seq<Surface>)
    ensures Interchangeable(s) <==> forall t | multiset(t) == multiset(s) :: SameReports(ByName(s), ByName(t))
  {
    hide ByName, IsDiff, Alike, SameVerdicts;
    if Interchangeable(s) {
      forall t | multiset(t) == multiset(s) ensures SameReports(ByName(s), ByName(t)) {
        PermutedVerdicts(s, t);
        forall b: Index, r, r' | IsDiff("", "", ByName(s), b, r) && IsDiff("", "", ByName(t), b, r') ensures r == r' {
          AlikeReports("", "", ByName(s), ByName(t), b, r);
          DiffIsDetermined("", "", ByName(t), b, r, r');
        }
      }
    } else {
      var i, j :| 0 <= i < |s| && 0 <= j < |s| && s[i].name == s[j].name && !Alike(s[i].entry, s[j].entry);
      MovedLastCounts(s, i);
      MovedLastCounts(s, j);
      var a, c, d := ByName(s), ByName(MovedLast(s, i)), ByName(MovedLast(s, j));
      ReportsDiffer(c, d, s[i].name);
      if SameReports(a, c) && SameReports(a, d) {
        SameReportsTransitive(a, c, d);
      }
    }
  }

  lemma SameReportsTransitive(a: Index, c: Index, d: Index)
    requires SameReports(a, c) && SameReports(a, d)
    ensures SameReports(c, d)
  {
    hide IsDiff;
    forall b: Index, r, r' | IsDiff("", "", c, b, r) && IsDiff("", "", d, b, r') ensures r == r' {
      var q := ReportExists("", "", a, b);
      assert q == r && q == r';
    }
  }

  /** Indexes whose entries of a name are not alike give two reports: against nothing at
      all, the name is listed differently or not at all. */
  lemma ReportsDiffer(c: Index, d: Index, n: string)
    requires n in c && n in d && !Alike(c[n], d[n])
    ensures !SameReports(c, d)
  {
    var r := ReportExists("", "", c, map[]);
    var r' := ReportExists("", "", d, map[]);
    if r == r' {
      AgainstNothing(c, n, r);
      AgainstNothing(d, n, r);
    }
  }

  lemma AgainstNothing(c: Index, n: string, r: Report)
    requires n in c && IsDiff("", "", c, map[], r)
    ensures c[n].value.Ok? ==> Divergence(n, c[n].severity, c[n].value.value, MISSING) in r.divergences
    ensures forall d | d in r.divergences && d.surface == n ::
              c[n].value.Ok? && d == Divergence(n, c[n].severity, c[n].value.value, MISSING)
  {
    hide Before, Names;
  }

  /** Two surfaces of one name with entries a report tells apart, captured in either order:
      whatever the reports are, they differ. */
  lemma OrderMattersWithDuplicates(s: Surface, t: Surface, r: Report, r': Report)
    requires s.name == t.name && !Alike(s.entry, t.entry)
    requires IsDiff("", "", ByName([s, t]), map[], r) && IsDiff("", "", ByName([t, s]), map[], r')
    ensures multiset([s, t]) == multiset([t, s]) && r != r'
  {
    hide IsDiff;
    ByNameIsLast([s, t], 1);
    ByNameIsLast([t, s], 1);
    assert [s, t][1] == t && [t, s][1] == s;
    AgainstNothing(ByName([s, t]), s.name, r);
    AgainstNothing(ByName([t, s]), s.name, r');
  }

  // ------------------------------------------------------------------ exchanging the captures

  function Flip(d: Divergence): Divergence {
    Divergence(d.surface, d.severity, d.b, d.a)
  }

  function FlipAll(ds: seq<Divergence>): (r: seq<Divergence>)
    ensures |r| == |ds| && forall i | 0 <= i < |ds| :: r[i] == Flip(ds[i])
  {
    seq(|ds|, i requires 0 <= i < |ds| => Flip(ds[i]))
  }

  function Flipped(r: Report): Report {
    Report(r.titleB, r.titleA, r.surfaces, r.agreed, r.diverged, r.errors, FlipAll(r.divergences))
  }

  lemma VerdictFlips(a: Index, b: Index, n: string)
    ensures var v, w := VerdictOf(a, b, n), VerdictOf(b, a, n);
            KindOf(v) == KindOf(w) && (v.Diverged? ==> w.divergence == Flip(v.divergence))
  {
  }

  lemma NamesFlip(a: Index, b: Index, kind: Kind)
    ensures Names(a, b, All(a, b), kind) == Names(b, a, All(b, a), kind)
  {
    hide VerdictOf;
    forall n: string {
      VerdictFlips(a, b, n);
    }
  }

  lemma ListsFlip(ds: seq<Divergence>, a: Index, b: Index)
    requires Lists(ds, a, b)
    ensures Lists(FlipAll(ds), b, a)
  {
    hide VerdictOf, All, Before;
    var fs := FlipAll(ds);
    assert Increasing(Before, fs) by {
      forall i, j | 0 <= i < j < |fs| ensures Before(fs[i], fs[j]) {
        FlipKeepsOrder(ds[i], ds[j]);
      }
    }
    AllFlips(a, b);
    forall f | f in fs ensures f.surface in All(b, a) && VerdictOf(b, a, f.surface) == Diverged(f) {
      var i :| 0 <= i < |fs| && fs[i] == f;
      assert ds[i] in ds;
      VerdictFlips(a, b, f.surface);
    }
    forall n | n in All(b, a) && VerdictOf(b, a, n).Diverged? ensures VerdictOf(b, a, n).divergence in fs {
      VerdictFlips(a, b, n);
      VerdictFlips(b, a, n);
      var i :| 0 <= i < |ds| && ds[i] == VerdictOf(a, b, n).divergence;
      assert fs[i] in fs;
    }
  }

  lemma AllFlips(a: Index, b: Index)
    ensures All(a, b) == All(b, a)
  {
  }

  lemma FlipKeepsOrder(d: Divergence, e: Divergence)
    requires Before(d, e)
    ensures Before(Flip(d), Flip(e))
  {
  }

  /** Exchanging the captures keeps every count and the order of the divergences, and
      exchanges the values they show. */
  lemma DiffFlips(titleA: string, titleB: string, a: Index, b: Index, r: Report)
    requires IsDiff(titleA, titleB, a, b, r)
    ensures IsDiff(titleB, titleA, b, a, Flipped(r))
  {
    hide Names, All, Lists;
    AllFlips(a, b);
    NamesFlip(a, b, Agreement);
    NamesFlip(a, b, Difference);
    NamesFlip(a, b, Failure);
    ListsFlip(r.divergences, a, b);
  }

  lemma NamesSplit(a: Index, b: Index, among: set<string>)
    ensures |Names(a, b, among, Agreement)| + |Names(a, b, among, Difference)|
        + |Names(a, b, among, Failure)| == |among|
  {
    hide VerdictOf;
    var x, y, z := Names(a, b, among, Agreement), Names(a, b, among, Difference), Names(a, b, among, Failure);
    assert x !! y && (x + y) !! z;
    assert x + y + z == among;
  }

  function Surfaces(ds: seq<Divergence>): seq<string> {
    seq(|ds|, i requires 0 <= i < |ds| => ds[i].surface)
  }

  lemma {:induction false} DistinctCount(s: seq<string>, names: set<string>)
    requires Distinct(s) && forall n :: n in s <==> n in names
    ensures |s| == |names|
  {
    if s == [] {
      assert names == {};
    } else {
      assert s[0] in names;
      forall n ensures n in s[1..] <==> n in names - {s[0]} {
        assert s == [s[0]] + s[1..];
        if n in s[1..] {
          var i :| 0 <= i < |s[1..]| && s[1..][i] == n;
          assert s[i + 1] == n;
        }
      }
      DistinctCount(s[1..], names - {s[0]});
    }
  }

  /** Every surface of either capture is counted once, and each divergence is listed. */
  lemma CountsAddUp(titleA: string, titleB: string, a: Index, b: Index, r: Report)
    requires IsDiff(titleA, titleB, a, b, r)
    ensures r.IsConsistent() && r.surfaces == |a.Keys + b.Keys|
  {
    hide VerdictOf, Names, Before;
    NamesSplit(a, b, All(a, b));
    ListedOnce(r.divergences, a, b);
  }

  lemma ListedOnce(ds: seq<Divergence>, a: Index, b: Index)
    requires Lists(ds, a, b)
    ensures |ds| == |Names(a, b, All(a, b), Difference)|
  {
    hide VerdictOf, Before, All;
    var names := Surfaces(ds);
    BeforeIsStrictOrder();
    assert Distinct(names) by {
      forall i, j | 0 <= i < j < |names| ensures names[i] != names[j] {
        assert Before(ds[i], ds[j]) && ds[i] != ds[j];
        assert ds[i] in ds && ds[j] in ds;
      }
    }
    forall n ensures n in names <==> n in Names(a, b, All(a, b), Difference) {
      SurfaceListed(ds, a, b, n);
    }
    DistinctCount(names, Names(a, b, All(a, b), Difference));
  }

  lemma SurfaceListed(ds: seq<Divergence>, a: Index, b: Index, n: string)
    requires Lists(ds, a, b)
    ensures n in Surfaces(ds) <==> n in Names(a, b, All(a, b), Difference)
  {
    hide Judge, Lookup, Before, All;
    if n in Surfaces(ds) {
      var i :| 0 <= i < |ds| && ds[i].surface == n;
      assert ds[i] in ds;
    }
    if n in Names(a, b, All(a, b), Difference) {
      JudgeNames(n, Lookup(a, n), Lookup(b, n));
      var i :| 0 <= i < |ds| && ds[i] == VerdictOf(a, b, n).divergence;
      assert Surfaces(ds)[i] == n;
    }
  }

  predicate SameGoodValue(a: Index, b: Index, n: string) {
    n in a && n in b && a[n].value.Ok? && a[n].value == b[n].value
  }

  lemma AgreedExactly(a: Index, b: Index, n: string)
    ensures VerdictOf(a, b, n).Agreed? <==> SameGoodValue(a, b, n)
  {
  }

  /** A report finds the captures identical exactly when they index the same names,
      without an error, to the same values; then every surface agrees. */
  lemma AllAgreeExactly(titleA: string, titleB: string, a: Index, b: Index, r: Report)
    requires IsDiff(titleA, titleB, a, b, r)
    ensures r.IsIdentical() <==> forall n | n in a || n in b :: SameGoodValue(a, b, n)
    ensures r.IsIdentical() <==> r.agreed == r.surfaces
  {
    hide Lists, VerdictOf, SameGoodValue;
    NamesSplit(a, b, All(a, b));
    var agreeing, all := Names(a, b, All(a, b), Agreement), All(a, b);
    forall n: string {
      AgreedExactly(a, b, n);
    }
    if |agreeing| == |all| {
      SubsetOfSameSize(agreeing, all);
      assert forall n | n in a || n in b :: n in agreeing;
    }
    if forall n | n in a || n in b :: SameGoodValue(a, b, n) {
      assert agreeing == all;
    }
  }

  /** The worst severity of a sorted report is its first divergence's. */
  lemma WorstIsFirst(titleA: string, titleB: string, a: Index, b: Index, r: Report)
    requires IsDiff(titleA, titleB, a, b, r)
    ensures r.Worst() == if r.divergences == [] then None else Some(r.divergences[0].severity)
  {
    if r.divergences != [] {
      WorstOfSorted(r.divergences);
    }
  }

  lemma {:induction false} WorstOfSorted(ds: seq<Divergence>)
    requires ds != [] && Increasing(Before, ds)
    ensures WorstOf(ds) == Some(ds[0].severity)
    decreases |ds|
  {
    hide Less;
    var n := |ds| - 1;
    if n == 0 {
    } else {
      WorstOfSorted(ds[..n]);
      assert Before(ds[0], ds[n]);
    }
  }

  lemma SubsetOfSameSize<T>(x: set<T>, y: set<T>)
    requires x <= y && |x| == |y|
    ensures x == y
  {
    assert |y - x| == |y| - |x|;
    assert y - x == {};
  }
}
