/**
 What each line of a report says: whose values it shows and on which side, how severe it
 is, where it stands, and what the counts count.
 */
module CaptureReports {
  import opened Wrappers
  import opened Sequences
  import opened SortedLists
  import opened CaptureDiff
  import opened CaptureDiffLaws
  import opened CaptureThreeWay

  predicate Has(index: Index, n: string, value: string) {
    n in index && index[n].value == Ok(value)
  }

  // ------------------------------------------------------------------ one divergence

  predicate HasError(a: Index, b: Index, n: string) {
    (n in a && a[n].value.Err?) || (n in b && b[n].value.Err?)
  }

  /** The report has one divergence of that name. */
  ghost predicate HasOne(ds: seq<Divergence>, n: string) {
    exists i :: ListedOnlyAt(ds, n, i)
  }

  ghost predicate ListedOnlyAt(ds: seq<Divergence>, n: string, i: int) {
    0 <= i < |ds| && ds[i].surface == n && forall j | 0 <= j < |ds| && j != i :: ds[j].surface != n
  }

  /** High if either is, else Medium if either is, else Low. */
  predicate IsHigher(s: Severity, x: Severity, y: Severity) {
    && (s == High <==> x == High || y == High)
    && (s == Low <==> x == Low && y == Low)
  }

  lemma ListedAsJudged(titleA: string, titleB: string, a: Index, b: Index, r: Report, n: string)
    requires IsDiff(titleA, titleB, a, b, r) && n in All(a, b)
    ensures VerdictOf(a, b, n).Diverged? ==>
              HasOne(r.divergences, n) && forall d | d in r.divergences && d.surface == n ::
                VerdictOf(a, b, n) == Diverged(d)
    ensures !VerdictOf(a, b, n).Diverged? ==> forall d | d in r.divergences :: d.surface != n
  {
    hide Judge, Lookup, Before, CaptureDiff.Names;
    var ds := r.divergences;
    BeforeIsStrictOrder();
    if VerdictOf(a, b, n).Diverged? {
      JudgeNames(n, Lookup(a, n), Lookup(b, n));
      var i :| 0 <= i < |ds| && ds[i] == VerdictOf(a, b, n).divergence;
      forall j | 0 <= j < |ds| && j != i
        ensures ds[j].surface != n
      {
        assert ds[j] in ds;
        assert Before(ds[i], ds[j]) || Before(ds[j], ds[i]);
      }
      assert ListedOnlyAt(ds, n, i);
    }
  }

  /** Both captures have a value of the name and the two differ: one divergence, with A's
      value first and the higher of the two severities. */
  lemma DifferentValuesShown(titleA: string, titleB: string, a: Index, b: Index, r: Report, n: string,
                             va: string, vb: string)
    requires IsDiff(titleA, titleB, a, b, r) && Has(a, n, va) && Has(b, n, vb) && va != vb
    ensures HasOne(r.divergences, n)
    ensures forall d | d in r.divergences && d.surface == n ::
              d.a == va && d.b == vb && IsHigher(d.severity, a[n].severity, b[n].severity)
  {
    hide IsDiff, HasOne;
    ListedAsJudged(titleA, titleB, a, b, r, n);
  }

  /** One capture alone has a value of the name: one divergence with its severity, and the
      other side says so. */
  lemma MissingValuesShown(titleA: string, titleB: string, a: Index, b: Index, r: Report, n: string, v: string)
    requires IsDiff(titleA, titleB, a, b, r) && (n in a <==> n !in b) && (Has(a, n, v) || Has(b, n, v))
    ensures HasOne(r.divergences, n)
    ensures forall d | d in r.divergences && d.surface == n ::
              if n in a then d.a == v && d.b == "<missing>" && d.severity == a[n].severity
              else d.a == "<missing>" && d.b == v && d.severity == b[n].severity
  {
    hide IsDiff, HasOne;
    ListedAsJudged(titleA, titleB, a, b, r, n);
  }

  /** An error on either side, or one value on both, is no divergence. */
  lemma NothingElseShown(titleA: string, titleB: string, a: Index, b: Index, r: Report, n: string)
    requires IsDiff(titleA, titleB, a, b, r)
    requires HasError(a, b, n) || SameGoodValue(a, b, n)
    ensures forall d | d in r.divergences :: d.surface != n
  {
    hide IsDiff, HasOne;
    ListedAsJudged(titleA, titleB, a, b, r, n);
  }

  lemma KindExactly(a: Index, b: Index, n: string)
    requires n in a || n in b
    ensures KindOf(VerdictOf(a, b, n)) == Agreement <==> SameGoodValue(a, b, n)
    ensures KindOf(VerdictOf(a, b, n)) == Failure <==> HasError(a, b, n)
  {
  }

  /** Agreement counts the names with one good value in both captures, errors those with an
      error in either; the titles are the captures'. */
  lemma CountsAre(titleA: string, titleB: string, a: Index, b: Index, r: Report)
    requires IsDiff(titleA, titleB, a, b, r)
    ensures r.titleA == titleA && r.titleB == titleB
    ensures r.agreed == |set n | n in a.Keys + b.Keys && SameGoodValue(a, b, n)|
    ensures r.errors == |set n | n in a.Keys + b.Keys && HasError(a, b, n)|
  {
    hide Lists, CaptureDiff.Names;
    AgreeingNames(a, b);
    FailingNames(a, b);
  }

  lemma AgreeingNames(a: Index, b: Index)
    ensures CaptureDiff.Names(a, b, All(a, b), Agreement) == set n | n in a.Keys + b.Keys && SameGoodValue(a, b, n)
  {
    hide VerdictOf, SameGoodValue;
    forall n | n in a.Keys + b.Keys
      ensures KindOf(VerdictOf(a, b, n)) == Agreement <==> SameGoodValue(a, b, n)
    {
      KindExactly(a, b, n);
    }
  }

  lemma FailingNames(a: Index, b: Index)
    ensures CaptureDiff.Names(a, b, All(a, b), Failure) == set n | n in a.Keys + b.Keys && HasError(a, b, n)
  {
    hide VerdictOf, HasError;
    forall n | n in a.Keys + b.Keys
      ensures KindOf(VerdictOf(a, b, n)) == Failure <==> HasError(a, b, n)
    {
      KindExactly(a, b, n);
    }
  }

  /** A report is consistent exactly when its counts add up and it lists what diverged: one
      count changed, or a divergence left out, is noticed. */
  lemma ChangesAreNoticed(titleA: string, titleB: string, a: Index, b: Index, r: Report, n: nat, ds: seq<Divergence>)
    requires IsDiff(titleA, titleB, a, b, r)
    ensures r.(agreed := n).IsConsistent() <==> n == r.agreed
    ensures r.(diverged := n).IsConsistent() <==> n == r.diverged
    ensures r.(errors := n).IsConsistent() <==> n == r.errors
    ensures r.(surfaces := n).IsConsistent() <==> n == r.surfaces
    ensures r.(divergences := ds).IsConsistent() <==> |ds| == |r.divergences|
  {
    hide IsDiff;
    CountsAddUp(titleA, titleB, a, b, r);
  }

  /** Of any list, in any order, the worst severity is some divergence's and none is above it. */
  lemma {:induction false} WorstIsHighest(ds: seq<Divergence>)
    ensures WorstOf(ds).None? <==> ds == []
    ensures WorstOf(ds).Some? ==>
              && (exists d :: d in ds && d.severity == WorstOf(ds).value)
              && (WorstOf(ds).value != High ==> forall d | d in ds :: d.severity != High)
              && (WorstOf(ds).value == Low ==> forall d | d in ds :: d.severity == Low)
    decreases |ds|
  {
    if ds == [] {
    } else {
      var n := |ds| - 1;
      WorstIsHighest(ds[..n]);
      assert ds == ds[..n] + [ds[n]] && ds[n] in ds;
      if d :| d in ds[..n] && Some(d.severity) == WorstOf(ds[..n]) {
        assert d in ds;
      }
    }
  }

  // ------------------------------------------------------------------ their order

  /** Strings are ordered by their first difference, a string before its extensions. */
  lemma {:induction false} LessAtDifference(p: string, c: char, d: char, x: string, y: string)
    requires c != d
    ensures Less(p + [c] + x, p + [d] + y) <==> c < d
    ensures Less(p, p + [c] + x)
    decreases |p|
  {
    if p == [] {
      assert p + [c] + x == [c] + x && p + [d] + y == [d] + y;
    } else {
      LessAtDifference(p[1..], c, d, x, y);
      assert (p + [c] + x)[1..] == p[1..] + [c] + x && (p + [d] + y)[1..] == p[1..] + [d] + y;
    }
  }

  /** Of two divergences the earlier is the more severe, or as severe and of the lesser name. */
  lemma OrderShown(titleA: string, titleB: string, a: Index, b: Index, r: Report, i: nat, j: nat)
    requires IsDiff(titleA, titleB, a, b, r) && i < j < |r.divergences|
    ensures var d, e := r.divergences[i], r.divergences[j];
            && (d.severity == e.severity ==> Less(d.surface, e.surface))
            && (e.severity == High ==> d.severity == High) && (d.severity == Low ==> e.severity == Low)
  {
    hide Less, VerdictOf, CaptureDiff.Names;
  }

  // ------------------------------------------------------------------ three captures

  /** Of any report, the agreed count is what the lists leave of the surfaces, if anything. */
  lemma AgreedIsTheRest(r: ThreeWayReport)
    ensures var listed := |r.engineWins| + |r.jsWins| + |r.everyoneLoses|;
            && r.AgreedCount() == (if listed <= r.surfaces then r.surfaces - listed else 0)
            && (r.IsConsistent() <==> listed <= r.surfaces)
  {
  }

  /** What is shown of a name: its value, its error between marks, or that it is missing. */
  predicate Shows(text: string, index: Index, n: string) {
    && (n in index && index[n].value.Ok? ==> text == index[n].value.value)
    && (n in index && index[n].value.Err? ==> text == "<error: " + index[n].value.error + ">")
    && (n !in index ==> text == "<missing>")
  }

  predicate SeverityIn(s: Severity, index: Index, n: string) {
    n in index && index[n].severity == s
  }

  /** Stock, engine and disguise of a row are what those captures show of its surface, and
      it is as severe as the most severe of them. */
  ghost predicate RowShows(t: Trio, row: Row) {
    var n := row.surface;
    && Shows(row.stock, t.stock, n) && Shows(row.engine, t.engine, n) && Shows(row.disguise, t.disguise, n)
    && (row.severity == High <==>
          SeverityIn(High, t.stock, n) || SeverityIn(High, t.engine, n) || SeverityIn(High, t.disguise, n))
    && (row.severity != Low <==>
          row.severity == High ||
          SeverityIn(Medium, t.stock, n) || SeverityIn(Medium, t.engine, n) || SeverityIn(Medium, t.disguise, n))
  }

  lemma RowsShow(t: Trio, n: string)
    ensures RowShows(t, t.RowOf(n)) && t.RowOf(n).surface == n
  {
  }

  /** Every listed row shows its captures, under the heading they put it. */
  lemma RowsAreShown(t: Trio, r: ThreeWayReport, row: Row)
    requires IsReport(t, r)
    ensures row in r.engineWins ==> RowShows(t, row) && row.stock == row.engine != row.disguise
    ensures row in r.jsWins ==> RowShows(t, row) && row.stock == row.disguise != row.engine
    ensures row in r.everyoneLoses ==> RowShows(t, row) && row.stock != row.engine && row.stock != row.disguise
  {
    hide RowShows, Increasing;
    RowsShow(t, row.surface);
  }

  ghost predicate HasRow(rows: seq<Row>, n: string) {
    exists row :: row in rows && row.surface == n
  }

  /** Each surface any capture has is listed where what is shown of it puts it. */
  lemma SurfacesAreListed(t: Trio, r: ThreeWayReport, n: string, x: string, y: string, z: string)
    requires IsReport(t, r) && (n in t.stock || n in t.engine || n in t.disguise)
    requires Shows(x, t.stock, n) && Shows(y, t.engine, n) && Shows(z, t.disguise, n)
    ensures HasRow(r.engineWins, n) <==> x == y != z
    ensures HasRow(r.jsWins, n) <==> x == z != y
    ensures HasRow(r.everyoneLoses, n) <==> x != y && x != z
  {
    hide Increasing;
    RowsShow(t, n);
    assert Shown(t.stock, n) == x && Shown(t.engine, n) == y && Shown(t.disguise, n) == z;
    assert HasRow(r.engineWins, n) <==> n in CaptureThreeWay.Names(t, EngineWin) by {
      HasRowExactly(r.engineWins, t, EngineWin, n);
    }
    HasRowExactly(r.jsWins, t, ScriptWin, n);
    HasRowExactly(r.everyoneLoses, t, EveryoneLoses, n);
  }

  lemma HasRowExactly(rows: seq<Row>, t: Trio, c: Class, n: string)
    requires ListsClass(rows, t, c)
    ensures HasRow(rows, n) <==> n in CaptureThreeWay.Names(t, c)
  {
    hide Trio.ClassOf, Trio.Keys;
    RowsShow(t, n);
    if n in CaptureThreeWay.Names(t, c) {
      assert t.RowOf(n) in rows;
    }
  }
}
