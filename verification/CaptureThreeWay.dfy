/** Stock browser, patched engine and script disguise compared surface by surface. */
module CaptureThreeWay {
  import opened Wrappers
  import opened Sequences
  import opened SortedLists
  import opened CaptureDiff
  import opened CaptureDiffLaws

  /** What a report shows of a surface: its value, the error as text, or the gap. */
  function Shown(index: Index, n: string): string {
    match Lookup(index, n)
    case Some(Entry(_, Ok(v))) => v
    case Some(Entry(_, Err(e))) => "<error: " + e + ">"
    case None => MISSING
  }

  function SeverityOf(index: Index, n: string): Severity {
    match Lookup(index, n)
    case Some(Entry(s, _)) => s
    case None => Low
  }

  /** The last of the most severe. */
  function Worst(s: Severity, t: Severity): Severity {
    if Rank(s) > Rank(t) then s else t
  }

  datatype Row = Row(surface: string, severity: Severity, stock: string, engine: string, disguise: string)

  /** The three captures by name. */
  datatype Trio = Trio(stock: Index, engine: Index, disguise: Index) {
    function Keys(): set<string> {
      stock.Keys + engine.Keys + disguise.Keys
    }

    function RowOf(n: string): Row {
      Row(n, Worst(Worst(SeverityOf(stock, n), SeverityOf(engine, n)), SeverityOf(disguise, n)),
          Shown(stock, n), Shown(engine, n), Shown(disguise, n))
    }

    function ClassOf(n: string): Class {
      Classify(Shown(stock, n), Shown(engine, n), Shown(disguise, n))
    }
  }

  datatype Class = EngineWin | ScriptWin | EveryoneLoses | AllAgree

  function Classify(stock: string, engine: string, disguise: string): Class {
    if stock == engine && stock != disguise then EngineWin
    else if stock == disguise && stock != engine then ScriptWin
    else if stock != engine && stock != disguise then EveryoneLoses
    else AllAgree
  }

  datatype ThreeWayReport = ThreeWayReport(surfaces: nat, engineWins: seq<Row>, jsWins: seq<Row>,
                                           everyoneLoses: seq<Row>) {
    predicate EngineBetterThanJs() {
      |engineWins| > |jsWins|
    }

    /** Saturating at zero after each subtraction. */
    function AgreedCount(): nat {
      Minus(Minus(Minus(surfaces, |engineWins|), |jsWins|), |everyoneLoses|)
    }

    predicate IsConsistent() {
      |engineWins| + |jsWins| + |everyoneLoses| <= surfaces
    }
  }

  function Minus(a: nat, b: nat): nat {
    if a < b then 0 else a - b
  }

  predicate BySurface(r: Row, s: Row) {
    Less(r.surface, s.surface)
  }

  function Names(t: Trio, c: Class): set<string> {
    set n | n in t.Keys() && t.ClassOf(n) == c
  }

  /** The rows of the names in the class, in the order of their names. */
  ghost predicate ListsClass(rows: seq<Row>, t: Trio, c: Class) {
    && Increasing(BySurface, rows)
    && (forall r | r in rows :: r.surface in Names(t, c) && r == t.RowOf(r.surface))
    && (forall n | n in Names(t, c) :: t.RowOf(n) in rows)
  }

  ghost predicate IsReport(t: Trio, r: ThreeWayReport) {
    && r.surfaces == |t.Keys()|
    && ListsClass(r.engineWins, t, EngineWin)
    && ListsClass(r.jsWins, t, ScriptWin)
    && ListsClass(r.everyoneLoses, t, EveryoneLoses)
  }

  // ------------------------------------------------------------------ building the report

  /** The rows of the class among `names`. */
  function Rows(t: Trio, names: seq<string>, c: Class): seq<Row> {
    if names == [] then []
    else
      var last := names[|names| - 1];
      Rows(t, names[..|names| - 1], c) + if t.ClassOf(last) == c then [t.RowOf(last)] else []
  }

  method FromCaptures(stock: Capture, engine: Capture, disguise: Capture) returns (r: ThreeWayReport)
    ensures IsReport(Trio(ByName(stock.surfaces), ByName(engine.surfaces), ByName(disguise.surfaces)), r)
  {
    hide ByName, Trio.RowOf, IsReport, ListsClass, Increasing, Less, Classify, Trio.ClassOf;
    var t := Trio(ByName(stock.surfaces), ByName(engine.surfaces), ByName(disguise.surfaces));
    var keys := SortNames(t.Keys());
    var engineWins, jsWins, everyoneLoses := [], [], [];
    for i := 0 to |keys|
      invariant engineWins == Rows(t, keys[..i], EngineWin)
      invariant jsWins == Rows(t, keys[..i], ScriptWin)
      invariant everyoneLoses == Rows(t, keys[..i], EveryoneLoses)
    {
      var row := t.RowOf(keys[i]);
      RowsStep(t, keys, i);
      match t.ClassOf(keys[i]) {
        case EngineWin => engineWins := engineWins + [row];
        case ScriptWin => jsWins := jsWins + [row];
        case EveryoneLoses => everyoneLoses := everyoneLoses + [row];
        case AllAgree =>
      }
    }
    assert keys[..|keys|] == keys;
    r := ThreeWayReport(|keys|, engineWins, jsWins, everyoneLoses);
    RowsList(t, keys, EngineWin);
    RowsList(t, keys, ScriptWin);
    RowsList(t, keys, EveryoneLoses);
    assert IsReport(t, r) by {
      ReportFromLists(t, r);
    }
  }

  lemma ReportFromLists(t: Trio, r: ThreeWayReport)
    requires r.surfaces == |t.Keys()| && ListsClass(r.engineWins, t, EngineWin)
    requires ListsClass(r.jsWins, t, ScriptWin) && ListsClass(r.everyoneLoses, t, EveryoneLoses)
    ensures IsReport(t, r)
  {
  }

  lemma RowsStep(t: Trio, keys: seq<string>, i: nat)
    requires i < |keys|
    ensures forall c :: Rows(t, keys[..i + 1], c)
                        == Rows(t, keys[..i], c) + if t.ClassOf(keys[i]) == c then [t.RowOf(keys[i])] else []
  {
    assert keys[..i + 1][..i] == keys[..i] && keys[..i + 1] != [];
  }

  lemma {:induction false} RowsElements(t: Trio, names: seq<string>, c: Class, r: Row)
    ensures r in Rows(t, names, c) <==> r.surface in names && t.ClassOf(r.surface) == c && r == t.RowOf(r.surface)
  {
    hide Trio.ClassOf;
    if names == [] {
    } else {
      RowsElements(t, names[..|names| - 1], c, r);
      assert names == names[..|names| - 1] + [names[|names| - 1]];
    }
  }

  lemma {:induction false} RowsIncreasing(t: Trio, names: seq<string>, c: Class)
    requires Increasing(Less, names)
    ensures Increasing(BySurface, Rows(t, names, c))
  {
    hide Trio.ClassOf, Less;
    if names == [] {
    } else {
      var front, last := names[..|names| - 1], names[|names| - 1];
      RowsIncreasing(t, front, c);
      var rows := Rows(t, front, c);
      forall i | 0 <= i < |rows| ensures Less(rows[i].surface, last) {
        RowsElements(t, front, c, rows[i]);
        var k :| 0 <= k < |front| && front[k] == rows[i].surface;
        assert names[k] == front[k];
      }
    }
  }

  lemma RowsList(t: Trio, keys: seq<string>, c: Class)
    requires Increasing(Less, keys) && forall n :: n in keys <==> n in t.Keys()
    ensures ListsClass(Rows(t, keys, c), t, c)
  {
    hide Trio.ClassOf, Less, Rows, Trio.Keys, Increasing;
    RowsIncreasing(t, keys, c);
    var rows := Rows(t, keys, c);
    forall r | r in rows ensures r.surface in Names(t, c) && r == t.RowOf(r.surface) {
      RowsElements(t, keys, c, r);
    }
    forall n | n in Names(t, c) ensures t.RowOf(n) in rows {
      RowsElements(t, keys, c, t.RowOf(n));
    }
  }

  // ------------------------------------------------------------------ what it says

  lemma BySurfaceIsStrictOrder()
    ensures StrictOrder(BySurface)
  {
    hide Less;
    LessIsStrictOrder();
    forall r: Row ensures !BySurface(r, r) {
      LessIrreflexive(r.surface);
    }
    forall r: Row, s: Row, u: Row | BySurface(r, s) && BySurface(s, u) ensures BySurface(r, u) {
      LessTransitive(r.surface, s.surface, u.surface);
    }
  }

  lemma ListedOncePerName(rows: seq<Row>, t: Trio, c: Class)
    requires ListsClass(rows, t, c)
    ensures |rows| == |Names(t, c)|
  {
    hide Trio.ClassOf, Trio.Keys, BySurface, Names;
    BySurfaceIsStrictOrder();
    var names := seq(|rows|, i requires 0 <= i < |rows| => rows[i].surface);
    assert Distinct(names) by {
      forall i, j | 0 <= i < j < |names| ensures names[i] != names[j] {
        assert BySurface(rows[i], rows[j]);
        assert rows[i] in rows && rows[j] in rows;
      }
    }
    forall n ensures n in names <==> n in Names(t, c) {
      if n in names {
        var i :| 0 <= i < |names| && names[i] == n;
        assert rows[i] in rows;
      }
      if n in Names(t, c) {
        var i :| 0 <= i < |rows| && rows[i] == t.RowOf(n);
        assert names[i] == n;
      }
    }
    DistinctCount(names, Names(t, c));
  }

  /** Every surface falls in exactly one class, so the agreed count is exact and the
      report consistent. */
  lemma ClassesPartition(t: Trio, r: ThreeWayReport)
    requires IsReport(t, r)
    ensures r.IsConsistent() && r.AgreedCount() == |Names(t, AllAgree)|
    ensures forall n | n in t.Keys() ::
              n in Names(t, AllAgree) <==> Shown(t.stock, n) == Shown(t.engine, n) == Shown(t.disguise, n)
  {
    hide ListsClass, Shown, Trio.Keys;
    ListedOncePerName(r.engineWins, t, EngineWin);
    ListedOncePerName(r.jsWins, t, ScriptWin);
    ListedOncePerName(r.everyoneLoses, t, EveryoneLoses);
    NamesCover(t);
  }

  lemma NamesCover(t: Trio)
    ensures |Names(t, EngineWin)| + |Names(t, ScriptWin)| + |Names(t, EveryoneLoses)|
        + |Names(t, AllAgree)| == |t.Keys()|
  {
    hide Trio.ClassOf, Trio.Keys;
    var w, x, y, z := Names(t, EngineWin), Names(t, ScriptWin), Names(t, EveryoneLoses), Names(t, AllAgree);
    assert w !! x && (w + x) !! y && (w + x + y) !! z;
    assert w + x + y + z == t.Keys();
  }

  /** One report for three captures. */
  lemma ThreeWayIsDetermined(t: Trio, r: ThreeWayReport, r': ThreeWayReport)
    requires IsReport(t, r) && IsReport(t, r')
    ensures r == r'
  {
    hide Trio.ClassOf, Trio.Keys, BySurface, Names, Trio.RowOf;
    BySurfaceIsStrictOrder();
    IncreasingIsUnique(BySurface, r.engineWins, r'.engineWins);
    IncreasingIsUnique(BySurface, r.jsWins, r'.jsWins);
    IncreasingIsUnique(BySurface, r.everyoneLoses, r'.everyoneLoses);
  }

  /** The surfaces on which a capture shows what stock shows. */
  function Matching(t: Trio, index: Index): set<string> {
    set n | n in t.Keys() && Shown(t.stock, n) == Shown(index, n)
  }

  /** The engine is better exactly when it shows what stock shows on more surfaces than
      the disguise does. */
  lemma EngineBetterExactly(t: Trio, r: ThreeWayReport)
    requires IsReport(t, r)
    ensures |Matching(t, t.engine)| == r.surfaces - |r.jsWins| - |r.everyoneLoses|
    ensures |Matching(t, t.disguise)| == r.surfaces - |r.engineWins| - |r.everyoneLoses|
    ensures r.EngineBetterThanJs() <==> |Matching(t, t.engine)| > |Matching(t, t.disguise)|
  {
    hide ListsClass, Names, Matching, Trio.Keys;
    ListedOncePerName(r.engineWins, t, EngineWin);
    ListedOncePerName(r.jsWins, t, ScriptWin);
    ListedOncePerName(r.everyoneLoses, t, EveryoneLoses);
    NamesCover(t);
    EngineMatches(t);
    DisguiseMatches(t);
  }

  lemma EngineMatches(t: Trio)
    ensures |Matching(t, t.engine)| == |Names(t, EngineWin)| + |Names(t, AllAgree)|
  {
    hide Shown, Trio.Keys;
    assert Names(t, EngineWin) !! Names(t, AllAgree);
    assert Matching(t, t.engine) == Names(t, EngineWin) + Names(t, AllAgree);
  }

  lemma DisguiseMatches(t: Trio)
    ensures |Matching(t, t.disguise)| == |Names(t, ScriptWin)| + |Names(t, AllAgree)|
  {
    hide Shown, Trio.Keys;
    assert Names(t, ScriptWin) !! Names(t, AllAgree);
    assert Matching(t, t.disguise) == Names(t, ScriptWin) + Names(t, AllAgree);
  }

  /** Names shown alike without a value in common: a gap or an error on both sides, or one
      whose text happens to be the other side's value. */
  function Coincidences(t: Trio, index: Index): set<string> {
    set n | n in Matching(t, index) && !SameGoodValue(t.stock, index, n)
  }

  lemma MatchingSplits(t: Trio, index: Index)
    requires index == t.engine || index == t.disguise
    ensures |Matching(t, index)| ==
            |CaptureDiff.Names(t.stock, index, All(t.stock, index), Agreement)| + |Coincidences(t, index)|
  {
    hide VerdictOf;
    var agreeing := CaptureDiff.Names(t.stock, index, All(t.stock, index), Agreement);
    forall n: string {
      AgreedExactly(t.stock, index, n);
    }
    assert agreeing !! Coincidences(t, index);
    assert Matching(t, index) == agreeing + Coincidences(t, index);
  }

  /** The captures index the same names, all without error. */
  predicate Complete(t: Trio) {
    && t.stock.Keys == t.engine.Keys == t.disguise.Keys
    && forall n | n in t.stock :: t.stock[n].value.Ok? && t.engine[n].value.Ok? && t.disguise[n].value.Ok?
  }

  lemma CompleteNeverCoincides(t: Trio, index: Index)
    requires Complete(t) && (index == t.engine || index == t.disguise)
    ensures Coincidences(t, index) == {}
  {
  }

  /** The three-way verdict in terms of the two-way reports against stock: what they find
      agreeing, and the coincidences they count as errors, differences or not at all. On
      complete captures there are none, and the two comparisons agree. */
  lemma ThreeWayAgreesWithDiff(t: Trio, r: ThreeWayReport, e: Report, d: Report, titles: (string, string, string))
    requires IsReport(t, r)
    requires IsDiff(titles.0, titles.1, t.stock, t.engine, e) && IsDiff(titles.0, titles.2, t.stock, t.disguise, d)
    ensures e.agreed + |Coincidences(t, t.engine)| == r.surfaces - |r.jsWins| - |r.everyoneLoses|
    ensures d.agreed + |Coincidences(t, t.disguise)| == r.surfaces - |r.engineWins| - |r.everyoneLoses|
    ensures r.EngineBetterThanJs()
            <==> e.agreed + |Coincidences(t, t.engine)| > d.agreed + |Coincidences(t, t.disguise)|
    ensures Complete(t) ==>
              && e.diverged == |r.jsWins| + |r.everyoneLoses| && d.diverged == |r.engineWins| + |r.everyoneLoses|
              && (r.EngineBetterThanJs() <==> e.agreed > d.agreed)
  {
    hide IsReport, Lists, Matching, CaptureDiff.Names, Coincidences, Complete;
    EngineBetterExactly(t, r);
    MatchingSplits(t, t.engine);
    MatchingSplits(t, t.disguise);
    if Complete(t) {
      CompleteNeverCoincides(t, t.engine);
      CompleteNeverCoincides(t, t.disguise);
      CompleteDiverges(t, r, e, d, titles);
    }
  }

  lemma CompleteDiverges(t: Trio, r: ThreeWayReport, e: Report, d: Report, titles: (string, string, string))
    requires Complete(t) && IsReport(t, r)
    requires IsDiff(titles.0, titles.1, t.stock, t.engine, e) && IsDiff(titles.0, titles.2, t.stock, t.disguise, d)
    ensures e.agreed + e.diverged == r.surfaces == d.agreed + d.diverged
  {
    hide IsReport, Lists, CaptureDiff.Names;
    CountsAddUp(titles.0, titles.1, t.stock, t.engine, e);
    CountsAddUp(titles.0, titles.2, t.stock, t.disguise, d);
    NoFailures(t, t.engine);
    NoFailures(t, t.disguise);
    assert t.Keys() == All(t.stock, t.engine) == All(t.stock, t.disguise);
    assert r.surfaces == |t.Keys()| by {
      SurfacesOf(t, r);
    }
  }

  lemma SurfacesOf(t: Trio, r: ThreeWayReport)
    requires IsReport(t, r)
    ensures r.surfaces == |t.Keys()|
  {
  }

  lemma NoFailures(t: Trio, index: Index)
    requires Complete(t) && (index == t.engine || index == t.disguise)
    ensures CaptureDiff.Names(t.stock, index, All(t.stock, index), Failure) == {}
  {
  }

  /** A surface the disguise alone captures: stock and engine show the same gap, and the
      engine is better though the two-way reports agree on nothing. */
  lemma GapsCoincide(n: string, value: string, r: ThreeWayReport, e: Report, d: Report,
                     titles: (string, string, string))
    requires value != MISSING && IsReport(Trio(map[], map[], map[n := Entry(Low, Ok(value))]), r)
    requires IsDiff(titles.0, titles.1, map[], map[], e)
    requires IsDiff(titles.0, titles.2, map[], map[n := Entry(Low, Ok(value))], d)
    ensures r.EngineBetterThanJs() && e.agreed == 0 == d.agreed
  {
    hide Lists, IsReport;
    var t := Trio(map[], map[], map[n := Entry(Low, Ok(value))]);
    ThreeWayAgreesWithDiff(t, r, e, d, titles);
    assert Coincidences(t, t.engine) == {n} && Coincidences(t, t.disguise) == {};
  }

  /** Every row of everyone_loses shows three different values exactly when no surface
      has engine and disguise agreeing against stock: those are listed there too. */
  lemma EveryoneLosesExactly(t: Trio, r: ThreeWayReport)
    requires IsReport(t, r)
    ensures (forall row | row in r.everyoneLoses :: row.stock != row.engine && row.stock != row.disguise)
    ensures (forall row | row in r.everyoneLoses :: row.engine != row.disguise)
            <==> forall n | n in t.Keys() && Shown(t.engine, n) == Shown(t.disguise, n) ::
                   Shown(t.stock, n) == Shown(t.engine, n)
  {
    hide Shown, Trio.Keys, BySurface, Increasing;
    assert forall n | n in t.Keys() && t.ClassOf(n) == EveryoneLoses :: n in Names(t, EveryoneLoses);
  }

  /** Engine and disguise exchanged: the wins change sides, the losses stay. */
  lemma ExchangeSwapsWins(t: Trio, r: ThreeWayReport, r': ThreeWayReport)
    requires IsReport(t, r) && IsReport(Trio(t.stock, t.disguise, t.engine), r')
    ensures r'.surfaces == r.surfaces
    ensures r'.engineWins == Exchange(r.jsWins) && r'.jsWins == Exchange(r.engineWins)
    ensures r'.everyoneLoses == Exchange(r.everyoneLoses)
  {
    hide ListsClass;
    var t' := Trio(t.stock, t.disguise, t.engine);
    assert t.Keys() == t'.Keys();
    ExchangeLists(r.jsWins, t, ScriptWin, EngineWin);
    ExchangeLists(r.engineWins, t, EngineWin, ScriptWin);
    ExchangeLists(r.everyoneLoses, t, EveryoneLoses, EveryoneLoses);
    ThreeWayIsDetermined(t', r', ThreeWayReport(r.surfaces, Exchange(r.jsWins), Exchange(r.engineWins),
        Exchange(r.everyoneLoses)));
  }

  function ExchangeRow(r: Row): Row {
    Row(r.surface, r.severity, r.stock, r.disguise, r.engine)
  }

  function Exchange(rows: seq<Row>): (r: seq<Row>)
    ensures |r| == |rows| && forall i | 0 <= i < |rows| :: r[i] == ExchangeRow(rows[i])
  {
    seq(|rows|, i requires 0 <= i < |rows| => ExchangeRow(rows[i]))
  }

  lemma ExchangeLists(rows: seq<Row>, t: Trio, c: Class, d: Class)
    requires ListsClass(rows, t, c)
        && (c, d) in {(EngineWin, ScriptWin), (ScriptWin, EngineWin), (EveryoneLoses, EveryoneLoses)}
    ensures ListsClass(Exchange(rows), Trio(t.stock, t.disguise, t.engine), d)
  {
    hide Shown, Less, SeverityOf;
    var t' := Trio(t.stock, t.disguise, t.engine);
    var xs := Exchange(rows);
    ExchangeNames(t, c, d);
    forall x | x in xs ensures x.surface in Names(t', d) && x == t'.RowOf(x.surface) {
      var i :| 0 <= i < |xs| && xs[i] == x;
      assert rows[i] in rows;
      WorstExchanges(t, x.surface);
    }
    forall n | n in Names(t', d) ensures t'.RowOf(n) in xs {
      var i :| 0 <= i < |rows| && rows[i] == t.RowOf(n);
      WorstExchanges(t, n);
      assert xs[i] == t'.RowOf(n);
    }
  }

  lemma ExchangeNames(t: Trio, c: Class, d: Class)
    requires (c, d) in {(EngineWin, ScriptWin), (ScriptWin, EngineWin), (EveryoneLoses, EveryoneLoses)}
    ensures Names(t, c) == Names(Trio(t.stock, t.disguise, t.engine), d)
  {
    hide Shown;
  }

  lemma WorstExchanges(t: Trio, n: string)
    ensures Trio(t.stock, t.disguise, t.engine).RowOf(n) == ExchangeRow(t.RowOf(n))
  {
    hide Shown, SeverityOf;
  }

  /** Engine and disguise agree with each other, and still everyone loses. */
  lemma AgreementAgainstStockIsListed(n: string, a: string, b: string, r: ThreeWayReport)
    requires a != b
    requires IsReport(Trio(map[n := Entry(Low, Ok(a))], map[n := Entry(Low, Ok(b))], map[n := Entry(Low, Ok(b))]), r)
    ensures |r.everyoneLoses| == 1 && r.everyoneLoses[0].engine == r.everyoneLoses[0].disguise
  {
    hide ListsClass;
    var t := Trio(map[n := Entry(Low, Ok(a))], map[n := Entry(Low, Ok(b))], map[n := Entry(Low, Ok(b))]);
    ListedOncePerName(r.everyoneLoses, t, EveryoneLoses);
    assert Names(t, EveryoneLoses) == {n};
    OnlyRow(t, r.everyoneLoses, n);
  }

  lemma OnlyRow(t: Trio, rows: seq<Row>, n: string)
    requires ListsClass(rows, t, EveryoneLoses) && Names(t, EveryoneLoses) == {n} && |rows| == 1
    ensures rows[0] == t.RowOf(n)
  {
    hide Names, Trio.RowOf;
    assert rows[0] in rows;
  }
}
