/** Strictly increasing lists under a given order, and the order of strings. */
module SortedLists {

  ghost predicate StrictOrder<T(!new)>(less: (T, T) -> bool) {
    && (forall x :: !less(x, x))
    && (forall x, y, z :: less(x, y) && less(y, z) ==> less(x, z))
  }

  ghost predicate Increasing<T>(less: (T, T) -> bool, s: seq<T>) {
    forall i, j | 0 <= i < j < |s| :: less(s[i], s[j])
  }

  ghost predicate Comparable<T>(less: (T, T) -> bool, x: T, s: seq<T>) {
    forall y | y in s :: y == x || less(x, y) || less(y, x)
  }

  /** `x` at its place; nothing when it is there already. */
  function Insert<T(==)>(less: (T, T) -> bool, x: T, s: seq<T>): seq<T> {
    if s == [] then [x]
    else if x == s[0] then s
    else if less(x, s[0]) then [x] + s
    else [s[0]] + Insert(less, x, s[1..])
  }

  lemma {:induction false} InsertElements<T>(less: (T, T) -> bool, x: T, s: seq<T>)
    ensures forall y :: y in Insert(less, x, s) <==> y == x || y in s
  {
    if s == [] {
    } else {
      InsertElements(less, x, s[1..]);
      assert s == [s[0]] + s[1..];
    }
  }

  lemma {:induction false} InsertIncreasing<T(!new)>(less: (T, T) -> bool, x: T, s: seq<T>)
    requires StrictOrder(less) && Increasing(less, s) && Comparable(less, x, s)
    ensures Increasing(less, Insert(less, x, s))
  {
    if s != [] && x != s[0] && !less(x, s[0]) {
      var rest := Insert(less, x, s[1..]);
      InsertIncreasing(less, x, s[1..]);
      InsertElements(less, x, s[1..]);
      assert less(s[0], x);
      forall j | 0 <= j < |rest| ensures less(s[0], rest[j]) {
        assert rest[j] in rest;
      }
    }
  }

  /** An increasing list is determined by its elements. */
  lemma {:induction false} IncreasingIsUnique<T(!new)>(less: (T, T) -> bool, s: seq<T>, t: seq<T>)
    requires StrictOrder(less) && Increasing(less, s) && Increasing(less, t)
    requires forall x :: x in s <==> x in t
    ensures s == t
  {
    assert t != [] ==> t[0] in t;
    if s == [] {
    } else {
      assert s[0] in t && t[0] in s;
      assert s[0] == t[0];
      forall x ensures x in s[1..] <==> x in t[1..] {
        TailElements(less, s, x);
        TailElements(less, t, x);
      }
      IncreasingIsUnique(less, s[1..], t[1..]);
      assert s == [s[0]] + s[1..] && t == [t[0]] + t[1..];
    }
  }

  lemma TailElements<T(!new)>(less: (T, T) -> bool, s: seq<T>, x: T)
    requires StrictOrder(less) && Increasing(less, s) && s != []
    ensures x in s[1..] <==> x in s && x != s[0]
  {
    assert s == [s[0]] + s[1..];
  }

  /** An increasing list has as many elements as their set. */
  lemma {:induction false} IncreasingLength<T(!new)>(less: (T, T) -> bool, s: seq<T>, elements: set<T>)
    requires StrictOrder(less) && Increasing(less, s)
    requires forall x :: x in s <==> x in elements
    ensures |s| == |elements|
  {
    if s == [] {
      assert elements == {};
    } else {
      forall x ensures x in s[1..] <==> x in elements - {s[0]} {
        TailElements(less, s, x);
      }
      IncreasingLength(less, s[1..], elements - {s[0]});
    }
  }

  // ------------------------------------------------------------------ strings

  /** Code-point order, which is also the byte order of UTF-8. */
  predicate Less(a: string, b: string) {
    b != [] && (a == [] || a[0] < b[0] || (a[0] == b[0] && Less(a[1..], b[1..])))
  }

  lemma {:induction false} LessIrreflexive(a: string)
    ensures !Less(a, a)
  {
    if a == [] {
    } else {
      LessIrreflexive(a[1..]);
    }
  }

  lemma {:induction false} LessTransitive(a: string, b: string, c: string)
    requires Less(a, b) && Less(b, c)
    ensures Less(a, c)
  {
    if a != [] && a[0] == b[0] == c[0] {
      LessTransitive(a[1..], b[1..], c[1..]);
    }
  }

  lemma {:induction false} LessTotal(a: string, b: string)
    ensures a == b || Less(a, b) || Less(b, a)
  {
    if a != [] && b != [] {
      LessTotal(a[1..], b[1..]);
      assert a == [a[0]] + a[1..] && b == [b[0]] + b[1..];
    }
  }

  lemma LessIsStrictOrder()
    ensures StrictOrder(Less)
  {
    forall a: string ensures !Less(a, a) {
      LessIrreflexive(a);
    }
    forall a: string, b: string, c: string | Less(a, b) && Less(b, c) ensures Less(a, c) {
      LessTransitive(a, b, c);
    }
  }

  /** The names of a set in order: the only increasing list of them. */
  method SortNames(names: set<string>) returns (sorted: seq<string>)
    ensures Increasing(Less, sorted)
    ensures forall n :: n in sorted <==> n in names
    ensures |sorted| == |names|
  {
    LessIsStrictOrder();
    sorted := [];
    var left := names;
    while left != {}
      invariant left <= names && Increasing(Less, sorted)
      invariant forall n :: n in sorted <==> n in names - left
    {
      var name :| name in left;
      forall y | y in sorted ensures y == name || Less(name, y) || Less(y, name) {
        LessTotal(name, y);
      }
      InsertIncreasing(Less, name, sorted);
      InsertElements(Less, name, sorted);
      left, sorted := left - {name}, Insert(Less, name, sorted);
    }
    IncreasingLength(Less, sorted, names);
  }
}
