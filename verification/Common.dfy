/** Optional values and fallible results. */
module Wrappers {

  datatype Option<+T> = None | Some(value: T)

  datatype Result<+T, +E> = Ok(value: T) | Err(error: E)
}

/** Powers of two. */
module Powers {

  function Pow2(n: nat): (p: nat)
    ensures p >= 1
  {
    if n == 0 then 1 else 2 * Pow2(n - 1)
  }
}

/** Sequence operations the models share. */
module Sequences {
  import opened Wrappers

  /** The elements of `s` whose flag in `keep` is set, in order. */
  function Select<T>(s: seq<T>, keep: seq<bool>): seq<T>
    requires |s| == |keep|
  {
    if s == [] then []
    else if keep[0] then [s[0]] + Select(s[1..], keep[1..])
    else Select(s[1..], keep[1..])
  }

  function Negate(keep: seq<bool>): (r: seq<bool>)
    ensures |r| == |keep|
  {
    seq(|keep|, i requires 0 <= i < |keep| => !keep[i])
  }

  /** The last `n` elements of `s`, or all of them when there are fewer. */
  function Suffix<T>(s: seq<T>, n: nat): seq<T> {
    if |s| <= n then s else s[|s| - n..]
  }

  lemma TakeNext<T>(s: seq<T>, i: nat)
    requires i < |s|
    ensures s[..i + 1] == s[..i] + [s[i]]
  {
  }

  ghost predicate Distinct<T>(s: seq<T>) {
    forall i, j | 0 <= i < j < |s| :: s[i] != s[j]
  }

  /** The values present in a column of optional values, with multiplicity. */
  function Present<T>(column: seq<Option<T>>): multiset<T> {
    if column == [] then multiset{} else One(column[0]) + Present(column[1..])
  }

  function One<T>(o: Option<T>): multiset<T> {
    if o.Some? then multiset{o.value} else multiset{}
  }

  lemma {:induction false} PresentConcat<T>(a: seq<Option<T>>, b: seq<Option<T>>)
    ensures Present(a + b) == Present(a) + Present(b)
  {
    if a == [] {
      assert a + b == b;
    } else {
      assert (a + b)[1..] == a[1..] + b;
      PresentConcat(a[1..], b);
    }
  }

  lemma PresentUpdate<T>(a: seq<Option<T>>, i: nat, o: Option<T>)
    requires i < |a|
    ensures Present(a[i := o]) + One(a[i]) == Present(a) + One(o)
  {
    PresentSplit(a, i);
    PresentSplit(a[i := o], i);
    assert a[i := o][..i] == a[..i] && a[i := o][i + 1..] == a[i + 1..];
  }

  lemma PresentCons<T>(o: Option<T>, a: seq<Option<T>>)
    ensures Present([o] + a) == One(o) + Present(a)
  {
    assert ([o] + a)[1..] == a;
  }

  lemma PresentSplit<T>(a: seq<Option<T>>, i: nat)
    requires i < |a|
    ensures Present(a) == Present(a[..i]) + One(a[i]) + Present(a[i + 1..])
  {
    hide Present, One;
    PresentCons(a[i], a[i + 1..]);
    PresentConcat(a[..i], [a[i]] + a[i + 1..]);
    assert a == a[..i] + ([a[i]] + a[i + 1..]);
  }

  lemma {:induction false} PresentSelect<T>(a: seq<Option<T>>, keep: seq<bool>)
    requires |a| == |keep|
    ensures Present(a) == Present(Select(a, keep)) + Present(Select(a, Negate(keep)))
  {
    if a == [] {
    } else {
      assert Negate(keep)[1..] == Negate(keep[1..]);
      PresentSelect(a[1..], keep[1..]);
      PresentCons(a[0], Select(a[1..], keep[1..]));
      PresentCons(a[0], Select(a[1..], Negate(keep[1..])));
    }
  }
}
