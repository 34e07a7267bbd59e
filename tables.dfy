/** Relational building blocks: nullable columns, WHERE filters over a bag of
    rows, and the sum and mean that pandas' groupby().mean() computes. */
module Tables {

  /** A nullable column: None is SQL NULL (or a pandas NaN). */
  datatype Option<+T> = None | Some(value: T)

  /** COALESCE(a, b): the first non-null of two columns. */
  function Coalesce<T>(a: Option<T>, b: Option<T>): (r: Option<T>)
    ensures r.Some? <==> a.Some? || b.Some?
    ensures a.Some? ==> r == a
    ensures a.None? ==> r == b
  {
    if a.Some? then a else b
  }

  /** SELECT * FROM s WHERE p: keeps the rows satisfying p, in their order. */
  function Where<T(!new)>(s: seq<T>, p: T -> bool): (r: seq<T>)
    ensures |r| <= |s|
    ensures forall x :: x in r <==> x in s && p(x)
    decreases |s|
  {
    if s == [] then []
    else if p(s[|s| - 1]) then Where(s[..|s| - 1], p) + [s[|s| - 1]]
    else Where(s[..|s| - 1], p)
  }

  /** WHERE keeps every copy of a satisfying row and no copy of any other row. */
  lemma {:induction false} WhereCounts<T(!new)>(s: seq<T>, p: T -> bool, x: T)
    ensures multiset(Where(s, p))[x] == if p(x) then multiset(s)[x] else 0
    decreases |s|
  {
    if s != [] {
      var init := s[..|s| - 1];
      WhereCounts(init, p, x);
      assert s == init + [s[|s| - 1]];
    }
  }

  /** Filtering twice is filtering once by the conjunction: a chain of CTE steps
      narrows to exactly the rows passing every step. */
  lemma {:induction false} WhereWhere<T(!new)>(s: seq<T>, p: T -> bool, q: T -> bool)
    ensures Where(Where(s, p), q) == Where(s, x => p(x) && q(x))
    decreases |s|
  {
    if s != [] {
      WhereWhere(s[..|s| - 1], p, q);
    }
  }

  /** Two conditions that agree on every row select the same rows. */
  lemma {:induction false} WhereAgree<T(!new)>(s: seq<T>, p: T -> bool, q: T -> bool)
    requires forall x :: p(x) == q(x)
    ensures Where(s, p) == Where(s, q)
    decreases |s|
  {
    if s != [] {
      WhereAgree(s[..|s| - 1], p, q);
    }
  }

  /** A WHERE over a WHERE is one WHERE of any condition equivalent to the conjunction. */
  lemma WhereThen<T(!new)>(s: seq<T>, p: T -> bool, q: T -> bool, both: T -> bool)
    requires forall x :: both(x) == (p(x) && q(x))
    ensures Where(Where(s, p), q) == Where(s, both)
  {
    WhereWhere(s, p, q);
    WhereAgree(s, x => p(x) && q(x), both);
  }

  /** A filter no row passes yields the empty table. */
  lemma {:induction false} WhereNone<T(!new)>(s: seq<T>, p: T -> bool)
    requires forall i :: 0 <= i < |s| ==> !p(s[i])
    ensures Where(s, p) == []
    decreases |s|
  {
    if s != [] {
      WhereNone(s[..|s| - 1], p);
    }
  }

  /** The distinct group keys of a groupby, each once, in order of first appearance. */
  function GroupKeys<T(!new), K(==,!new)>(s: seq<T>, key: T -> K): (r: seq<K>)
    ensures forall i, j :: 0 <= i < j < |r| ==> r[i] != r[j]
    ensures forall k :: k in r <==> exists x :: x in s && key(x) == k
    decreases |s|
  {
    if s == [] then []
    else
      var init := s[..|s| - 1];
      var rest := GroupKeys(init, key);
      assert forall x :: x in s <==> x in init || x == s[|s| - 1];
      if key(s[|s| - 1]) in rest then rest else rest + [key(s[|s| - 1])]
  }

  /** One numeric column of a table, row by row. */
  function Column<T>(s: seq<T>, f: T -> real): (r: seq<real>)
    ensures |r| == |s|
    ensures forall i :: 0 <= i < |s| ==> r[i] == f(s[i])
  {
    seq(|s|, i requires 0 <= i < |s| => f(s[i]))
  }

  function Sum(xs: seq<real>): real
    decreases |xs|
  {
    if xs == [] then 0.0 else Sum(xs[..|xs| - 1]) + xs[|xs| - 1]
  }

  /** The arithmetic mean of a non-empty column. */
  function Mean(xs: seq<real>): real
    requires |xs| > 0
  {
    Sum(xs) / (|xs| as real)
  }

  lemma {:induction false} SumBounds(xs: seq<real>, lo: real, hi: real)
    requires forall i :: 0 <= i < |xs| ==> lo <= xs[i] <= hi
    ensures (|xs| as real) * lo <= Sum(xs) <= (|xs| as real) * hi
    decreases |xs|
  {
    if xs != [] {
      SumBounds(xs[..|xs| - 1], lo, hi);
    }
  }

  /** A mean lies between any lower and upper bound of its values. */
  lemma MeanBounds(xs: seq<real>, lo: real, hi: real)
    requires |xs| > 0
    requires forall i :: 0 <= i < |xs| ==> lo <= xs[i] <= hi
    ensures lo <= Mean(xs) <= hi
  {
    SumBounds(xs, lo, hi);
    var n := |xs| as real;
    assert n * lo <= Sum(xs) <= n * hi;
    assert Mean(xs) * n == Sum(xs);
  }

  lemma {:induction false} SumBelow(xs: seq<real>, hi: real)
    requires |xs| > 0
    requires forall i :: 0 <= i < |xs| ==> xs[i] < hi
    ensures Sum(xs) < (|xs| as real) * hi
    decreases |xs|
  {
    var n := |xs| - 1;
    if n > 0 {
      SumBelow(xs[..n], hi);
    }
  }

  /** A mean of values all below a bound is below it. */
  lemma MeanBelow(xs: seq<real>, hi: real)
    requires |xs| > 0
    requires forall i :: 0 <= i < |xs| ==> xs[i] < hi
    ensures Mean(xs) < hi
  {
    SumBelow(xs, hi);
    var n := |xs| as real;
    assert Mean(xs) * n == Sum(xs);
    assert (hi - Mean(xs)) * n > 0.0;
  }

  lemma {:induction false} SumNonNegative(xs: seq<real>)
    requires forall i :: 0 <= i < |xs| ==> 0.0 <= xs[i]
    ensures 0.0 <= Sum(xs)
    decreases |xs|
  {
    if xs != [] {
      SumNonNegative(xs[..|xs| - 1]);
    }
  }

  /** The mean of non-negative values is non-negative. */
  lemma MeanNonNegative(xs: seq<real>)
    requires |xs| > 0
    requires forall i :: 0 <= i < |xs| ==> 0.0 <= xs[i]
    ensures 0.0 <= Mean(xs)
  {
    SumNonNegative(xs);
  }
}
