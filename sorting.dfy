/** The stable multi-column sort used by both scripts. pandas' sort_values on
    several columns goes through a lexicographic (stable) sort, so rows whose
    keys tie keep their input order; SortBy is that sort written as an
    insertion sort, and SortInPlace is the same algorithm on an array. */
module Sorting {
  import opened Ordering

  /** Rows appear in non-decreasing key order. */
  predicate SortedBy<T>(s: seq<T>, key: T -> SortKey)
  {
    forall i, j :: 0 <= i < j < |s| ==> !KeyLt(key(s[j]), key(s[i]))
  }

  /** Inserts x after every element whose key is not greater than x's: the stable insert. */
  function Insert<T>(xs: seq<T>, x: T, key: T -> SortKey): (r: seq<T>)
    ensures |r| == |xs| + 1
    decreases |xs|
  {
    if xs == [] || !KeyLt(key(x), key(xs[|xs| - 1])) then xs + [x]
    else
      var init := xs[..|xs| - 1];
      assert xs == init + [xs[|xs| - 1]];
      Insert(init, x, key) + [xs[|xs| - 1]]
  }

  /** Stable sort: the last row is inserted into the sorted remainder. */
  function SortBy<T>(s: seq<T>, key: T -> SortKey): (r: seq<T>)
    ensures |r| == |s|
    decreases |s|
  {
    if s == [] then []
    else
      assert s == s[..|s| - 1] + [s[|s| - 1]];
      Insert(SortBy(s[..|s| - 1], key), s[|s| - 1], key)
  }

  lemma {:induction false} InsertPermutes<T>(xs: seq<T>, x: T, key: T -> SortKey)
    ensures multiset(Insert(xs, x, key)) == multiset(xs) + multiset{x}
    decreases |xs|
  {
    if xs != [] && KeyLt(key(x), key(xs[|xs| - 1])) {
      var init := xs[..|xs| - 1];
      InsertPermutes(init, x, key);
      assert xs == init + [xs[|xs| - 1]];
    }
  }

  /** The sort neither loses nor invents rows. */
  lemma {:induction false} SortByPermutes<T>(s: seq<T>, key: T -> SortKey)
    ensures multiset(SortBy(s, key)) == multiset(s)
    decreases |s|
  {
    if s != [] {
      var init := s[..|s| - 1];
      SortByPermutes(init, key);
      InsertPermutes(SortBy(init, key), s[|s| - 1], key);
      assert s == init + [s[|s| - 1]];
    }
  }

  lemma {:induction false} InsertSorted<T>(xs: seq<T>, x: T, key: T -> SortKey)
    requires SortedBy(xs, key)
    ensures SortedBy(Insert(xs, x, key), key)
    decreases |xs|
  {
    if xs == [] || !KeyLt(key(x), key(xs[|xs| - 1])) {
      forall i | 0 <= i < |xs| - 1
        ensures !KeyLt(key(x), key(xs[i]))
      {
        KeyLeTransitive(key(xs[i]), key(xs[|xs| - 1]), key(x));
      }
    } else {
      var init, last := xs[..|xs| - 1], xs[|xs| - 1];
      InsertSorted(init, x, key);
      var r := Insert(init, x, key);
      InsertPermutes(init, x, key);
      forall i | 0 <= i < |r|
        ensures !KeyLt(key(last), key(r[i]))
      {
        assert r[i] in multiset(init) + multiset{x} by {
          assert r[i] in multiset(r);
        }
        if r[i] == x {
          KeyLtTransitive(key(last), key(x), key(last));
          KeyLtIrreflexive(key(last));
        } else {
          assert r[i] in init;
          var k :| 0 <= k < |init| && init[k] == r[i];
          assert xs[k] == r[i];
        }
      }
    }
  }

  lemma {:induction false} SortBySorted<T>(s: seq<T>, key: T -> SortKey)
    ensures SortedBy(SortBy(s, key), key)
    decreases |s|
  {
    if s != [] {
      SortBySorted(s[..|s| - 1], key);
      InsertSorted(SortBy(s[..|s| - 1], key), s[|s| - 1], key);
    }
  }

  /** Sorting a table that is already in order changes nothing: ties keep their places. */
  lemma {:induction false} SortByOfSorted<T>(s: seq<T>, key: T -> SortKey)
    requires SortedBy(s, key)
    ensures SortBy(s, key) == s
    decreases |s|
  {
    if s != [] {
      var init := s[..|s| - 1];
      assert SortedBy(init, key);
      SortByOfSorted(init, key);
      assert s == init + [s[|s| - 1]];
    }
  }

  /** No two rows share a value of the given key columns. */
  predicate KeysDistinct<T, K(==)>(s: seq<T>, key: T -> K)
  {
    forall i, j :: 0 <= i < j < |s| ==> key(s[i]) != key(s[j])
  }

  lemma {:induction false} InsertKeepsDistinct<T, K>(xs: seq<T>, x: T, key: T -> SortKey, k: T -> K)
    requires KeysDistinct(xs, k)
    requires forall i :: 0 <= i < |xs| ==> k(xs[i]) != k(x)
    ensures KeysDistinct(Insert(xs, x, key), k)
    decreases |xs|
  {
    if xs != [] && KeyLt(key(x), key(xs[|xs| - 1])) {
      var n := |xs| - 1;
      var init, last := xs[..n], xs[n];
      InsertKeepsDistinct(init, x, key, k);
      var r := Insert(init, x, key);
      InsertPermutes(init, x, key);
      forall i | 0 <= i < |r|
        ensures k(r[i]) != k(last)
      {
        assert r[i] in multiset(r);
        if r[i] != x {
          assert r[i] in init;
          var p :| 0 <= p < n && init[p] == r[i];
          assert xs[p] == r[i];
        }
      }
    }
  }

  /** Sorting neither creates nor merges rows, so distinct keys stay distinct. */
  lemma {:induction false} SortByKeepsDistinct<T, K>(s: seq<T>, key: T -> SortKey, k: T -> K)
    requires KeysDistinct(s, k)
    ensures KeysDistinct(SortBy(s, key), k)
    decreases |s|
  {
    if s != [] {
      var n := |s| - 1;
      var init := s[..n];
      assert KeysDistinct(init, k);
      SortByKeepsDistinct(init, key, k);
      var r := SortBy(init, key);
      SortByPermutes(init, key);
      forall i | 0 <= i < |r|
        ensures k(r[i]) != k(s[n])
      {
        assert r[i] in multiset(init);
        var p :| 0 <= p < n && init[p] == r[i];
        assert s[p] == r[i];
      }
      InsertKeepsDistinct(r, s[n], key, k);
    }
  }

  /** A row is in the sorted table exactly when it is in the input. */
  lemma SortByMembers<T>(s: seq<T>, key: T -> SortKey, x: T)
    ensures x in SortBy(s, key) <==> x in s
  {
    SortByPermutes(s, key);
    assert x in SortBy(s, key) <==> x in multiset(SortBy(s, key));
  }

  /** One insertion step: the sorted prefix a[..i] absorbs a[i]; the rest is untouched. */
  method InsertInPlace<T>(a: array<T>, i: nat, key: T -> SortKey)
    requires i < a.Length
    modifies a
    ensures a[..i + 1] == Insert(old(a[..i]), old(a[i]), key)
    ensures a[i + 1..] == old(a[i + 1..])
  {
    var x := a[i];
    ghost var sorted := a[..i];
    ghost var rest := a[i + 1..];
    var j := i;
    while j > 0 && KeyLt(key(x), key(a[j - 1]))
      invariant 0 <= j <= i
      invariant a[..j] == sorted[..j]
      invariant a[j + 1..i + 1] == sorted[j..i]
      invariant a[i + 1..] == rest
      invariant Insert(sorted, x, key) == Insert(sorted[..j], x, key) + sorted[j..i]
    {
      assert sorted[..j] == sorted[..j - 1] + [sorted[j - 1]];
      a[j] := a[j - 1];
      j := j - 1;
    }
    a[j] := x;
    assert a[..i + 1] == sorted[..j] + [x] + sorted[j..i];
  }

  /** Insertion sort in place; the result is exactly the stable sort of the input. */
  method SortInPlace<T>(a: array<T>, key: T -> SortKey)
    modifies a
    ensures a[..] == SortBy(old(a[..]), key)
    ensures SortedBy(a[..], key)
    ensures multiset(a[..]) == multiset(old(a[..]))
  {
    ghost var input := a[..];
    var i := 0;
    while i < a.Length
      invariant 0 <= i <= a.Length
      invariant a[..i] == SortBy(input[..i], key)
      invariant a[i..] == input[i..]
    {
      InsertInPlace(a, i, key);
      assert input[..i + 1] == input[..i] + [input[i]];
      i := i + 1;
    }
    assert input[..a.Length] == input;
    SortBySorted(input, key);
    SortByPermutes(input, key);
  }
}
