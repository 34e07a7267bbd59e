/** Lexicographic sort keys shared by every ORDER BY and sort_values of the pipeline.
    A key is a sequence of atoms (a text column or a numeric column) compared
    column by column, as a multi-column sort compares rows. Text compares by
    code point, which is how Python orders strings. */
module Ordering {

  datatype Atom = Num(n: int) | Text(s: string)

  type SortKey = seq<Atom>

  /** Strict lexicographic order on strings, by code point; a proper prefix is smaller. */
  predicate TextLt(a: string, b: string)
    decreases |a|
  {
    if |a| == 0 then |b| > 0
    else if |b| == 0 then false
    else a[0] < b[0] || (a[0] == b[0] && TextLt(a[1..], b[1..]))
  }

  /** Atoms of the same kind compare by value; the pipeline never compares a
      number with a text, but the order is made total by putting numbers first. */
  predicate AtomLt(x: Atom, y: Atom)
  {
    match (x, y)
    case (Num(m), Num(n)) => m < n
    case (Text(s), Text(t)) => TextLt(s, t)
    case (Num(_), Text(_)) => true
    case (Text(_), Num(_)) => false
  }

  /** Strict lexicographic order on keys: the first differing column decides. */
  predicate KeyLt(a: SortKey, b: SortKey)
    decreases |a|
  {
    if |a| == 0 then |b| > 0
    else if |b| == 0 then false
    else AtomLt(a[0], b[0]) || (a[0] == b[0] && KeyLt(a[1..], b[1..]))
  }

  lemma {:induction false} TextLtIrreflexive(a: string)
    ensures !TextLt(a, a)
    decreases |a|
  {
    if |a| > 0 {
      TextLtIrreflexive(a[1..]);
    }
  }

  lemma {:induction false} TextLtTransitive(a: string, b: string, c: string)
    ensures TextLt(a, b) && TextLt(b, c) ==> TextLt(a, c)
    decreases |a|
  {
    if |a| > 0 && |b| > 0 && |c| > 0 && a[0] == b[0] == c[0] {
      TextLtTransitive(a[1..], b[1..], c[1..]);
    }
  }

  lemma {:induction false} TextLtTotal(a: string, b: string)
    ensures a == b || TextLt(a, b) || TextLt(b, a)
    decreases |a|
  {
    if |a| > 0 && |b| > 0 && a[0] == b[0] {
      TextLtTotal(a[1..], b[1..]);
      if a[1..] == b[1..] {
        assert a == [a[0]] + a[1..] && b == [b[0]] + b[1..];
      }
    }
  }

  lemma AtomLtIrreflexive(x: Atom)
    ensures !AtomLt(x, x)
  {
    if x.Text? {
      TextLtIrreflexive(x.s);
    }
  }

  lemma AtomLtTransitive(x: Atom, y: Atom, z: Atom)
    ensures AtomLt(x, y) && AtomLt(y, z) ==> AtomLt(x, z)
  {
    if x.Text? && y.Text? && z.Text? {
      TextLtTransitive(x.s, y.s, z.s);
    }
  }

  lemma AtomLtTotal(x: Atom, y: Atom)
    ensures x == y || AtomLt(x, y) || AtomLt(y, x)
  {
    if x.Text? && y.Text? {
      TextLtTotal(x.s, y.s);
    }
  }

  lemma {:induction false} KeyLtIrreflexive(a: SortKey)
    ensures !KeyLt(a, a)
    decreases |a|
  {
    if |a| > 0 {
      AtomLtIrreflexive(a[0]);
      KeyLtIrreflexive(a[1..]);
    }
  }

  lemma {:induction false} KeyLtTransitive(a: SortKey, b: SortKey, c: SortKey)
    ensures KeyLt(a, b) && KeyLt(b, c) ==> KeyLt(a, c)
    decreases |a|
  {
    if |a| > 0 && |b| > 0 && |c| > 0 {
      KeyLtTransitive(a[1..], b[1..], c[1..]);
      AtomLtTransitive(a[0], b[0], c[0]);
    }
  }

  lemma {:induction false} KeyLtTotal(a: SortKey, b: SortKey)
    ensures a == b || KeyLt(a, b) || KeyLt(b, a)
    decreases |a|
  {
    if |a| > 0 && |b| > 0 {
      AtomLtTotal(a[0], b[0]);
      if a[0] == b[0] {
        KeyLtTotal(a[1..], b[1..]);
        if a[1..] == b[1..] {
          assert a == [a[0]] + a[1..] && b == [b[0]] + b[1..];
        }
      }
    }
  }

  /** "Not after": the order a sorted table keeps between an earlier and a later row. */
  lemma KeyLeTransitive(a: SortKey, b: SortKey, c: SortKey)
    requires !KeyLt(b, a) && !KeyLt(c, b)
    ensures !KeyLt(c, a)
  {
    KeyLtTotal(a, b);
    KeyLtTransitive(c, a, b);
  }
}
