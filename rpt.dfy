/** Section 1 of notebooks/data_preprocessing/y_declaration.py: riskless-principal
    (RPT) declaration. The table is sorted, every row looks at the rows directly
    above and below it, offsetting buy/sell neighbours of the same
    (bond, date, volume) group are flagged, a flag directly under another flag of
    the same group is cleared, and the remaining flagged rows are dropped. */
module Rpt {
  import opened Ordering
  import opened Sorting
  import opened Extraction

  /** The groupby key behind the grp column: bond, execution date and entered volume.
      ngroup() numbers these keys, so two rows get the same grp exactly when their
      keys are equal; the model uses the key itself as the group label. */
  datatype TradeGroup = TradeGroup(cusipId: string, execDate: int, volume: real)

  function GroupOf(t: CleanTrade): TradeGroup
  {
    TradeGroup(t.cusipId, t.execDate, t.volume)
  }

  predicate IsBuyOrSell(side: string)
  {
    side == "B" || side == "S"
  }

  /** Two rows form a buy/sell pattern: same group, both sides in {B, S}, sides differ. */
  predicate Offsetting(t: CleanTrade, u: CleanTrade)
  {
    GroupOf(t) == GroupOf(u) && IsBuyOrSell(t.side) && IsBuyOrSell(u.side) && t.side != u.side
  }

  /** cond_fwd: the next row (shift(-1)) offsets this one; the last row has no next row. */
  predicate ForwardPair(s: seq<CleanTrade>, i: int)
    requires 0 <= i < |s|
  {
    i + 1 < |s| && Offsetting(s[i], s[i + 1])
  }

  /** cond_back: the previous row (shift(1)) offsets this one; the first row has none. */
  predicate BackwardPair(s: seq<CleanTrade>, i: int)
    requires 0 <= i < |s|
  {
    i > 0 && Offsetting(s[i], s[i - 1])
  }

  /** is_rpt as first computed: cond_fwd | cond_back. */
  predicate Flagged(s: seq<CleanTrade>, i: int)
    requires 0 <= i < |s|
  {
    ForwardPair(s, i) || BackwardPair(s, i)
  }

  /** The mask of the suppression step, read entirely from the flags before suppression. */
  predicate Suppressed(s: seq<CleanTrade>, i: int)
    requires 0 <= i < |s|
  {
    i > 0 && Flagged(s, i) && Flagged(s, i - 1) && GroupOf(s[i]) == GroupOf(s[i - 1])
  }

  /** is_rpt after suppression. */
  predicate IsRpt(s: seq<CleanTrade>, i: int)
    requires 0 <= i < |s|
  {
    Flagged(s, i) && !Suppressed(s, i)
  }

  /** sort_values(['cusip_id','trd_exctn_dt','trd_exctn_tm','msg_seq_nb']), done in place. */
  method SortTrades(a: array<CleanTrade>)
    modifies a
    ensures a[..] == SortBy(old(a[..]), TradeOrder)
    ensures SortedBy(a[..], TradeOrder)
    ensures multiset(a[..]) == multiset(old(a[..]))
  {
    SortInPlace(a, TradeOrder);
  }

  /** Builds the is_rpt column: first the raw flags row by row, then the suppression
      pass, which overwrites flags in place while remembering the previous row's
      flag as it was before the pass (the mask is computed before the assignment). */
  method DeclareRpt(a: array<CleanTrade>) returns (isRpt: array<bool>)
    ensures fresh(isRpt) && isRpt.Length == a.Length
    ensures forall i :: 0 <= i < a.Length ==> isRpt[i] == IsRpt(a[..], i)
  {
    var n := a.Length;
    isRpt := new bool[n];
    for i := 0 to n
      invariant forall k :: 0 <= k < i ==> isRpt[k] == Flagged(a[..], k)
    {
      var fwd := i + 1 < n && Offsetting(a[i], a[i + 1]);
      var back := i > 0 && Offsetting(a[i], a[i - 1]);
      isRpt[i] := fwd || back;
    }
    var prevFlag := false;
    for i := 0 to n
      invariant forall k :: 0 <= k < i ==> isRpt[k] == IsRpt(a[..], k)
      invariant forall k :: i <= k < n ==> isRpt[k] == Flagged(a[..], k)
      invariant 0 < i ==> prevFlag == Flagged(a[..], i - 1)
    {
      var current := isRpt[i];
      if current && i > 0 && prevFlag && GroupOf(a[i]) == GroupOf(a[i - 1]) {
        isRpt[i] := false;
      }
      prevFlag := current;
    }
  }

  // ---------------------------------------------------------------- signs and the clean table

  /** epsilon: the map {'S': +1, 'B': -1} with every other side filled with 0. */
  function Epsilon(side: string): (e: int)
    ensures -1 <= e <= 1
    ensures e == 0 <==> !IsBuyOrSell(side)
    ensures e == 1 <==> side == "S"
    ensures e == -1 <==> side == "B"
  {
    if side == "S" then 1 else if side == "B" then -1 else 0
  }

  /** A row of df_rpt_clean: the trade with its direction sign. */
  datatype SignedTrade = SignedTrade(trade: CleanTrade, epsilon: int)

  function Sign(t: CleanTrade): SignedTrade
  {
    SignedTrade(t, Epsilon(t.side))
  }

  /** df.loc[~is_rpt] with epsilon assigned: the unflagged rows, in order. */
  function KeepUnflagged(s: seq<CleanTrade>, flags: seq<bool>): (r: seq<SignedTrade>)
    requires |flags| == |s|
    ensures |r| <= |s|
    ensures forall x :: x in r ==> x.epsilon == Epsilon(x.trade.side) && -1 <= x.epsilon <= 1
    decreases |s|
  {
    if s == [] then []
    else
      var rest := KeepUnflagged(s[..|s| - 1], flags[..|s| - 1]);
      if flags[|s| - 1] then rest else rest + [Sign(s[|s| - 1])]
  }

  function RptFlags(s: seq<CleanTrade>): (f: seq<bool>)
    ensures |f| == |s|
  {
    seq(|s|, i requires 0 <= i < |s| => IsRpt(s, i))
  }

  /** df_rpt_clean as a function of the sorted table. */
  function RptClean(s: seq<CleanTrade>): seq<SignedTrade>
  {
    KeepUnflagged(s, RptFlags(s))
  }

  /** Copies the rows whose flag is clear, assigning epsilon. */
  method DropRpt(a: array<CleanTrade>, isRpt: array<bool>) returns (clean: seq<SignedTrade>)
    requires isRpt.Length == a.Length
    ensures clean == KeepUnflagged(a[..], isRpt[..])
  {
    clean := [];
    for i := 0 to a.Length
      invariant clean == KeepUnflagged(a[..i], isRpt[..i])
    {
      assert a[..i + 1][..i] == a[..i] && isRpt[..i + 1][..i] == isRpt[..i];
      if !isRpt[i] {
        clean := clean + [Sign(a[i])];
      }
    }
    assert a[..a.Length] == a[..] && isRpt[..a.Length] == isRpt[..];
  }

  // ---------------------------------------------------------------- properties

  /** Exactly the unflagged rows survive: a signed row is in the clean table iff it
      is the signed form of some row whose flag is clear. */
  lemma {:induction false} KeepUnflaggedExactly(s: seq<CleanTrade>, flags: seq<bool>, x: SignedTrade)
    requires |flags| == |s|
    ensures x in KeepUnflagged(s, flags) <==> exists i :: 0 <= i < |s| && !flags[i] && x == Sign(s[i])
    decreases |s|
  {
    if s != [] {
      var n := |s| - 1;
      KeepUnflaggedExactly(s[..n], flags[..n], x);
      if exists i :: 0 <= i < |s| && !flags[i] && x == Sign(s[i]) {
        var i :| 0 <= i < |s| && !flags[i] && x == Sign(s[i]);
        if i < n {
          assert s[..n][i] == s[i] && flags[..n][i] == flags[i];
        }
      }
      if exists i :: 0 <= i < n && !flags[..n][i] && x == Sign(s[..n][i]) {
        var i :| 0 <= i < n && !flags[..n][i] && x == Sign(s[..n][i]);
        assert s[i] == s[..n][i];
      }
    }
  }

  function Trades(r: seq<SignedTrade>): (ts: seq<CleanTrade>)
    ensures |ts| == |r|
    ensures forall k :: 0 <= k < |r| ==> ts[k] == r[k].trade
  {
    seq(|r|, k requires 0 <= k < |r| => r[k].trade)
  }

  /** Dropping rows keeps the rest in their order: every pair of surviving rows keeps
      the relative order it had, so a sorted table stays sorted. */
  lemma {:induction false} KeepUnflaggedSorted(s: seq<CleanTrade>, flags: seq<bool>, key: CleanTrade -> SortKey)
    requires |flags| == |s|
    requires SortedBy(s, key)
    ensures SortedBy(Trades(KeepUnflagged(s, flags)), key)
    decreases |s|
  {
    if s != [] {
      var n := |s| - 1;
      var rest := KeepUnflagged(s[..n], flags[..n]);
      assert SortedBy(s[..n], key);
      KeepUnflaggedSorted(s[..n], flags[..n], key);
      if !flags[n] {
        var ts := Trades(rest + [Sign(s[n])]);
        forall p, q | 0 <= p < q < |ts|
          ensures !KeyLt(key(ts[q]), key(ts[p]))
        {
          if q == |ts| - 1 {
            KeepUnflaggedExactly(s[..n], flags[..n], rest[p]);
            var i :| 0 <= i < n && !flags[..n][i] && rest[p] == Sign(s[..n][i]);
            assert ts[p] == s[i];
          } else {
            assert ts[p] == Trades(rest)[p] && ts[q] == Trades(rest)[q];
          }
        }
      }
    }
  }

  /** A row is flagged only if its side is B or S and a table neighbour of the same
      group has the other of the two sides. So a row with any other side, or with
      no same-group row directly above or below it, is never flagged. */
  lemma FlagNeedsOffsettingNeighbour(s: seq<CleanTrade>, i: int)
    requires 0 <= i < |s|
    ensures Flagged(s, i) <==>
      IsBuyOrSell(s[i].side) &&
      ((i + 1 < |s| && GroupOf(s[i + 1]) == GroupOf(s[i]) && IsBuyOrSell(s[i + 1].side) && s[i + 1].side != s[i].side) ||
       (0 < i && GroupOf(s[i - 1]) == GroupOf(s[i]) && IsBuyOrSell(s[i - 1].side) && s[i - 1].side != s[i].side))
    ensures !IsBuyOrSell(s[i].side) ==> !IsRpt(s, i)
    ensures ((i == 0 || GroupOf(s[i - 1]) != GroupOf(s[i])) &&
             (i + 1 == |s| || GroupOf(s[i + 1]) != GroupOf(s[i]))) ==> !IsRpt(s, i)
  {
  }

  /** Within a maximal run of consecutive flagged rows of one group, only the first
      row of the run keeps its flag. */
  lemma RunKeepsOnlyItsHead(s: seq<CleanTrade>, lo: int, hi: int)
    requires 0 <= lo <= hi < |s|
    requires forall k :: lo <= k <= hi ==> Flagged(s, k)
    requires forall k :: lo < k <= hi ==> GroupOf(s[k]) == GroupOf(s[k - 1])
    requires lo == 0 || !Flagged(s, lo - 1) || GroupOf(s[lo - 1]) != GroupOf(s[lo])
    ensures forall k :: lo <= k <= hi ==> (IsRpt(s, k) <==> k == lo)
  {
  }

  /** The last row is never dropped: it has no row below, so it is flagged only
      through the row above, which is then flagged too and clears its flag. */
  lemma LastRowKept(s: seq<CleanTrade>)
    requires |s| > 0
    ensures !IsRpt(s, |s| - 1)
  {
    var n := |s| - 1;
    if Flagged(s, n) {
      assert BackwardPair(s, n);
      assert ForwardPair(s, n - 1);
    }
  }

  /** So df_rpt_clean is empty exactly when the sorted trade table is. */
  lemma {:induction false} RptCleanEmptyIff(s: seq<CleanTrade>)
    ensures RptClean(s) == [] <==> s == []
  {
    if s != [] {
      LastRowKept(s);
      KeepUnflaggedExactly(s, RptFlags(s), Sign(s[|s| - 1]));
    }
  }

  /** Two adjacent rows of the same group are never both dropped. */
  lemma NoAdjacentDrops(s: seq<CleanTrade>, i: int)
    requires 0 < i < |s|
    requires GroupOf(s[i]) == GroupOf(s[i - 1])
    ensures !(IsRpt(s, i) && IsRpt(s, i - 1))
  {
  }
}
