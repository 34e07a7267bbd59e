/** Section 2 of notebooks/data_preprocessing/y_declaration.py: effective spreads.
    The RPT-clean table is ordered by (bond, datetime); each row is compared with
    the previous row of the same bond, and a row whose predecessor has the
    opposite sign and lies at most five minutes (and strictly some time) earlier
    becomes a spread pair with a midprice and a spread in basis points. */
module Spread {
  import opened Tables
  import opened Ordering
  import opened Sorting
  import opened Calendar
  import opened Extraction
  import opened Rpt

  /** The datetime column: execution date and time as one instant, in seconds. */
  function Instant(t: SignedTrade): int
  {
    Timestamp(t.trade.execDate, t.trade.execTime)
  }

  /** sort_values(['cusip_id', 'datetime']). */
  function BondTimeOrder(t: SignedTrade): SortKey
  {
    [Text(t.trade.cusipId), Num(Instant(t))]
  }

  /** dt_min <= 5, in seconds: (a - b) / 60 <= 5 exactly when a - b <= 300 for whole seconds. */
  const MaxGapSeconds: int := 300

  /** mask_valid at row i: a previous row of the same bond, epsilon * prev_epsilon == -1,
      and 0 < dt_min <= 5. The first row of the table, and the first row of each
      bond, has no previous value (NaN), which fails the test. */
  predicate PairAt(s: seq<SignedTrade>, i: int)
    requires 0 <= i < |s|
  {
    && 0 < i
    && s[i - 1].trade.cusipId == s[i].trade.cusipId
    && s[i].epsilon * s[i - 1].epsilon == -1
    && 0 < Instant(s[i]) - Instant(s[i - 1]) <= MaxGapSeconds
  }

  function Abs(x: real): real
  {
    if x < 0.0 then -x else x
  }

  function Midprice(p: real, q: real): real
  {
    (p + q) / 2.0
  }

  /** spread_bps = 10000 * |p - p_prev| / midprice. */
  function SpreadBps(p: real, q: real): real
    requires p + q > 0.0
  {
    10000.0 * Abs(p - q) / Midprice(p, q)
  }

  /** A row of df_spread_pairs: cusip_id, trd_exctn_dt, datetime, midprice, spread_bps. */
  datatype SpreadPair = SpreadPair(cusipId: string, execDate: int, instant: int, midprice: real, spreadBps: real)

  predicate PricesPositive(s: seq<SignedTrade>)
  {
    forall i :: 0 <= i < |s| ==> s[i].trade.price > 0.0
  }

  /** The pair recorded at a valid row: the row's own bond, date and instant, with
      midprice and spread computed from its price and the previous row's price. */
  function PairRow(s: seq<SignedTrade>, i: int): SpreadPair
    requires 0 < i < |s| && PricesPositive(s)
  {
    var p, q := s[i].trade.price, s[i - 1].trade.price;
    SpreadPair(s[i].trade.cusipId, s[i].trade.execDate, Instant(s[i]), Midprice(p, q), SpreadBps(p, q))
  }

  /** df_spread.loc[mask_valid]: one pair per valid row, in table order. */
  function Pairs(s: seq<SignedTrade>): (r: seq<SpreadPair>)
    requires PricesPositive(s)
    ensures |r| <= |s|
    decreases |s|
  {
    if s == [] then []
    else
      var n := |s| - 1;
      var rest := Pairs(s[..n]);
      if PairAt(s, n) then rest + [PairRow(s, n)] else rest
  }

  /** Computes prev_* by looking one row back, the validity mask, and the pair columns. */
  method MatchPairs(a: array<SignedTrade>) returns (pairs: seq<SpreadPair>)
    requires PricesPositive(a[..])
    ensures pairs == Pairs(a[..])
  {
    pairs := [];
    for i := 0 to a.Length
      invariant pairs == Pairs(a[..i])
    {
      assert a[..i + 1][..i] == a[..i];
      if i > 0 && a[i - 1].trade.cusipId == a[i].trade.cusipId {
        var gap := Instant(a[i]) - Instant(a[i - 1]);
        if a[i].epsilon * a[i - 1].epsilon == -1 && 0 < gap <= MaxGapSeconds {
          var p, q := a[i].trade.price, a[i - 1].trade.price;
          var mid := (p + q) / 2.0;
          var spread := 10000.0 * Abs(p - q) / mid;
          pairs := pairs + [SpreadPair(a[i].trade.cusipId, a[i].trade.execDate, Instant(a[i]), mid, spread)];
        }
      }
    }
    assert a[..a.Length] == a[..];
  }

  // ---------------------------------------------------------------- properties of one pair

  /** A valid row is never the first of its bond, both it and its predecessor are
      buy/sell rows (epsilon 0 never pairs), the signs are exactly opposite, and the
      gap is more than 0 and at most 5 minutes. */
  lemma PairAtMeans(s: seq<SignedTrade>, i: int)
    requires 0 <= i < |s|
    requires forall x :: x in s ==> x.epsilon == Epsilon(x.trade.side)
    ensures PairAt(s, i) ==> 0 < i && s[i - 1].trade.cusipId == s[i].trade.cusipId
    ensures PairAt(s, i) ==> IsBuyOrSell(s[i].trade.side) && IsBuyOrSell(s[i - 1].trade.side)
    ensures PairAt(s, i) ==> s[i].trade.side != s[i - 1].trade.side
    ensures PairAt(s, i) ==> 0 < Instant(s[i]) - Instant(s[i - 1]) <= 300
    ensures s[i].epsilon == 0 ==> !PairAt(s, i)
    ensures (i == 0 || s[i - 1].trade.cusipId != s[i].trade.cusipId) ==> !PairAt(s, i)
  {
    if PairAt(s, i) {
      var e, f := s[i].epsilon, s[i - 1].epsilon;
      assert s[i] in s && s[i - 1] in s;
      assert e * f == -1;
      assert e != 0 && f != 0;
      assert e == -f by {
        if e == 1 || e == -1 {
        }
      }
    }
  }

  /** The midprice lies between the two prices. */
  lemma MidpriceBetween(p: real, q: real)
    ensures (if p <= q then p else q) <= Midprice(p, q) <= (if p <= q then q else p)
  {
  }

  /** For positive prices the spread is non-negative, zero exactly when the two prices
      are equal, and below 20000 bps (the price gap is less than the price sum). */
  lemma SpreadBpsRange(p: real, q: real)
    requires p > 0.0 && q > 0.0
    ensures SpreadBps(p, q) >= 0.0
    ensures SpreadBps(p, q) == 0.0 <==> p == q
    ensures SpreadBps(p, q) < 20000.0
  {
    var m := Midprice(p, q);
    assert Abs(p - q) < 2.0 * m;
    QuotientBelow(10000.0 * Abs(p - q), m, 20000.0);
  }

  lemma QuotientBelow(x: real, m: real, c: real)
    requires m > 0.0 && x < c * m
    ensures x / m < c
  {
    var d := x / m;
    assert d * m == x;
    assert (c - d) * m > 0.0;
  }

  // ---------------------------------------------------------------- properties of the pair table

  lemma {:induction false} PairAtPrefix(s: seq<SignedTrade>, n: int, i: int)
    requires 0 <= i < n <= |s|
    ensures PairAt(s[..n], i) <==> PairAt(s, i)
  {
  }

  /** Every pair comes from a valid row, and every valid row gives its pair. */
  lemma {:induction false} PairsExactly(s: seq<SignedTrade>, x: SpreadPair)
    requires PricesPositive(s)
    ensures x in Pairs(s) <==> exists i :: 0 <= i < |s| && PairAt(s, i) && x == PairRow(s, i)
    decreases |s|
  {
    if s != [] {
      var n := |s| - 1;
      assert PricesPositive(s[..n]);
      PairsExactly(s[..n], x);
      if exists i :: 0 <= i < n && PairAt(s[..n], i) && x == PairRow(s[..n], i) {
        var i :| 0 <= i < n && PairAt(s[..n], i) && x == PairRow(s[..n], i);
        PairAtPrefix(s, n, i);
        assert PairRow(s[..n], i) == PairRow(s, i);
      }
      if exists i :: 0 <= i < |s| && PairAt(s, i) && x == PairRow(s, i) {
        var i :| 0 <= i < |s| && PairAt(s, i) && x == PairRow(s, i);
        if i < n {
          PairAtPrefix(s, n, i);
          assert PairRow(s[..n], i) == PairRow(s, i);
        }
      }
    }
  }

  /** Every recorded pair has a non-negative spread below 20000 bps, a midprice between
      the two prices, and lies on its trade date. */
  lemma PairsWellFormed(s: seq<SignedTrade>, x: SpreadPair)
    requires PricesPositive(s)
    requires x in Pairs(s)
    ensures 0.0 <= x.spreadBps < 20000.0
    ensures x.midprice > 0.0
    ensures x.instant / SecondsPerDay == x.execDate
  {
    PairsExactly(s, x);
    var i :| 0 <= i < |s| && PairAt(s, i) && x == PairRow(s, i);
    SpreadBpsRange(s[i].trade.price, s[i - 1].trade.price);
    TimestampOrder(s[i].trade.execDate, s[i].trade.execTime, s[i].trade.execDate, s[i].trade.execTime);
  }

  // ---------------------------------------------------------------- the groupby shift and the re-sort

  /** groupby('cusip_id').shift(1) at row i: the nearest earlier row of the same bond. */
  function PrevOfBond(s: seq<SignedTrade>, bond: string, n: int): (r: Option<int>)
    requires 0 <= n <= |s|
    ensures r.Some? ==> 0 <= r.value < n && s[r.value].trade.cusipId == bond
    ensures r.Some? ==> forall j :: r.value < j < n ==> s[j].trade.cusipId != bond
    ensures r.None? ==> forall j :: 0 <= j < n ==> s[j].trade.cusipId != bond
    decreases n
  {
    if n == 0 then None
    else if s[n - 1].trade.cusipId == bond then Some(n - 1)
    else PrevOfBond(s, bond, n - 1)
  }

  /** In a table ordered by bond first, rows of one bond are contiguous. */
  lemma BondRowsContiguous(s: seq<SignedTrade>, j: int, k: int, i: int)
    requires SortedBy(s, BondTimeOrder)
    requires 0 <= j < k < i < |s|
    requires s[j].trade.cusipId == s[i].trade.cusipId
    ensures s[k].trade.cusipId == s[i].trade.cusipId
  {
    var c, d := s[i].trade.cusipId, s[k].trade.cusipId;
    TextLtTotal(c, d);
    assert !KeyLt(BondTimeOrder(s[k]), BondTimeOrder(s[j]));
    assert !KeyLt(BondTimeOrder(s[i]), BondTimeOrder(s[k]));
  }

  /** Because the table is sorted by bond, the per-bond previous row is simply the
      previous row when it has the same bond, and missing otherwise: the one-row-back
      comparison of MatchPairs is the groupby shift. */
  lemma GroupShiftIsPreviousRow(s: seq<SignedTrade>, i: int)
    requires SortedBy(s, BondTimeOrder)
    requires 0 <= i < |s|
    ensures PrevOfBond(s, s[i].trade.cusipId, i) ==
              if 0 < i && s[i - 1].trade.cusipId == s[i].trade.cusipId then Some(i - 1) else None
  {
    var c := s[i].trade.cusipId;
    if 0 < i && s[i - 1].trade.cusipId != c {
      forall j | 0 <= j < i - 1
        ensures s[j].trade.cusipId != c
      {
        if s[j].trade.cusipId == c {
          BondRowsContiguous(s, j, i - 1, i);
        }
      }
    }
  }

  /** Between two rows of the same bond, (date, time) order decides TradeOrder before
      the sequence number does. */
  lemma TradeOrderByInstant(t: CleanTrade, u: CleanTrade)
    requires t.cusipId == u.cusipId
    requires t.execDate < u.execDate || (t.execDate == u.execDate && t.execTime < u.execTime)
    ensures KeyLt(TradeOrder(t), TradeOrder(u))
  {
    var a, b := TradeOrder(t), TradeOrder(u);
    assert a[1..] == [Num(t.execDate), Num(t.execTime), Num(t.msgSeqNb)];
    assert b[1..] == [Num(u.execDate), Num(u.execTime), Num(u.msgSeqNb)];
    assert a[1..][1..] == [Num(t.execTime), Num(t.msgSeqNb)];
    assert b[1..][1..] == [Num(u.execTime), Num(u.msgSeqNb)];
    assert KeyLt(a[1..], b[1..]);
  }

  /** Rows in (bond, date, time, sequence) order are already in (bond, datetime) order. */
  lemma TradeOrderGivesBondTimeOrder(r: seq<SignedTrade>)
    requires SortedBy(Trades(r), TradeOrder)
    ensures SortedBy(r, BondTimeOrder)
  {
    forall i, j | 0 <= i < j < |r|
      ensures !KeyLt(BondTimeOrder(r[j]), BondTimeOrder(r[i]))
    {
      var t, u := r[i].trade, r[j].trade;
      assert Trades(r)[i] == t && Trades(r)[j] == u;
      assert !KeyLt(TradeOrder(u), TradeOrder(t));
      TimestampOrder(u.execDate, u.execTime, t.execDate, t.execTime);
      var a, b := BondTimeOrder(r[j]), BondTimeOrder(r[i]);
      if u.cusipId == t.cusipId {
        if u.execDate < t.execDate || (u.execDate == t.execDate && u.execTime < t.execTime) {
          TradeOrderByInstant(u, t);
        }
        assert a[1..] == [Num(Instant(r[j]))] && b[1..] == [Num(Instant(r[i]))];
        assert !KeyLt(a[1..], b[1..]);
      } else {
        assert TradeOrder(u)[0] == a[0] && TradeOrder(t)[0] == b[0];
      }
    }
  }

  /** The second sort_values, by (cusip_id, datetime), leaves the RPT-clean table
      exactly as it was: its input is already in that order and the sort is stable. */
  lemma ResortIsNoOp(s: seq<CleanTrade>)
    requires SortedBy(s, TradeOrder)
    ensures SortBy(RptClean(s), BondTimeOrder) == RptClean(s)
  {
    KeepUnflaggedSorted(s, RptFlags(s), TradeOrder);
    TradeOrderGivesBondTimeOrder(RptClean(s));
    SortByOfSorted(RptClean(s), BondTimeOrder);
  }
}
