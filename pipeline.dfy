/** notebooks/data_preprocessing/y_declaration.py end to end: the extractor's trades
    are sorted and RPT-declared in place, the clean table is copied and re-sorted
    by (bond, datetime), the spread pairs are matched, and the daily and weekly
    tables are aggregated from the pairs. */
module Pipeline {
  import opened Tables
  import opened Ordering
  import opened Sorting
  import opened Extraction
  import opened Rpt
  import opened Spread
  import opened Weekly

  /** Every trade has a positive price, so every midprice is positive. */
  predicate PositivePrices(s: seq<CleanTrade>)
  {
    forall i :: 0 <= i < |s| ==> s[i].price > 0.0
  }

  /** The table the pair matcher reads: the RPT-clean rows of the sorted trades,
      re-sorted by (cusip_id, datetime). */
  function SpreadInput(trades: seq<CleanTrade>): seq<SignedTrade>
  {
    SortBy(RptClean(SortBy(trades, TradeOrder)), BondTimeOrder)
  }

  /** Sorting, dropping RPT rows and re-sorting only move and remove rows, so every
      row of the pair matcher's input still has a positive price. */
  lemma SpreadInputPricesPositive(trades: seq<CleanTrade>)
    requires PositivePrices(trades)
    ensures PricesPositive(SpreadInput(trades))
  {
    var sorted := SortBy(trades, TradeOrder);
    var clean := RptClean(sorted);
    var input := SpreadInput(trades);
    SortByPermutes(trades, TradeOrder);
    SortByPermutes(clean, BondTimeOrder);
    forall i | 0 <= i < |input|
      ensures input[i].trade.price > 0.0
    {
      assert input[i] in multiset(clean);
      KeepUnflaggedExactly(sorted, RptFlags(sorted), input[i]);
      var j :| 0 <= j < |sorted| && !RptFlags(sorted)[j] && input[i] == Sign(sorted[j]);
      assert sorted[j] in multiset(trades);
    }
  }

  /** df_spread_pairs as a function of the extractor's trades. */
  function SpreadPairs(trades: seq<CleanTrade>): seq<SpreadPair>
    requires PositivePrices(trades)
  {
    SpreadInputPricesPositive(trades);
    Pairs(SpreadInput(trades))
  }

  /** Because the second sort leaves the clean table as it is, the pairs can be read
      straight off the RPT-clean table of the first sort. */
  lemma SecondSortChangesNothing(trades: seq<CleanTrade>)
    requires PositivePrices(trades)
    ensures PricesPositive(RptClean(SortBy(trades, TradeOrder)))
    ensures SpreadPairs(trades) == Pairs(RptClean(SortBy(trades, TradeOrder)))
  {
    SortBySorted(trades, TradeOrder);
    ResortIsNoOp(SortBy(trades, TradeOrder));
    SpreadInputPricesPositive(trades);
  }

  /** What sections 2 to 4 hand to the two CSV writers, or the ZeroDivisionError
      raised by the share of valid pairs among the clean rows, which divides by the
      size of df_rpt_clean before either file is written. */
  datatype Exports =
    | Exported(daily: seq<DailyRow>, weekly: seq<WeeklySpread>)
    | ZeroDivision

  /** Sections 1 to 4 as the script runs them: the trade table is sorted and flagged
      in place, the clean rows are copied into a fresh table that is sorted again,
      the pairs are matched, and the daily and weekly tables are produced from them;
      an empty trade table stops at the division by the clean table's size. */
  method DeclareSpreads(a: array<CleanTrade>) returns (pairs: seq<SpreadPair>, exports: Exports)
    requires PositivePrices(a[..])
    modifies a
    ensures a[..] == SortBy(old(a[..]), TradeOrder)
    ensures pairs == SpreadPairs(old(a[..]))
    ensures exports == if a.Length == 0 then ZeroDivision
                       else Exported(DailySpread(pairs), WeeklySpreadTable(pairs))
  {
    ghost var input := a[..];
    SortTrades(a);
    var isRpt := DeclareRpt(a);
    assert isRpt[..] == RptFlags(a[..]);
    var clean := DropRpt(a, isRpt);
    var spread := new SignedTrade[|clean|](i requires 0 <= i < |clean| => clean[i]);
    assert spread[..] == clean;
    SortInPlace(spread, BondTimeOrder);
    SpreadInputPricesPositive(input);
    pairs := MatchPairs(spread);
    RptCleanEmptyIff(a[..]);
    if |clean| == 0 {
      exports := ZeroDivision;
    } else {
      exports := Exported(DailySpread(pairs), WeeklySpreadTable(pairs));
    }
  }

  // ---------------------------------------------------------------- from the extractor to the weekly table

  /** The extractor only returns trades priced at 10 or more, so its output can be fed
      to the spread stage, and every weekly row it leads to has a mean spread in
      [0, 20000) bps and at least one pair behind it. */
  lemma ExtractedTradesFeedSpreads(trace: seq<TraceRow>, cusips: seq<string>, startDate: int, endDate: int,
                                   tradingDays: set<int>, r: WeeklySpread)
    ensures PositivePrices(GetData(trace, cusips, startDate, endDate, tradingDays))
    ensures var trades := GetData(trace, cusips, startDate, endDate, tradingDays);
            PositivePrices(trades) && r in WeeklySpreadTable(SpreadPairs(trades)) ==>
              0.0 <= r.weeklyAvgSpreadBps < 20000.0 && r.nPairs >= 1
  {
    var trades := GetData(trace, cusips, startDate, endDate, tradingDays);
    forall i | 0 <= i < |trades|
      ensures trades[i].price > 0.0
    {
      assert trades[i] in trades;
    }
    SpreadInputPricesPositive(trades);
    var s := SpreadInput(trades);
    if r in WeeklySpreadTable(Pairs(s)) {
      WeeklyAverageRange(s, r);
      forall p | p in Pairs(s)
        ensures p.instant / Calendar.SecondsPerDay == p.execDate
      {
        PairsWellFormed(s, p);
      }
      WeeklySpreadTableExact(Pairs(s), r);
    }
  }
}
