/** Concrete trade sequences run through RPT declaration and pair matching: a buy
    and a sell of bond X1 three minutes apart with different dealers, the B, S, B
    run, two trades nine minutes apart, and a group broken up by a trade of another
    size. All trades are on one day; times are seconds since midnight. */
module Scenarios {
  import opened Tables
  import opened Extraction
  import opened Rpt
  import opened Spread

  const Day: int := 16500

  function Trade(cusip: string, time: int, seqNb: int, price: real, volume: real, side: string, dealer: string): CleanTrade
    requires 0 <= time < 86400
  {
    CleanTrade(cusip, Day, time, seqNb, price, volume, side, "P", "T", None, "CORP", dealer)
  }

  /** X1 at 09:00 buys at 100 and at 09:03 sells at 100.5, each with its own dealer. */
  function X1Buy(volume: real): CleanTrade
  {
    Trade("X1", 32400, 1, 100.0, volume, "B", "D1")
  }

  function X1Sell(volume: real): CleanTrade
  {
    Trade("X1", 32580, 2, 100.5, volume, "S", "D2")
  }

  /** With different sizes the two trades are in different groups: nothing is flagged
      and the sell forms one pair with midprice 100.25 and a spread of about 49.88 bps
      (5000/100.25, between 49.87 and 49.88). */
  lemma X1DifferentSizes()
    ensures RptFlags([X1Buy(100.0), X1Sell(200.0)]) == [false, false]
    ensures RptClean([X1Buy(100.0), X1Sell(200.0)]) == [Sign(X1Buy(100.0)), Sign(X1Sell(200.0))]
    ensures Pairs(RptClean([X1Buy(100.0), X1Sell(200.0)])) ==
              [SpreadPair("X1", Day, Day * 86400 + 32580, 100.25, 5000.0 / 100.25)]
    ensures 49.87 < Pairs(RptClean([X1Buy(100.0), X1Sell(200.0)]))[0].spreadBps < 49.88
  {
    var s := [X1Buy(100.0), X1Sell(200.0)];
    assert !IsRpt(s, 0) && !IsRpt(s, 1);
    var clean := RptClean(s);
    assert clean == [Sign(s[0]), Sign(s[1])] by {
      assert RptFlags(s) == [false, false];
      assert RptFlags(s)[..1] == [false] && s[..1] == [s[0]];
    }
    assert PricesPositive(clean);
    assert PairAt(clean, 1);
    assert !PairAt(clean, 0);
    assert clean[..1] == [clean[0]];
    assert SpreadBps(100.5, 100.0) == 5000.0 / 100.25;
  }

  /** With the same size the trades share a group although the dealers differ: the buy
      is flagged as an RPT leg, the sell's flag is suppressed, and with the buy gone
      the sell has no opposite predecessor, so no pair results. */
  lemma X1SameSize()
    ensures RptFlags([X1Buy(100.0), X1Sell(100.0)]) == [true, false]
    ensures RptClean([X1Buy(100.0), X1Sell(100.0)]) == [Sign(X1Sell(100.0))]
    ensures Pairs(RptClean([X1Buy(100.0), X1Sell(100.0)])) == []
  {
    var s := [X1Buy(100.0), X1Sell(100.0)];
    assert IsRpt(s, 0) && !IsRpt(s, 1);
    assert RptFlags(s) == [true, false];
    assert RptFlags(s)[..1] == [true] && s[..1] == [s[0]];
    var clean := RptClean(s);
    assert clean == [Sign(s[1])];
    assert !PairAt(clean, 0);
  }

  /** A buy and a sell of the same group nine minutes apart are flagged like any other
      adjacent pair: the RPT rule has no time window. */
  lemma NineMinutesApartIsFlagged()
    ensures RptFlags([Trade("X2", 36000, 1, 100.0, 50.0, "B", "D1"), Trade("X2", 36540, 2, 100.2, 50.0, "S", "D2")]) == [true, false]
  {
    var s := [Trade("X2", 36000, 1, 100.0, 50.0, "B", "D1"), Trade("X2", 36540, 2, 100.2, 50.0, "S", "D2")];
    assert IsRpt(s, 0) && !IsRpt(s, 1);
  }

  function BsbRun(): seq<CleanTrade>
  {
    [Trade("X3", 36000, 1, 100.0, 10.0, "B", "D1"),
     Trade("X3", 36060, 2, 100.1, 10.0, "S", "D2"),
     Trade("X3", 36120, 3, 100.0, 10.0, "B", "D3")]
  }

  /** B, S, B of one group: all three are flagged at first, the S and the second B
      are suppressed because the row above each was flagged, and only the first B is
      dropped. */
  lemma BsbDropsOnlyTheFirstBuy()
    ensures RptFlags(BsbRun()) == [true, false, false]
    ensures RptClean(BsbRun()) == [Sign(BsbRun()[1]), Sign(BsbRun()[2])]
  {
    var s := BsbRun();
    assert Flagged(s, 0) && Flagged(s, 1) && Flagged(s, 2);
    assert IsRpt(s, 0) && !IsRpt(s, 1) && !IsRpt(s, 2);
    var f := RptFlags(s);
    assert f == [true, false, false];
    assert f[..2] == [true, false] && s[..2] == [s[0], s[1]];
    assert f[..2][..1] == [true] && s[..2][..1] == [s[0]];
    assert KeepUnflagged(s[..2][..1], f[..2][..1]) == [];
    assert KeepUnflagged(s[..2], f[..2]) == [Sign(s[1])];
    assert KeepUnflagged(s, f) == [Sign(s[1]), Sign(s[2])];
  }

  /** Declaring RPTs is not idempotent: the S, B left over from a B, S, B run are an
      adjacent offsetting pair again, so a second pass flags the S and drops it. */
  lemma RptIsNotIdempotent()
    ensures RptFlags(Trades(RptClean(BsbRun()))) == [true, false]
    ensures Trades(RptClean(Trades(RptClean(BsbRun())))) != Trades(RptClean(BsbRun()))
  {
    BsbDropsOnlyTheFirstBuy();
    var s := BsbRun();
    var once := Trades(RptClean(s));
    assert once == [s[1], s[2]];
    assert IsRpt(once, 0) && !IsRpt(once, 1);
    assert RptFlags(once) == [true, false];
    var g := RptFlags(once);
    assert g[..1] == [true] && once[..1] == [once[0]];
    assert KeepUnflagged(once[..1], g[..1]) == [];
    assert KeepUnflagged(once, g) == [Sign(s[2])];
    assert |Trades(RptClean(once))| == 1;
  }

  /** A buy and a sell of one group with a trade of another size between them are not
      table neighbours, so neither is flagged: the rule looks at adjacent rows, not at
      the group as a whole. */
  lemma InterleavedSizesAreNotFlagged()
    ensures RptFlags([Trade("X4", 36000, 1, 100.0, 10.0, "B", "D1"),
                      Trade("X4", 36060, 2, 100.1, 20.0, "S", "D2"),
                      Trade("X4", 36120, 3, 100.1, 10.0, "S", "D3")]) == [false, false, false]
  {
    var s := [Trade("X4", 36000, 1, 100.0, 10.0, "B", "D1"),
              Trade("X4", 36060, 2, 100.1, 20.0, "S", "D2"),
              Trade("X4", 36120, 3, 100.1, 10.0, "S", "D3")];
    assert !IsRpt(s, 0) && !IsRpt(s, 1) && !IsRpt(s, 2);
  }
}
