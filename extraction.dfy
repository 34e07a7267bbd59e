/** The trade extractor: the chain of common table expressions in get_data's
    query (notebooks/data_preprocessing/data_extraction.py). Each CTE is a
    total function from the rows of the CTEs it reads to its own rows. Tables
    are sequences read as bags; SELECT DISTINCT and UNION produce sets. */
module Extraction {
  import opened Tables
  import opened Ordering
  import opened Sorting
  import opened Calendar

  /** A row of the trade-report table (trace.trace_enhanced): the columns the query reads. */
  datatype TraceRow = TraceRow(
    cusipId: string,                // cusip_id
    execDate: int,                  // trd_exctn_dt
    execTime: TimeOfDay,            // trd_exctn_tm
    msgSeqNb: int,                  // msg_seq_nb
    reportedPrice: Option<real>,    // rptd_pr
    enteredVolume: Option<real>,    // entrd_vol_qt
    reportSide: string,             // rpt_side_cd
    contraParty: string,            // cntra_mp_id
    status: string,                 // trc_st
    asOfCode: Option<string>,       // asof_cd
    saleCondition: Option<string>,  // sale_cndtn_cd
    subProduct: string,             // sub_prdct
    buyCapacity: Option<string>,    // buy_cpcty_cd
    sellCapacity: Option<string>)   // sell_cpcty_cd

  /** The eight columns that link an error report to the trade it cancels. */
  datatype LinkKey = LinkKey(
    cusipId: string, execDate: int, execTime: int, reportedPrice: Option<real>,
    enteredVolume: Option<real>, reportSide: string, contraParty: string, msgSeqNb: int)

  /** The six columns of the reversal fallback: the link key without time and sequence number. */
  datatype ReversalKey = ReversalKey(
    cusipId: string, execDate: int, reportedPrice: Option<real>,
    enteredVolume: Option<real>, reportSide: string, contraParty: string)

  function Link(r: TraceRow): LinkKey
  {
    LinkKey(r.cusipId, r.execDate, r.execTime, r.reportedPrice, r.enteredVolume,
            r.reportSide, r.contraParty, r.msgSeqNb)
  }

  function ReversalGroup(r: TraceRow): ReversalKey
  {
    ReversalKey(r.cusipId, r.execDate, r.reportedPrice, r.enteredVolume, r.reportSide, r.contraParty)
  }

  /** Dropping time and sequence number from the link key gives the reversal key. */
  lemma LinkRefinesReversalGroup(r: TraceRow, u: TraceRow)
    requires Link(r) == Link(u)
    ensures ReversalGroup(r) == ReversalGroup(u)
  {
  }

  // ---------------------------------------------------------------- base

  /** WHERE of the base CTE: date window, bond list, price present, positive volume. */
  predicate InBase(r: TraceRow, cusips: seq<string>, startDate: int, endDate: int)
  {
    && startDate <= r.execDate <= endDate
    && r.cusipId in cusips
    && r.reportedPrice.Some?
    && r.enteredVolume.Some? && r.enteredVolume.value > 0.0
  }

  function Base(trace: seq<TraceRow>, cusips: seq<string>, startDate: int, endDate: int): (b: seq<TraceRow>)
    ensures forall r :: r in b <==> r in trace && InBase(r, cusips, startDate, endDate)
    ensures forall r :: r in b ==> r.reportedPrice.Some? && r.enteredVolume.Some?
  {
    Where(trace, (r: TraceRow) => InBase(r, cusips, startDate, endDate))
  }

  // ---------------------------------------------------------------- error reports

  const ErrorStatuses: set<string> := {"C", "W", "R", "X", "Y"}

  /** Cancel, correction and reversal reports, and same-day reversals flagged by the as-of code. */
  predicate IsErrorReport(r: TraceRow)
  {
    r.status in ErrorStatuses || r.asOfCode == Some("R")
  }

  function ErrorReports(base: seq<TraceRow>): (e: seq<TraceRow>)
    ensures forall r :: r in e <==> r in base && (r.status in {"C", "W", "R", "X", "Y"} || r.asOfCode == Some("R"))
    ensures forall r :: r in base && r.status == "R" ==> r in e
  {
    Where(base, IsErrorReport)
  }

  function ErrorKeys(base: seq<TraceRow>): set<LinkKey>
  {
    set e | e in ErrorReports(base) :: Link(e)
  }

  // ---------------------------------------------------------------- originals_to_drop_strict

  /** SELECT DISTINCT t.* over the 8-column join of 'T' rows with error reports. */
  function StrictOriginals(base: seq<TraceRow>): (o: set<TraceRow>)
    ensures forall t :: t in o ==> t in base && t.status == "T"
    ensures forall t :: t in base && t.status == "T" && Link(t) in ErrorKeys(base) ==> t in o
  {
    set t | t in base && t.status == "T" && exists e | e in ErrorReports(base) :: Link(t) == Link(e)
  }

  /** The strict pass can only name keys that the error reports already contribute to
      to_remove: an original matched on all eight columns has its error report's key. */
  lemma StrictAddsNoKeys(base: seq<TraceRow>)
    ensures (set t | t in StrictOriginals(base) :: Link(t)) <= ErrorKeys(base)
  {
    forall t | t in StrictOriginals(base)
      ensures Link(t) in ErrorKeys(base)
    {
      var e :| e in ErrorReports(base) && Link(t) == Link(e);
    }
  }

  // ---------------------------------------------------------------- originals_to_drop_fallback

  /** A 'T' row joined to some reversal report ('R') on the six fallback columns. */
  predicate ReversalCandidate(base: seq<TraceRow>, t: TraceRow)
  {
    t.status == "T" && exists e | e in ErrorReports(base) :: e.status == "R" && ReversalGroup(e) == ReversalGroup(t)
  }

  /** Row i comes before row j in DISTINCT ON's ORDER BY within a group: earlier
      execution time; among equal times the earlier input row. */
  predicate PickedBefore(base: seq<TraceRow>, i: int, j: int)
    requires 0 <= i < |base| && 0 <= j < |base|
  {
    base[i].execTime < base[j].execTime || (base[i].execTime == base[j].execTime && i <= j)
  }

  predicate InGroup(base: seq<TraceRow>, g: ReversalKey, j: int)
  {
    0 <= j < |base| && ReversalCandidate(base, base[j]) && ReversalGroup(base[j]) == g
  }

  /** Row i is the first of its group among the candidates base[..n]. */
  predicate FirstOfGroup(base: seq<TraceRow>, g: ReversalKey, i: int, n: int)
  {
    && 0 <= i < n <= |base|
    && InGroup(base, g, i)
    && forall j :: 0 <= j < n && InGroup(base, g, j) ==> PickedBefore(base, i, j)
  }

  /** DISTINCT ON (the six columns) ... ORDER BY the six columns, trd_exctn_tm:
      the first candidate of each group. */
  function FallbackOriginals(base: seq<TraceRow>): (o: set<TraceRow>)
    ensures forall t :: t in o ==> t in base && ReversalCandidate(base, t)
  {
    set i | 0 <= i < |base| && FirstOfGroup(base, ReversalGroup(base[i]), i, |base|) :: base[i]
  }

  /** DISTINCT ON keeps at most one row per group. */
  lemma FallbackOnePerGroup(base: seq<TraceRow>, t: TraceRow, u: TraceRow)
    requires t in FallbackOriginals(base) && u in FallbackOriginals(base)
    requires ReversalGroup(t) == ReversalGroup(u)
    ensures t == u
  {
    var i :| 0 <= i < |base| && FirstOfGroup(base, ReversalGroup(base[i]), i, |base|) && base[i] == t;
    var k :| 0 <= k < |base| && FirstOfGroup(base, ReversalGroup(base[k]), k, |base|) && base[k] == u;
    assert PickedBefore(base, i, k) && PickedBefore(base, k, i);
  }

  /** The row kept for a group has the smallest execution time among the group's candidates. */
  lemma FallbackIsEarliest(base: seq<TraceRow>, t: TraceRow, u: TraceRow)
    requires t in FallbackOriginals(base)
    requires u in base && ReversalCandidate(base, u) && ReversalGroup(u) == ReversalGroup(t)
    ensures t.execTime <= u.execTime
  {
    var i :| 0 <= i < |base| && FirstOfGroup(base, ReversalGroup(base[i]), i, |base|) && base[i] == t;
    var j :| 0 <= j < |base| && base[j] == u;
    assert InGroup(base, ReversalGroup(t), j);
    assert PickedBefore(base, i, j);
  }

  lemma {:induction false} FirstOfGroupExists(base: seq<TraceRow>, g: ReversalKey, k: int, n: int)
    requires 0 <= k < n <= |base| && InGroup(base, g, k)
    ensures exists i :: FirstOfGroup(base, g, i, n)
    decreases n
  {
    if exists j :: 0 <= j < n - 1 && InGroup(base, g, j) {
      var j :| 0 <= j < n - 1 && InGroup(base, g, j);
      FirstOfGroupExists(base, g, j, n - 1);
      var i :| FirstOfGroup(base, g, i, n - 1);
      if InGroup(base, g, n - 1) && base[n - 1].execTime < base[i].execTime {
        forall m | 0 <= m < n && InGroup(base, g, m)
          ensures PickedBefore(base, n - 1, m)
        {
          if m < n - 1 {
            assert PickedBefore(base, i, m);
          }
        }
        assert FirstOfGroup(base, g, n - 1, n);
      } else {
        assert FirstOfGroup(base, g, i, n);
      }
    } else {
      assert k == n - 1;
      assert FirstOfGroup(base, g, n - 1, n);
    }
  }

  /** Every group that has a candidate gives up exactly one row: none is missed. */
  lemma FallbackCoversGroups(base: seq<TraceRow>, u: TraceRow)
    requires u in base && ReversalCandidate(base, u)
    ensures exists t :: t in FallbackOriginals(base) && ReversalGroup(t) == ReversalGroup(u)
  {
    var k :| 0 <= k < |base| && base[k] == u;
    FirstOfGroupExists(base, ReversalGroup(u), k, |base|);
    var i :| FirstOfGroup(base, ReversalGroup(u), i, |base|);
    assert base[i] in FallbackOriginals(base);
  }

  // ---------------------------------------------------------------- to_remove and clean

  /** to_remove: the link keys of the error reports UNION those of originals_to_drop. */
  function RemovalKeys(base: seq<TraceRow>): (keys: set<LinkKey>)
    ensures ErrorKeys(base) <= keys
    ensures forall t :: t in FallbackOriginals(base) ==> Link(t) in keys
    ensures forall t :: t in StrictOriginals(base) ==> Link(t) in keys
    ensures forall k :: k in keys ==> k in ErrorKeys(base) || exists t :: t in FallbackOriginals(base) && Link(t) == k
    ensures keys == ErrorKeys(base) + set t | t in FallbackOriginals(base) :: Link(t)
  {
    StrictAddsNoKeys(base);
    var originals := StrictOriginals(base) + FallbackOriginals(base);
    ErrorKeys(base) + set t | t in originals :: Link(t)
  }

  /** The anti-join: 'T' rows whose link key is not in to_remove. */
  function Clean(base: seq<TraceRow>): (c: seq<TraceRow>)
    ensures forall r :: r in c <==> r in base && r.status == "T" && Link(r) !in RemovalKeys(base)
  {
    var removal := RemovalKeys(base);
    Where(base, (b: TraceRow) => b.status == "T" && Link(b) !in removal)
  }

  /** No clean row shares its eight-column key with an error report, nor with a
      trade picked by the reversal fallback. */
  lemma CleanAvoidsRemoved(base: seq<TraceRow>, r: TraceRow)
    requires r in Clean(base)
    ensures forall e :: e in ErrorReports(base) ==> Link(r) != Link(e)
    ensures forall t :: t in FallbackOriginals(base) ==> Link(r) != Link(t)
    ensures !IsErrorReport(r)
  {
    forall e | e in ErrorReports(base)
      ensures Link(r) != Link(e)
    {
      assert Link(e) in ErrorKeys(base);
    }
    assert r in ErrorReports(base) ==> Link(r) in ErrorKeys(base);
  }

  /** The anti-join in the CTEs' own terms: a row is clean exactly when it is a 'T'
      row of base whose eight-column key matches no error report and no trade picked
      by the reversal fallback. */
  lemma CleanExactly(base: seq<TraceRow>, r: TraceRow)
    ensures r in Clean(base) <==>
              && r in base && r.status == "T"
              && (forall e :: e in ErrorReports(base) ==> Link(r) != Link(e))
              && (forall t :: t in FallbackOriginals(base) ==> Link(r) != Link(t))
  {
    var removal := RemovalKeys(base);
    if Link(r) in removal {
      if Link(r) !in ErrorKeys(base) {
        var t :| t in FallbackOriginals(base) && Link(t) == Link(r);
      }
    }
  }

  /** A trade matched strictly to a reversal report is also a candidate of the
      reversal fallback: the fallback does not skip trades the strict pass matched. */
  lemma StrictReversalIsFallbackCandidate(base: seq<TraceRow>, t: TraceRow, e: TraceRow)
    requires t in StrictOriginals(base) && e in ErrorReports(base)
    requires e.status == "R" && Link(t) == Link(e)
    ensures ReversalCandidate(base, t)
  {
    LinkRefinesReversalGroup(t, e);
  }

  // ---------------------------------------------------------------- step_* filters

  const OpenTime: int := 28800    // 08:00:00
  const CloseTime: int := 62100   // 17:15:00
  const MinPrice: real := 10.0
  const ExcludedSaleConditions: set<string> := {"W", "L", "T", "S", "P"}

  predicate InHours(r: TraceRow)
  {
    OpenTime <= r.execTime <= CloseTime
  }

  /** rptd_pr >= 10; a NULL price fails the comparison. */
  predicate PriceOk(r: TraceRow)
  {
    r.reportedPrice.Some? && r.reportedPrice.value >= MinPrice
  }

  predicate IsCorporate(r: TraceRow)
  {
    r.subProduct == "CORP"
  }

  /** COALESCE(sale_cndtn_cd, '') NOT IN (...): a NULL condition reads as '' and is kept. */
  predicate SaleOk(r: TraceRow)
  {
    Coalesce(r.saleCondition, Some("")).value !in ExcludedSaleConditions
  }

  predicate HasCapacity(r: TraceRow)
  {
    r.buyCapacity.Some? || r.sellCapacity.Some?
  }

  /** NOT (buy IS DISTINCT FROM sell AND both are non-null). */
  predicate CapacitiesAgree(r: TraceRow)
  {
    !(r.buyCapacity != r.sellCapacity && r.buyCapacity.Some? && r.sellCapacity.Some?)
  }

  /** NOT (COALESCE(buy, sell) = 'A'): when both are NULL the comparison is unknown
      and the WHERE drops the row. */
  predicate NotAgency(r: TraceRow)
  {
    var c := Coalesce(r.buyCapacity, r.sellCapacity);
    c.Some? && c.value != "A"
  }

  /** valid_days: the trading-calendar dates of 2015 and 2016 (the bounds are fixed in the query). */
  function ValidDays(tradingDays: set<int>): (v: set<int>)
    ensures forall d :: d in v <==> d in tradingDays && Jan1st2015 <= d <= Dec31st2016
  {
    set d | d in tradingDays && Jan1st2015 <= d <= Dec31st2016
  }

  /** step_biz: joined to a valid day (which is distinct) and ISO day of week below 6. */
  predicate OnBusinessDay(r: TraceRow, validDays: set<int>)
  {
    r.execDate in validDays && IsoDow(r.execDate) < 6
  }

  predicate PassesFilters(r: TraceRow, validDays: set<int>)
  {
    && InHours(r) && PriceOk(r) && IsCorporate(r) && SaleOk(r)
    && HasCapacity(r) && CapacitiesAgree(r) && NotAgency(r) && OnBusinessDay(r, validDays)
  }

  /** step_hours through step_biz: each step narrows the previous one. */
  function Filtered(clean: seq<TraceRow>, validDays: set<int>): (s: seq<TraceRow>)
    ensures |s| <= |clean|
    ensures forall r :: r in s <==> r in clean && PassesFilters(r, validDays)
    ensures s == Where(clean, (r: TraceRow) => PassesFilters(r, validDays))
  {
    var stepHours := Where(clean, InHours);
    var stepPrice := Where(stepHours, PriceOk);
    var stepSubprd := Where(stepPrice, IsCorporate);
    var stepSale := Where(stepSubprd, SaleOk);
    var stepD2c := Where(stepSale, HasCapacity);
    var stepCapacity := Where(stepD2c, CapacitiesAgree);
    var stepAgency := Where(stepCapacity, NotAgency);
    FilterChainIsOneWhere(clean, validDays);
    Where(stepAgency, (r: TraceRow) => OnBusinessDay(r, validDays))
  }

  /** The eight step CTEs, each a WHERE over the previous one, select the same rows
      in the same order as one WHERE of all eight conditions. */
  lemma FilterChainIsOneWhere(clean: seq<TraceRow>, validDays: set<int>)
    ensures Where(Where(Where(Where(Where(Where(Where(Where(clean, InHours), PriceOk), IsCorporate), SaleOk),
                  HasCapacity), CapacitiesAgree), NotAgency), (r: TraceRow) => OnBusinessDay(r, validDays))
            == Where(clean, (r: TraceRow) => PassesFilters(r, validDays))
  {
    var p1 := (r: TraceRow) => InHours(r) && PriceOk(r);
    var p2 := (r: TraceRow) => p1(r) && IsCorporate(r);
    var p3 := (r: TraceRow) => p2(r) && SaleOk(r);
    var p4 := (r: TraceRow) => p3(r) && HasCapacity(r);
    var p5 := (r: TraceRow) => p4(r) && CapacitiesAgree(r);
    var p6 := (r: TraceRow) => p5(r) && NotAgency(r);
    var onDay := (r: TraceRow) => OnBusinessDay(r, validDays);
    var p7 := (r: TraceRow) => p6(r) && onDay(r);
    WhereThen(clean, InHours, PriceOk, p1);
    WhereThen(clean, p1, IsCorporate, p2);
    WhereThen(clean, p2, SaleOk, p3);
    WhereThen(clean, p3, HasCapacity, p4);
    WhereThen(clean, p4, CapacitiesAgree, p5);
    WhereThen(clean, p5, NotAgency, p6);
    WhereThen(clean, p6, onDay, p7);
    WhereAgree(clean, p7, (r: TraceRow) => PassesFilters(r, validDays));
  }

  /** Once some capacity code is present, the agency filter is the plain test on
      the coalesced code; and a row with both codes present keeps only equal codes. */
  lemma CapacityRules(r: TraceRow)
    requires HasCapacity(r) && CapacitiesAgree(r) && NotAgency(r)
    ensures r.buyCapacity.Some? && r.sellCapacity.Some? ==> r.buyCapacity == r.sellCapacity
    ensures Coalesce(r.buyCapacity, r.sellCapacity).value != "A"
    ensures r.buyCapacity.Some? ==> r.buyCapacity.value != "A"
    ensures r.buyCapacity.None? ==> r.sellCapacity.value != "A"
  {
  }

  // ---------------------------------------------------------------- final projection

  /** A row of the extractor's output: the projected columns, with the capacity
      codes collapsed to COALESCE(buy, sell). */
  datatype CleanTrade = CleanTrade(
    cusipId: string,
    execDate: int,
    execTime: TimeOfDay,
    msgSeqNb: int,
    price: real,
    volume: real,
    side: string,
    capacity: string,
    status: string,
    saleCondition: Option<string>,
    subProduct: string,
    contraParty: string)

  predicate Projectable(r: TraceRow)
  {
    r.reportedPrice.Some? && r.enteredVolume.Some? && HasCapacity(r)
  }

  function Project(r: TraceRow): (o: CleanTrade)
    requires Projectable(r)
    ensures o.capacity == Coalesce(r.buyCapacity, r.sellCapacity).value
  {
    CleanTrade(r.cusipId, r.execDate, r.execTime, r.msgSeqNb, r.reportedPrice.value,
               r.enteredVolume.value, r.reportSide, Coalesce(r.buyCapacity, r.sellCapacity).value,
               r.status, r.saleCondition, r.subProduct, r.contraParty)
  }

  function ProjectAll(s: seq<TraceRow>): (p: seq<CleanTrade>)
    requires forall r :: r in s ==> Projectable(r)
    ensures |p| == |s|
    ensures forall i :: 0 <= i < |s| ==> p[i] == Project(s[i])
    decreases |s|
  {
    if s == [] then [] else ProjectAll(s[..|s| - 1]) + [Project(s[|s| - 1])]
  }

  /** ORDER BY cusip_id, trd_exctn_dt, trd_exctn_tm, msg_seq_nb. */
  function TradeOrder(t: CleanTrade): SortKey
  {
    [Text(t.cusipId), Num(t.execDate), Num(t.execTime), Num(t.msgSeqNb)]
  }

  const RowLimit: nat := 8000000

  /** LIMIT n. */
  function Take<T>(s: seq<T>, n: nat): (r: seq<T>)
    ensures |r| == if |s| <= n then |s| else n
    ensures r == s[..|r|]
    ensures |s| <= n ==> r == s
  {
    if |s| <= n then s else s[..n]
  }

  /** The rows that survive every CTE, before projection, ORDER BY and LIMIT. */
  function Survivors(trace: seq<TraceRow>, cusips: seq<string>, startDate: int, endDate: int,
                     tradingDays: set<int>): (s: seq<TraceRow>)
    ensures forall r :: r in s ==> Projectable(r)
  {
    var base := Base(trace, cusips, startDate, endDate);
    Filtered(Clean(base), ValidDays(tradingDays))
  }

  /** What every output row satisfies, stated on the projected columns. */
  predicate OutputRowOk(o: CleanTrade, cusips: seq<string>, startDate: int, endDate: int, tradingDays: set<int>)
  {
    && o.status == "T"
    && o.cusipId in cusips
    && startDate <= o.execDate <= endDate
    && Jan1st2015 <= o.execDate <= Dec31st2016
    && o.execDate in tradingDays && IsoDow(o.execDate) < 6
    && OpenTime <= o.execTime <= CloseTime
    && o.price >= MinPrice
    && o.volume > 0.0
    && o.subProduct == "CORP"
    && (o.saleCondition.None? || o.saleCondition.value !in ExcludedSaleConditions)
    && o.capacity != "A"
  }

  /** ORDER BY cusip_id, trd_exctn_dt, trd_exctn_tm, msg_seq_nb over the projected
      survivors: the same rows, in order, each meeting every filter. */
  function OrderedSurvivors(trace: seq<TraceRow>, cusips: seq<string>, startDate: int, endDate: int,
                            tradingDays: set<int>): (o: seq<CleanTrade>)
    ensures |o| == |Survivors(trace, cusips, startDate, endDate, tradingDays)|
    ensures SortedBy(o, TradeOrder)
    ensures multiset(o) == multiset(ProjectAll(Survivors(trace, cusips, startDate, endDate, tradingDays)))
    ensures forall x :: x in o ==> OutputRowOk(x, cusips, startDate, endDate, tradingDays)
    ensures forall x :: x in o ==> exists r :: r in trace && Projectable(r) && Project(r) == x
  {
    var survivors := Survivors(trace, cusips, startDate, endDate, tradingDays);
    SurvivorsOk(trace, cusips, startDate, endDate, tradingDays);
    SortBySorted(ProjectAll(survivors), TradeOrder);
    SortByPermutes(ProjectAll(survivors), TradeOrder);
    SortBy(ProjectAll(survivors), TradeOrder)
  }

  /** get_data's query: the surviving rows, projected, ordered and limited to the
      first 8,000,000. */
  function GetData(trace: seq<TraceRow>, cusips: seq<string>, startDate: int, endDate: int,
                   tradingDays: set<int>): (out: seq<CleanTrade>)
    ensures |out| == if |Survivors(trace, cusips, startDate, endDate, tradingDays)| <= RowLimit
                     then |Survivors(trace, cusips, startDate, endDate, tradingDays)| else RowLimit
    ensures out == OrderedSurvivors(trace, cusips, startDate, endDate, tradingDays)[..|out|]
    ensures SortedBy(out, TradeOrder)
    ensures forall o :: o in out ==> OutputRowOk(o, cusips, startDate, endDate, tradingDays)
    ensures forall o :: o in out ==> exists r :: r in trace && Projectable(r) && Project(r) == o
    ensures |Survivors(trace, cusips, startDate, endDate, tradingDays)| <= RowLimit ==>
              multiset(out) == multiset(ProjectAll(Survivors(trace, cusips, startDate, endDate, tradingDays)))
  {
    var ordered := OrderedSurvivors(trace, cusips, startDate, endDate, tradingDays);
    TakeKeeps(ordered, RowLimit, TradeOrder);
    Take(ordered, RowLimit)
  }

  lemma TakeKeeps<T>(s: seq<T>, n: nat, key: T -> SortKey)
    requires SortedBy(s, key)
    ensures SortedBy(Take(s, n), key)
    ensures forall x :: x in Take(s, n) ==> x in s
  {
  }

  lemma SurvivorsOk(trace: seq<TraceRow>, cusips: seq<string>, startDate: int, endDate: int, tradingDays: set<int>)
    ensures forall o :: o in multiset(ProjectAll(Survivors(trace, cusips, startDate, endDate, tradingDays))) ==>
              OutputRowOk(o, cusips, startDate, endDate, tradingDays) &&
              exists r :: r in trace && Projectable(r) && Project(r) == o
  {
    var base := Base(trace, cusips, startDate, endDate);
    var s := Survivors(trace, cusips, startDate, endDate, tradingDays);
    var p := ProjectAll(s);
    forall o | o in multiset(p)
      ensures OutputRowOk(o, cusips, startDate, endDate, tradingDays)
      ensures exists r :: r in trace && Projectable(r) && Project(r) == o
    {
      assert o in p;
      var i :| 0 <= i < |p| && p[i] == o;
      var r := s[i];
      assert r in s;
      assert r in Clean(base);
      assert r in base;
      assert PassesFilters(r, ValidDays(tradingDays));
    }
  }
}
