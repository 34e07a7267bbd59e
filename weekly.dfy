/** Sections 2 (daily average), 3 and 4 of notebooks/data_preprocessing/y_declaration.py:
    the spread pairs are averaged per (bond, trade date), the daily averages per
    (bond, Monday week start), the pairs are counted per (bond, week start), the
    counts are left-joined onto the weekly averages with a default of 0, and the
    weekly table is ordered by (week start, bond). Every groupby here lists its
    groups in ascending key order, which the model writes as a sort of the
    distinct keys. */
module Weekly {
  import opened Tables
  import opened Ordering
  import opened Sorting
  import opened Calendar
  import opened Rpt
  import opened Spread

  // ---------------------------------------------------------------- daily averages

  /** The daily groupby key: (cusip_id, trd_exctn_dt). */
  datatype DayKey = DayKey(cusipId: string, execDate: int)

  function DayOf(p: SpreadPair): DayKey
  {
    DayKey(p.cusipId, p.execDate)
  }

  /** The pairs of one bond on one day. */
  function DayPairs(pairs: seq<SpreadPair>, k: DayKey): seq<SpreadPair>
  {
    Where(pairs, (p: SpreadPair) => DayOf(p) == k)
  }

  /** The spread_bps values the daily mean averages. */
  function DaySpreads(pairs: seq<SpreadPair>, k: DayKey): seq<real>
  {
    Column(DayPairs(pairs, k), (p: SpreadPair) => p.spreadBps)
  }

  /** A row of daily_spread: cusip_id, trd_exctn_dt, avg_spread_bps. */
  datatype DailyRow = DailyRow(cusipId: string, execDate: int, avgSpreadBps: real)

  function DayKeyOf(d: DailyRow): DayKey
  {
    DayKey(d.cusipId, d.execDate)
  }

  /** A key that some pair has gathers at least one spread. */
  lemma DayHasSpreads(pairs: seq<SpreadPair>, k: DayKey)
    requires k in GroupKeys(pairs, DayOf)
    ensures |DaySpreads(pairs, k)| > 0
  {
    var p :| p in pairs && DayOf(p) == k;
    assert p in DayPairs(pairs, k);
  }

  function DailyRowFor(pairs: seq<SpreadPair>, k: DayKey): DailyRow
    requires k in GroupKeys(pairs, DayOf)
  {
    DayHasSpreads(pairs, k);
    DailyRow(k.cusipId, k.execDate, Mean(DaySpreads(pairs, k)))
  }

  /** The group order of groupby(['cusip_id','trd_exctn_dt']). */
  function DailyGroupOrder(d: DailyRow): SortKey
  {
    [Text(d.cusipId), Num(d.execDate)]
  }

  /** One daily row per (bond, day) key, in order of first appearance. */
  function DayRows(pairs: seq<SpreadPair>): (rows: seq<DailyRow>)
    ensures |rows| == |GroupKeys(pairs, DayOf)|
    ensures forall i :: 0 <= i < |rows| ==> rows[i] == DailyRowFor(pairs, GroupKeys(pairs, DayOf)[i])
  {
    var ks := GroupKeys(pairs, DayOf);
    seq(|ks|, i requires 0 <= i < |ks| => DailyRowFor(pairs, ks[i]))
  }

  /** groupby(['cusip_id','trd_exctn_dt'])['spread_bps'].mean().reset_index(). */
  function DailyMeans(pairs: seq<SpreadPair>): seq<DailyRow>
  {
    SortBy(DayRows(pairs), DailyGroupOrder)
  }

  /** The export order of daily_spread: (trd_exctn_dt, cusip_id). */
  function DailyExportOrder(d: DailyRow): SortKey
  {
    [Num(d.execDate), Text(d.cusipId)]
  }

  /** daily_spread after sort_values(["trd_exctn_dt", "cusip_id"]). */
  function DailySpread(pairs: seq<SpreadPair>): seq<DailyRow>
  {
    SortBy(DailyMeans(pairs), DailyExportOrder)
  }

  lemma DayRowsMembers(pairs: seq<SpreadPair>, d: DailyRow)
    ensures d in DayRows(pairs) <==>
              (exists p :: p in pairs && DayOf(p) == DayKeyOf(d)) &&
              |DaySpreads(pairs, DayKeyOf(d))| > 0 &&
              d.avgSpreadBps == Mean(DaySpreads(pairs, DayKeyOf(d)))
  {
    var ks := GroupKeys(pairs, DayOf);
    var rows := DayRows(pairs);
    var k := DayKeyOf(d);
    if exists p :: p in pairs && DayOf(p) == k {
      assert k in ks;
      var i :| 0 <= i < |ks| && ks[i] == k;
      DayHasSpreads(pairs, k);
      if d.avgSpreadBps == Mean(DaySpreads(pairs, k)) {
        assert rows[i] == d;
      }
    }
    if d in rows {
      var i :| 0 <= i < |rows| && rows[i] == d;
      assert ks[i] == k;
      assert k in ks;
    }
  }

  /** A daily row exists exactly for a (bond, day) that has at least one pair, and its
      value is the mean of that day's spreads. */
  lemma DailyRowsExact(pairs: seq<SpreadPair>, d: DailyRow)
    ensures d in DailySpread(pairs) <==>
              (exists p :: p in pairs && DayOf(p) == DayKeyOf(d)) &&
              |DaySpreads(pairs, DayKeyOf(d))| > 0 &&
              d.avgSpreadBps == Mean(DaySpreads(pairs, DayKeyOf(d)))
  {
    SortByMembers(DayRows(pairs), DailyGroupOrder, d);
    SortByMembers(DailyMeans(pairs), DailyExportOrder, d);
    DayRowsMembers(pairs, d);
  }

  /** No (bond, day) appears twice in daily_spread, and the rows are in (date, bond) order. */
  lemma DailyKeysDistinct(pairs: seq<SpreadPair>)
    ensures KeysDistinct(DailySpread(pairs), DayKeyOf)
    ensures SortedBy(DailySpread(pairs), DailyExportOrder)
  {
    var ks := GroupKeys(pairs, DayOf);
    var rows := DayRows(pairs);
    assert KeysDistinct(rows, DayKeyOf) by {
      forall i, j | 0 <= i < j < |rows|
        ensures DayKeyOf(rows[i]) != DayKeyOf(rows[j])
      {
        assert DayKeyOf(rows[i]) == ks[i] && DayKeyOf(rows[j]) == ks[j];
      }
    }
    SortByKeepsDistinct(rows, DailyGroupOrder, DayKeyOf);
    SortByKeepsDistinct(DailyMeans(pairs), DailyExportOrder, DayKeyOf);
    SortBySorted(DailyMeans(pairs), DailyExportOrder);
  }

  // ---------------------------------------------------------------- weekly averages

  /** The weekly groupby key: (cusip_id, week_start). */
  datatype WeekKey = WeekKey(cusipId: string, weekStart: int)

  /** week_start of a daily row: its date minus its weekday, the Monday of its week. */
  function WeekOfDay(d: DailyRow): WeekKey
  {
    WeekKey(d.cusipId, WeekStart(d.execDate))
  }

  function WeekDays(daily: seq<DailyRow>, w: WeekKey): seq<DailyRow>
  {
    Where(daily, (d: DailyRow) => WeekOfDay(d) == w)
  }

  /** The avg_spread_bps values the weekly mean averages. */
  function WeekAverages(daily: seq<DailyRow>, w: WeekKey): seq<real>
  {
    Column(WeekDays(daily, w), (d: DailyRow) => d.avgSpreadBps)
  }

  /** A row of weekly_spread before the join: cusip_id, week_start, weekly_avg_spread_bps. */
  datatype WeeklyRow = WeeklyRow(cusipId: string, weekStart: int, weeklyAvgSpreadBps: real)

  function WeekKeyOf(r: WeeklyRow): WeekKey
  {
    WeekKey(r.cusipId, r.weekStart)
  }

  lemma WeekHasAverages(daily: seq<DailyRow>, w: WeekKey)
    requires w in GroupKeys(daily, WeekOfDay)
    ensures |WeekAverages(daily, w)| > 0
  {
    var d :| d in daily && WeekOfDay(d) == w;
    assert d in WeekDays(daily, w);
  }

  function WeeklyRowFor(daily: seq<DailyRow>, w: WeekKey): WeeklyRow
    requires w in GroupKeys(daily, WeekOfDay)
  {
    WeekHasAverages(daily, w);
    WeeklyRow(w.cusipId, w.weekStart, Mean(WeekAverages(daily, w)))
  }

  /** The group order of groupby(['cusip_id', 'week_start']). */
  function WeekGroupOrder(r: WeeklyRow): SortKey
  {
    [Text(r.cusipId), Num(r.weekStart)]
  }

  /** One weekly row per (bond, week start) key, in order of first appearance. */
  function WeekRows(daily: seq<DailyRow>): (rows: seq<WeeklyRow>)
    ensures |rows| == |GroupKeys(daily, WeekOfDay)|
    ensures forall i :: 0 <= i < |rows| ==> rows[i] == WeeklyRowFor(daily, GroupKeys(daily, WeekOfDay)[i])
  {
    var ws := GroupKeys(daily, WeekOfDay);
    seq(|ws|, i requires 0 <= i < |ws| => WeeklyRowFor(daily, ws[i]))
  }

  /** groupby(['cusip_id', 'week_start'])['avg_spread_bps'].mean().reset_index(). */
  function WeeklyMeans(daily: seq<DailyRow>): seq<WeeklyRow>
  {
    SortBy(WeekRows(daily), WeekGroupOrder)
  }

  lemma WeekRowsMembers(daily: seq<DailyRow>, r: WeeklyRow)
    ensures r in WeekRows(daily) <==>
              (exists d :: d in daily && WeekOfDay(d) == WeekKeyOf(r)) &&
              |WeekAverages(daily, WeekKeyOf(r))| > 0 &&
              r.weeklyAvgSpreadBps == Mean(WeekAverages(daily, WeekKeyOf(r)))
  {
    var ws := GroupKeys(daily, WeekOfDay);
    var rows := WeekRows(daily);
    var w := WeekKeyOf(r);
    if exists d :: d in daily && WeekOfDay(d) == w {
      assert w in ws;
      var i :| 0 <= i < |ws| && ws[i] == w;
      WeekHasAverages(daily, w);
      if r.weeklyAvgSpreadBps == Mean(WeekAverages(daily, w)) {
        assert rows[i] == r;
      }
    }
    if r in rows {
      var i :| 0 <= i < |rows| && rows[i] == r;
      assert ws[i] == w;
      assert w in ws;
    }
  }

  /** Weekly rows are exactly the (bond, week start) keys of the daily table, and each
      value is the mean of that week's daily averages. */
  lemma WeeklyRowsExact(daily: seq<DailyRow>, r: WeeklyRow)
    ensures r in WeeklyMeans(daily) <==>
              (exists d :: d in daily && WeekOfDay(d) == WeekKeyOf(r)) &&
              |WeekAverages(daily, WeekKeyOf(r))| > 0 &&
              r.weeklyAvgSpreadBps == Mean(WeekAverages(daily, WeekKeyOf(r)))
  {
    SortByMembers(WeekRows(daily), WeekGroupOrder, r);
    WeekRowsMembers(daily, r);
  }

  /** No (bond, week start) appears twice among the weekly rows. */
  lemma WeeklyKeysDistinct(daily: seq<DailyRow>)
    ensures KeysDistinct(WeeklyMeans(daily), WeekKeyOf)
  {
    var ws := GroupKeys(daily, WeekOfDay);
    var rows := WeekRows(daily);
    assert KeysDistinct(rows, WeekKeyOf) by {
      forall i, j | 0 <= i < j < |rows|
        ensures WeekKeyOf(rows[i]) != WeekKeyOf(rows[j])
      {
        assert WeekKeyOf(rows[i]) == ws[i] && WeekKeyOf(rows[j]) == ws[j];
      }
    }
    SortByKeepsDistinct(rows, WeekGroupOrder, WeekKeyOf);
  }

  // ---------------------------------------------------------------- pair counts and the join

  /** week_start of a pair, from its datetime: the date of the instant (normalize),
      minus its weekday. */
  function WeekOfPair(p: SpreadPair): WeekKey
  {
    WeekKey(p.cusipId, WeekStart(p.instant / SecondsPerDay))
  }

  function WeekPairs(pairs: seq<SpreadPair>, w: WeekKey): seq<SpreadPair>
  {
    Where(pairs, (p: SpreadPair) => WeekOfPair(p) == w)
  }

  /** A row of weekly_counts: cusip_id, week_start, n_pairs. */
  datatype WeekCount = WeekCount(cusipId: string, weekStart: int, nPairs: int)

  function CountKeyOf(c: WeekCount): WeekKey
  {
    WeekKey(c.cusipId, c.weekStart)
  }

  function WeekCountOrder(c: WeekCount): SortKey
  {
    [Text(c.cusipId), Num(c.weekStart)]
  }

  /** groupby(['cusip_id','week_start']).size().reset_index(name='n_pairs'). */
  function WeeklyCounts(pairs: seq<SpreadPair>): (counts: seq<WeekCount>)
    ensures KeysDistinct(counts, CountKeyOf)
  {
    var ws := GroupKeys(pairs, WeekOfPair);
    var rows := seq(|ws|, i requires 0 <= i < |ws| => WeekCount(ws[i].cusipId, ws[i].weekStart, |WeekPairs(pairs, ws[i])|));
    assert KeysDistinct(rows, CountKeyOf) by {
      forall i, j | 0 <= i < j < |rows|
        ensures CountKeyOf(rows[i]) != CountKeyOf(rows[j])
      {
        assert CountKeyOf(rows[i]) == ws[i] && CountKeyOf(rows[j]) == ws[j];
      }
    }
    SortByKeepsDistinct(rows, WeekCountOrder, CountKeyOf);
    SortBy(rows, WeekCountOrder)
  }

  /** Every count row holds the size of its own group, and the count rows are exactly
      the weeks that have at least one pair. */
  lemma WeeklyCountsExact(pairs: seq<SpreadPair>, c: WeekCount)
    ensures c in WeeklyCounts(pairs) ==> c.nPairs == |WeekPairs(pairs, CountKeyOf(c))| > 0
    ensures (exists c' :: c' in WeeklyCounts(pairs) && CountKeyOf(c') == CountKeyOf(c)) <==>
              exists p :: p in pairs && WeekOfPair(p) == CountKeyOf(c)
  {
    var ws := GroupKeys(pairs, WeekOfPair);
    var rows := seq(|ws|, i requires 0 <= i < |ws| => WeekCount(ws[i].cusipId, ws[i].weekStart, |WeekPairs(pairs, ws[i])|));
    var w := CountKeyOf(c);
    SortByMembers(rows, WeekCountOrder, c);
    if c in rows {
      var i :| 0 <= i < |rows| && rows[i] == c;
      assert ws[i] == w;
      assert w in ws;
      var p :| p in pairs && WeekOfPair(p) == w;
      assert p in WeekPairs(pairs, w);
    }
    if exists c' :: c' in WeeklyCounts(pairs) && CountKeyOf(c') == w {
      var c' :| c' in WeeklyCounts(pairs) && CountKeyOf(c') == w;
      SortByMembers(rows, WeekCountOrder, c');
      var i :| 0 <= i < |rows| && rows[i] == c';
      assert ws[i] == w;
      assert w in ws;
    }
    if exists p :: p in pairs && WeekOfPair(p) == w {
      assert w in ws;
      var i :| 0 <= i < |ws| && ws[i] == w;
      SortByMembers(rows, WeekCountOrder, rows[i]);
      assert rows[i] in WeeklyCounts(pairs) && CountKeyOf(rows[i]) == w;
    }
  }

  /** The join's lookup: the n_pairs of the first count row with this key, if any. */
  function CountOf(counts: seq<WeekCount>, w: WeekKey): (r: Option<int>)
    ensures r.None? <==> forall c :: c in counts ==> CountKeyOf(c) != w
    ensures r.Some? ==> exists c :: c in counts && CountKeyOf(c) == w && c.nPairs == r.value
    decreases |counts|
  {
    if counts == [] then None
    else if CountKeyOf(counts[0]) == w then Some(counts[0].nPairs)
    else
      assert forall c :: c in counts <==> c == counts[0] || c in counts[1..];
      CountOf(counts[1..], w)
  }

  /** With one count row per key, the first match is the only match: the lookup
      returns the n_pairs of whichever row carries the key. */
  lemma {:induction false} CountOfUnique(counts: seq<WeekCount>, c: WeekCount)
    requires KeysDistinct(counts, CountKeyOf)
    requires c in counts
    ensures CountOf(counts, CountKeyOf(c)) == Some(c.nPairs)
    decreases |counts|
  {
    if counts[0] != c {
      assert c in counts[1..];
      var j :| 0 <= j < |counts[1..]| && counts[1..][j] == c;
      assert counts[j + 1] == c;
      assert CountKeyOf(counts[0]) != CountKeyOf(c);
      assert KeysDistinct(counts[1..], CountKeyOf) by {
        forall i, k | 0 <= i < k < |counts[1..]|
          ensures CountKeyOf(counts[1..][i]) != CountKeyOf(counts[1..][k])
        {
          assert counts[1..][i] == counts[i + 1] && counts[1..][k] == counts[k + 1];
        }
      }
      CountOfUnique(counts[1..], c);
    }
  }

  /** fillna(0).astype(int) on the joined n_pairs column. */
  function FillNa(n: Option<int>): int
  {
    match n
    case None => 0
    case Some(v) => v
  }

  /** A row of the exported weekly_spread. */
  datatype WeeklySpread = WeeklySpread(cusipId: string, weekStart: int, weeklyAvgSpreadBps: real, nPairs: int)

  /** weekly_spread.merge(weekly_counts, on=['cusip_id','week_start'], how='left'),
      followed by the fillna. A left join emits one row per matching right row; since
      weekly_counts holds one row per key (WeeklyCounts), it keeps every weekly row
      once, in order, and adds that key's count, or 0 when no count row has the key. */
  function MergeCounts(weekly: seq<WeeklyRow>, counts: seq<WeekCount>): (m: seq<WeeklySpread>)
    requires KeysDistinct(counts, CountKeyOf)
    ensures |m| == |weekly|
    ensures forall i :: 0 <= i < |m| ==>
              m[i].cusipId == weekly[i].cusipId && m[i].weekStart == weekly[i].weekStart &&
              m[i].weeklyAvgSpreadBps == weekly[i].weeklyAvgSpreadBps
    ensures forall i, c :: 0 <= i < |m| && c in counts && CountKeyOf(c) == WeekKeyOf(weekly[i]) ==>
              m[i].nPairs == c.nPairs
    ensures forall i :: 0 <= i < |m| && (forall c :: c in counts ==> CountKeyOf(c) != WeekKeyOf(weekly[i])) ==>
              m[i].nPairs == 0
  {
    forall i, c | 0 <= i < |weekly| && c in counts && CountKeyOf(c) == WeekKeyOf(weekly[i])
      ensures CountOf(counts, WeekKeyOf(weekly[i])) == Some(c.nPairs)
    {
      CountOfUnique(counts, c);
    }
    seq(|weekly|, i requires 0 <= i < |weekly| =>
      WeeklySpread(weekly[i].cusipId, weekly[i].weekStart, weekly[i].weeklyAvgSpreadBps,
                   FillNa(CountOf(counts, WeekKeyOf(weekly[i])))))
  }

  function SpreadKeyOf(r: WeeklySpread): WeekKey
  {
    WeekKey(r.cusipId, r.weekStart)
  }

  /** The final order: sort_values(["week_start", "cusip_id"]). */
  function WeeklyExportOrder(r: WeeklySpread): SortKey
  {
    [Num(r.weekStart), Text(r.cusipId)]
  }

  /** The exported weekly table, from the spread pairs. */
  function WeeklySpreadTable(pairs: seq<SpreadPair>): seq<WeeklySpread>
  {
    var weekly := WeeklyMeans(DailySpread(pairs));
    SortBy(MergeCounts(weekly, WeeklyCounts(pairs)), WeeklyExportOrder)
  }

  /** n_pairs after the join is the number of pairs in the row's week whether or not
      the count table had the key: a missing key means no pair, and fillna gives 0. */
  lemma {:induction false} MergedCountIsPairCount(weekly: seq<WeeklyRow>, pairs: seq<SpreadPair>, i: int)
    requires 0 <= i < |weekly|
    ensures MergeCounts(weekly, WeeklyCounts(pairs))[i].nPairs == |WeekPairs(pairs, WeekKeyOf(weekly[i]))|
  {
    var w := WeekKeyOf(weekly[i]);
    var counts := WeeklyCounts(pairs);
    var probe := WeekCount(w.cusipId, w.weekStart, 0);
    WeeklyCountsExact(pairs, probe);
    match CountOf(counts, w)
    case None =>
      forall j | 0 <= j < |pairs|
        ensures WeekOfPair(pairs[j]) != w
      {
        assert pairs[j] in pairs;
      }
      WhereNone(pairs, (p: SpreadPair) => WeekOfPair(p) == w);
    case Some(n) =>
      var c :| c in counts && CountKeyOf(c) == w && c.nPairs == n;
      WeeklyCountsExact(pairs, c);
  }

  // ---------------------------------------------------------------- the exported table

  /** A pair's datetime lies on its trade date, so its week is the week of its date. */
  predicate PairsOnTheirDates(pairs: seq<SpreadPair>)
  {
    forall p :: p in pairs ==> p.instant / SecondsPerDay == p.execDate
  }

  /** The exported weekly table: one row per (bond, week start) that has a daily
      average, sorted by (week start, bond); its average is the mean of the week's
      daily averages; n_pairs is the number of pairs in that week, and at least 1,
      so the fillna(0) default never applies. */
  lemma WeeklySpreadTableExact(pairs: seq<SpreadPair>, r: WeeklySpread)
    requires PairsOnTheirDates(pairs)
    ensures SortedBy(WeeklySpreadTable(pairs), WeeklyExportOrder)
    ensures KeysDistinct(WeeklySpreadTable(pairs), SpreadKeyOf)
    ensures r in WeeklySpreadTable(pairs) ==>
              WeeklyRow(r.cusipId, r.weekStart, r.weeklyAvgSpreadBps) in WeeklyMeans(DailySpread(pairs))
    ensures r in WeeklySpreadTable(pairs) ==>
              r.nPairs == |WeekPairs(pairs, SpreadKeyOf(r))| && r.nPairs >= 1
  {
    var daily := DailySpread(pairs);
    var weekly := WeeklyMeans(daily);
    var merged := MergeCounts(weekly, WeeklyCounts(pairs));
    SortBySorted(merged, WeeklyExportOrder);
    WeeklyKeysDistinct(daily);
    assert KeysDistinct(merged, SpreadKeyOf) by {
      forall i, j | 0 <= i < j < |merged|
        ensures SpreadKeyOf(merged[i]) != SpreadKeyOf(merged[j])
      {
        assert SpreadKeyOf(merged[i]) == WeekKeyOf(weekly[i]) && SpreadKeyOf(merged[j]) == WeekKeyOf(weekly[j]);
      }
    }
    SortByKeepsDistinct(merged, WeeklyExportOrder, SpreadKeyOf);
    SortByMembers(merged, WeeklyExportOrder, r);
    if r in merged {
      var i :| 0 <= i < |merged| && merged[i] == r;
      var wr := weekly[i];
      assert wr == WeeklyRow(r.cusipId, r.weekStart, r.weeklyAvgSpreadBps);
      MergedCountIsPairCount(weekly, pairs, i);
      WeeklyRowsExact(daily, wr);
      var w := WeekKeyOf(wr);
      var d :| d in daily && WeekOfDay(d) == w;
      DailyRowsExact(pairs, d);
      var p :| p in pairs && DayOf(p) == DayKeyOf(d);
      assert WeekOfPair(p) == w;
      assert p in WeekPairs(pairs, w);
    }
  }

  /** No weekly mean row is lost on the way to the export: each one reaches the
      exported table with its key and average. */
  lemma WeeklySpreadTableComplete(pairs: seq<SpreadPair>, w: WeeklyRow)
    ensures w in WeeklyMeans(DailySpread(pairs)) ==>
              exists r :: r in WeeklySpreadTable(pairs) && SpreadKeyOf(r) == WeekKeyOf(w) &&
                          r.weeklyAvgSpreadBps == w.weeklyAvgSpreadBps
  {
    var weekly := WeeklyMeans(DailySpread(pairs));
    var merged := MergeCounts(weekly, WeeklyCounts(pairs));
    if w in weekly {
      var i :| 0 <= i < |weekly| && weekly[i] == w;
      SortByMembers(merged, WeeklyExportOrder, merged[i]);
      assert merged[i] in WeeklySpreadTable(pairs);
    }
  }

  /** Spreads of well-formed pairs are in [0, 20000) bps, and so are their daily and
      weekly means. */
  lemma WeeklyAverageRange(s: seq<SignedTrade>, r: WeeklySpread)
    requires PricesPositive(s)
    requires r in WeeklySpreadTable(Pairs(s))
    ensures 0.0 <= r.weeklyAvgSpreadBps < 20000.0
  {
    var pairs := Pairs(s);
    var daily := DailySpread(pairs);
    forall p | p in pairs
      ensures p.instant / SecondsPerDay == p.execDate
    {
      PairsWellFormed(s, p);
    }
    WeeklySpreadTableExact(pairs, r);
    var wr := WeeklyRow(r.cusipId, r.weekStart, r.weeklyAvgSpreadBps);
    WeeklyRowsExact(daily, wr);
    var avgs := WeekAverages(daily, WeekKeyOf(wr));
    forall i | 0 <= i < |avgs|
      ensures 0.0 <= avgs[i] < 20000.0
    {
      var d := WeekDays(daily, WeekKeyOf(wr))[i];
      assert d in daily;
      DailyRowsExact(pairs, d);
      var spreads := DaySpreads(pairs, DayKeyOf(d));
      forall j | 0 <= j < |spreads|
        ensures 0.0 <= spreads[j] < 20000.0
      {
        PairsWellFormed(s, DayPairs(pairs, DayKeyOf(d))[j]);
      }
      MeanNonNegative(spreads);
      MeanBelow(spreads, 20000.0);
    }
    MeanNonNegative(avgs);
    MeanBelow(avgs, 20000.0);
  }
}
