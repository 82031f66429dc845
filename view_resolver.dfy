/** The `update_dashboard` callback: given the Region, Year and Metric selected in
    the UI, the rows behind the pressure map, the completion map, the trend chart
    and the data table. Figures themselves are not modelled, only their rows. */
module ViewResolver {
  import opened Records
  import opened Sequences
  import opened Ordering
  import opened DataPreparation

  // ---------------------------------------------------------------- data table

  /** The row predicate the table applies: the selected Year always, Region and Metric only when truthy. */
  predicate TableMatch(x: Record, region: Option<string>, year: int, metric: Option<string>)
  {
    && x.year == year
    && (Truthy(region) ==> x.district == region.value)
    && (Truthy(metric) ==> x.metric == metric.value)
  }

  /** Lines 61-65: `df[df['Year'] == year]`, then by District if `region`, then by Metric if `metric`. */
  function TableRows(df: seq<Record>, region: Option<string>, year: int, metric: Option<string>): (r: seq<Record>)
    ensures forall x :: x in r <==> x in df && TableMatch(x, region, year, metric)
  {
    var byYear := Filter(df, (x: Record) => x.year == year);
    var byRegion :=
      if Truthy(region) then (var d := region.value; Filter(byYear, (x: Record) => x.district == d))
      else byYear;
    if Truthy(metric) then (var m := metric.value; Filter(byRegion, (x: Record) => x.metric == m))
    else byRegion
  }

  /** The table holds exactly the source rows that match the selection, each as often as in the source,
      and the three successive masks amount to one mask with their conjunction. */
  lemma TableRowsSpec(df: seq<Record>, region: Option<string>, year: int, metric: Option<string>)
    ensures TableRows(df, region, year, metric) == Filter(df, (x: Record) => TableMatch(x, region, year, metric))
    ensures forall x :: x in TableRows(df, region, year, metric) <==> x in df && TableMatch(x, region, year, metric)
    ensures forall x :: multiset(TableRows(df, region, year, metric))[x] ==
                          if TableMatch(x, region, year, metric) then multiset(df)[x] else 0
  {
    var byYearMask := (x: Record) => x.year == year;
    var regionMask := (x: Record) => x.year == year && (Truthy(region) ==> x.district == region.value);
    var all := (x: Record) => TableMatch(x, region, year, metric);
    var byYear := Filter(df, byYearMask);
    var byRegion := Filter(df, regionMask);
    if Truthy(region) {
      var d := region.value;
      FilterFilter(df, byYearMask, (x: Record) => x.district == d, regionMask);
    } else {
      FilterExtensional(df, byYearMask, regionMask);
    }
    if Truthy(metric) {
      var m := metric.value;
      FilterFilter(df, regionMask, (x: Record) => x.metric == m, all);
    } else {
      FilterExtensional(df, regionMask, all);
    }
  }

  /** The table keeps source order: the rows drawn from `a + b` are those drawn from `a` followed by
      those drawn from `b`. */
  lemma TableRowsAppend(a: seq<Record>, b: seq<Record>, region: Option<string>, year: int, metric: Option<string>)
    ensures TableRows(a + b, region, year, metric) == TableRows(a, region, year, metric) + TableRows(b, region, year, metric)
  {
    var all := (x: Record) => TableMatch(x, region, year, metric);
    TableRowsSpec(a + b, region, year, metric);
    TableRowsSpec(a, region, year, metric);
    TableRowsSpec(b, region, year, metric);
    FilterAppend(a, b, all);
  }

  /** A District, Metric or Year that no row carries gives an empty table, not an error. */
  lemma TableRowsUnknownValue(df: seq<Record>, region: Option<string>, year: int, metric: Option<string>)
    requires || (Truthy(region) && forall x :: x in df ==> x.district != region.value)
             || (Truthy(metric) && forall x :: x in df ==> x.metric != metric.value)
             || (forall x :: x in df ==> x.year != year)
    ensures TableRows(df, region, year, metric) == []
  {
    TableRowsSpec(df, region, year, metric);
    FilterDropsAll(df, (x: Record) => TableMatch(x, region, year, metric));
  }

  // ---------------------------------------------------------------- pressure map

  /** Lines 68-69: `pressure_ratio_df`, narrowed to the District if `region`, then to `Year == year`. */
  function PressureMapRows(pressure: seq<PressureRow>, region: Option<string>, year: int): (r: seq<PressureRow>)
    ensures forall x :: x in r <==> x in pressure && x.year == year && (Truthy(region) ==> x.district == region.value)
  {
    var byRegion :=
      if !Truthy(region) then pressure
      else (var d := region.value; Filter(pressure, (x: PressureRow) => x.district == d));
    Filter(byRegion, (x: PressureRow) => x.year == year)
  }

  /** The two masks of lines 68-69 over any pressure frame. */
  lemma PressureMapRowsSpec(pressure: seq<PressureRow>, region: Option<string>, year: int)
    ensures forall x :: x in PressureMapRows(pressure, region, year) <==>
      x in pressure && x.year == year && (Truthy(region) ==> x.district == region.value)
    ensures SortedBy(pressure, PressureKey, DistrictYearLess) ==>
      SortedBy(PressureMapRows(pressure, region, year), PressureKey, DistrictYearLess)
    ensures (forall x :: x in pressure ==> x.year != year) ==> PressureMapRows(pressure, region, year) == []
    ensures (forall x :: x in pressure ==> x.year == year) && !Truthy(region) ==>
      PressureMapRows(pressure, region, year) == pressure
  {
    var byRegion :=
      if !Truthy(region) then pressure
      else (var d := region.value; Filter(pressure, (x: PressureRow) => x.district == d));
    if SortedBy(pressure, PressureKey, DistrictYearLess) {
      if Truthy(region) {
        var d := region.value;
        FilterSorted(pressure, (x: PressureRow) => x.district == d, PressureKey, DistrictYearLess);
      }
      FilterSorted(byRegion, (x: PressureRow) => x.year == year, PressureKey, DistrictYearLess);
    }
    if forall x :: x in pressure ==> x.year != year {
      FilterDropsAll(byRegion, (x: PressureRow) => x.year == year);
    }
    if (forall x :: x in pressure ==> x.year == year) && !Truthy(region) {
      FilterKeepsAll(pressure, (x: PressureRow) => x.year == year);
    }
  }

  /** The pressure map shows the pressure rows of the selected Year (and District, when one is selected),
      in (District, Year) order; since the pressure dataset holds only the latest joined year, any other
      year gives an empty map, and that year with no District gives the whole dataset. */
  lemma PressureMapSpec(df: seq<Record>, region: Option<string>, year: int)
    requires Derivable(df)
    ensures forall x :: x in PressureMapRows(DerivePressure(df), region, year) <==>
      x in DerivePressure(df) && x.year == year && (Truthy(region) ==> x.district == region.value)
    ensures LatestJoinedYear(df) != Some(year) ==> PressureMapRows(DerivePressure(df), region, year) == []
    ensures LatestJoinedYear(df) == Some(year) && !Truthy(region) ==>
      PressureMapRows(DerivePressure(df), region, year) == DerivePressure(df)
    ensures SortedBy(PressureMapRows(DerivePressure(df), region, year), PressureKey, DistrictYearLess)
  {
    var pressure := DerivePressure(df);
    DerivePressureSpec(df);
    assert forall x :: x in pressure ==> LatestJoinedYear(df) == Some(x.year);
    PressureMapRowsSpec(pressure, region, year);
  }

  // ---------------------------------------------------------------- completion map

  /** Lines 79-81: the pivoted PCR rows, narrowed to the District if `region`, then to `Year == year`. */
  function CompletionMapRows(df: seq<Record>, region: Option<string>, year: int): (r: seq<Observation>)
    requires SingleValued(df, PrimaryCompletion)
    ensures forall o :: o in r <==>
      && Record(o.district, o.year, PrimaryCompletion, o.value) in df
      && o.year == year
      && (Truthy(region) ==> o.district == region.value)
  {
    var completion := Pivot(df, PrimaryCompletion);
    var byRegion :=
      if !Truthy(region) then completion
      else (var d := region.value; Filter(completion, (o: Observation) => o.district == d));
    Filter(byRegion, (o: Observation) => o.year == year)
  }

  /** The completion map shows exactly the PCR records of the selected Year (and District, when one is
      selected), one per District, in District order. */
  lemma CompletionMapSpec(df: seq<Record>, region: Option<string>, year: int)
    requires SingleValued(df, PrimaryCompletion)
    ensures forall o :: o in CompletionMapRows(df, region, year) <==>
      && Record(o.district, o.year, PrimaryCompletion, o.value) in df
      && o.year == year
      && (Truthy(region) ==> o.district == region.value)
    ensures SortedBy(CompletionMapRows(df, region, year), ObservationKey, DistrictYearLess)
  {
    var completion := Pivot(df, PrimaryCompletion);
    var byRegion :=
      if !Truthy(region) then completion
      else (var d := region.value; Filter(completion, (o: Observation) => o.district == d));
    if Truthy(region) {
      var d := region.value;
      FilterSorted(completion, (o: Observation) => o.district == d, ObservationKey, DistrictYearLess);
    }
    FilterSorted(byRegion, (o: Observation) => o.year == year, ObservationKey, DistrictYearLess);
  }

  // ---------------------------------------------------------------- trend chart

  /** A row of `chart_df`: Year, Metric and the mean Value of that group (`None` for NaN). */
  datatype TrendPoint = TrendPoint(year: int, metric: string, mean: Option<real>)

  function PointKey(p: TrendPoint): (int, string)
  {
    (p.year, p.metric)
  }

  function GroupKey(x: Record): (int, string)
  {
    (x.year, x.metric)
  }

  /** `df['Metric'].isin(['Gross Enrollment Ratio', 'Primary Completion Ratio'])`. */
  predicate IsRatioMetric(metric: string)
  {
    metric == GrossEnrollment || metric == PrimaryCompletion
  }

  /** The Value column of the group (Year, Metric), in source order. */
  function GroupValues(rows: seq<Record>, year: int, metric: string): seq<Option<real>>
  {
    if rows == [] then []
    else (if GroupKey(rows[0]) == (year, metric) then [rows[0].value] else []) + GroupValues(rows[1..], year, metric)
  }

  /** The number of present (non-NaN) values. */
  function PresentCount(vs: seq<Option<real>>): nat
  {
    if vs == [] then 0 else (if vs[0].Some? then 1 else 0) + PresentCount(vs[1..])
  }

  /** The sum of the present (non-NaN) values. */
  function PresentSum(vs: seq<Option<real>>): real
  {
    if vs == [] then 0.0 else (if vs[0].Some? then vs[0].value else 0.0) + PresentSum(vs[1..])
  }

  /** pandas' `mean()`: NaN values are skipped; a group with no value at all averages to NaN. */
  function Mean(vs: seq<Option<real>>): (r: Option<real>)
    ensures r.None? <==> forall i :: 0 <= i < |vs| ==> vs[i].None?
  {
    PresentCountZero(vs);
    if PresentCount(vs) == 0 then None else Some(PresentSum(vs) / PresentCount(vs) as real)
  }

  lemma {:induction false} PresentCountZero(vs: seq<Option<real>>)
    ensures PresentCount(vs) == 0 <==> forall i :: 0 <= i < |vs| ==> vs[i].None?
  {
    if vs != [] {
      PresentCountZero(vs[1..]);
      assert forall i :: 1 <= i < |vs| ==> vs[i] == vs[1..][i - 1];
    }
  }

  lemma {:induction false} PresentSumBounds(vs: seq<Option<real>>, lo: real, hi: real)
    requires forall i :: 0 <= i < |vs| && vs[i].Some? ==> lo <= vs[i].value <= hi
    ensures lo * PresentCount(vs) as real <= PresentSum(vs) <= hi * PresentCount(vs) as real
  {
    if vs != [] {
      assert forall i :: 0 <= i < |vs[1..]| ==> vs[1..][i] == vs[i + 1];
      PresentSumBounds(vs[1..], lo, hi);
    }
  }

  /** A mean lies between the smallest and the largest value it averages. */
  lemma MeanBetween(vs: seq<Option<real>>, lo: real, hi: real)
    requires forall i :: 0 <= i < |vs| && vs[i].Some? ==> lo <= vs[i].value <= hi
    ensures Mean(vs).Some? ==> lo <= Mean(vs).value <= hi
  {
    if PresentCount(vs) > 0 {
      PresentSumBounds(vs, lo, hi);
      var n := PresentCount(vs) as real;
      var s := PresentSum(vs);
      DivideBounds(s, n, lo, hi);
    }
  }

  lemma DivideBounds(s: real, n: real, lo: real, hi: real)
    requires n > 0.0 && lo * n <= s <= hi * n
    ensures lo <= s / n <= hi
  {
    assert s / n - lo == (s - lo * n) / n;
    assert hi - s / n == (hi * n - s) / n;
  }

  /** The (Year, Metric) of every row, in source order. */
  function GroupKeys(rows: seq<Record>): seq<(int, string)>
  {
    seq(|rows|, i requires 0 <= i < |rows| => GroupKey(rows[i]))
  }

  /** Line 91: the ratio-metric rows grouped by (Year, Metric) in sorted key order, each with its mean Value. */
  function TrendSeries(df: seq<Record>): (r: seq<TrendPoint>)
    ensures |r| <= |df|
    ensures forall p :: p in r ==> IsRatioMetric(p.metric)
  {
    var rows := Filter(df, (x: Record) => IsRatioMetric(x.metric));
    var keys := Sort(Distinct(GroupKeys(rows)), Identity, YearMetricLess);
    assert forall k :: k in keys ==> IsRatioMetric(k.1) by {
      forall k | k in keys
        ensures IsRatioMetric(k.1)
      {
        var j :| 0 <= j < |rows| && GroupKeys(rows)[j] == k;
        assert rows[j] in rows;
      }
    }
    seq(|keys|, i requires 0 <= i < |keys| => TrendPoint(keys[i].0, keys[i].1, Mean(GroupValues(rows, keys[i].0, keys[i].1))))
  }

  /** Dropping rows outside a group does not change the group's values. */
  lemma {:induction false} GroupValuesFilter(df: seq<Record>, keep: Record -> bool, year: int, metric: string)
    requires forall x :: x in df && GroupKey(x) == (year, metric) ==> keep(x)
    ensures GroupValues(Filter(df, keep), year, metric) == GroupValues(df, year, metric)
  {
    if df != [] {
      assert df[0] in df;
      GroupValuesFilter(df[1..], keep, year, metric);
      var head := if keep(df[0]) then [df[0]] else [];
      GroupValuesAppend(head, Filter(df[1..], keep), year, metric);
    }
  }

  lemma {:induction false} GroupValuesAppend(a: seq<Record>, b: seq<Record>, year: int, metric: string)
    ensures GroupValues(a + b, year, metric) == GroupValues(a, year, metric) + GroupValues(b, year, metric)
  {
    if a == [] {
      assert a + b == b;
    } else {
      assert (a + b)[1..] == a[1..] + b;
      GroupValuesAppend(a[1..], b, year, metric);
    }
  }

  /** The trend data: points in increasing (Year, Metric) order, so one per pair; a point only for a
      (Year, Metric) of a ratio metric that occurs in the table; each point's value the mean of all that
      group's Values across every District. */
  lemma TrendSeriesSpec(df: seq<Record>)
    ensures SortedBy(TrendSeries(df), PointKey, YearMetricLess)
    ensures forall p :: p in TrendSeries(df) ==>
      && IsRatioMetric(p.metric)
      && (exists x :: x in df && GroupKey(x) == PointKey(p))
      && p.mean == Mean(GroupValues(df, p.year, p.metric))
  {
    var keep := (x: Record) => IsRatioMetric(x.metric);
    var rows := Filter(df, keep);
    var keys := Sort(Distinct(GroupKeys(rows)), Identity, YearMetricLess);
    var points := TrendSeries(df);
    YearMetricOrder();
    SortSorted(Distinct(GroupKeys(rows)), Identity, YearMetricLess);
    assert |points| == |keys|;
    forall i, j | 0 <= i < j < |points|
      ensures YearMetricLess(PointKey(points[i]), PointKey(points[j]))
    {
      assert PointKey(points[i]) == Identity(keys[i]) && PointKey(points[j]) == Identity(keys[j]);
    }
    forall p | p in points
      ensures IsRatioMetric(p.metric)
      ensures exists x :: x in df && GroupKey(x) == PointKey(p)
      ensures p.mean == Mean(GroupValues(df, p.year, p.metric))
    {
      var i :| 0 <= i < |points| && points[i] == p;
      assert keys[i] in keys;
      assert keys[i] in GroupKeys(rows);
      var j :| 0 <= j < |rows| && GroupKeys(rows)[j] == keys[i];
      assert rows[j] in rows;
      GroupValuesFilter(df, keep, p.year, p.metric);
    }
  }

  /** Every (Year, Metric) of a ratio metric that occurs in the table gets a point. */
  lemma TrendSeriesComplete(df: seq<Record>, x: Record)
    requires x in df && IsRatioMetric(x.metric)
    ensures exists p :: p in TrendSeries(df) && PointKey(p) == GroupKey(x)
  {
    var rows := Filter(df, (x: Record) => IsRatioMetric(x.metric));
    var keys := Sort(Distinct(GroupKeys(rows)), Identity, YearMetricLess);
    var points := TrendSeries(df);
    assert x in rows;
    var j :| 0 <= j < |rows| && rows[j] == x;
    assert GroupKeys(rows)[j] == GroupKey(x);
    assert GroupKey(x) in keys;
    var i :| 0 <= i < |keys| && keys[i] == GroupKey(x);
    assert points[i] in points;
  }

  // ---------------------------------------------------------------- the callback

  /** The four outputs of `update_dashboard`, as rows: pressure map, completion map, chart, table. */
  datatype DashboardView = DashboardView(
    pressureMap: seq<PressureRow>,
    completionMap: seq<Observation>,
    trend: seq<TrendPoint>,
    table: seq<Record>)

  /** Lines 60-97, with `pressure_ratio_df` derived from the same table. */
  function UpdateDashboard(df: seq<Record>, region: Option<string>, year: int, metric: Option<string>): (v: DashboardView)
    requires Derivable(df)
    ensures forall x :: x in v.pressureMap <==>
      x in DerivePressure(df) && x.year == year && (Truthy(region) ==> x.district == region.value)
    ensures forall o :: o in v.completionMap <==>
      && Record(o.district, o.year, PrimaryCompletion, o.value) in df
      && o.year == year
      && (Truthy(region) ==> o.district == region.value)
    ensures forall p :: p in v.trend ==> IsRatioMetric(p.metric)
    ensures forall x :: x in v.table <==> x in df && TableMatch(x, region, year, metric)
  {
    DashboardView(
      PressureMapRows(DerivePressure(df), region, year),
      CompletionMapRows(df, region, year),
      TrendSeries(df),
      TableRows(df, region, year, metric))
  }

  /** Which selections each output reads: the trend chart none of them, the two maps not the Metric. */
  lemma UpdateDashboardDependencies(df: seq<Record>,
                                    region: Option<string>, year: int, metric: Option<string>,
                                    region': Option<string>, year': int, metric': Option<string>)
    requires Derivable(df)
    ensures UpdateDashboard(df, region, year, metric).trend == UpdateDashboard(df, region', year', metric').trend
    ensures region == region' && year == year' ==>
      && UpdateDashboard(df, region, year, metric).pressureMap == UpdateDashboard(df, region', year', metric').pressureMap
      && UpdateDashboard(df, region, year, metric).completionMap == UpdateDashboard(df, region', year', metric').completionMap
  {
  }
}
