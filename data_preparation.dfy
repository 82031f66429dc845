/** Startup derivation of the Enrollment Pressure Ratio dataset from the
    long-format table: pivot the two ratio metrics, inner-join them on
    (District, Year), compute the guarded ratio and keep only the latest year. */
module DataPreparation {
  import opened Records
  import opened Sequences
  import opened Ordering

  /** A row of `pivot(...).reset_index()` for a single metric: District, Year and the metric's column. */
  datatype Observation = Observation(district: string, year: int, value: Option<real>)

  function ObservationKey(o: Observation): (string, int)
  {
    (o.district, o.year)
  }

  /** The rows of `df` whose Metric is `metric`, reduced to District, Year, Value, in source order. */
  function Select(df: seq<Record>, metric: string): (r: seq<Observation>)
    ensures forall o :: o in r <==> Record(o.district, o.year, metric, o.value) in df
  {
    if df == [] then []
    else
      assert df == [df[0]] + df[1..];
      (if df[0].metric == metric then [Observation(df[0].district, df[0].year, df[0].value)] else [])
      + Select(df[1..], metric)
  }

  lemma {:induction false} SelectDistinct(df: seq<Record>, metric: string)
    requires SingleValued(df, metric)
    ensures KeysDistinct(Select(df, metric), ObservationKey)
  {
    if df != [] {
      var rest := df[1..];
      assert SingleValued(rest, metric) by {
        forall i, j | 0 <= i < j < |rest| && rest[i].metric == metric && rest[j].metric == metric
          ensures (rest[i].district, rest[i].year) != (rest[j].district, rest[j].year)
        {
          assert rest[i] == df[i + 1] && rest[j] == df[j + 1];
        }
      }
      SelectDistinct(rest, metric);
      var tail := Select(rest, metric);
      if df[0].metric == metric {
        var o := Observation(df[0].district, df[0].year, df[0].value);
        forall y | y in tail
          ensures ObservationKey(y) != ObservationKey(o)
        {
          var j :| 0 <= j < |rest| && rest[j] == Record(y.district, y.year, metric, y.value);
          assert df[j + 1] == rest[j];
        }
        var t := [o] + tail;
        forall i, j | 0 <= i < j < |t|
          ensures ObservationKey(t[i]) != ObservationKey(t[j])
        {
          assert t[j] == tail[j - 1] && t[j] in tail;
          if i > 0 {
            assert t[i] == tail[i - 1];
          }
        }
      }
    }
  }

  /** `df[df['Metric'] == metric].pivot(index=['District', 'Year'], columns='Metric', values='Value').reset_index()`
      (lines 14, 15 and 79): exactly the records of that metric, one row per (District, Year), in index order. */
  function Pivot(df: seq<Record>, metric: string): (r: seq<Observation>)
    requires SingleValued(df, metric)
    ensures forall o :: o in r <==> Record(o.district, o.year, metric, o.value) in df
    ensures SortedBy(r, ObservationKey, DistrictYearLess)
  {
    SelectDistinct(df, metric);
    DistrictYearOrder();
    SortSorted(Select(df, metric), ObservationKey, DistrictYearLess);
    Sort(Select(df, metric), ObservationKey, DistrictYearLess)
  }

  /** A row of the merged frame: District, Year and the two ratio columns. */
  datatype Merged = Merged(district: string, year: int, ger: Option<real>, pcr: Option<real>)

  function MergedKey(m: Merged): (string, int)
  {
    (m.district, m.year)
  }

  /** The merged rows that the left row `l` contributes: one per right row with its key, in right order. */
  function MatchRight(l: Observation, right: seq<Observation>): (r: seq<Merged>)
    ensures forall m :: m in r <==>
      m.district == l.district && m.year == l.year && m.ger == l.value && Observation(l.district, l.year, m.pcr) in right
  {
    if right == [] then []
    else
      assert right == [right[0]] + right[1..];
      (if ObservationKey(right[0]) == ObservationKey(l) then [Merged(l.district, l.year, l.value, right[0].value)] else [])
      + MatchRight(l, right[1..])
  }

  /** `pd.merge(left, right, on=['District', 'Year'], how='inner')`: the pairs of rows with equal keys,
      in the order of the left rows. */
  function InnerJoin(left: seq<Observation>, right: seq<Observation>): (r: seq<Merged>)
    ensures forall m :: m in r <==>
      Observation(m.district, m.year, m.ger) in left && Observation(m.district, m.year, m.pcr) in right
  {
    if left == [] then []
    else
      assert left == [left[0]] + left[1..];
      MatchRight(left[0], right) + InnerJoin(left[1..], right)
  }

  /** With distinct keys on the right, a left row matches at most one right row. */
  lemma {:induction false} MatchRightAtMostOne(l: Observation, right: seq<Observation>)
    requires KeysDistinct(right, ObservationKey)
    ensures |MatchRight(l, right)| <= 1
  {
    if right != [] {
      var rest := right[1..];
      assert KeysDistinct(rest, ObservationKey);
      MatchRightAtMostOne(l, rest);
      if ObservationKey(right[0]) == ObservationKey(l) {
        forall o | o in rest
          ensures ObservationKey(o) != ObservationKey(l)
        {
          var j :| 0 <= j < |rest| && rest[j] == o;
          assert right[j + 1] == o;
        }
        MatchRightNone(l, rest);
      }
    }
  }

  lemma MatchRightNone(l: Observation, right: seq<Observation>)
    requires forall o :: o in right ==> ObservationKey(o) != ObservationKey(l)
    ensures MatchRight(l, right) == []
  {
  }

  /** Merging two key-sorted frames gives a key-sorted frame (so each (District, Year) at most once). */
  lemma {:induction false} InnerJoinSorted(left: seq<Observation>, right: seq<Observation>)
    requires SortedBy(left, ObservationKey, DistrictYearLess)
    requires SortedBy(right, ObservationKey, DistrictYearLess)
    ensures SortedBy(InnerJoin(left, right), MergedKey, DistrictYearLess)
  {
    if left != [] {
      var rest := left[1..];
      assert SortedBy(rest, ObservationKey, DistrictYearLess);
      InnerJoinSorted(rest, right);
      DistrictYearOrder();
      SortedDistinct(right, ObservationKey, DistrictYearLess);
      MatchRightAtMostOne(left[0], right);
      var head := MatchRight(left[0], right);
      var tail := InnerJoin(rest, right);
      assert SortedBy(head, MergedKey, DistrictYearLess) by {
        if |head| == 1 {
          assert head[0] in head;
        }
      }
      forall x, y | x in head && y in tail
        ensures DistrictYearLess(MergedKey(x), MergedKey(y))
      {
        var j :| 0 <= j < |rest| && rest[j] == Observation(y.district, y.year, y.ger);
        assert left[j + 1] == rest[j];
      }
      AppendSorted(head, tail, MergedKey, DistrictYearLess);
    }
  }

  /** 1e-10, the stand-in for a zero completion ratio on line 17. */
  const Epsilon: real := 0.0000000001

  /** `replace(0, 1e-10)` on the completion ratio: never a zero divisor. */
  function Divisor(pcr: real): (d: real)
    ensures d != 0.0
    ensures pcr != 0.0 ==> d == pcr
  {
    if pcr == 0.0 then Epsilon else pcr
  }

  /** Line 17 before `fillna`: GER / PCR.replace(0, 1e-10) * 100, missing (NaN) when either side is. */
  function RawRatio(ger: Option<real>, pcr: Option<real>): (r: Option<real>)
    ensures r.Some? <==> ger.Some? && pcr.Some?
  {
    if ger.Some? && pcr.Some? then Some(ger.value / Divisor(pcr.value) * 100.0) else None
  }

  /** `fillna(0)`. */
  function FillNa(v: Option<real>): real
  {
    if v.Some? then v.value else 0.0
  }

  /** Lines 17-18: the guarded ratio. Whatever line 17 computes is overridden by 0 unless PCR is present
      and positive, so the 1e-10 substitution never reaches the result. */
  function PressureRatio(ger: Option<real>, pcr: Option<real>): (r: real)
    ensures pcr.Some? && pcr.value > 0.0 && ger.Some? ==> r == ger.value / pcr.value * 100.0
    ensures pcr.None? || pcr.value <= 0.0 || ger.None? ==> r == 0.0
  {
    if pcr.Some? && pcr.value > 0.0 then FillNa(RawRatio(ger, pcr)) else 0.0
  }

  /** A row of `pressure_ratio_df`: the merged columns plus 'Enrollment Pressure Ratio'. */
  datatype PressureRow = PressureRow(district: string, year: int, ger: Option<real>, pcr: Option<real>, ratio: real)

  function PressureKey(x: PressureRow): (string, int)
  {
    (x.district, x.year)
  }

  /** Lines 17-18 applied to every merged row. */
  function AddRatio(ms: seq<Merged>): (r: seq<PressureRow>)
    ensures |r| == |ms|
    ensures forall i :: 0 <= i < |r| ==> PressureKey(r[i]) == MergedKey(ms[i])
    ensures forall x :: x in r <==>
      Merged(x.district, x.year, x.ger, x.pcr) in ms && x.ratio == PressureRatio(x.ger, x.pcr)
  {
    if ms == [] then []
    else
      assert ms == [ms[0]] + ms[1..];
      var m := ms[0];
      [PressureRow(m.district, m.year, m.ger, m.pcr, PressureRatio(m.ger, m.pcr))] + AddRatio(ms[1..])
  }

  /** The table holds a record of `metric`. Without one, the metric's pivot on line 14 or 15 has only
      the District and Year columns, and line 17 cannot find the metric's column. */
  predicate HasMetric(df: seq<Record>, metric: string)
  {
    exists i :: 0 <= i < |df| && df[i].metric == metric
  }

  /** Lines 14-19 run to the end: neither pivot meets a repeated (District, Year), and both ratio
      columns exist when line 17 reads them. */
  ghost predicate Derivable(df: seq<Record>)
  {
    && SingleValued(df, GrossEnrollment) && SingleValued(df, PrimaryCompletion)
    && HasMetric(df, GrossEnrollment) && HasMetric(df, PrimaryCompletion)
  }

  /** `pressure_ratio_df` as it stands after line 18, before the latest-year restriction: a row for each
      (District, Year) with both a GER and a PCR record, carrying their values and the guarded ratio. */
  function JoinedPressure(df: seq<Record>): (r: seq<PressureRow>)
    requires Derivable(df)
    ensures forall x :: x in r <==>
      && Record(x.district, x.year, GrossEnrollment, x.ger) in df
      && Record(x.district, x.year, PrimaryCompletion, x.pcr) in df
      && x.ratio == PressureRatio(x.ger, x.pcr)
  {
    AddRatio(InnerJoin(Pivot(df, GrossEnrollment), Pivot(df, PrimaryCompletion)))
  }

  /** `rows['Year'].max()`; `None` stands for the NaN that `max` gives on an empty frame. */
  function MaxYear(rows: seq<PressureRow>): (r: Option<int>)
    ensures r.None? <==> rows == []
    ensures r.Some? ==> forall x :: x in rows ==> x.year <= r.value
    ensures r.Some? ==> exists x :: x in rows && x.year == r.value
  {
    if rows == [] then None
    else
      assert rows == [rows[0]] + rows[1..];
      match MaxYear(rows[1..])
      case None => Some(rows[0].year)
      case Some(m) => Some(if rows[0].year < m then m else rows[0].year)
  }

  /** Line 19: keep the rows whose Year equals the maximum Year (none when the frame is empty). */
  function LatestYearOnly(rows: seq<PressureRow>): (r: seq<PressureRow>)
    ensures forall x :: x in r <==> x in rows && MaxYear(rows) == Some(x.year)
    ensures forall x, y :: x in r && y in rows ==> y.year <= x.year
  {
    match MaxYear(rows)
    case None => []
    case Some(m) => Filter(rows, (x: PressureRow) => x.year == m)
  }

  /** The final `pressure_ratio_df` (lines 14-19): every row pairs a GER record with the PCR record of the
      same (District, Year), and the rows are the joined rows of the latest joined Year. */
  function DerivePressure(df: seq<Record>): (r: seq<PressureRow>)
    requires Derivable(df)
    ensures forall x :: x in r ==>
      && Record(x.district, x.year, GrossEnrollment, x.ger) in df
      && Record(x.district, x.year, PrimaryCompletion, x.pcr) in df
    ensures forall x :: x in r <==> x in JoinedPressure(df) && MaxYear(JoinedPressure(df)) == Some(x.year)
  {
    LatestYearOnly(JoinedPressure(df))
  }

  /** How the module-level preparation ends: the pressure dataset, or the `KeyError` that line 17
      raises for the first ratio column the merged frame lacks (the GER operand is read first). */
  datatype Startup = Ready(pressure: seq<PressureRow>) | KeyError(column: string)

  /** Lines 14-19 as the application runs them at start-up. A table without any GER record, or without
      any PCR record, stops the application with a `KeyError`, even when the other metric is present. */
  function LoadPressure(df: seq<Record>): (r: Startup)
    requires SingleValued(df, GrossEnrollment) && SingleValued(df, PrimaryCompletion)
    ensures r.KeyError? <==>
      (forall x :: x in df ==> x.metric != GrossEnrollment) || (forall x :: x in df ==> x.metric != PrimaryCompletion)
    ensures (forall x :: x in df ==> x.metric != GrossEnrollment) ==> r == KeyError(GrossEnrollment)
    ensures (exists x :: x in df && x.metric == GrossEnrollment) && (forall x :: x in df ==> x.metric != PrimaryCompletion)
      ==> r == KeyError(PrimaryCompletion)
    ensures r.Ready? ==> Derivable(df) && r.pressure == DerivePressure(df)
  {
    if !HasMetric(df, GrossEnrollment) then KeyError(GrossEnrollment)
    else if !HasMetric(df, PrimaryCompletion) then KeyError(PrimaryCompletion)
    else Ready(DerivePressure(df))
  }

  /** The maximum Year of the joined rows, the only year `pressure_ratio_df` keeps. */
  function LatestJoinedYear(df: seq<Record>): Option<int>
    requires Derivable(df)
  {
    MaxYear(JoinedPressure(df))
  }

  /** The inner join before the year restriction: a row for (District, Year) exactly when the table holds
      both a GER record and a PCR record for it, carrying their values and the guarded ratio, with
      rows in increasing (District, Year) order and so no pair twice. */
  lemma JoinedPressureSpec(df: seq<Record>)
    requires Derivable(df)
    ensures forall x :: x in JoinedPressure(df) <==>
      && Record(x.district, x.year, GrossEnrollment, x.ger) in df
      && Record(x.district, x.year, PrimaryCompletion, x.pcr) in df
      && x.ratio == PressureRatio(x.ger, x.pcr)
    ensures SortedBy(JoinedPressure(df), PressureKey, DistrictYearLess)
    ensures KeysDistinct(JoinedPressure(df), PressureKey)
  {
    var ger := Pivot(df, GrossEnrollment);
    var pcr := Pivot(df, PrimaryCompletion);
    InnerJoinSorted(ger, pcr);
    var joined := InnerJoin(ger, pcr);
    var rows := AddRatio(joined);
    forall i, j | 0 <= i < j < |rows|
      ensures DistrictYearLess(PressureKey(rows[i]), PressureKey(rows[j]))
    {
      assert PressureKey(rows[i]) == MergedKey(joined[i]);
    }
    DistrictYearOrder();
    SortedDistinct(rows, PressureKey, DistrictYearLess);
  }

  /** Line 19: the final dataset holds exactly the joined rows of the latest joined year, in the same
      (District, Year) order; an empty join leaves it empty. */
  lemma DerivePressureSpec(df: seq<Record>)
    requires Derivable(df)
    ensures forall x :: x in DerivePressure(df) <==> x in JoinedPressure(df) && LatestJoinedYear(df) == Some(x.year)
    ensures forall x, y :: x in DerivePressure(df) && y in JoinedPressure(df) ==> y.year <= x.year
    ensures JoinedPressure(df) == [] ==> DerivePressure(df) == []
    ensures SortedBy(DerivePressure(df), PressureKey, DistrictYearLess)
  {
    JoinedPressureSpec(df);
    var rows := JoinedPressure(df);
    match MaxYear(rows)
    case None =>
    case Some(m) =>
      FilterSorted(rows, (x: PressureRow) => x.year == m, PressureKey, DistrictYearLess);
  }

  /** Every pressure row comes from a GER record and a PCR record of its own (District, Year), and its
      ratio is GER / PCR * 100 when PCR is present and positive and GER present, 0 otherwise. */
  lemma PressureRowsFromSource(df: seq<Record>)
    requires Derivable(df)
    ensures forall x :: x in DerivePressure(df) ==>
      && Record(x.district, x.year, GrossEnrollment, x.ger) in df
      && Record(x.district, x.year, PrimaryCompletion, x.pcr) in df
      && x.ratio == if x.pcr.Some? && x.pcr.value > 0.0 && x.ger.Some? then x.ger.value / x.pcr.value * 100.0 else 0.0
  {
    forall x | x in DerivePressure(df)
      ensures Record(x.district, x.year, GrossEnrollment, x.ger) in df
      ensures Record(x.district, x.year, PrimaryCompletion, x.pcr) in df
      ensures x.ratio == PressureRatio(x.ger, x.pcr)
    {
      assert x in JoinedPressure(df) by {
        DerivePressureSpec(df);
      }
      JoinedPressureSpec(df);
    }
  }

  /** A (District, Year) that lacks a PCR record (or a GER record) gets no pressure row. */
  lemma NoPairNoRow(df: seq<Record>, district: string, year: int)
    requires Derivable(df)
    requires (forall v :: Record(district, year, PrimaryCompletion, v) !in df)
          || (forall v :: Record(district, year, GrossEnrollment, v) !in df)
    ensures forall x :: x in JoinedPressure(df) ==> PressureKey(x) != (district, year)
    ensures forall x :: x in DerivePressure(df) ==> PressureKey(x) != (district, year)
  {
    JoinedPressureSpec(df);
    DerivePressureSpec(df);
  }

  /** GER = 150 and PCR = 75 for a (District, Year) give a joined row with pressure ratio 200. */
  lemma KampalaRatio(df: seq<Record>, district: string, year: int)
    requires Derivable(df)
    requires Record(district, year, GrossEnrollment, Some(150.0)) in df
    requires Record(district, year, PrimaryCompletion, Some(75.0)) in df
    ensures PressureRow(district, year, Some(150.0), Some(75.0), 200.0) in JoinedPressure(df)
  {
    JoinedPressureSpec(df);
    assert PressureRatio(Some(150.0), Some(75.0)) == 200.0;
  }
}
