# Uganda education access dashboard — data-transform model

This project models the data-transform logic of `education_status_dashboard.py`, a Dash
dashboard over a long-format table of education metrics (columns District, Year, Metric and
Value). The model is written as pure Dafny functions over a sequence of records, with lemmas
about them:

- **Data preparation** (`DataPreparation`, lines 14-19). Pivot the "Gross Enrollment Ratio" (GER)
  rows and the "Primary Completion Ratio" (PCR) rows by (District, Year). Inner-join the two
  pivots. Compute the Enrollment Pressure Ratio `GER / PCR * 100`, guarded against a missing,
  zero or negative PCR. Keep only the latest year of the joined rows.
- **View resolution** (`ViewResolver`, lines 60-97). From the Region, Year and Metric selected
  in the UI, compute the rows behind the two choropleth maps, the trend chart and the data table.
- **CSV export** (`Export`, lines 107-113). Compute the rows of the downloaded CSV.

Two support modules stand in for pandas:

- `Sequences` covers boolean-mask selection and sorting by an index key.
- `Ordering` covers Python's code-point string order and the level-by-level order of the
  composite keys that `pivot` and `groupby` sort.

`Records` holds the record type, the two metric names and Python truthiness of a dropdown value
(`None` and `""` are falsy).

Representation choices:

- Values are `real`. A missing cell (pandas NaN) is `None` of an `Option`.
- The region and metric selections are `Option<string>`. The year selection is an `int`.
- `pivot` sorts its (District, Year) index. `Pivot` therefore sorts with an insertion sort under
  the lexicographic order. It is proved to return exactly the records of its metric, in strictly
  increasing key order.
- `merge(how='inner')` keeps the order of its left frame, and `InnerJoin` does the same.
- `groupby` sorts its (Year, Metric) keys, and the trend points are in that order.
- A frame's `max()` of an empty Year column is NaN. It is modelled as `None`, and the line-19
  filter then keeps nothing.

Two behaviours of the code are easy to misread:

- The pressure map DOES apply the year filter (line 69), after the optional region filter
  (line 68). The pressure dataset holds only the latest joined year, so any other selected year
  gives an empty pressure map (`PressureMapSpec`).
- Line 17 substitutes `1e-10` only for a PCR of exactly 0 (`replace(0, 1e-10)`), not for every
  PCR below `1e-10`. Line 18 then overrides the ratio to 0 whenever PCR is missing or `<= 0`, so
  the substitute never reaches the output (`PressureRatio`).
- A table with no GER record at all, or no PCR record at all, stops the application while it
  loads. The empty pivot of line 14 or 15 has only District and Year, so line 17 raises
  `KeyError` for the missing column (`LoadPressure`). The pressure dataset, the pressure map and
  the callback are therefore defined only for a table holding both metrics (`Derivable`).

## Model

| member | source | states |
|---|---|---|
| `Sequences.Filter` | education_status_dashboard.py:61-65 | A boolean mask keeps exactly the rows that satisfy it, each as many times as in the source, and never more rows than the source. |
| `Sequences.FilterAppend` | education_status_dashboard.py:61-65 | Masking distributes over concatenation, so selected rows keep their source order. |
| `Sequences.SortSorted` | education_status_dashboard.py:14-15 | Sorting rows whose keys are distinct, under a strict total order, gives strictly increasing keys. |
| `Ordering.DistrictYearOrder` | education_status_dashboard.py:14-15 | The (District, Year) index order of `pivot` is a strict total order: code-point string order on District, then Year. |
| `Ordering.YearMetricOrder` | education_status_dashboard.py:91 | The (Year, Metric) group order of `groupby` is a strict total order. |
| `DataPreparation.Select` | education_status_dashboard.py:14-15 | The mask `df['Metric'] == metric` keeps a (District, Year, Value) exactly when the table has that record for the metric. |
| `DataPreparation.Pivot` | education_status_dashboard.py:14-15 | A pivoted metric holds a row for (District, Year, Value) exactly when the table has that record for the metric, in strictly increasing (District, Year) order. |
| `DataPreparation.InnerJoin` | education_status_dashboard.py:16 | A merged row (District, Year, GER, PCR) exists exactly when the left frame has (District, Year, GER) and the right frame has (District, Year, PCR). |
| `DataPreparation.MatchRightAtMostOne` | education_status_dashboard.py:16 | When the right frame's keys are distinct, a left row joins with at most one right row. |
| `DataPreparation.InnerJoinSorted` | education_status_dashboard.py:16 | Merging two key-sorted pivots gives rows in strictly increasing (District, Year) order, so no pair appears twice. |
| `DataPreparation.Divisor` | education_status_dashboard.py:17 | `replace(0, 1e-10)` never yields a zero divisor, and it leaves any non-zero PCR unchanged. |
| `DataPreparation.RawRatio` | education_status_dashboard.py:17 | Before `fillna`, the line-17 ratio is missing exactly when GER or PCR is missing. |
| `DataPreparation.PressureRatio` | education_status_dashboard.py:17-18 | The ratio is GER / PCR * 100 when PCR is present and positive and GER is present. Otherwise it is 0, including when PCR is exactly 0, so the `1e-10` substitute never shows. |
| `DataPreparation.AddRatio` | education_status_dashboard.py:17-18 | Adding the ratio column keeps each row's key in place. A row appears exactly when its merged row does, and its ratio is the guarded ratio. |
| `DataPreparation.MaxYear` | education_status_dashboard.py:19 | The maximum Year is missing exactly for an empty frame. Otherwise it bounds every row's Year and some row carries it. |
| `DataPreparation.JoinedPressure` | education_status_dashboard.py:14-18 | The frame after line 18 has a row for (District, Year) exactly when the table holds a GER record and a PCR record for it; the row carries their values and the guarded ratio. `JoinedPressureSpec` adds its key order. |
| `DataPreparation.LatestYearOnly` | education_status_dashboard.py:19 | The line-19 filter keeps exactly the rows whose Year is the frame's maximum Year, and no row of the frame is later than a kept row. |
| `DataPreparation.DerivePressure` | education_status_dashboard.py:14-19 | Every final row pairs a GER record with the PCR record of the same (District, Year), and the rows are exactly the joined rows of the latest joined Year. `DerivePressureSpec` adds the key order and the empty case. |
| `DataPreparation.LoadPressure` | education_status_dashboard.py:14-19 | Start-up fails with `KeyError` exactly when the table has no GER record or no PCR record; the missing GER column is reported first, as line 17 reads it first. Otherwise the pressure dataset is `DerivePressure`. |
| `DataPreparation.JoinedPressureSpec` | education_status_dashboard.py:14-18 | For a table holding both metrics (otherwise `LoadPressure` gives the `KeyError`), before the year cut there is a row for (District, Year) exactly when the table holds both a GER record and a PCR record for it. The row carries their values and the guarded ratio. Rows are in strictly increasing key order, so every pair with both records appears exactly once. |
| `DataPreparation.DerivePressureSpec` | education_status_dashboard.py:19 | The final dataset holds exactly the joined rows whose Year is the maximum joined Year. No joined row is later than any kept row. An empty join gives an empty dataset, and the key order is kept. |
| `DataPreparation.PressureRowsFromSource` | education_status_dashboard.py:14-18 | Every final row has a GER record and a PCR record of its own (District, Year) in the table. Its ratio is GER / PCR * 100 or 0 as guarded. |
| `DataPreparation.NoPairNoRow` | education_status_dashboard.py:16 | A (District, Year) that lacks a PCR record or a GER record gets no pressure row, before or after the year cut. |
| `DataPreparation.KampalaRatio` | education_status_dashboard.py:17 | GER 150 and PCR 75 for one (District, Year) give a joined row with pressure ratio 200. |
| `ViewResolver.TableRows` | education_status_dashboard.py:61-65 | The table holds a source row exactly when its Year is the selected Year and, for each truthy selection, its District and Metric equal it. `TableRowsSpec` adds multiplicities and order. |
| `ViewResolver.TableRowsSpec` | education_status_dashboard.py:61-65 | The table equals a single mask: Year equal to the selection, plus District and Metric equality only when those selections are truthy. It holds exactly the matching source rows with their multiplicities. |
| `ViewResolver.TableRowsAppend` | education_status_dashboard.py:61-65 | The table keeps source order: rows drawn from `a + b` are those drawn from `a`, then those drawn from `b`. |
| `ViewResolver.TableRowsUnknownValue` | education_status_dashboard.py:61-65 | A selected District, Metric or Year that no row carries gives an empty table, not an error. |
| `ViewResolver.PressureMapRows` | education_status_dashboard.py:68-69 | The pressure map holds a pressure row exactly when its Year is the selected Year and, for a truthy Region, its District is the Region. `PressureMapRowsSpec` and `PressureMapSpec` add order and the latest-year consequence. |
| `ViewResolver.PressureMapRowsSpec` | education_status_dashboard.py:68-69 | On any pressure frame, the map rows are exactly the rows of the selected Year, and of the District when one is truthy, in source order. No row of that Year gives an empty map. Every row of that Year with no District gives the whole frame. |
| `ViewResolver.PressureMapSpec` | education_status_dashboard.py:68-69 | The pressure map holds exactly the pressure rows of the selected Year, and of the District when one is truthy, in key order. It is empty unless the Year is the latest joined year. With that year and no District, it is the whole pressure dataset. |
| `ViewResolver.CompletionMapRows` | education_status_dashboard.py:79-81 | The completion map holds (District, Year, Value) exactly when the table has that PCR record, its Year is the selected Year and, for a truthy Region, its District is the Region. `CompletionMapSpec` adds the key order. |
| `ViewResolver.CompletionMapSpec` | education_status_dashboard.py:79-81 | The completion map holds exactly the PCR records of the selected Year, and of the District when one is truthy, in strictly increasing (District, Year) order. |
| `ViewResolver.Mean` | education_status_dashboard.py:91 | A group's mean is missing exactly when none of its Values is present. |
| `ViewResolver.MeanBetween` | education_status_dashboard.py:91 | A present mean lies between any lower and upper bound of the group's present Values. |
| `ViewResolver.GroupValuesFilter` | education_status_dashboard.py:91 | Dropping the non-ratio rows before grouping leaves each ratio group's Values unchanged. |
| `ViewResolver.TrendSeries` | education_status_dashboard.py:91 | The trend has only points of the two ratio metrics and never more points than the table has rows. `TrendSeriesSpec` and `TrendSeriesComplete` give its order, its means and its completeness. |
| `ViewResolver.TrendSeriesSpec` | education_status_dashboard.py:91 | Trend points are in strictly increasing (Year, Metric) order, so there is one per pair. Each is for a ratio metric that occurs in the table in that Year. Its value is the mean of that group's Values over all Districts. |
| `ViewResolver.TrendSeriesComplete` | education_status_dashboard.py:91 | Every (Year, Metric) of a ratio metric in the table has a trend point. |
| `ViewResolver.UpdateDashboard` | education_status_dashboard.py:60-97 | The callback's pressure map holds the pressure rows of the selected Year and truthy Region, its completion map the matching PCR records, its trend only ratio metrics, and its table the rows that match all three selections. |
| `ViewResolver.UpdateDashboardDependencies` | education_status_dashboard.py:60-91 | The trend chart does not depend on Region, Year or Metric. Neither map depends on Metric. |
| `Export.DownloadCsvRows` | education_status_dashboard.py:107-112 | The CSV export selects exactly the rows the table shows for the same Region, Year and Metric, in the same order. |

## Left out

- Reading `education_data_long.csv` and `uganda_districts.json` (lines 9-11) is file I/O. The table is a parameter of every function, and the district geometry is not modelled.
- The Dash application, layout and widget options are not modelled (lines 21-54). Neither are the callback registration, `PreventUpdate` and `app.run` (lines 56-59, 99-106, 115-119, 124-128, 133-134). They are framework wiring. The slider's integer value is taken as the `year` parameter.
- Figure construction is not modelled: `px.choropleth_mapbox`, `px.line`, colour scales, ranges, titles and hover templates (lines 70-76, 82-88, 92-95). That rendering happens inside a plotting library. The model stops at the rows each figure receives.
- PNG export through `fig.to_image` and `dcc.send_bytes` (lines 121-122, 130-131) is encoding plumbing, and so is CSV serialisation through `to_csv` and `send_data_frame` (line 113). Only the exported rows are modelled.
- IEEE floating-point rounding, infinities and NaN propagation are not modelled. Values are exact reals, and NaN is `None`.
- The `ValueError` that `pivot` raises on a duplicate (District, Year) within a metric is a precondition here (`SingleValued`), not a modelled error path.
- Rows whose District or Year is itself missing are not modelled: every record has a District string and an integer Year.
- The column names of the merged frame are not modelled. The model uses fields `ger`, `pcr` and `ratio` for the columns 'Gross Enrollment Ratio', 'Primary Completion Ratio' and 'Enrollment Pressure Ratio'.
- Line 17 on a negative PCR is modelled (it divides by that PCR), but line 18 always overrides the result to 0.
