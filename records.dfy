/** The long-format table the dashboard loads: one row per
    (District, Year, Metric) with a possibly missing Value. */
module Records {

  /** A possibly missing cell; `None` stands for pandas' NaN. */
  datatype Option<+T> = None | Some(value: T)

  /** One row of the table, with its four columns District, Year, Metric, Value. */
  datatype Record = Record(district: string, year: int, metric: string, value: Option<real>)

  const GrossEnrollment: string := "Gross Enrollment Ratio"
  const PrimaryCompletion: string := "Primary Completion Ratio"

  /** Python truthiness of a dropdown value: `None` and the empty string are falsy. */
  predicate Truthy(v: Option<string>)
  {
    v.Some? && v.value != ""
  }

  /** `pivot(index=[District, Year], columns=Metric)` over the rows of `metric` raises
      unless each (District, Year) carries at most one row of that metric. */
  ghost predicate SingleValued(df: seq<Record>, metric: string)
  {
    forall i, j :: 0 <= i < j < |df| && df[i].metric == metric && df[j].metric == metric ==>
      (df[i].district, df[i].year) != (df[j].district, df[j].year)
  }
}
