/** The `download_csv` callback: the rows written to the exported CSV file. */
module Export {
  import opened Records
  import opened Sequences
  import opened ViewResolver

  /** Lines 108-112, which repeat the table filter of `update_dashboard`: the CSV holds exactly the rows
      the table shows for the same Region, Year and Metric, in the same order. */
  function DownloadCsvRows(df: seq<Record>, region: Option<string>, year: int, metric: Option<string>): (r: seq<Record>)
    ensures r == TableRows(df, region, year, metric)
  {
    var byYear := Filter(df, (x: Record) => x.year == year);
    var byRegion :=
      if Truthy(region) then (var d := region.value; Filter(byYear, (x: Record) => x.district == d))
      else byYear;
    if Truthy(metric) then (var m := metric.value; Filter(byRegion, (x: Record) => x.metric == m))
    else byRegion
  }
}
