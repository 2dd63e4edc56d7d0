/** The data pipeline of the report: the NASA POWER proxy table built at
    fetch time, and at export time the hourly-to-daily resample, the inner
    merge with the proxy table, the monthly and yearly summaries, and the
    four sheets of the workbook. */
module Pipeline {
  import opened Outcomes
  import opened Calendar
  import opened DateText
  import opened Tables

  /** One parameter of the NASA POWER reply: its YYYYMMDD keys and values,
      in the order the JSON object lists them. */
  type Series = seq<(string, real)>

  /** The reply's properties.parameter object, by parameter name. */
  type Parameters = map<string, Series>

  const SurfaceTempParam: string := "TS"
  const IrradianceParam: string := "ALLSKY_SFC_SW_DWN"
  const SurfaceTempColumn: string := "Land_Surface_Temp_C"
  const IrradianceColumn: string := "Solar_Irradiance_kW_m2"

  /** Why a fetch failed before anything was stored. */
  datatype FetchError =
    | WeatherFailed              // the Open-Meteo reply could not be read into the hourly table
    | RequestFailed              // NASA POWER could not be reached or replied without the expected object
    | MissingParameter(name: string)
    | UnreadableDate             // a TS key that pandas cannot read as a date
    | LengthMismatch             // DataFrame columns of different lengths

  /** A Python dict's keys are distinct. */
  predicate DistinctNames(s: Series)
  {
    forall i, j :: 0 <= i < j < |s| ==> s[i].0 != s[j].0
  }

  predicate AllKeysAreDates(s: Series)
  {
    forall k :: 0 <= k < |s| ==> ParseCompactDate(s[k].0).Some?
  }

  /** The proxy table of a fetch: one row per TS key, dated by that key, with
      the k-th TS value and the k-th ALLSKY_SFC_SW_DWN value. */
  function ProxyTable(parameter: Option<Parameters>): (r: Result<Table<Date>, FetchError>)
    ensures r.Ok? <==>
              && parameter.Some?
              && SurfaceTempParam in parameter.value && IrradianceParam in parameter.value
              && AllKeysAreDates(parameter.value[SurfaceTempParam])
              && |parameter.value[IrradianceParam]| == |parameter.value[SurfaceTempParam]|
    ensures parameter.Some? && SurfaceTempParam !in parameter.value ==> r == Err(MissingParameter(SurfaceTempParam))
    ensures r.Ok? ==>
              var ts, sw := parameter.value[SurfaceTempParam], parameter.value[IrradianceParam];
              && r.value.columns == [SurfaceTempColumn, IrradianceColumn]
              && |r.value.rows| == |ts|
              && forall k :: 0 <= k < |ts| ==>
                   && ValidDate(r.value.rows[k].key) && 0 <= r.value.rows[k].key.year <= 9999
                   && FormatCompactDate(r.value.rows[k].key) == ts[k].0
                   && r.value.rows[k].cells == [Some(ts[k].1), Some(sw[k].1)]
  {
    match parameter
    case None => Err(RequestFailed)
    case Some(p) =>
      if SurfaceTempParam !in p then Err(MissingParameter(SurfaceTempParam))
      else
        var ts := p[SurfaceTempParam];
        if !AllKeysAreDates(ts) then Err(UnreadableDate)
        else if IrradianceParam !in p then Err(MissingParameter(IrradianceParam))
        else
          var sw := p[IrradianceParam];
          if |sw| != |ts| then Err(LengthMismatch)
          else
            var rows := seq(|ts|, k requires 0 <= k < |ts| =>
              Row(ParseCompactDate(ts[k].0).value, [Some(ts[k].1), Some(sw[k].1)]));
            assert forall k :: 0 <= k < |ts| ==> FormatCompactDate(rows[k].key) == ts[k].0 by {
              forall k | 0 <= k < |ts| ensures FormatCompactDate(rows[k].key) == ts[k].0 {
                FormatParse(ts[k].0);
              }
            }
            Ok(Table([SurfaceTempColumn, IrradianceColumn], rows))
  }

  /** A proxy table as the export step reads it back. */
  predicate ValidProxy(p: Table<Date>)
  {
    WellFormed(p) && forall i :: 0 <= i < |p.rows| ==> ValidDate(p.rows[i].key)
  }

  /** Distinct TS keys give distinct proxy dates. */
  lemma ProxyDatesDistinct(parameter: Option<Parameters>)
    requires ProxyTable(parameter).Ok?
    requires DistinctNames(parameter.value[SurfaceTempParam])
    ensures ValidProxy(ProxyTable(parameter).value)
    ensures DistinctKeys(ProxyTable(parameter).value.rows)
  {
  }

  /** An hourly table as parsed from the Open-Meteo reply. */
  predicate ValidHourly(h: Table<Timestamp>)
  {
    WellFormed(h) && forall i :: 0 <= i < |h.rows| ==> ValidTimestamp(h.rows[i].key)
  }

  function HourDates(rows: seq<Row<Timestamp>>): (ds: seq<Date>)
    ensures |ds| == |rows| && forall i :: 0 <= i < |rows| ==> ds[i] == rows[i].key.date
  {
    seq(|rows|, i requires 0 <= i < |rows| => rows[i].key.date)
  }

  /** A daily table: well formed, dated by valid dates. */
  predicate ValidDaily(m: Table<Date>)
  {
    WellFormed(m) && forall i :: 0 <= i < |m.rows| ==> ValidDate(m.rows[i].key)
  }

  /** The daily resample of the hourly table: one row for every calendar day from the
      first to the last hourly record, each cell the mean of its column over
      the records of that day. */
  function DailyWeather(h: Table<Timestamp>): (d: Table<Date>)
    requires ValidHourly(h)
    ensures d.columns == h.columns && ValidDaily(d)
  {
    if h.rows == [] then Table(h.columns, [])
    else
      var ds := HourDates(h.rows);
      var span := DaySpan(Earliest(ds), Latest(ds));
      var d := Resample(h, DateOf, span);
      assert Keys(d.rows) == span;
      d
  }

  /** The daily table covers every calendar day from the first hourly date
      to the last, in ascending order, one row per day, so every hourly
      record's date has exactly one daily row. */
  lemma DailyWeatherDays(h: Table<Timestamp>)
    requires ValidHourly(h) && h.rows != []
    ensures var d := DailyWeather(h).rows;
      var first, last := Earliest(HourDates(h.rows)), Latest(HourDates(h.rows));
      && d != [] && d[0].key == first && Ord(d[|d| - 1].key) <= Ord(last)
      && (forall i :: 0 <= i < |d| - 1 ==> d[i + 1].key == NextDay(d[i].key))
      && Ascending(Keys(d), Ord)
      && (forall i :: 0 <= i < |d| ==> ValidDate(d[i].key))
      && (forall x :: ValidDate(x) ==> (x in Keys(d) <==> Ord(first) <= Ord(x) <= Ord(last)))
      && (forall i :: 0 <= i < |h.rows| ==> h.rows[i].key.date in Keys(d))
  {
    var ds := HourDates(h.rows);
    var first, last := Earliest(ds), Latest(ds);
    var span := DaySpan(first, last);
    var d := DailyWeather(h).rows;
    assert Keys(d) == span;
    DaySpanConsecutive(first, last);
    forall x | ValidDate(x) && Ord(first) <= Ord(x) <= Ord(last) ensures x in span {
      DaySpanCovers(first, last, x);
    }
    forall i | 0 <= i < |h.rows| ensures h.rows[i].key.date in span {
      assert ds[i] == h.rows[i].key.date;
    }
  }

  /** A daily cell is missing exactly when no record of that day has a value
      in that column: a day without any hourly record gives a row of missing
      cells, never zeros. */
  lemma DailyWeatherMissing(h: Table<Timestamp>, i: nat, j: nat)
    requires ValidHourly(h) && i < |DailyWeather(h).rows| && j < |h.columns|
    ensures var row := DailyWeather(h).rows[i];
      row.cells[j].None? <==> forall r :: r in h.rows && r.key.date == row.key ==> Cell(r, j).None?
  {
    var d := DailyWeather(h);
    BinMeanMissing(h.rows, DateOf, d.rows[i].key, j);
  }

  /** When every reading of a column on a day is c (or missing), and at least
      one is c, that day's daily mean is c. */
  lemma DailyWeatherOfConstantDay(h: Table<Timestamp>, i: nat, j: nat, c: real)
    requires ValidHourly(h) && i < |DailyWeather(h).rows| && j < |h.columns|
    requires forall r :: r in h.rows && r.key.date == DailyWeather(h).rows[i].key ==>
               Cell(r, j) == None || Cell(r, j) == Some(c)
    requires exists r :: r in h.rows && r.key.date == DailyWeather(h).rows[i].key && Cell(r, j) == Some(c)
    ensures DailyWeather(h).rows[i].cells[j] == Some(c)
  {
    var d := DailyWeather(h);
    BinMeanOfConstant(h.rows, DateOf, d.rows[i].key, j, c);
  }

  /** A daily mean lies between the smallest and largest reading of that day. */
  lemma DailyWeatherWithin(h: Table<Timestamp>, i: nat, j: nat, lo: real, hi: real)
    requires ValidHourly(h) && i < |DailyWeather(h).rows| && j < |h.columns|
    requires forall r :: r in h.rows && r.key.date == DailyWeather(h).rows[i].key && Cell(r, j).Some? ==>
               lo <= Cell(r, j).value <= hi
    requires DailyWeather(h).rows[i].cells[j].Some?
    ensures lo <= DailyWeather(h).rows[i].cells[j].value <= hi
  {
    var d := DailyWeather(h);
    BinMeanWithin(h.rows, DateOf, d.rows[i].key, j, lo, hi);
  }

  /** The inner merge of the daily table with the proxy table on the date. */
  function MergeDaily(daily: Table<Date>, proxy: Table<Date>): (m: Table<Date>)
    ensures m.columns == daily.columns + proxy.columns
  {
    InnerJoin(daily, proxy)
  }

  /** The merge is an inner join on the date: its dates are the daily dates
      that also occur in the proxy table, once each and in the ascending
      order of the daily table; each merged row is a daily row followed by
      the proxy cells of the same date, and no row is invented. */
  lemma MergeDailyIsInnerJoin(daily: Table<Date>, proxy: Table<Date>)
    requires WellFormed(daily) && WellFormed(proxy) && DistinctKeys(proxy.rows)
    requires Ascending(Keys(daily.rows), Ord)
    ensures var m := MergeDaily(daily, proxy);
      && WellFormed(m)
      && Keys(m.rows) == KeptKeys(Keys(daily.rows), Keys(proxy.rows))
      && (forall k :: k in Keys(m.rows) <==> k in Keys(daily.rows) && k in Keys(proxy.rows))
      && Ascending(Keys(m.rows), Ord)
      && (forall o :: o in m.rows <==>
            exists l, r :: l in daily.rows && r in proxy.rows && l.key == r.key && o == Row(l.key, l.cells + r.cells))
  {
    JoinWellFormed(daily, proxy);
    JoinKeys(daily.rows, proxy.rows);
    var m := MergeDaily(daily, proxy);
    assert m.rows == JoinRows(daily.rows, proxy.rows);
    KeptKeysAscending(Keys(daily.rows), Keys(proxy.rows), Ord);
    forall o
      ensures o in m.rows <==>
        exists l, r :: l in daily.rows && r in proxy.rows && l.key == r.key && o == Row(l.key, l.cells + r.cells)
    {
      if o in m.rows {
        var l, r := JoinRowOrigin(daily.rows, proxy.rows, o);
      }
      if exists l, r :: l in daily.rows && r in proxy.rows && l.key == r.key && o == Row(l.key, l.cells + r.cells) {
        var l, r :| l in daily.rows && r in proxy.rows && l.key == r.key && o == Row(l.key, l.cells + r.cells);
        JoinRowFrom(daily.rows, proxy.rows, l, r);
      }
    }
  }

  /** Because the daily table has a row for every day of the hourly span,
      the merge keeps exactly the proxy dates inside that span, including
      days on which no hourly record falls. */
  lemma MergedDates(h: Table<Timestamp>, proxy: Table<Date>, x: Date)
    requires ValidHourly(h) && h.rows != [] && ValidProxy(proxy) && DistinctKeys(proxy.rows)
    requires ValidDate(x)
    ensures x in Keys(MergeDaily(DailyWeather(h), proxy).rows) <==>
              x in Keys(proxy.rows)
              && Ord(Earliest(HourDates(h.rows))) <= Ord(x) <= Ord(Latest(HourDates(h.rows)))
  {
    DailyWeatherDays(h);
    MergeDailyIsInnerJoin(DailyWeather(h), proxy);
  }

  /** Merged dates are dates of the daily table, so they are valid dates. */
  lemma MergedValid(daily: Table<Date>, proxy: Table<Date>)
    requires ValidDaily(daily) && ValidProxy(proxy)
    ensures ValidDaily(MergeDaily(daily, proxy))
  {
    var m := MergeDaily(daily, proxy);
    JoinWellFormed(daily, proxy);
    JoinKeysFromBoth(daily.rows, proxy.rows);
    forall i | 0 <= i < |m.rows| ensures ValidDate(m.rows[i].key) {
      var k :| 0 <= k < |daily.rows| && Keys(daily.rows)[k] == m.rows[i].key;
    }
  }

  /** The month-end resample of the merged table: one row for every calendar
      month from the first merged date to the last, each cell the mean of its
      column over the merged days of that month. */
  function MonthlySummary(m: Table<Date>): (t: Table<YearMonth>)
    requires ValidDaily(m)
    ensures t.columns == m.columns && WellFormed(t)
  {
    if m.rows == [] then Table(m.columns, [])
    else
      var ds := Keys(m.rows);
      Resample(m, MonthOf, MonthSpan(MonthOf(Earliest(ds)), MonthOf(Latest(ds))))
  }

  /** The year-end resample of the merged table: one row for every year from
      the first merged date to the last. */
  function YearlySummary(m: Table<Date>): (t: Table<int>)
    requires ValidDaily(m)
    ensures t.columns == m.columns && WellFormed(t)
  {
    if m.rows == [] then Table(m.columns, [])
    else
      var ds := Keys(m.rows);
      Resample(m, YearOf, YearSpan(Earliest(ds).year, Latest(ds).year))
  }

  /** The monthly summary has one row per calendar month from the first
      merged month to the last, consecutive and ascending, and every merged
      day's month is among them. */
  lemma MonthlySummaryMonths(m: Table<Date>)
    requires ValidDaily(m) && m.rows != []
    ensures var t := MonthlySummary(m).rows;
      var first, last := MonthOf(Earliest(Keys(m.rows))), MonthOf(Latest(Keys(m.rows)));
      && |t| == MonthIndex(last) - MonthIndex(first) + 1
      && (forall i :: 0 <= i < |t| ==> ValidMonth(t[i].key) && MonthIndex(t[i].key) == MonthIndex(first) + i)
      && (forall i :: 0 <= i < |m.rows| ==> MonthOf(m.rows[i].key) in Keys(t))
  {
    var ds := Keys(m.rows);
    var e, l := Earliest(ds), Latest(ds);
    BinsAreMonotone(e, l);
    var t := MonthlySummary(m).rows;
    assert Keys(t) == MonthSpan(MonthOf(e), MonthOf(l));
    forall i | 0 <= i < |m.rows| ensures MonthOf(m.rows[i].key) in Keys(t) {
      assert ds[i] == m.rows[i].key;
      BinsAreMonotone(e, ds[i]);
      BinsAreMonotone(ds[i], l);
    }
  }

  /** The yearly summary has one row per year from the first merged year to
      the last, consecutive and ascending. */
  lemma YearlySummaryYears(m: Table<Date>)
    requires ValidDaily(m) && m.rows != []
    ensures var t := YearlySummary(m).rows;
      var first, last := Earliest(Keys(m.rows)).year, Latest(Keys(m.rows)).year;
      && |t| == last - first + 1
      && (forall i :: 0 <= i < |t| ==> t[i].key == first + i)
      && (forall i :: 0 <= i < |m.rows| ==> m.rows[i].key.year in Keys(t))
  {
    var ds := Keys(m.rows);
    var e, l := Earliest(ds), Latest(ds);
    BinsAreMonotone(e, l);
    var t := YearlySummary(m).rows;
    assert Keys(t) == YearSpan(e.year, l.year);
    forall i | 0 <= i < |m.rows| ensures m.rows[i].key.year in Keys(t) {
      assert ds[i] == m.rows[i].key;
      BinsAreMonotone(e, ds[i]);
      BinsAreMonotone(ds[i], l);
    }
  }

  /** A monthly cell is missing exactly when no merged day of that month has
      a value in that column. */
  lemma MonthlySummaryMissing(m: Table<Date>, i: nat, j: nat)
    requires ValidDaily(m) && i < |MonthlySummary(m).rows| && j < |m.columns|
    ensures var row := MonthlySummary(m).rows[i];
      row.cells[j].None? <==> forall r :: r in m.rows && MonthOf(r.key) == row.key ==> Cell(r, j).None?
  {
    BinMeanMissing(m.rows, MonthOf, MonthlySummary(m).rows[i].key, j);
  }

  /** When every merged day of a month has value c in a column (or none),
      and at least one has c, the month's mean is c. */
  lemma MonthlySummaryOfConstantMonth(m: Table<Date>, i: nat, j: nat, c: real)
    requires ValidDaily(m) && i < |MonthlySummary(m).rows| && j < |m.columns|
    requires forall r :: r in m.rows && MonthOf(r.key) == MonthlySummary(m).rows[i].key ==>
               Cell(r, j) == None || Cell(r, j) == Some(c)
    requires exists r :: r in m.rows && MonthOf(r.key) == MonthlySummary(m).rows[i].key && Cell(r, j) == Some(c)
    ensures MonthlySummary(m).rows[i].cells[j] == Some(c)
  {
    BinMeanOfConstant(m.rows, MonthOf, MonthlySummary(m).rows[i].key, j, c);
  }

  /** A yearly cell is missing exactly when no merged day of that year has a
      value in that column. */
  lemma YearlySummaryMissing(m: Table<Date>, i: nat, j: nat)
    requires ValidDaily(m) && i < |YearlySummary(m).rows| && j < |m.columns|
    ensures var row := YearlySummary(m).rows[i];
      row.cells[j].None? <==> forall r :: r in m.rows && YearOf(r.key) == row.key ==> Cell(r, j).None?
  {
    BinMeanMissing(m.rows, YearOf, YearlySummary(m).rows[i].key, j);
  }

  /** When every merged day of a year has value c in a column (or none), and
      at least one has c, the year's mean is c. */
  lemma YearlySummaryOfConstantYear(m: Table<Date>, i: nat, j: nat, c: real)
    requires ValidDaily(m) && i < |YearlySummary(m).rows| && j < |m.columns|
    requires forall r :: r in m.rows && YearOf(r.key) == YearlySummary(m).rows[i].key ==>
               Cell(r, j) == None || Cell(r, j) == Some(c)
    requires exists r :: r in m.rows && YearOf(r.key) == YearlySummary(m).rows[i].key && Cell(r, j) == Some(c)
    ensures YearlySummary(m).rows[i].cells[j] == Some(c)
  {
    BinMeanOfConstant(m.rows, YearOf, YearlySummary(m).rows[i].key, j, c);
  }

  /** The content of one sheet of the workbook, with its index as the first column. */
  datatype SheetData =
    | HourlyData(hourly: Table<Timestamp>)
    | DailyData(daily: Table<Date>)
    | MonthlyData(monthly: Table<YearMonth>)
    | YearlyData(yearly: Table<int>)

  datatype Sheet = Sheet(name: string, data: SheetData)

  const HourlySheet: string := "Hourly_Weather"
  const DailySheet: string := "Daily_Weather_and_NDVI_Proxy"
  const MonthlySheet: string := "Monthly_Summary"
  const YearlySheet: string := "Yearly_Summary"
  const ReportFileName: string := "Environmental_Data_Report.xlsx"

  function SheetNames(sheets: seq<Sheet>): (names: seq<string>)
    ensures |names| == |sheets| && forall i :: 0 <= i < |sheets| ==> names[i] == sheets[i].name
  {
    seq(|sheets|, i requires 0 <= i < |sheets| => sheets[i].name)
  }

  lemma NamesOfFour(a: Sheet, b: Sheet, c: Sheet, d: Sheet)
    ensures SheetNames([a, b, c, d]) == [a.name, b.name, c.name, d.name]
  {
  }

  /** The Daily_Weather_and_NDVI_Proxy table: the daily means of the hourly
      table merged with the proxy table. */
  function Combined(h: Table<Timestamp>, proxy: Table<Date>): (m: Table<Date>)
    requires ValidHourly(h) && ValidProxy(proxy)
    ensures ValidDaily(m) && m.columns == h.columns + proxy.columns
  {
    MergedValid(DailyWeather(h), proxy);
    MergeDaily(DailyWeather(h), proxy)
  }

  /** The workbook of an export: the hourly table as stored, the merged
      daily table, and its monthly and yearly summaries, in that order. */
  function Report(h: Table<Timestamp>, proxy: Table<Date>): (sheets: seq<Sheet>)
    requires ValidHourly(h) && ValidProxy(proxy)
    ensures SheetNames(sheets) == [HourlySheet, DailySheet, MonthlySheet, YearlySheet]
    ensures sheets[0].data == HourlyData(h)
    ensures sheets[1].data == DailyData(Combined(h, proxy))
    ensures sheets[2].data == MonthlyData(MonthlySummary(Combined(h, proxy)))
    ensures sheets[3].data == YearlyData(YearlySummary(Combined(h, proxy)))
  {
    var merged := Combined(h, proxy);
    var hourly := Sheet(HourlySheet, HourlyData(h));
    var daily := Sheet(DailySheet, DailyData(merged));
    var monthly := Sheet(MonthlySheet, MonthlyData(MonthlySummary(merged)));
    var yearly := Sheet(YearlySheet, YearlyData(YearlySummary(merged)));
    NamesOfFour(hourly, daily, monthly, yearly);
    [hourly, daily, monthly, yearly]
  }
}
