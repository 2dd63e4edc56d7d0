# Environmental data report: a verified model

A small Flask service is modelled here. It turns a region drawn on a map into an environmental data workbook:

- `get_centroid` reduces the region to one coordinate.
- `get_weather_data` queries two providers for that coordinate and a date range, then keeps the replies as the latest pair:
  - the Open-Meteo archive returns hourly weather and soil readings;
  - NASA POWER returns daily surface temperature and solar irradiance, the "NDVI proxy".
- `download` reads the latest pair back and builds a four-sheet workbook:
  - the hourly readings;
  - their daily means, inner-merged with the proxy table on the date;
  - the monthly means of the merged table;
  - the yearly means of the merged table.

The model works over exact reals. Dates are `(year, month, day)` values on the proleptic Gregorian calendar, and hourly timestamps are `(date, hour)` pairs. A table cell is an `Option<real>`; `None` stands for pandas' NaN. The modules are:

- `Outcomes`: the `Option` and `Result` types.
- `Stats`: `Sum`, and `Mean` as pandas computes it with `skipna`, which is the mean of the present values or `None` when there are none.
- `Calendar`: dates, the chronological rank `Ord`, the day after a date, and the day, month and year bins a resample groups by.
- `Centroid`: the region resolver.
- `DateText`: the default date range, dash removal (ISO 8601 extended form `YYYY-MM-DD` to basic form `YYYYMMDD`), and reading and writing `YYYYMMDD` dates.
- `Tables`: rows and tables, the grouping performed by `resample().mean()`, and the inner merge.
- `Pipeline`: the proxy table built at fetch time, the daily, merged, monthly and yearly tables, and the workbook.
- `Session`: the class `Store`. Its field `latest` is the persisted pair of `latest_hourly.csv` and `latest_nasa.csv`. Its methods are `Fetch` for `POST /get_weather_data` and `Export` for `GET /download`.

The two providers are parameters of `Fetch`. Each is a function from the query it receives to the decoded reply, or `None` when the request or the decoding fails. The query records the coordinate and the dates the code sends.

Two behaviours of the code are worth stating plainly, because a reader might expect otherwise:

- **Empty periods are kept.** pandas `resample(...).mean()` emits every bin from the first key to the last. A day, month or year with no contributing row is therefore a row whose cells are all missing; it is never omitted and never zero-filled. `Resample`, `DailyWeatherDays` and `MonthlySummaryMonths` state this.
- **An empty polygon is a server error.** `get_centroid` runs before the `try` (app.py:27), so its `ZeroDivisionError` is not caught and the request ends in a server error rather than an error response. A request without `coords` ends the same way. `Store.Fetch` answers `Crashed` in both cases and leaves the store unchanged.

## Model

| member | source | states |
|---|---|---|
| Centroid.GetCentroid | app.py:13-18 | A point resolves to exactly its own coordinate; the result is an error (division by zero) exactly when the region is a polygon with no vertices |
| Centroid.CentroidIsMean | app.py:16-17 | A non-empty polygon's centroid is the arithmetic mean of its vertex latitudes and of its vertex longitudes |
| Centroid.CentroidWithinBox | app.py:16-17 | The centroid of a non-empty polygon lies inside every latitude/longitude box that holds all its vertices |
| Centroid.CentroidOfCoincidentVertices | app.py:16-17 | A polygon whose vertices all coincide (e.g. a single vertex) resolves to that vertex |
| Centroid.CentroidTranslates | app.py:16-17 | Shifting every vertex by the same offset shifts the centroid by that offset |
| Stats.Mean | app.py:79 | The mean of a column is missing exactly when every cell of it is missing |
| Stats.MeanOfConstant | app.py:79 | When every present value is c and at least one is present, the mean is exactly c |
| Stats.MeanWithin | app.py:79 | The mean lies between any lower and upper bound on the present values |
| Stats.AverageWithin | app.py:16 | sum/len of a non-empty sequence lies between any bounds on its elements |
| Calendar.DaysInMonth | app.py:54 | Month lengths are 28 to 31 days, and 29 exactly for February of a leap year |
| Calendar.OrdIsChronological | app.py:82 | The rank orders valid dates year, then month, then day, and equal ranks mean equal dates |
| Calendar.OrdInjective | app.py:82 | Distinct valid dates have distinct ranks |
| Calendar.NextDay | app.py:79 | The day after a valid date is a valid, later date, with month and year roll-over |
| Calendar.NextDayIsNext | app.py:79 | No valid date lies strictly between a date and the day after it |
| Calendar.DaySpan | app.py:79 | The daily bins from lo to hi are valid dates within [lo, hi] and start at lo when lo is not after hi |
| Calendar.DaySpanConsecutive | app.py:79 | Each daily bin is the day after the one before, so the bins are strictly ascending |
| Calendar.DaySpanCovers | app.py:79 | Every valid date between lo and hi is one of the daily bins |
| Calendar.MonthAt | app.py:86 | The month with a given consecutive month number is valid and has that number |
| Calendar.MonthIndexInjective | app.py:86 | Distinct valid months have distinct month numbers |
| Calendar.MonthSpan | app.py:86 | The monthly bins from lo to hi are consecutive valid months, one per month number, and include every month in between |
| Calendar.YearSpan | app.py:87 | The yearly bins from lo to hi are lo, lo+1, ..., hi |
| Calendar.BinsAreMonotone | app.py:86-87 | A later date falls in the same or a later month and year |
| Calendar.Earliest | app.py:79 | The earliest date is one of the dates and is not after any of them |
| Calendar.Latest | app.py:79 | The latest date is one of the dates and is not before any of them |
| DateText.OrDefault | app.py:28-29 | A request value is used when present, otherwise the default |
| DateText.RequestedRange | app.py:28-29 | A missing start is 2023-01-01 and a missing end is 2023-12-31; given values are used unchanged |
| DateText.Compact | app.py:46-47 | The compacted string has no '-' and is no longer than the input |
| DateText.CompactKeepsOthers | app.py:46-47 | Compaction removes every '-' and keeps every other character as often as it occurs |
| DateText.CompactConcat | app.py:46-47 | Compacting a concatenation is concatenating the compacted parts, so characters keep their order |
| DateText.CompactWithoutDashes | app.py:46-47 | A string without '-' is unchanged, so compaction is idempotent |
| DateText.DigitsHaveNoDash | app.py:46-47 | A string of digits has no '-' and is left unchanged |
| DateText.CompactExtendedDate | app.py:46-47 | A YYYY-MM-DD string compacts to the eight digits YYYYMMDD, and re-inserting the separators gives the input back |
| DateText.ExpandThenCompact | app.py:46-47 | Every YYYYMMDD string is the compaction of the YYYY-MM-DD string built from it |
| DateText.ParseCompactDate | app.py:54 | A key that reads as a date is eight digits and names a valid date with a four-digit year |
| DateText.FormatCompactDate | app.py:54 | The YYYYMMDD spelling of a date is eight digits |
| DateText.NumberOfDigits | app.py:54 | Reading a zero-padded decimal spelling gives the number back |
| DateText.DigitsOfNumber | app.py:54 | Writing the number a digit string reads as, with the same width, gives the string back |
| DateText.ParseFormat | app.py:54 | Reading the YYYYMMDD spelling of a date gives that date |
| DateText.FormatParse | app.py:54 | A key that reads as a date is that date's spelling, so distinct keys read as distinct dates |
| DateText.CompactedDateReads | app.py:46-47 | A YYYY-MM-DD string whose fields name a valid date reads, after dash removal, as that date |
| DateText.DefaultStartDate | app.py:28 | The compacted default start date 2023-01-01 reads as 1 January 2023 |
| DateText.DefaultEndDate | app.py:29 | The compacted default end date 2023-12-31 reads as 31 December 2023 |
| Tables.InBin | app.py:79 | A row is in a bin's group exactly when it is a row of the table and its key falls in that bin |
| Tables.InBinCounts | app.py:79 | A bin's group holds each row of the bin exactly as often as the table does, and no other row, so repeated records weigh in the mean as often as they occur |
| Tables.Resample | app.py:79 | One row per bin, in bin order, with the same columns; each cell is the mean of its column over the rows whose key falls in the bin, and an empty bin is a row of missing cells |
| Tables.BinMeanMissing | app.py:79 | A bin's cell is missing exactly when no row of the bin has a value in that column |
| Tables.BinMeanOfConstant | app.py:79 | A bin whose values in a column are all c (at least one present) has mean c |
| Tables.BinMeanWithin | app.py:79 | A bin's mean lies between any bounds on the values the bin holds |
| Tables.InnerJoin | app.py:82 | The merged columns are the left columns followed by the right columns |
| Tables.JoinRowsAre | app.py:82 | A merged row is exactly a left row followed by the cells of a right row with the same key; no row is invented |
| Tables.JoinRowOrigin | app.py:82 | Every merged row comes from a left row and a right row with the same key |
| Tables.JoinRowFrom | app.py:82 | Every pair of left and right rows with the same key gives a merged row |
| Tables.KeptKeys | app.py:82 | The kept keys are exactly the left keys that also occur on the right |
| Tables.KeptKeysAscending | app.py:82 | Keeping a subsequence of ascending keys keeps them ascending |
| Tables.JoinKeys | app.py:82 | With distinct right keys, the merged keys are the left keys found on the right, once each, in left order |
| Tables.JoinWellFormed | app.py:82 | Merging two well-formed tables gives a well-formed table |
| Tables.JoinKeysFromBoth | app.py:82 | Every merged key is a key of both tables |
| Pipeline.ProxyTable | app.py:52-57 | The proxy table exists exactly when the reply has TS with readable date keys and ALLSKY_SFC_SW_DWN of the same length; a missing TS is reported as such; row k is dated by the k-th TS key and holds the k-th TS and the k-th ALLSKY_SFC_SW_DWN value |
| Pipeline.ProxyDatesDistinct | app.py:54 | Distinct TS keys give a proxy table of valid, distinct dates |
| Pipeline.DailyWeather | app.py:78-79 | The daily table has the hourly columns and valid date keys |
| Pipeline.DailyWeatherDays | app.py:79 | The daily table has one row for every calendar day from the first hourly date to the last, consecutive and ascending, covering every hourly record's date |
| Pipeline.DailyWeatherMissing | app.py:79 | A daily cell is missing exactly when no hourly record of that day has a value in that column |
| Pipeline.DailyWeatherOfConstantDay | app.py:79 | A day whose readings in a column are all c has daily mean c |
| Pipeline.DailyWeatherWithin | app.py:79 | A daily mean lies between the smallest and largest reading of that day |
| Pipeline.MergeDaily | app.py:82 | The merged columns are the daily columns followed by the proxy columns |
| Pipeline.MergeDailyIsInnerJoin | app.py:82 | The merged dates are exactly the dates in both tables, once each, in the ascending order of the daily table; each merged row is a daily row followed by the proxy cells of that date |
| Pipeline.MergedDates | app.py:79-82 | The merge keeps exactly the proxy dates between the first and last hourly date, including days with no hourly record |
| Pipeline.MergedValid | app.py:82 | Merging keeps the dates valid |
| Pipeline.MonthlySummary | app.py:85-86 | The monthly table has the merged columns and is well formed |
| Pipeline.YearlySummary | app.py:85-87 | The yearly table has the merged columns and is well formed |
| Pipeline.MonthlySummaryMonths | app.py:86 | One row per calendar month from the first merged month to the last, consecutive and ascending, covering every merged day's month |
| Pipeline.YearlySummaryYears | app.py:87 | One row per year from the first merged year to the last, covering every merged day's year |
| Pipeline.MonthlySummaryMissing | app.py:86 | A monthly cell is missing exactly when no merged day of that month has a value in that column |
| Pipeline.MonthlySummaryOfConstantMonth | app.py:86 | A month whose daily values in a column are all c has monthly mean c |
| Pipeline.YearlySummaryMissing | app.py:87 | A yearly cell is missing exactly when no merged day of that year has a value in that column |
| Pipeline.YearlySummaryOfConstantYear | app.py:87 | A year whose daily values in a column are all c has yearly mean c |
| Pipeline.Combined | app.py:79-82 | The merged daily table has valid dates and the hourly columns followed by the proxy columns |
| Pipeline.Report | app.py:89-94 | The workbook has the sheets Hourly_Weather, Daily_Weather_and_NDVI_Proxy, Monthly_Summary, Yearly_Summary in this order, holding the hourly table, the merged table and its monthly and yearly means |
| Session.Resolve | app.py:27 | The fetch has a coordinate exactly when the request carries a non-empty region; a point is used as is |
| Session.Queries | app.py:28-48 | Both providers are asked for the centroid; Open-Meteo gets the requested (or default) dates, NASA POWER their compact forms |
| Session.Store.constructor | app.py:73 | Before any fetch nothing is stored |
| Session.Store.Fetch | app.py:25-69 | A missing or empty region crashes; the fetch succeeds exactly when the weather reply reads and the proxy table can be built; on success the stored pair becomes the two new tables, and on any failure it is unchanged; the stored pair stays well formed |
| Session.Store.Export | app.py:71-98 | Not found exactly when nothing is stored; otherwise Environmental_Data_Report.xlsx holding the workbook of the stored pair, its four sheets written in order |

## Left out

- Flask routing, the index page, `jsonify` and `send_file` are web plumbing. Responses are modelled as datatypes. The `"status"`/`"message"` texts and the exception messages are not modelled.
- The HTTP requests to Open-Meteo and NASA POWER are network I/O. They are the `meteo` and `nasa` parameters of `Store.Fetch`, which return the decoded reply or `None`. The `hourly` variable list and `"timezone": "auto"` are not modelled.
- Writing and reading the two CSV files, and `os.path.exists`, are file I/O. The pair is the `latest` field.
  - Store.Fetch: the two files are written one after the other, and a failure between the two writes would leave a new hourly file beside an old proxy file. The model treats the pair as replaced at once.
  - The CSV round trip is treated as the identity.
- Excel serialisation through `pd.ExcelWriter`/openpyxl is a foreign library. The workbook is the ordered list of named sheets with their tables.
- `pd.to_datetime` is library behaviour.
  - Pipeline.ProxyTable: only eight-digit `YYYYMMDD` keys naming a real date with a four-digit year are read as dates. pandas accepts more spellings.
  - The Open-Meteo time strings are taken as already parsed. A reply whose times do not parse, or whose columns differ in length, is one `None` reply, which gives `WeatherFailed`.
- Pipeline.ProxyTable: NASA values are taken as numbers. A JSON `null` (NaN) in the NASA series is not modelled, and neither is the -999 fill value, which pandas keeps as a number too.
- Floating point is not modelled: sums and means are exact reals, so rounding differences from Python floats are left out.
- Resample bin labels are not modelled. The daily, monthly and yearly rows are keyed by the date, the `(year, month)` pair and the year; pandas labels monthly and yearly bins by their last day.
- The range of pandas timestamps is not modelled. pandas rejects dates after 2262-04-11 and before 1677-09-21 (`OutOfBoundsDatetime`), so a NASA key outside that range fails the fetch at app.py:54. `ParseCompactDate` accepts every valid date with a year from 0 to 9999.
- DateText.RequestedRange: a request that carries `start_date` or `end_date` with the JSON value `null` makes `get` return `None` instead of the default (app.py:28-29). The fetch then fails inside the `try`. In the model a `None` start or end means only that the key is absent.
- Session.Store.constructor: the CSV files outlive the process (app.py:73), so a freshly started service can export the pair written by an earlier run. The model's store starts empty.
- Centroid.GetCentroid: a region object without `lat`/`lng`, or with non-numeric values, raises a `KeyError`/`TypeError` in the source. Regions are modelled as well-typed points and polygons only.
- Concurrency between requests is not modelled. Each method runs alone.
