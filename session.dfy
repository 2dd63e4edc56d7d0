/** The two request handlers around the pipeline. A fetch resolves the
    region, queries both providers and, only when both replies have been
    read, overwrites the stored pair of tables; an export builds the
    workbook from the stored pair, or answers "No data" when there is none. */
module Session {
  import opened Outcomes
  import opened Centroid
  import opened DateText
  import opened Calendar
  import opened Tables
  import opened Pipeline

  /** The Open-Meteo archive query: centroid, date range as given. */
  datatype MeteoQuery = MeteoQuery(lat: real, lng: real, start: string, end: string)

  /** The NASA POWER daily point query: centroid, compact date range. */
  datatype NasaQuery = NasaQuery(lng: real, lat: real, start: string, end: string)

  /** A decoded NASA POWER parameter object. Its series come from JSON
      objects, whose keys a decoder keeps distinct. */
  type NasaReply = p: Parameters | forall n :: n in p ==> DistinctNames(p[n])
    witness map[]

  /** The pair of tables persisted by the last successful fetch
      (latest_hourly.csv and latest_nasa.csv). */
  datatype Snapshot = Snapshot(hourly: Table<Timestamp>, proxy: Table<Date>)

  datatype FetchResponse =
    | Fetched(hourly: Table<Timestamp>, nasa: Parameters)   // status "success"
    | Failed(reason: FetchError)                             // status "error", raised inside the try
    | Crashed                                                // raised before the try: HTTP 500

  datatype ExportResponse =
    | Download(fileName: string, sheets: seq<Sheet>)
    | NotFound                                               // "No data", 404

  /** The coordinate both providers are queried for, when the request has one. */
  function Resolve(coords: Option<Region>): (c: Option<Coord>)
    ensures c.None? <==> coords.None? || (coords.value.Polygon? && |coords.value.vertices| == 0)
    ensures coords.Some? && coords.value.Point? ==> c == Some(coords.value.at)
  {
    match coords
    case None => None
    case Some(region) =>
      match GetCentroid(region)
      case Ok(c) => Some(c)
      case Err(_) => None
  }

  /** The queries of a fetch: the Open-Meteo query carries the requested
      dates as given, the NASA POWER query their compact forms. */
  function Queries(c: Coord, start: Option<string>, end: Option<string>): (q: (MeteoQuery, NasaQuery))
    ensures q.0.lat == q.1.lat == c.lat && q.0.lng == q.1.lng == c.lng
    ensures q.0.start == OrDefault(start, DefaultStart) && q.0.end == OrDefault(end, DefaultEnd)
    ensures q.1.start == Compact(q.0.start) && q.1.end == Compact(q.0.end)
  {
    var range := RequestedRange(start, end);
    (MeteoQuery(c.lat, c.lng, range.0, range.1),
     NasaQuery(c.lng, c.lat, Compact(range.0), Compact(range.1)))
  }

  /** Four sheets written one after the other into an empty workbook. */
  lemma WrittenInOrder<T>(a: T, b: T, c: T, d: T)
    ensures [] + [a] + [b] + [c] + [d] == [a, b, c, d]
  {
  }

  class Store {
    /** None until a fetch has succeeded: the files do not exist yet. */
    var latest: Option<Snapshot>

    /** Whatever is stored was read from the providers: a well-formed hourly
        table and a proxy table with valid, distinct dates. */
    ghost predicate Valid()
      reads this
    {
      latest.Some? ==>
        && ValidHourly(latest.value.hourly)
        && ValidProxy(latest.value.proxy)
        && DistinctKeys(latest.value.proxy.rows)
    }

    constructor()
      ensures Valid() && latest == None
    {
      latest := None;
    }

    /** POST /get_weather_data. The stored pair is overwritten only when the
        region resolved and both replies were read; any failure leaves it as
        it was. */
    method Fetch(coords: Option<Region>, start: Option<string>, end: Option<string>,
                 meteo: MeteoQuery -> Option<Table<Timestamp>>,
                 nasa: NasaQuery -> Option<NasaReply>)
      returns (r: FetchResponse)
      requires Valid()
      modifies this
      ensures Valid()
      ensures r.Crashed? <==> Resolve(coords).None?
      ensures !r.Fetched? ==> latest == old(latest)
      ensures Resolve(coords).Some? ==>
        var q := Queries(Resolve(coords).value, start, end);
        var weather, proxy := meteo(q.0), ProxyTable(nasa(q.1));
        && (r.Fetched? <==> weather.Some? && ValidHourly(weather.value) && proxy.Ok?)
        && (r.Failed? && !(weather.Some? && ValidHourly(weather.value)) ==> r.reason == WeatherFailed)
        && (r.Failed? && weather.Some? && ValidHourly(weather.value) ==> r == Failed(proxy.error))
        && (r.Fetched? ==>
              && r.hourly == weather.value && Some(r.nasa) == nasa(q.1)
              && latest == Some(Snapshot(weather.value, proxy.value)))
    {
      var c := Resolve(coords);
      if c.None? {
        return Crashed;
      }
      var q := Queries(c.value, start, end);
      var weather := meteo(q.0);
      if weather.None? || !ValidHourly(weather.value) {
        return Failed(WeatherFailed);
      }
      var reply := nasa(q.1);
      var proxy := ProxyTable(reply);
      if proxy.Err? {
        return Failed(proxy.error);
      }
      ProxyDatesDistinct(reply);
      latest := Some(Snapshot(weather.value, proxy.value));
      r := Fetched(weather.value, reply.value);
    }

    /** GET /download: "No data" until a fetch has succeeded; otherwise the
        workbook of the stored pair, written one sheet at a time. */
    method Export() returns (r: ExportResponse)
      requires Valid()
      ensures r.NotFound? <==> latest.None?
      ensures latest.Some? ==> r == Download(ReportFileName, Report(latest.value.hourly, latest.value.proxy))
      ensures r.Download? ==>
        && r.fileName == ReportFileName
        && SheetNames(r.sheets) == [HourlySheet, DailySheet, MonthlySheet, YearlySheet]
    {
      if latest.None? {
        return NotFound;
      }
      var h, p := latest.value.hourly, latest.value.proxy;
      var combined := Combined(h, p);
      var hourly := Sheet(HourlySheet, HourlyData(h));
      var daily := Sheet(DailySheet, DailyData(combined));
      var monthly := Sheet(MonthlySheet, MonthlyData(MonthlySummary(combined)));
      var yearly := Sheet(YearlySheet, YearlyData(YearlySummary(combined)));
      var book: seq<Sheet> := [];
      book := book + [hourly];
      book := book + [daily];
      book := book + [monthly];
      book := book + [yearly];
      WrittenInOrder(hourly, daily, monthly, yearly);
      assert book == Report(h, p);
      r := Download(ReportFileName, book);
    }
  }
}
