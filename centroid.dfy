/** The centroid resolver: the region drawn in the browser is reduced to the
    single coordinate that both providers are queried for. */
module Centroid {
  import opened Outcomes
  import opened Stats

  datatype Coord = Coord(lat: real, lng: real)

  /** A region as the browser sends it: one {lat, lng} object, or the list of
      a polygon's vertices. */
  datatype Region = Point(at: Coord) | Polygon(vertices: seq<Coord>)

  /** Python's ZeroDivisionError from len(coords) == 0. */
  datatype CentroidError = ZeroDivision

  function Lats(vs: seq<Coord>): (xs: seq<real>)
    ensures |xs| == |vs| && forall i :: 0 <= i < |vs| ==> xs[i] == vs[i].lat
  {
    seq(|vs|, i requires 0 <= i < |vs| => vs[i].lat)
  }

  function Lngs(vs: seq<Coord>): (xs: seq<real>)
    ensures |xs| == |vs| && forall i :: 0 <= i < |vs| ==> xs[i] == vs[i].lng
  {
    seq(|vs|, i requires 0 <= i < |vs| => vs[i].lng)
  }

  /** A single point passes through unchanged; a polygon resolves to the
      unweighted mean of its vertex latitudes and of its vertex longitudes;
      an empty polygon fails with a division by zero. */
  function GetCentroid(region: Region): (c: Result<Coord, CentroidError>)
    ensures region.Point? ==> c == Ok(region.at)
    ensures c.Err? <==> region.Polygon? && |region.vertices| == 0
  {
    match region
    case Point(p) => Ok(p)
    case Polygon(vs) =>
      if |vs| == 0 then Err(ZeroDivision)
      else Ok(Coord(Sum(Lats(vs)) / |vs| as real, Sum(Lngs(vs)) / |vs| as real))
  }

  /** Lifts a column of plain values to a column with no missing cell. */
  function AllPresent(xs: seq<real>): (cells: seq<Option<real>>)
    ensures |cells| == |xs| && forall i :: 0 <= i < |xs| ==> cells[i] == Some(xs[i])
  {
    seq(|xs|, i requires 0 <= i < |xs| => Some(xs[i]))
  }

  lemma {:induction false} PresentOfAllPresent(xs: seq<real>)
    ensures Present(AllPresent(xs)) == xs
  {
    if xs != [] {
      PresentOfAllPresent(xs[1..]);
      assert AllPresent(xs)[1..] == AllPresent(xs[1..]);
    }
  }

  /** A polygon's centroid is the same arithmetic mean that the daily and
      monthly summaries compute, taken over its vertex coordinates. */
  lemma CentroidIsMean(vs: seq<Coord>)
    requires |vs| > 0
    ensures GetCentroid(Polygon(vs)) == Ok(Coord(Mean(AllPresent(Lats(vs))).value, Mean(AllPresent(Lngs(vs))).value))
  {
    PresentOfAllPresent(Lats(vs));
    PresentOfAllPresent(Lngs(vs));
  }

  /** The centroid of a non-empty polygon lies inside any latitude/longitude box
      that holds all of its vertices. */
  lemma CentroidWithinBox(vs: seq<Coord>, south: real, north: real, west: real, east: real)
    requires |vs| > 0
    requires forall v :: v in vs ==> south <= v.lat <= north && west <= v.lng <= east
    ensures GetCentroid(Polygon(vs)).Ok?
    ensures south <= GetCentroid(Polygon(vs)).value.lat <= north
    ensures west <= GetCentroid(Polygon(vs)).value.lng <= east
  {
    var n := |vs| as real;
    var lats, lngs := Lats(vs), Lngs(vs);
    forall i | 0 <= i < |vs| ensures south <= lats[i] <= north && west <= lngs[i] <= east {
      assert vs[i] in vs;
    }
    AverageWithin(lats, south, north);
    AverageWithin(lngs, west, east);
    assert GetCentroid(Polygon(vs)) == Ok(Coord(Sum(lats) / n, Sum(lngs) / n));
  }

  /** A polygon whose vertices all coincide (in particular a one-vertex
      polygon) resolves to that vertex. */
  lemma CentroidOfCoincidentVertices(vs: seq<Coord>, p: Coord)
    requires |vs| > 0 && forall v :: v in vs ==> v == p
    ensures GetCentroid(Polygon(vs)) == Ok(p)
  {
    CentroidWithinBox(vs, p.lat, p.lat, p.lng, p.lng);
  }

  /** Moving every vertex by the same offset moves the centroid by that offset. */
  lemma CentroidTranslates(vs: seq<Coord>, ws: seq<Coord>, dlat: real, dlng: real)
    requires |vs| == |ws| > 0
    requires forall i :: 0 <= i < |vs| ==> ws[i] == Coord(vs[i].lat + dlat, vs[i].lng + dlng)
    ensures GetCentroid(Polygon(ws)).value
         == Coord(GetCentroid(Polygon(vs)).value.lat + dlat, GetCentroid(Polygon(vs)).value.lng + dlng)
  {
    var n := |vs| as real;
    SumShifted(Lats(vs), Lats(ws), dlat);
    SumShifted(Lngs(vs), Lngs(ws), dlng);
    QuotientShifted(Sum(Lats(vs)), n, dlat);
    QuotientShifted(Sum(Lngs(vs)), n, dlng);
    assert GetCentroid(Polygon(vs)) == Ok(Coord(Sum(Lats(vs)) / n, Sum(Lngs(vs)) / n));
    assert GetCentroid(Polygon(ws)) == Ok(Coord(Sum(Lats(ws)) / n, Sum(Lngs(ws)) / n));
    assert Sum(Lats(ws)) == Sum(Lats(vs)) + n * dlat;
    assert Sum(Lats(ws)) / n == Sum(Lats(vs)) / n + dlat;
    assert Sum(Lngs(ws)) == Sum(Lngs(vs)) + n * dlng;
    assert Sum(Lngs(ws)) / n == Sum(Lngs(vs)) / n + dlng;
  }
}
