/**
 * generateHexGrid (server.js:48-117) end to end: the lattice, the single
 * global nearest match and the feature collection that carries both.
 */
module HexGrid {
  import opened Wrappers
  import opened Geodesy
  import opened GridLayout
  import opened Nearest
  import opened Features

  /**
   * The arguments of generateHexGrid. The source's unused `network`
   * argument is omitted.
   */
  datatype Query = Query(
    centerLat: real, centerLon: real,
    areaWidthKm: real, areaHeightKm: real, hexSizeKm: real,
    userLat: real, userLon: real,
    operator: string)

  /** The top-level `nearest` entry: the match's point and its RSRP. */
  datatype NearestPoint = NearestPoint(center: Point, value: real)

  /** The returned `FeatureCollection`. */
  datatype FeatureCollection = FeatureCollection(features: seq<Feature>, nearest: Option<NearestPoint>)

  function QueryLayout(n: Numerics, q: Query): Geometry
    requires LayoutDefined(n, q.centerLat)
  {
    Layout(n, q.centerLat, q.centerLon, q.areaWidthKm, q.areaHeightKm, q.hexSizeKm)
  }

  /** Line 115: `{center: [lon, lat], value: rsrp}` for a match, `null` otherwise. */
  function NearestEntry(nearestData: Option<Measurement>): (e: Option<NearestPoint>)
    ensures e.None? <==> nearestData.None?
    ensures e.Some? ==> e.value == NearestPoint(Point(nearestData.value.lon, nearestData.value.lat),
                                                nearestData.value.rsrp)
  {
    match nearestData
    case None => None
    case Some(m) => Some(NearestPoint(Point(m.lon, m.lat), m.rsrp))
  }

  /** What generateHexGrid returns for query `q` over the measurements `ms`. */
  ghost function HexGridResult(n: Numerics, ms: seq<Measurement>, q: Query): FeatureCollection
    requires LayoutDefined(n, q.centerLat)
  {
    var g := QueryLayout(n, q);
    var nearestData := NearestMatch(n, ms, q.operator, q.userLat, q.userLon);
    FeatureCollection(FeaturesFor(n, GridCenters(g), g.sideLon, g.sideLat, nearestData),
                      NearestEntry(nearestData))
  }

  /** The body of generateHexGrid: enumerate, search, assemble. */
  method GenerateHexGrid(n: Numerics, ms: seq<Measurement>, q: Query) returns (result: FeatureCollection)
    requires LayoutDefined(n, q.centerLat)
    ensures result == HexGridResult(n, ms, q)
  {
    var g := QueryLayout(n, q);
    var hexCenters := EnumerateCenters(g);
    var nearestData := FindNearest(n, ms, q.operator, q.userLat, q.userLon);
    var features := AssembleFeatures(n, hexCenters, g.sideLon, g.sideLat, nearestData);
    result := FeatureCollection(features, NearestEntry(nearestData));
  }

  /**
   * One feature per retained centre, in the same order; each ring closed
   * with exactly seven points; at most cols * rows features, each centre
   * within the upper bounds of the box.
   */
  lemma OneFeaturePerCenter(n: Numerics, ms: seq<Measurement>, q: Query)
    requires LayoutDefined(n, q.centerLat)
    ensures var g := QueryLayout(n, q);
            var fs := HexGridResult(n, ms, q).features;
      && |fs| == |GridCenters(g)| <= Max0(g.cols) * Max0(g.rows)
      && forall i :: 0 <= i < |fs| ==>
           && fs[i].center == GridCenters(g)[i]
           && WithinUpperBounds(g, fs[i].center)
           && |fs[i].ring| == 7 && fs[i].ring[6] == fs[i].ring[0]
  {
    GridCentersShape(QueryLayout(n, q));
  }

  /**
   * The top-level `nearest` is null exactly when no measurement's operator
   * matches; otherwise it is the point and RSRP of the matching measurement
   * nearest to the user, the earliest one among equally near ones.
   */
  lemma NearestNullIffNoMatch(n: Numerics, ms: seq<Measurement>, q: Query)
    requires LayoutDefined(n, q.centerLat)
    ensures var r := HexGridResult(n, ms, q).nearest;
      && (r.None? <==> forall j :: 0 <= j < |ms| ==> !OperatorMatches(ms[j], q.operator))
      && (r.Some? ==> exists k :: IsFirstNearest(n, ms, q.operator, q.userLat, q.userLon, k, |ms|)
                                  && r.value == NearestPoint(Point(ms[k].lon, ms[k].lat), ms[k].rsrp))
  {
  }

  /**
   * Every feature's value is the match's RSRP, or null without a match;
   * `isNearest` is null without a match and true exactly when the centre
   * equals the match's point.
   */
  lemma ValuesFollowMatch(n: Numerics, ms: seq<Measurement>, q: Query)
    requires LayoutDefined(n, q.centerLat)
    ensures var r := HexGridResult(n, ms, q);
      forall i :: 0 <= i < |r.features| ==>
        && (r.features[i].value.None? <==> r.nearest.None?)
        && (r.nearest.Some? ==> r.features[i].value == Some(r.nearest.value.value))
        && (r.features[i].isNearest.None? <==> r.nearest.None?)
        && (r.features[i].isNearest == Some(true) <==>
              r.nearest.Some? && r.features[i].center == r.nearest.value.center)
  {
  }

  /** A hex size of 0 gives exactly the output of a hex size of 0.05 km. */
  lemma ZeroHexSizeDefaults(n: Numerics, ms: seq<Measurement>, q: Query)
    requires LayoutDefined(n, q.centerLat)
    requires q.hexSizeKm == 0.0
    ensures HexGridResult(n, ms, q) == HexGridResult(n, ms, q.(hexSizeKm := DefaultHexSizeKm))
  {
    assert QueryLayout(n, q) == QueryLayout(n, q.(hexSizeKm := DefaultHexSizeKm));
  }

  /**
   * With a non-negative area and hex size and a positive cosine of the
   * centre latitude, the first feature is always the corner cell
   * (minLon, minLat); for a 0 km by 0 km area that is the centre itself.
   */
  lemma CornerFeatureFirst(n: Numerics, ms: seq<Measurement>, q: Query)
    requires LayoutDefined(n, q.centerLat) && Cos(n, ToRadians(n, q.centerLat)) > 0.0 && Sqrt(n, 3.0) > 0.0
    requires q.areaWidthKm >= 0.0 && q.areaHeightKm >= 0.0 && q.hexSizeKm >= 0.0
    ensures var g := QueryLayout(n, q);
            var fs := HexGridResult(n, ms, q).features;
      |fs| >= 1 && fs[0].center == Point(g.minLon, g.minLat)
    ensures q.areaWidthKm == 0.0 && q.areaHeightKm == 0.0 ==>
      HexGridResult(n, ms, q).features[0].center == Point(q.centerLon, q.centerLat)
  {
    var g := QueryLayout(n, q);
    CornerCellFirst(n, q.centerLat, q.centerLon, q.areaWidthKm, q.areaHeightKm, q.hexSizeKm);
    var nearestData := NearestMatch(n, ms, q.operator, q.userLat, q.userLon);
    var fs := FeaturesFor(n, GridCenters(g), g.sideLon, g.sideLat, nearestData);
    assert HexGridResult(n, ms, q).features == fs;
    assert fs[0].center == GridCenters(g)[0];
    if q.areaWidthKm == 0.0 && q.areaHeightKm == 0.0 {
      ZeroAreaBox(n, q.centerLat, q.centerLon, q.hexSizeKm);
    }
  }

  /**
   * The operator filter decides, not the distance: with one "EE" record and
   * a "Vodafone" one that may be nearer, an "EE" query reports the "EE"
   * record's RSRP of -90.
   */
  lemma OnlyMatchingOperatorReported(n: Numerics, q: Query, vodafoneLat: real, vodafoneLon: real)
    requires LayoutDefined(n, q.centerLat)
    requires q.operator == "EE"
    ensures var ms := [Measurement(vodafoneLat, vodafoneLon, "Vodafone", -70.0),
                       Measurement(52.621, 1.291, "EE", -90.0)];
      HexGridResult(n, ms, q).nearest == Some(NearestPoint(Point(1.291, 52.621), -90.0))
  {
    var ms := [Measurement(vodafoneLat, vodafoneLon, "Vodafone", -70.0),
               Measurement(52.621, 1.291, "EE", -90.0)];
    OperatorMatchIgnoresCase();
    assert ToLower("EE") == "ee";
    assert !OperatorMatches(ms[0], "EE");
    assert OperatorMatches(ms[1], "EE");
    var k :| IsFirstNearest(n, ms, q.operator, q.userLat, q.userLon, k, |ms|)
             && NearestMatch(n, ms, q.operator, q.userLat, q.userLon).value == ms[k];
    assert |ms| == 2;
    assert IsFirstNearest(n, ms, q.operator, q.userLat, q.userLon, k, 2);
    assert 0 <= k < 2;
    assert OperatorMatches(ms[k], "EE");
    assert k != 0;
  }
}
