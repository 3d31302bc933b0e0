/**
 * Lines 92-110 of generateHexGrid: every retained centre becomes a polygon
 * feature with a closed 7-point ring and a properties bag.
 */
module Features {
  import opened Wrappers
  import opened Geodesy
  import opened GridLayout
  import opened Nearest

  /**
   * One polygon feature: its single exterior ring and its properties.
   * `isNearest` is `None` where the source yields `null` (no match at all).
   */
  datatype Feature = Feature(ring: seq<Point>, value: Option<real>, center: Point, isNearest: Option<bool>)

  /**
   * Vertex `j` of the hexagon around `c`, at an angle of 60 * j degrees:
   * `[lon + sideLon * cos(60 j deg), lat + sideLat * sin(60 j deg)]`.
   */
  function Vertex(n: Numerics, c: Point, sideLon: real, sideLat: real, j: nat): Point
  {
    Point(c.lon + sideLon * Cos(n, ToRadians(n, 60.0 * j as real)),
          c.lat + sideLat * Sin(n, ToRadians(n, 60.0 * j as real)))
  }

  /** The ring of a hexagon: its six vertices, the first one repeated to close it. */
  function HexRing(n: Numerics, c: Point, sideLon: real, sideLat: real): (ring: seq<Point>)
    ensures |ring| == 7 && ring[6] == ring[0]
    ensures forall j :: 0 <= j < 6 ==> ring[j] == Vertex(n, c, sideLon, sideLat, j)
  {
    var vertex := j requires 0 <= j < 6 => Vertex(n, c, sideLon, sideLat, j);
    [vertex(0), vertex(1), vertex(2), vertex(3), vertex(4), vertex(5), vertex(0)]
  }

  /** The loop of lines 93-100: push six vertices, then the first again. */
  method BuildRing(n: Numerics, c: Point, sideLon: real, sideLat: real) returns (hexCoords: seq<Point>)
    ensures hexCoords == HexRing(n, c, sideLon, sideLat)
  {
    hexCoords := [];
    for j := 0 to 6
      invariant |hexCoords| == j
      invariant forall i :: 0 <= i < j ==> hexCoords[i] == Vertex(n, c, sideLon, sideLat, i)
    {
      var vertex := Vertex(n, c, sideLon, sideLat, j);
      hexCoords := hexCoords + [vertex];
    }
    hexCoords := hexCoords + [hexCoords[0]];
  }

  /** `value`: the matched RSRP, `null` without a match. */
  function MatchedValue(nearestData: Option<Measurement>): (v: Option<real>)
    ensures v.Some? <==> nearestData.Some?
    ensures v.Some? ==> v.value == nearestData.value.rsrp
  {
    match nearestData
    case None => None
    case Some(m) => Some(m.rsrp)
  }

  /** `isNearest`: `null` without a match, else whether the centre is exactly the match's point. */
  function NearestFlag(c: Point, nearestData: Option<Measurement>): (flag: Option<bool>)
    ensures flag.None? <==> nearestData.None?
    ensures flag == Some(true) <==> nearestData.Some? && c == Point(nearestData.value.lon, nearestData.value.lat)
  {
    match nearestData
    case None => None
    case Some(m) => Some(c.lon == m.lon && c.lat == m.lat)
  }

  /** The feature built for one centre. */
  function FeatureAt(n: Numerics, c: Point, sideLon: real, sideLat: real,
                     nearestData: Option<Measurement>): Feature
  {
    Feature(HexRing(n, c, sideLon, sideLat), MatchedValue(nearestData), c, NearestFlag(c, nearestData))
  }

  /** The assembled feature list: one feature per centre, in the same order. */
  function FeaturesFor(n: Numerics, hexCenters: seq<Point>, sideLon: real, sideLat: real,
                       nearestData: Option<Measurement>): seq<Feature>
  {
    seq(|hexCenters|, i requires 0 <= i < |hexCenters| =>
      FeatureAt(n, hexCenters[i], sideLon, sideLat, nearestData))
  }

  /** Feature `i` of the assembled list, field by field. */
  lemma FeaturesForFields(n: Numerics, hexCenters: seq<Point>, sideLon: real, sideLat: real,
                          nearestData: Option<Measurement>)
    ensures var fs := FeaturesFor(n, hexCenters, sideLon, sideLat, nearestData);
      && |fs| == |hexCenters|
      && forall i :: 0 <= i < |hexCenters| ==>
           && fs[i].center == hexCenters[i]
           && fs[i].ring == HexRing(n, hexCenters[i], sideLon, sideLat)
           && fs[i].value == MatchedValue(nearestData)
           && fs[i].isNearest == NearestFlag(hexCenters[i], nearestData)
  {
  }

  /** The callback of the `map` (lines 93-109): ring and properties of one centre. */
  method BuildFeature(n: Numerics, center: Point, sideLon: real, sideLat: real,
                      nearestData: Option<Measurement>) returns (feature: Feature)
    ensures feature == FeatureAt(n, center, sideLon, sideLat, nearestData)
  {
    var hexCoords := BuildRing(n, center, sideLon, sideLat);
    var value := if nearestData.Some? then Some(nearestData.value.rsrp) else None;
    var isNearest := if nearestData.Some? then Some(center.lon == nearestData.value.lon && center.lat == nearestData.value.lat) else None;
    feature := Feature(hexCoords, value, center, isNearest);
  }

  /** The `hexCenters.map(...)` of lines 92-110. */
  method AssembleFeatures(n: Numerics, hexCenters: seq<Point>, sideLon: real, sideLat: real,
                          nearestData: Option<Measurement>) returns (features: seq<Feature>)
    ensures features == FeaturesFor(n, hexCenters, sideLon, sideLat, nearestData)
  {
    features := [];
    for i := 0 to |hexCenters|
      invariant |features| == i
      invariant forall k :: 0 <= k < i ==> features[k] == FeatureAt(n, hexCenters[k], sideLon, sideLat, nearestData)
    {
      var feature := BuildFeature(n, hexCenters[i], sideLon, sideLat, nearestData);
      features := features + [feature];
    }
  }

  /** Every ring is a closed list of exactly seven coordinate pairs. */
  lemma RingsClosed(n: Numerics, hexCenters: seq<Point>, sideLon: real, sideLat: real,
                    nearestData: Option<Measurement>)
    ensures var fs := FeaturesFor(n, hexCenters, sideLon, sideLat, nearestData);
      forall i :: 0 <= i < |fs| ==> |fs[i].ring| == 7 && fs[i].ring[6] == fs[i].ring[0]
  {
  }
}
