/**
 * Degree/radian conversion and the haversine great-circle distance.
 *
 * The floating-point primitives the source calls (Math.PI, Math.sin,
 * Math.cos, Math.sqrt, Math.atan2) are not modelled numerically: they are
 * the fields of a `Numerics` value that every caller passes in, so nothing
 * proved here or elsewhere depends on how they round.
 */
module Geodesy {

  /** The numeric primitives of the host platform, left uninterpreted. */
  datatype Numerics = Numerics(
    pi: real,
    sin: real -> real,
    cos: real -> real,
    sqrt: real -> real,
    atan2: (real, real) -> real)

  /** Radius of the sphere the distance is measured on, in metres. */
  const EarthRadiusMeters: real := 6371000.0

  function Square(x: real): real { x * x }

  /** `Math.sin`, `Math.cos`, `Math.sqrt` and `Math.atan2`, as supplied by `n`. */
  function Sin(n: Numerics, x: real): real { n.sin(x) }
  function Cos(n: Numerics, x: real): real { n.cos(x) }
  function Sqrt(n: Numerics, x: real): real { n.sqrt(x) }
  function Atan2(n: Numerics, y: real, x: real): real { n.atan2(y, x) }

  /** Degrees to radians: `deg * PI / 180`. */
  function ToRadians(n: Numerics, deg: real): (r: real)
    ensures deg == 0.0 ==> r == 0.0
    ensures deg == 180.0 ==> r == n.pi
  {
    deg * n.pi / 180.0
  }

  /**
   * Haversine distance in metres between (lat1, lon1) and (lat2, lon2),
   * written exactly as the source composes the primitives.
   */
  function Haversine(n: Numerics, lat1: real, lon1: real, lat2: real, lon2: real): real
  {
    var phi1 := ToRadians(n, lat1);
    var phi2 := ToRadians(n, lat2);
    var dPhi := ToRadians(n, lat2 - lat1);
    var dLambda := ToRadians(n, lon2 - lon1);
    var a := Square(Sin(n, dPhi / 2.0)) + Cos(n, phi1) * Cos(n, phi2) * Square(Sin(n, dLambda / 2.0));
    var c := 2.0 * Atan2(n, Sqrt(n, a), Sqrt(n, 1.0 - a));
    EarthRadiusMeters * c
  }

  /**
   * A point is at distance 0 from itself, given the two facts about the
   * primitives the formula needs: sin 0 = 0 and atan2(sqrt 0, sqrt 1) = 0.
   */
  lemma HaversineSamePoint(n: Numerics, lat: real, lon: real)
    requires Sin(n, 0.0) == 0.0 && Atan2(n, Sqrt(n, 0.0), Sqrt(n, 1.0)) == 0.0
    ensures Haversine(n, lat, lon, lat, lon) == 0.0
  {
    var half := ToRadians(n, lat - lat) / 2.0;
    assert half == 0.0;
    assert Square(Sin(n, half)) == 0.0;
    var a := Square(Sin(n, half)) + Cos(n, ToRadians(n, lat)) * Cos(n, ToRadians(n, lat)) * Square(Sin(n, half));
    assert a == 0.0;
    assert Haversine(n, lat, lon, lat, lon) == EarthRadiusMeters * (2.0 * Atan2(n, Sqrt(n, a), Sqrt(n, 1.0 - a)));
  }
}
