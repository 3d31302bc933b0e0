/**
 * The search of generateHexGrid for the measurement nearest to the user's
 * point among those whose operator equals the filter, ignoring case.
 */
module Nearest {
  import opened Wrappers
  import opened Geodesy

  /** One loaded row: position in decimal degrees, carrier name and RSRP. */
  datatype Measurement = Measurement(lat: real, lon: real, operator: string, rsrp: real)

  predicate IsAsciiUpper(ch: char) { 'A' <= ch <= 'Z' }

  function LowerChar(ch: char): (r: char)
    ensures !IsAsciiUpper(r)
    ensures IsAsciiUpper(ch) ==> r as int == ch as int + 32
    ensures !IsAsciiUpper(ch) ==> r == ch
  {
    if IsAsciiUpper(ch) then (ch as int + 32) as char else ch
  }

  /** `toLowerCase()` on the ASCII letters. */
  function ToLower(s: string): (r: string)
    ensures |r| == |s|
    ensures forall i :: 0 <= i < |r| ==> !IsAsciiUpper(r[i])
    ensures forall i :: 0 <= i < |s| && IsAsciiUpper(s[i]) ==> r[i] as int == s[i] as int + 32
    ensures forall i :: 0 <= i < |s| && !IsAsciiUpper(s[i]) ==> r[i] == s[i]
  {
    seq(|s|, i requires 0 <= i < |s| => LowerChar(s[i]))
  }

  /** `m.operator.toLowerCase() === operator.toLowerCase()`. */
  predicate OperatorMatches(m: Measurement, operator: string)
  {
    ToLower(m.operator) == ToLower(operator)
  }

  /**
   * Two characters are equal ignoring ASCII case: identical, or one is an
   * upper-case letter and the other its lower-case counterpart.
   */
  predicate SameIgnoringCase(a: char, b: char)
  {
    || a == b
    || (IsAsciiUpper(a) && b as int == a as int + 32)
    || (IsAsciiUpper(b) && a as int == b as int + 32)
  }

  /** Lower-casing identifies two characters exactly when they agree ignoring case. */
  lemma LowerCharSame(a: char, b: char)
    ensures LowerChar(a) == LowerChar(b) <==> SameIgnoringCase(a, b)
  {
  }

  /** Two strings lower-case alike exactly when they agree, character by character, ignoring case. */
  lemma ToLowerSame(s: string, t: string)
    ensures ToLower(s) == ToLower(t) <==>
              |s| == |t| && forall i :: 0 <= i < |s| ==> SameIgnoringCase(s[i], t[i])
  {
    if ToLower(s) == ToLower(t) {
      forall i | 0 <= i < |s|
        ensures SameIgnoringCase(s[i], t[i])
      {
        assert ToLower(s)[i] == ToLower(t)[i];
        LowerCharSame(s[i], t[i]);
      }
    }
    if |s| == |t| && forall i :: 0 <= i < |s| ==> SameIgnoringCase(s[i], t[i]) {
      forall i | 0 <= i < |s|
        ensures ToLower(s)[i] == ToLower(t)[i]
      {
        LowerCharSame(s[i], t[i]);
      }
    }
  }

  /** The operator filter of line 83 is equality of names ignoring ASCII case. */
  lemma OperatorMatchesIgnoringCase(m: Measurement, operator: string)
    ensures OperatorMatches(m, operator) <==>
              |m.operator| == |operator|
              && forall i :: 0 <= i < |operator| ==> SameIgnoringCase(m.operator[i], operator[i])
  {
    ToLowerSame(m.operator, operator);
  }

  /** Lower-casing twice is lower-casing once, so the filter may arrive in either case. */
  lemma ToLowerIdempotent(s: string)
    ensures ToLower(ToLower(s)) == ToLower(s)
  {
  }

  predicate AnyMatch(ms: seq<Measurement>, operator: string, upto: int)
    requires upto <= |ms|
  {
    exists j :: 0 <= j < upto && OperatorMatches(ms[j], operator)
  }

  function DistanceToUser(n: Numerics, userLat: real, userLon: real, m: Measurement): real
  {
    Haversine(n, userLat, userLon, m.lat, m.lon)
  }

  /**
   * Among the first `upto` measurements, index `k` matches the operator, no
   * matching one is nearer, and every matching one before it is strictly
   * farther: the earliest of several equally near measurements.
   */
  predicate IsFirstNearest(n: Numerics, ms: seq<Measurement>, operator: string,
                           userLat: real, userLon: real, k: int, upto: int)
    requires upto <= |ms|
  {
    && 0 <= k < upto
    && OperatorMatches(ms[k], operator)
    && (forall j :: 0 <= j < upto && OperatorMatches(ms[j], operator) ==>
          DistanceToUser(n, userLat, userLon, ms[k]) <= DistanceToUser(n, userLat, userLon, ms[j]))
    && (forall j :: 0 <= j < k && OperatorMatches(ms[j], operator) ==>
          DistanceToUser(n, userLat, userLon, ms[k]) < DistanceToUser(n, userLat, userLon, ms[j]))
  }

  /** The first matching measurement is the first-nearest of the prefix it ends. */
  lemma FirstNearestStart(n: Numerics, ms: seq<Measurement>, operator: string,
                          userLat: real, userLon: real, last: int)
    requires 0 <= last < |ms|
    requires !AnyMatch(ms, operator, last) && OperatorMatches(ms[last], operator)
    ensures IsFirstNearest(n, ms, operator, userLat, userLon, last, last + 1)
  {
  }

  /**
   * One more measurement: it takes over exactly when it matches and is
   * strictly nearer; otherwise the earlier choice stands.
   */
  lemma FirstNearestStep(n: Numerics, ms: seq<Measurement>, operator: string,
                         userLat: real, userLon: real, k: int, last: int)
    requires 0 <= last < |ms|
    requires IsFirstNearest(n, ms, operator, userLat, userLon, k, last)
    ensures var takesOver := OperatorMatches(ms[last], operator)
              && DistanceToUser(n, userLat, userLon, ms[last]) < DistanceToUser(n, userLat, userLon, ms[k]);
      IsFirstNearest(n, ms, operator, userLat, userLon, if takesOver then last else k, last + 1)
  {
  }

  /** Whenever some measurement matches, a first-nearest one exists. */
  lemma {:induction false} FirstNearestExists(n: Numerics, ms: seq<Measurement>, operator: string,
                                              userLat: real, userLon: real, upto: int)
    requires 0 <= upto <= |ms|
    requires AnyMatch(ms, operator, upto)
    ensures exists k :: IsFirstNearest(n, ms, operator, userLat, userLon, k, upto)
    decreases upto
  {
    var last := upto - 1;
    if !AnyMatch(ms, operator, last) {
      FirstNearestStart(n, ms, operator, userLat, userLon, last);
    } else {
      FirstNearestExists(n, ms, operator, userLat, userLon, last);
      var k :| IsFirstNearest(n, ms, operator, userLat, userLon, k, last);
      FirstNearestStep(n, ms, operator, userLat, userLon, k, last);
    }
  }

  /** The first-nearest index is unique: the search result is determined. */
  lemma FirstNearestUnique(n: Numerics, ms: seq<Measurement>, operator: string,
                           userLat: real, userLon: real, k1: int, k2: int, upto: int)
    requires upto <= |ms|
    requires IsFirstNearest(n, ms, operator, userLat, userLon, k1, upto)
    requires IsFirstNearest(n, ms, operator, userLat, userLon, k2, upto)
    ensures k1 == k2
  {
  }

  /**
   * The measurement the search must return: none when nothing matches,
   * otherwise the first-nearest one.
   */
  ghost function NearestMatch(n: Numerics, ms: seq<Measurement>, operator: string,
                              userLat: real, userLon: real): (r: Option<Measurement>)
    ensures r.None? <==> !AnyMatch(ms, operator, |ms|)
    ensures r.Some? ==> exists k :: IsFirstNearest(n, ms, operator, userLat, userLon, k, |ms|)
                                    && r.value == ms[k]
  {
    if AnyMatch(ms, operator, |ms|) then
      FirstNearestExists(n, ms, operator, userLat, userLon, |ms|);
      var k :| IsFirstNearest(n, ms, operator, userLat, userLon, k, |ms|);
      Some(ms[k])
    else
      None
  }

  /** The running minimum of lines 80-90, `Infinity` before the first match. */
  datatype Bound = Infinity | Finite(value: real)

  predicate Below(d: real, b: Bound)
  {
    b.Infinity? || d < b.value
  }

  /** The scan of lines 80-90, keeping the first strictly nearer match. */
  method FindNearest(n: Numerics, ms: seq<Measurement>, operator: string,
                     userLat: real, userLon: real) returns (nearestData: Option<Measurement>)
    ensures nearestData.None? <==> !AnyMatch(ms, operator, |ms|)
    ensures nearestData == NearestMatch(n, ms, operator, userLat, userLon)
  {
    nearestData := None;
    var minDist := Infinity;
    ghost var best := -1;
    for i := 0 to |ms|
      invariant nearestData.None? <==> !AnyMatch(ms, operator, i)
      invariant nearestData.None? <==> minDist.Infinity?
      invariant nearestData.Some? ==>
        && IsFirstNearest(n, ms, operator, userLat, userLon, best, i)
        && nearestData.value == ms[best]
        && minDist.value == DistanceToUser(n, userLat, userLon, ms[best])
    {
      var m := ms[i];
      if nearestData.Some? {
        FirstNearestStep(n, ms, operator, userLat, userLon, best, i);
      } else if OperatorMatches(m, operator) {
        FirstNearestStart(n, ms, operator, userLat, userLon, i);
      }
      if ToLower(m.operator) == ToLower(operator) {
        var dist := Haversine(n, userLat, userLon, m.lat, m.lon);
        if Below(dist, minDist) {
          minDist := Finite(dist);
          nearestData := Some(m);
          best := i;
        }
      }
    }
    if nearestData.Some? {
      ghost var k :| IsFirstNearest(n, ms, operator, userLat, userLon, k, |ms|)
               && NearestMatch(n, ms, operator, userLat, userLon).value == ms[k];
      FirstNearestUnique(n, ms, operator, userLat, userLon, k, best, |ms|);
    }
  }

  /** The filter ignores case: "EE" selects a measurement stored as "ee". */
  lemma OperatorMatchIgnoresCase()
    ensures OperatorMatches(Measurement(0.0, 0.0, "ee", 0.0), "EE")
    ensures !OperatorMatches(Measurement(0.0, 0.0, "Vodafone", 0.0), "EE")
  {
    assert ToLower("EE") == "ee";
    assert ToLower("ee") == "ee";
  }
}
