/**
 * The distance model of the splitter: points, the abstract notion of a
 * distance function used by the split walk, and the concrete formula of
 * Output::distance (planar Euclidean or the flat-Earth approximation over
 * longitude/latitude degrees), computed over exact reals.
 *
 * The square root of the C library is not part of this model: it is passed
 * in as a function `sqrt` that is required to be the non-negative root.
 */
module Geo {

  /** A coordinate pair: x is the longitude, y the latitude in geographic mode. */
  datatype Point = Point(x: real, y: real)

  /** A distance function between two points. */
  type Metric = (Point, Point) -> real

  /** What the split walk may assume about a distance function. */
  ghost predicate IsMetric(d: Metric) {
    && (forall a, b :: d(a, b) >= 0.0)
    && (forall a, b :: d(a, b) == d(b, a))
    && (forall a :: d(a, a) == 0.0)
  }

  /** `sqrt` is the non-negative square root on the non-negative reals. */
  ghost predicate IsSqrt(sqrt: real -> real) {
    forall x :: x >= 0.0 ==> sqrt(x) >= 0.0 && sqrt(x) * sqrt(x) == x
  }

  const PI: real := 3.14159265358979323846
  const EARTH_RADIUS_IN_METERS: real := 6372797.560856

  /** Output::deg_to_rad. */
  function DegToRad(degree: real): real {
    degree * (PI / 180.0)
  }

  /** The radicand of Output::distance: the squared distance in either mode. */
  function SquaredDistance(geographic: bool, a: Point, b: Point): (r: real)
    ensures r >= 0.0
  {
    if geographic then
      var dx := EARTH_RADIUS_IN_METERS * DegToRad(b.x - a.x);
      var dy := EARTH_RADIUS_IN_METERS * DegToRad(b.y - a.y);
      dx * dx + dy * dy
    else
      (b.x - a.x) * (b.x - a.x) + (b.y - a.y) * (b.y - a.y)
  }

  /** Output::distance: the square root of the squared distance. */
  function Distance(sqrt: real -> real, geographic: bool, a: Point, b: Point): real {
    sqrt(SquaredDistance(geographic, a, b))
  }

  /** Two non-negative reals with the same square are equal. */
  lemma NonNegativeRootUnique(s: real, t: real)
    requires s >= 0.0 && t >= 0.0 && s * s == t * t
    ensures s == t
  {
    assert (s - t) * (s + t) == 0.0;
    assert s - t == 0.0 || s + t == 0.0;
  }

  /** The squared distance does not depend on the order of the two points. */
  lemma SquaredDistanceSymmetric(geographic: bool, a: Point, b: Point)
    ensures SquaredDistance(geographic, a, b) == SquaredDistance(geographic, b, a)
  {
    var ux, uy := b.x - a.x, b.y - a.y;
    assert (-ux) * (-ux) == ux * ux;
    assert (-uy) * (-uy) == uy * uy;
    var k := EARTH_RADIUS_IN_METERS * (PI / 180.0);
    assert EARTH_RADIUS_IN_METERS * DegToRad(ux) == k * ux;
    assert EARTH_RADIUS_IN_METERS * DegToRad(-ux) == -(k * ux);
    assert EARTH_RADIUS_IN_METERS * DegToRad(uy) == k * uy;
    assert EARTH_RADIUS_IN_METERS * DegToRad(-uy) == -(k * uy);
    assert (-(k * ux)) * (-(k * ux)) == (k * ux) * (k * ux);
    assert (-(k * uy)) * (-(k * uy)) == (k * uy) * (k * uy);
  }

  /**
   * In both modes, the distance of Output::distance is non-negative,
   * symmetric and zero between equal points, as the split walk assumes.
   */
  lemma DistanceIsMetric(sqrt: real -> real, geographic: bool)
    requires IsSqrt(sqrt)
    ensures IsMetric((a, b) => Distance(sqrt, geographic, a, b))
  {
    var d: Metric := (a, b) => Distance(sqrt, geographic, a, b);
    forall a, b ensures d(a, b) >= 0.0 && d(a, b) == d(b, a) {
      SquaredDistanceSymmetric(geographic, a, b);
    }
    forall a ensures d(a, a) == 0.0 {
      assert SquaredDistance(geographic, a, a) == 0.0;
      NonNegativeRootUnique(sqrt(0.0), 0.0);
    }
  }

  /**
   * In geographic mode one degree of longitude along the equator is
   * EARTH_RADIUS_IN_METERS * PI / 180 metres (about 111 km).
   */
  lemma OneDegreeOfLongitude(sqrt: real -> real)
    requires IsSqrt(sqrt)
    ensures Distance(sqrt, true, Point(0.0, 0.0), Point(1.0, 0.0))
         == EARTH_RADIUS_IN_METERS * (PI / 180.0)
  {
    var k := EARTH_RADIUS_IN_METERS * (PI / 180.0);
    assert SquaredDistance(true, Point(0.0, 0.0), Point(1.0, 0.0)) == k * k;
    NonNegativeRootUnique(sqrt(k * k), k);
  }

  /** In planar mode the distance is the Euclidean one, e.g. 5 for a 3-4-5 triangle. */
  lemma PlanarThreeFourFive(sqrt: real -> real)
    requires IsSqrt(sqrt)
    ensures Distance(sqrt, false, Point(0.0, 0.0), Point(3.0, 4.0)) == 5.0
  {
    assert SquaredDistance(false, Point(0.0, 0.0), Point(3.0, 4.0)) == 25.0;
    NonNegativeRootUnique(sqrt(25.0), 5.0);
  }
}
