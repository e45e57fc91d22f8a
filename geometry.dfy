/** Geometry math of the sieve (pkg/sieve.go): the shoelace area of a ring,
    the area of a polygon, the closed coordinate rings handed to the centroid
    library, and the centroid itself. Coordinates are exact reals. */
module Geometry {
  import opened Seqs

  /** A coordinate pair ([2]float64 in the source). */
  datatype Point = Point(x: real, y: real)

  /** A ring: an ordered list of points, closed or not. A nil ring and an
      empty ring behave identically everywhere, so both are []. */
  type Ring = seq<Point>

  /** A polygon: ring 0 is the exterior, rings 1.. are holes. `Nil` is the
      nil slice, which the source treats differently from a non-nil one. */
  datatype Polygon = Nil | Poly(rings: seq<Ring>)

  /** The centroid routine of the geometry library, applied to closed
      coordinate rings; it is outside this model and passed in. */
  type CentroidFn = seq<Ring> -> Point

  /** The source indexes ring 0 of every non-nil polygon whose area it
      takes, so a non-nil polygon without rings makes it panic. */
  predicate WellFormed(p: Polygon) {
    p.Poly? ==> |p.rings| > 0
  }

  function Abs(v: real): real {
    if v < 0.0 then -v else v
  }

  /** One term of the shoelace sum, for the edge from p0 to p1. */
  function Cross(p0: Point, p1: Point): real {
    p0.y * p1.x - p0.x * p1.y
  }

  /** The shoelace terms of the open chain s[0], s[1], ..., s[|s|-1]. */
  function ChainSum(s: seq<Point>): real
    decreases |s|
  {
    if |s| < 2 then 0.0
    else ChainSum(s[..|s| - 1]) + Cross(s[|s| - 2], s[|s| - 1])
  }

  /** The shoelace sum of a ring taken as implicitly closed: the open chain
      plus the wrap-around edge from the last point back to the first. */
  function ClosedSum(pts: Ring): real {
    if pts == [] then 0.0 else Cross(pts[|pts| - 1], pts[0]) + ChainSum(pts)
  }

  /** The unsigned area of a ring (shoelace, pkg/sieve.go:167-179). */
  function RingArea(pts: Ring): (a: real)
    ensures a >= 0.0
    ensures |pts| <= 1 ==> a == 0.0
  {
    if |pts| == 0 then 0.0 else Abs(ClosedSum(pts) / 2.0)
  }

  /** The loop of shoelace: `p0` trails `p1` by one point, starting at the
      last point, so the wrap-around edge is the first term added. */
  method Shoelace(pts: Ring) returns (area: real)
    ensures area == RingArea(pts)
  {
    var sum := 0.0;
    if |pts| == 0 {
      return 0.0;
    }
    var n := |pts|;
    var p0 := pts[n - 1];
    for i := 0 to n
      invariant p0 == if i == 0 then pts[n - 1] else pts[i - 1]
      invariant sum == if i == 0 then 0.0 else Cross(pts[n - 1], pts[0]) + ChainSum(pts[..i])
    {
      var p1 := pts[i];
      if i > 0 {
        assert pts[..i + 1][..i] == pts[..i];
      }
      sum := sum + (p0.y * p1.x - p0.x * p1.y);
      p0 := p1;
    }
    assert pts[..n] == pts;
    area := Abs(sum / 2.0);
  }

  /** Splitting the open chain at its first edge instead of its last. */
  lemma {:induction false} ChainSumFront(s: seq<Point>)
    requires |s| >= 2
    ensures ChainSum(s) == Cross(s[0], s[1]) + ChainSum(s[1..])
    decreases |s|
  {
    if |s| > 2 {
      var n := |s|;
      ChainSumFront(s[..n - 1]);
      assert s[..n - 1][1..] == s[1..][..n - 2];
    }
  }

  /** Walking the chain backwards negates every term. */
  lemma {:induction false} ChainSumReverse(s: seq<Point>)
    ensures ChainSum(Reverse(s)) == -ChainSum(s)
    decreases |s|
  {
    if |s| >= 2 {
      var r := Reverse(s);
      var n := |s|;
      ChainSumReverse(s[1..]);
      assert r[..n - 1] == Reverse(s[1..]);
      ChainSumFront(s);
    }
  }

  /** Closing a ring explicitly, by repeating its first point, does not
      change its area (pkg/sieve_test.go:15,19). */
  lemma ShoelaceExplicitClosure(pts: Ring)
    requires |pts| > 0
    ensures RingArea(pts + [pts[0]]) == RingArea(pts)
  {
    var q := pts + [pts[0]];
    assert q[..|q| - 1] == pts;
  }

  /** The area does not depend on the ring's orientation. */
  lemma ShoelaceReverse(pts: Ring)
    ensures RingArea(Reverse(pts)) == RingArea(pts)
  {
    if |pts| > 0 {
      ClosedSumReverse(pts);
    }
  }

  /** Swapping the two points of a shoelace term negates it. */
  lemma CrossSwap(p: Point, q: Point)
    ensures Cross(q, p) == -Cross(p, q)
  {
  }

  /** Reversing a ring negates its closed shoelace sum. */
  lemma ClosedSumReverse(pts: Ring)
    ensures ClosedSum(Reverse(pts)) == -ClosedSum(pts)
  {
    if |pts| > 0 {
      ChainSumReverse(pts);
      var r, n := Reverse(pts), |pts|;
      assert r[0] == pts[n - 1] && r[n - 1] == pts[0];
      CrossSwap(pts[n - 1], pts[0]);
    }
  }

  /** The total area of a list of holes, summed in list order. */
  function HoleSum(holes: seq<Ring>): (s: real)
    ensures s >= 0.0
    decreases |holes|
  {
    if holes == [] then 0.0
    else HoleSum(holes[..|holes| - 1]) + RingArea(holes[|holes| - 1])
  }

  /** The area of a polygon: the exterior ring less its holes; 0 for nil
      (area, pkg/sieve.go:153-164). */
  function PolygonArea(p: Polygon): real
    requires WellFormed(p)
  {
    if p.Nil? then 0.0 else RingArea(p.rings[0]) - HoleSum(p.rings[1..])
  }

  /** The loop of area: accumulate the holes, then subtract from ring 0. */
  method Area(p: Polygon) returns (a: real)
    requires WellFormed(p)
    ensures a == PolygonArea(p)
  {
    var interior := 0.0;
    if p.Nil? {
      return 0.0;
    }
    if |p.rings| > 1 {
      var holes := p.rings[1..];
      for i := 0 to |holes|
        invariant interior == HoleSum(holes[..i])
      {
        assert holes[..i + 1][..i] == holes[..i];
        var s := Shoelace(holes[i]);
        interior := interior + s;
      }
      assert holes[..|holes|] == holes;
    }
    var outer := Shoelace(p.rings[0]);
    a := outer - interior;
  }

  /** Adding a hole lowers the area by exactly that hole's ring area. */
  lemma AreaAddHole(rings: seq<Ring>, hole: Ring)
    requires |rings| > 0
    ensures PolygonArea(Poly(rings + [hole])) == PolygonArea(Poly(rings)) - RingArea(hole)
  {
    var q := rings + [hole];
    assert q[1..][..|q[1..]| - 1] == rings[1..];
  }

  /** An empty or nil hole contributes nothing (pkg/sieve_test.go:46,48). */
  lemma AreaEmptyHole(rings: seq<Ring>)
    requires |rings| > 0
    ensures PolygonArea(Poly(rings + [[]])) == PolygonArea(Poly(rings))
  {
    AreaAddHole(rings, []);
  }

  /** The hole sum of two lists laid end to end is the sum of their sums. */
  lemma {:induction false} HoleSumAppend(a: seq<Ring>, b: seq<Ring>)
    ensures HoleSum(a + b) == HoleSum(a) + HoleSum(b)
    decreases |b|
  {
    if b != [] {
      var b0 := b[..|b| - 1];
      HoleSumAppend(a, b0);
      assert (a + b)[..|a + b| - 1] == a + b0;
      assert (a + b)[|a + b| - 1] == b[|b| - 1];
      assert HoleSum(a + b) == HoleSum(a + b0) + RingArea(b[|b| - 1]);
      assert HoleSum(b) == HoleSum(b0) + RingArea(b[|b| - 1]);
    } else {
      assert a + b == a;
    }
  }

  /** An empty or nil hole contributes nothing wherever it stands among the
      holes. */
  lemma AreaEmptyHoleAnywhere(rings: seq<Ring>, i: nat)
    requires 1 <= i <= |rings|
    ensures PolygonArea(Poly(rings[..i] + [[]] + rings[i..])) == PolygonArea(Poly(rings))
  {
    var q := rings[..i] + [[]] + rings[i..];
    var holes := rings[1..];
    assert q[0] == rings[0];
    assert q[1..] == holes[..i - 1] + [[]] + holes[i - 1..];
    HoleSumAppend(holes[..i - 1] + [[]], holes[i - 1..]);
    assert (holes[..i - 1] + [[]])[..i - 1] == holes[..i - 1];
    HoleSumAppend(holes[..i - 1], holes[i - 1..]);
    assert holes[..i - 1] + holes[i - 1..] == holes;
  }

  /** Holes never make a polygon larger than its exterior ring. */
  lemma AreaAtMostExterior(p: Polygon)
    requires WellFormed(p) && p.Poly?
    ensures PolygonArea(p) <= RingArea(p.rings[0])
  {
  }

  /** A ring closed explicitly by appending its first point. */
  function Close(ring: Ring): Ring
    requires |ring| > 0
  {
    ring + [ring[0]]
  }

  predicate NonEmpty(ring: Ring) {
    |ring| > 0
  }

  /** The rings of getPolygonCoords, in order: each non-empty ring closed,
      each empty ring dropped. */
  function ClosedRings(rings: seq<Ring>): seq<Ring>
    decreases |rings|
  {
    if rings == [] then []
    else
      var last := rings[|rings| - 1];
      ClosedRings(rings[..|rings| - 1]) + (if |last| != 0 then [Close(last)] else [])
  }

  /** getPolygonCoords (pkg/sieve.go:199-216). Go returns nil exactly when no
      ring was appended, so nil is the empty sequence here. */
  function PolygonCoords(p: Polygon): seq<Ring> {
    if p.Nil? then [] else ClosedRings(p.rings)
  }

  method GetPolygonCoords(p: Polygon) returns (multiXyCoordinates: seq<Ring>)
    ensures multiXyCoordinates == PolygonCoords(p)
  {
    multiXyCoordinates := [];
    if p.Nil? {
      return [];
    }
    for i := 0 to |p.rings|
      invariant multiXyCoordinates == ClosedRings(p.rings[..i])
    {
      assert p.rings[..i + 1][..i] == p.rings[..i];
      var polygon := p.rings[i];
      if |polygon| != 0 {
        var xyCoordinates: Ring := [];
        for j := 0 to |polygon|
          invariant xyCoordinates == polygon[..j]
        {
          xyCoordinates := xyCoordinates + [polygon[j]];
        }
        assert xyCoordinates == polygon;
        xyCoordinates := xyCoordinates + [xyCoordinates[0]];
        multiXyCoordinates := multiXyCoordinates + [xyCoordinates];
      }
    }
    assert p.rings[..|p.rings|] == p.rings;
  }

  /** The coordinate rings are the non-empty rings of the polygon, in their
      original order, each one point longer and ending where it starts. */
  lemma {:induction false} ClosedRingsShape(rings: seq<Ring>)
    ensures |ClosedRings(rings)| == |Filter(rings, NonEmpty)|
    ensures forall k :: 0 <= k < |ClosedRings(rings)| ==>
      var src := Filter(rings, NonEmpty)[k];
      |src| > 0 && ClosedRings(rings)[k] == src + [src[0]]
    decreases |rings|
  {
    if rings != [] {
      ClosedRingsShape(rings[..|rings| - 1]);
    }
  }

  lemma PolygonCoordsShape(p: Polygon)
    requires p.Poly?
    ensures |PolygonCoords(p)| == |Filter(p.rings, NonEmpty)|
    ensures forall k :: 0 <= k < |PolygonCoords(p)| ==>
      var out := PolygonCoords(p)[k];
      var src := Filter(p.rings, NonEmpty)[k];
      && |out| == |src| + 1
      && out[..|src|] == src
      && out[|out| - 1] == out[0]
  {
    ClosedRingsShape(p.rings);
    forall k | 0 <= k < |PolygonCoords(p)|
      ensures var out := PolygonCoords(p)[k];
              var src := Filter(p.rings, NonEmpty)[k];
              |out| == |src| + 1 && out[..|src|] == src && out[|out| - 1] == out[0]
    {
      var src := Filter(p.rings, NonEmpty)[k];
      assert (src + [src[0]])[..|src|] == src;
    }
  }

  /** No coordinates come out exactly when the polygon is nil or has only
      empty rings. */
  lemma {:induction false} ClosedRingsEmpty(rings: seq<Ring>)
    ensures ClosedRings(rings) == [] <==> forall i :: 0 <= i < |rings| ==> |rings[i]| == 0
    decreases |rings|
  {
    if rings != [] {
      var init := rings[..|rings| - 1];
      ClosedRingsEmpty(init);
      assert forall i :: 0 <= i < |init| ==> init[i] == rings[i];
    }
  }

  /** getPolygonCentroid (pkg/sieve.go:95-112): (0,0) when there are no
      coordinates, otherwise the library's centroid of the closed rings. */
  function Centroid(p: Polygon, centroidOf: CentroidFn): Point {
    var coords := PolygonCoords(p);
    if coords == [] then Point(0.0, 0.0) else centroidOf(coords)
  }

  method GetPolygonCentroid(p: Polygon, centroidOf: CentroidFn) returns (c: Point)
    ensures c == Centroid(p, centroidOf)
  {
    var polygonCoords := GetPolygonCoords(p);
    if polygonCoords != [] {
      c := centroidOf(polygonCoords);
    } else {
      c := Point(0.0, 0.0);
    }
  }

  /** The degenerate centroid: a nil polygon, or one whose rings are all
      empty, has centroid (0,0) whatever the library computes
      (pkg/sieve_test.go:75). */
  lemma CentroidDegenerate(p: Polygon, centroidOf: CentroidFn)
    requires p.Nil? || forall i :: 0 <= i < |p.rings| ==> |p.rings[i]| == 0
    ensures Centroid(p, centroidOf) == Point(0.0, 0.0)
  {
    if p.Poly? {
      ClosedRingsEmpty(p.rings);
    }
  }

  /** Otherwise the library is asked, on the closed non-empty rings. */
  lemma CentroidDelegates(p: Polygon, centroidOf: CentroidFn)
    requires p.Poly? && exists i :: 0 <= i < |p.rings| && |p.rings[i]| > 0
    ensures Centroid(p, centroidOf) == centroidOf(ClosedRings(p.rings))
    ensures ClosedRings(p.rings) != []
  {
    ClosedRingsEmpty(p.rings);
  }
}
