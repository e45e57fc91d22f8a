/** The concrete cases of pkg/sieve_test.go, stated on the model. */
module Scenarios {
  import opened Seqs
  import opened Geometry
  import opened Reducer

  /** The 10 by 10 square of the tests, explicitly closed. */
  function Square(): Ring {
    [Point(0.0, 0.0), Point(0.0, 10.0), Point(10.0, 10.0), Point(10.0, 0.0), Point(0.0, 0.0)]
  }

  /** The 5 by 5 square at (15,15) of the multi-polygon tests. */
  function SmallSquare(): Ring {
    [Point(15.0, 15.0), Point(15.0, 20.0), Point(20.0, 20.0), Point(20.0, 15.0), Point(15.0, 15.0)]
  }

  /** The unit hole at (5,5) of the "filter out donut" test. */
  function UnitHole(): Ring {
    [Point(5.0, 5.0), Point(5.0, 6.0), Point(6.0, 6.0), Point(6.0, 5.0), Point(5.0, 5.0)]
  }

  /** Appending a point adds the edge from the former last point. */
  lemma ChainSumSnoc(s: seq<Point>, p: Point)
    requires |s| >= 1
    ensures ChainSum(s + [p]) == ChainSum(s) + Cross(s[|s| - 1], p)
  {
    assert (s + [p])[..|s|] == s;
  }

  /** An axis-aligned closed square ring with corner (a,b) and side d,
      listed the way the tests list theirs. */
  function SquareRing(a: real, b: real, d: real): Ring {
    [Point(a, b), Point(a, b + d), Point(a + d, b + d), Point(a + d, b), Point(a, b)]
  }

  lemma SquareRingArea(a: real, b: real, d: real)
    requires d >= 0.0
    ensures RingArea(SquareRing(a, b, d)) == d * d
  {
    var p0, p1, p2, p3 := Point(a, b), Point(a, b + d), Point(a + d, b + d), Point(a + d, b);
    ChainSumSnoc([p0], p1);
    ChainSumSnoc([p0, p1], p2);
    ChainSumSnoc([p0, p1, p2], p3);
    ChainSumSnoc([p0, p1, p2, p3], p0);
    assert [p0] + [p1] == [p0, p1];
    assert [p0, p1] + [p2] == [p0, p1, p2];
    assert [p0, p1, p2] + [p3] == [p0, p1, p2, p3];
    assert [p0, p1, p2, p3] + [p0] == [p0, p1, p2, p3, p0];
    assert Cross(p0, p1) == -a * d;
    assert Cross(p1, p2) == (b + d) * d;
    assert Cross(p2, p3) == (a + d) * d;
    assert Cross(p3, p0) == -b * d;
    assert Cross(p0, p0) == 0.0;
    assert ClosedSum([p0, p1, p2, p3, p0]) == 2.0 * d * d;
  }

  /** Shoelace of the square is 100 (pkg/sieve_test.go:15), and so is it for
      the square with its closing point left out (pkg/sieve_test.go:19). */
  lemma SquareArea()
    ensures RingArea(Square()) == 100.0
  {
    assert Square() == SquareRing(0.0, 0.0, 10.0);
    SquareRingArea(0.0, 0.0, 10.0);
  }

  lemma OpenSquareArea()
    ensures RingArea([Point(0.0, 0.0), Point(0.0, 10.0), Point(10.0, 10.0), Point(10.0, 0.0)]) == 100.0
  {
    var open := [Point(0.0, 0.0), Point(0.0, 10.0), Point(10.0, 10.0), Point(10.0, 0.0)];
    SquareArea();
    assert open + [open[0]] == Square();
    ShoelaceExplicitClosure(open);
  }

  /** The square survives resolution 9 unchanged and is reduced to its
      centroid at resolution 101 (pkg/sieve_test.go:93,95); at resolution
      10 its area equals the threshold and, the comparison being strict, it
      is reduced too. */
  lemma SquareThresholds(centroidOf: CentroidFn)
    ensures SievePolygon(Poly([Square()]), 9.0, centroidOf) == (Poly([Square()]), false)
    ensures SievePolygon(Poly([Square()]), 10.0, centroidOf).1
    ensures SievePolygon(Poly([Square()]), 101.0, centroidOf)
         == (Poly([[Centroid(Poly([Square()]), centroidOf)]]), true)
  {
    SquareArea();
    assert Poly([Square()]).rings[1..] == [];
  }

  /** The "filter out donut" case: at resolution 9 the hole of area 1 is
      dropped and the square survives with its full area of 100
      (pkg/sieve_test.go:99). */
  lemma UnitHoleDropped(centroidOf: CentroidFn)
    ensures SievePolygon(Poly([Square(), UnitHole()]), 9.0, centroidOf) == (Poly([Square()]), false)
    ensures PolygonArea(Poly([Square()])) == 100.0
  {
    SquareArea();
    assert UnitHole() == SquareRing(5.0, 5.0, 1.0);
    SquareRingArea(5.0, 5.0, 1.0);
    var p := Poly([Square(), UnitHole()]);
    assert p.rings[1..] == [UnitHole()];
    assert [UnitHole()][..0] == [];
    assert PolygonArea(p) == 99.0;
    assert !Above(81.0)(UnitHole());
    assert Filter([UnitHole()], Above(81.0)) == [];
    assert SievePolygon(p, 9.0, centroidOf) == (Poly([Square()] + Filter([UnitHole()], Above(81.0))), false);
    assert [Square()] + Filter([UnitHole()], Above(81.0)) == [Square()];
    assert Poly([Square()]).rings[1..] == [];
  }

  /** At resolution 1 the unit hole's area equals the threshold; the hole
      test being strict, the hole is dropped all the same. */
  lemma UnitHoleAtThreshold(centroidOf: CentroidFn)
    ensures SievePolygon(Poly([Square(), UnitHole()]), 1.0, centroidOf) == (Poly([Square()]), false)
  {
    SquareArea();
    assert UnitHole() == SquareRing(5.0, 5.0, 1.0);
    SquareRingArea(5.0, 5.0, 1.0);
    var p := Poly([Square(), UnitHole()]);
    assert p.rings[1..] == [UnitHole()];
    assert [UnitHole()][..0] == [];
    assert PolygonArea(p) == 99.0;
    assert !Above(1.0)(UnitHole());
    assert Filter([UnitHole()], Above(1.0)) == [];
    assert SievePolygon(p, 1.0, centroidOf) == (Poly([Square()] + Filter([UnitHole()], Above(1.0))), false);
    assert [Square()] + Filter([UnitHole()], Above(1.0)) == [Square()];
  }

  /** The two-square multi-polygon at resolution 7: the 100 square is kept
      as it is, the 25 square becomes its centroid, order preserved, and the
      flag is set (pkg/sieve_test.go:156). */
  lemma TwoSquaresOneReduced(centroidOf: CentroidFn)
    ensures var (out, reduced) := SieveMultiPolygon([Poly([Square()]), Poly([SmallSquare()])], 7.0, centroidOf);
      && reduced
      && out == [Poly([Square()]), Poly([[Centroid(Poly([SmallSquare()]), centroidOf)]])]
  {
    SquareArea();
    assert SmallSquare() == SquareRing(15.0, 15.0, 5.0);
    SquareRingArea(15.0, 15.0, 5.0);
    var mp := [Poly([Square()]), Poly([SmallSquare()])];
    assert Poly([Square()]).rings[1..] == [];
    assert Poly([SmallSquare()]).rings[1..] == [];
    assert mp[..1] == [Poly([Square()])];
    assert mp[..1][..0] == [];
  }
}
