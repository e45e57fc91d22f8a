/** The sieve of one polygon and of one multi-polygon against a resolution
    (polygonSieve and multiPolygonSieve, pkg/sieve.go:114-150). The area
    threshold is resolution * resolution and a shape must be strictly
    larger to survive. */
module Reducer {
  import opened Seqs
  import opened Geometry

  type MultiPolygon = seq<Polygon>

  predicate AllWellFormed(mp: MultiPolygon) {
    forall i :: 0 <= i < |mp| ==> WellFormed(mp[i])
  }

  /** The holes a surviving polygon keeps: strictly above the threshold. */
  function Above(minArea: real): Ring -> bool {
    (hole: Ring) => RingArea(hole) > minArea
  }

  /** The polygon that stands for a reduced one: one ring of one point. */
  function CentroidPolygon(p: Polygon, centroidOf: CentroidFn): Polygon {
    Poly([[Centroid(p, centroidOf)]])
  }

  /** polygonSieve: the sieved polygon and whether it was reduced. */
  function SievePolygon(p: Polygon, resolution: real, centroidOf: CentroidFn): (Polygon, bool)
    requires WellFormed(p)
  {
    var minArea := resolution * resolution;
    if PolygonArea(p) > minArea then
      if |p.rings| > 1 then (Poly([p.rings[0]] + Filter(p.rings[1..], Above(minArea))), false)
      else (p, false)
    else if p.Nil? then (Nil, false)
    else (CentroidPolygon(p, centroidOf), true)
  }

  method PolygonSieve(p: Polygon, resolution: real, centroidOf: CentroidFn)
    returns (sieved: Polygon, isReduced: bool)
    requires WellFormed(p)
    ensures (sieved, isReduced) == SievePolygon(p, resolution, centroidOf)
  {
    var minArea := resolution * resolution;
    var area := Area(p);
    if area > minArea {
      assert p.Poly? by {
        assert minArea >= 0.0;
      }
      if |p.rings| > 1 {
        var sievedPolygon := [p.rings[0]];
        var interiors := p.rings[1..];
        for i := 0 to |interiors|
          invariant sievedPolygon == [p.rings[0]] + Filter(interiors[..i], Above(minArea))
        {
          assert interiors[..i + 1][..i] == interiors[..i];
          assert Filter(interiors[..i + 1], Above(minArea))
              == Filter(interiors[..i], Above(minArea))
                 + (if Above(minArea)(interiors[i]) then [interiors[i]] else []);
          var s := Shoelace(interiors[i]);
          if s > minArea {
            sievedPolygon := sievedPolygon + [interiors[i]];
          }
        }
        assert interiors[..|interiors|] == interiors;
        return Poly(sievedPolygon), false;
      }
      return p, false;
    }
    if p.Nil? {
      return Nil, false;
    }
    var c := GetPolygonCentroid(p, centroidOf);
    return Poly([[c]]), true;
  }

  /** A polygon above the threshold is kept: not reduced, same exterior
      ring, and its holes are exactly those above the threshold, in their
      original order (pkg/sieve_test.go:93,99,101). */
  lemma SieveKeeps(p: Polygon, resolution: real, centroidOf: CentroidFn)
    requires WellFormed(p)
    requires PolygonArea(p) > resolution * resolution
    ensures var (q, reduced) := SievePolygon(p, resolution, centroidOf);
      && !reduced
      && p.Poly? && q.Poly? && |q.rings| >= 1
      && q.rings[0] == p.rings[0]
      && Selects(q.rings[1..], p.rings[1..], FilterIndices(p.rings[1..], Above(resolution * resolution)))
      && (forall i :: 0 <= i < |p.rings| - 1 ==>
            (i in FilterIndices(p.rings[1..], Above(resolution * resolution))
             <==> RingArea(p.rings[1..][i]) > resolution * resolution))
  {
    var minArea := resolution * resolution;
    assert p.Poly?;
    var holes := p.rings[1..];
    FilterSelects(holes, Above(minArea));
    if |p.rings| == 1 {
      assert holes == [];
    }
  }

  /** A polygon with only an exterior ring that survives is returned as is. */
  lemma SieveKeepsSingleRing(p: Polygon, resolution: real, centroidOf: CentroidFn)
    requires p.Poly? && |p.rings| == 1
    requires PolygonArea(p) > resolution * resolution
    ensures SievePolygon(p, resolution, centroidOf) == (p, false)
  {
  }

  /** Dropping holes never lowers the area. */
  lemma {:induction false} HoleSumFilter(holes: seq<Ring>, keep: Ring -> bool)
    ensures HoleSum(Filter(holes, keep)) <= HoleSum(holes)
    decreases |holes|
  {
    if holes != [] {
      var init := holes[..|holes| - 1];
      var last := holes[|holes| - 1];
      HoleSumFilter(init, keep);
      assert HoleSum(holes) == HoleSum(init) + RingArea(last);
      if keep(last) {
        var f := Filter(init, keep) + [last];
        assert Filter(holes, keep) == f;
        assert f[..|f| - 1] == Filter(init, keep);
        assert HoleSum(f) == HoleSum(Filter(init, keep)) + RingArea(last);
      } else {
        assert Filter(holes, keep) == Filter(init, keep);
      }
    }
  }

  /** Holes that all pass the filter are all kept. */
  lemma {:induction false} FilterAllKept(holes: seq<Ring>, keep: Ring -> bool)
    requires forall i :: 0 <= i < |holes| ==> keep(holes[i])
    ensures Filter(holes, keep) == holes
    decreases |holes|
  {
    if holes != [] {
      var init := holes[..|holes| - 1];
      FilterAllKept(init, keep);
      assert init + [holes[|holes| - 1]] == holes;
    }
  }

  /** Sieving is idempotent on a surviving polygon: sieving the result
      again at the same resolution changes nothing. */
  lemma SieveIdempotent(p: Polygon, resolution: real, centroidOf: CentroidFn)
    requires WellFormed(p)
    requires !SievePolygon(p, resolution, centroidOf).1
    ensures var q := SievePolygon(p, resolution, centroidOf).0;
      WellFormed(q) && SievePolygon(q, resolution, centroidOf) == (q, false)
  {
    var minArea := resolution * resolution;
    if p.Nil? {
      assert SievePolygon(p, resolution, centroidOf).0 == Nil;
    } else {
      assert PolygonArea(p) > minArea;
      if |p.rings| > 1 {
        KeptPolygonStable(p.rings[0], p.rings[1..], minArea, resolution, centroidOf);
      } else {
        assert SievePolygon(p, resolution, centroidOf).0 == p;
      }
    }
  }

  /** The step of SieveIdempotent that does the work: the rebuilt polygon
      is still above the threshold and all its holes pass again. */
  lemma KeptPolygonStable(exterior: Ring, holes: seq<Ring>, minArea: real, resolution: real,
                          centroidOf: CentroidFn)
    requires minArea == resolution * resolution
    requires RingArea(exterior) - HoleSum(holes) > minArea
    ensures var q := Poly([exterior] + Filter(holes, Above(minArea)));
      SievePolygon(q, resolution, centroidOf) == (q, false)
  {
    var kept := Filter(holes, Above(minArea));
    var q := Poly([exterior] + kept);
    assert q.rings[0] == exterior && q.rings[1..] == kept;
    HoleSumFilter(holes, Above(minArea));
    assert PolygonArea(q) > minArea;
    FilterAllKept(kept, Above(minArea));
  }

  /** Exactly the non-nil polygons at or below the threshold are reduced,
      and they become the single-point centroid polygon; nil stays nil
      (pkg/sieve_test.go:95,97). */
  lemma SieveReduces(p: Polygon, resolution: real, centroidOf: CentroidFn)
    requires WellFormed(p)
    ensures var (q, reduced) := SievePolygon(p, resolution, centroidOf);
      && (reduced <==> p.Poly? && PolygonArea(p) <= resolution * resolution)
      && (reduced ==> q == Poly([[Centroid(p, centroidOf)]]))
      && (p.Nil? ==> q == Nil)
  {
    assert resolution * resolution >= 0.0;
  }

  /** multiPolygonSieve: each member sieved on its own, in order; a reduced
      member is replaced by the centroid polygon of that member. */
  function SieveMultiPolygon(mp: MultiPolygon, resolution: real, centroidOf: CentroidFn)
    : (MultiPolygon, bool)
    requires AllWellFormed(mp)
    decreases |mp|
  {
    if mp == [] then ([], false)
    else
      var (before, anyReduced) := SieveMultiPolygon(mp[..|mp| - 1], resolution, centroidOf);
      var p := mp[|mp| - 1];
      var (sieved, b) := SievePolygon(p, resolution, centroidOf);
      if !b then (before + [sieved], anyReduced)
      else (before + [CentroidPolygon(p, centroidOf)], true)
  }

  method MultiPolygonSieve(mp: MultiPolygon, resolution: real, centroidOf: CentroidFn)
    returns (sievedMultiPolygon: MultiPolygon, isReduced: bool)
    requires AllWellFormed(mp)
    ensures (sievedMultiPolygon, isReduced) == SieveMultiPolygon(mp, resolution, centroidOf)
  {
    sievedMultiPolygon, isReduced := [], false;
    for i := 0 to |mp|
      invariant (sievedMultiPolygon, isReduced) == SieveMultiPolygon(mp[..i], resolution, centroidOf)
    {
      assert mp[..i + 1][..i] == mp[..i];
      var p := mp[i];
      var sievedPolygon, b := PolygonSieve(p, resolution, centroidOf);
      if !b {
        sievedMultiPolygon := sievedMultiPolygon + [sievedPolygon];
      } else {
        isReduced := true;
        var c := GetPolygonCentroid(p, centroidOf);
        sievedMultiPolygon := sievedMultiPolygon + [Poly([[c]])];
      }
    }
    assert mp[..|mp|] == mp;
  }

  /** Member by member: same count, same order, and member i is what
      sieving member i alone gives: the kept polygon, or the single-point
      centroid polygon of that member if it was reduced
      (pkg/sieve_test.go:156). */
  lemma {:induction false} SieveMultiPolygonMembers(mp: MultiPolygon, resolution: real, centroidOf: CentroidFn)
    requires AllWellFormed(mp)
    ensures |SieveMultiPolygon(mp, resolution, centroidOf).0| == |mp|
    ensures forall i :: 0 <= i < |mp| ==>
      SieveMultiPolygon(mp, resolution, centroidOf).0[i] == SievePolygon(mp[i], resolution, centroidOf).0
    ensures forall i :: 0 <= i < |mp| && SievePolygon(mp[i], resolution, centroidOf).1 ==>
      SieveMultiPolygon(mp, resolution, centroidOf).0[i] == Poly([[Centroid(mp[i], centroidOf)]])
    decreases |mp|
  {
    if mp != [] {
      var init := mp[..|mp| - 1];
      var last := mp[|mp| - 1];
      SieveMultiPolygonMembers(init, resolution, centroidOf);
      var before := SieveMultiPolygon(init, resolution, centroidOf).0;
      var out := SieveMultiPolygon(mp, resolution, centroidOf).0;
      assert out == before + [SievePolygon(last, resolution, centroidOf).0];
      forall i | 0 <= i < |mp|
        ensures out[i] == SievePolygon(mp[i], resolution, centroidOf).0
      {
        if i < |init| {
          assert mp[i] == init[i];
        }
      }
    }
  }

  /** The flag is set exactly when some member was reduced
      (pkg/sieve_test.go:120-130). */
  lemma {:induction false} SieveMultiPolygonFlag(mp: MultiPolygon, resolution: real, centroidOf: CentroidFn)
    requires AllWellFormed(mp)
    ensures SieveMultiPolygon(mp, resolution, centroidOf).1
        <==> exists i :: 0 <= i < |mp| && SievePolygon(mp[i], resolution, centroidOf).1
    decreases |mp|
  {
    if mp != [] {
      var init := mp[..|mp| - 1];
      SieveMultiPolygonFlag(init, resolution, centroidOf);
      assert forall i :: 0 <= i < |init| ==> init[i] == mp[i];
      if SievePolygon(mp[|mp| - 1], resolution, centroidOf).1 {
        assert SieveMultiPolygon(mp, resolution, centroidOf).1;
      } else {
        assert SieveMultiPolygon(mp, resolution, centroidOf).1 == SieveMultiPolygon(init, resolution, centroidOf).1;
      }
    }
  }

  /** A nil multi-polygon sieves to an empty one, not reduced. */
  lemma SieveMultiPolygonNil(resolution: real, centroidOf: CentroidFn)
    ensures SieveMultiPolygon([], resolution, centroidOf) == ([], false)
  {
  }
}
