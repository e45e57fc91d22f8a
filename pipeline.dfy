/** The sieve stage of the pipeline (sieveFeatures, pkg/sieve.go:18-66): it
    receives features one at a time, replaces each polygon or multi-polygon
    geometry by its sieved form, marks whether it was reduced, passes it on,
    and keeps four counters. The input and output channels are sequences. */
module Pipeline {
  import opened Geometry
  import opened Reducer

  /** An opaque column value, copied verbatim and never interpreted. */
  type Column(==)

  /** The geometry of a feature, distinguished as the type switch of
      sieveFeatures distinguishes it; every other geometry, nil included,
      is `OtherGeom`. */
  datatype Geom =
    | PolygonGeom(polygon: Polygon)
    | MultiPolygonGeom(members: MultiPolygon)
    | OtherGeom(tag: string)

  predicate GeomWellFormed(g: Geom) {
    match g
    case PolygonGeom(p) => WellFormed(p)
    case MultiPolygonGeom(mp) => AllWellFormed(mp)
    case OtherGeom(_) => true
  }

  /** A feature (pkg/interface.go:5-10): columns, a geometry it can replace
      and a reduced flag it can set. */
  class Feature {
    var columns: seq<Column>
    var geometry: Geom
    var reduced: bool

    constructor (columns: seq<Column>, geometry: Geom)
      ensures this.columns == columns && this.geometry == geometry && !reduced
    {
      this.columns := columns;
      this.geometry := geometry;
      this.reduced := false;
    }

    method UpdateGeometry(g: Geom)
      modifies this`geometry
      ensures geometry == g
    {
      geometry := g;
    }

    method IsReduced(b: bool)
      modifies this`reduced
      ensures reduced == b
    {
      reduced := b;
    }
  }

  /** The new geometry of one feature and its reduced flag. */
  function SieveGeom(g: Geom, resolution: real, centroidOf: CentroidFn): (r: (Geom, bool))
    requires GeomWellFormed(g)
    ensures r.0.PolygonGeom? == g.PolygonGeom? && r.0.MultiPolygonGeom? == g.MultiPolygonGeom?
    ensures g.OtherGeom? ==> r == (g, false)
  {
    match g
    case PolygonGeom(p) =>
      var (q, b) := SievePolygon(p, resolution, centroidOf);
      (PolygonGeom(q), b)
    case MultiPolygonGeom(mp) =>
      var (q, b) := SieveMultiPolygon(mp, resolution, centroidOf);
      (MultiPolygonGeom(q), b)
    case OtherGeom(_) => (g, false)
  }

  /** The four counters of sieveFeatures. */
  datatype Counters = Counters(preSieve: nat, postSieve: nat, nonPolygon: nat, multiPolygon: nat)

  predicate AllGeomWellFormed(gs: seq<Geom>) {
    forall i :: 0 <= i < |gs| ==> GeomWellFormed(gs[i])
  }

  /** The counters after one more feature with geometry `g`, which the sieve
      reduced or not. */
  function Count(c: Counters, g: Geom, reduced: bool): Counters {
    match g
    case PolygonGeom(_) =>
      Counters(c.preSieve + 1, c.postSieve + (if reduced then 0 else 1), c.nonPolygon, c.multiPolygon)
    case MultiPolygonGeom(_) =>
      Counters(c.preSieve + 1, c.postSieve + (if reduced then 0 else 1), c.nonPolygon, c.multiPolygon + 1)
    case OtherGeom(_) =>
      Counters(c.preSieve + 1, c.postSieve + 1, c.nonPolygon + 1, c.multiPolygon)
  }

  /** The counters after the geometries `gs` went through, in order. */
  function Tally(gs: seq<Geom>, resolution: real, centroidOf: CentroidFn): (c: Counters)
    requires AllGeomWellFormed(gs)
    ensures c.preSieve == |gs|
    ensures c.nonPolygon + c.multiPolygon <= c.preSieve
    ensures c.nonPolygon <= c.postSieve <= c.preSieve
    decreases |gs|
  {
    if gs == [] then Counters(0, 0, 0, 0)
    else
      var g := gs[|gs| - 1];
      Count(Tally(gs[..|gs| - 1], resolution, centroidOf), g, SieveGeom(g, resolution, centroidOf).1)
  }

  /** The positions of the geometries in `gs` that come out not reduced. */
  function KeptPositions(gs: seq<Geom>, resolution: real, centroidOf: CentroidFn): set<nat>
    requires AllGeomWellFormed(gs)
  {
    set i: nat | i < |gs| && !SieveGeom(gs[i], resolution, centroidOf).1
  }

  /** The positions of the geometries in `gs` that are neither polygon nor
      multi-polygon. */
  function OtherPositions(gs: seq<Geom>): set<nat> {
    set i: nat | i < |gs| && gs[i].OtherGeom?
  }

  /** The positions of the multi-polygons in `gs`. */
  function MultiPolygonPositions(gs: seq<Geom>): set<nat> {
    set i: nat | i < |gs| && gs[i].MultiPolygonGeom?
  }

  lemma CardAddLast(s: set<nat>, n: nat, b: bool)
    requires n !in s
    ensures |s + (if b then {n} else {})| == |s| + (if b then 1 else 0)
  {
  }

  lemma KeptPositionsStep(gs: seq<Geom>, resolution: real, centroidOf: CentroidFn)
    requires gs != [] && AllGeomWellFormed(gs)
    ensures var n := |gs| - 1;
      |KeptPositions(gs, resolution, centroidOf)|
      == |KeptPositions(gs[..n], resolution, centroidOf)| + (if SieveGeom(gs[n], resolution, centroidOf).1 then 0 else 1)
  {
    var n := |gs| - 1;
    var s := KeptPositions(gs[..n], resolution, centroidOf);
    var reduced := SieveGeom(gs[n], resolution, centroidOf).1;
    assert KeptPositions(gs, resolution, centroidOf) == s + (if reduced then {} else {n});
    CardAddLast(s, n, !reduced);
  }

  lemma OtherPositionsStep(gs: seq<Geom>)
    requires gs != []
    ensures var n := |gs| - 1;
      |OtherPositions(gs)| == |OtherPositions(gs[..n])| + (if gs[n].OtherGeom? then 1 else 0)
  {
    var n := |gs| - 1;
    var s := OtherPositions(gs[..n]);
    assert OtherPositions(gs) == s + (if gs[n].OtherGeom? then {n} else {});
    CardAddLast(s, n, gs[n].OtherGeom?);
  }

  lemma MultiPolygonPositionsStep(gs: seq<Geom>)
    requires gs != []
    ensures var n := |gs| - 1;
      |MultiPolygonPositions(gs)| == |MultiPolygonPositions(gs[..n])| + (if gs[n].MultiPolygonGeom? then 1 else 0)
  {
    var n := |gs| - 1;
    var s := MultiPolygonPositions(gs[..n]);
    assert MultiPolygonPositions(gs) == s + (if gs[n].MultiPolygonGeom? then {n} else {});
    CardAddLast(s, n, gs[n].MultiPolygonGeom?);
  }

  /** The postSieve counter counts the geometries that come out not reduced. */
  lemma {:induction false} TallyCountsKept(gs: seq<Geom>, resolution: real, centroidOf: CentroidFn)
    requires AllGeomWellFormed(gs)
    ensures Tally(gs, resolution, centroidOf).postSieve == |KeptPositions(gs, resolution, centroidOf)|
    decreases |gs|
  {
    if gs != [] {
      TallyCountsKept(gs[..|gs| - 1], resolution, centroidOf);
      KeptPositionsStep(gs, resolution, centroidOf);
    }
  }

  /** The nonPolygon counter counts the geometries that are neither polygon
      nor multi-polygon. */
  lemma {:induction false} TallyCountsOther(gs: seq<Geom>, resolution: real, centroidOf: CentroidFn)
    requires AllGeomWellFormed(gs)
    ensures Tally(gs, resolution, centroidOf).nonPolygon == |OtherPositions(gs)|
    decreases |gs|
  {
    if gs != [] {
      TallyCountsOther(gs[..|gs| - 1], resolution, centroidOf);
      OtherPositionsStep(gs);
    }
  }

  /** The multiPolygon counter counts the multi-polygons. */
  lemma {:induction false} TallyCountsMulti(gs: seq<Geom>, resolution: real, centroidOf: CentroidFn)
    requires AllGeomWellFormed(gs)
    ensures Tally(gs, resolution, centroidOf).multiPolygon == |MultiPolygonPositions(gs)|
    decreases |gs|
  {
    if gs != [] {
      TallyCountsMulti(gs[..|gs| - 1], resolution, centroidOf);
      MultiPolygonPositionsStep(gs);
    }
  }

  /** The geometries currently held by a sequence of features. */
  function Geometries(fs: seq<Feature>): (gs: seq<Geom>)
    reads fs
    ensures |gs| == |fs| && forall i :: 0 <= i < |fs| ==> gs[i] == fs[i].geometry
  {
    seq(|fs|, i reads fs requires 0 <= i < |fs| => fs[i].geometry)
  }

  /** The mutable part of one feature after the sieve, as a pure function of
      its geometry before. */
  ghost predicate Sieved(f: Feature, before: Geom, resolution: real, centroidOf: CentroidFn)
    reads f
    requires GeomWellFormed(before)
  {
    (f.geometry, f.reduced) == SieveGeom(before, resolution, centroidOf)
  }

  /** The flags the sieve left on the features are the ones SieveGeom
      gives for their earlier geometries, so the features left unreduced
      sit at the kept positions. */
  lemma UnreducedFeatures(fs: seq<Feature>, before: seq<Geom>, resolution: real, centroidOf: CentroidFn)
    requires |fs| == |before| && AllGeomWellFormed(before)
    requires forall i :: 0 <= i < |fs| ==> fs[i].reduced == SieveGeom(before[i], resolution, centroidOf).1
    ensures (set i: nat | i < |fs| && !fs[i].reduced) == KeptPositions(before, resolution, centroidOf)
  {
  }

  /** The body of the loop of sieveFeatures for one feature: the type
      switch, the geometry update, the reduced flag and the counters. */
  method SieveFeature(feature: Feature, counters: Counters, resolution: real, centroidOf: CentroidFn)
    returns (next: Counters)
    requires GeomWellFormed(feature.geometry)
    modifies feature`geometry, feature`reduced
    ensures Sieved(feature, old(feature.geometry), resolution, centroidOf)
    ensures next == Count(counters, old(feature.geometry), feature.reduced)
  {
    var preSieveCount, postSieveCount, nonPolygonCount, multiPolygonCount :=
      counters.preSieve + 1, counters.postSieve, counters.nonPolygon, counters.multiPolygon;
    match feature.geometry {
      case PolygonGeom(p) =>
        var sievedPolygon, isReduced := PolygonSieve(p, resolution, centroidOf);
        feature.UpdateGeometry(PolygonGeom(sievedPolygon));
        feature.IsReduced(isReduced);
        if !isReduced {
          postSieveCount := postSieveCount + 1;
        }
      case MultiPolygonGeom(mp) =>
        var sievedMultiPolygon, isReduced := MultiPolygonSieve(mp, resolution, centroidOf);
        feature.UpdateGeometry(MultiPolygonGeom(sievedMultiPolygon));
        feature.IsReduced(isReduced);
        multiPolygonCount := multiPolygonCount + 1;
        if !isReduced {
          postSieveCount := postSieveCount + 1;
        }
      case OtherGeom(_) =>
        postSieveCount := postSieveCount + 1;
        nonPolygonCount := nonPolygonCount + 1;
        feature.IsReduced(false);
    }
    next := Counters(preSieveCount, postSieveCount, nonPolygonCount, multiPolygonCount);
  }

  /** sieveFeatures: every feature is passed on once, in input order, with
      its geometry sieved and its reduced flag set; columns are untouched. */
  method SieveFeatures(preSieve: seq<Feature>, resolution: real, centroidOf: CentroidFn)
    returns (postSieve: seq<Feature>, counters: Counters)
    requires forall i, j :: 0 <= i < j < |preSieve| ==> preSieve[i] != preSieve[j]
    requires AllGeomWellFormed(Geometries(preSieve))
    modifies preSieve
    ensures postSieve == preSieve
    ensures forall i :: 0 <= i < |preSieve| ==>
      Sieved(preSieve[i], old(preSieve[i].geometry), resolution, centroidOf)
    ensures forall i :: 0 <= i < |preSieve| ==> preSieve[i].columns == old(preSieve[i].columns)
    ensures forall i :: 0 <= i < |preSieve| && old(preSieve[i].geometry).OtherGeom? ==>
      preSieve[i].geometry == old(preSieve[i].geometry) && !preSieve[i].reduced
    ensures counters == Tally(old(Geometries(preSieve)), resolution, centroidOf)
    ensures counters.preSieve == |preSieve|
    ensures counters.postSieve == |set i: nat | i < |postSieve| && !postSieve[i].reduced|
    ensures counters.nonPolygon + counters.multiPolygon <= counters.preSieve
  {
    ghost var before := Geometries(preSieve);
    counters := Counters(0, 0, 0, 0);
    postSieve := [];
    for i := 0 to |preSieve|
      invariant postSieve == preSieve[..i]
      invariant forall j :: 0 <= j < i ==> Sieved(preSieve[j], before[j], resolution, centroidOf)
      invariant forall j :: i <= j < |preSieve| ==> preSieve[j].geometry == before[j]
      invariant forall j :: 0 <= j < |preSieve| ==> preSieve[j].columns == old(preSieve[j].columns)
      invariant counters == Tally(before[..i], resolution, centroidOf)
    {
      assert before[..i + 1][..i] == before[..i];
      var feature := preSieve[i];
      counters := SieveFeature(feature, counters, resolution, centroidOf);
      postSieve := postSieve + [feature];
    }
    assert before[..|preSieve|] == before;
    TallyCountsKept(before, resolution, centroidOf);
    UnreducedFeatures(postSieve, before, resolution, centroidOf);
  }
}
