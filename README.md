# Area sieve of PDOK/sieve, modelled in Dafny

The sieve removes polygons and interior rings (holes) that are too small for
a given resolution `r`. A shape is kept only when its area is strictly larger
than `r * r`. A polygon that is too small is replaced by a polygon with one
ring holding one point, its centroid. A multi-polygon is sieved member by
member. The sieve stage reads the features one by one, replaces each
polygon or multi-polygon geometry with its sieved form, sets the feature's
"reduced" flag, passes the feature on, and keeps four counters.

The model follows `pkg/sieve.go` loop by loop. Each loop of the modelled
Go functions is a Dafny `method` with a `while`/`for` loop. Each method is proved equal to a
pure specification function, and the properties are proved as lemmas about
those functions.

- `seqs.dfy` (module `Seqs`): an order-preserving `Filter`, the indices it
  selects, and `Reverse`.
- `geometry.dfy` (module `Geometry`): points, rings and polygons; `shoelace`
  (`Shoelace` / `RingArea`), `area` (`Area` / `PolygonArea`),
  `getPolygonCoords` (`GetPolygonCoords` / `PolygonCoords`) and
  `getPolygonCentroid` (`GetPolygonCentroid` / `Centroid`).
- `reducer.dfy` (module `Reducer`): `polygonSieve` (`PolygonSieve` /
  `SievePolygon`) and `multiPolygonSieve` (`MultiPolygonSieve` /
  `SieveMultiPolygon`).
- `pipeline.dfy` (module `Pipeline`): the `Feature` class and the loop of
  `sieveFeatures` (`SieveFeatures`, specified by `SieveGeom` and `Tally`).
- `scenarios.dfy` (module `Scenarios`): the concrete cases of
  `pkg/sieve_test.go`.

Modelling decisions:

- Coordinates are exact `real`s. `math.Abs(sum / 2)` is `Abs(sum / 2.0)`.
- A Go polygon is `[][][2]float64`, and Go treats a nil polygon differently
  from a non-nil one. So `Polygon` is `Nil | Poly(rings)`. A nil ring and an
  empty ring behave the same everywhere, so both are `[]`.
- `area` panics on a non-nil polygon with no rings, because it reads
  `geom[0]`. The callers therefore must pass `WellFormed` polygons: a
  non-nil polygon has at least one ring.
- The centroid formula comes from the go-geom library (`xy.Centroid`). Here
  it is a function parameter `centroidOf` that receives the closed
  coordinate rings. The model does state the source's own rule: with no
  coordinates, the centroid is (0,0).
- `getPolygonCoords` returns nil exactly when it appended no ring. That
  happens for a nil polygon and for a polygon whose rings are all empty.
  Here nil is the empty sequence.
- The `Feature` interface is a class with `columns`, `geometry` and
  `reduced` fields. `UpdateGeometry` and `IsReduced` are methods that
  change exactly one field each.
- The channels of `sieveFeatures` are an input sequence and the output
  sequence, and the features in the input must be distinct objects (see
  "## Left out").
- `polygonSieve` itself replaces a reduced polygon with its centroid
  polygon. There is no separate centroid stage and no switch that turns the
  replacement off. Every feature, reduced or not, goes to the one output
  channel, and `sieveFeatures` keeps exactly four counters: total features,
  non-polygons, multi-polygons and not-reduced features.

## Model

| member | source | states |
|---|---|---|
| `Geometry.RingArea` | pkg/sieve.go:167-179 | A ring's shoelace area is never negative. It is exactly 0 for a ring of 0 or 1 points. |
| `Geometry.Shoelace` | pkg/sieve.go:167-179 | The loop that trails `p0` one point behind `p1`, starting at the last point, returns `RingArea`: half the absolute value of the shoelace sum of the implicitly closed ring. |
| `Geometry.ShoelaceExplicitClosure` | pkg/sieve.go:173-178 | Appending a copy of the first point does not change the area. |
| `Geometry.ChainSumReverse` | pkg/sieve.go:173-176 | Traversing the open chain of points backwards negates its shoelace sum. |
| `Geometry.ClosedSumReverse` | pkg/sieve.go:173-177 | Reversing a ring negates its implicitly closed shoelace sum. |
| `Geometry.ShoelaceReverse` | pkg/sieve.go:173-178 | Reversing a ring does not change its area. |
| `Geometry.HoleSum` | pkg/sieve.go:158-162 | The accumulated area of the holes is never negative. |
| `Geometry.Area` | pkg/sieve.go:153-164 | The loop returns `PolygonArea`: 0 for nil, otherwise the area of ring 0 minus the sum of the hole areas. |
| `Geometry.AreaAddHole` | pkg/sieve.go:158-163 | Adding a hole lowers the polygon's area by exactly that hole's area. |
| `Geometry.AreaEmptyHole` | pkg/sieve_test.go:46-48 | An empty or nil hole appended after the other rings does not change the area. |
| `Geometry.AreaEmptyHoleAnywhere` | pkg/sieve.go:158-163 | An empty or nil hole inserted at any position after the exterior ring does not change the area. |
| `Geometry.AreaAtMostExterior` | pkg/sieve.go:158-163 | A polygon's area is at most the area of its exterior ring. |
| `Geometry.GetPolygonCoords` | pkg/sieve.go:199-216 | The nested loops return `PolygonCoords`: nothing for a nil polygon, otherwise each non-empty ring closed, in order. |
| `Geometry.ClosedRingsShape` | pkg/sieve.go:204-214 | The output has one ring per non-empty input ring, in the same order. Output ring k is non-empty input ring k with its first point appended. |
| `Geometry.PolygonCoordsShape` | pkg/sieve.go:204-214 | Each output ring is one point longer than its source ring, starts with the source ring, and ends where it starts. |
| `Geometry.ClosedRingsEmpty` | pkg/sieve.go:200-215 | No coordinates come out if and only if every ring is empty. |
| `Geometry.GetPolygonCentroid` | pkg/sieve.go:95-112 | Returns `Centroid`: (0,0) when there are no coordinates, otherwise the library's centroid of the closed rings. |
| `Geometry.CentroidDegenerate` | pkg/sieve.go:102-111 | A nil polygon, or one whose rings are all empty, has centroid (0,0), whatever the library returns. |
| `Geometry.CentroidDelegates` | pkg/sieve.go:102-108 | If some ring is non-empty, the centroid is the library's result on the closed non-empty rings. |
| `Seqs.Filter` | pkg/sieve.go:136-140 | The kept elements come from the input and satisfy the test. Every input element that passes the test is kept. |
| `Seqs.FilterSelects` | pkg/sieve.go:136-140 | The filter keeps exactly the positions whose element passes the test, in increasing order. This determines the result uniquely. |
| `Reducer.PolygonSieve` | pkg/sieve.go:130-150 | The method, with its hole loop, returns `SievePolygon`. |
| `Reducer.SieveKeeps` | pkg/sieve.go:131-143 | If `area > r*r`: the polygon is not reduced and ring 0 is unchanged. The holes kept are exactly the holes with shoelace area `> r*r`, in their original order. |
| `Reducer.SieveKeepsSingleRing` | pkg/sieve.go:143 | A surviving polygon with only an exterior ring is returned unchanged. |
| `Reducer.HoleSumFilter` | pkg/sieve.go:136-140 | The total area of the kept holes is at most that of all holes, so dropping holes never makes a polygon smaller. |
| `Reducer.KeptPolygonStable` | pkg/sieve.go:131-141 | A rebuilt polygon is still above the threshold, and all of its holes pass again. |
| `Reducer.SieveIdempotent` | pkg/sieve.go:131-143 | Sieving a kept result again at the same resolution returns it unchanged. |
| `Reducer.SieveReduces` | pkg/sieve.go:131-149 | The flag is true if and only if the polygon is non-nil and its area is `<= r*r` (a strict threshold). A reduced polygon becomes one ring holding one point, its centroid. Nil gives nil and false. |
| `Reducer.MultiPolygonSieve` | pkg/sieve.go:115-127 | The loop returns `SieveMultiPolygon`. |
| `Reducer.SieveMultiPolygonMembers` | pkg/sieve.go:118-125 | The output has as many members as the input, in the same order. Member i is `polygonSieve` of input member i: the kept polygon, or its single-point centroid polygon if it was reduced. |
| `Reducer.SieveMultiPolygonFlag` | pkg/sieve.go:117-126 | The flag is true if and only if some member was reduced. |
| `Reducer.SieveMultiPolygonNil` | pkg/sieve.go:115-127 | A nil or empty multi-polygon gives an empty result and false. |
| `Pipeline.Feature.constructor` | pkg/sieve_test.go:201-204 | A new feature holds the given columns and geometry and is not marked reduced. |
| `Pipeline.Feature.UpdateGeometry` | pkg/interface.go:8 | Replaces the geometry and nothing else. |
| `Pipeline.Feature.IsReduced` | pkg/interface.go:9 | Sets the reduced flag and nothing else. |
| `Pipeline.SieveGeom` | pkg/sieve.go:30-55 | A polygon stays a polygon and a multi-polygon stays a multi-polygon. Any other geometry is returned unchanged, with reduced false. |
| `Pipeline.Tally` | pkg/sieve.go:23-55 | `preSieveCount` is the number of features. `nonPolygonCount + multiPolygonCount <= preSieveCount`. `nonPolygonCount <= postSieveCount <= preSieveCount`. |
| `Pipeline.TallyCountsKept` | pkg/sieve.go:36-51 | `postSieveCount` is the number of positions whose geometry comes out not reduced. |
| `Pipeline.TallyCountsOther` | pkg/sieve.go:50-52 | `nonPolygonCount` is the number of positions whose geometry is neither a polygon nor a multi-polygon. |
| `Pipeline.TallyCountsMulti` | pkg/sieve.go:40-45 | `multiPolygonCount` is the number of multi-polygon positions. |
| `Pipeline.SieveFeature` | pkg/sieve.go:29-55 | One pass of the type switch: the feature's geometry and flag become `SieveGeom` of its old geometry, and the counters advance by one feature. |
| `Pipeline.SieveFeatures` | pkg/sieve.go:22-58 | Every input feature is emitted once, in input order. Its geometry and flag are `SieveGeom` of its old geometry, and its columns are untouched. A non-polygon geometry is unchanged and gets reduced false. The counters are `Tally` of the old geometries. `postSieveCount` equals the number of emitted features with reduced false. |
| `Scenarios.SquareRingArea` | pkg/sieve_test.go:15 | An axis-aligned closed square ring of side d has area d*d. |
| `Scenarios.SquareArea` | pkg/sieve_test.go:15 | The test's 10 by 10 square has area 100. |
| `Scenarios.OpenSquareArea` | pkg/sieve_test.go:19 | Without its closing point, the square still has area 100. |
| `Scenarios.SquareThresholds` | pkg/sieve_test.go:93-95 | The square is kept unchanged at resolution 9. It is reduced at resolution 10, where its area equals the threshold, and at resolution 101 it becomes its centroid. |
| `Scenarios.UnitHoleDropped` | pkg/sieve_test.go:99 | At resolution 9, the hole of area 1 is dropped and the square survives, unreduced, with area 100. |
| `Scenarios.UnitHoleAtThreshold` | pkg/sieve.go:137 | At resolution 1 the hole's area equals the threshold, and the strict comparison drops it. |
| `Scenarios.TwoSquaresOneReduced` | pkg/sieve_test.go:156 | At resolution 7, the 100 square is kept and the 25 square becomes its centroid polygon, in order, with the flag set. |

## Left out

- Pipeline.SieveFeatures: assumes that the `Source` never delivers the same `Feature` object twice. Nothing in `sieveFeatures` (pkg/sieve.go:24-57) prevents that, and the Go loop would then sieve that feature again and count it twice. The model requires the input features to be distinct.
- The goroutines, unbuffered channels and `kill` rendezvous of `Sieve` (pkg/sieve.go:181-197). They exist only for concurrency and termination. The sieve stage is a sequential loop over a sequence, so interleaving and the liveness of the stages are not modelled.
- `readFeaturesFromSource` and `writeFeaturesToTarget` (pkg/sieve.go:14-16, 71-75). They only forward to the external `Source` and `Target`.
- The logging at pkg/sieve.go:60-65 and the debug `print` at pkg/sieve.go:97-101. They have no effect on the result.
- The centroid formula of the go-geom library (`xy.Centroid` with `MustSetCoords`). It is a parameter. Its error paths, which panic (pkg/sieve.go:105-107), are not modelled.
- `getMultiPolygonCentroid` (pkg/sieve.go:78-92). Nothing calls it, and it is only a library call.
- float64 rounding. Reals are exact, so the model says nothing about rounding in `math.Abs`, in `sum / 2`, or in the subtraction of hole areas.
- Pipeline.SieveFeatures: the four counters are unbounded naturals. The model does not capture the `uint64` wrap-around, which would take 2^64 features.
- Geometry.Area: a non-nil polygon without rings makes the source panic. The model excludes it by a precondition (`WellFormed`) rather than modelling the panic.
- Nil and empty multi-polygons are not distinguished. `multiPolygonSieve` returns a nil slice for both, and here both give `[]`.
- Storage sharing between the Go slices (the rebuilt polygon reuses the input's ring slices). Geometries are values here.
- Geometry types the type switch does not name, including nil, `geom.Point` and pointer types. They are all `OtherGeom`, which the sieve passes through.
- `TestProcessFeatures` and `testRoutineProcessFeature` (pkg/sieve_test.go:142-199). They call a `processFeatures` that pkg/sieve.go does not define. Only the expected multi-polygon at its line 156 is used, in `Scenarios.TwoSquaresOneReduced`.
- main.go (flag parsing, GeoPackage handling) and interface.go (an older interface set without logic).
