# EuroGeoStat generalisation and routing core, in Dafny

This project models a part of jgaffuri/EuroGeoStat, a Java library for generalising
geographic data and computing accessibility. The model covers four groups.

- **Graph operators.** A topological planar graph holds nodes, edges and faces, a spatial
  index over its nodes and edges, and a cached geometry for each face. Two operators
  mutate it: `NodeDisplacement.moveTo` and `FaceScaling.scale`. Both are modelled as pure
  state transformers over an immutable graph record (`Topology.Graph`).
- **Deformation and generalisation constraints.** These are `SegmentMaximalLength` (the
  displacement that shrinks an over-long segment), `CEdgeValidity` (the 0/10 satisfaction
  of the edge-validity constraint) and `TransformationNonCancellable`.
- **Small utilities.** From `Util`: the piecewise-linear indicator, ground resolution,
  capitalisation, the indexing of attribute rows, and the test that decides when progress
  is printed. Also the accessibility delay indicator and the edge weighters of the routing
  code, and nearest-node search.
- **ShapeFile helpers.** The schema specification strings, the attribute names of a
  schema, and the buffered copying of features.

Coordinates are exact reals. A Java `double` division that can leave the finite numbers
is modelled as `Numeric.Double`: either `Finite(v)` or `NonFinite` (NaN or an infinity).
Java `int` arithmetic is 32-bit, with wrap-around and division that truncates toward
zero (`Numeric.Wrap`, `Numeric.JavaDiv`). A Java exception is a `Wrappers.Result` failure
that names the exception.

**Aliasing.** In the Java graph, an edge's end coordinates are the very coordinate objects of
its end nodes. In the model an edge owns only its interior vertices, and its end positions
are always read through its nodes (`Topology.EdgeCoords`). That is why `scale` skips those
end coordinates by reference and scales each node once: no coordinate is scaled twice.

**Spatial index.** It is a map from entity to the geometry the entity had when it was
inserted. An entry is "fresh" when that snapshot matches the live geometry
(`Topology.EntryFresh`). The JTS index itself keys an entry on its envelope, the bounding
box of the geometry; `Topology.EnvelopeFresh` says the entry's box is the live one. A fresh
snapshot has a fresh envelope, but not the other way round: a vertex may move inside the box.
Removal finds an entry by its entity, whatever geometry the entry still holds.

**Parameters.** The following are parameters of the model: the JTS centroid of a face, the
distance between two points (related to the Euclidean one by `Geometry.IsEuclidean`), and
the unseen `EdgeValidity.get` and `FaceValidity.get` checks. The unseen
`AffineTransformUtil.applyScaling` is taken to be the homothety
c ↦ center + factor·(c − center) (`Geometry.ScaleAbout`).

**Removals and displacements.**
- `moveTo` ignores the result of `removeFromSpatialIndex`, and `scale` only logs a failed
  removal; neither stops.
- The displacement of `SegmentMaximalLength` moves both end points symmetrically.

Two facts about the code are proved rather than claimed as defects, because the intended
behaviour is not evident from the code:
- `moveTo` does not re-insert the edges ending at the moved node. Their snapshots go stale,
  and their envelopes do too whenever the node leaves the edge's old bounding box.
- `scale` does not re-insert the face's nodes, whose entries (points, so envelopes too) go
  stale. It also does not refresh a face that touches the scaled face only at a node.

## Model

| member | source | states |
|---|---|---|
| NodeDisplacement.MoveTo | src/main/java/eu/europa/ec/eurostat/jgiscotools/graph/algo/NodeDisplacement.java:17-28 | A move to the current position changes nothing. Otherwise the node ends exactly at (x, y), its index entry is replaced by the new position, and every face incident to the node gets the polygon rebuilt from the live edges. Edges, face edge sets and all other faces are untouched. |
| NodeDisplacement.MoveToIdempotent | src/main/java/eu/europa/ec/eurostat/jgiscotools/graph/algo/NodeDisplacement.java:18-24 | Moving a node twice to the same place is the same as moving it once. |
| NodeDisplacement.MoveToReindexesOnlyTheNode | src/main/java/eu/europa/ec/eurostat/jgiscotools/graph/algo/NodeDisplacement.java:21-24 | After a real move the node's entry is fresh, and every other entity's presence in the index and its entry are as before. |
| NodeDisplacement.MoveToKeepsOtherEntriesInSync | src/main/java/eu/europa/ec/eurostat/jgiscotools/graph/algo/NodeDisplacement.java:21-27 | If the index was in sync, every entry stays in sync except the entries of edges ending at the node. |
| NodeDisplacement.MoveToStalesIncidentEdgeEntries | src/main/java/eu/europa/ec/eurostat/jgiscotools/graph/algo/NodeDisplacement.java:21-31 | The vertex-list snapshot held for an edge ending at the moved node becomes stale, because edges are not re-indexed. |
| NodeDisplacement.MoveToShiftsIncidentEdgeEnvelope | src/main/java/eu/europa/ec/eurostat/jgiscotools/graph/algo/NodeDisplacement.java:21-31 | When the new position lies outside the edge's old bounding box, the entry's envelope is no longer the live one: the stored box does not contain the edge's live geometry. |
| NodeDisplacement.MoveInsideEnvelopeExample | src/main/java/eu/europa/ec/eurostat/jgiscotools/graph/algo/NodeDisplacement.java:21-31 | A move can leave an incident edge's snapshot stale while its envelope stays fresh. For example, moving the end of (5,0)-(0,10)-(10,0) to (6,0) does so. A move inside the box does not always keep the envelope fresh: the box may shrink. |
| NodeDisplacement.MoveInsideShrinksEnvelopeExample | src/main/java/eu/europa/ec/eurostat/jgiscotools/graph/algo/NodeDisplacement.java:21-31 | Moving the end (10,0) of (0,0)-(10,0) to (5,0) stays inside the old box, yet the envelope goes stale because the live box shrinks. |
| NodeDisplacement.MoveToKeepsGeometriesFresh | src/main/java/eu/europa/ec/eurostat/jgiscotools/graph/algo/NodeDisplacement.java:27 | If every cached face geometry was up to date, all of them still are after the move. |
| FaceScaling.Scale | src/main/java/eu/europa/ec/eurostat/jgiscotools/algo/graph/FaceScaling.java:22-31 | A factor of 1 changes nothing and logs nothing. A face without geometry is only logged. Otherwise the result is the scaling about the centroid of the geometry the face had before anything moved. |
| FaceScaling.ScaleFace | src/main/java/eu/europa/ec/eurostat/jgiscotools/algo/graph/FaceScaling.java:33-60 | The scaling keeps the graph well formed. It keeps the node, edge and face identifiers and the edge set of every face. |
| FaceScaling.ScaleInteriors | src/main/java/eu/europa/ec/eurostat/jgiscotools/algo/graph/FaceScaling.java:41-47 | Each edge of the face has its interior vertices scaled once and keeps its end nodes and faces. Other edges are unchanged. |
| FaceScaling.ScaleNodes | src/main/java/eu/europa/ec/eurostat/jgiscotools/algo/graph/FaceScaling.java:50-51 | Each node of the face is scaled once. Other nodes are unchanged. |
| FaceScaling.ScaleFaceCoordinates | src/main/java/eu/europa/ec/eurostat/jgiscotools/algo/graph/FaceScaling.java:40-51 | After the scaling, exactly the face's nodes and the interior vertices of its edges are scaled about the centre, each once. Every other coordinate is as before. |
| FaceScaling.ScaleMovesEachEdgeVertexOnce | src/main/java/eu/europa/ec/eurostat/jgiscotools/algo/graph/FaceScaling.java:41-51 | The full vertex list of each boundary edge, end positions included, is the old list with every vertex scaled exactly once. |
| FaceScaling.ScaleFaceIndex | src/main/java/eu/europa/ec/eurostat/jgiscotools/algo/graph/FaceScaling.java:33-55 | The face's edges end up indexed with fresh entries built from their final geometry. Every other entry, node entries included, is untouched. |
| FaceScaling.ScaleFaceLog | src/main/java/eu/europa/ec/eurostat/jgiscotools/algo/graph/FaceScaling.java:34-38 | Exactly one message is logged per boundary edge that was not in the index, and the scaling goes on. |
| FaceScaling.ScaleFaceGeometries | src/main/java/eu/europa/ec/eurostat/jgiscotools/algo/graph/FaceScaling.java:57-60 | The face and every face sharing an edge with it get the polygon rebuilt from the final coordinates. No other face changes. |
| FaceScaling.ScaleStalesNodeEntries | src/main/java/eu/europa/ec/eurostat/jgiscotools/algo/graph/FaceScaling.java:49-55 | A node of the face that really moves keeps its old index entry, which is then stale both as a snapshot and as an envelope. |
| FaceScaling.ScaleKeepsOtherEntriesInSync | src/main/java/eu/europa/ec/eurostat/jgiscotools/algo/graph/FaceScaling.java:33-55 | If the index was in sync, every entry stays in sync except those of the face's nodes and of the other edges ending at them. |
| FaceScaling.ScaleKeepsGeometriesFresh | src/main/java/eu/europa/ec/eurostat/jgiscotools/algo/graph/FaceScaling.java:57-60 | Cached geometries stay up to date for the face, for the faces sharing an edge with it, and for every face with no node in common with it. |
| Geometry.ScaleAboutFixes | src/main/java/eu/europa/ec/eurostat/jgiscotools/algo/graph/FaceScaling.java:45 | A scaling leaves a point in place exactly when the factor is 1 or the point is the centre. |
| SegmentMaximalLength.NewWithGoal | src/main/java/eu/europa/ec/eurostat/eurogeostat/algo/deformation/constraint/SegmentMaximalLength.java:21-25 | The constraint keeps the segment, the importance and the given goal length. |
| SegmentMaximalLength.New | src/main/java/eu/europa/ec/eurostat/eurogeostat/algo/deformation/constraint/SegmentMaximalLength.java:17-19 | Without a goal, the goal length is the segment's initial length. |
| SegmentMaximalLength.GetDisplacement | src/main/java/eu/europa/ec/eurostat/eurogeostat/algo/deformation/constraint/SegmentMaximalLength.java:28-42 | A segment shorter than its goal asks the zero vector of any point. Otherwise a point that is not an end point gets null, and a zero length at an end point is non-finite. Otherwise an end point moves along pt1→pt2 by ∓a, with a = alpha·(goal−d)/d·0.5, pt1 taking the minus sign. |
| SegmentMaximalLength.DisplacementsOpposite | src/main/java/eu/europa/ec/eurostat/eurogeostat/algo/deformation/constraint/SegmentMaximalLength.java:33-37 | The displacement of pt1 is exactly the negation of that of pt2. |
| SegmentMaximalLength.NoDisplacementAtGoal | src/main/java/eu/europa/ec/eurostat/eurogeostat/algo/deformation/constraint/SegmentMaximalLength.java:30-37 | At the goal length, or with zero strength, an end point is asked no displacement. |
| SegmentMaximalLength.DisplacedLength | src/main/java/eu/europa/ec/eurostat/eurogeostat/algo/deformation/constraint/SegmentMaximalLength.java:30-37 | Take Euclidean distance, d ≥ goal ≥ 0, d > 0 and alpha in [0, 1]. Moving both end points by their displacements gives a segment of length d + alpha·(goal − d). |
| SegmentMaximalLength.DisplacedLengthFullStrength | src/main/java/eu/europa/ec/eurostat/eurogeostat/algo/deformation/constraint/SegmentMaximalLength.java:30-37 | With alpha = 1 the displaced segment has exactly the goal length. |
| CEdgeValidity.New | src/main/java/eu/europa/ec/eurostat/jgiscotools/tesselationGeneralisation/CEdgeValidity.java:24 | The constraint keeps its agent. |
| CEdgeValidity.ComputeSatisfaction | src/main/java/eu/europa/ec/eurostat/jgiscotools/tesselationGeneralisation/CEdgeValidity.java:27-37 | The satisfaction is 0 or 10. It is 10 exactly when the edge passes the (false, false) check and each side has either no face or a face passing the (true, true) check. |
| CEdgeValidity.IsHard | src/main/java/eu/europa/ec/eurostat/jgiscotools/tesselationGeneralisation/CEdgeValidity.java:40 | The constraint is hard. |
| CEdgeValidity.InvalidEdgeUnsatisfied | src/main/java/eu/europa/ec/eurostat/jgiscotools/tesselationGeneralisation/CEdgeValidity.java:29-30 | An invalid edge gives 0, whatever its faces. |
| CEdgeValidity.MissingFacesNeverFail | src/main/java/eu/europa/ec/eurostat/jgiscotools/tesselationGeneralisation/CEdgeValidity.java:31-34 | An edge with no face on either side is satisfied exactly when it is valid. |
| CEdgeValidity.OnlyChosenFlagsMatter | src/main/java/eu/europa/ec/eurostat/jgiscotools/tesselationGeneralisation/CEdgeValidity.java:30-34 | Two validity oracles that agree on the edge with flags (false, false), and on faces with flags (true, true), give the same satisfaction. |
| CEdgeValidity.SidesSymmetric | src/main/java/eu/europa/ec/eurostat/jgiscotools/tesselationGeneralisation/CEdgeValidity.java:31-34 | Swapping the two faces of the edge does not change the satisfaction. |
| CEdgeValidity.DroppingAFaceNeverHurts | src/main/java/eu/europa/ec/eurostat/jgiscotools/tesselationGeneralisation/CEdgeValidity.java:31-34 | Removing the face on one side never lowers the satisfaction. |
| TransformationNonCancellable.New | src/main/java/eu/europa/ec/eurostat/jgiscotools/transfoengine/TransformationNonCancellable.java:12 | The constructor passes the agent unchanged to the base transformation. |
| TransformationNonCancellable.IsCancelable | src/main/java/eu/europa/ec/eurostat/jgiscotools/transfoengine/TransformationNonCancellable.java:14 | No such transformation is cancelable. |
| Util.IndicatorValue | modules/feature/src/main/java/eu/europa/ec/eurostat/jgiscotools/util/Util.java:128-135 | The value is 1 before x1 and 0 after x2. In between it is the line through (x1, 1) and (x2, 0). It is non-finite exactly when x = x1 = x2. |
| Util.IndicatorBounds | modules/feature/src/main/java/eu/europa/ec/eurostat/jgiscotools/util/Util.java:116-135 | For x1 < x2 the value is finite and lies in [0, 1]. It is 1 at x1 and 0 at x2. |
| Util.IndicatorNonIncreasing | modules/feature/src/main/java/eu/europa/ec/eurostat/jgiscotools/util/Util.java:116-135 | For x1 < x2 the indicator never increases with x. |
| Util.GroundResolution | modules/feature/src/main/java/eu/europa/ec/eurostat/jgiscotools/util/Util.java:38 | The ground resolution divided by the scale is the map resolution, and it is 0 for a zero scale or a zero resolution. |
| Util.DefaultGroundResolution | modules/feature/src/main/java/eu/europa/ec/eurostat/jgiscotools/util/Util.java:37 | The one-argument form uses 0.2 mm, so it is a fifth of the scale. |
| Util.Capitalize | modules/feature/src/main/java/eu/europa/ec/eurostat/jgiscotools/util/Util.java:68-71 | An empty string fails with StringIndexOutOfBounds. Otherwise the length is kept, the first character is the upper case of its lower case, and the rest is lower-cased. |
| Util.CapitalizeSameUpToCase | modules/feature/src/main/java/eu/europa/ec/eurostat/jgiscotools/util/Util.java:68-71 | The result equals the input up to case and has no upper-case letter after the first character. |
| Util.CapitalizeIdempotent | modules/feature/src/main/java/eu/europa/ec/eurostat/jgiscotools/util/Util.java:68-71 | Capitalising a capitalised string changes nothing. |
| Util.IndexByKeys | modules/feature/src/main/java/eu/europa/ec/eurostat/jgiscotools/util/Util.java:76-89 | The keys of the index are exactly the key values of the rows, null included. |
| Util.IndexByLastWins | modules/feature/src/main/java/eu/europa/ec/eurostat/jgiscotools/util/Util.java:76-89 | The entry of a key value comes from the last row that holds it. |
| Util.Index | modules/feature/src/main/java/eu/europa/ec/eurostat/jgiscotools/util/Util.java:76-81 | Each key value maps to the value-column value of the last row holding it, and nothing else is a key. |
| Util.IndexRows | modules/feature/src/main/java/eu/europa/ec/eurostat/jgiscotools/util/Util.java:84-89 | Each key value maps to the last row holding it, and nothing else is a key. |
| Util.PrintsProgress | modules/feature/src/main/java/eu/europa/ec/eurostat/jgiscotools/util/Util.java:27-31 | A zero total fails with an ArithmeticException. Otherwise the result says whether the 32-bit percentages of nbDone and nbDone − 1 differ. |
| Util.PrintsWhenCrossingPercent | modules/feature/src/main/java/eu/europa/ec/eurostat/jgiscotools/util/Util.java:27-30 | Without overflow, progress is printed exactly when some k has 100·(nbDone−1) < k·nbTot ≤ 100·nbDone, that is, when the step crosses a whole percentage. |
| Util.FewStepsAlwaysPrint | modules/feature/src/main/java/eu/europa/ec/eurostat/jgiscotools/util/Util.java:27-30 | With a total of at most 100, every step from 1 to the total prints. |
| Util.StepZeroPrints | modules/feature/src/main/java/eu/europa/ec/eurostat/jgiscotools/util/Util.java:28-30 | Because division truncates toward zero, step 0 prints only when the total is at most 100. |
| AccessibilityRoutingPaths.DelayMinPerson | modules/gproc/src/main/java/eu/europa/ec/eurostat/jgiscotools/routing/AccessibilityRoutingPaths.java:253-258 | The result is −999 for a negative duration, 0 within the target, and the excess duration times the population beyond it. |
| AccessibilityRoutingPaths.DelayNonNegative | modules/gproc/src/main/java/eu/europa/ec/eurostat/jgiscotools/routing/AccessibilityRoutingPaths.java:251-258 | With a non-negative duration and population, the delay is never negative. |
| AccessibilityRoutingPaths.DelayMonotone | modules/gproc/src/main/java/eu/europa/ec/eurostat/jgiscotools/routing/AccessibilityRoutingPaths.java:253-258 | A longer duration never gives a smaller delay. |
| AccessibilityRoutingPaths.SetSpeedCalculator | modules/gproc/src/main/java/eu/europa/ec/eurostat/jgiscotools/routing/AccessibilityRoutingPaths.java:64-74 | The weighter installed costs a section its length over 16 times the calculator's speed for it, which `int` division makes of `1000/60`. A zero speed gives a non-finite weight. |
| AccessibilityRoutingPaths.SpeedCalculatorOverstates | modules/gproc/src/main/java/eu/europa/ec/eurostat/jgiscotools/routing/AccessibilityRoutingPaths.java:67-71 | At any non-zero speed, the installed weight is 25/24 of the section's travel time in minutes. |
| AccessibilityRoutingPaths.GetEdgeWeighter | modules/gproc/src/main/java/eu/europa/ec/eurostat/jgiscotools/routing/AccessibilityRoutingPaths.java:76-85 | A weighter already set is returned with the state unchanged. Otherwise a 70 km/h speed weighter is installed and returned; it weighs a section at its length over 1120. |
| AccessibilityRoutingPaths.GetEdgeWeighterStable | modules/gproc/src/main/java/eu/europa/ec/eurostat/jgiscotools/routing/AccessibilityRoutingPaths.java:76-85 | A second call returns the same weighter and changes nothing. |
| Weighting.Weight | modules/gproc/src/main/java/eu/europa/ec/eurostat/jgiscotools/routing/AccessibilityRoutingPaths.java:66-72 | A speed weighter gives a finite weight exactly when the speed for the section is non-zero, and then the weight times 16 times the speed is the length. The length weighter gives the length; a custom weighter gives its own value. |
| Weighting.SpeedFactorIsSixteen | modules/gproc/src/main/java/eu/europa/ec/eurostat/jgiscotools/routing/AccessibilityRoutingPaths.java:69 | `1000/60` in Java int arithmetic is 16. |
| Weighting.SpeedWeightAsWritten | modules/gproc/src/main/java/eu/europa/ec/eurostat/jgiscotools/routing/AccessibilityRoutingPaths.java:69-71 | As written, the weight is the length over 16 times the speed. It is non-finite exactly for a zero speed. |
| Weighting.SpeedWeight | modules/gproc/src/main/java/eu/europa/ec/eurostat/jgiscotools/routing/AccessibilityRoutingPaths.java:66-72 | The weight is the travel time in minutes: minutes × speed × 1000 = metres × 60. It is non-finite exactly for a zero speed. |
| Weighting.SpeedWeightCounterexample | modules/gproc/src/main/java/eu/europa/ec/eurostat/jgiscotools/routing/AccessibilityRoutingPaths.java:69 | 1000 m at 60 km/h takes 1 minute, but the formula as written gives 1000/960. |
| Weighting.SpeedWeightAsWrittenRatio | modules/gproc/src/main/java/eu/europa/ec/eurostat/jgiscotools/routing/AccessibilityRoutingPaths.java:69-71 | For every non-zero speed, the as-written time is 25/24 of the exact one. |
| Routing.DefaultEdgeWeighter | src/main/java/eu/europa/ec/eurostat/eurogeostat/accessibilitygrid/Routing.java:72-80 | The default weighter costs every section its geometry length. |
| Routing.GetPosition | src/main/java/eu/europa/ec/eurostat/eurogeostat/accessibilitygrid/Routing.java:97-102 | The result is null for a null node or a node without a point, and the point otherwise. |
| Routing.GetNode | src/main/java/eu/europa/ec/eurostat/eurogeostat/accessibilitygrid/Routing.java:83-94 | An empty graph gives null. The search fails exactly when it reaches a node without a point. The first node at distance 0 is returned at once. Otherwise the result is the first node of least distance below Double.MAX_VALUE, strictly nearer than every earlier node, or null if there is none. With non-negative distances the result is minimal among all nodes. |
| ShapeFile.FeatureTypeSpec | src/main/java/eu/ec/estat/geostat/io/ShapeFile.java:315-328 | The string starts with "the_geom:" and the geometry type. Its length accounts for the ":srid=" part exactly when the EPSG code is positive, and for the ","-prefixed attributes exactly when they are given. |
| ShapeFile.FeatureTypeSpecRoundTrip | src/main/java/eu/ec/estat/geostat/io/ShapeFile.java:317-320 | Reading the string back gives the geometry type, the SRID exactly when the EPSG code is positive, and the attributes exactly when they are non-null. |
| ShapeFile.DecimalRoundTrip | src/main/java/eu/ec/estat/geostat/io/ShapeFile.java:319 | The printed EPSG code reads back as the code. |
| ShapeFile.FeatureTypeFromArray | src/main/java/eu/ec/estat/geostat/io/ShapeFile.java:310-314 | A null or empty array fails with StringIndexOutOfBounds. Otherwise the attributes are the elements joined by ",", with no leading comma. |
| ShapeFile.JoinIsCommaPrefixedTail | src/main/java/eu/ec/estat/geostat/io/ShapeFile.java:311-313 | Dropping the first character of the loop's comma-prefixed string gives the elements joined by commas. |
| ShapeFile.SplitJoin | src/main/java/eu/ec/estat/geostat/io/ShapeFile.java:311-313 | Splitting the joined attributes on "," gives back the elements, when none contains a comma. |
| ShapeFile.FeatureTypeFromCollection | src/main/java/eu/ec/estat/geostat/io/ShapeFile.java:307-309 | A null collection fails with NullPointer. Otherwise the result is the array overload on its elements. |
| ShapeFile.FeatureTypeWithSrid | src/main/java/eu/ec/estat/geostat/io/ShapeFile.java:304-306 | The two-argument overload always fails. |
| ShapeFile.FeatureTypeOf | src/main/java/eu/ec/estat/geostat/io/ShapeFile.java:301-303 | The one-argument overload always fails. |
| ShapeFile.AttributeNames | src/main/java/eu/ec/estat/geostat/io/ShapeFile.java:330-339 | The result holds exactly the descriptor names other than "the_geom" and "GEOM", each once. |
| ShapeFile.FillAndFlush | src/main/java/eu/ec/estat/geostat/io/ShapeFile.java:193-200 | The flushed batches, followed by what is left in the buffer, are the input in order. Every flushed batch has the buffer size (at least 1), and what is left is smaller. |
| ShapeFile.ChunkingUnique | src/main/java/eu/ec/estat/geostat/io/ShapeFile.java:193-201 | Batches that concatenate to the input, all full but the last, which is not, are exactly the reference cut `Chunks`. |
| ShapeFile.ChunksIsChunking | src/main/java/eu/ec/estat/geostat/io/ShapeFile.java:193-201 | The reference cut concatenates to the input, and all its batches but the last are full. |
| ShapeFile.Filter | src/main/java/eu/ec/estat/geostat/io/ShapeFile.java:188-204 | The features are written in batches of 500, followed by one final flush, possibly empty. |
| ShapeFile.AddFromIterator | src/main/java/eu/ec/estat/geostat/io/ShapeFile.java:239-252 | An empty iterator writes nothing. Otherwise the features are written in batches of the buffer size, followed by a final flush, which is empty when the count is a multiple of that size. |
| ShapeFile.AddFromIteratorDefault | src/main/java/eu/ec/estat/geostat/io/ShapeFile.java:238 | The iterator is copied in batches of 100. |

## Left out

- I/O and store plumbing: GeoTools datastores, transactions, `ShapeFile.add(SimpleFeatureCollection)`, and logging output. A flush is modelled as the batch it hands over, and a log call as a message in the result, except where a line below says otherwise.
- `DataUtilities.createType`, which parses the specification string. `FeatureTypeSpec` returns the string. The `SchemaException` path that returns null is not modelled.
- Floating point: every `double` is an exact real. Only a division by zero is told apart, as `Double.NonFinite`. Rounding, NaN inputs and NaN distances are not modelled.
- JTS internals: centroid, the square root in the Euclidean distance, and simplicity and validity are parameters, as are the unseen `EdgeValidity.get`, `FaceValidity.get` and `AffineTransformUtil.applyScaling`. `Face.updateGeometry` is modelled as rebuilding the face polygon from the live vertex lists of its edges. The face's own spatial index entry is not modelled.
- Graph classes that are not part of this model (`Graph`, `Node`, `Edge`, `Face`) are represented only by what the two operators read and write.
- The agent and relaxation engine, and the base `Constraint` and `Transformation` classes. Only what `CEdgeValidity` and `TransformationNonCancellable` expose is modelled.
- `AccessibilityRoutingPaths.compute`, the network index, the `Routing` constructors and `getShortestPathDijkstra`: these orchestrate GeoTools graph building and Dijkstra, which cannot be seen. The `Paths` state holds only the edge weighter.
- Util: `round`, `stripDiacritics`, `stripWeirdCaracters`, `getRandom` and `printStack*` (floating-point rounding, Unicode normalisation, shuffling, stack traces). The printing itself is left out; `PrintsProgress` decides whether a line is printed.
- Util.Capitalize: the case mapping covers ASCII letters only. Java's locale-dependent Unicode mapping, including mappings that change the length, is not modelled. A null string, which would throw NullPointerException, is not modelled either.
- Routing.GetNode: a null query coordinate is not modelled. Nodes are given in the graph's iteration order.
- ShapeFile.FeatureTypeFromArray: null elements, which Java prints as "null", are not modelled. A null geometry type is not modelled either.
- ShapeFile.FillAndFlush: the buffer is a `DefaultFeatureCollection`, which keeps features sorted by feature ID and drops a feature whose ID it already holds. The model keeps a list and assumes distinct IDs. It does not model the order within a batch, and it does not model the smaller size a duplicate ID would leave.
- ShapeFile.Filter: the same buffer, with the same assumption of distinct IDs and no order within a batch.
- ShapeFile.AddFromIterator: the same buffer, with the same assumption of distinct IDs and no order within a batch.
- Util.Index: a null `data` list or a null row throws NullPointerException; the model takes a list of rows, none null.
- Util.IndexRows: a null `data` list or a null row throws NullPointerException; the model takes a list of rows, none null.
- NodeDisplacement.MoveTo: `Graph.removeFromSpatialIndex` is not part of this model. The node's entry is removed by identity even when its stored envelope is stale, for example after a `scale`. A removal by envelope could miss that entry and leave a second one behind. Duplicate entries are not modelled.
- SegmentMaximalLength.GetDisplacement: `getDisplacement` logs a severe "Error" before returning null for a point that is neither end of the segment; the model returns the null displacement without a message, so that log is not modelled.
- FaceScaling.ScaleFace: the same removal by identity. A boundary edge whose stored envelope is stale, for example after a `moveTo`, is removed without a log message, and its fresh entry replaces it. A removal by envelope could log "could not remove" and keep a duplicate; that is not modelled.
- AccessibilityRoutingPaths.SetSpeedCalculator: `getWeight` casts the section's object and calls `getDefaultGeometry().getLength()`; a null object or geometry throws NullPointerException. The model's sections always have a geometry length.
- AccessibilityRoutingPaths.GetEdgeWeighter: the default 70 km/h weighter has the same `getWeight`, with the same NullPointerException on a null object or geometry, which is not modelled.
- Routing.DefaultEdgeWeighter: a section whose object or default geometry is null throws NullPointerException; the model's sections always have a geometry length.
- ShapeFile.AttributeNames: the order of the result, which is a HashSet's, is left unspecified.
- FaceScaling.Scale: `scale` skips an edge's own end-node objects by reference, but an edge whose interior holds the same coordinate object twice, or holds the coordinate object of another node of the face, would be scaled more than once. Edges own distinct interior vertices in the model.

## Findings

| source | as written | input that shows it | evidently intended | confidence | as-written member | corrected member |
|---|---|---|---|---|---|---|
| modules/gproc/src/main/java/eu/europa/ec/eurostat/jgiscotools/routing/AccessibilityRoutingPaths.java:69 | `1000/60` is an `int` division, so the speed in metres per minute is 16 × km/h. | A 1000 m section at 60 km/h weighs 1000/960 minutes instead of 1. Every travel time comes out 25/24 too long. | The metres per minute of a speed in km/h, 1000/60 ≈ 16.67 × km/h, as the comment "transport duration, in minutes" says. | not executed | Weighting.SpeedWeightAsWritten | Weighting.SpeedWeight |

The weighters that `setEdgeWeighter(SpeedCalculator)` and `getEdgeWeighter` install are modelled as written (`Weighting.Weight` uses `SpeedWeightAsWritten`). `Weighting.SpeedWeight` is the intended travel time they are compared with, in `AccessibilityRoutingPaths.SpeedCalculatorOverstates`.
