# Raster, clipping and transform core, modelled in Dafny

This project models the algorithmic core of two graphics lab programs:

- **Scan conversion** (`Lab2/main.cpp`): the DDA line, the Bresenham
  line, the midpoint circle and the midpoint ellipse.
  - Modules `Raster`, `LineRaster` and `ConicRaster`.
  - Each rasterizer is a method with the source's loop. It is proved
    equal to a closed-form or block-by-block specification.
  - Lemmas state what that specification means: the endpoints, unit
    steps, distance from the true line or curve, and symmetry.
- **Cohen-Sutherland clipping** (`Lab4/main.cpp`): outcodes, the
  point-in-window test and the clipping loop. Module `Clipping`.
  - The clipping method returns the accept flag and the clipped endpoints.
  - It proves that an accepted piece lies inside the window.
  - It proves that every point of the original segment outside the piece
    lies outside the window.
  - It proves that a rejected segment never touches the window.
- **Red border segments** (`Lab4/main.cpp`): module `BorderSegments`.
  - The crossings of a polygon's sides with the window border.
  - Grouping by edge, sorting along the edge (an array insertion sort
    stands for `std::sort`), and pairing consecutive crossings into
    border segments.
- **4x4 matrices** (`Lab4/main.cpp`): module `Transforms`.
  - The default identity constructor and `operator*`, both as loops.
  - The translation, rotation, scaling, shearing and perspective
    constructors.
  - How these matrices act on a vertex, and the composition and inverse
    laws between them.

Arithmetic is exact. `float` values are reals. The Bresenham, circle and
ellipse inputs are integers. That is a modelling choice: the program reads
these values from the console as `float`, and non-integral input is not
modelled.

A `Matrix4` is the source's `float m[16]`, written row-major by
`operator*` (`m[row * 4 + col]`). The program uploads it with
`transpose = GL_FALSE`, so the shader reads slot `c * 4 + r` as row `r`,
column `c`. `Transforms.Apply` models that reading. As a consequence,
`Apply(Product(a, b), v) == Apply(b, Apply(a, v))`: the LEFT factor of
`operator*` acts on a vertex first. In the scaling view (lines 749-750),
`createTranslation(2, 0, 0) * createScaling(0.5, 1.5, 0.5)` therefore
translates first and scales the offset too. The cube's centre lands at
x = 1, not x = 2 (`Transforms.TranslateThenScale`).

The code does not guard the divisions `y2 - y1` and `x2 - x1`
(Lab4/main.cpp:120-132). In exact arithmetic they are never zero when
reached: `Clipping.EdgePointOnSegment` and
`Clipping.ClipFirst`/`ClipSecond` prove it.

## Model

| member | source | states |
|---|---|---|
| Raster.Round | Lab2/main.cpp:62 | `round` gives an integer within one half of its argument, and a tie goes away from zero |
| Raster.RoundIntegral | Lab2/main.cpp:62 | rounding an integral value returns it |
| Raster.RoundClose | Lab2/main.cpp:62 | two values less than one apart round to integers at most one apart |
| LineRaster.Dda | Lab2/main.cpp:54-66 | the loop emits exactly `DdaLine`: `floor(steps) + 1` samples `start + k * inc`, each rounded |
| LineRaster.DdaCoincident | Lab2/main.cpp:56-64 | when both endpoints coincide (steps = 0) the line is the single rounded start point |
| LineRaster.IntegerSteps | Lab2/main.cpp:56-57 | for integer endpoints, steps is the larger of the absolute coordinate differences |
| LineRaster.FullRun | Lab2/main.cpp:58-63 | after `steps` increments the sample reaches the end coordinate exactly |
| LineRaster.DdaIntegerEndpoints | Lab2/main.cpp:54-66 | for integer endpoints the line has `max(abs dx, abs dy) + 1` points, starts at the start point and ends at the end point |
| LineRaster.StepOnUnitAxis | Lab2/main.cpp:62-63 | with an integral increment, consecutive rounded samples differ by exactly that increment |
| LineRaster.MajorAxisStep | Lab2/main.cpp:57-63 | along the major axis each step moves exactly one pixel in the direction of travel |
| LineRaster.MinorAxisStep | Lab2/main.cpp:57-63 | along the minor axis each step moves at most one pixel |
| LineRaster.DdaUnitStep | Lab2/main.cpp:54-66 | consecutive DDA points move by exactly one on the major axis and at most one on the other |
| LineRaster.Normalise | Lab2/main.cpp:70-79 | after the swaps the walk runs left to right with rise <= run, run is the larger coordinate difference, and its two ends are the two input endpoints |
| LineRaster.TracksStart | Lab2/main.cpp:81 | the initial decision value `2 dy - dx` is consistent with row 0 at column 0 |
| LineRaster.DecisionStep | Lab2/main.cpp:84-85 | each decision update keeps the decision value equal to the rounding error of the current row, whether the row advances or not |
| LineRaster.RowFromError | Lab2/main.cpp:81-85 | a row whose error is within half a pixel is the nearest row to the ideal line (ties round up) |
| LineRaster.DrawnStep | Lab2/main.cpp:82-86 | one loop iteration extends the emitted points by the pixel of the nearest row and keeps the loop state consistent |
| LineRaster.Bresenham | Lab2/main.cpp:68-88 | the loop emits exactly `BresenhamLine`: for each column of the driving axis, the pixel on the row nearest the ideal line |
| LineRaster.FullRise | Lab2/main.cpp:81-86 | at the last column the nearest row is the full rise, so the walk ends on the end point |
| LineRaster.WalkEnds | Lab2/main.cpp:82-86 | the walk has run + 1 points, from the first normalised endpoint to the second |
| LineRaster.BresenhamEndpoints | Lab2/main.cpp:68-88 | the line has `max(abs dx, abs dy) + 1` points and its first and last points are the two endpoints |
| LineRaster.NearestRowError | Lab2/main.cpp:84-85 | the chosen row is within half a pixel of the ideal line |
| LineRaster.BresenhamNearLine | Lab2/main.cpp:81-86 | point k lies on column k of the driving axis and within half a pixel of the ideal line |
| LineRaster.BresenhamUnitStep | Lab2/main.cpp:82-86 | consecutive points advance one column and stay on the same row or move one row |
| LineRaster.HorizontalWalk | Lab2/main.cpp:82-86 | a flat walk of run 5 emits the six pixels of its row |
| LineRaster.BresenhamHorizontalRun | Lab2/main.cpp:68-88 | Bresenham from (0,0) to (5,0) gives (0,0) .. (5,0) |
| LineRaster.BresenhamCoincident | Lab2/main.cpp:68-88 | coincident endpoints give exactly one point |
| ConicRaster.Blocks8 | Lab2/main.cpp:94-97 | each octant point contributes its 8 mirror images, in the source's order |
| ConicRaster.NearCircleMeaning | Lab2/main.cpp:92-106 | the integer test of the decision variable means the midpoints (x, y - 1/2) and (x, y + 1/2) straddle the circle |
| ConicRaster.NearCircleUnique | Lab2/main.cpp:92-106 | in each column at most one non-negative height passes the midpoint test |
| ConicRaster.DecisionMoves | Lab2/main.cpp:98-106 | the increments `2x + 1` and `2(x - y) + 1` are exactly the change of the decision function for an east or south-east step |
| ConicRaster.DecisionBounds | Lab2/main.cpp:99-106 | the decision value's sign tests are equivalent to the midpoint conditions |
| ConicRaster.CircleStep | Lab2/main.cpp:98-106 | one iteration keeps the decision variable equal to the decision function and the emitted height is on the circle |
| ConicRaster.OctantEnd | Lab2/main.cpp:93 | when the loop exits at column n, no height of at least n passes the midpoint test there, so the octant is complete |
| ConicRaster.OctantFacts | Lab2/main.cpp:92-107 | the heights start at r, never drop below the column, fall by at most one per column, and each passes the midpoint test |
| ConicRaster.PointOctant | Lab2/main.cpp:90-109 | a circle of radius 0 yields the one height 0 |
| ConicRaster.MidpointCircle | Lab2/main.cpp:90-109 | the emitted points are the 8-way blocks of an octant of heights that starts at r, steps by 0 or -1, lies on the circle by the midpoint test and covers every column of the octant |
| ConicRaster.OctantComplete | Lab2/main.cpp:93-107 | on loop exit the heights computed so far are the whole octant |
| ConicRaster.CircleSymmetric | Lab2/main.cpp:94-97 | the emitted point set is closed under mirroring in x, in y and across the diagonal through the centre |
| ConicRaster.Blocks4 | Lab2/main.cpp:118-120 | each arc point contributes its 4 mirror images |
| ConicRaster.ArcFacts | Lab2/main.cpp:111-149 | the arc starts at (0, ry), its first `split` points are exactly those in region 1, and each point is the region-1 or region-2 step of the previous one |
| ConicRaster.Region1Above | Lab2/main.cpp:117 | a region-1 point is above the x axis |
| ConicRaster.Region2Stays | Lab2/main.cpp:117 | once the region-1 slope test fails, it fails for every later point |
| ConicRaster.Quarter1Right | Lab2/main.cpp:121-124 | the region-1 increment for an east step is the change of the decision function |
| ConicRaster.Quarter1Down | Lab2/main.cpp:127-128 | the region-1 increment for the downward part of a diagonal step is the change of the decision function |
| ConicRaster.Quarter2Down | Lab2/main.cpp:138-141 | the region-2 increment for a south step is the change of the decision function |
| ConicRaster.Quarter2Right | Lab2/main.cpp:143-145 | the region-2 increment for the sideways part of a diagonal step is the change of the decision function |
| ConicRaster.Region1Advance | Lab2/main.cpp:121-129 | the sign of p chooses the east or diagonal step, and the updated p is the decision function at the new point |
| ConicRaster.Region2Advance | Lab2/main.cpp:138-146 | the sign of p chooses the south or diagonal step, and the updated p is the decision function at the new point |
| ConicRaster.Region1Measure | Lab2/main.cpp:117-129 | `rx2 y - ry2 x` is positive in region 1 and strictly decreases each step, so the region-1 loop ends |
| ConicRaster.Region1Start | Lab2/main.cpp:114 | the initial `ry2 - rx2 ry + rx2 / 4` is the decision function at (0, ry) |
| ConicRaster.Region2Start | Lab2/main.cpp:133 | the region-2 restart value is the decision function at the point where region 1 ended |
| ConicRaster.Region1Next | Lab2/main.cpp:117-130 | one region-1 iteration extends the arc by the current point and keeps the loop state consistent |
| ConicRaster.Region2Next | Lab2/main.cpp:134-147 | one region-2 iteration extends the arc by the current point and keeps the loop state consistent |
| ConicRaster.WalkRegion1 | Lab2/main.cpp:113-130 | region 1 emits the 4-way blocks of an arc of region-1 steps from (0, ry), and stops at the first point outside region 1 |
| ConicRaster.WalkRegion2 | Lab2/main.cpp:132-147 | region 2 extends the arc with region-2 steps down to y = 0 |
| ConicRaster.MidpointEllipse | Lab2/main.cpp:111-149 | the emitted points are the 4-way blocks of an arc from (0, ry) to the x axis made of region-1 steps while in region 1 and region-2 steps after |
| ConicRaster.EllipseSymmetric | Lab2/main.cpp:118-120 | the emitted point set is closed under mirroring in x and in y through the centre |
| Clipping.IsPointInClipWindow | Lab4/main.cpp:149-151 | the closed-window test, boundary included; `ComputeCode` proves it holds iff the outcode is INSIDE |
| Clipping.ComputeCode | Lab4/main.cpp:90-97 | the code is INSIDE iff `isPointInClipWindow`; each bit means its side is violated; LEFT and RIGHT (and BOTTOM and TOP) are never both set |
| Clipping.Side | Lab4/main.cpp:116-134 | the edge chosen for a non-empty code is a single side whose bit is set in that code |
| Clipping.CodeExcess | Lab4/main.cpp:90-97 | a side's bit is set iff the point's signed excess beyond that side is positive |
| Clipping.ExcessLerp | Lab4/main.cpp:119-134 | the excess beyond a side varies affinely along a segment |
| Clipping.EdgePoint | Lab4/main.cpp:116-134 | the intersection point lies exactly on the line of the chosen side |
| Clipping.CrossHorizontal | Lab4/main.cpp:119-126 | the TOP/BOTTOM formula is the point of the segment at parameter `(bound - y1) / (y2 - y1)`, which lies in [0, 1] |
| Clipping.CrossVertical | Lab4/main.cpp:127-134 | the RIGHT/LEFT formula is the point of the segment at parameter `(bound - x1) / (x2 - x1)`, which lies in [0, 1] |
| Clipping.EdgeTop | Lab4/main.cpp:119-122 | when exactly one endpoint is above ymax, the TOP intersection is a point of the segment and its divisor is non-zero |
| Clipping.EdgeBottom | Lab4/main.cpp:123-126 | when exactly one endpoint is below ymin, the BOTTOM intersection is a point of the segment and its divisor is non-zero |
| Clipping.EdgeRight | Lab4/main.cpp:127-130 | when exactly one endpoint is right of xmax, the RIGHT intersection is a point of the segment and its divisor is non-zero |
| Clipping.EdgeLeft | Lab4/main.cpp:131-134 | when exactly one endpoint is left of xmin, the LEFT intersection is a point of the segment and its divisor is non-zero |
| Clipping.EdgePointOnSegment | Lab4/main.cpp:116-134 | when the endpoints lie on opposite sides of the chosen edge, the divisor is non-zero and the intersection lies on the segment |
| Clipping.LerpCompose | Lab4/main.cpp:136-143 | a point of the current piece is a point of the original segment, at the composed parameter |
| Clipping.BitsShrink | Lab4/main.cpp:104-144 | replacing an endpoint removes the chosen bit from the union of the codes without adding any, so the loop ends |
| Clipping.CodeBetween | Lab4/main.cpp:136-143 | a side violated by a point of the segment is violated by one of its endpoints |
| Clipping.CrossingCode | Lab4/main.cpp:136-143 | the new endpoint's code is a subset of the old union and lacks the clipped bit |
| Clipping.DiscardedOutside | Lab4/main.cpp:136-143 | every point cut off between the old endpoint and the intersection lies outside the window |
| Clipping.ClipStep | Lab4/main.cpp:136-143 | replacing either endpoint by the intersection keeps the clipping invariant and shrinks the union of the codes |
| Clipping.ClipFirst | Lab4/main.cpp:136-139 | clipping the first endpoint keeps the loop invariant, with a non-zero divisor and a smaller union of codes |
| Clipping.ClipSecond | Lab4/main.cpp:140-143 | clipping the second endpoint keeps the loop invariant, with a non-zero divisor and a smaller union of codes |
| Clipping.KeepClipped | Lab4/main.cpp:136-143 | the points of the original segment outside the narrowed parameter range still lie outside the window |
| Clipping.SegmentInside | Lab4/main.cpp:105-108 | if both ends of a piece are inside the window, the whole piece is |
| Clipping.SegmentBeyond | Lab4/main.cpp:110-112 | if both ends violate the same side, no point between them is inside the window |
| Clipping.ClipStart | Lab4/main.cpp:100-102 | the unclipped segment satisfies the loop invariant |
| Clipping.Accepted | Lab4/main.cpp:105-108 | at trivial accept both endpoints and the whole kept piece are inside, and a segment accepted at once is unchanged |
| Clipping.Rejected | Lab4/main.cpp:110-112 | at trivial reject no point of the original segment is inside, and a segment rejected at once is unchanged |
| Clipping.CohenSutherlandClip | Lab4/main.cpp:99-147 | the result is a sub-segment of the input whose cut-off parts lie outside the window; if accepted, its endpoints and every point between are inside; if rejected, no point of the input is inside; trivially accepted or rejected segments are returned unchanged |
| BorderSegments.EdgeHit | Lab4/main.cpp:177-218 | at most one hit per edge, tagged with that edge |
| BorderSegments.EdgeHitMeaning | Lab4/main.cpp:177-218 | a hit exists iff the side crosses the edge's line, is not nearly parallel to it, and meets it within the edge's span; the hit is that point of the side and lies on the edge |
| BorderSegments.HitOnSide | Lab4/main.cpp:179-180 | the source's `p1 + t * d` with `t = (bound - p1) / d` is the point of the side on the edge line, with t in [0, 1] |
| BorderSegments.LeftHit | Lab4/main.cpp:177-185 | the left-edge hit is the source's left-edge computation, branch for branch |
| BorderSegments.BottomHit | Lab4/main.cpp:188-196 | the bottom-edge hit is the source's bottom-edge computation, branch for branch |
| BorderSegments.RightHit | Lab4/main.cpp:199-207 | the right-edge hit is the source's right-edge computation, branch for branch |
| BorderSegments.TopHit | Lab4/main.cpp:210-218 | the top-edge hit is the source's top-edge computation, branch for branch |
| BorderSegments.Hits | Lab4/main.cpp:161-221 | at most four hits, in the edge order left, bottom, right, top |
| BorderSegments.HitsOnBorder | Lab4/main.cpp:164-218 | no hits when both ends are inside or both outside; otherwise every hit lies on its edge and on the side |
| BorderSegments.HitsOnEdges | Lab4/main.cpp:176-218 | every hit lies on the edge it names, within the window's span |
| BorderSegments.HitsNone | Lab4/main.cpp:164-169 | a side with both ends inside, or both outside, has no hits |
| BorderSegments.FindLineClipIntersectionsWithEdge | Lab4/main.cpp:161-221 | the method returns exactly `Hits` |
| BorderSegments.CollectOnBorder | Lab4/main.cpp:228-232 | every collected hit lies on the edge it names |
| BorderSegments.CollectedDistinguished | Lab4/main.cpp:228-254 | within one edge's bucket, two hits with equal sort keys are identical, so the sort order is unique |
| BorderSegments.Bucket | Lab4/main.cpp:237-240 | a bucket holds exactly the hits of its edge |
| BorderSegments.BucketNext | Lab4/main.cpp:238-240 | pushing one more hit extends its own edge's bucket and no other |
| BorderSegments.BucketSizes | Lab4/main.cpp:237-240 | the four buckets together hold every collected hit |
| BorderSegments.Insert | Lab4/main.cpp:246-254 | inserting into a sorted bucket keeps it sorted by the along-edge key and adds exactly one hit |
| BorderSegments.SortAlong | Lab4/main.cpp:246-254 | the sorted bucket is ordered by the along-edge coordinate and is a permutation of the bucket |
| BorderSegments.SortedUnique | Lab4/main.cpp:246-254 | two sorted permutations of a bucket whose keys distinguish its hits are equal, so any correct sort gives the same result |
| BorderSegments.BucketDistinguished | Lab4/main.cpp:246-254 | on one edge, equal keys mean equal hits |
| BorderSegments.Pairs | Lab4/main.cpp:257-265 | segment j joins hits 2j and 2j + 1; an odd last hit is dropped |
| BorderSegments.PairsExtend | Lab4/main.cpp:257-265 | one pairing iteration appends the segment of the next two hits |
| BorderSegments.PairsWhole | Lab4/main.cpp:257-258 | when the loop stops, all pairs have been made |
| BorderSegments.SegmentsNext | Lab4/main.cpp:243-267 | one edge iteration appends that edge's segments after those of the earlier edges |
| BorderSegments.CollectUniform | Lab4/main.cpp:228-232 | a polygon with every vertex inside, or every vertex outside, yields no hits |
| BorderSegments.RedSegmentsUniform | Lab4/main.cpp:223-270 | such a polygon yields no red segments |
| BorderSegments.EdgeSegmentsCount | Lab4/main.cpp:244-265 | an edge with n hits yields n / 2 segments |
| BorderSegments.RedSegmentsCount | Lab4/main.cpp:223-270 | the red segments number the sum of half of each bucket, and at most half the hits |
| BorderSegments.EdgeSegmentsOnBorder | Lab4/main.cpp:256-265 | each segment of an edge joins two points on that edge, in along-edge order |
| BorderSegments.SegmentsBelowOnBorder | Lab4/main.cpp:243-267 | the segments of the edges below e lie on those edges |
| BorderSegments.RedSegmentsOnBorder | Lab4/main.cpp:223-270 | every red segment joins two points of the edge it names, start before end along that edge |
| BorderSegments.EdgeSegmentsEdge | Lab4/main.cpp:259-263 | every segment of an edge is tagged with that edge |
| BorderSegments.AppendOrdered | Lab4/main.cpp:243-267 | appending one edge's segments keeps the output grouped by edge |
| BorderSegments.SegmentsBelowOrdered | Lab4/main.cpp:243-267 | one more edge keeps the output grouped in edge order |
| BorderSegments.AllEdgesOrdered | Lab4/main.cpp:243-267 | after four edges the output is grouped in edge order |
| BorderSegments.RedSegmentsOrdered | Lab4/main.cpp:223-270 | the red segments come edge by edge, left, bottom, right, top |
| BorderSegments.Swap | Lab4/main.cpp:246-254 | a swap of neighbours is a permutation |
| BorderSegments.SinkStart | Lab4/main.cpp:246-254 | the insertion step starts with a sorted prefix |
| BorderSegments.SinkStep | Lab4/main.cpp:246-254 | swapping an out-of-order neighbour keeps the insertion invariant |
| BorderSegments.SinkDone | Lab4/main.cpp:246-254 | when the element has sunk into place the prefix is sorted one further |
| BorderSegments.SortBucket | Lab4/main.cpp:246-254 | the array ends sorted by the along-edge coordinate, as a permutation of its old contents |
| BorderSegments.CollectIntersections | Lab4/main.cpp:228-232 | the loop gathers the hits of every side, the last side wrapping to the first vertex |
| BorderSegments.GroupByEdge | Lab4/main.cpp:237-240 | the four buckets are exactly the hits of each edge, in collection order |
| BorderSegments.PairUp | Lab4/main.cpp:257-265 | the pairing loop returns `Pairs` of the sorted bucket |
| BorderSegments.EdgePairs | Lab4/main.cpp:244-265 | one edge's work yields that edge's segments, from its sorted bucket when it has at least two hits |
| BorderSegments.PairEdges | Lab4/main.cpp:243-267 | the edge loop yields the segments of all four edges in edge order |
| BorderSegments.GenerateRedBorderSegments | Lab4/main.cpp:223-270 | the method returns `RedSegments`: nothing when fewer than two hits, otherwise each edge's sorted hits paired in edge order |
| Transforms.Identity | Lab4/main.cpp:62-66 | the default matrix; `IdentityLeft` and `IdentityRight` prove it a two-sided unit of `operator*`, and `IdentityApply` proves it fixes every vertex |
| Transforms.Product | Lab4/main.cpp:68-80 | `operator*`'s value; `ProductAt` gives each slot as a row-column dot product and `ProductApply` proves the left factor acts first |
| Transforms.NewMatrix | Lab4/main.cpp:62-66 | the default constructor yields the identity |
| Transforms.ProductAt | Lab4/main.cpp:68-80 | slot `row * 4 + col` of the product is the dot product of row `row` of the left factor and column `col` of the right |
| Transforms.Multiply | Lab4/main.cpp:68-81 | the triple loop computes `Product(a, b)` |
| Transforms.IdentityLeft | Lab4/main.cpp:62-80 | the identity is a left unit of `operator*` |
| Transforms.IdentityRight | Lab4/main.cpp:62-80 | the identity is a right unit of `operator*` |
| Transforms.ProductComponent | Lab4/main.cpp:68-80 | each component of the product's image of a vertex is the right factor applied to the left factor's image |
| Transforms.ProductApply | Lab4/main.cpp:68-80 | under the column-major upload, the product applies its left factor first |
| Transforms.IdentityApply | Lab4/main.cpp:62-66 | the identity moves no vertex |
| Transforms.BasisImage | Lab4/main.cpp:501-503 | the image of the c-th unit vertex is slots `4c .. 4c + 3` |
| Transforms.Translation | Lab4/main.cpp:273-279 | `createTranslation`; `ConstructorSlots` and `TranslationApply` prove it adds (x, y, z) times w, and `TranslationCompose`/`TranslationInverse` give its group laws |
| Transforms.RotationX | Lab4/main.cpp:281-290 | `createRotationX`; `RotationXApply` proves it keeps x and w and turns (y, z), and `RotationXInverse` that the negated angle undoes it |
| Transforms.RotationY | Lab4/main.cpp:292-301 | `createRotationY`; `RotationYApply` proves it keeps y and w and turns (z, x), and `RotationYInverse` that the negated angle undoes it |
| Transforms.RotationZ | Lab4/main.cpp:303-312 | `createRotationZ`; `RotationZApply` proves it keeps z and w and turns (x, y), and `RotationZInverse` that the negated angle undoes it |
| Transforms.Scaling | Lab4/main.cpp:314-320 | `createScaling`; `ScalingApply` proves it multiplies x, y, z by its factors, and `ScalingCompose` that scalings compose by products |
| Transforms.Shearing | Lab4/main.cpp:322-331 | `createShearing`; `ShearingApply` proves each factor adds a multiple of one coordinate to another |
| Transforms.ConstructorSlots | Lab4/main.cpp:273-331 | each constructor differs from the identity only in the slots it assigns |
| Transforms.NeutralConstructors | Lab4/main.cpp:273-331 | translation by 0, scaling by 1, shearing by 0 and rotation by angle 0 are the identity |
| Transforms.TranslationApply | Lab4/main.cpp:273-279 | a translation adds (x, y, z) times w to a vertex |
| Transforms.TranslationTwice | Lab4/main.cpp:273-279 | translating twice moves a vertex as translating once by the sum |
| Transforms.TranslationCompose | Lab4/main.cpp:273-279 | the product of two translations is the translation by the sum |
| Transforms.TranslationBack | Lab4/main.cpp:273-279 | translating by (x, y, z) and then by its negation restores every vertex |
| Transforms.TranslationInverse | Lab4/main.cpp:273-279 | a translation times its negation is the identity |
| Transforms.ScalingApply | Lab4/main.cpp:314-320 | a scaling multiplies x, y, z by its factors and keeps w |
| Transforms.ScalingTwice | Lab4/main.cpp:314-320 | scaling twice moves a vertex as scaling once by the products |
| Transforms.ScalingCompose | Lab4/main.cpp:314-320 | the product of two scalings is the scaling by the products |
| Transforms.TranslateThenScale | Lab4/main.cpp:749-750 | translation times scaling translates first, then scales the translated vertex |
| Transforms.ShearingApply | Lab4/main.cpp:322-331 | each shearing factor adds a multiple of one coordinate to another |
| Transforms.RotationXApply | Lab4/main.cpp:281-290 | rotation about x keeps x and w and turns (y, z) by (c, s) |
| Transforms.RotationYApply | Lab4/main.cpp:292-301 | rotation about y keeps y and w and turns (z, x) by (c, s) |
| Transforms.RotationZApply | Lab4/main.cpp:303-312 | rotation about z keeps z and w and turns (x, y) by (c, s) |
| Transforms.TurnBack | Lab4/main.cpp:281-312 | with c² + s² = 1, turning by s and then by -s restores both coordinates |
| Transforms.RotationXBack | Lab4/main.cpp:281-290 | rotating about x by an angle and then by its negation restores every vertex |
| Transforms.RotationXInverse | Lab4/main.cpp:281-290 | rotation about x times rotation by the negated angle is the identity |
| Transforms.RotationYBack | Lab4/main.cpp:292-301 | the same restoration about y |
| Transforms.RotationYInverse | Lab4/main.cpp:292-301 | rotation about y times rotation by the negated angle is the identity |
| Transforms.RotationZBack | Lab4/main.cpp:303-312 | the same restoration about z |
| Transforms.RotationZInverse | Lab4/main.cpp:303-312 | rotation about z times rotation by the negated angle is the identity |
| Transforms.Perspective | Lab4/main.cpp:333-344 | `createPerspective`'s value; `PerspectiveApply` gives its action, and `PerspectiveNear`/`PerspectiveFar` prove the near and far planes land at depths -1 and 1 |
| Transforms.CreatePerspective | Lab4/main.cpp:333-344 | zeroing then five assignments give exactly the perspective matrix |
| Transforms.PerspectiveApply | Lab4/main.cpp:333-344 | the projection scales x by `1 / (aspect tan)` and y by `1 / tan`, maps z to the clip depth and sets w to -z |
| Transforms.PlaneDepths | Lab4/main.cpp:340-342 | the clip depth is -near on the near plane and far on the far plane |
| Transforms.PerspectiveNear | Lab4/main.cpp:333-344 | a vertex on the near plane z = -near lands at normalised depth -1 |
| Transforms.PerspectiveFar | Lab4/main.cpp:333-344 | a vertex on the far plane z = -far lands at normalised depth 1 |

## Left out

- Floating point. All `float` arithmetic is exact real arithmetic, so the model has no rounding error, overflow, NaN or infinity. Near-boundary results may differ from the program's.
- LineRaster.Bresenham, ConicRaster.MidpointCircle and ConicRaster.MidpointEllipse take integer inputs. This is a modelling choice: the source takes `float`, and `main` passes it values read from the console into `float` variables (Lab2/main.cpp:182-198, 275-278), so an input such as 2.5 can reach these rasterizers. Non-integral input is not modelled.
- BorderSegments.EdgeHit uses the true absolute value (`Raster.Abs`) for the unqualified `abs(dx)` and `abs(dy)` of Lab4/main.cpp:178, 189, 200 and 211. That file has no `using namespace std`. On a standard library whose global `abs` is only `int abs(int)`, a difference of magnitude below 1 truncates to 0 and the hit is skipped. The model does not capture that behaviour.
- LineRaster.Dda: when both endpoints coincide, the source divides 0 by 0 and its one sample ignores the NaN increment. The model uses increment 0, which emits the same single point.
- ConicRaster.MidpointCircle and ConicRaster.MidpointEllipse return the octant heights and the arc as ghost outputs. These tie the emitted points to their specification; they are not values the source returns.
- Clipping.CohenSutherlandClip: the window is a parameter with `xmin <= xmax` and `ymin <= ymax`, not the source's globals. The program's window is `Clipping.ClipWindow`. The by-reference endpoints are returned as values. The parameters t1 and t2 that locate the kept piece are ghost.
- BorderSegments.SortBucket: `std::sort` is modelled by an insertion sort on the bucket's array. Any sort yields the same order here (`SortedUnique`), because two hits on one edge with equal keys are identical.
- BorderSegments.GenerateRedBorderSegments is split into phase methods: collect, group, and sort and pair per edge. Their composition is the source's single function.
- The matrix constructors (`createTranslation` to `createShearing`) are modelled as functions on the 16-slot value. They do not write into a default-constructed object. `NewMatrix`, `Multiply` and `CreatePerspective` keep the source's loops.
- Transforms.RotationX, RotationY and RotationZ take c = cos(angle) and s = sin(angle) as parameters. `cosf`, `sinf` and `tanf` are not modelled. The inverse lemmas therefore require c² + s² = 1 and use (c, -s) for the negated angle.
- Transforms.CreatePerspective takes tan(fov / 2) as a parameter. It requires a non-zero tangent and aspect and far != near, where the program would produce infinities or NaN.
- `createLookAt` (Lab4/main.cpp:346-380) is not part of this model: it needs a square root to normalise its axes.
- OpenGL, GLFW, shaders, window and input handling, drawing helpers, the axes and cube geometry, and `main` are not modelled. They are I/O and rendering around the core.
