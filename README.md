# Meandering-triangles contours and their helpers, in Dafny

This project models the reusable core of a generative-art repository.

The main part is the "meandering triangles" contour pipeline, which runs in three stages:

- **Triangulation.** A grid is cut into triangles whose vertices carry an elevation.
- **Threshold crossing.** For one threshold, each triangle yields either nothing or a two-point segment. The two points are found by linear interpolation along the two edges that cross the threshold.
- **Stitching.** The unordered segments are chained greedily into polylines, by matching endpoints that lie close together.

The pipeline exists four times in the repository, and the copies differ in how they stitch:

- the shared Rust utilities append both endpoints of every match;
- the third Rust sketch appends only the far endpoint;
- the "badlands" TypeScript sketch partitions the segments by threshold, takes the first match and keeps only long lines;
- the "walking triangles" TypeScript utilities reuse a tail index that can go stale.

Each stitcher is modelled on its own. The per-triangle step is shared by all copies and is modelled once.

Beside the pipeline sit small helpers from the SVG library and the sketches, each modelled as well:

- a 2D grid data store;
- fractal midpoint subdivision of a polyline;
- differential-line growth, which inserts midpoints into long edges;
- the RGB colour type, with hex parsing and printing and component mixing;
- the SVG path-command string builders and the path builder;
- the free-rectangle finder and grid filler of the Genuary 2024 day 3 sketch.

Modules, one per source file plus shared vocabulary:

| module | models |
|---|---|
| `Geometry`, `Wrappers` | points, the "near" test, `Option`/`Result` |
| `ContourExtract` | `contour_line` / `contourLine`, `calc_contour` / `calcContour`, `calcTriangles` |
| `SegmentPool`, `Chaining` | the segment pool, endpoint bookkeeping, last/first-match searches |
| `ContoursUtil` | `connect_contour_segments` of `examples/util/contours.rs` |
| `Contours3` | `connect_contour_segments` of `examples/contours3.rs` |
| `Badlands3` | `connectContourSegments` of the badlands sketch |
| `WalkingTriangles` | `connectContourSegments` of the walking-triangles utilities |
| `GridStore` | `Grid` of `artsvg/lib/data-structures/grid.js` |
| `FractalLine` | `FractalizedLine` |
| `DifferentialGrowth` | `DifferentialLine.grow` |
| `Color` | `ColorRgb`, `fromHex`, `toHex`, `mix`, `mixColorComponent`, `lerp` |
| `SvgPath` | `move`, `line`, `cubicBezier`, `smoothBezier`, `close`, `pathBuilder` |
| `FreeCells` | `findAvailableSizes`, the grid of occupied flags, `populateGrid` |

How the model represents the source:

- **Numbers.** Coordinates and elevations are reals. "Distance below eps" is stated through the squared distance, and lemmas tie it to the Euclidean distance.
- **Imperative code stays imperative.** The stitchers, `calcTriangles`, the grid store, `subdivide`, `grow`, the path builder and the free-cell finder are methods with loops, or classes whose methods update their fields. Each is proved against a specification function or a declarative postcondition.
- **Ghost bookkeeping.** The shared Rust, third Rust and badlands stitchers carry a ghost record of which input segments make up each emitted line. Their postconditions state that every segment is taken from the pool exactly once. The walking-triangles stitcher does not keep that promise (see Findings); what is proved of it is that each line is a run of point pairs, each pair the two endpoints of an input segment.

## Model

| member | source | states |
|---|---|---|
| ContourExtract.Below | examples/util/contours.rs:27-32 | the below list holds exactly the vertices with z < threshold |
| ContourExtract.Above | examples/util/contours.rs:33-38 | the above list holds exactly the vertices with z >= threshold, so a vertex at the threshold counts as above |
| ContourExtract.HowFar | examples/util/contours.rs:61 | on an edge whose ends lie on opposite sides, how_far lies in [0, 1] and how_far*a.z + (1-how_far)*b.z equals the threshold |
| ContourExtract.ContourLine | examples/util/contours.rs:25-69 | Some exactly when the triangle is crossed; the segment joins the crossings on the two edges from the vertex alone on its side, the other two taken in vertex order |
| ContourExtract.OneSideEmpty | examples/util/contours.rs:40-43 | the above list or the below list is empty exactly when the threshold misses the triangle |
| ContourExtract.MinorityMajority | examples/util/contours.rs:46-58 | for a crossed triangle the minority list is the lone vertex and the majority list the other two, in order |
| ContourExtract.ContourLineNone | examples/contours3.rs:174-193 | None exactly when every vertex is below or every vertex is at or above the threshold |
| ContourExtract.VertexAtThresholdIsAbove | examples/util/contours.rs:30-38 | a vertex exactly at the threshold with the other two below gives a segment, with that vertex as the lone one |
| ContourExtract.FilterMapHits | examples/util/contours.rs:108-112 | the k-th result of filter_map is f of the k-th element on which f gives a result, and there are no more results than elements |
| ContourExtract.CalcContour | examples/util/contours.rs:107-113 | one segment per crossed triangle, in triangle order, each the segment of its triangle |
| ContourExtract.TaggedContourLine | homegrown-svg/sketch/20250310-badlands3.ts:175-198 | same None/Some split as contour_line, and the segment is tagged with the input threshold |
| ContourExtract.CalcTaggedContour | homegrown-svg/sketch/20250310-badlands3.ts:232-234 | one tagged contour per crossed triangle, in order, each carrying the input threshold |
| ContourExtract.CalcTriangles | homegrown-svg/sketch/20250310-badlands3.ts:200-225 | (rowCount-1)*(columnCount-1) triangles, row by row; the k-th is cell (k / w, k % w) with the even/odd-column vertex pattern |
| Geometry.NearIsDistanceBelow | examples/util/contours.rs:115-117 | the squared-distance test holds exactly when the Euclidean distance is below eps |
| SegmentPool.NearByIsDistanceBelow | homegrown-svg/sketch/20250308-walking-triangles-util.ts:70-72 | isNear holds iff distance < threshold, and distance < 1 when no threshold is given |
| SegmentPool.LastJoining | examples/util/contours.rs:151-160 | the filter-then-pop search returns the last pool index whose segment has an endpoint near p, and None exactly when no segment has one |
| SegmentPool.RemoveAt | examples/util/contours.rs:170 | removing index i drops exactly that element and keeps the others in order |
| ContoursUtil.ConnectContourSegments | examples/util/contours.rs:139-209 | every segment is used exactly once; no point is invented or dropped; each line holds 2 points per segment of its chain; each line is a polyline whose segments start near the end of the one before; empty input gives no lines; a line is closed only when no later segment joins either end; one segment gives one 2-point line |
| ContoursUtil.ExtendHead | examples/util/contours.rs:148-172 | with no segment near the last point nothing changes; otherwise the last such segment in pool order is removed from the pool and both its endpoints are appended, the one near the last point first |
| ContoursUtil.ExtendTail | examples/util/contours.rs:174-196 | with no segment near the first point nothing changes; otherwise the last such segment in pool order is removed from the pool and both its endpoints are put in front, the one near the first point second |
| ContoursUtil.GrowLine | examples/util/contours.rs:147-204 | the inner loop ends with no pool segment touching either end, having only moved segments from the pool into the line |
| Contours3.ConnectContourSegments | examples/contours3.rs:303-371 | every segment is used exactly once; total points == segments + lines; each line has one point more than its chain; consecutive points are the ends of one segment; a single segment gives one 2-point line |
| Contours3.ExtendHead | examples/contours3.rs:312-335 | with no segment close to the last point nothing changes; otherwise the last such segment in pool order is removed from the pool, and its second endpoint is appended if its first is close to the last point, else its first |
| Contours3.ExtendTail | examples/contours3.rs:337-357 | with no segment close to the first point nothing changes; otherwise the last such segment in pool order is removed from the pool, and its second endpoint is inserted in front if its first is close to the first point, else its first |
| Badlands3.FirstTouching | homegrown-svg/sketch/20250310-badlands3.ts:272-277 | the first index in pool order whose segment is near either end of the line, and None exactly when there is none |
| Badlands3.Attach | homegrown-svg/sketch/20250310-badlands3.ts:289-306 | the four cases are tried in the source's order (first endpoint near the first point, second near the first point, first near the last point, second near the last point) and the first that holds decides which endpoint is unshifted or pushed |
| Badlands3.Extend | homegrown-svg/sketch/20250310-badlands3.ts:287-309 | the segment at the matched index is attached by the ordered cases and is exactly the one spliced out of the pool |
| Badlands3.LongLines | homegrown-svg/sketch/20250310-badlands3.ts:280-285 | the kept lines are exactly those with more than 5 points, in order |
| Badlands3.PartitionByThreshold | homegrown-svg/sketch/20250310-badlands3.ts:249-256 | the keys are the distinct thresholds in first-appearance order, and each group holds exactly the segments of its threshold |
| Badlands3.PartitionCovers | homegrown-svg/sketch/20250310-badlands3.ts:249-256 | the groups together hold every input segment exactly once |
| Badlands3.StitchGroup | homegrown-svg/sketch/20250310-badlands3.ts:263-311 | one group is stitched with the far-endpoint rules, and only the lines of more than 5 points are returned |
| Badlands3.ConnectContourSegments | homegrown-svg/sketch/20250310-badlands3.ts:241-316 | each threshold is stitched on its own, so no line mixes thresholds; every segment is used once; the lines returned are the long ones, group after group |
| WalkingTriangles.CollectCandidates | homegrown-svg/sketch/20250308-walking-triangles-util.ts:85-95 | the head and tail candidate lists hold the indices of the segments near the last and the first point, and pop() yields the last such index |
| WalkingTriangles.HeadPush | homegrown-svg/sketch/20250308-walking-triangles-util.ts:102-111 | two points are appended, the line is kept as a prefix, and they are the matched segment's endpoints |
| WalkingTriangles.TailUnshift | homegrown-svg/sketch/20250308-walking-triangles-util.ts:115-124 | two points are prepended, the line is kept as a suffix, and they are the matched segment's endpoints |
| WalkingTriangles.Round | homegrown-svg/sketch/20250308-walking-triangles-util.ts:84-127 | a pass is done exactly when no pool segment touches either end; otherwise the pool shrinks and the line gains 2 or 4 points |
| WalkingTriangles.NoCandidates | homegrown-svg/sketch/20250308-walking-triangles-util.ts:97-100 | both candidate lists are empty exactly when no segment is near either end, which is when the line is closed |
| WalkingTriangles.WalkRound | homegrown-svg/sketch/20250308-walking-triangles-util.ts:84-127 | the loop body computes the pass Round specifies |
| WalkingTriangles.Stitch | homegrown-svg/sketch/20250308-walking-triangles-util.ts:79-131 | no more lines than segments, none exactly for empty input, and every line has an even number of at least 2 points |
| WalkingTriangles.RoundPairs | homegrown-svg/sketch/20250308-walking-triangles-util.ts:102-126 | a pass adds to the line only whole pairs, each the two endpoints of a segment of the pool it searched, and leaves a part of that pool |
| WalkingTriangles.GrowPairs | homegrown-svg/sketch/20250308-walking-triangles-util.ts:84-127 | the inner loop run to completion adds only endpoint pairs of pool segments and leaves a part of the pool |
| WalkingTriangles.StitchPairs | homegrown-svg/sketch/20250308-walking-triangles-util.ts:79-131 | every emitted line is a run of point pairs, each pair the two endpoints, in either order, of an input segment |
| WalkingTriangles.ConnectContourSegments | homegrown-svg/sketch/20250308-walking-triangles-util.ts:79-131 | the nested loops compute Stitch of the input, with the nearness defaulting to 1 |
| WalkingTriangles.GrowLine | homegrown-svg/sketch/20250308-walking-triangles-util.ts:84-127 | the inner loop computes Grow of the popped segment and the rest of the pool |
| WalkingTriangles.RoundBoth | homegrown-svg/sketch/20250308-walking-triangles-util.ts:102-126 | when both searches match, the tail index taken from the old pool is spliced from the pool the head splice already shortened |
| WalkingTriangles.StaleTailIndex | homegrown-svg/sketch/20250308-walking-triangles-util.ts:112-125 | a concrete pass in which the tail segment's points join the line but the segment stays in the pool |
| WalkingTriangles.StaleTailJoinsTwice | homegrown-svg/sketch/20250308-walking-triangles-util.ts:79-131 | three concrete segments are stitched into one 8-point line that uses one segment twice |
| GridStore.FloorDivBounds | artsvg/lib/data-structures/grid.js:56 | Math.floor of a quotient is the largest multiple of the step not past the span, for either sign |
| GridStore.CountRule | artsvg/lib/data-structures/grid.js:50-58 | a non-zero count sets the far bound to min + count; a given count is kept, even 0; otherwise the count is the floor of span / step |
| GridStore.CellIndex | artsvg/lib/data-structures/grid.js:82-95 | for in-range i and j the flat index lies in [0, columnCount*rowCount) |
| GridStore.IndexInjective | artsvg/lib/data-structures/grid.js:91-94 | within the grid, two cells share a flat index only if they are the same cell, in either layout |
| GridStore.IndexAliasesPastRow | artsvg/lib/data-structures/grid.js:91-93 | out of range, (columnCount, 0) and (0, 1) share a row-major index |
| GridStore.Filled | artsvg/lib/data-structures/grid.js:59-62 | the filled array has exactly the slots [0, n), all holding the fill value |
| GridStore.Grid.constructor | artsvg/lib/data-structures/grid.js:37-64 | the bounds and counts follow the sizing rules; the array has columnCount*rowCount slots; every in-range cell reads as the fill |
| GridStore.Grid.Set | artsvg/lib/data-structures/grid.js:123-129 | after set(i, j, v), get(i, j) returns v, and no other in-range cell changes |
| GridStore.Grid.Iterate | artsvg/lib/data-structures/grid.js:134-148 | the generator yields exactly the points of the written nested loops |
| GridStore.Nested | artsvg/lib/data-structures/grid.js:136-146 | the two nested for-loops produce the outer-by-inner sweep |
| GridStore.DefaultIteratesOrigin | artsvg/lib/data-structures/grid.test.js:23-28 | a default grid iterates exactly (0, 0) |
| GridStore.RowMajorRunsColumnsFirst | artsvg/lib/data-structures/grid.js:135-141 | as written, the row-major iteration over [2,4) x [2,4) visits (2, 3) second, where the test expects (3, 2) |
| GridStore.IntendedFollowsIndex | artsvg/lib/data-structures/grid.test.js:96-106 | with x in the inner loop, the k-th point of a whole grid is the cell at flat index k, in either layout |
| FractalLine.Pass | artsvg/lib/data-structures/fractalized-line.js:90-100 | one pass turns n points into 2n-1 |
| FractalLine.PassShape | artsvg/lib/data-structures/fractalized-line.js:92-98 | in one pass's result the original points sit at even indices, and the offset point of each pair of neighbours sits between them |
| FractalLine.SubdividedLength | artsvg/lib/data-structures/fractalized-line.js:89-102 | after k passes, n points have become (n-1)*2^k + 1 |
| FractalLine.SubdividedKeepsOriginals | artsvg/lib/data-structures/fractalized-line.js:92-98 | after k passes, original point j sits at index j*2^k |
| FractalLine.SubdividedKeepsEnds | artsvg/lib/data-structures/fractalized-line.js:92-98 | the first and last points survive every pass |
| FractalLine.FractalizedLine.Segments | artsvg/lib/data-structures/fractalized-line.js:36-42 | points - 1 segments (none for no points), segment i joining points i and i+1 |
| FractalLine.FractalizedLine.Subdivide | artsvg/lib/data-structures/fractalized-line.js:84-103 | the points become the given number of passes applied to the old points |
| FractalLine.SubdivideOnce | artsvg/lib/data-structures/fractalized-line.js:90-98 | the loop of one pass builds exactly Pass of the points |
| FractalLine.PassUnique | artsvg/lib/data-structures/fractalized-line.js:90-98 | any sequence with the even/odd layout of a pass equals that pass |
| DifferentialGrowth.TooLongIsDistanceAbove | openrndr/src/main/kotlin/shape/DifferentialLine.kt:76 | the squared-distance test holds exactly when the distance exceeds maxEdgeLen |
| DifferentialGrowth.Grown | openrndr/src/main/kotlin/shape/DifferentialLine.kt:64-84 | the new size lies between n and 2n-1, and the first and last nodes are kept |
| DifferentialGrowth.GrownLength | openrndr/src/main/kotlin/shape/DifferentialLine.kt:70-81 | the new size is the old one plus the number of edges longer than maxEdgeLen |
| DifferentialGrowth.GrownKeepsNodes | openrndr/src/main/kotlin/shape/DifferentialLine.kt:70-81 | every old node is kept, in order, at its slot of the new list |
| DifferentialGrowth.GrownMidpoints | openrndr/src/main/kotlin/shape/DifferentialLine.kt:76-79 | right after a node whose edge is too long comes that edge's midpoint |
| DifferentialGrowth.DifferentialLine.Grow | openrndr/src/main/kotlin/shape/DifferentialLine.kt:64-84 | the nodes become Grown of the old nodes |
| Color.Clamp | artsvg/lib/color/rgb.js:14 | the value bounded into [lo, hi], unchanged when already inside |
| Color.Component | artsvg/lib/color/rgb.js:12-27 | a constructor argument ends in [0, 1] or NaN, is kept when already valid, and is NaN exactly when given NaN |
| Color.New | artsvg/lib/color/rgb.js:11-28 | every colour the constructor builds is valid, and valid arguments are kept as given |
| Color.StripPrefixLength | artsvg/lib/color/rgb.js:35 | a leading 0x is removed; otherwise one '#' goes if there is one; otherwise nothing changes |
| Color.ParseDigits | artsvg/lib/color/rgb.js:43 | parseInt of a plain run of hexadecimal digits is their value |
| Color.ParseNaN | artsvg/lib/color/rgb.js:43 | parseInt of text starting with no space, sign or digit is NaN |
| Color.FromHexOutcome | artsvg/lib/color/rgb.js:34-67 | fromHex succeeds exactly for 3, 6 or 8 remaining characters, giving a valid colour that is opaque unless an alpha byte was given; otherwise it fails naming the input |
| Color.FromHex8 | artsvg/lib/color/rgb.js:58-64 | eight digits after an accepted prefix give four bytes over 255, the last one alpha |
| Color.FromHex6 | artsvg/lib/color/rgb.js:52-57 | six digits give three bytes over 255 and alpha 1 |
| Color.FromHex3 | artsvg/lib/color/rgb.js:46-51 | three digits give each digit times 17 over 255, and alpha 1 |
| Color.Round | artsvg/lib/color/rgb.js:91 | Math.round lands within half a unit of its argument, halves going up |
| Color.ToHexShape | artsvg/lib/color/rgb.js:88-104 | a colour of numbers in [0, 1] is written as '#' and four zero-padded two-digit lower-case bytes |
| Color.HexRoundTrip8 | artsvg/lib/color/rgb.js:34-104 | eight lower-case digits read by fromHex are written back unchanged by toHex |
| Color.HexRoundTrip6 | artsvg/lib/color/rgb.js:34-104 | six digits come back followed by the opaque alpha byte ff |
| Color.HexRoundTrip3 | artsvg/lib/color/rgb.js:34-104 | three digits come back each doubled, followed by ff |
| Color.ToHexFromHex | artsvg/lib/color/rgb.js:34-104 | toHex then fromHex gives back every colour of numbers in [0, 1], up to rounding each component to a byte |
| Color.Quantized | artsvg/lib/color/rgb.js:91-102 | a component's trip through its byte stays in [0, 1] and moves it by at most 1/510 |
| Color.LerpEnds | artsvg/lib/color/rgb.js:147-152 | lerp gives a at 0 and b at 1, and swapping the ends while reversing the mix changes nothing |
| Color.Between | artsvg/lib/color/rgb.js:147-152 | with a mix in [0, 1], lerp lies between its two ends |
| Color.MixComponentInUnit | artsvg/lib/color/rgb.js:130-137 | two components in [0, 1] mixed with a mix in [0, 1] stay in [0, 1] |
| Color.MixComponentNearEnds | artsvg/lib/color/rgb.js:121-137 | components at most half apart come back as a at mix 0 and as b at mix 1 |
| Color.MixComponentEnds | artsvg/lib/color/rgb.js:121-137 | at the ends of the mix the result is the matching component, except that a 0 lifted to 1 comes back as 1, where the doc comment promises the component itself |
| Color.MixComponentSymmetric | artsvg/lib/color/rgb.js:130-137 | swapping the components and reversing the mix gives the same result |
| Color.Mix | artsvg/lib/color/rgb.js:76-82 | mixing always gives a valid colour |
| Color.MixNeedsNoClamp | artsvg/lib/color/rgb.js:76-82 | mixing two valid colours with a mix in [0, 1] never triggers the constructor's clamping |
| Color.MixAtZero | artsvg/lib/color/rgb.js:70-82 | mix at 0 gives back this colour when every component pair is at most half apart |
| SvgPath.SplitJoin | homegrown-svg/lib/path.js:50-54 | joining space-free tokens with single spaces and splitting on spaces gives the tokens back |
| SvgPath.JoinAppend | homegrown-svg/lib/path.js:180 | joining two non-empty lists is joining their joins with one space |
| SvgPath.Letter | homegrown-svg/lib/path.js:51 | the command letter is upper-case exactly when the coordinates are absolute (the default) |
| SvgPath.Tokens | homegrown-svg/lib/path.js:87-95 | a command has 1 + 2*points tokens: its letter, then each point's x and y |
| SvgPath.CommandSplits | homegrown-svg/lib/path.js:49-120 | every command splits back into exactly its letter and coordinates |
| SvgPath.MoveLineTokens | homegrown-svg/lib/path.js:49-69 | move and line give three tokens: "M"/"m" or "L"/"l", then x and y |
| SvgPath.CurveTokens | homegrown-svg/lib/path.js:81-124 | cubicBezier gives 7 tokens, smoothBezier 5, and close the single token "Z" |
| SvgPath.CommandIsBuilderFunction | homegrown-svg/lib/path.js:160-178 | each builder call pushes the string of the matching command function |
| SvgPath.PathBuilder.Apply | homegrown-svg/lib/path.js:161-177 | one call pushes its command; the cursor becomes the end point, except that close leaves it |
| SvgPath.PathBuilder.Draw | homegrown-svg/lib/path.js:160-179 | the calls push their commands in call order, and the cursor ends at the last end point |
| SvgPath.BuildPath | homegrown-svg/lib/path.js:157-181 | the path text is the commands of the calls, in order, joined by single spaces |
| SvgPath.PathTokens | homegrown-svg/lib/path.js:157-181 | the path text splits into every call's tokens, in call order |
| FreeCells.CellGrid.Mark | homegrown-svg/sketch/231229-Genuary2024_03.js:125-130 | the occupied cells become the old ones plus exactly the dim.x by dim.y rectangle at (x, y) |
| FreeCells.ExtendRow | homegrown-svg/sketch/231229-Genuary2024_03.js:171-180 | pushes widths d+1 up to maxX' at height d+1; those cells are free, and maxX shrinks only to an occupied cell |
| FreeCells.ExtendColumn | homegrown-svg/sketch/231229-Genuary2024_03.js:182-191 | pushes heights d+1 up to maxY' at width d+1; those cells are free, and maxY shrinks only to an occupied cell |
| FreeCells.DiagonalStep | homegrown-svg/sketch/231229-Genuary2024_03.js:165-191 | one diagonal step keeps the loop invariant: listed sizes sound and complete up to the diagonal, bounds tight |
| FreeCells.FindAvailableSizes | homegrown-svg/sketch/231229-Genuary2024_03.js:158-194 | a size is listed exactly when it fits within min(maxDimension, count - x) by min(maxDimension, count - y) and its rectangle has no occupied cell; each square size is listed twice |
| FreeCells.Placed | homegrown-svg/sketch/231229-Genuary2024_03.js:82-83 | a shape with an available size at a free cell lies in the grid and overlaps no earlier shape of its level |
| FreeCells.PopulateGrid | homegrown-svg/sketch/231229-Genuary2024_03.js:68-132 | nothing is drawn past depth 5; at depth 5 or less, the shapes of this level lie in the grid, never overlap, and cover every cell |

## Left out

- Output and plumbing are not modelled: drawing, SVG rendering, file output, progress logging (`console.log`, `println!`) and the clamping warning (`warnWithDefault`).
- The sources compute with f32 and f64 numbers; the model uses mathematical reals. The crossing points are exact, and `Math.round` is modelled on reals (its handling of -0 and Infinity is not).
- Elevation functions (noise) and the Delaunay triangulation are parameters or opaque inputs. The Rust `calc_triangles` is one of these inputs.
- The walking-triangles copies of `contourLine`, `calcTriangles` and `calcContour` match the badlands ones line for line, so the `ContourExtract` members stand for both. The same holds for the Rust copies of `contour_line` and `calc_contour`.
- The stitchers receive their input as immutable sequences. The source mutates (and so consumes) the caller's array; that aliasing is not modelled.
- WalkingTriangles: the truthiness guards (`line.at(-1) &&`, `line[0] &&`) are always true on the non-empty lines the loop builds, so they are left out.
- WalkingTriangles.Stitch: its own contract gives the line shapes only; where the points come from is stated by the lemma StitchPairs, and exact-once use of the segments is not promised because the source breaks it.
- WalkingTriangles.ConnectContourSegments: the source does not promise that each segment is used exactly once, and does not deliver it (see Findings). The contract states the line shapes and, through StitchPairs, that every pair of points comes from one input segment; a segment may supply more than one pair.
- GridStore: coordinates, steps and counts are integers. Fractional steps, public reassignment of `columnCount`/`rowCount`, and the `Vector2` overloads of `get`/`set` are not modelled. The `#index` error for a missing `y` cannot arise in the model.
- GridStore.Grid.constructor: the RangeError `new Array` throws is excluded by its requires, not modelled as a failure. It arises for a zero step with no count (the division gives Infinity or NaN) and for a negative `columnCount*rowCount`. `new Array` also throws for a length of 2^32 or more, which the model does not exclude: its lengths are unbounded.
- GridStore.Grid.Set: array lengths are unbounded. In JavaScript a write at an index of 2^32 - 1 or more adds a plain property without growing `length`; the model grows `length` for every index at or past it.
- GridStore.Grid.Iterate: requires positive steps. Over a non-empty range, the source's loops never end with a zero or negative step. Over an empty range (xMin >= xMax or yMin >= yMax) they yield nothing whatever the step; the model does not cover that case.
- The sketch iterates the grid as `[point, isOccupied]` pairs and reads `grid.columnCount`. That is a later version of `Grid` than the one in `grid.js`. `FreeCells.CellGrid` models it as the set of occupied cells.
- FractalLine: the random perpendicular offset is a parameter (`OffsetFn`) rather than `perpendicularOffset` with its generator. `path()` is not modelled, and subdividing an empty point list (which pushes `undefined`) is excluded by a precondition.
- DifferentialGrowth: nodes are reduced to their positions. `differentiate`, `run`, the separation and cohesion forces and `smoothLine` are float physics and are not modelled.
- DifferentialGrowth.DifferentialLine.Grow: requires a non-empty node list, because `nodes.last()` throws on an empty one.
- Color: lengths and slices count characters (Unicode scalar values), where JavaScript's `length` and `slice` count UTF-16 code units. A hex string holding a character outside the Basic Multilingual Plane can therefore take a different branch of `fromHex` in the source ("#" then U+1F600 then "a" has 3 units left and parses as (NaN, NaN, 170/255, 1)) than in the model (2 characters, a failure).
- Color: `toString`, the `Black`/`White` constants and the `rgb()` helper are not modelled. Their behaviour follows from `New`.
- Color: the `clamp` of `util.js` is not part of this model; `Clamp` is what its use in the constructor requires. White space for `parseInt` follows the ECMAScript white-space and line-terminator characters.
- SvgPath: the conversion of numbers to text is the `Show` parameter, assumed to write at least one character and no space.
- SvgPath: `point` is the `Vec2` constructor. `randomPoint` needs `util.js`, which is not part of this model.
- SvgPath: the drawing callback is modelled as the sequence of builder calls it makes. The cursor argument it receives stays the origin object and is not modelled.
- SvgPath: `line` is exported but is not a builder method, so only its string is modelled.
- FreeCells: `range` and `randomFromArray` from the sketch's `util` are not part of this model. `range(min, max)` is read as min, min+1, ..., max-1.
- FreeCells.PopulateGrid: the random draws are functions of the grid's seed and the cell (`Choices`), not a generator stream. As a result, the order of the draws, the colour picks, and the reuse of one seed across sub-grids (the Droste effect) are modelled only as far as the seed argument goes.
- FreeCells.PopulateGrid: pixel geometry (cell size, padding, radii, offsets) is drawing and is not modelled. The iteration order of the grid is the `cells` argument.
- FreeCells.PopulateGrid: shapes of deeper levels are stated to be deeper, but their tiling is stated only for the level of each call.

## Findings

| source | as written | input that shows it | evidently intended | confidence | as-written member | corrected member |
|---|---|---|---|---|---|---|
| homegrown-svg/sketch/20250308-walking-triangles-util.ts:112-125 | both candidate indices are taken from one pool; the head splice runs first, so the tail index can point one past its segment and the tail segment stays in the pool after its points were added | segments ((10,0),(20,0)), ((0,0),(-10,0)), ((0,0),(10,0)), no threshold | each segment joins a line once, as in the Rust original: one 6-point line | not executed | WalkingTriangles.StaleTailJoinsTwice | ContoursUtil.ConnectContourSegments |
| artsvg/lib/data-structures/grid.js:135-141 | row-major iteration runs x in the outer loop, so it walks down columns | xMin=2, xMax=4, yMin=2, yMax=4: (2,3) comes second | x in the inner loop, as the test at grid.test.js:96-106 and the row-major index layout expect | not executed | GridStore.RowMajorRunsColumnsFirst | GridStore.IntendedFollowsIndex |
