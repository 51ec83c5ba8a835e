# Accessible route planning: crossing edges, polylines, curbs and areas

This project is a Dafny model of the sequential core of a route-planning toolkit. The toolkit builds a pedestrian network from sidewalk polygons, a lidar point cloud and municipal map layers. Four pieces are modelled.

- **Crossing-edge synthesis** (`crossing.dfy`, module `Crossing`). A source-by-target distance matrix has its positional diagonal masked. Each row is ordered by an argsort, and the targets inside a distance window become candidates.
  - Plain mode takes the first `max_connections` candidates of each source.
  - The connected-component rule walks the candidates and accepts a target only when its component was not accepted before.
  - The curb-height variant keeps a nested table keyed by source component and target node that holds the shortest centroid edge offered so far. It then flattens the table and keeps the edges whose road-intersection flags are mixed.
  - The two-ended curb decision consults a shortest-path oracle, falling back to 1000 when the query fails.
- **Polyline utilities** (`geometry.dfy`, `poly_utils.dfy`, `route_weight.dfy`; modules `Geometry`, `PolyUtils`, `RouteWeight`). A polyline is its vertex list together with the cumulative arc length at each vertex, so the projection of vertex i is the prefix length `cum[i]`. On top of that the model has:
  - `cut` with its boundary policy and the greedy longest-first `shorten_linestrings` loop;
  - segment decomposition and sampling by resolution;
  - dead-end pruning and interior-ring filtering;
  - the average/minimum width aggregation;
  - the route-weight decoder (powers-of-100 buckets) and a few helpers.
- **Curb heights** (`curb.dfy`, module `Curb`). The model covers:
  - the label/polygon mask, over arrays;
  - the in-place sort and the median of the road and ground z values;
  - the availability flag, the height as a difference of medians, and the three-way colour;
  - the sampling distances of `get_points_on_line`.
- **Area geometry strings** (`area.dfy`, module `Area`). A nested coordinate list is stringified, stripped of `[`, `]` and spaces, and split on commas. The tokens are de-interleaved into longitudes (even positions) and latitudes (odd positions) and zipped into vertices.

`common.dfy` holds the shared vocabulary:
- an `Option` type;
- an insertion-ordered dictionary, standing in for Python's `dict`;
- sums and minima;
- order-preserving selection with its subsequence lemmas.

`numeric.dfy` holds rounding and real-arithmetic facts.

Library calls the model cannot see are function-typed parameters ("oracles"):
- the polygon clip test per point;
- the nearest-boundary distance;
- `disjoint`;
- `Polygon.area`;
- `is_valid` and `buffer(0)`;
- the road `intersects` flags;
- `shortest_path_length`, where `None` stands for the exception;
- float32 parsing.

The distance matrix and its row argsorts are parameters, constrained by `IsArgsort`: every index once, with distances non-decreasing. Ties among equal distances may come in any order, as with NumPy's default sort.

Where the docstrings and the code differ, the model follows the code:
- `bbox_to_polygon` is documented as taking `(xmin, ymin, xmax, ymax)` but indexes two corner points `bbox[0]`, `bbox[1]`. `PolyUtils.BboxToPolygon` takes the two corners.
- `shorten_linestrings` reads a `centerlines` column while `create_df_centerlines` writes `geometry`. The model treats both as the row's geometry.
- Label-based `.loc` and positional `.iloc` lookups are both taken over a default `0..n-1` index.

## Model

| member | source | states |
|---|---|---|
| Crossing.MaskDiagonal | src/crossing_utils.py:20 | every entry (i, i) of the matrix becomes 10^6 by position, whatever the nodes are; every other entry is unchanged and the shape is kept |
| Crossing.CandidatesExactly | src/crossing_utils.py:21-26 | a source's candidates are exactly the targets whose distance lies in the window (strictly below `max_dist`, or strictly between `min_dist` and `max_dist`), each once, in non-decreasing distance order |
| Crossing.DiagonalNeverCandidate | src/crossing_utils.py:20-26 | when `max_dist` ≤ 10^6, source i is never offered target i |
| Crossing.NodesToConnect | src/crossing_utils.py:25-26 | one candidate list per source row, each the windowed argsort of that row |
| Crossing.TakeCount | src/crossing_utils.py:42 | the `j < max_connections` filter keeps min(max_connections, #candidates) entries, and fewer than all only when the cap is reached |
| Crossing.UnconstrainedEdgesShape | src/crossing_utils.py:42-43 | plain mode yields exactly the pairs (i, candidate j of i) with j below the cap, and the output is ordered by source index |
| Crossing.AcceptedProps | src/crossing_utils.py:30-39 | under the component rule a source's accepted targets are a subsequence of its candidates; there are at most `max_connections` of them; their components are pairwise distinct; every rejected candidate's component was already accepted or the cap was reached |
| Crossing.NearestFreshFirst | src/crossing_utils.py:33-37 | a candidate is accepted only when its component is new, and every earlier candidate's component is already taken: the accepted target is the nearest one with a fresh component |
| Crossing.AcceptedPrefix | src/crossing_utils.py:30-39 | the rule is greedy: what a prefix of the candidates accepts is a prefix of what the whole list accepts |
| Crossing.NearestAlwaysAccepted | src/crossing_utils.py:30-39 | the restricted list starts empty, so with a positive cap the nearest candidate is always accepted, even when it shares the source's component |
| Crossing.ConnectSource | src/crossing_utils.py:169-179 | one source's loop appends the pairs (source, accepted target) and the matching source-to-target geometries, one-to-one |
| Crossing.GetConnections | src/crossing_utils.py:155-185 | returns the plain or the component-rule edges as the flag says, and each index pair's geometry joins exactly that source and target |
| Crossing.GetCrossingEdges | src/crossing_utils.py:16-46 | the geometries are those of the plain or component-rule edges, in order |
| Crossing.OfferStep | src/crossing_utils.py:76-98 | one offer keeps the table well formed and either changes neither count nor restricted list, or appends the target's component and adds one to the count |
| Crossing.OfferStepOutcome | src/crossing_utils.py:79-98 | a restricted component or a full count skips the target; a known target whose stored edge is not strictly longer changes nothing, not even the count; otherwise the edge is stored, the count rises and the component is restricted |
| Crossing.ScanSource | src/crossing_utils.py:67-98 | after one source's scan its component has an entry, the restricted list starts with the source's own component, and the count stays within `max_connections` |
| Crossing.OfferStepInv | src/crossing_utils.py:86-98 | an offer keeps the invariant: no entry targets the source's own component, every entry is an offer made so far, and every offer is matched by an entry no longer than it |
| Crossing.ScanSourceInv | src/crossing_utils.py:69-98 | the same invariant survives a whole source scan |
| Crossing.BuildTableShortest | src/crossing_utils.py:66-98 | the finished table holds, per (source component, target), the shortest centroid edge offered, and never a target in the source's own component |
| Crossing.OfferTargets | src/crossing_utils.py:76-98 | the inner loop over a source's candidates computes the scan function |
| Crossing.BuildEdgesDict | src/crossing_utils.py:66-98 | the outer loop over sources builds the table function |
| Crossing.InnerEdges | src/crossing_utils.py:103 | one edge per key of an inner table, in key-insertion order |
| Crossing.FlattenMembers | src/crossing_utils.py:103 | an edge is in the flattened list iff some (component, target) entry stores it |
| Crossing.NUniqueBool | src/crossing_utils.py:104 | `nunique() > 1` on boolean flags holds iff both True and False occur |
| Crossing.CrossingRoadExactly | src/crossing_utils.py:103-104 | the road filter keeps, in order, exactly the edges whose intersection flags contain both True and False |
| Crossing.GetCrossingEdgesFromCurbHeights | src/crossing_utils.py:54-108 | the result is the road-filtered flattening of the best-edge table built from the strict `min_dist < d < max_dist` window |
| Crossing.SpLength | src/crossing_utils.py:127-135 | a failed shortest-path query counts as length 1000 |
| Crossing.ConnectCurbCrossingEdge | src/crossing_utils.py:111-147 | nothing is returned unless there are exactly two plain edges. Otherwise the result is empty when the path length is ≤ 20; with `network_to_network` it is the single target-to-target edge; without it, it is the two source-to-target edges plus the source0-source1 edge, or an index error when there are fewer than two sources |
| Crossing.DisconnectedEndsJoined | src/crossing_utils.py:125-146 | two ends whose targets have no path between them are always joined |
| RouteWeight.RouteWidthByBucket | src/poly_utils.py:243-275 | a weight in bucket k (each bucket 100 times the previous, the first (0, 100)) decodes to the k-th configured width; 0, negative and above-10^14 weights decode to NaN; exactly 10^14 decodes to 0 |
| RouteWeight.BucketUnique | src/poly_utils.py:253-271 | every weight in (0, 10^14) lies in exactly one bucket |
| RouteWeight.PowTable | src/poly_utils.py:255-271 | the literal bounds of the if-chain are the powers 100^1 ... 100^7 |
| RouteWeight.RouteWidthAntitone | src/poly_utils.py:253-273 | with widths configured widest first, a larger weight never decodes to a wider path |
| Geometry.PointAtDistances | src/poly_utils.py:320 | the interpolated point lies at the requested arc distance from the previous vertex and at the rest of the step from the next one |
| Geometry.PointAtVertex | src/poly_utils.py:316-318 | interpolating at a vertex's own arc length gives that vertex |
| PolyUtils.Cut | src/poly_utils.py:301-323 | a distance ≤ 0 or ≥ the length gives the line unchanged; otherwise the scan returns exactly the two cut pieces |
| PolyUtils.CutPiecesSplit | src/poly_utils.py:314-323 | for 0 < d < length the two pieces are valid lines of lengths d and length − d that meet at the point at distance d and together give back the original vertices |
| PolyUtils.CutAtVertex | src/poly_utils.py:317-318 | when vertex i projects exactly onto d, the pieces are `coords[:i+1]` and `coords[i:]`, sharing vertex i |
| PolyUtils.CutInside | src/poly_utils.py:319-323 | otherwise, with i the first vertex projecting beyond d, the pieces are `coords[:i] + [cp]` and `[cp] + coords[i:]` |
| PolyUtils.IdxMax | src/poly_utils.py:339 | `idxmax` picks the first row of maximal length |
| PolyUtils.PieceRows | src/poly_utils.py:342-344 | every cut piece becomes a row carrying its own length and the parent's `cl_id` |
| PolyUtils.StepShape | src/poly_utils.py:339-346 | one iteration drops the longest row and appends its two pieces, of lengths `max_ls_length − 0.01` and the rest, both with the parent's `cl_id` |
| PolyUtils.StepDecreases | src/poly_utils.py:338-346 | when `max_ls_length` > 0.01, every iteration lowers a natural-number measure of the excess length, so the loop ends |
| PolyUtils.StepKeepsClLength | src/poly_utils.py:341-346 | an iteration keeps the total length of every `cl_id` |
| PolyUtils.ShortenLinestrings | src/poly_utils.py:326-347 | the while loop computes the repeated longest-first re-cutting |
| PolyUtils.ShortenedProps | src/poly_utils.py:338-347 | on exit every row is at most `max_ls_length` long, each `cl_id` keeps its total length, and every `cl_id` comes from the input |
| PolyUtils.StepStalls | src/poly_utils.py:314-315 | when `max_ls_length − 0.01` is not positive, `cut` hands the longest row back whole, so a pass only moves it to the end of the frame |
| PolyUtils.LoopNeverExits | src/poly_utils.py:338-346 | with `max_ls_length` ≤ 0.01 and some row longer than it, the loop condition still holds after any number of passes: the loop never ends |
| PolyUtils.LinestringToSegments | src/poly_utils.py:102-115 | n vertices give n − 1 two-point segments `[coords[i], coords[i+1]]`, in order |
| PolyUtils.SegmentsCoverLine | src/poly_utils.py:102-115 | consecutive segments share endpoints, run from the first to the last vertex, and their lengths sum to the line's length |
| PolyUtils.GetSegments | src/poly_utils.py:118-134 | a LineString gives its segments, a MultiLineString the concatenation per part in part order, and anything else nothing |
| PolyUtils.SeveralSamplesNeedPositiveResolution | src/poly_utils.py:148-154 | a count `round(length/resolution) + 1` of two or more needs a positive resolution and a positive length |
| PolyUtils.InterpolateByDistance | src/poly_utils.py:137-155 | a zero resolution fails (the division by zero of `length / resolution`), and only it; otherwise the loop yields the sample function: only the midpoint when the count is 1, else the points at `resolution · i` for i below the count |
| PolyUtils.SamplesCoverLine | src/poly_utils.py:148-155 | with a positive resolution there is at least one sample; when there are several, the first is the start vertex and the last lies within half a resolution of the end |
| PolyUtils.Interpolate | src/poly_utils.py:158-175 | a LineString's samples, the per-part concatenation for a MultiLineString, and nothing (`None`) for other types; a zero resolution raises a division by zero for a LineString and for a MultiLineString with a part, while a MultiLineString without parts gives no points |
| PolyUtils.PartsSamplesAtLeastOnePerPart | src/poly_utils.py:169-172 | with a positive resolution a multi-part line yields at least one sample per part |
| PolyUtils.BoundaryRings | src/poly_utils.py:178-188 | the rings are the exterior followed by the interiors, in order |
| PolyUtils.SampleDistances | src/poly_utils.py:205-209 | one nearest-boundary distance per sample point, in order |
| PolyUtils.WidthsOfProps | src/poly_utils.py:210-215 | there is no width pair iff there are no distances (the division by zero); otherwise min = 2·min(d) is attained, bounds every 2·d, and is at most avg = 2·mean(d), also after rounding |
| PolyUtils.GetAvgWidth | src/poly_utils.py:191-215 | one (avg, min) pair per segment, in segment order; it fails iff some segment divides by zero, that is, the resolution is zero or the segment has no samples; it never fails for a positive resolution, and no segments give two empty arrays |
| PolyUtils.GetAvgWidthCl | src/poly_utils.py:218-240 | for a non-zero resolution, the widths of the samples of a LineString or MultiLineString; a zero resolution and other types fail |
| PolyUtils.RemoveShortLines | src/poly_utils.py:73-99 | a MultiLineString keeps the pieces the pruning rule keeps, a LineString is returned unchanged, other types give `None` |
| PolyUtils.PrunedPieces | src/poly_utils.py:84-97 | a piece is dropped iff it is a dead end (either endpoint disjoint from the other pieces) of length ≤ `min_se_length`; kept pieces keep their order |
| PolyUtils.RemoveInteriors | src/poly_utils.py:350-366 | the exterior is kept and the interiors whose area exceeds `eps` are selected by the loop |
| PolyUtils.RemovedInteriors | src/poly_utils.py:361-366 | the kept interiors are a subsequence of the input, exactly those with area > `eps` |
| PolyUtils.ReverseLine | src/poly_utils.py:437-447 | the reversed line has the vertices in reverse order, is valid, and has the same length |
| PolyUtils.ReverseLineInvolution | src/poly_utils.py:437-447 | reversing twice gives the line back |
| PolyUtils.DistUnique | src/poly_utils.py:421-434 | the Euclidean distance is the single non-negative root of the squared coordinate differences, and it is symmetric |
| PolyUtils.BboxToPolygon | src/poly_utils.py:388-398 | the polygon's four corners are lo, (lo.x, hi.y), hi and (hi.x, lo.y), with no holes; for lo ≤ hi it is the axis-aligned box |
| PolyUtils.CreateDfCenterlines | src/poly_utils.py:278-298 | one record per LineString or per part, with its length and no route weight; nothing for other types |
| PolyUtils.BitNot | src/poly_utils.py:29 | `~` on a Python bool gives -1 or -2, never 0 |
| PolyUtils.FixInvalidAsWrittenAlwaysBuffers | src/poly_utils.py:28-33 | as written, every input is buffered, valid or not |
| PolyUtils.FixInvalidAsWrittenChangesValidShape | src/poly_utils.py:29-30 | a valid triangle is replaced by whatever the buffer returns |
| PolyUtils.FixInvalid | src/poly_utils.py:18-33 | a valid shape is returned as is; an invalid one is buffered, and a multipolygon that buffers to one polygon is wrapped back into a multipolygon |
| Curb.InAnyExists | src/curb_utils.py:30-33 | OR-ing the clip masks of all polygons marks a point iff some polygon contains it |
| Curb.GroundOrRoadIds | src/curb_utils.py:27-28 | the mask ids are exactly the ground and road points, ascending |
| Curb.ClipMasks | src/curb_utils.py:30-33 | entry j of the road mask says whether the j-th ground/road point lies in some polygon |
| Curb.CreateMask | src/curb_utils.py:12-37 | the mask has one entry per point, true iff the label is ground or road and the point lies in at least one polygon |
| Curb.InsertSorted | src/curb_utils.py:63 | inserting into a sorted list keeps it sorted |
| Curb.SortedOfSorts | src/curb_utils.py:63 | the reference sort is sorted and a permutation of its input |
| Curb.SortedUnique | src/curb_utils.py:63 | two sorted permutations of the same values are equal, so any sort gives the reference order |
| Curb.InsertDown | src/curb_utils.py:63 | one insertion pass extends the sorted prefix by one and permutes the array |
| Curb.SortInPlace | src/curb_utils.py:63 | the in-place sort leaves the array sorted and a permutation of its old contents |
| Curb.Median | src/curb_utils.py:64 | on a sorted list the median lies between the first and last value, and for an odd count it is one of the values |
| Curb.MedianOf | src/curb_utils.py:63-64 | the median of the sorted values lies between the smallest and the largest of them |
| Curb.MedianRank | src/curb_utils.py:63-64 | the median splits the values: in their sorted permutation the first ⌈n/2⌉ are at most it and the last ⌈n/2⌉ at least it |
| Curb.MedianSplits | src/curb_utils.py:64 | on a sorted list `statistics.median` is at least every value of the lower half and at most every value of the upper half |
| Curb.LabelledZ | src/curb_utils.py:56-60 | the z values kept are those of the masked points with the wanted label, in point order |
| Curb.SideHeight | src/curb_utils.py:60-66 | a side is usable iff it has strictly more than `min_nr_points` values, and its height is then their median |
| Curb.CalculateCurbHeight | src/curb_utils.py:40-79 | points are available iff both road and ground have strictly more than `min_nr_points` values; the height is then median(ground z) − median(road z), and otherwise absent (NaN) |
| Curb.GetHeightColor | src/curb_utils.py:82-102 | black iff points are not available; green iff they are and the height is below `min_h`; orange otherwise |
| Curb.GreenDownwardClosed | src/curb_utils.py:97-100 | a curb lower than a green one is green too |
| Curb.SampleDistances | src/curb_utils.py:116 | `arange(0, length, δ)`: the distances i·δ; a zero δ fails; a negative δ gives none |
| Curb.SampleDistancesExactly | src/curb_utils.py:116 | for δ > 0 every distance lies in [0, length) and together they reach the end: count·δ ≥ length |
| Curb.PointsOnLine | src/curb_utils.py:116-119 | one interpolated point per sample distance; the extra appended element is dropped again |
| Area.RemoveChar | notebooks/functions.py:28-30 | after a replace the character is gone and every other character is kept |
| Area.RemoveCharAppend | notebooks/functions.py:28-30 | removal distributes over concatenation |
| Area.Clean | notebooks/functions.py:28-30 | the cleaned string has no `[`, `]` or space, and keeps every other character |
| Area.CleanStr | notebooks/functions.py:27-30 | cleaning the stringified nested list gives the leaf numbers joined by commas |
| Area.Split | notebooks/functions.py:33 | `split(',')` always yields at least one piece |
| Area.JoinSplit | notebooks/functions.py:33 | joining the pieces with the separator restores the string |
| Area.SplitJoin | notebooks/functions.py:33 | splitting a join of separator-free tokens gives the tokens back |
| Area.EveryOther | notebooks/functions.py:34-35 | `x[::2]` has ⌈n/2⌉ entries, the k-th being `x[2k]`; applied to `x[1:]` it gives the ⌊n/2⌋ odd positions |
| Area.Zip | notebooks/functions.py:36 | `zip` stops at the shorter list and pairs entries position by position |
| Area.ParseAll | notebooks/functions.py:34-35 | the float conversion fails iff some token does not parse; otherwise it gives each token's value, in order |
| Area.Tokens | notebooks/functions.py:27-33 | the tokens of a geometry are non-empty and comma-free |
| Area.TokensAreLeaves | notebooks/functions.py:27-33 | for a well-nested coordinate list the tokens are exactly its leaf numbers, in order |
| Area.RingsConcatenated | notebooks/functions.py:27-36 | nesting is erased: two rings give one token list, the first ring's numbers followed by the second's |
| Area.RowVertices | notebooks/functions.py:33-36 | vertex k is (token 2k, token 2k+1), giving ⌊n/2⌋ vertices; an unpaired last token is dropped |
| Area.CreateAreaRow | notebooks/functions.py:23-43 | a row keeps `naam` and `code` and gets the parsed geometry, whose shell has no vertex or at least three |
| Area.CreateAreaRowOutcome | notebooks/functions.py:33-36 | a row converts iff every token parses as a float and the token count is not 2 to 5, the counts that pair into one or two vertices, which `Polygon` rejects |
| Area.CreateAreaGdf | notebooks/functions.py:16-45 | the frame is built iff every row converts (its tokens parse and its shell is not one or two vertices), with one output row per input row, in order |

## Left out

- Euclidean square roots are not computed: a polyline stores its cumulative lengths, and `ValidLine` ties each step to the squared distance of its endpoints. Floats are reals throughout. `np.round`/`round` is a half-to-even rounding of reals, and float32 parsing is an oracle.
- Library geometry and graph calls are oracles, not re-implementations. These are:
  - the `Centerline` construction behind `get_centerlines`;
  - `buffer(0)` and `is_valid`;
  - `so.nearest_points` (the boundary distance);
  - `clip_utils.poly_clip` (one containment test per point);
  - `disjoint`, `Polygon.area` and `GeoDataFrame.intersects`;
  - `networkx.shortest_path_length`;
  - `scipy.spatial.distance.cdist` and `np.argsort` (given as a matrix and its row orders).
- `get_centerlines`, `extract_interior`, `create_mls_per_sidewalk`, `split_line_by_point` and `infer_column_by_distance` are not part of this model. They are thin wrappers around the library calls above (centerline construction, snapping and splitting, k-d tree lookup) with no logic of their own to state.
- WFS scraping (`scrape_amsterdam_bgt`, `get_bgt_data_for_bbox`) and `read_las` are network and file I/O and are left out. So are the configuration modules; the `width_*` and `min_path_width` settings are the `WidthTable` parameter.
- DataFrame plumbing, CRS handling, `tqdm` progress bars and `print` output are left out. Frames are sequences of records; the successive column assignments of `create_area_gdf` are per-row pure functions.
- Curb.CalculateCurbHeight: `min_nr_points` is a natural number, so the case of a negative threshold with no points, where `statistics.median` raises, is not modelled.
- Curb.CalculateCurbHeight: the NaN of an unavailable height is `None`; NaN arithmetic is not modelled.
- PolyUtils.Interpolate: shapely's `MultiPoint` wrapper is a plain sequence of points.
- PolyUtils.ShortenLinestrings: the model of the loop requires `max_ls_length` > 0.01. For a smaller value with a row longer than it the loop of src/poly_utils.py:338-346 never ends, which a terminating method cannot return from; `PolyUtils.LoopNeverExits` states that non-termination instead. The same bound applies to `PolyUtils.Shortened` and `PolyUtils.ShortenedProps`.
- Area.CreateAreaRow: the geometry is the vertex list as parsed. Shapely's closing of an open ring (appending the first vertex) is not represented. Neither is the rejection of a three-vertex list whose first and last vertices coincide, which differs between shapely versions.
- PolyUtils.RemoveInteriors: shapely's validation when the new `Polygon` is constructed (ring length, orientation) is not modelled; rings are vertex sequences.
- Crossing.ConnectCurbCrossingEdge: the exception raised for fewer than two sources is a distinct `IndexError` outcome rather than a propagated exception.
- Lines are assumed to have at least two vertices and non-negative steps (`ValidLine`); shapely rejects shorter ones on construction.

## Findings

| source | as written | input that shows it | evidently intended | confidence | as-written member | corrected member |
|---|---|---|---|---|---|---|
| src/poly_utils.py:29 | `if ~poly.is_valid:` applies bitwise not to a Python bool, giving -1 or -2, both truthy, so every polygon is buffered | the valid triangle (0,0), (1,0), (0,1) with a `buffer(0)` that returns any other shape: the result is that other shape | buffer only invalid polygons (`not poly.is_valid`) | not executed | PolyUtils.FixInvalidAsWrittenChangesValidShape | PolyUtils.FixInvalid |
