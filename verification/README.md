# Text-line extraction after dhSegment's cBAD baseline detector

dhSegment's cBAD experiment turns a per-pixel line-probability map into
baselines, one polyline per text line. This project models the core of that
step, `exps/cBAD/cbad_post_processing.py`, and proves properties of the model.

1. **Hysteresis thresholding.** `hysteresis_thresholding` keeps every pixel
   strictly above the low threshold whose 8-connected component of such
   pixels holds a pixel strictly above the high threshold. An optional
   candidate mask restricts the low mask.
2. **Endpoint detection and selection.** This is the first half of
   `extract_line_polygons`:
   - the candidates are the set pixels of the skeleton whose 3x3 window sum is 2;
   - they are grouped by the connected component they belong to;
   - each group contributes the farthest-apart pair of its candidates.
3. **Connection bookkeeping.** `MakeLineMCP.create_connection` keeps, for
   each unordered pair of endpoint indices, the cheapest meeting offered by
   the minimum-cost-path search. A diagnostic then checks that the endpoint
   indices of the stored pairs are exactly `0 .. N-1`.
4. **Polyline assembly.** `get_connections` concatenates the two
   tracebacks (the second reversed) and keeps every fifth point. The final
   flip turns (row, col) pixels into OpenCV (x, y) points.
5. **Edge filter.** `line_extraction_v1` drops contours whose mean x lies
   within `filter_width` times the page width of the left or right edge.

Files, in dependency order:
- `wrappers.dfy`: `Option`, `Result`.
- `grids.dfy`: pixels, rectangular grids, 8-adjacency.
- `seqs.dfy`: sequence helpers.
- `connectivity.dfy`: paths, connected components, flood fill and labelling.
- `hysteresis.dfy`: item 1.
- `grouping.dfy`: `defaultdict(list)` with insertion-ordered iteration.
- `endpoints.dfy`: item 2.
- `connections.dfy`: item 3.
- `polylines.dfy`: item 4.
- `edgefilter.dfy`: item 5.
- `extraction.dfy`: the entry points `extract_line_polygons` and
  `line_extraction_v1`.

Modelling choices:
- Masks are grids of booleans. Inside proofs they are sets of pixels.
- A connected-component label is the component itself, as a set of pixels.
  skimage's label numbers matter only through equality, and the grouping
  dictionary is ordered by first insertion. So the numbers never affect the
  output.
- The distance matrix of `euclidean_distances` is replaced by squared
  integer distances. They order pairs the same way, so the argmax is the same.
- The two dictionaries `connections` and `scores` become one map from key
  to `(pos1, pos2, score)`, plus the insertion order of the keys. A missing
  key stands for the default score of infinity.
- The minimum-cost-path search (`MCP_Connect.find_costs` over the cost
  image `~lines_mask`) is a parameter, `search`, supplied together with the
  skeleton to `ExtractLinePolygons`, so it may depend on that skeleton.
  Given the endpoint list, it returns the sequence of `create_connection`
  calls it makes. `traceback` is a parameter too. The
  model states what the bookkeeping, the assembly and the diagnostic make
  of any such call sequence.
- Smoothing happens before the modelled part: `LineExtraction` receives the
  smoothed map. Skeletonization is a parameter `skeletonize`, assumed to
  return a well-formed mask of its input's shape.

Three behaviours of the code are easy to misread:
- A component with a single endpoint candidate is not skipped. Its
  one-by-one distance matrix has argmax `(0, 0)`, so the same pixel is
  appended twice (`FarthestPairOrdered`).
- The consistency warning is not "some endpoint index is never used". It
  fires unless the sorted indices of the stored keys equal `arange(N)`, that
  is, unless every index below `N` occurs exactly once (`DiagnosticIff`).
- A mask that is non-empty but has no endpoint candidate (a closed loop, for
  instance) is not an empty result. `np.stack` of an empty list raises. The
  model returns `Failure(NoEndpoints)`.

## Model

| member | source | states |
|---|---|---|
| Connectivity.Flood | exps/cBAD/cbad_post_processing.py:171 | the grown set contains the seeds, stays inside the mask, is closed under 8-adjacency inside the mask, and is exactly the set of pixels reachable from a seed by an 8-connected path inside the mask |
| Connectivity.Label | exps/cBAD/cbad_post_processing.py:138 | the label of a set pixel is its 8-connected component inside the mask, and the pixel belongs to it |
| Connectivity.SameLabelIffConnected | exps/cBAD/cbad_post_processing.py:138 | two set pixels get the same label iff an 8-connected path inside the mask joins them |
| Connectivity.ReachesFromOneSeed | exps/cBAD/cbad_post_processing.py:171-176 | a pixel is reachable from the seed set iff it shares a component with one seed |
| Connectivity.ReachesMonotone | exps/cBAD/cbad_post_processing.py:171 | growing the mask or the seed set never loses a reachable pixel |
| Hysteresis.LowMask | exps/cBAD/cbad_post_processing.py:167-169 | a pixel is in the low mask iff it lies in the grid, is strictly above the low threshold, and is a candidate when a candidate mask is given |
| Hysteresis.Threshold | exps/cBAD/cbad_post_processing.py:166-176 | fails iff the candidate mask has another shape; otherwise returns `HysteresisMask`, the mask of the map's shape where a pixel is set iff it is in the low mask and its component there holds a pixel strictly above the high threshold; the output lies inside the low mask, keeps every low-mask pixel above the high threshold, and keeps components whole |
| Hysteresis.Seeds | exps/cBAD/cbad_post_processing.py:173 | the pixels of `low_mask & (probs > high_threshold)`, a subset of the low mask |
| Hysteresis.SeedIsKept | exps/cBAD/cbad_post_processing.py:173-176 | a low-mask pixel strictly above the high threshold is always kept |
| Hysteresis.KeptComponentsWhole | exps/cBAD/cbad_post_processing.py:171-176 | a low-mask neighbour of a kept pixel is kept: components are kept or dropped whole |
| Hysteresis.NoSeedKeepsNothing | exps/cBAD/cbad_post_processing.py:173-176 | when no low-mask pixel exceeds the high threshold, no pixel is kept |
| Hysteresis.KeptMonotone | exps/cBAD/cbad_post_processing.py:166-176 | raising the low threshold, the high threshold or both never adds a pixel to the output |
| Endpoints.WindowSum | exps/cBAD/cbad_post_processing.py:137 | `convolve2d(mask, np.ones((3, 3)), mode='same')` at a pixel: the number of set cells in the zero-padded 3x3 window, centre included; `CandidateIffOneNeighbour` relates it to the neighbour count |
| Endpoints.Where | exps/cBAD/cbad_post_processing.py:137 | `np.stack(np.where(b)).T` holds exactly the set pixels of `b`, strictly in row-major order |
| Endpoints.CandidateIffOneNeighbour | exps/cBAD/cbad_post_processing.py:137 | a set pixel has window sum 2 iff exactly one of its eight neighbours is set, with pixels outside the grid counting as clear |
| Endpoints.CandidateMask | exps/cBAD/cbad_post_processing.py:137 | the candidate mask has the skeleton's shape and is set exactly at the candidates |
| Endpoints.Candidates | exps/cBAD/cbad_post_processing.py:137 | the candidate list holds exactly the candidates, strictly increasing in row-major order (so each appears once) |
| Endpoints.RowMajorUnique | exps/cBAD/cbad_post_processing.py:137 | two strictly row-major listings of the same pixels are equal, so the `np.where` listing is determined by the candidate set |
| Endpoints.SegmentEnds | exps/cBAD/cbad_post_processing.py:137 | a mask holding only one straight segment of two or more pixels, horizontal, vertical or diagonal, has exactly its two ends as candidates, in row-major order |
| Endpoints.IsolatedIsNotCandidate | exps/cBAD/cbad_post_processing.py:137 | a set pixel with no set neighbour is never a candidate |
| Grouping.GroupBy | exps/cBAD/cbad_post_processing.py:140-142 | the dictionary keys are the distinct labels in order of first appearance, and each key's list holds the values carrying that label, in input order |
| Grouping.Append | exps/cBAD/cbad_post_processing.py:142 | appends v to the list of k when k already has one, otherwise adds a new last entry (k, [v]); every other entry is unchanged and the entries keep their order |
| Grouping.GroupByCovers | exps/cBAD/cbad_post_processing.py:140-142 | every list is non-empty, and the label of every value has a list |
| Endpoints.GroupsAreComponents | exps/cBAD/cbad_post_processing.py:138-142 | two grouped pixels are in the same list iff they are connected in the skeleton |
| Endpoints.LabelAll | exps/cBAD/cbad_post_processing.py:142 | the label looked up for each candidate is that candidate's component |
| Endpoints.GroupCandidates | exps/cBAD/cbad_post_processing.py:137-142 | the groups are the grouping of the row-major candidates by component; each group is non-empty, duplicate-free and made of candidates; every candidate is in a group; two candidates share a group iff they are connected |
| Endpoints.SqDist | exps/cBAD/cbad_post_processing.py:145 | the squared Euclidean distance between two pixels, which orders pairs as the distance does |
| Endpoints.SqDistZero | exps/cBAD/cbad_post_processing.py:145 | squared distances are non-negative, symmetric, and zero exactly between equal pixels |
| Endpoints.FarthestPair | exps/cBAD/cbad_post_processing.py:145-146 | returns the first pair, in row-major order over the distance matrix, whose distance is the largest |
| Endpoints.FarthestPairUnique | exps/cBAD/cbad_post_processing.py:146 | that pair is unique: the argmax is well defined |
| Endpoints.FarthestPairOrdered | exps/cBAD/cbad_post_processing.py:145-148 | with two or more distinct points the pair is two different points, the earlier one first; a single point is paired with itself |
| Endpoints.SelectEndpoints | exps/cBAD/cbad_post_processing.py:143-149 | the endpoint list has two entries per group, and entries 2g and 2g+1 are the farthest pair of group g |
| Connections.KeyOf | exps/cBAD/cbad_post_processing.py:115 | the key holds the same two indices, the smaller first |
| Connections.CreateConnection | exps/cBAD/cbad_post_processing.py:114-119 | the key is present afterwards with a score no larger than the offer's or the old score; the stored value is the offer or the old value; an offer that is not strictly cheaper changes nothing; other keys are untouched; a key is appended to the order only when new |
| Connections.Replay | exps/cBAD/cbad_post_processing.py:114-119 | the state after a sequence of `create_connection` calls from the empty dictionaries; it stays consistent (keys distinct, order and map agree) |
| Connections.ReplayHasKey | exps/cBAD/cbad_post_processing.py:114-119 | after any sequence of calls a key is stored iff some call named it |
| Connections.ReplayKeepsFirstMinimum | exps/cBAD/cbad_post_processing.py:114-119 | after any sequence of calls each stored key holds the first of the cheapest offers made for it |
| Connections.ReplayOrder | exps/cBAD/cbad_post_processing.py:118 | keys are ordered by the first call that named them |
| Connections.Indices | exps/cBAD/cbad_post_processing.py:154 | the index list holds, for key i, its smaller index at 2i and its larger at 2i+1 |
| Seqs.Sort | exps/cBAD/cbad_post_processing.py:154 | `sorted` returns a sorted permutation of its input |
| Seqs.SortedUnique | exps/cBAD/cbad_post_processing.py:154 | two sorted sequences with the same multiset of elements are equal |
| Seqs.RangeCounts | exps/cBAD/cbad_post_processing.py:154 | `arange(n)` holds each index below n exactly once and nothing else |
| Seqs.Range | exps/cBAD/cbad_post_processing.py:154 | `np.arange(n)`: n entries, entry i being i |
| Connections.DiagnosticFires | exps/cBAD/cbad_post_processing.py:154 | the warning condition: the sorted endpoint indices of the stored keys differ from `arange(N)` |
| Connections.DiagnosticIff | exps/cBAD/cbad_post_processing.py:154-155 | the warning stays silent iff every endpoint index below N occurs exactly once among the stored keys and no other index occurs |
| Polylines.Subsample | exps/cBAD/cbad_post_processing.py:125 | `s[::k]`: empty iff `s` is empty; its elements are given by `SubsampleAt` |
| Polylines.SubsampleAt | exps/cBAD/cbad_post_processing.py:125 | element i of `s[::k]` is element k*i of `s` |
| Polylines.SubsampleBounds | exps/cBAD/cbad_post_processing.py:125 | `s[::k]` has ceil(\|s\| / k) elements |
| Polylines.SubsampleLength | exps/cBAD/cbad_post_processing.py:121-125 | at the default stride of 5 the length is (\|s\| + 4) / 5 |
| Polylines.SubsampleIsSubseq | exps/cBAD/cbad_post_processing.py:125 | `s[::k]` is a subsequence of `s` |
| Polylines.SubsampleKeepsFirst | exps/cBAD/cbad_post_processing.py:125 | a non-empty path keeps its first point |
| Polylines.SubsampleExample | exps/cBAD/cbad_post_processing.py:121-125 | a 23-point path keeps the points at indices 0, 5, 10, 15 and 20 |
| Seqs.Reverse | exps/cBAD/cbad_post_processing.py:124 | `s[::-1]`: same length, and element i is element \|s\|-1-i of `s` |
| Polylines.AssemblePath | exps/cBAD/cbad_post_processing.py:124 | the path is the first traceback followed by the second reversed: its length is the sum and its index i past the first part is the second traceback's element counted from the end |
| Polylines.AssembleIsPath | exps/cBAD/cbad_post_processing.py:124 | two 8-connected traceback paths inside a pixel set, ending at neighbouring meeting pixels, assemble into one 8-connected path inside that set from the first front's start to the second front's start |
| Polylines.Flip | exps/cBAD/cbad_post_processing.py:156 | `[::-1]` on one point: x is the column and y the row |
| Polylines.FlipRoundTrip | exps/cBAD/cbad_post_processing.py:156 | flipping (row, col) to (x, y) and back is the identity, both ways |
| Polylines.ContourOf | exps/cBAD/cbad_post_processing.py:124-125 | the contour has ceil(\|path\| / 5) points, and point i is path pixel 5i, flipped |
| Polylines.Contours | exps/cBAD/cbad_post_processing.py:121-126 | one contour per stored key, in key insertion order, built from that key's meeting pixels |
| Polylines.ContourStartsAtFirstFront | exps/cBAD/cbad_post_processing.py:124-125 | each contour starts at the first pixel of the first traceback |
| EdgeFilter.FilterContours | exps/cBAD/cbad_post_processing.py:66-74 | the kept contours are a subsequence of the input; none of them is dropped; every contour that is not dropped is kept, as many times as it occurs in the input |
| EdgeFilter.CentroidX | exps/cBAD/cbad_post_processing.py:69 | the mean x of a non-empty contour: times the number of points it gives the sum of the x values |
| EdgeFilter.Dropped | exps/cBAD/cbad_post_processing.py:69-70 | a non-empty contour is dropped iff its mean x is below `filter_width * W` or above `(1 - filter_width) * W`; an empty one (NaN mean) never is |
| EdgeFilter.KeptIffScaledSum | exps/cBAD/cbad_post_processing.py:69-70 | a non-empty contour is kept iff fw·W·n ≤ sum of its x ≤ (1−fw)·W·n |
| EdgeFilter.InsidePageKept | exps/cBAD/cbad_post_processing.py:69-71 | a contour whose points lie within the page width survives a zero margin |
| EdgeFilter.ZeroMarginKeepsAll | exps/cBAD/cbad_post_processing.py:66-74 | with the default margin of 0, contours inside the page all survive, in order |
| EdgeFilter.FilterExample | exps/cBAD/cbad_post_processing.py:66-74 | with a margin of 0.1 on a 100-pixel page, a contour centred at x = 5 is dropped and one centred at x = 50 is kept |
| Extraction.ExtractLinePolygons | exps/cBAD/cbad_post_processing.py:134-156 | an empty skeleton gives no contours; a non-empty one without candidates fails with NoEndpoints; otherwise the endpoints are the farthest pairs of the component groups, the connections are the bookkeeping of the search's calls, there is one contour per stored key, and the warning fires iff some index is not used exactly once |
| Extraction.ExtractedFrom | exps/cBAD/cbad_post_processing.py:137-156 | the endpoint list built from the component groups, replayed and assembled, is what `extract_line_polygons` returns: the chosen endpoints, the bookkeeping, the contours and the warning |
| Extraction.ChosenFrom | exps/cBAD/cbad_post_processing.py:137-149 | endpoints chosen from the component groups are candidates, pair g is the farthest pair of group g, and two endpoints (the two ends of one pair included) are in the same component iff they come from the same pair |
| Extraction.LineExtraction | exps/cBAD/cbad_post_processing.py:50-76 | fails with ShapeMismatch iff the candidate mask has another shape; otherwise fails (with NoEndpoints) iff the skeleton of the hysteresis mask is non-empty and has no endpoint candidate; on success the mask is the hysteresis mask, the polygons are those of its skeleton, and the result is, in order and with multiplicity, exactly the contours the margin filter keeps |

## Left out

- Smoothing (lines 53-56): `cv2.GaussianBlur` and `cv2.fastNlMeansDenoising` are image filters over floating point. `LineExtraction` receives the already smoothed map.
- `skeletonize` (line 106) is a parameter of `LineExtraction`. The only assumption is that it returns a well-formed mask of its input's shape; thinness and connectivity of its output are not assumed.
- The minimum-cost-path search (`MCP_Connect.find_costs`, `traceback`, `goal_reached`, lines 128-132 and 151-152) is a graph search in skimage. It is modelled only through the `create_connection` calls it makes and the paths `traceback` returns. The model therefore does not claim that the connections are minimum-cost paths, or that every pair of fragments gets connected.
- Connections.CreateConnection: an offer of infinite or NaN cost is not modelled. With the default score of infinity, such an offer would not be stored, while the model stores every first offer. The sum `cost1 + cost2` is exact, not a float64 sum, so two offers whose floating-point sums round to the same value are compared by their exact sums: for offers (1.0, 2^-53) and then (1.0, 0.0) on one key, Python keeps the first (both sums are 1.0), while the model stores the second. `ReplayKeepsFirstMinimum` inherits this: its "first least score" is over exact sums.
- Endpoints.FarthestPair: `euclidean_distances` works in floating point and may round. The model compares exact squared distances, so rounding ties between different distances are not modelled.
- Connections.DiagnosticIff: when the number of stored indices differs from `N`, numpy either compares to a single `False` or raises, depending on the version. The model takes the first behaviour: the warning fires.
- Hysteresis.Threshold: numpy broadcasting of a candidate mask of a compatible but different shape is not modelled. Any other shape fails with `ShapeMismatch`.
- EdgeFilter.Dropped: the mean is exact rational arithmetic rather than floating point. The NaN mean of an empty contour is modelled as "kept", since both comparisons are false.
- `cbad_post_processing_fn` (line 31) is outside the core. It is a wrapper around pickling, and it passes `sigma, low_threshold, high_threshold` positionally into parameters that `line_extraction_v1` (line 50) declares as `low_threshold, high_threshold, sigma`. The model's `LineExtraction` follows the declared order.
- `line_extraction_v0` and `line_extraction_v2` are alternative pipelines outside the core. So are `vertical_local_maxima` (the candidate mask is an input here), `upscale_coordinates`, `remove_borders` and the file-name helpers.
- The final `[:, None, ::-1]` reshape adds a singleton axis. The model has no axis: a contour is a sequence of (x, y) points.
