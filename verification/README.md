# pic2func core, modelled in Dafny

pic2func reads a photographed or drawn plot and turns it back into data.
The user draws the axes in black, marks and labels ticks in green, and
draws the curve in red. The pipeline then does the following:

1. It splits the picture into binary channel masks.
2. It finds the two axes as the longest straight runs of black.
3. It finds the tick marks as runs of green on those axes.
4. It flood-fills the tick marks away.
5. It harvests the remaining green glyphs, one connected component at a time.
6. It groups each glyph with its nearest tick.
7. It orders each tick's glyphs and squares them up for a digit classifier.
8. It reads every tick's value off its digits.
9. It collapses the red curve to one point per pixel row.
10. It maps that function through the scale and shift fixed by the ticks.

This project models that core, from the mask extraction to the final
`(x, y)` samples, and proves what each stage delivers. The modules are:

- `Base`: masks, pixels, the error taxonomy, `Result`, and first-occurrence
  `argmin`/`argmax`.
- `Sorting`: a stable key sort, standing for `sorted` and `argsort`.
- `ImgFuncs`: channel masks and frame conversions (`imgfuncs.py`).
- `Runs`: the zero-padded first-difference run detector that `detect_line`
  and `get_tickmeans` share, with a reference definition of "longest run of
  1s". It proves that starts and stops pair up into exactly the maximal runs.
- `Axes`: `detect_line`, `detect_axes`, `get_tickmeans` and `get_ticks`.
- `FloodFill`: the 8-neighbour fill that `remove_tick` and
  `grow_and_remove_number` both implement. It is proved to remove exactly
  the pixels reachable from the seed.
- `Components`: `remove_ticks`, the harvest loop of `get_tickvals`, and
  `get_IJcurve`.
- `Glyphs`: `obj_edge_dist` and both phases of `group_ticks`, as written and
  as intended.
- `Canvas`: `get_numbers_from_groups`, `sort_digits_in_numbers`,
  `make_square` (as written and as intended) and `reshape_numbers`.
- `Mapping`: `ijcurve_to_ijfunction` (as written and as intended),
  `get_scaleandshift_ijtoxy` and `get_xyfunc`. These work over real
  numbers.
- `Predict`: `predict_tickvalues`, with the digit classifier as a parameter.

Most errors that the source raises (`ValueError`, `AssertionError`,
`IndexError`, `NotImplementedError`) become `Failure` values of `Result`.
Division by zero, which the source turns into `inf`/`nan`, also becomes a
failure. Three kinds of raise are kept as preconditions instead, and "## Left out" names them:
- `detect_line`'s length assertion;
- an empty glyph, where `np.min` or `digit[:,0]` raises;
- a fill that runs off the border.

## Model

| member | source | states |
|---|---|---|
| ImgFuncs.RgbToBw | pic2func/imgfuncs.py:40-56 | same shape as the raster; a pixel is 1 exactly when its RGB mean is below the threshold (alpha ignored) |
| ImgFuncs.ChannelMask | pic2func/imgfuncs.py:75-77 | a pixel is 1 exactly when the chosen channel exceeds the threshold and the RGB mean is below 250 |
| ImgFuncs.RgbToR | pic2func/imgfuncs.py:58-77 | the red mask: red channel above the threshold on a pixel that is not near-white |
| ImgFuncs.RgbToG | pic2func/imgfuncs.py:79-98 | the green mask, likewise for channel 1 |
| ImgFuncs.RgbToB | pic2func/imgfuncs.py:100-118 | the blue mask, likewise for channel 2 |
| ImgFuncs.WhiteIsNoColour | pic2func/imgfuncs.py:59-60 | pure white never registers as red, green or blue, whatever the threshold |
| ImgFuncs.DefaultBlackMaskExcludesOnlyWhite | pic2func/imgfuncs.py:47-53 | at the default threshold 255 the black mask leaves out pure white and nothing else |
| ImgFuncs.GetXyDim | pic2func/imgfuncs.py:120-122 | on a rectangular grid the two dimensions bound exactly the valid pixel indices |
| ImgFuncs.Im2XyFrame | pic2func/imgfuncs.py:124-126 | the result is Width x Height, and cell `(a, b)` is the source cell `(H-1-b, a)` |
| ImgFuncs.Xy2ImFrame | pic2func/imgfuncs.py:128-130 | the result is Width x Height, and cell `(a, b)` is the source cell `(b, W-1-a)` |
| ImgFuncs.ImXyRoundTrip | pic2func/imgfuncs.py:124-130 | converting to the ij frame and back gives the picture again |
| ImgFuncs.XyImRoundTrip | pic2func/imgfuncs.py:124-130 | converting to the image frame and back gives the grid again |
| Base.ArgMax | pic2func/detect.py:117-122 | `np.argmax`: an index of a largest value, the first such |
| Base.ArgMin | pic2func/detect.py:518 | `np.argmin`: an index of a smallest value, the first such |
| Base.MaxOf | pic2func/detect.py:164 | `np.max`: an upper bound of every element that is attained |
| Base.Dedup | pic2func/detect.py:300 | the set step of the fill: no duplicates, the same elements, no longer than the input |
| Sorting.SortByKey | pic2func/function.py:81-83 | a permutation of the input, ordered by the key |
| Sorting.SortTwice | pic2func/detect.py:439-441 | sorting an already sorted list changes nothing, so the source's second sort is a no-op |
| Runs.PadAt | pic2func/detect.py:154 | the padded vector has two more cells, 0 at both borders and `v[x-1]` at `x` |
| Runs.Where | pic2func/detect.py:156-157 | `np.where(d == x)[0]`: exactly the indices holding `x`, strictly ascending |
| Runs.LongestRunIsLongest | pic2func/detect.py:132-145 | the reference longest run bounds every all-ones segment and is attained |
| Runs.LongestRunZero | pic2func/detect.py:158-159 | the longest run is 0 exactly when the vector has no 1 |
| Runs.PadLongestRun | pic2func/detect.py:151-154 | bordering with zeros changes neither the longest run nor the count of trailing 1s |
| Runs.RunPairing | pic2func/detect.py:151-163 | for a vector starting with 0, the starts and stops alternate, bound blocks of 1s, cover every 1, and measure the longest run |
| Runs.PaddedRunTable | pic2func/detect.py:154-163 | after padding, start `k` and stop `k` bound the `k`-th maximal run: as many stops as starts, runs in order, every 1 covered |
| Runs.BorderedRunTable | pic2func/detect.py:217-218 | the same holds for any vector starting and ending with 0, so `len(stopids) == len(startids)` holds |
| Runs.PaddedLongest | pic2func/detect.py:158-165 | after padding, no start means no 1; otherwise the widest start/stop gap is the longest run |
| Axes.DetectLineSpec | pic2func/detect.py:130-165 | no 1 gives `(False, 0)`; otherwise the longest run, flagged exactly when it reaches `L` |
| Axes.Candidates | pic2func/detect.py:102-111 | the detected lines with their lengths: each one detected, in line order, none missed |
| Axes.FirstLongestPicked | pic2func/detect.py:116-122 | argmax over the candidate lengths selects a detected line that no other beats, and every earlier one is shorter |
| Axes.LongestLine | pic2func/detect.py:116-122 | the default when nothing is detected, otherwise the first of the longest detected lines |
| Axes.ScanSpec | pic2func/detect.py:102-111 | a line is detected exactly when it has a 1 and its longest run reaches the minimum, and then its length is that run |
| Axes.PickedLineSpec | pic2func/detect.py:102-122 | the picked line is the default when no line qualifies, otherwise the first line with the longest qualifying run |
| Axes.DetectAxesSpec | pic2func/detect.py:84-128 | the I-axis is the first column with the longest qualifying run, else `NI`; the J-axis is the first such row, else 0 |
| Axes.GetTickMeansSpec | pic2func/detect.py:195-224 | on a padded line it never fails; no 1 gives the `([0],[0])` pair; otherwise one tick per maximal run, increasing, each on a 1 |
| Axes.TickMeansOutcome | pic2func/detect.py:210-218 | on a padded line neither error branch is taken, and the ticks are those of the run table |
| Axes.TableTickMeans | pic2func/detect.py:210-224 | when starts and stops pair up, the result is the no-tick pair exactly when there is no start, and otherwise the midpoints |
| Axes.TickMeansMarkRuns | pic2func/detect.py:219-224 | the ticks mark the maximal runs one each, in increasing order, each on a 1 of the line |
| Axes.TableTicksAreMidpoints | pic2func/detect.py:221-223 | every tick is `start + int(len/2)` of some maximal run and lies on a 1 |
| Axes.TableTicksCoverRuns | pic2func/detect.py:219-224 | every maximal run gets its midpoint among the ticks |
| Axes.TableTicksIncrease | pic2func/detect.py:219-224 | the ticks strictly increase |
| Axes.PyIndex | pic2func/detect.py:189-190 | Python indexing of an axis: defined exactly for `-n <= i < n`, counting negatives from the end |
| Axes.GetTicks | pic2func/detect.py:186-193 | fails exactly when an axis index is out of range; each axis reports no ticks exactly when its line has no 1, otherwise ticks marking its runs |
| FloodFill.Neighbours | pic2func/detect.py:295-296 | the eight probed pixels are exactly the king-move neighbours |
| FloodFill.Clear | pic2func/detect.py:289 | `pic[p] = 0` clears `p` and nothing else |
| FloodFill.ClearAll | pic2func/detect.py:288-290 | clearing a layer clears exactly its pixels |
| FloodFill.SetAmong | pic2func/detect.py:297-299 | the probed candidates that are set, and only those |
| FloodFill.Probe | pic2func/detect.py:291-299 | `new_ones` holds exactly the set pixels adjacent to the layer |
| FloodFill.Round | pic2func/detect.py:288-300 | one loop iteration clears the layer; the next layer is duplicate-free, interior, and exactly the still-set neighbours |
| FloodFill.RoundShrinks | pic2func/detect.py:287-303 | every iteration decreases the count of set and pending pixels, so the loop ends |
| FloodFill.Grow | pic2func/detect.py:287-304 | the loop records `acc` and then the layer, and clears exactly what it records after `acc` |
| FloodFill.FillStep | pic2func/detect.py:288-300 | one iteration keeps the fill invariant: recorded pixels are reachable and distinct, and their set neighbours are pending |
| FloodFill.FillStops | pic2func/detect.py:301-302 | when no new pixel appears, the recorded pixels are exactly those the seed reaches |
| FloodFill.GrowSpec | pic2func/detect.py:283-304 | from the invariant, the finished loop has recorded and cleared exactly the reachable pixels |
| FloodFill.Fill | pic2func/detect.py:283-304 | the seed first, then each pixel the seed reaches through set pixels, once; exactly those are cleared |
| FloodFill.RemoveTick | pic2func/detect.py:262-304 | remove_tick(pic, J, I) is the fill seeded at `(I, J)` |
| FloodFill.GrowAndRemoveNumber | pic2func/detect.py:446-488 | grow_and_remove_number is the fill seeded at `startone` |
| Components.ReachesAfterFill | pic2func/detect.py:254-259 | a later fill from another seed reaches, outside the earlier fill, exactly what it reached in the original mask |
| Components.FillAll | pic2func/detect.py:253-260 | one duplicate-free record per seed, starting at it; a pixel is in record `k` exactly when seed `k` reaches it and no earlier seed does; exactly the pixels some seed reaches are cleared |
| Components.RemoveTicks | pic2func/detect.py:226-260 | remove_ticks clears exactly the green pixels connected to a tick seed; record `k` is duplicate-free and holds exactly what tick `k` reaches and no earlier tick swept |
| Components.FirstOn | pic2func/detect.py:326-328 | `ones_left[.][0]`: absent exactly when no pixel is set, otherwise the row-major least set pixel |
| Components.Harvest | pic2func/detect.py:325-331 | the harvest is the list of 8-connected components: non-empty, distinct, complete, disjoint, each exactly what its first pixel reaches, in row-major order |
| Components.HarvestStep | pic2func/detect.py:327-331 | the fill from the first set pixel, followed by the components of what is left, is the component list of the whole mask |
| Components.RowPoints | pic2func/detect.py:558-560 | the set pixels of one row from a column on, left to right |
| Components.GetIJCurve | pic2func/detect.py:541-561 | every set pixel exactly once, in strict row-major order |
| Glyphs.SqDistFacts | pic2func/detect.py:565 | the squared distance is 0 exactly for equal pixels, and symmetric |
| Glyphs.PointDistIsLeast | pic2func/detect.py:565-566 | the distance from a pixel to an object is the least over the object's pixels, and attained |
| Glyphs.ObjEdgeDistIsLeast | pic2func/detect.py:563-566 | obj_edge_dist is the least pairwise squared distance, and some pair attains it |
| Glyphs.ObjEdgeDistFacts | pic2func/detect.py:563-566 | obj_edge_dist is symmetric and is 0 exactly when the objects share a pixel |
| Glyphs.Drop | pic2func/detect.py:519 | `list.pop(m)`: one shorter, order kept, exactly the popped element removed |
| Glyphs.NearestGlyph | pic2func/detect.py:515-518 | argmin over the distances: a free glyph nearest to the tick, the first on a tie |
| Glyphs.ClaimNearest | pic2func/detect.py:512-520 | phase 1 fails exactly when glyphs run out; otherwise the claims follow the pool trace: each tick in turn pops the first nearest free glyph, and the rest is left in order |
| Glyphs.ClaimsUnique | pic2func/detect.py:512-520 | the pool trace determines the claimed glyphs and the leftovers, so there is one phase-1 outcome |
| Glyphs.ClaimsPerm | pic2func/detect.py:512-520 | along the pool trace every tick claims one glyph, and claimed and left glyphs together are the pool |
| Glyphs.ClaimsGreedy | pic2func/detect.py:515-519 | along the pool trace no tick's glyph is farther from it than a glyph still free when it chose |
| Glyphs.GroupDistIsLeast | pic2func/detect.py:526-535 | the group distance is the least distance to a member, tick included, and attained |
| Glyphs.NearestGroup | pic2func/detect.py:524-536 | argmin over the group distances: a nearest group, the first on a tie |
| Glyphs.GroupedJoin | pic2func/detect.py:537 | joining adds the glyph to the grouped glyphs |
| Glyphs.TraceKeeps | pic2func/detect.py:521-538 | along a nearest-group trace, groups only grow and the grouped glyphs are exactly those placed |
| Glyphs.JoinNearest | pic2func/detect.py:521-522 | phase 2 as its comment intends: each remaining glyph in turn joins the group nearest to it at that moment; no glyph is lost |
| Glyphs.PassAsWritten | pic2func/detect.py:524-538 | one `for` pass as written keeps every glyph either grouped or left, and moves at least one |
| Glyphs.JoinAsWritten | pic2func/detect.py:523-538 | phase 2 as written fails exactly without groups, and otherwise places every glyph in some group |
| Glyphs.PassStep | pic2func/detect.py:524-537 | a pass step measures the glyph at position `i` but moves the one at position 0 |
| Glyphs.FirstPassMisplaces | pic2func/detect.py:524-537 | on the example row, the first pass sends glyph 8 to the far tick and leaves glyph 18 |
| Glyphs.SecondPass | pic2func/detect.py:523-538 | the second pass sends glyph 18 to the far tick |
| Glyphs.JoinAsWrittenMisplaces | pic2func/detect.py:521-538 | as written, glyph 8 ends with the far tick although the near group was strictly nearer when it moved (distance 4 against 144) |
| Glyphs.Pair | pic2func/detect.py:512-519 | after phase 1 each group is `[tick, its glyph]` |
| Glyphs.GroupedPair | pic2func/detect.py:512-519 | the glyphs grouped after phase 1 are exactly the claimed ones |
| Glyphs.PairedGroups | pic2func/detect.py:490-506 | extending the phase-1 groups by the leftovers yields one group per tick, tick first, each glyph in exactly one group |
| Glyphs.GroupTicksAsWritten | pic2func/detect.py:490-539 | fails exactly with fewer glyphs than ticks, or with glyphs but no tick; phase 1 follows the pool trace and is greedy; the result is phase 2 as written run on the phase-1 groups and leftovers; one group per tick, tick first, every glyph grouped once |
| Glyphs.GroupTicks | pic2func/detect.py:490-539 | the same outcome with phase 2 as intended; phase 1 follows the pool trace, and every later glyph joined its nearest group |
| Canvas.SortDigits | pic2func/detect.py:434-444 | fails exactly on an empty number or on two glyphs sharing a top row; otherwise a permutation of the glyphs in strictly increasing top row |
| Canvas.SortDigitsUnique | pic2func/detect.py:434-444 | any strictly top-row-ordered permutation of the glyphs is the result, so the order is determined |
| Sorting.TiedPerm | pic2func/detect.py:439-441 | a tie of keys survives any permutation, so whether sorting meets a tie does not depend on the input order |
| Sorting.StrictSortUnique | pic2func/detect.py:439-441 | two permutations of one list, both strictly ordered by the key, are equal |
| Canvas.NumbersFromGroups | pic2func/detect.py:373-386 | fails exactly when some group's glyphs cannot be sorted, with the first such group's error; otherwise one number per group: its glyphs without the tick, strictly ordered by top row |
| Canvas.FrameOf | pic2func/detect.py:406-413 | the tight bounding box: positive extents holding every pixel, with a pixel on each of its four sides |
| Canvas.CentredMargins | pic2func/detect.py:413-416 | centred, the glyph's box fits the canvas with margins at least `shift`, and opposite margins differ by at most one |
| Canvas.AsWrittenOverhangs | pic2func/detect.py:420-421 | as written, a glyph taller than wide by at least `2*shift + 2` starts left of the canvas |
| Canvas.DrawShows | pic2func/detect.py:417-423 | when the box fits, each pixel lands on a 1 inside the canvas |
| Canvas.DrawExact | pic2func/detect.py:416-423 | a canvas cell is 1 exactly when some pixel of the glyph lands on it |
| Canvas.MakeSquare | pic2func/detect.py:404-425 | make_square as intended: a square canvas of side `N_max + 2*shift` |
| Canvas.MakeSquareFits | pic2func/detect.py:406-416 | the measured frame holds the glyph, and the centred offsets fit it on the canvas |
| Canvas.MakeSquareExact | pic2func/detect.py:404-425 | the intended canvas shows the glyph exactly: a cell is 1 iff a pixel lands there |
| Canvas.MakeSquareShows | pic2func/detect.py:404-425 | every pixel of the glyph shows on the intended canvas |
| Canvas.MakeSquareAsWritten | pic2func/detect.py:416-425 | make_square as written gives a square canvas of the same side |
| Canvas.AsWrittenAgrees | pic2func/detect.py:418-423 | for a glyph at least as wide as tall, the source draws the intended canvas |
| Canvas.TallFrame | pic2func/detect.py:407-415 | the example tall glyph has a 21x7 box, a 25-cell side, written offsets `(2, -5)` and centred offsets `(2, 9)` |
| Canvas.MakeSquareWraps | pic2func/detect.py:420-421 | as written, the tall glyph's left pixel wraps to column 20 and its right pixel lands at column 1 |
| Canvas.MakeSquareCentresTall | pic2func/detect.py:420-421 | centred, the same glyph lands at columns 9 and 15 |
| Canvas.ReshapeNumbersAsWritten | pic2func/detect.py:388-402 | reshape_numbers as written: numbers and glyph order kept, each glyph replaced by the canvas make_square draws as written |
| Canvas.ReshapeNumbers | pic2func/detect.py:388-402 | reshape_numbers with make_square as intended: numbers and glyph order kept, each glyph replaced by its centred square canvas |
| Canvas.ReshapeAsWrittenAgrees | pic2func/detect.py:388-425 | when no glyph is taller than wide, the source's reshape_numbers gives the intended canvases |
| Canvas.ReshapeAsWrittenDiffers | pic2func/detect.py:388-425 | on a number holding the tall example glyph, the source's canvases differ from the intended ones |
| Mapping.MeanPerm | pic2func/function.py:92 | `np.mean` does not depend on the order of the values |
| Mapping.Scan | pic2func/function.py:88-95 | the loop keeps its invariant: points for every finished row, at the row's mean and increasing, with `val` the current row's columns |
| Mapping.IJFunctionAsWritten | pic2func/function.py:79-97 | fails exactly on an empty curve (`isort[0]`) |
| Mapping.IJFunction | pic2func/function.py:62-97 | as intended: fails exactly on an empty curve |
| Mapping.IJFunctionIncreasing | pic2func/function.py:81-97 | the intended function's rows strictly increase |
| Mapping.IJFunctionMeans | pic2func/function.py:65-66 | each point sits on a row of the curve, at the mean of the curve's columns on that row |
| Mapping.IJFunctionCovers | pic2func/function.py:75-76 | every row the curve reaches has its point |
| Mapping.IJFunctionAsWrittenDropsLast | pic2func/function.py:88-97 | the source's result is the intended one without its last point, the point for the curve's lowest row |
| Mapping.IJFunctionAsWrittenLosesRow | pic2func/function.py:88-97 | on a two-row curve the source loses row 1, which the intended function keeps |
| Mapping.AxisRefs | pic2func/function.py:129-154 | two ticks give both reference points; one tick gives the tick and the axes' crossing at value 0; more than two, or a lone tick at 0, fail |
| Mapping.FitAxis | pic2func/function.py:156-162 | fails exactly on coincident positions or equal values; otherwise the map sends both reference positions to their values |
| Mapping.ScaleAndShift | pic2func/function.py:122-168 | the tick errors in source order on both axes; success exactly when each axis has one or two usable ticks with distinct positions and values; then each axis map sends every tick (or the crossing) to its value |
| Mapping.XYFunctionAsWritten | pic2func/function.py:34-60 | get_xyfunc as written: fails on an empty curve or a failed scale; otherwise one sample per point of the source's ij function, through both axis maps |
| Mapping.XYFunction | pic2func/function.py:57-60 | get_xyfunc with the intended ij function: fails on an empty curve or a failed scale; otherwise one sample per ij point, through both axis maps |
| Mapping.XYFunctionAsWrittenDropsLast | pic2func/function.py:34-60 | the source's samples are the intended ones without the last, which is the sample for the curve's lowest row |
| Mapping.XYFunctionAsWrittenMonotone | pic2func/function.py:54-60 | the source's samples are monotone in x as well |
| Mapping.ApplyMonotone | pic2func/function.py:59 | an axis map is increasing for a positive scale and decreasing for a negative one |
| Mapping.ApplyInverse | pic2func/function.py:160-168 | dividing by the scale and subtracting the shift undoes an axis map |
| Mapping.XYFunctionMonotone | pic2func/function.py:54-59 | the samples' x values strictly increase (positive x scale) or strictly decrease (negative), so the result is a function of x |
| Predict.DecimalValue | pic2func/predict.py:106-109 | the digits' value is below `10^len` |
| Predict.RenderValue | pic2func/predict.py:106-109 | writing the parsed value back with as many digits gives the digit string again |
| Predict.ValueRender | pic2func/predict.py:106-109 | a value below `10^w` survives being written with `w` digits and parsed |
| Predict.ReadValue | pic2func/predict.py:106-109 | `int("")` fails exactly on an empty group; otherwise the value whose digits are the classifier's digits |
| Predict.ReadTicks | pic2func/predict.py:105-109 | zip stops at the shorter list; it fails exactly when a zipped group is empty; otherwise tick `k` sits at `ticks[k]` with the value of group `k` |
| Predict.PredictTickValues | pic2func/predict.py:101-116 | the first `len(iticks)` groups read the I ticks and the rest the J ticks; it succeeds exactly when no zipped group is empty |
| Predict.PredictTickValuesI | pic2func/predict.py:103-109 | I tick `k` sits at `iticks[k]`, and its value is the number group `k`'s digits spell |
| Predict.PredictTickValuesJ | pic2func/predict.py:104-114 | J tick `k` sits at `jticks[k]`, and its value is the number group `min(len(iticks), len(tickvals)) + k` spells |

## Left out

- The Fourier resampling (`dft`, `dftsample`, `nogibbsdftsample` in `pic2func/function.py`): complex floating-point arithmetic.
- `scale_numbers` and the tail of `get_tickvals`: external image files and a `convert` subprocess.
- The keras network (`define_model`, `predict_digit`, `np.argmax` over its scores): the classifier is a parameter `Mask -> Digit`, and the 28x28 reshape goes with it.
- `main.py`, plotting (`plotpic`), packaging and image file I/O: orchestration and side effects only.
- FloodFill.Fill: requires a mask whose border is 0 and a seed off the border. At the border the source would index out of range, or wrap round through negative indices; this is not modelled.
- Components.RemoveTicks: requires every tick seed off the border, for the same reason.
- Components.RemoveTicks: takes integer tick positions. Where an axis has no tick, `get_tickmeans` returns the pair `[0], [0]`. If that pair reached remove_ticks, it would iterate over the pair, and remove_tick would compute `[0] + 1` and raise `TypeError`. Only `main.py` chains the stages this way, and `main.py` is left out.
- Base.Dedup: Python's `set` gives no iteration order; the model keeps first occurrences. The fill's result set does not depend on the order.
- Canvas.SortDigits: on equal top rows the source goes on to compare the glyph arrays. Every glyph is an `(n, 2)` array, so that comparison raises on every tie, and the model fails on every tie too. The model requires every glyph to have a pixel: on an empty glyph the source's `digit[:,0]` raises, and the model has no `Failure` for it. Fills always record their seed, so the pipeline builds no empty glyph.
- Canvas.MakeSquare, Canvas.MakeSquareAsWritten, Canvas.ReshapeNumbers, Canvas.ReshapeNumbersAsWritten: require every glyph to have a pixel. On an empty glyph the source's `np.min` raises; this raise is not modelled as a `Failure`.
- Sorting.SortByKey: `argsort` is not stable. Only a row's column order can differ, and the mean does not depend on it (Mapping.MeanPerm).
- Axes.DetectAxesSpec: `minI` and `minJ` are taken already truncated. The product `minlen_axis * NI` is floating point. The model requires `minI <= NI` and `minJ <= NJ`, that is `minlen_axis <= 1`. Beyond that the assertion in `detect_line` raises, and the model has no `Failure` for it.
- Axes.DetectLineSpec: requires `L <= len(v)`. The model keeps `detect_line`'s assertion as a precondition rather than as a `Failure`.
- Mapping.FitAxis: where the source divides by zero and gets `inf` or `nan`, the model returns `DegenerateScale`.
- Mapping.ScaleAndShift: the lone-tick check compares the tick's pixel position with 0, as the source's `i1[0] != 0` does.
- Glyphs.GroupTicksAsWritten: requires non-empty ticks and glyphs. Fills always record their seed, so every object the pipeline builds has a pixel.

## Findings

| source | as written | input that shows it | evidently intended | confidence | as-written member | corrected member |
|---|---|---|---|---|---|---|
| pic2func/detect.py:523-538 | phase 2 of group_ticks measures `digits[i]` but moves `digits.pop(0)`, and `enumerate` skips glyphs as the list shrinks | one row of one-pixel objects, pairwise apart and off the border: ticks at columns 2 and 22, first glyphs at 4 and 20, remaining glyphs at 6, 8, 18; glyph 8 joins the far tick | every remaining glyph joins the group nearest to it ("we search the closest group for each digit") | not executed | Glyphs.JoinAsWrittenMisplaces | Glyphs.JoinNearest |
| pic2func/detect.py:418-421 | for a glyph taller than wide, `delta < 0` is added to the column, moving the glyph left; negative columns wrap to the right edge | the glyph `[(0, 0), (20, 6)]`: its left pixel lands at column 20 and its right one at column 1 | centre the narrower extent, moving the columns right by `-delta` | not executed | Canvas.MakeSquareWraps | Canvas.CentredMargins |
| pic2func/function.py:88-97 | the mean of a row is appended only when the next row starts, so the last row never gets a point | the curve `[(0, 5), (1, 7)]` yields a point for row 0 only | one point per distinct row, the last included | not executed | Mapping.IJFunctionAsWrittenLosesRow | Mapping.IJFunctionCovers |

The stages the last two rows concern exist in both forms. Canvas.ReshapeNumbersAsWritten
and Mapping.XYFunctionAsWritten follow the source, while Canvas.ReshapeNumbers and
Mapping.XYFunction use the corrected make_square and ij function. Canvas.ReshapeAsWrittenAgrees,
Canvas.ReshapeAsWrittenDiffers and Mapping.XYFunctionAsWrittenDropsLast relate the two.
