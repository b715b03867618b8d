# imagecrop in Dafny

imagecrop is a batch tool. It walks a directory of JPEG and PNG images and
crops away edges whose brightness differs from the centre of the picture,
such as dark vignetting or bright borders. It then writes each result into an
output directory, under `name_cropped.ext` when something was removed and
`name.ext` when the image was left as it was.

This project models two parts of it.

**The cropping engine** (`cropper/cropper.go`):

- the per-pixel luminance and the region average;
- the uniformity test, which compares four edge bands with a centre reference
  rectangle;
- the bounded search that moves one side of a crop rectangle inward at a
  time;
- the copy of the chosen region into a fresh buffer, and the `WasCropped`
  decision.

**The batch driver** (`main.go`):

- flag validation;
- the extension filter that turns files into jobs;
- the per-worker temporary name and the final name;
- the outcome counters, kept by a sequential loop over the jobs.

Files:

- `wrappers.dfy` — `Option` and `Result`.
- `geometry.dfy` — Go's `image.Rectangle` (`image.Rect` swaps reversed
  corners), the four sides, edge bands and the centre reference rectangle.
- `luminance.dfy` — colours, `calculateBrightness`, and the nested loops of
  `calculateRegionBrightness` proved equal to a mean over the region.
- `uniformity.dfy` — `isUniform`.
- `search.dfy` — `findUniformCrop`. The method is proved against a relational
  specification: the sequence of rectangles it passes through is a chain of
  legal rounds (`Rounds`), each round a step of the decision function
  `Decide`.
- `materialize.dfy` — `CropImage` without its file I/O, and the region copy
  into an `array2`.
- `naming.dfy` — `filepath.Ext`, `filepath.Base`, lower-casing, the extension
  filter, the `.temp_<worker>_<file>` name and the final name.
- `batch.dfy` — settings validation, the directory walk and the worker body.

Brightness and all percentages are exact reals. Go's `float64` division by a
zero centre brightness is given an explicit policy (see `Uniformity.Exceeds`
and `CropSearch.WithinTolerance`). With a zero centre and a non-zero edge the
result is `+Inf`, which exceeds every tolerance. With both zero it is `NaN`,
which exceeds none. That is what the IEEE comparisons in the source yield.

## Model

| member | source | states |
|---|---|---|
| `Geometry.MakeRect` | cropper/cropper.go:154-159 | the rectangle built from two corners is canonical, spans exactly the given x and y coordinates (swapped into order when reversed), has the absolute differences as width and height, and keeps an axis whose coordinates are ordered as given |
| `Geometry.Thickness` | cropper/cropper.go:169-177 | a sample thickness is exactly 1 below the divisor and exactly `dim/divisor` (rounded down) from the divisor on, so it is at least 1 and at most the dimension when that is positive |
| `Geometry.Margin` | cropper/cropper.go:145-152 | the centre margin is exactly 1 below 5 pixels and a fifth of the dimension (rounded down) from 5 on, that is `max(1, dim/5)` |
| `Geometry.EdgeBand` | cropper/cropper.go:179-201 | a band of thickness at most the dimension lies inside the region, flush against its side, and spans the full other dimension |
| `Geometry.Centre` | cropper/cropper.go:143-165 | the centre reference rectangle of a region with pixels has pixels, lies inside it and is symmetric. Unless the other dimension is 2, a dimension of at least 3 is inset by its margin and a dimension of 1 keeps its full extent, because `image.Rect` swaps the reversed corners. It equals the region exactly when a dimension is 2 (the fallback) or the region is a single pixel |
| `Luminance.To8` | cropper/cropper.go:114-117 | the 16-bit channel shifted right by 8 is the 8-bit value `w` with `256*w <= v < 256*w + 256` |
| `Luminance.Weighted` | cropper/cropper.go:117 | the luma-weighted sum 0.299 R + 0.587 G + 0.114 B of three 8-bit channels lies in [0, 255] |
| `Luminance.Brightness` | cropper/cropper.go:113-118 | 0.299 R + 0.587 G + 0.114 B of the 8-bit channels lies in [0, 255] |
| `Luminance.GreyBrightness` | cropper/cropper.go:113-118 | for a grey pixel (equal 8-bit channels) the brightness is that channel value, because the weights sum to 1 |
| `Luminance.RegionBrightness` | cropper/cropper.go:121-136 | the two nested loops return exactly the mean brightness over the region's pixels, and 0 for an empty region |
| `Luminance.CellsCount` | cropper/cropper.go:125-130 | the rows visited so far hold rows × width pixels, the count the loops accumulate |
| `Luminance.ConstMean` | cropper/cropper.go:121-136 | the mean of a constant over a region with pixels is that constant |
| `Luminance.FlatMean` | cropper/cropper.go:121-136 | a region whose every pixel has brightness k has mean brightness k |
| `Luminance.BoundedMean` | cropper/cropper.go:121-136 | the mean lies between any lower and upper bound of the pixel values |
| `Luminance.BelowMean` | cropper/cropper.go:121-136 | the region mean is monotone in the pixel values |
| `Luminance.RegionMeanInRange` | cropper/cropper.go:121-136 | every region brightness lies in [0, 255] |
| `Luminance.AgreeMean` | cropper/cropper.go:121-136 | the region mean reads only the pixels of the region |
| `Uniformity.SideBandInside` | cropper/cropper.go:169-201 | each 10% band of a region with pixels has pixels, lies inside it, sits on its side and spans the other dimension |
| `Uniformity.Exceeds` | cropper/cropper.go:182-203 | with a lit centre a band fails the test exactly when its deviation × 100 exceeds tolerance × centre. With a black centre it fails exactly when the band is not black (+Inf), and a black band passes (NaN) |
| `Uniformity.IsUniform` | cropper/cropper.go:139-208 | checking top, bottom, left and right in turn and failing at the first band that exceeds the tolerance gives true exactly when no band exceeds it |
| `Uniformity.UniformIffWithinTolerance` | cropper/cropper.go:179-207 | with a lit centre, uniform iff every band deviates by at most tolerance percent of the centre brightness |
| `Uniformity.UniformWithBlackCentre` | cropper/cropper.go:179-207 | with a black centre, uniform iff all four bands are black too |
| `Uniformity.FlatIsUniform` | cropper/cropper.go:139-208 | a region of constant brightness is uniform for every tolerance >= 0 |
| `Uniformity.UniformIsLocal` | cropper/cropper.go:139-208 | two images that agree on the region get the same verdict |
| `CropSearch.TruncToInt` | cropper/cropper.go:216-217 | Go's float-to-int conversion truncates toward zero |
| `CropSearch.CeilingInRange` | cropper/cropper.go:216-217 | for a max-crop percentage in [0, 100] the per-dimension ceiling is between 0 and the dimension |
| `CropSearch.CeilingIsFloor` | cropper/cropper.go:216-217 | for a non-negative percentage the ceiling is floor(dim × maxCropPercent / 100) |
| `CropSearch.CropLimits` | cropper/cropper.go:215-217 | for a non-negative percentage each ceiling is floor(dim × maxCropPercent / 100), and it lies between 0 and its dimension when the percentage is at most 100 |
| `CropSearch.MaxIterations` | cropper/cropper.go:224-227 | the iteration bound is at least 100 and at least half of each dimension, and is exactly one of those two values |
| `CropSearch.CropAmount` | cropper/cropper.go:338 | each step removes exactly one pixel while `w+h` is below 200, and `(w+h)/200` rounded down once it reaches 200 |
| `CropSearch.CropAmountMonotone` | cropper/cropper.go:338 | a smaller rectangle never takes a larger step |
| `CropSearch.SearchDeviationsEntries` | cropper/cropper.go:285-314 | the edges map has an entry exactly for the sides whose dimension is still below its ceiling, each holding that side's absolute deviation from the centre |
| `CropSearch.SearchDeviationsEmpty` | cropper/cropper.go:243-246 | the edges map is empty exactly when both ceilings are reached, so the `len(edges) == 0` exit at lines 316-319 never fires after the budget exit |
| `CropSearch.MaxDeviation` | cropper/cropper.go:321-329 | the scan's maximum is >= 0, bounds every entry, and is an entry's value unless it is 0 |
| `CropSearch.WorstSides` | cropper/cropper.go:321-329 | the sides the scan may pick are exactly the entries of maximal deviation when that is positive, since any order of the map can put one of them first; there are none exactly when the maximum is 0 |
| `CropSearch.WithinTolerance` | cropper/cropper.go:331-334 | with a lit centre the search stops exactly when the worst deviation × 100 is at most tolerance × centre. With a black centre it never stops here, as the quotient is +Inf or NaN |
| `CropSearch.Decide` | cropper/cropper.go:229-349 | when an iteration shifts, the sides it may move are exactly the eligible sides whose deviation is positive and no smaller than any eligible side's |
| `CropSearch.Shrink` | cropper/cropper.go:340-349 | moving a side inward changes only that coordinate, by the step, shrinks that extent, keeps the other extent, and stays inside the old rectangle |
| `CropSearch.ChainExtend` | cropper/cropper.go:229-355 | appending a legal round to a legal chain of rounds gives a legal chain |
| `CropSearch.StopWhenUniform` | cropper/cropper.go:231-233 | a uniform rectangle ends the search |
| `CropSearch.StopWhenSpent` | cropper/cropper.go:243-246 | a spent budget ends the search |
| `CropSearch.StopWhenWithinTolerance` | cropper/cropper.go:331-334 | a worst deviation within tolerance ends the search |
| `CropSearch.RoundFromScan` | cropper/cropper.go:229-349 | one pass of the loop body that reaches the switch is a legal round |
| `CropSearch.RoundMovesOneWorstSide` | cropper/cropper.go:236-349 | a round that moves side s happens only on a non-uniform rectangle. s was eligible and had a positive deviation no smaller than any eligible side's. s moves inward by the step and the other three coordinates stay as they were |
| `CropSearch.IdleRound` | cropper/cropper.go:321-349 | a round that moves nothing leaves the rectangle unchanged, and happens only when every eligible deviation is 0 |
| `CropSearch.NoIdleRoundWithLitCentre` | cropper/cropper.go:321-349 | with a lit centre and a tolerance >= 0 every round moves a side |
| `CropSearch.MeasureCentre` | cropper/cropper.go:248-273 | the measured centre brightness is the mean over the centre reference rectangle |
| `CropSearch.MeasureSide` | cropper/cropper.go:275-313 | the measured deviation of a side is the distance of its 5% band's mean from the centre brightness |
| `CropSearch.MeasureEdges` | cropper/cropper.go:285-314 | the filled map equals the specification of the edges map |
| `CropSearch.PickWorst` | cropper/cropper.go:321-329 | the unordered scan returns the maximal deviation and some side of maximal deviation (none when it is 0), whatever order the map yields |
| `CropSearch.ShrinkWithinBudget` | cropper/cropper.go:236-349 | a step on an eligible side keeps the rectangle inside the image and each removed dimension below its ceiling plus one step |
| `CropSearch.Iterate` | cropper/cropper.go:229-354 | one pass of the loop body either ends the search where `Decide` says stop, or extends the chain of rounds by the shrunk rectangle, moving only an eligible side |
| `CropSearch.FindUniformCrop` | cropper/cropper.go:211-358 | the rectangles visited form a legal chain from the image bounds of at most `MaxIterations` rounds. Every success is inside the bounds, is the bounds or has pixels, and removes at most ceiling plus one step per dimension. It ends where `Decide` stops or at the iteration bound. A collapse returns the bounds with a failure |
| `Materialize.ToRGBA8` | cropper/cropper.go:60-63 | storing a colour into the RGBA buffer keeps the high byte of each 16-bit channel |
| `Materialize.StoredBrightness` | cropper/cropper.go:60-63 | the stored pixel has the brightness of the original colour |
| `Materialize.CopyRegion` | cropper/cropper.go:59-65 | the buffer is fresh, has the crop's width and height, and holds at (x-minX, y-minY) the pixel (x, y) of the image for every pixel of the crop |
| `Materialize.SameSizeWithinIsBounds` | cropper/cropper.go:53-57 | a rectangle inside the bounds has their width and height exactly when it is the bounds |
| `Materialize.CropImage` | cropper/cropper.go:22-110 | a uniform image is copied unchanged; a collapsed search is an error. Otherwise `WasCropped` holds exactly when the final rectangle's size differs from the image's, and then the output buffer is the translated copy of that rectangle |
| `Naming.ExtShape` | main.go:91 | `filepath.Ext` returns a suffix of the path that is empty or a dot followed by no dot and no separator |
| `Naming.ExtOfSuffix` | main.go:91 | a path ending in a dot and plain characters has exactly that suffix as its extension |
| `Naming.TrimTrailingSlashes` | main.go:98 | the trimmed path is a prefix of the path that does not end in a separator, and everything removed is separators |
| `Naming.Base` | main.go:98 | `filepath.Base` is `.` for the empty path and `/` for a path of separators. Otherwise it is the last element: a non-empty suffix of the path without its trailing separators, holding no separator and preceded by one or by the start of the path |
| `Naming.AsciiLower` | main.go:91 | lower-casing keeps the length and maps each character on its own |
| `Naming.ImagePathBySuffix` | main.go:91-94 | a path passes the filter exactly when, lower-cased, it ends in `.jpg`, `.jpeg` or `.png` |
| `Naming.ParseDigitsOf` | main.go:146 | reading back the decimal digits of a number gives the number |
| `Naming.TempName` | main.go:146 | the temporary name is `.temp_`, then the worker ID in decimal, then `_`, then the file name, each part at a fixed position |
| `Naming.ItoaInjective` | main.go:146 | two different worker IDs are printed differently |
| `Naming.TempNamesDistinct` | main.go:146 | two different (worker ID, file name) pairs never get the same temporary name |
| `Naming.TrimSuffix` | main.go:167 | trimming removes the suffix when present and changes nothing otherwise |
| `Naming.CroppedNameShape` | main.go:166-169 | a cropped image is saved as stem + `_cropped` + extension, 8 characters longer than its name |
| `Naming.FinalName` | main.go:166-173 | the output keeps the file name exactly when the image was not cropped; a cropped name is 8 characters longer |
| `Naming.CroppedNameKeepsExt` | main.go:166-169 | the cropped name has the same extension as the original, so it passes the filter exactly when the original does |
| `Batch.Validate` | main.go:39-65 | a configuration is accepted exactly when input is non-empty, tolerance and max-crop are in [0, 100] and threads >= 1. Otherwise the first failing check, in source order, is reported |
| `Batch.DefaultsNeedOnlyInput` | main.go:31-35 | the flag defaults pass validation exactly when an input directory is given |
| `Batch.AcceptedCeilings` | main.go:53-58 | an accepted max-crop gives the engine crop ceilings between 0 and each dimension |
| `Batch.CollectJobs` | main.go:80-105 | the walk appends, in visiting order, one job per selected entry |
| `Batch.SelectJobsMembers` | main.go:86-102 | a job exists exactly for each entry that is not a directory and passes the extension filter. It carries the run's output directory, tolerance and max-crop unchanged and the base name of its path |
| `Batch.Outcome` | main.go:149-215 | a job's record is a success exactly when both the engine and the rename succeed, and is marked cropped exactly when it also was cropped |
| `Batch.Tally` | main.go:126-131 | a counter never exceeds the number of jobs |
| `Batch.OutcomesPointwise` | main.go:149-215 | record k is the outcome of job k alone |
| `Batch.RunBatch` | main.go:136-203 | after the loop, processed + errors = number of jobs and processed = cropped + unchanged. Each counter is the number of jobs with that outcome. The records follow the jobs, and the renames are exactly those of the successful crops |
| `Batch.ExactlyOneCounter` | main.go:149-203 | every job lands in exactly one of the error, cropped and unchanged counters |
| `Batch.TallyAppend` | main.go:126-131 | counts over two runs of jobs add up |
| `Batch.TallyPermutation` | main.go:120-233 | the counters depend only on which outcomes occurred, not on the order in which the workers met the jobs |
| `Batch.TallyComplement` | main.go:149-203 | successes and failures add up to the number of jobs, and successes split into cropped and unchanged |
| `Batch.FailureDoesNotStopLaterJobs` | main.go:149-193 | after a failed job, every later job is recorded as a success exactly when its own crop and rename succeed |
| `Batch.RenamesMatchCrops` | main.go:146-181 | one rename is attempted per successful crop. Each renames that job's temporary name to its final name in its output directory |

## Left out

- File and codec I/O is not modelled: opening and decoding the input, encoding the JPEG or PNG output, the copy of an unchanged file, rename and remove, creating the output directory, and the directory walk itself. The image is a value with bounds and a total `At` function. The driver takes, for each job, the engine's answer and the rename's answer as inputs (`Batch.Attempt`), and the walk's entries as a sequence (`Batch.Entry`).
- Errors from the walk callback and from `WalkDir`, and the "no image files" early return, are not modelled. They only print and exit.
- Goroutines, channels, the wait group and the two mutexes are not modelled. The worker body is a sequential loop; `workers[k]` names the worker that took job k. `Batch.TallyPermutation` shows that the counters do not depend on the order in which jobs are met.
- IEEE-754 arithmetic is not modelled: brightness, percentages and the ceiling computation use exact reals, and rounding error is ignored. The float-to-int truncations at cropper/cropper.go:216-217 and 338 are explicit.
- `Materialize.CropImage`: the "cropped X% of image area" message is represented by a tag (`CroppedArea`), not by the formatted percentage.
- `Batch.RunBatch`: the result records omit the message text; the error text is carried in `Attempt` but not copied into the record.
- Flag parsing, usage text, console output, exit codes and the input-directory existence check are not modelled.
- `Naming.AsciiLower`: strings.ToLower is modelled for ASCII letters only. Go's lowering maps only two non-ASCII characters to ASCII letters: the Kelvin sign to `k` and the dotted capital I to `i`. Neither letter occurs in `.jpg`, `.jpeg` or `.png`, so the filter's decisions are the same. Strings are sequences of characters, not UTF-8 bytes.
- `filepath.Join` is not modelled: its path cleaning is left out. A path is kept as a directory and a name (`Batch.Rename`).
- `Naming.Ext` and `Naming.Base` use `/` as the only separator, as on Unix; Windows volume names are not modelled.
