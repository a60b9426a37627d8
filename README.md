# filtrate: colour segmentation, modelled in Dafny

filtrate loads an image into a canvas and rewrites its RGBA pixel buffer.
`processImageData` (index.js:123-144) scans the pixels in order. At every
pixel not yet visited it starts a flood fill, `averageSimilarNeighbors`
(index.js:81-121). The fill marks the pixel in `hits`, pushes it onto the
region's `set` and folds its channels into a running `color`. It then
recurses into each neighbour that passes its edge test and is similar to the
pixel (`isSimilar`, index.js:71-79: every channel differs by less than 3).
Once the fill returns, every member of the region is painted with the
accumulated colour. Each paint is a store into a `Uint8ClampedArray`.

The model has five modules:

- `Pixels` (pixels.dfy): the buffer as a sequence of bytes, `isSimilar`,
  JavaScript's `Math.floor(x / m)` and `x % m`, and the clamped byte store.
- `Accumulator` (accumulator.dfy): the update of `color` when a member joins.
  It proves that after `n` members each channel holds `n` times the sum of
  that channel over the members.
- `Runs` (runs.dfy): a reference description of the output that involves no
  traversal. Every region is the horizontal run that starts at its seed. The
  output is each run painted with its finalized accumulator.
- `Segmentation` (segmentation.dfy): the flood fill and the driver, written
  as imperative Dafny.
  - `Region` is a class holding `set` and `color`. `hits` and the output
    buffer are arrays.
  - `Region.AverageSimilarNeighbors` is recursive, as in the source.
  - `ProcessImageData` is proved to return exactly `Runs.Segmented`.
- `Scenarios` (scenarios.dfy): all-inputs lemmas about small images, and
  concrete instances of them.

Three facts of the code shape the model.

- **The downward step never fires.** `isBottomMost` is
  `i + indexWidth < indexSize` (index.js:104), which is true whenever there
  *is* a row below, and the downward call is guarded by its negation. The
  call therefore happens only when the pixel below lies past the end of the
  buffer, where reading gives `undefined`, the difference is `NaN` and
  `isSimilar` is false (`Segmentation.DownStepNever`).
- **Every region is a run within one row.** The driver seeds at the lowest
  unvisited index, so every pixel above or to the left of the region is
  already visited. The fill therefore only ever moves right, and never
  crosses a row boundary.
  - The code never merges rows: an image of one uniform colour becomes one
    region per row (`Runs.RunInRow`, `Scenarios.ColumnUnchanged`,
    `Scenarios.UniformTwoByTwo`).
- **The accumulator is not a mean.** The update is
  `color / (1 - 1/n) + sample / (1/n)`. After `n` members it holds `n` times
  the channel sum (`Accumulator.AggregateIsScaledSum`). A channel is stored as
  255 once `n` times its sum reaches 255, so alpha saturates for any region
  of two or more opaque pixels. A channel that is 0 at every member stays 0.

Arithmetic is exact. The accumulator is a `real` and indices are
unbounded integers. JavaScript's `%`, which truncates toward zero, is written
out as `Pixels.Rem`, and `Math.floor` of a quotient as `Pixels.Quot`. The
store into a `Uint8ClampedArray` is the ToUint8Clamp conversion of section
7.1.11 of ECMA-262 (2015 edition), which rounds a value halfway between two
integers to the even one (`Pixels.ClampByte`). Since the accumulator is
always `n` times a sum of bytes, no value the model stores is ever halfway.

The edge guards of the fill are `Math.floor(i / indexWidth) !== 0` above,
`i % indexWidth !== 0` to the left and `(i + 4) % indexWidth !== 0` to the
right. When the buffer holds whole rows, each guard keeps the neighbour it
admits inside the buffer (`Segmentation.GuardsInBounds`). When the last row
is partial, the right guard admits the offset past the end at the last
pixel. The read there gives `undefined` and `isSimilar` is false, so no call
follows (`Segmentation.RightGuardPartialRow`).

## Model

| member | source | states |
|---|---|---|
| Pixels.Similar | index.js:71-79 | definition of `isSimilar`: four channel comparisons, each false when either offset is outside the buffer; its meaning is stated by `Pixels.SimilarMeaning` |
| Pixels.SimilarMeaning | index.js:71-79 | two pixels are similar exactly when both lie inside the buffer and each of the four channels differs by less than 3; a read past the end makes the comparison false |
| Pixels.SimilarSymmetric | index.js:71-79 | similarity does not depend on the order of the two pixels |
| Pixels.SimilarReflexive | index.js:71-79 | a pixel inside the buffer is similar to itself |
| Pixels.QuotRemMatch | index.js:101-103 | `Quot` is the floor of the quotient; `Rem` is JavaScript's `%`, equal to Dafny's `%` for non-negative operands and taking the sign of the dividend otherwise |
| Pixels.RemStride | index.js:102-103 | for a stride-4 offset the offset within the row is a stride-4 value below the row length, and one step right either wraps to 0 or moves it 4 further |
| Pixels.StrideGap | index.js:128 | two distinct stride-4 offsets are at least one pixel apart |
| Pixels.ClampByte | index.js:137-140 | values at or below 0 store 0, values at or above 255 store 255, others store a nearest integer, and a value halfway between two integers stores the even one |
| Pixels.ClampByteKeepsBytes | index.js:137-140 | a value that already is a byte is stored unchanged |
| Pixels.Quot | index.js:101 | definition of `Math.floor(x / m)` for a positive `m`, by repeated subtraction; its meaning is stated by `Pixels.QuotRemBounds` and `Pixels.QuotRemMatch` |
| Pixels.Rem | index.js:102-103 | definition of JavaScript's `x % m` for a positive `m`, with the sign of `x`; its meaning is stated by `Pixels.QuotRemBounds` and `Pixels.QuotRemMatch` |
| Pixels.QuotRemBounds | index.js:101-103 | `m * Quot(x, m) <= x < m * Quot(x, m) + m`, and for `x >= 0` `Rem` is `x - m * Quot(x, m)` |
| Accumulator.BlendWeights | index.js:93-94 | for `n >= 2` neither `minor` nor `major` is zero; dividing by `major` multiplies by `n / (n - 1)` and dividing by `minor` multiplies by `n` |
| Accumulator.BlendMeaning | index.js:93-98 | each blended channel is the previous value scaled by `n / (n - 1)` plus the new sample scaled by `n` |
| Accumulator.Blend | index.js:93-98 | definition of the update when the `n`-th member joins, with `minor = 1 / n` and `major = 1 - minor`; its meaning is stated by `Accumulator.BlendMeaning` |
| Accumulator.Aggregate | index.js:90-99 | the accumulator after the members joined in order has four channels once a member has joined and none before; its closed form is stated by `Accumulator.AggregateIsScaledSum` |
| Accumulator.AggregatePush | index.js:90-99 | the first member's channels are taken verbatim; every later member is blended in with `n` the new length of `set` |
| Accumulator.AggregateIsScaledSum | index.js:90-99 | after `n` members every channel of the accumulator is `n` times the sum of that channel over the members |
| Accumulator.RescaleStep | index.js:93-98 | if the accumulator holds `m * s` after `m` members, after the next sample `x` it holds `(m + 1) * (s + x)` |
| Accumulator.AggregateOfSingleton | index.js:90-91 | a region of one pixel has that pixel's channels as its colour |
| Runs.Continues | index.js:114-116 | definition of the rightward step: `(s + 4) % indexWidth !== 0` and the next pixel is similar; what runs it builds is stated by `Runs.RunShape` |
| Runs.RunLength | index.js:114-116 | a run has at least one pixel and ends inside the buffer |
| Runs.Run | index.js:114-116 | the `j`-th member of the run at `s` is `s + 4 * j`, and the run has `RunLength` members |
| Runs.SegmentFrom | index.js:128-143 | the output from offset `s` on has as many bytes as the input from `s` on |
| Runs.SegmentedLength | index.js:126-127 | the output buffer has exactly as many bytes as the input |
| Runs.RunShape | index.js:106-116 | a run starts at its seed, consists of consecutive pixels of one row each similar to the one before, and cannot be extended to the right |
| Runs.RunPixel | index.js:114-116 | the `j`-th pixel of a run continues it exactly when it is not the last, and lies `j` pixels right of the seed within the row |
| Runs.RunInRow | index.js:102-103 | a run never leaves the row of its seed |
| Runs.RunMember | index.js:114-116 | `p` is a member of the run at `s` exactly when it is a stride-4 offset in `s .. s + 4 * k - 1` |
| Runs.RunThenRest | index.js:128-132 | the pixels from `s` on are the run at `s` followed by the pixels after it |
| Runs.RegionsCover | index.js:128-132 | laid end to end, the regions list every pixel exactly once, in ascending order |
| Runs.RegionsBounds | index.js:128-132 | every member of every region from `s` is a pixel at or after `s` |
| Runs.RunBounds | index.js:128-132 | every member of the run at `s` is a pixel in `s .. s + 4 * k - 1` |
| Runs.RegionsPartition | index.js:128-132 | every pixel is a member of exactly one region |
| Runs.RegionsPainted | index.js:133-141 | at every member of every region the four output bytes are that region's finalized accumulator |
| Runs.RegionsFacts | index.js:128-141 | the regions of the whole image list every pixel exactly once, every pixel lies in exactly one region, and the output shows each region painted with its accumulator |
| Runs.PaintedCons | index.js:133-141 | a run painted with its colour, in front of painted regions, keeps all of them painted |
| Runs.BlockAt | index.js:135-141 | the `q`-th four bytes of a block of `k` copies of a colour are that colour |
| Segmentation.UpStep | index.js:101-108 | definition of the upward call's guard: `i` is not in the top row and the pixel above is similar |
| Segmentation.LeftStep | index.js:102-112 | definition of the leftward call's guard: `i` does not start its row and the pixel to its left is similar |
| Segmentation.DownStep | index.js:104-120 | definition of the downward call's guard as written: `i + indexWidth < indexSize` is false and the pixel below is similar |
| Segmentation.DownStepNever | index.js:104-120 | the guard of the downward call admits only pixels whose lower neighbour is past the buffer, where they are never similar: the downward call never happens |
| Segmentation.StepToPixel | index.js:101-120 | every recursive call the fill makes is on a pixel of the buffer |
| Segmentation.GuardsInBounds | index.js:101-116 | in a buffer of whole rows, a pixel that passes the top, left or right edge test has its upper, left or right neighbour inside the buffer |
| Segmentation.UpGuardInBounds | index.js:101-106 | a pixel not in the top row has a pixel above it |
| Segmentation.LeftGuardInBounds | index.js:102-110 | a pixel that does not start its row has a pixel to its left |
| Segmentation.RightGuardInBounds | index.js:103-114 | in a buffer of whole rows, a pixel that does not end its row has a pixel to its right |
| Segmentation.RightGuardPartialRow | index.js:103-114 | in a buffer of one pixel with a row two pixels wide, the right edge test admits the offset past the buffer, and the comparison there is false |
| Segmentation.ExtendsMonotone | index.js:83 | visited indices stay visited |
| Segmentation.ExtendsTrans | index.js:106-120 | two successive extensions of the visit state are one extension |
| Segmentation.ClosedGrows | index.js:106-120 | a region whose steps lead to visited indices keeps that property as more indices are visited |
| Segmentation.ClosedAppend | index.js:106-120 | two such regions laid end to end are still such a region |
| Segmentation.ConnectedAppend | index.js:106-120 | two connected member lists, the second reached by a step from the first's seed, are one connected list |
| Segmentation.UnvisitedShrinks | index.js:82-83 | visiting a new index strictly shrinks the set of unvisited indices, so the recursion terminates |
| Segmentation.PartialShrinks | index.js:106-120 | each recursive call of a visit sees fewer unvisited indices than the visit began with |
| Segmentation.PartialStep | index.js:106-116 | one recursive call into a step target completes that step of the visit |
| Segmentation.PartialFinish | index.js:101-121 | once every step out of `i` has been taken, the visit of `i` is complete |
| Segmentation.MemberPosition | index.js:106-116 | when exactly the pixels below `i` are visited, the `q`-th member a visit of `i` adds is `i + 4 * q`, inside the run at `i` |
| Segmentation.StepWithinRun | index.js:106-120 | in that state every step between new members is the step right from the previous one |
| Segmentation.AboveVisited | index.js:106-108 | in that state the pixel above any pixel of the run at `i` is already visited |
| Segmentation.RunCovered | index.js:114-116 | in that state every pixel of the run at `i` joins the visit of `i` |
| Segmentation.VisitedRun | index.js:81-121 | in that state a visit of `i` appends exactly the run at `i` to `set`, and afterwards exactly the pixels before the end of the run are visited |
| Segmentation.VisitedRunMembers | index.js:81-121 | in that state the members a visit of `i` appends are exactly the run at `i` |
| Segmentation.VisitedRunHits | index.js:82-83 | appending exactly the run at `i` leaves exactly the pixels before its end visited |
| Segmentation.Distinct | index.js:82-84 | no index joins a region twice |
| Segmentation.Region.constructor | index.js:130-131 | a new region has no members and no colour |
| Segmentation.Region.Absorb | index.js:82-99 | the pixel is marked in `hits` and nothing else changes there; it becomes the last member and the colour is the accumulator of the members |
| Segmentation.Region.AverageSimilarNeighbors | index.js:81-121 | the call keeps the region well formed. A visited `i` adds nothing. Otherwise `i` joins first and every new member is reached by a step from an earlier one. The indices newly visited are exactly the new members, none of them twice, and every step out of a new member ends at a visited index |
| Segmentation.Region.VisitNeighbours | index.js:101-120 | the four guarded recursive calls complete the visit of `i`; the downward one is unreachable |
| Segmentation.Region.VisitNeighbour | index.js:106-116 | one guarded call keeps the visit well formed and, when its guard holds, takes the step to its target |
| Segmentation.ProcessImageData | index.js:123-144 | the output is the reference segmentation `Runs.Segmented` of the input; the regions it fills are `Runs.Regions` of the input, list every pixel once, put every pixel in exactly one region, and are each painted with their accumulator |
| Segmentation.ScanStep | index.js:128-143 | one loop iteration skips a visited pixel or starts a region at the lowest unvisited one, keeping the visited pixels a prefix, the output before them finished, the bytes after them untouched, and the regions filled so far a prefix of `Runs.Regions` |
| Segmentation.SegmentAt | index.js:129-142 | starting a region at the lowest unvisited pixel fills the run there as the next region, visits and finishes the output up to the end of the run, and leaves the bytes after it untouched |
| Segmentation.FillRegion | index.js:130-132 | a fresh region seeded at the lowest unvisited pixel ends up holding exactly the run there, with that run's accumulator |
| Segmentation.PaintRun | index.js:133-141 | painting a region whose members are `s, s + 4, ...` finishes the output up to the region's end and leaves the bytes after it untouched |
| Segmentation.Paint | index.js:133-141 | the painting loop writes the clamped colour at every member and leaves the bytes before and after the region unchanged |
| Segmentation.PaintStep | index.js:136-140 | writing one member's four bytes grows the painted block by one copy of the colour |
| Scenarios.SingletonRegion | index.js:123-144 | a pixel that does not continue to the right is a region of its own, stored unchanged |
| Scenarios.PairRegion | index.js:123-144 | a pixel that continues into one that continues no further forms a region of two |
| Scenarios.TripleRegion | index.js:123-144 | three pixels that each continue into the next, the last continuing no further, form a region of three |
| Scenarios.PairColour | index.js:90-99 | the accumulator of two members is twice each channel sum |
| Scenarios.TripleColour | index.js:90-99 | the accumulator of three members is three times each channel sum |
| Scenarios.GreySimilar | index.js:71-79 | two opaque grey pixels are similar exactly when their shades differ by less than 3 |
| Scenarios.GreyPair | index.js:90-99 | two opaque grey pixels whose doubled sum is a byte are stored as that grey |
| Scenarios.GreyTriple | index.js:90-99 | three opaque grey pixels whose tripled sum is a byte are stored as that grey |
| Scenarios.FinalizeGrey | index.js:133-140 | an accumulator with three equal byte channels and an alpha channel of at least 255 is stored as that grey, opaque |
| Scenarios.SimilarPairRow | index.js:123-144 | a row of two similar grey pixels becomes one region, painted twice their sum |
| Scenarios.SimilarTripleRow | index.js:123-144 | a row of three grey pixels, each similar to the next, becomes one region, painted three times their sum |
| Scenarios.PairRowAt | index.js:123-144 | in an image two pixels wide, a row of two similar grey pixels is one region, painted twice their sum, and the scan continues with the next row |
| Scenarios.UniformSquare | index.js:123-144 | a two-by-two image of one grey is two regions, one per row, each painted four times the shade |
| Scenarios.DissimilarPairRow | index.js:123-144 | a row of two pixels that are not similar is stored unchanged |
| Scenarios.ColumnUnchanged | index.js:104-120 | an image one pixel wide is stored unchanged, however similar its pixels are |
| Scenarios.TwoSimilarPixels | index.js:123-144 | shades 10 and 11 in a row are painted 42 |
| Scenarios.ChainOfThree | index.js:123-144 | shades 0, 2 and 4 in a row form one region, painted 18, although 0 and 4 are not similar |
| Scenarios.ThreePixelRegion | index.js:90-99 | shades 0, 2 and 1 in a row are painted 9, three times their sum |
| Scenarios.UniformTwoByTwo | index.js:123-144 | a two-by-two image of shade 10 is painted 40 everywhere, not the 160 one region of four would give |
| Scenarios.ThresholdIsStrict | index.js:71-79 | shades 0 and 3 are not similar, and the row is stored unchanged |

## Left out

- The page set-up (index.js:1-39), file reading and image decoding (index.js:41-69), and the event handler that draws, exports and offers the download (index.js:146-175): these are DOM, canvas and promise plumbing with no logic of their own.
- The two dimensions of `ImageData`: the model takes the buffer and `width`, and requires `width > 0` and a length divisible by 4. Both hold for any `ImageData`. index.js:123-144 checks neither, and neither does the model beyond these two requirements. A buffer whose last row is partial is accepted and segmented.
- IEEE-754 doubles: the accumulator is an exact `real`. The source's doubles round, and their divisions can differ from exact ones in the last place.
- The `hits` buffer is a `Uint8ClampedArray` of 0 and 1 in the source (index.js:126, index.js:82-83) and an array of `bool` in the model.
- The call-stack depth of the recursion. The source may exhaust the JavaScript stack on a very wide image. Each call here nests inside the previous one without limit.
- Segmentation.Paint: requires the members to be `s, s + 4, ...`, which `FillRegion` guarantees, and so does not describe painting an arbitrary member list. The same holds for `Segmentation.PaintRun`.
- Segmentation.Region.AverageSimilarNeighbors: its contract states the effect of a visit from any state: connected new members, every step closed. What the members are is stated only for the state the driver calls it in (`Segmentation.VisitedRun`), not for an arbitrary `hits`.
