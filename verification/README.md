# Verified model of a Wayland RDP server's frame and clipboard core

The server captures a desktop, finds what changed, encodes it as H.264 for a remote client and keeps the
clipboards of both sides in step. This project models the parts of it in which a mistake is easy to make and
hard to see, and proves what they promise:

- **Damage detection** (`src/damage/mod.rs`): frames are cut into tiles, each tile is compared with the
  previous frame by a scalar or a vector kernel, dirty tiles become rectangles, and rectangles are merged
  until none are adjacent. `merge_regions` is proved to compute the *finest stable grouping* of its input: the
  one partition with pairwise non-adjacent bounding boxes that refines every other such partition. Existence,
  uniqueness, idempotence and independence of the input order follow from that description.
  The detector with its reused buffers is proved to return what a stateless function of two frames and the
  configuration returns, on every run.
- **AVC444 scheduling** (`src/egfx/avc444_encoder.rs`): when the second sub-stream is encoded, when keyframes
  are forced, and whether every encoded sub-frame reaches the client. The AVC420 encoder shares the timer.
- **Annex B splitting** (`src/egfx/encode_diagnostics.rs`, `src/egfx/encoder.rs`): two independently written
  scanners over the byte stream format of Annex B of ITU-T H.264; round trips, and exactly when they agree.
- **Colour conversion and chroma subsampling** (`src/egfx/color_convert.rs`): exact ranges of the fixed-point
  arithmetic, and the AVX2 and NEON kernels, instruction by instruction, against the scalar loops.
- **Packing into two views** (`src/egfx/yuv444_packing.rs`): which chroma samples of a 4:4:4 frame the
  auxiliary 4:2:0 view still determines.
- **FUSE file table** (`src/clipboard/fuse.rs`): two maps under separate locks, as atomic steps between lock
  releases, with any interleaving of readers.
- **Clipboard ownership** (`src/clipboard/sync.rs`): the echo-protection state machine under an arbitrary
  clock.

Source that works step by step is modelled by methods with loops and by classes; each method is proved
against a specification function, and the properties are proved of those functions. `dafny verify
dfyconfig.toml` checks the whole project.

## Where the code differs from what it says

- The comment over the AVX2 BGRA kernel (`src/egfx/color_convert.rs:398-440`) says that pixels 0 to 7 of a
  block are stored. Packing works inside 128-bit lanes and only the low lane is read, so positions 4 to 7 of
  every full block receive the values of pixels 0 to 3. `ColorKernels.BgraToYuv444` states what is stored,
  `ColorKernels.Avx2FrameAgreesIff` when that is the scalar result, `ColorKernels.Avx2DiffersFromScalar` gives
  a frame for which it is not.
- "Don't encode what you don't send" (`src/egfx/avc444_encoder.rs:646-661`) fails on exactly two branches: an
  empty main picture after a non-empty auxiliary one, and an auxiliary error after a main picture.
  `Avc444Delivery.EncodedIsDeliveredIff` is the exact condition; `EmptyMainLosesAux` and `AuxErrorLosesMain`
  are the witnesses.
- A frame without the auxiliary stream relies on an auxiliary picture that the client cached. There always is
  one if and only if the first frame that gets through takes the auxiliary stream and its auxiliary data is
  not empty: `Avc444Delivery.WithoutAuxFollowsAux`. It fails when that auxiliary picture comes back empty
  (`EmptyFirstAuxLeavesClientWithout`) and when an earlier auxiliary picture was thrown away together with an
  empty main picture (`EmptyMainLeavesClientWithout`).
- The auxiliary view is said to hold the chroma samples that subsampling discards
  (`src/egfx/yuv444_packing.rs:237-250`). Its luma plane is padded to whole macroblocks and then cut to the
  height of the frame, which drops odd rows of V unless the height is a multiple of sixteen:
  `AuxPacking.AuxKeepsAllIff`. At 1080 rows four rows are lost: `AuxPacking.FullHdLosesFourRows`.
- The two Annex B scanners disagree on a start code that directly follows another:
  `AnnexBProperties.ScannersAgreeIff`, with the stream of `AnnexBProperties.BackToBackExample`.
- A FUSE lookup can answer with a file of another name when `set_files` falls between its two reads. It does
  so exactly when the latest such `set_files` has already inserted a descriptor of another name at the inode
  that the lookup read (`FuseTable.LookupMistakesIff`); which descriptor lists can cause it is
  `FuseTable.SetFilesIsHarmfulIff`, and `FuseTable.ReusedInodeAnswersWrongName` is a witness.
- `update_reference` accepts a buffer of any length, and rows that it does not hold count as unchanged. With
  exact settings a comparison is complete if and only if the reference is at least as long as the frame:
  `DamageProperties.ReportsAllIff`, and on every run `DamageProperties.CompleteOnRunIff`. An empty update
  blinds the detector: `DamageProperties.EmptyUpdateBlindsDetector`.

## Model

| member | source | states |
|---|---|---|
| Regions.OverlapsIffCommonPixel | src/damage/mod.rs:105-120 | two non-empty rectangles overlap if and only if some pixel is contained in both |
| Regions.FullFramePixels | src/damage/mod.rs:91-98 | the full frame contains exactly the pixels with coordinates below its dimensions |
| Regions.UnionIsLeastCover | src/damage/mod.rs:122-134 | the union contains both operands and lies in every rectangle that does |
| Regions.AdjacentIffPixelsNear | src/damage/mod.rs:136-159 | non-empty rectangles are adjacent at distance d if and only if some pixel of one is at most d + 1 away, in both axes, from some pixel of the other |
| Regions.AdjacencyMonotone | src/damage/mod.rs:136-159 | growing either of two adjacent rectangles keeps them adjacent, and adjacency is symmetric |
| Regions.NonAdjacentAreDisjoint | src/damage/mod.rs:136-159 | non-adjacent rectangles share no pixel at any merge distance |
| Regions.AreaCountsPixels | src/damage/mod.rs:101-103 | the area is the number of contained pixels |
| Regions.DisjointAreasFitFrame | src/damage/mod.rs:566-572 | areas of pairwise disjoint rectangles inside a frame sum to at most the frame area |
| RegionMerging.MergeRegions | src/damage/mod.rs:414-455 | the loop terminates and returns the bounding boxes of the finest stable grouping, ordered by least member |
| RegionMerging.OnePass | src/damage/mod.rs:424-451 | a pass that changes something strictly shortens the list; one that does not returns its input, which is then pairwise non-adjacent |
| RegionMerging.Absorb | src/damage/mod.rs:433-446 | the inner loop joins the groups of every later rectangle adjacent to the grown one, and absorbs nothing only if none is adjacent |
| RegionMerging.JoinStaysBelowStable | src/damage/mod.rs:440-444 | joining two groups with adjacent boxes still refines every stable grouping, in whatever order joins happen |
| RegionMerging.StableIffBoxesNonAdjacent | src/damage/mod.rs:440-454 | a listed grouping is stable if and only if its listed boxes are pairwise non-adjacent |
| MergeProperties.MergeIsUnique | src/damage/mod.rs:414-455 | the specification determines the output list, order included |
| MergeProperties.MergeExists | src/damage/mod.rs:414-455 | every input has a merge, reached by joining adjacent groups in any order |
| MergeProperties.MergeSeparates | src/damage/mod.rs:440-454 | outputs are pairwise non-adjacent and no more numerous than inputs |
| MergeProperties.MergeKeepsPixelsApart | src/damage/mod.rs:440-454 | pixels of two different outputs are more than d + 1 apart in some axis |
| MergeProperties.MergeCovers | src/damage/mod.rs:441 | every input rectangle lies in some output |
| MergeProperties.MergeIsTight | src/damage/mod.rs:441 | each side of an output is a side of some input that lies in it |
| MergeProperties.MergeStaysInFrame | src/damage/mod.rs:414-455 | outputs of rectangles of a frame are disjoint, inside the frame, and cover at most its area |
| MergeProperties.SeparatedIsFixed | src/damage/mod.rs:422-454 | a list is its own merge if and only if it is pairwise non-adjacent |
| MergeProperties.MergeIsIdempotent | src/damage/mod.rs:414-455 | merging a merged list returns the same list |
| MergeProperties.MergeIgnoresOrder | src/damage/mod.rs:414-455 | permuting the input changes neither the set nor the multiset of output rectangles |
| PixelDiff.CountScalar | src/damage/mod.rs:252-269 | returns the number of pixels with a colour channel differing by more than the threshold |
| PixelDiff.DiffersIff | src/damage/mod.rs:259-264 | a pixel differs if and only if one of its first three bytes moved by more than the threshold, up or down |
| PixelDiff.CountIsCardinality | src/damage/mod.rs:252-269 | the count is the cardinality of the set of differing pixels |
| PixelDiff.Avx2Block | src/damage/mod.rs:303-321 | subtract, or, mask, compare, movemask and popcount of one block count its eight pixels exactly |
| PixelDiff.CountAvx2 | src/damage/mod.rs:278-335 | returns the scalar count for all slices that the kernel may read, short inputs and tails included |
| PixelDiff.NeonBlock | src/damage/mod.rs:364-377 | absolute difference, compare, mask, shift and add across count four pixels exactly |
| PixelDiff.CountNeon | src/damage/mod.rs:338-391 | returns the scalar count for all slices that the kernel may read |
| PixelDiff.CountDifferentPixels | src/damage/mod.rs:394-412 | the answer does not depend on the kernel that the processor selects |
| PixelDiff.AlphaIsIgnored | src/damage/mod.rs:260-263 | frames that agree outside the alpha bytes have equal counts |
| TileGrid.TilesToRegions | src/damage/mod.rs:457-484 | the flat flag vector becomes the row-major list of clipped, non-empty rectangles of selected tiles |
| TileGrid.GridRegionsMember | src/damage/mod.rs:457-484 | a rectangle is listed if and only if it is the non-empty clipped rectangle of a selected tile of the grid |
| TileGrid.GridIsInReadingOrder | src/damage/mod.rs:467-480 | the rectangles are listed row by row, each row from left to right |
| TileGrid.CeilIsLeastCover | src/damage/mod.rs:632-633 | the grid has the least number of tiles that covers the frame |
| TileGrid.PixelHasTile | src/damage/mod.rs:631-676 | every pixel of the frame lies in a tile of the grid |
| TileGrid.CompareTile | src/damage/mod.rs:706-735 | adds up the differing pixels of the tile's rows, skipping rows that a buffer does not hold |
| GridProperties.RectDiffCounts | src/damage/mod.rs:706-735 | on whole frames the comparison of a rectangle is the number of changed pixels it contains |
| GridProperties.GridPartitionsFrame | src/damage/mod.rs:658-684 | for every frame size and tile size the tile comparisons sum to the scalar count of the two whole frames |
| DamageDetection.DamageDetector.constructor | src/damage/mod.rs:504-515 | a new detector has no reference and is invalidated |
| DamageDetection.DamageDetector.Detect | src/damage/mod.rs:529-592 | returns the stateless result for its reference, replaces the reference, updates the statistics and keeps them balanced |
| DamageDetection.DamageDetector.UpdateReference | src/damage/mod.rs:598-605 | replaces the reference frame and nothing else |
| DamageDetection.DamageDetector.Invalidate | src/damage/mod.rs:609-611 | marks the detector and nothing else |
| DamageDetection.DamageDetector.SetConfig | src/damage/mod.rs:626-629 | replaces the configuration and invalidates, so a stale grid is never reused |
| DamageDetection.DamageDetector.ResetStats | src/damage/mod.rs:617-619 | clears the statistics and nothing else |
| DamageDetection.DamageDetector.UpdateTileGrid | src/damage/mod.rs:631-639 | the reused flag vector has one entry per tile of the new grid |
| DamageDetection.DamageDetector.MarkTiles | src/damage/mod.rs:654-685 | whatever flags were left over, afterwards exactly the tiles above the threshold of the full tile area are flagged |
| DamageDetection.DamageDetector.DetectChanges | src/damage/mod.rs:641-700 | returns the merged dirty tiles without those below the minimum area, a function of both frames and the configuration |
| DamageDetection.RetainKeeps | src/damage/mod.rs:697 | a merged rectangle is reported if and only if it has the minimum area |
| DamageDetection.RetainKeepsOrder | src/damage/mod.rs:697 | the reported rectangles keep the order of the merged ones |
| DamageDetection.ChangesFitFrame | src/damage/mod.rs:687-699 | reported rectangles lie in the frame, are disjoint, and their areas sum to at most the frame area |
| DamageProperties.QuietFrameReportsNothing | src/damage/mod.rs:651-697 | if no tile of the grid has more than T changed pixels, nothing is reported |
| DamageProperties.ReportedHoldsDirtyTile | src/damage/mod.rs:683-697 | every reported rectangle has the minimum area and contains a tile with more than T changed pixels |
| DamageProperties.DirtyTileIsReportedOrDropped | src/damage/mod.rs:683-697 | every tile with more than T changed pixels lies in a reported rectangle or in a merged one below the minimum area |
| DamageProperties.MissedChangesAreBounded | src/damage/mod.rs:651-697 | changed pixels outside the result number at most T per clean tile plus those in dropped merged rectangles |
| DamageProperties.NothingMissedWhenExact | src/damage/mod.rs:651-697 | with T = 0 and a minimum area of at most 1 no changed pixel is missed |
| DamageProperties.PrefixHidesEverything | src/damage/mod.rs:725-727 | a frame that begins with the bytes of the reference is reported as unchanged, whatever follows |
| DamageProperties.ReportsAllIff | src/damage/mod.rs:725-727 | with T = 0 and a minimum area of at most 1, every pixel that the reference does not hold or that differs is reported for every new frame if and only if the reference is at least as long as the frame |
| DamageProperties.EmptyReferenceHidesEverything | src/damage/mod.rs:725-727 | against an empty reference buffer nothing is ever reported, whatever the new frame is |
| DamageProperties.ReferenceIsLatestFrame | src/damage/mod.rs:584-605 | on every run the reference is the frame supplied last, by detect or by update_reference |
| DamageProperties.ConfigIsLatest | src/damage/mod.rs:626-629 | on every run the configuration is the one set last |
| DamageProperties.FullFrameUnlessUndisturbed | src/damage/mod.rs:544-562 | a full frame is returned if and only if no detect of this size has been left undisturbed since |
| DamageProperties.DetectIsStateless | src/damage/mod.rs:529-629 | on every run detect returns the stateless function of the latest frame and the current one, or one full frame |
| DamageProperties.NoChangeIsEverMissed | src/damage/mod.rs:529-629 | on every run, with T = 0 and a minimum area of at most 1, every pixel that differs from the latest frame of at least the frame size is reported |
| DamageProperties.CompleteOnRunIff | src/damage/mod.rs:529-629 | on every run the next detection is complete for every new frame if and only if it returns a full frame or the latest frame supplied is at least as long as the frame |
| DamageProperties.EmptyUpdateBlindsDetector | src/damage/mod.rs:598-605 | witness: after detect and an empty update_reference the next detect of that size reports nothing |
| DamageProperties.StatsStayBalanced | src/damage/mod.rs:554-581 | on every run processed = skipped + full + partial = number of detections since the last reset, and damage area is at most frame area |
| DamageProperties.StatsCountVerdicts | src/damage/mod.rs:554-581 | on every run the counters are exactly the detections with an empty, a nine-tenths or a smaller report, and the areas reported and seen, since the last reset |
| AnnexB.FindNalEnd | src/egfx/encode_diagnostics.rs:229-239 | finds the first start code at or after a position, or the end |
| AnnexB.ParseAnnexBNals | src/egfx/encode_diagnostics.rs:212-244 | on arbitrary bytes: ordered, disjoint, non-empty slices of the input, typed by the low five bits of their first byte, equal to the units of the specification |
| AnnexBProperties.ScanOfWritten | src/egfx/encode_diagnostics.rs:212-244 | well-formed units written after freely chosen 3- or 4-byte start codes are scanned back exactly |
| AnnexBProperties.WriteOfScanned | src/egfx/encode_diagnostics.rs:212-244 | the inverse on arbitrary bytes: the stream is what precedes its first start code, then the scanned units after start codes, then at most one start code at the end |
| AnnexB.FindAvcNalEnd | src/egfx/encoder.rs:223-238 | the rewriter's inner loop finds the first start code at or after a position, or the end |
| AnnexB.AnnexBToAvc | src/egfx/encoder.rs:195-255 | the output is the length-prefixed form of the rewriter's non-empty units |
| AnnexBProperties.UnprefixOfPrefixed | src/egfx/encoder.rs:243-249 | length-prefixed units below 2^32 bytes are read back exactly |
| AnnexBProperties.RewriterFindsNoMore | src/egfx/encoder.rs:195-255 | the rewriter never finds more units than the scanner |
| AnnexBProperties.ScannersAgreeIff | src/egfx/encoder.rs:223-252 | the two scanners find the same units if and only if no start code directly follows another |
| AnnexBProperties.BackToBackExample | src/egfx/encoder.rs:223-252 | witness: on 00 00 01 00 00 01 05 the scanner finds one four-byte unit, the rewriter one one-byte unit |
| AnnexBProperties.LengthPrefixedFormAgreesIff | src/egfx/encoder.rs:195-255 | reading back the rewriter's output gives the scanner's units under the same exact condition |
| AnnexBProperties.RewriteOfWritten | src/egfx/encoder.rs:195-255 | well-formed units written with any start codes come back from the length-prefixed form |
| ColorConvert.IntermediatesFitI32 | src/egfx/color_convert.rs:223-239 | no intermediate of the scalar expressions leaves i32 |
| ColorConvert.ClampsNeverFire | src/egfx/color_convert.rs:223-244 | luma clamps and limited-range chroma clamps never change a value |
| ColorConvert.ChromaSaturatesOnlyForPureColour | src/egfx/color_convert.rs:231-244 | full-range chroma lies in 1 to 256 before clamping and is clamped for exactly one colour per plane |
| ColorConvert.GreyStaysGrey | src/egfx/color_convert.rs:206-250 | grey has neutral chroma under every matrix and its own level as full-range luma |
| ColorConvert.LumaWeightsAreRounded | src/egfx/color_convert.rs:63-70 | the luma weights are the coefficients of BT.601 and BT.709, rounded to 1/65536 |
| ColorConvert.LumaIsAccurate | src/egfx/color_convert.rs:223-228 | luma is within 0.506 of the standard for every pixel |
| ColorConvert.BlueDifferenceIsAccurate | src/egfx/color_convert.rs:91-102 | U is 128 plus half of the scaled difference of blue and luma, within 0.53, for every pixel |
| ColorConvert.RedDifferenceIsAccurate | src/egfx/color_convert.rs:105-116 | V is 128 plus half of the scaled difference of red and luma, within 0.53, for every pixel |
| ColorConvert.LimitedRangeFormulas | src/egfx/color_convert.rs:36-38 | the limited-range matrix computes the documented OpenH264 formulas, rounded to nearest |
| ColorKernels.ConvertPixel | src/egfx/color_convert.rs:215-248 | one iteration stores the three clamped values |
| ColorKernels.ConvertScalar | src/egfx/color_convert.rs:206-250 | fills all three planes with the converted pixels |
| ColorKernels.Avx2PlaneBlock | src/egfx/color_convert.rs:294-440 | the eight stored bytes of a block are the conversions of its first four pixels, twice |
| ColorKernels.StoreRepeatsLowLane | src/egfx/color_convert.rs:411-440 | pack, pack, low lane, shuffle and low half store element j mod 4 at position j |
| ColorKernels.ConvertAvx2 | src/egfx/color_convert.rs:257-463 | fills the planes with the scalar ones in which positions 4 to 7 of each full block repeat positions 0 to 3 |
| ColorKernels.Avx2AgreesIff | src/egfx/color_convert.rs:411-440 | a plane is left as the scalar loop writes it if and only if it already repeats so |
| ColorKernels.Avx2FrameAgreesIff | src/egfx/color_convert.rs:257-463 | the AVX2 planes equal the scalar ones if and only if each pixel in a second half block has the colour of the pixel four places before |
| ColorKernels.Avx2AgreesOnFirstHalves | src/egfx/color_convert.rs:411-463 | tail pixels and pixels with index mod 8 below 4 always agree |
| ColorKernels.Avx2DiffersFromScalar | src/egfx/color_convert.rs:398-440 | four black and four white pixels become eight black ones |
| ColorKernels.NeonPlaneBlock | src/egfx/color_convert.rs:499-605 | the eight stored bytes are the conversions of the eight pixels |
| ColorKernels.ConvertNeon | src/egfx/color_convert.rs:471-626 | fills the planes as the scalar loop does, for every pixel count |
| ColorKernels.Yuv444Frame.constructor | src/egfx/color_convert.rs:138-147 | a new frame has black luma and neutral chroma in separate planes |
| ColorKernels.BgraToYuv444 | src/egfx/color_convert.rs:155-200 | the result for every processor and matrix: the scalar planes except under AVX2 with a full-range matrix |
| ChromaSubsample.BoxIsBetween | src/egfx/color_convert.rs:675-682 | the rounded average lies between the minimum and the maximum of its block |
| ChromaSubsample.BoxIsNearest | src/egfx/color_convert.rs:675-682 | the average is the nearest sample, ties going up |
| ChromaSubsample.SubsampledAt | src/egfx/color_convert.rs:666-686 | every output sample is the rounded average of its 2x2 block, addressed by row and column |
| ChromaSubsample.SubsampledLength | src/egfx/color_convert.rs:643-645 | the output has one sample per block |
| ChromaSubsample.Avx2Block | src/egfx/color_convert.rs:720-756 | unpack, hadd, pack and permute deliver sixteen box averages in order |
| ChromaSubsample.Avx2Row | src/egfx/color_convert.rs:716-762 | the vector steps of a row compute a prefix of the box row |
| ChromaSubsample.NeonBlock | src/egfx/color_convert.rs:814-841 | widen, pairwise add and narrow deliver eight box averages in order |
| ChromaSubsample.NeonRow | src/egfx/color_convert.rs:810-845 | the vector steps of a row compute a prefix of the box row |
| ChromaSubsample.SubsampleRow | src/egfx/color_convert.rs:711-782 | vector steps followed by single samples compute the box row for every even width |
| ChromaSubsample.SubsampleChroma420 | src/egfx/color_convert.rs:628-686 | every build computes the scalar box filter for every even width and height |
| AuxPacking.PackOddRows | src/egfx/yuv444_packing.rs:319-379 | the padded and cut auxiliary luma plane holds, row by row, eight odd rows of U and then of V per macroblock row |
| AuxPacking.PackOddColumns | src/egfx/yuv444_packing.rs:388-419 | an auxiliary chroma plane holds the odd columns of the even rows |
| AuxPacking.PackDualViews | src/egfx/yuv444_packing.rs:491-495 | the main view has the luma and the box-filtered chroma, the auxiliary view the packed rest |
| AuxPacking.AuxLumaLayout | src/egfx/yuv444_packing.rs:329-379 | sample by sample: rows 0 to 7 of each macroblock row are its odd U rows, rows 8 to 15 its odd V rows, and rows beyond the frame are neutral |
| AuxPacking.AuxChromaLayout | src/egfx/yuv444_packing.rs:402-419 | sample by sample: each auxiliary chroma plane holds the odd columns of the even rows of its own plane |
| AuxPacking.MainLayout | src/egfx/yuv444_packing.rs:208-231 | the main view has the whole luma and, in each chroma plane, the averages of the blocks of that plane |
| AuxPacking.HomeRowIsUnique | src/egfx/yuv444_packing.rs:329-379 | each odd row of U or V is carried by exactly one row of the padded plane |
| AuxPacking.SampleSurvivesIff | src/egfx/yuv444_packing.rs:318-432 | frames with equal auxiliary views agree on a sample if and only if it is in an odd row that is not cut off or in an odd column of an even row |
| AuxPacking.URowsSurvive | src/egfx/yuv444_packing.rs:421-423 | no odd row of U is ever cut off |
| AuxPacking.VRowSurvivesIff | src/egfx/yuv444_packing.rs:421-423 | an odd V row is cut off if and only if it is in the last partial macroblock row and would be carried below the frame |
| AuxPacking.AuxKeepsAllIff | src/egfx/yuv444_packing.rs:237-250 | every sample that subsampling leaves out of the main view is determined by the auxiliary view if and only if the height is a multiple of sixteen |
| AuxPacking.FullHdLosesFourRows | src/egfx/yuv444_packing.rs:421-423 | at 1080 rows exactly four odd rows of V are lost |
| IdrTimer.RemembersRestart | src/egfx/avc444_encoder.rs:477-556 | the timer holds the time of its latest restart, by a forced frame or a configuration |
| IdrTimer.PendingIffRequested | src/egfx/avc444_encoder.rs:495-532 | on every run the request flag is set if and only if a request came after the latest frame |
| IdrTimer.ForcedIff | src/egfx/avc444_encoder.rs:505-556 | on every run a frame is forced if and only if a request is pending, or the timer is enabled and the configured seconds have passed since the latest restart |
| IdrTimer.FirstForcedIff | src/egfx/avc444_encoder.rs:505-556 | the same for a timer that was not restarted yet |
| IdrTimer.DisabledTimerForcesRequestsOnly | src/egfx/encoder.rs:476-481 | with interval zero a frame is forced if and only if a request is pending |
| IdrTimer.ForcedFramesAreApart | src/egfx/encoder.rs:476-509 | without a request between them, consecutive forced frames are at least the interval apart |
| IdrTimer.ForcedFramesAreClose | src/egfx/encoder.rs:476-509 | consecutive forced frames are less than interval + gap apart if frames arrive at most gap apart |
| IdrTimer.KeyframesKeepComing | src/egfx/encoder.rs:476-509 | a frame a full interval after a forced one finds another forced or the timer configured since, or is forced itself |
| IdrTimer.RequestForcesNextFrame | src/egfx/avc444_encoder.rs:495-532 | a request is honoured by the next frame, whatever the clock says and whatever else happens in between |
| Avc420.Avc420Encoder.constructor | src/egfx/encoder.rs:442-451 | the periodic timer starts disabled |
| Avc420.Avc420Encoder.ConfigurePeriodicIdr | src/egfx/encoder.rs:465-473 | sets the interval and restarts the timer |
| Avc420.Avc420Encoder.IsPeriodicIdrDue | src/egfx/encoder.rs:476-481 | the read-only check is the condition under which the next frame is forced |
| Avc420.Avc420Encoder.EncodeBgra | src/egfx/encoder.rs:483-581 | on validated frames the timer steps as in the other encoder and a due keyframe is forced before encoding; every error and skip case |
| Avc420.Avc420Encoder.ForceKeyframe | src/egfx/encoder.rs:640-643 | sets the request flag |
| Avc420.Timer420FollowsTicks | src/egfx/encoder.rs:476-509 | on every run the AVC420 timer makes the steps of the shared timer |
| Avc420.Encoder420ForcesAreApart | src/egfx/encoder.rs:476-509 | on AVC420 runs, consecutive forced frames without a request between them are at least the interval apart |
| Avc420.Encoder420KeepsForcing | src/egfx/encoder.rs:476-509 | on AVC420 runs, a full interval after a forced frame another frame has been forced, unless the timer was configured |
| Avc420.Encoder420ForcesAreClose | src/egfx/encoder.rs:476-509 | on AVC420 runs, consecutive forced frames are less than interval + gap apart |
| Avc444.Avc444Encoder.constructor | src/egfx/avc444_encoder.rs:331-357 | the defaults: omission off, interval 30, timer 5 s |
| Avc444.Avc444Encoder.ConfigureAuxOmission | src/egfx/avc444_encoder.rs:400-422 | sets the omission settings with the interval clamped to 1 to 120 |
| Avc444.Avc444Encoder.SetAuxMaxInterval | src/egfx/avc444_encoder.rs:438-449 | clamps and sets the interval and returns the previous one |
| Avc444.Avc444Encoder.ConfigurePeriodicIdr | src/egfx/avc444_encoder.rs:477-489 | sets the interval and restarts the timer |
| Avc444.Avc444Encoder.RequestIdr | src/egfx/avc444_encoder.rs:495-498 | sets the request flag |
| Avc444.Avc444Encoder.IsPeriodicIdrDue | src/egfx/avc444_encoder.rs:505-515 | the non-consuming check agrees with the consuming decision at the same instant |
| Avc444.Avc444Encoder.ShouldForceIdr | src/egfx/avc444_encoder.rs:523-556 | consumes the request or restarts the timer, and marks the auxiliary stream as forced |
| Avc444.Avc444Encoder.ShouldSendAux | src/egfx/avc444_encoder.rs:942-1009 | the order of force flag, omission, first send, maximum, minimum and hash |
| Avc444.Avc444Encoder.EncodeMain | src/egfx/avc444_encoder.rs:603-644 | forced keyframes precede the main picture |
| Avc444.Avc444Encoder.EncodeAux | src/egfx/avc444_encoder.rs:663-727 | the calls and the new counters for omitted, skipped, failed and sent auxiliary pictures |
| Avc444.Avc444Encoder.EncodeBgra | src/egfx/avc444_encoder.rs:559-858 | result, new state and encoder calls of one frame, all error and early-return paths included |
| Avc444Properties.CounterMatchesLog | src/egfx/avc444_encoder.rs:663-727 | on every run the counter is the number of aux-less frames since the last send and the hash is set once something was sent |
| Avc444Properties.HashIsLatestSend | src/egfx/avc444_encoder.rs:715-719 | on every run the remembered hash is that of the auxiliary picture sent last |
| Avc444Properties.AuxTakenIff | src/egfx/avc444_encoder.rs:942-1009 | on every run, after a send, the auxiliary stream is taken if and only if it is forced, omission is off, M frames went without it, or at least ten did and the view has changed since the latest send |
| Avc444Properties.FirstAuxIsTaken | src/egfx/avc444_encoder.rs:965-968 | a new encoder takes the auxiliary stream until it has sent it once |
| Avc444Properties.SettingsAreLatest | src/egfx/avc444_encoder.rs:400-410 | on every run the settings are those configured last, with the interval brought into 1 to 120 |
| Avc444Properties.MaximumStaysInRange | src/egfx/avc444_encoder.rs:438-440 | on every run the interval stays in 1 to 120 |
| Avc444Properties.DefaultsOnRuns | src/egfx/avc444_encoder.rs:331-357 | an encoder that is never configured takes every auxiliary picture, has interval 30 and forces its first keyframe after five seconds |
| Avc444Properties.UnforcedSendIsSpaced | src/egfx/avc444_encoder.rs:942-1009 | through any change of settings, an unforced send has at least min(M, 10) aux-less frames before it for the M in force |
| Avc444Properties.SendsAreSpaced | src/egfx/avc444_encoder.rs:942-1009 | with a fixed M all unforced sends but the first are so spaced |
| Avc444Properties.GapsAreBounded | src/egfx/avc444_encoder.rs:970-977 | if auxiliary encodes are never empty there are at most M aux-less frames in a row after a send |
| Avc444Properties.SpacedPotential | src/egfx/avc444_encoder.rs:979-989 | the counting argument: (m + 1)(sends - 1 - forced) plus the open gap is at most the number of decisions |
| Avc444Properties.SendsAreFew | src/egfx/avc444_encoder.rs:942-1009 | over n decisions with F forced there are at most 1 + F + n / (min(M, 10) + 1) sends |
| Avc444Delivery.ProducedIsHandedUnlessLost | src/egfx/avc444_encoder.rs:663-744 | one frame hands over exactly what was encoded unless it takes one of the two losing branches |
| Avc444Delivery.RejectedIff | src/egfx/avc444_encoder.rs:569-580 | exactly when dimensions or buffer are rejected; a rejected frame leaves no trace |
| Avc444Delivery.DeliveredContents | src/egfx/avc444_encoder.rs:850-857 | a delivered frame carries the main picture, its keyframe flag, and the auxiliary picture exactly if it was taken and not empty |
| Avc444Delivery.EncodedIsDeliveredIff | src/egfx/avc444_encoder.rs:646-661 | over a run the non-empty pictures encoded are those delivered, in order, if and only if no frame takes a losing branch |
| Avc444Delivery.BytesCountedAreHanded | src/egfx/avc444_encoder.rs:812-816 | over every run the byte and frame counters are the totals handed to the client |
| Avc444Delivery.ReturningAuxIsForced | src/egfx/avc444_encoder.rs:665-684 | on every run an auxiliary picture is forced to a keyframe if and only if the main one is, or it returns after omitted frames with that option on |
| Avc444Delivery.WithoutAuxFollowsAux | src/egfx/avc444_encoder.rs:646-744 | on every run every frame delivered without the auxiliary stream follows one with it, if and only if the first frame that gets through takes the auxiliary stream and its data is not empty |
| Avc444Delivery.WithoutLossOnlyEmptyAuxMatters | src/egfx/avc444_encoder.rs:646-744 | for a new encoder that loses nothing before its first frame gets through, the condition is that this frame's auxiliary picture is not empty |
| Avc444Delivery.EmptyMainLeavesClientWithout | src/egfx/avc444_encoder.rs:715-744 | witness: an empty main picture makes the next frame go without an auxiliary picture that the client never had |
| Avc444Delivery.EmptyMainLosesAux | src/egfx/avc444_encoder.rs:740-744 | witness: an empty main picture discards an encoded auxiliary picture |
| Avc444Delivery.AuxErrorLosesMain | src/egfx/avc444_encoder.rs:689-704 | witness: an auxiliary error discards an encoded main picture |
| Avc444Delivery.EmptyFirstAuxLeavesClientWithout | src/egfx/avc444_encoder.rs:711-716 | witness: an empty first auxiliary picture leaves the client without one |
| Avc444Delivery.DueForcesBeforeMain | src/egfx/avc444_encoder.rs:603-640 | a keyframe that is due is forced before the main picture is encoded |
| Avc444Delivery.MainIsForcedIff | src/egfx/avc444_encoder.rs:603-614 | the first encoder call forces a keyframe if and only if one is due or all pictures are keyframes |
| Avc444Delivery.RequestReachesAux | src/egfx/avc444_encoder.rs:949-953 | a request survives rejected frames and main errors and forces the next auxiliary decision |
| Avc444Delivery.ForceSurvives | src/egfx/avc444_encoder.rs:523-556 | until an auxiliary decision either the request or the force flag stays set |
| Avc444Delivery.ForceAuxIffOwed | src/egfx/avc444_encoder.rs:523-556 | on every run the auxiliary stream is forced if and only if a forced keyframe has not been followed by an auxiliary decision yet |
| Avc444Delivery.DecisionForcedIff | src/egfx/avc444_encoder.rs:949-953 | a decision is forced if and only if a keyframe is forced on its frame or an earlier one is still owed an auxiliary stream |
| Avc444Delivery.TimerFollowsTicks | src/egfx/avc444_encoder.rs:523-556 | on every run the encoder's timer makes the steps of the shared timer, event by event |
| Avc444Delivery.ForcedEventIsForcedTick | src/egfx/avc444_encoder.rs:603-606 | the forced frames of a run are the forced ticks of its timer |
| Avc444Delivery.EncoderForcesAreApart | src/egfx/avc444_encoder.rs:523-606 | on the encoder's runs, consecutive forced frames without a request between them are at least the interval apart |
| Avc444Delivery.EncoderKeepsForcing | src/egfx/avc444_encoder.rs:523-606 | on the encoder's runs, a full interval after a forced frame another frame has been forced, unless the timer was configured |
| Avc444Delivery.EncoderForcesAreClose | src/egfx/avc444_encoder.rs:523-606 | on the encoder's runs, consecutive forced frames are less than interval + gap apart |
| FuseTable.FuseMount.constructor | src/clipboard/fuse.rs:379-389 | a new mount has empty tables and keeps its mount point |
| FuseTable.FuseMount.SetFiles | src/clipboard/fuse.rs:497-542 | rebuilds both maps and the counter from the descriptors and returns one path per descriptor, joined to the mount point |
| FuseTable.FuseMount.ClearFiles | src/clipboard/fuse.rs:544-551 | empties both maps and resets the counter |
| FuseTable.FuseMount.Read | src/clipboard/fuse.rs:249-294 | missing file, read past the end, or a request clamped to the end of the file and cut nowhere else |
| FuseTable.InodesFollowDescriptors | src/clipboard/fuse.rs:508-531 | after set_files the inodes are 2 to n + 1 in descriptor order |
| FuseTable.FilesDescribeDescriptors | src/clipboard/fuse.rs:512-531 | inode i + 2 has the name, size, clipboard data and 32-bit index of descriptor i |
| FuseTable.JoinedPath | src/clipboard/fuse.rs:537 | a relative name goes below the mount point after one separator, an absolute one stands alone |
| FuseTable.PathOfDescriptor | src/clipboard/fuse.rs:537 | path i is the joined name of descriptor i |
| FuseTable.NamesMapToLast | src/clipboard/fuse.rs:532-535 | each name maps to its last descriptor, and only descriptor names are mapped |
| FuseTable.StepKeepsInvariant | src/clipboard/fuse.rs:497-551 | every atomic step between lock releases keeps the tables consistent with the writer's position |
| FuseTable.NamesAlwaysPointToTheirFile | src/clipboard/fuse.rs:497-551 | on every interleaving, at every lock release, each mapped name points to a present file of that name |
| FuseTable.LookupFindsRequestedName | src/clipboard/fuse.rs:170-179 | with no start of set_files between its reads a lookup answers with the requested name, or with nothing if and only if the files were cleared |
| FuseTable.LookupReply | src/clipboard/fuse.rs:170-179 | what a lookup answers on every interleaving: the file of its name, the new descriptor that now has its inode, or nothing |
| FuseTable.LookupMistakesIff | src/clipboard/fuse.rs:170-179 | a lookup answers with another name if and only if the latest set_files between its reads has inserted a descriptor of another name at its inode |
| FuseTable.LatestRemovalDecides | src/clipboard/fuse.rs:497-551 | what the lookup sees depends on the latest set_files or clear_files between its reads and on the number of files inserted since |
| FuseTable.SetFilesIsHarmfulIff | src/clipboard/fuse.rs:497-542 | starting set_files between the reads can make the lookup answer with another name if and only if the new list has a descriptor of another name at the position of its inode |
| FuseTable.ReusedInodeAnswersWrongName | src/clipboard/fuse.rs:170-179 | witness: a set_files between the two reads makes the lookup of "a" answer with "b" |
| ClipboardSync.SyncManager.constructor | src/clipboard/sync.rs:121-127 | a new manager is idle |
| ClipboardSync.SyncManager.HandleRdpFormats | src/clipboard/sync.rs:148-190 | takes ownership and records it unless the detector reports a loop |
| ClipboardSync.SyncManager.HandlePortalFormats | src/clipboard/sync.rs:197-300 | the decision and the new state in every branch |
| ClipboardSync.SyncManager.SetRdpFormats | src/clipboard/sync.rs:345-349 | takes RDP ownership unconditionally and records the formats |
| ClipboardSync.SyncManager.SetPortalFormats | src/clipboard/sync.rs:351-355 | takes portal ownership unconditionally and records the types |
| ClipboardSync.OwnerHasAnnouncement | src/clipboard/sync.rs:148-300 | if RDP owns the clipboard, an accepted announcement has owned it ever since and fixes formats and timestamp |
| ClipboardSync.OwnerIsAnnouncement | src/clipboard/sync.rs:176-177 | ownership keeps the formats and the timestamp of its announcement until something replaces it |
| ClipboardSync.OwnerAfter | src/clipboard/sync.rs:148-355 | what each event does to the owner |
| ClipboardSync.DecisionWhileOwned | src/clipboard/sync.rs:217-279 | on every run, while an announcement owns the clipboard: exactly when a portal announcement is re-announced and when it is allowed, by force, clock, signature and empty list |
| ClipboardSync.DecisionWhileNotOwned | src/clipboard/sync.rs:281-300 | while RDP does not own the clipboard a portal announcement is allowed if and only if it is forced or causes no loop, and blocked otherwise |
| ClipboardSync.SignatureIffFromKlipper | src/clipboard/sync.rs:89-99 | an announcement has a signature if and only if one of its types contains one of Klipper's two marks |
| ClipboardSync.KlipperPresenceIsLatest | src/clipboard/sync.rs:139-141 | on every run Klipper counts as present if the latest report says so |
| ClipboardSync.OwnerIsRecorded | src/clipboard/sync.rs:185-187 | on every run the formats of the owner are what the loop detector was last told |
| ClipboardSync.SyncsAreAcceptances | src/clipboard/sync.rs:185-297 | on every run one remote sync is recorded per accepted RDP announcement and one local sync per allowed portal announcement |
| ClipboardSync.TakeoverNeedsForceAndTime | src/clipboard/sync.rs:217-279 | an Allow while RDP owns is forced and measures at least 2000 ms since the latest accepted announcement, whatever the clock does |
| ClipboardSync.ReannounceOnlyInsideWindow | src/clipboard/sync.rs:233-268 | every re-announcement is issued below 2000 measured milliseconds since that announcement and changes nothing |
| ClipboardSync.OnlyAcceptedEventsChangeTheState | src/clipboard/sync.rs:148-300 | a handler changes ownership, timestamp or detector if and only if it accepts |

## Left out

- The dirty threshold is a natural number `dirtyCount`; the source computes it from the full tile area in floating point.
- Sums of counters and areas are unbounded; wrap-around of `u32` and `u64` statistics and of `frames_since_aux` is not modelled. The size check of `encode_bgra` is modelled in 32 bits.
- A tile size of zero (a panic in the source) is excluded by the type of configurations; casts of tile coordinates to `u32` are exact inside a frame.
- DamageDetection.DamageDetector.Detect: requires a buffer of the stated size, as the assertion of the source does.
- PixelDiff.CountDifferentPixels: requires that `curr` covers the whole vector blocks of `prev`, because the kernels load `curr` at the offsets of `prev` without a bounds check; `compare_tile` passes slices of one length.
- Avc444.Avc444Encoder.EncodeBgra: a validated buffer has the exact size of the frame, because the colour conversion asserts it; larger buffers panic there.
- The H.264 encoder, the hash of the auxiliary view and the loop detector are inputs; the calls made on the encoder and the detector are recorded. One clock reading is taken per frame.
- AuxPacking.PackDualViews: requires even dimensions, which the subsampling asserts; the two auxiliary chroma planes are filled in separate loops. The diagnostic packing variants and the conversion back to BGRA in floating point are not modelled.
- Forcing a keyframe directly on the AVC444 encoder (`src/egfx/avc444_encoder.rs:866`) and the unused change threshold of the omission settings.
- ChromaSubsample.SubsampleRow: stores into a preallocated output vector are appends to a growing one, since every row is written left to right without gaps.
- FUSE: a single writer is assumed; `getattr`, `open`, `readdir`, timestamps, and the wait for file contents are not modelled.
- Clipboard: `check_content`, rate limiting and the loose equality of states are not modelled.
- DMA-BUF import, diagnostics dumps, the decoder self-test, logging, timing averages, configuration presets and stream levels: I/O or easy members.
