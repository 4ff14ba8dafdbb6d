# Icon and cut-out scripts of lovestory-vision, modelled in Dafny

The repository ships one-shot image scripts built on Pillow and NumPy. Each one loads an
image, classifies every pixel with a fixed integer rule, writes a mask or rewrites the
pixel array, and hands the result to Pillow filters. This project models the exact layer
underneath the library calls:

- the per-pixel classifiers (light background, parchment, distance to a reference colour,
  red reflections, bright outlines, glow);
- the loops that fill a mask buffer or rewrite the pixel array in place;
- corner sampling and the per-channel median of the glove script;
- the keyword ordering of inbox files and the mapping of inputs to output slots;
- the average-subject-colour fallback and the resize guards.

The model keeps the source's form. A mask-filling loop is a method over an `array2`, proved
against the per-pixel function it applies. A NumPy masked assignment is a `forall` statement
on the pixel array, with the masks computed first. Pure helpers are functions.

## Layout

| file | module | models |
|---|---|---|
| pixels.dfy | `Pixels` | 8-bit channels, RGBA and RGB pixels, `max`/`min`/saturation/mean |
| raster.dfy | `Raster` | the shared fill loop over an `[x, y]` grid, value planes, `crop` |
| arith.dfy | `Arith` | multiplication and truncating-division facts |
| light_background.dfy | `LightBackground` | the light/washed-out background rule shared by three scripts |
| sizing.dfy | `Sizing` | the "shrink to fit" resize guard |
| hint_order.dfy | `HintOrder` | `pick`, the two append loops building `ordered`, the slot loop |
| stats.dfy | `Stats` | `statistics.median` on integers, with `int()` truncation |
| make_outline_symbols.dfy | `MakeOutlineSymbols` | tools/make_outline_symbols.py |
| extract_symbols5.dfy | `ExtractSymbols5` | tools/extract_symbols5.py |
| extract_symbols.dfy | `ExtractSymbols` | tools/extract_symbols.py |
| make_snail_cursor.dfy | `MakeSnailCursor` | tools/make_snail_cursor.py |
| strip_bg_glove.dfy | `StripBgGlove` | tools/strip_bg_glove.py |
| cleanup_mirror.dfy | `CleanupMirror` | cleanup_mirror.py |
| cleanup_outlines.dfy | `CleanupOutlines` | cleanup_outlines.py |
| remove_glow.dfy | `RemoveGlow` | remove_glow.py |

## Modelling choices

- **Float comparisons become exact integer ones.**
  - `mean > 230` is `r + g + b > 690`, `mean > 200` is `> 600` and `mean > 190` is `> 570`.
    Lemmas prove each integer rule equal to the real-valued one.
  - `r > g * 1.2` is `5 * r > 6 * g`.
- **Channels stay 8-bit.** NumPy adds `uint8` planes modulo 256, so the model does too. As a
  consequence, `too_bright` in cleanup_outlines.py can never hold.
- **Indexing.** Pillow's pixel-access objects are indexed `[x, y]`; the mask loops use the
  same indexing. NumPy's `data` is indexed `[row, column]`; the array rewrites use that.
- **Inbox files are represented by their names.** All candidates come from one directory, so
  two paths are equal exactly when their names are. `str.lower()` is modelled on ASCII letters.
- **Foreign results enter as parameters.** `getbbox` supplies the box, and the max filter
  supplies the dilation in the outline passes.
- **Alpha.** The scripts treat low alpha in different ways, and the model follows each one.
  - The glove script forces a floor: alpha below 12 gives a mask value of 0 whatever the colour.
  - The glow script clears every alpha below 200 (remove_glow.py:27, 33, 36 and 39).
  - The average colour leaves faint pixels, with alpha 8 or less, out of the mean.
  - The light-background and parchment rules classify `img.convert("RGB")` and ignore alpha.

## Model

| member | source | states |
|---|---|---|
| Pixels.Sat | tools/make_outline_symbols.py:65-66 | the saturation `max - min` of three bytes lies in 0..255 |
| Raster.Fill | tools/make_outline_symbols.py:60-69 | the mask has the image's width and height and every cell holds the classifier's value for the pixel under it, so the initial value never survives |
| Raster.Crop | tools/make_snail_cursor.py:72-73 | a crop has the box's width and height, and cell (i, j) is the source cell offset by the box's left/upper corner |
| LightBackground.IsBackground | tools/make_outline_symbols.py:68 | the background rule in integers; `IsBackgroundByMean` proves it equal to the real-valued mean rule and `MaskValue` maps it to 0/255 |
| LightBackground.IsBackgroundByMean | tools/make_outline_symbols.py:65-68 | the integer rule `sum > 690 or (sum > 600 and sat < 24)` decides exactly what the real-valued mean rule decides |
| LightBackground.MaskValue | tools/make_outline_symbols.py:68-69 | the cell is 0 or 255, and 0 exactly for background pixels |
| LightBackground.WhiteIsBackgroundBlueIsNot | tools/extract_symbols.py:52-54 | white is background for every alpha; pure blue is not |
| LightBackground.ZeroChannelIsSubject | tools/make_outline_symbols.py:65-69 | a pixel with a zero channel fails both sub-rules and gets 255 |
| LightBackground.AllAbove230IsBackground | tools/extract_symbols5.py:45-47 | all channels above 230 make a pixel background |
| Sizing.FitWithin | tools/make_outline_symbols.py:128-133 | never enlarges; keeps the image exactly when its longer side fits; otherwise both sides shrink, fit the bound, and the longer one equals it |
| Sizing.ScaledSide | tools/make_outline_symbols.py:130-132 | a scaled side is the floor of `s * k / m`: at most k, below s, and exactly k for the longer side |
| Sizing.ScaledSideBounds | tools/make_outline_symbols.py:130-132 | any q with q·m ≤ s·k < (q+1)·m is at most k, below s, and equal to k when s is m |
| Sizing.FitWithinIdempotent | tools/make_outline_symbols.py:128-133 | a shrunk image passes the guard again untouched |
| HintOrder.Matches | tools/make_outline_symbols.py:150-151 | the lower-cased name contains the lower-cased key as a contiguous substring |
| HintOrder.FirstMatch | tools/make_outline_symbols.py:148-153 | the file `pick(key)` returns; `FirstMatchIsFirst` ties it to "no match" or "earliest match" |
| HintOrder.FirstMatchIsFirst | tools/make_outline_symbols.py:148-153 | `pick` gives None exactly when no name contains the key, and otherwise the earliest file whose name does |
| HintOrder.Pick | tools/make_outline_symbols.py:148-153 | the scanning loop returns the first match |
| HintOrder.Hinted | tools/make_outline_symbols.py:156-159 | what the first loop appends, one `pick` result per key that finds a file; `HintedFacts` states its properties |
| HintOrder.AppendMissing | tools/make_outline_symbols.py:160-162 | what the second loop leaves; the four `AppendMissing…` lemmas below state its properties |
| HintOrder.Ordered | tools/make_outline_symbols.py:155-163 | the complete `ordered` list; `OrderedFacts` states its properties and `OrderByHints` builds it |
| HintOrder.AppendMissingKeepsPrefix | tools/make_outline_symbols.py:160-162 | the second loop only appends: the hinted list stays a prefix |
| HintOrder.AppendMissingMembers | tools/make_outline_symbols.py:160-162 | every input ends in the list, and nothing but inputs and hinted files does |
| HintOrder.AppendMissingAddsFresh | tools/make_outline_symbols.py:160-162 | what the second loop adds is not among the hinted files and holds no repeats |
| HintOrder.AppendMissingInOrder | tools/make_outline_symbols.py:160-162 | what the second loop adds is a subsequence of the inputs, in input order |
| HintOrder.HintedFacts | tools/make_outline_symbols.py:156-159 | at most one hinted entry per key, each an input and the first match of some key |
| HintOrder.OrderedFacts | tools/make_outline_symbols.py:155-163 | `ordered` holds every input and only inputs; it starts with the hinted files; the rest are distinct, not hinted, and in input order |
| HintOrder.OrderByHints | tools/make_outline_symbols.py:155-163 | both append loops build exactly the specified `ordered` |
| HintOrder.SlotPlan | tools/make_outline_symbols.py:173-176 | min(number of outputs, len(ordered)) writes, the i-th from `ordered[i]` to the i-th output name |
| Stats.Insert | tools/strip_bg_glove.py:25-27 | inserting keeps every element and adds exactly one |
| Stats.InsertSorted | tools/strip_bg_glove.py:25-27 | inserting into a sorted list keeps it sorted |
| Stats.Sort | tools/strip_bg_glove.py:25-27 | `sorted(data)` is a sorted permutation of the data |
| Stats.CountSort | tools/strip_bg_glove.py:25-27 | sorting does not change how many elements satisfy a predicate |
| Stats.MedianTrunc | tools/strip_bg_glove.py:25-28 | `int(statistics.median(xs))`, the middle of the sorted list; `MedianIsCentral` and `MedianWithinSamples` state what it promises |
| Stats.MedianIsCentral | tools/strip_bg_glove.py:25-28 | at most half the samples lie strictly below the truncated median, and at most half strictly above |
| Stats.MedianWithinSamples | tools/strip_bg_glove.py:25-28 | the truncated median lies between the smallest and the largest sample |
| StripBgGlove.CornerSquaresLength | tools/strip_bg_glove.py:20-23 | with w, h ≥ pad the four corners give 4·pad² samples |
| StripBgGlove.CornerSquares | tools/strip_bg_glove.py:20-23 | the samples of the first c corners, each its full pad×pad square read row by row; `CornerSquaresLength` counts them |
| StripBgGlove.SampleSquare | tools/strip_bg_glove.py:21-23 | the two inner loops append the pad×pad square at (sx, sy), row by row, after what was collected before |
| StripBgGlove.CornerSamples | tools/strip_bg_glove.py:17-23 | the corner loop collects the four pad×pad corner squares in order, 4·pad² samples in all |
| StripBgGlove.BandOf | tools/strip_bg_glove.py:25-27 | one band of every sample, in sample order |
| StripBgGlove.Reference | tools/strip_bg_glove.py:25-28 | the per-band truncated median of the samples; `ReferenceIsMedian` states what each band promises |
| StripBgGlove.ReferenceIsMedian | tools/strip_bg_glove.py:25-28 | each reference band splits that band's samples in half and lies within their range |
| StripBgGlove.CornerBgColor | tools/strip_bg_glove.py:16-28 | the reference colour is the per-band truncated median of the corner samples |
| StripBgGlove.Dist2 | tools/strip_bg_glove.py:38-40 | the squared distance is nonnegative and 0 exactly for the reference colour |
| StripBgGlove.Ramp | tools/strip_bg_glove.py:55-58 | strictly between the cutoffs the ramp value is at most 254 |
| StripBgGlove.RampIsTruncatedRealRamp | tools/strip_bg_glove.py:57-58 | the integer ramp is the floor of `255 * (d2 - hard) / (soft - hard)` computed in exact reals |
| StripBgGlove.AlphaOfDistance | tools/strip_bg_glove.py:50-58 | d2 ≤ 55² gives 0, d2 ≥ 95² gives 255, anything between gives at most 254 |
| StripBgGlove.AlphaOfDistanceMonotone | tools/strip_bg_glove.py:50-58 | the mask value never decreases as the distance grows |
| StripBgGlove.Alpha | tools/strip_bg_glove.py:47-58 | the cell written for one pixel: the alpha floor, then the distance rule; `TransparentCases` and `AlphaOfDistance` state its cases |
| StripBgGlove.TransparentCases | tools/strip_bg_glove.py:47-52 | alpha below 12 gives 0 whatever the colour, and so does the reference colour itself |
| StripBgGlove.StripBgMask | tools/strip_bg_glove.py:30-58 | every cell of the raw mask is the distance rule applied against the corner reference colour |
| LightBackground.CleanBackground | tools/make_outline_symbols.py:57-69 | the raw mask has the image's size, every cell is 0 or 255, and 0 exactly on background pixels; the loops at tools/extract_symbols5.py:35-47 and tools/extract_symbols.py:41-54 are the same |
| MakeOutlineSymbols.Threshold | tools/make_outline_symbols.py:81 | the point map gives 0 or 255, and 255 exactly above the threshold |
| MakeOutlineSymbols.ThresholdMonotone | tools/make_outline_symbols.py:81 | brighter input never maps lower, and a lower threshold keeps at least as much |
| MakeOutlineSymbols.Binarize | tools/make_outline_symbols.py:77-81 | the silhouette plane keeps its shape and is 255 exactly where alpha exceeds `thr` |
| MakeOutlineSymbols.SilhouetteDefault | tools/make_outline_symbols.py:77-81 | with the default `thr = 8`, alpha 9 and above is subject |
| MakeOutlineSymbols.SatSub | tools/make_outline_symbols.py:92 | `ImageChops.subtract` on one cell is positive exactly when the first value is larger |
| MakeOutlineSymbols.Gradient | tools/make_outline_symbols.py:90-94 | the binarized gradient is 255 exactly where the dilation exceeds the erosion, and 0 elsewhere |
| MakeOutlineSymbols.OutlineFromMask | tools/make_outline_symbols.py:87-98 | the result is the binarized gradient of the dilated and the eroded mask, thickened by exactly `max(0, stroke_px // 2)` passes of the same dilation |
| MakeOutlineSymbols.StrokePasses | tools/make_outline_symbols.py:96 | widths up to 1 give no passes, a width gives half of itself rounded down, and 5 gives 2 like the default 4 |
| MakeOutlineSymbols.Counted | tools/make_outline_symbols.py:108 | the counted pixels all have alpha above 8 and are no more than the pixels |
| MakeOutlineSymbols.CountedMultiplicity | tools/make_outline_symbols.py:108-109 | each pixel with alpha above 8 is counted exactly as often as it occurs, and no other pixel is counted |
| MakeOutlineSymbols.BandSum | tools/make_outline_symbols.py:109 | a band total over n pixels is at most 255·n |
| MakeOutlineSymbols.MeanBand | tools/make_outline_symbols.py:113 | the truncated mean q of a total s over n satisfies q·n ≤ s < (q+1)·n and is a byte |
| MakeOutlineSymbols.MeanOf | tools/make_outline_symbols.py:113 | one band's truncated mean q over n pixels with total s: q·n ≤ s < (q+1)·n |
| MakeOutlineSymbols.MeanColor | tools/make_outline_symbols.py:113 | the colour of the three band means satisfies that bracket in every band |
| MakeOutlineSymbols.MeansBracket | tools/make_outline_symbols.py:113 | a colour built from the three band means satisfies every band's bracket |
| MakeOutlineSymbols.AverageSubjectColor | tools/make_outline_symbols.py:101-114 | the fallback tan when nothing is counted, otherwise each band is the truncated mean of the counted pixels |
| MakeOutlineSymbols.FallbackWhenNothingCounted | tools/make_outline_symbols.py:108-112 | the fallback applies exactly when no pixel has alpha above 8 |
| MakeOutlineSymbols.MeanOfUniformList | tools/make_outline_symbols.py:109-113 | over pixels of one colour, a band's mean is that colour's band |
| MakeOutlineSymbols.BandOfUniform | tools/make_outline_symbols.py:109-113 | for a subject of one colour, each band of the average is that colour's band |
| MakeOutlineSymbols.AverageOfUniform | tools/make_outline_symbols.py:109-113 | a subject of one colour averages to exactly that colour |
| MakeOutlineSymbols.FaintPixelIgnored | tools/make_outline_symbols.py:108-109 | adding a pixel with alpha 8 or less does not change the average |
| MakeOutlineSymbols.ResizeMax | tools/make_outline_symbols.py:128-133 | untouched exactly when both sides are at most 512; otherwise both sides shrink to at most 512 |
| MakeOutlineSymbols.PickOrder | tools/make_outline_symbols.py:146-163 | `_pick_order` is the specified order and holds exactly the input files |
| MakeOutlineSymbols.Run | tools/make_outline_symbols.py:166-179 | no write for an empty inbox; otherwise min(4, len(ordered)) writes, at least one, `OUT_FILES[i]` from `ordered[i]` |
| MakeOutlineSymbols.LoneFileTakesFirstSlot | tools/make_outline_symbols.py:173-176 | a lone input becomes about.png whatever its name |
| MakeOutlineSymbols.DoubleHintRepeats | tools/make_outline_symbols.py:155-159 | a name matching both "about" and "portfolio" is appended twice and fills the first two slots |
| ExtractSymbols5.ResizeMax | tools/extract_symbols5.py:54-59 | images whose longer side is at most 512 are kept; otherwise both sides shrink and the longer becomes 512 |
| ExtractSymbols5.Run | tools/extract_symbols5.py:62-83 | no write for an empty inbox; otherwise every input is in `ordered`, and there are min(5, len(ordered)) writes, slot i from `ordered[i]` |
| ExtractSymbols5.PressSlot | tools/extract_symbols5.py:74-83 | when all five keys find a file, press.png comes from the first file matching "press" |
| ExtractSymbols.ResizeMax | tools/extract_symbols.py:62-67 | unchanged when both sides fit `max_size`; otherwise both sides are at most `max_size` |
| ExtractSymbols.Run | tools/extract_symbols.py:70-84 | min(4, len(imgs)) writes, slot i from `imgs[i]` with no reordering; none for an empty inbox |
| MakeSnailCursor.IsPaper | tools/make_snail_cursor.py:58 | the paper rule in integers; `IsPaperByMean` proves it equal to the real-valued rule and `BrightClauseRedundant` shows its second clause adds nothing |
| MakeSnailCursor.IsPaperByMean | tools/make_snail_cursor.py:53-58 | the integer paper rule decides exactly what the real-valued mean rule decides |
| MakeSnailCursor.BrightClauseRedundant | tools/make_snail_cursor.py:58 | the "all channels above 225" clause is implied by the first clause |
| MakeSnailCursor.MaskValue | tools/make_snail_cursor.py:58-59 | the cell is 0 or 255, and 0 exactly for paper |
| MakeSnailCursor.PaperExamples | tools/make_snail_cursor.py:56-59 | white and (230, 230, 230) are paper; a channel sum of 570 or less is never paper |
| MakeSnailCursor.SaturatedIsKept | tools/make_snail_cursor.py:55-58 | a pixel with saturation 35 or more is never paper |
| MakeSnailCursor.ComputeMask | tools/make_snail_cursor.py:41-59 | the raw mask has the image's size, every cell is 0 or 255, and 0 exactly on paper |
| MakeSnailCursor.TrimToContent | tools/make_snail_cursor.py:68-74 | without a box both are returned unchanged; with one, image and mask are cropped with that same box |
| MakeSnailCursor.TrimKeepsPairAligned | tools/make_snail_cursor.py:68-74 | the trimmed image and mask have the same size |
| MakeSnailCursor.CursorResize | tools/make_snail_cursor.py:83-87 | images no wider than `out_width` are kept; wider ones become `out_width` wide with the truncated proportional height |
| MakeSnailCursor.CursorResizeIdempotent | tools/make_snail_cursor.py:83-87 | a resized cursor passes the width guard again untouched |
| CleanupMirror.RedMask | cleanup_mirror.py:27 | the aggressive red rule with `1.2` compared exactly; `RedMaskWithinReddish` shows it is inside `Reddish` |
| CleanupMirror.Reddish | cleanup_mirror.py:30 | the lower-threshold red rule; `Examples` and `CleanedFacts` pin its effect |
| CleanupMirror.Dark | cleanup_mirror.py:33 | the dark rule: every colour below 100 and alpha above 50; `CleanedFacts` describes its clamping |
| CleanupMirror.RedArea | cleanup_mirror.py:36 | the union of the two red masks; `RedMaskWithinReddish` shows it equals `Reddish` |
| CleanupMirror.RedMaskWithinReddish | cleanup_mirror.py:27-36 | every pixel of the line-27 mask is reddish, so the combined mask is the line-30 mask |
| CleanupMirror.Cleaned | cleanup_mirror.py:39-44 | one pixel after both writes; `CleanedFacts` and `CleanedIdempotent` state what it promises |
| CleanupMirror.Darken | cleanup_mirror.py:42-44 | `np.minimum(c, 30)` never raises a value and keeps values up to 30 |
| CleanupMirror.CleanedFacts | cleanup_mirror.py:36-44 | reddish pixels lose alpha; dark pixels are clamped to 30; pixels in neither mask are unchanged; alpha only drops to 0; no channel rises |
| CleanupMirror.BothMasksApply | cleanup_mirror.py:27-44 | (90, 50, 50, 255) is in both masks and becomes (30, 30, 30, 0) |
| CleanupMirror.Examples | cleanup_mirror.py:27-44 | (200, 10, 10, 255) loses its alpha; (5, 5, 5, 255) is unchanged |
| CleanupMirror.CleanedIdempotent | cleanup_mirror.py:27-44 | a second cleanup changes nothing |
| CleanupMirror.CleanupRedReflections | cleanup_mirror.py:20-44 | every pixel of the array ends equal to the cleanup of its original value |
| CleanupOutlines.BrightArea | cleanup_outlines.py:27 | some channel above 200 and alpha below 150; `CleanedFacts` shows it clears alpha |
| CleanupOutlines.TooBright | cleanup_outlines.py:30 | the wrapped 8-bit sum above 400; `TooBrightNeverHolds` shows it never fires |
| CleanupOutlines.WrappedSum | cleanup_outlines.py:30 | the `uint8` sum of the three colour planes, modulo 256; `WrapKeepsLightGrey` shows the wrap on (200, 200, 200) |
| CleanupOutlines.LowAlphaArtifact | cleanup_outlines.py:33 | alpha below 100 and some channel above 100; `CleanedFacts` shows it clears alpha |
| CleanupOutlines.Artifact | cleanup_outlines.py:36 | the union of the three masks; `TooBrightNeverHolds` reduces it to the other two |
| CleanupOutlines.Cleaned | cleanup_outlines.py:39 | one pixel after the write; `CleanedFacts` and `CleanedIdempotent` state what it promises |
| CleanupOutlines.TooBrightNeverHolds | cleanup_outlines.py:30-36 | the wrapped 8-bit sum never exceeds 400, so the artifact mask is the other two masks |
| CleanupOutlines.WrapKeepsLightGrey | cleanup_outlines.py:30 | (200, 200, 200, 255) has wrapped sum 88 and is kept |
| CleanupOutlines.CleanedFacts | cleanup_outlines.py:27-39 | both effective rules clear alpha; alpha 150 or more is untouched; colour never changes; alpha only becomes 0 |
| CleanupOutlines.CleanedIdempotent | cleanup_outlines.py:27-39 | a second cleanup changes nothing |
| CleanupOutlines.CleanupOutlines | cleanup_outlines.py:20-39 | every pixel of the array ends equal to the cleanup of its original value |
| RemoveGlow.SemiTransparent | remove_glow.py:27 | alpha strictly between 0 and 200; `GlowIsLowAlpha` folds it into the combined mask |
| RemoveGlow.BrightGlow | remove_glow.py:30 | some channel above 150 and alpha below 100; `GlowIsLowAlpha` shows it adds nothing |
| RemoveGlow.LowAlphaGlow | remove_glow.py:33 | alpha below 50; `GlowIsLowAlpha` folds it into the combined mask |
| RemoveGlow.Glow | remove_glow.py:36 | the union of the three masks; `GlowIsLowAlpha` shows it is exactly alpha below 200 |
| RemoveGlow.Cleaned | remove_glow.py:39 | one pixel after the write; `CleanedFacts` and `CleanedIdempotent` state what it promises |
| RemoveGlow.GlowIsLowAlpha | remove_glow.py:27-36 | the three masks together select exactly alpha below 200; `bright_glow` adds nothing |
| RemoveGlow.CleanedFacts | remove_glow.py:27-39 | alpha below 200 becomes 0, alpha 200 or more is untouched, colour never changes and plays no part |
| RemoveGlow.CleanedIdempotent | remove_glow.py:27-39 | a second pass changes nothing |
| RemoveGlow.RemoveGlow | remove_glow.py:20-39 | every pixel of the array ends equal to the cleanup of its original value |

## Left out

- Pillow filters (median, max, min, Gaussian blur), `ImageChops.subtract` on whole images, `putalpha`, `paste`, `composite`, `alpha_composite`, LANCZOS resampling, `getbbox` and `ImageStat`. Their code is not part of this model. Each pipeline stops at the raw mask or the rewritten array.
- `_composite_outline` and `_process_one` in tools/make_outline_symbols.py only chain Pillow calls, so they are not modelled.
- File globbing, `mkdir`, loading, saving, printing and command-line handling, including `load_candidates`, `ensure_dirs` and `find_default_input`.
- The lazy `ImageChops` import in tools/make_outline_symbols.py.
- The rembg scripts, the browser and install scripts, and the live-reload server. They are library wrappers or network I/O.
- Sizing.FitWithin: the target size is computed in exact arithmetic, not with the float `int(w * scale)`. The two can differ by one pixel.
- MakeOutlineSymbols.ResizeMax, ExtractSymbols5.ResizeMax, ExtractSymbols.ResizeMax: the same exact-arithmetic caveat. A target side of 0, which Pillow would reject, is not ruled out.
- MakeSnailCursor.CursorResize: the height `int(h * (out_width / w))` is computed in exact arithmetic, not in floating point. A width above `out_width`·h gives height 0, which Pillow's resize rejects; this case is not ruled out.
- StripBgGlove.Ramp: `int(255 * t)` is computed in exact arithmetic, not in floating point.
- StripBgGlove.CornerBgColor: requires an image at least `pad` wide and high. Smaller images give negative corner origins, which are not modelled.
- StripBgGlove.StripBgMask: requires an image at least 10×10, for the same reason.
- MakeOutlineSymbols.OutlineFromMask: takes the 3×3 maximum and minimum filters as parameters, since they are Pillow's, and requires that they give planes of one shape.
- MakeOutlineSymbols.AverageSubjectColor: takes the image's pixels as a list, and the mean is the exact quotient, not `ImageStat`'s float mean.
- MakeSnailCursor.TrimToContent: takes the bounding box as a parameter, since `getbbox` is Pillow's. It requires that the box lie inside the image.
- HintOrder.Matches: `lower()` is modelled on ASCII letters only, and paths are compared by file name.
