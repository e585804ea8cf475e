# Molecule-image normalisation and recognition parsing, in Dafny

The backend of the molecule-detection browser extension receives a captured
screenshot, normalises it for the optical structure recogniser OSRA, runs the
recogniser and returns the SMILES string it prints. This project models the
integer core of that backend and proves what it promises:

- `raster.dfy` (module `Raster`): single-channel images as a width, a height
  and rows of 8-bit luminance values; pixel sums and counts.
- `otsu.dfy` (module `Otsu`): the 256-bucket histogram, the between-class
  score of a threshold in exact arithmetic, and the threshold selection as a
  method whose loop is proved against the specification "the first threshold
  of maximal score among those that split the pixels, or 128 when none does".
- `point_maps.dfy` (module `PointMaps`): dark-theme inversion, light-artifact
  suppression at cutoff 160, binarisation at the selected threshold.
- `geometry.dfy` (module `Geometry`): the 3-pixel edge trim guarded by
  "both sides exceed 16", the 15-pixel white padding, and the size arithmetic
  of resolution normalisation (short side raised to 400, then the long side
  re-measured and lowered to 1500).
- `osra_output.dfy` (module `OsraOutput`): Python's `strip` and `split` over
  its whitespace characters, and the parse of the recogniser's output into
  the first token of the stripped standard output.
- `preprocess.dfy` (module `Preprocess`): the pipeline from the luminance
  image to the recogniser's input, with the library's contrast enhancement,
  median filter and resampling as function parameters.

The model's arithmetic is exact: the mean test is `sum < 128 * pixel count`,
the Otsu score is a Dafny `real`, and `int(w * (400 / min))` is
`w * 400 / min` rounded down. The source computes the resize sides as a
truncated product of doubles, which can fall one short of the exact value
(see "Left out"). For an image of exactly two luminance levels the selected
threshold is the darker level itself, not a value between the two: every
threshold from the darker level up to just below the lighter one makes the
same split, and the scan keeps the first. An image whose upscaled aspect
ratio exceeds 1500:1 gets a side of 0 from this arithmetic (`Geometry.ExtremeAspectCollapses`:
a 31 x 46501 padded image is sized 0 x 1500); the library's resize rejects a
zero side, so such a capture makes the request fail.

## Model

| member | source | states |
|---|---|---|
| Otsu.HistogramTotal | backend/server.py:77-78 | the histogram's buckets add up to width * height, the pixel total the scan uses |
| Otsu.SplitsIff | backend/server.py:86-92 | a threshold t leaves both classes non-empty exactly when some pixel is <= t and some pixel is > t |
| Otsu.OtsuThreshold | backend/server.py:65-103 | the scan returns the Otsu choice: among the thresholds that split the pixels, one of maximal score, and no earlier splitting threshold scores as high; 128 when no threshold splits |
| Otsu.IncumbentSkip | backend/server.py:87-89 | a threshold whose background class is empty (or whose foreground is) leaves the incumbent threshold and score as they were |
| Otsu.IncumbentStep | backend/server.py:94-101 | a splitting threshold replaces the incumbent exactly when its score is strictly greater, and the replaced or kept incumbent is again the first best so far |
| Otsu.IncumbentFinal | backend/server.py:90-92 | once the background class holds every pixel no later threshold splits, so stopping the scan there gives the final choice |
| Otsu.ScorePositive | backend/server.py:98-101 | every splitting threshold scores at least 1, so the first one always displaces the initial best score 0 |
| Otsu.OtsuChoiceBelowWhite | backend/server.py:81-103 | the choice lies in 0..254 |
| Otsu.OtsuChoiceUnique | backend/server.py:86-103 | at most one threshold is the Otsu choice, so the first-maximum rule determines the result |
| Otsu.OtsuChoiceRange | backend/server.py:81-103 | the choice is 128 when the image is empty or uniform; otherwise some pixel is <= the choice and some pixel is above it (min <= t < max) |
| Otsu.TwoLevelSplits | backend/server.py:86-92 | with exactly two occupied buckets a < b, exactly the thresholds a..b-1 split |
| Otsu.TwoLevelChoice | backend/server.py:86-103 | with exactly two occupied buckets a < b, the choice is a |
| Otsu.TwoValuedImage | backend/server.py:86-103 | an image whose pixels take exactly the two values a < b gets threshold a: the darker level itself, not a value strictly between the two levels |
| PointMaps.CorrectDarkTheme | backend/server.py:142-144 | the size is kept; a dark image (sum below 128 per pixel) has every pixel p replaced by 255 - p; any other image is returned unchanged |
| PointMaps.SumInverted | backend/server.py:144 | inversion turns a pixel sum S over n pixels into 255 * n - S |
| PointMaps.InvertInvolution | backend/server.py:144 | inverting twice gives back the image |
| PointMaps.CorrectedIsLight | backend/server.py:142-144 | after the correction a non-empty image has a sum above 127 per pixel |
| PointMaps.CorrectionMayStayDark | backend/server.py:142-144 | the correction is not idempotent: the image of luminances 127 and 128 is dark and so is its inversion |
| PointMaps.SuppressLight | backend/server.py:152 | the size is kept; pixels above 160 become 255 and pixels at most 160 are unchanged |
| PointMaps.SuppressedRange | backend/server.py:152 | after suppression every pixel is 255 or at most 160 |
| PointMaps.SuppressIdempotent | backend/server.py:152 | suppressing twice is suppressing once |
| PointMaps.Binarize | backend/server.py:164 | the size is kept, the result is binary, and a pixel is 255 exactly when the input pixel exceeds the threshold |
| PointMaps.BinarizeFixesBinary | backend/server.py:164 | a binary image is unchanged by binarisation at any threshold below 255 |
| PointMaps.RethresholdBinary | backend/server.py:163-164 | selecting the Otsu threshold of a binary image and binarising at it leaves the image unchanged |
| PointMaps.Threshold | backend/server.py:163-164 | the threshold is the Otsu choice of the image, the result is the image binarised at it, is binary, and equals the input when the input was binary |
| Geometry.Crop | backend/server.py:177 | the crop box (b, b, w - b, h - b) gives a (w - 2b) x (h - 2b) image whose pixel (x, y) is input pixel (x + b, y + b) |
| Geometry.CropAndPad | backend/server.py:174-178 | the result is 24 pixels larger per dimension when both sides exceed 16 and 30 otherwise; the outer 15-pixel frame is white; the interior is the input, shifted by 3 when trimmed |
| Geometry.CropAndPadKeepsBinary | backend/server.py:174-178 | a binary image stays binary through trim and padding |
| Geometry.ScaleFacts | backend/server.py:188-195 | in exact arithmetic, truncated scaling by num/den is monotone in the side, maps den to num (at least num from den up, at most num up to den), grows or shrinks a side as num/den is above or below 1, and is the floor of side * num / den (q * den <= side * num < (q + 1) * den) |
| Geometry.FloorScaleUnique | backend/server.py:188-195 | at most one integer satisfies the floor clause, so the clause fixes each scaled side |
| Geometry.ScaleUpSize | backend/server.py:184-191 | in exact arithmetic, a short side below 400 becomes exactly 400, each side becomes the floor of side * 400 / short side (so 100 x 200 gives 400 x 800), neither side shrinks and the orientation is kept; otherwise the size is unchanged |
| Geometry.ScaleDownSize | backend/server.py:193-195 | in exact arithmetic, a long side above 1500 becomes exactly 1500, each side becomes the floor of side * 1500 / long side (so 3000 x 2000 gives 1500 x 1000) and neither side grows; otherwise the size is unchanged |
| Geometry.NormalizedSize | backend/server.py:183-195 | in exact arithmetic, the final long side is at most 1500; a size within 400..1500 is kept; an upscaled size that needs no downscale is kept as upscaled and has short side 400; a downscaled size has long side 1500 and each side is the floor of the upscaled side * 1500 / the upscaled long side |
| Geometry.NormalizeResolution | backend/server.py:183-195 | an image already within 400..1500 is returned as it is; with a resampler that produces the requested size the result has exactly the exact-arithmetic normalised size of the input, the long side re-measured on the upscaled image |
| Geometry.ExtremeAspectCollapses | backend/server.py:187-195 | a 31 x 46501 padded image is sized 0 x 1500: the truncation reaches a zero side |
| OsraOutput.Strip | backend/server.py:43 | the stripped text is empty exactly when the input is all whitespace; otherwise it starts and ends with non-whitespace and sits between a whitespace prefix and a whitespace suffix of the input |
| OsraOutput.SplitWords | backend/server.py:47 | every piece of a split is a non-empty run without whitespace, and the split is empty exactly when the input is all whitespace |
| OsraOutput.SplitLeadingWord | backend/server.py:47 | whitespace, then a word, then a string that is empty or starts with whitespace splits into that word followed by the split of the string |
| OsraOutput.SplitJoin | backend/server.py:47 | splitting words joined by single spaces gives back the words |
| OsraOutput.ParseOutput | backend/server.py:42-52 | a token is returned exactly when the return code is 0 and the output has a non-whitespace character; the token is non-empty, has no whitespace, and is the prefix of the stripped output up to its first whitespace |
| OsraOutput.ParseFirstToken | backend/server.py:45-49 | on output "SMILES name", surrounded by any whitespace, the parse is exactly the SMILES token |
| OsraOutput.Recognize | backend/server.py:30-62 | a timeout, a missing recogniser or any other error gives no token; a finished run gives the parse of its return code and output, so a token implies return code 0 |
| Preprocess.PaddedSizeOf | backend/server.py:174-178 | trim and padding of a w x h image produce (w + 24, h + 24) when both sides exceed 16 and (w + 30, h + 30) otherwise |
| Preprocess.Preprocess | backend/server.py:137-197 | the threshold is the Otsu choice of the corrected, suppressed and enhanced image; the output is the normalised, padded, filtered binarisation; with size-keeping library stages the output has the normalised padded size of the capture; it is binary when the filter keeps binary images and no resampling happens |

## Left out

- HTTP handling, CORS, temporary files, the start-up banner and the recogniser availability probe are not modelled; the recogniser's run is an input value (`RunOutcome`), not a process.
- Flattening of transparent and palette images onto white, and the RGB-to-luminance conversion, are library operations; the model starts from the luminance image.
- Contrast enhancement (factor 1.5), the size-3 median filter and LANCZOS resampling are library operations with float blending and library-defined edges; they are function parameters of `Preprocess.Preprocess` and `Geometry.NormalizeResolution`, constrained only by the hypotheses `KeepsSize`, `KeepsBinary` and `HonoursSize`.
- The whole pipeline's output is not claimed binary: resampling brings back grey values, so binarity is proved only through the padding step, or when no resampling happens.
- Preprocess.Preprocess: does not model the library's rejection of a zero-sized resize; the resampler parameter is total.
- Otsu.OtsuThreshold: the class means and the score are exact rationals, not the doubles of backend/server.py:94-99. Thresholds that make the same split (every t from one occupied level up to just below the next, as in `Otsu.TwoValuedImage`) have identical class weights and sums, so their double scores are bit-identical too and the first one wins in both. An exact tie between thresholds that make different splits is broken by rounding in the source instead: for luminance 0 three times, 106 eight times, 149 eight times and 255 three times, t = 0 and t = 149 both score exactly 23604075/19, so the model returns 0, while in doubles t = 149 scores 1242319.7368421056 against 1242319.736842105 at t = 0, so the source returns 149. `PointMaps.Threshold` and `Preprocess.Preprocess` inherit this through the threshold they select.
- PointMaps.CorrectDarkTheme: the mean is compared as `sum < 128 * pixel count` in exact arithmetic; an image with no pixels, on which the library's statistics would divide by zero, is treated as not dark.
- Geometry.ScaleFacts: `ScaleSide` is the exact floor of `a * num / den`, where the source truncates the double product `a * (num / den)`. Its clauses "den maps to num", "a side of at least den scales to at least num" and the floor clause hold of the exact model only: `int(97 * (400 / 97))` is 399, not 400. The monotonicity clause, "a side of at most den scales to at most num" and the grow/shrink clauses also hold for the doubles at these sizes, because rounding is monotone and the truncation stays below num + 1.
- Geometry.ScaleUpSize: the source truncates the double product `w * (400 / min)`; the model takes the exact floor of `w * 400 / min`. The double product can land just below an integer, and then the side is one smaller than in the model: `int(97 * (400 / 97))` is 399, not 400. The "short side exactly 400" ensures and the floor clause hold of the exact model only: the source's 399 is not the floor of 97 * 400 / 97 = 400.
- Geometry.ScaleDownSize: the source truncates the double product `w * (1500 / max)`; the model takes the exact floor of `w * 1500 / max`. `int(2147 * (1500 / 2147))` is 1499, not 1500. The "long side exactly 1500" ensures and the floor clause hold of the exact model only: the source's 1499 is not the floor of 2147 * 1500 / 2147 = 1500.
- Geometry.NormalizedSize: built from the two exact rules above, so its "short side 400" and "long side 1500" ensures hold of the exact model only; with the source's doubles a padded short side of 97 ends at 399 and a long side of 2147 at 1499, so its floor clauses for the downscaled sides are exact-model only too.
- Geometry.NormalizeResolution: requests the exact sizes of `NormalizedSize`, not the source's double truncations; for a 97 x 224 padded image the model requests 400 x 923 where the source requests 399 x 923.
- Preprocess.Preprocess: its size claim goes through the exact `NormalizedSize`; for a 73 x 200 capture (padded to 97 x 224) the model's output is 400 x 923 where the source's is 399 x 923.
- OsraOutput.Recognize: the messages written to standard output and the recogniser's standard error are not modelled.
- The older minimal server variant is not modelled separately: its output parsing is the same as the one modelled here, and its image handling is only a library mode conversion.
- The HTTP test client script has no logic of its own and is not modelled.
