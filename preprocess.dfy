/**
 * The normalisation pipeline from a single-channel capture to the image the
 * recognition engine reads. The library's contrast enhancement, median filter
 * and resampling are parameters; the stages before luminance conversion are
 * not part of this model.
 */
module Preprocess {
  import opened Raster
  import opened Otsu
  import opened PointMaps
  import opened Geometry

  /** A library stage that keeps the image's size. */
  ghost predicate KeepsSize(stage: Image -> Image) {
    forall img: Image :: stage(img).width == img.width && stage(img).height == img.height
  }

  /** A library stage that maps binary images to binary images (a median filter does). */
  ghost predicate KeepsBinary(stage: Image -> Image) {
    forall img: Image :: IsBinary(img) ==> IsBinary(stage(img))
  }

  /** The size after edge trim and padding of a w x h image. */
  function PaddedSize(w: nat, h: nat): (r: (nat, nat))
    ensures r.0 > 0 && r.1 > 0
    ensures TrimsEdges(w, h) ==> r == (w + 24, h + 24)
    ensures !TrimsEdges(w, h) ==> r == (w + 30, h + 30)
  {
    if TrimsEdges(w, h) then (w + 2 * Padding - 2 * BorderCrop, h + 2 * Padding - 2 * BorderCrop)
    else (w + 2 * Padding, h + 2 * Padding)
  }

  /**
   * The pipeline: dark-theme correction, light-artifact suppression, contrast
   * enhancement, Otsu binarisation, median filter, edge trim and padding,
   * resolution normalisation. The threshold is the Otsu choice for the
   * enhanced image. When the library stages keep sizes, the output has the
   * normalised padded size; when the filter also keeps binary images and no
   * resampling is needed, the output is binary.
   */
  method Preprocess(gray: Image, contrast: Image -> Image, median: Image -> Image,
                    resample: (Image, nat, nat) -> Image)
    returns (out: Image, threshold: Luma)
    ensures var enhanced := contrast(SuppressLight(CorrectDarkTheme(gray)));
      && IsOtsuChoice(HistogramOf(enhanced), threshold)
      && var padded := CropAndPad(median(Binarize(enhanced, threshold)));
      && padded.width > 0 && padded.height > 0
      && out == NormalizeResolution(padded, resample)
    ensures KeepsSize(contrast) && KeepsSize(median) && HonoursSize(resample) ==>
      var padded := PaddedSize(gray.width, gray.height);
      (out.width, out.height) == NormalizedSize(padded.0, padded.1)
    ensures var padded := PaddedSize(gray.width, gray.height);
      KeepsSize(contrast) && KeepsSize(median) && KeepsBinary(median) &&
      MinSide <= Min(padded.0, padded.1) && Max(padded.0, padded.1) <= MaxSide ==>
        IsBinary(out)
  {
    var img := CorrectDarkTheme(gray);
    img := SuppressLight(img);
    img := contrast(img);
    var binary;
    binary, threshold := Threshold(img);
    img := median(binary);
    ghost var filtered := img;
    if KeepsSize(contrast) && KeepsSize(median) {
      FilteredSize(gray, contrast, median, threshold);
    }
    if KeepsBinary(median) {
      CropAndPadKeepsBinary(filtered);
    }
    img := CropAndPad(img);
    PaddedSizeOf(filtered);
    out := NormalizeResolution(img, resample);
  }

  /** Trim and padding produce the padded size. */
  lemma PaddedSizeOf(img: Image)
    ensures (CropAndPad(img).width, CropAndPad(img).height) == PaddedSize(img.width, img.height)
  {
  }

  /** With size-keeping library stages the filtered image has the capture's size. */
  lemma FilteredSize(gray: Image, contrast: Image -> Image, median: Image -> Image, t: Luma)
    requires KeepsSize(contrast) && KeepsSize(median)
    ensures var filtered := median(Binarize(contrast(SuppressLight(CorrectDarkTheme(gray))), t));
      filtered.width == gray.width && filtered.height == gray.height
  {
  }
}
