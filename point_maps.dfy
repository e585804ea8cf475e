/**
 * The per-pixel stages of the normalisation pipeline: dark-theme inversion,
 * light-artifact suppression and binarisation at the Otsu threshold.
 */
module PointMaps {
  import opened Raster
  import opened Otsu

  /** Mean luminance below the midpoint 128, in exact arithmetic: sum < 128 * pixel count. */
  predicate IsDark(img: Image) {
    Sum(Pixels(img)) < 128 * (img.width * img.height)
  }

  /** The library's luminance inversion of one pixel. */
  function InvertPixel(p: Luma): Luma {
    255 - p
  }

  /** Dark-theme correction: invert every pixel exactly when the image is dark. */
  function CorrectDarkTheme(img: Image): (r: Image)
    ensures r.width == img.width && r.height == img.height
    ensures IsDark(img) ==> forall y, x :: 0 <= y < r.height && 0 <= x < r.width ==>
      r.rows[y][x] == 255 - img.rows[y][x]
    ensures !IsDark(img) ==> r == img
  {
    if IsDark(img) then MapPixels(img, InvertPixel) else img
  }

  /** Inverting twice gives back the image. */
  lemma InvertInvolution(img: Image)
    ensures MapPixels(MapPixels(img, InvertPixel), InvertPixel) == img
  {
    var twice := MapPixels(MapPixels(img, InvertPixel), InvertPixel);
    forall y | 0 <= y < img.height
      ensures twice.rows[y] == img.rows[y]
    {
    }
  }

  lemma {:induction false} SumInverted(s: seq<Luma>)
    ensures Sum(MapSeq(s, InvertPixel)) == 255 * |s| - Sum(s)
  {
    if s != [] {
      assert MapSeq(s, InvertPixel)[1..] == MapSeq(s[1..], InvertPixel);
      SumInverted(s[1..]);
    }
  }

  /**
   * After the correction a non-empty image has mean luminance above 127:
   * inverting a dark image turns sum < 128 * n into sum > 127 * n.
   */
  lemma CorrectedIsLight(img: Image)
    requires img.width * img.height > 0
    ensures Sum(Pixels(CorrectDarkTheme(img))) > 127 * (img.width * img.height)
  {
    PixelsLength(img);
    if IsDark(img) {
      FlattenMap(img.rows, InvertPixel);
      SumInverted(Pixels(img));
    }
  }

  /**
   * The correction is not idempotent at the boundary: a two-pixel image of
   * luminances 127 and 128 is dark, and so is its inversion.
   */
  lemma CorrectionMayStayDark()
    ensures var img := Grid(2, 1, [[127, 128]]);
      Rectangular(img) && IsDark(img) && IsDark(CorrectDarkTheme(img))
  {
    var img: Image := Grid(2, 1, [[127, 128]]);
    assert Pixels(img) == [127, 128];
    assert IsDark(img);
    var inverted := CorrectDarkTheme(img);
    assert inverted.rows[0][0] == 128 && inverted.rows[0][1] == 127;
    assert inverted.rows[0] == [128, 127];
    assert inverted.rows == [[128, 127]];
    assert inverted.rows[1..] == [];
    assert Pixels(inverted) == [128, 127];
  }

  /** Luminances above this cutoff are treated as background shading. */
  const LightCutoff: Luma := 160

  function SuppressPixel(p: Luma): Luma {
    if p > LightCutoff then 255 else p
  }

  /** Light-artifact suppression: pixels above 160 become white, the others stay. */
  function SuppressLight(img: Image): (r: Image)
    ensures r.width == img.width && r.height == img.height
    ensures forall y, x :: 0 <= y < r.height && 0 <= x < r.width ==>
      (img.rows[y][x] > LightCutoff ==> r.rows[y][x] == 255) &&
      (img.rows[y][x] <= LightCutoff ==> r.rows[y][x] == img.rows[y][x])
  {
    MapPixels(img, SuppressPixel)
  }

  /** After suppression every pixel is white or at most 160. */
  lemma SuppressedRange(img: Image)
    ensures var r := SuppressLight(img);
      forall y, x :: 0 <= y < r.height && 0 <= x < r.width ==>
        r.rows[y][x] == 255 || r.rows[y][x] <= LightCutoff
  {
  }

  /** Suppressing twice is suppressing once. */
  lemma SuppressIdempotent(img: Image)
    ensures SuppressLight(SuppressLight(img)) == SuppressLight(img)
  {
    var once := SuppressLight(img);
    var twice := SuppressLight(once);
    forall y | 0 <= y < img.height
      ensures twice.rows[y] == once.rows[y]
    {
    }
  }

  /** Binarisation at threshold t: above t becomes white, the rest black. */
  function Binarize(img: Image, t: Luma): (r: Image)
    ensures r.width == img.width && r.height == img.height
    ensures IsBinary(r)
    ensures forall y, x :: 0 <= y < r.height && 0 <= x < r.width ==>
      (r.rows[y][x] == 255 <==> img.rows[y][x] > t)
  {
    MapPixels(img, p => if p > t then 255 else 0)
  }

  /** A binary image is a fixed point of binarisation at any t below 255. */
  lemma BinarizeFixesBinary(img: Image, t: Luma)
    requires IsBinary(img) && t < 255
    ensures Binarize(img, t) == img
  {
    var r := Binarize(img, t);
    forall y | 0 <= y < img.height
      ensures r.rows[y] == img.rows[y]
    {
    }
  }

  /** Re-running threshold selection and binarisation on a binary image changes nothing. */
  lemma RethresholdBinary(img: Image, t: Luma)
    requires IsBinary(img) && IsOtsuChoice(HistogramOf(img), t)
    ensures Binarize(img, t) == img
  {
    OtsuChoiceBelowWhite(HistogramOf(img), t);
    BinarizeFixesBinary(img, t);
  }

  /** Binarisation at the Otsu threshold of the image. */
  method Threshold(img: Image) returns (r: Image, threshold: Luma)
    ensures IsOtsuChoice(HistogramOf(img), threshold)
    ensures r == Binarize(img, threshold)
    ensures IsBinary(r)
    ensures IsBinary(img) ==> r == img
  {
    threshold := OtsuThreshold(img);
    r := Binarize(img, threshold);
    if IsBinary(img) {
      RethresholdBinary(img, threshold);
    }
  }
}
