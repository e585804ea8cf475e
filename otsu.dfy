/**
 * Otsu threshold selection over the 256-bucket luminance histogram.
 *
 * A candidate threshold t splits the pixels into a background class (values
 * <= t) and a foreground class (values > t). Each t whose classes are both
 * non-empty gets the score weight_bg * weight_fg * (mean_bg - mean_fg)^2,
 * computed here with exact rationals. The chosen threshold is the first t of
 * maximum score; 128 when no t splits the pixels.
 */
module Otsu {
  import opened Raster

  /** Bucket v holds the number of pixels of luminance v. */
  type Histogram = h: seq<nat> | |h| == 256 witness seq(256, _ => 0)

  /** The histogram of an image (the library's `histogram` for an 'L' image). */
  function HistogramOf(img: Image): (h: Histogram)
    ensures forall v :: 0 <= v < 256 ==> h[v] == Count(Pixels(img), v)
  {
    seq(256, v => Count(Pixels(img), v))
  }

  /** Number of pixels in the buckets below k. */
  function Prefix(hist: seq<nat>, k: nat): nat
    requires k <= |hist|
  {
    if k == 0 then 0 else Prefix(hist, k - 1) + hist[k - 1]
  }

  /** Sum of the luminance values of the pixels in the buckets below k. */
  function Moment(hist: seq<nat>, k: nat): nat
    requires k <= |hist|
  {
    if k == 0 then 0 else Moment(hist, k - 1) + (k - 1) * hist[k - 1]
  }

  function Total(hist: Histogram): nat {
    Prefix(hist, 256)
  }

  /** Threshold t leaves both the background and the foreground class non-empty. */
  predicate Splits(hist: Histogram, t: Luma) {
    0 < Prefix(hist, t + 1) < Total(hist)
  }

  /** Some threshold below `bound` splits the pixels. */
  predicate SplitBelow(hist: Histogram, bound: int)
    requires bound <= 256
  {
    exists t :: 0 <= t < bound && Splits(hist, t)
  }

  /** The between-class score of a splitting threshold, in exact arithmetic. */
  function Score(hist: Histogram, t: Luma): real
    requires Splits(hist, t)
  {
    var weightBg := Prefix(hist, t + 1);
    var sumBg := Moment(hist, t + 1);
    ClassScore(weightBg, Total(hist) - weightBg, sumBg, Moment(hist, 256) - sumBg)
  }

  /** weight_bg * weight_fg * (mean_bg - mean_fg)^2 for the given class weights and sums. */
  function ClassScore(weightBg: int, weightFg: int, sumBg: int, sumFg: int): real
    requires weightBg > 0 && weightFg > 0
  {
    var meanBg := sumBg as real / weightBg as real;
    var meanFg := sumFg as real / weightFg as real;
    (weightBg * weightFg) as real * (meanBg - meanFg) * (meanBg - meanFg)
  }

  /**
   * Among the splitting thresholds below `bound`, r has the maximum score and
   * every earlier splitting threshold scores strictly less.
   */
  predicate FirstBestBelow(hist: Histogram, bound: int, r: int) {
    && 0 <= r < bound <= 256
    && Splits(hist, r)
    && (forall t :: 0 <= t < bound && Splits(hist, t) ==> Score(hist, t) <= Score(hist, r))
    && (forall t :: 0 <= t < r && Splits(hist, t) ==> Score(hist, t) < Score(hist, r))
  }

  /** What the threshold selection promises: the first best split, or 128 if none. */
  predicate IsOtsuChoice(hist: Histogram, r: int) {
    if SplitBelow(hist, 256) then FirstBestBelow(hist, 256, r) else r == 128
  }

  /**
   * The scan's incumbent after thresholds 0 .. bound - 1: the first best split
   * so far with its score, or the initial 128 with score 0 while none split.
   */
  predicate Incumbent(hist: Histogram, bound: int, r: int, best: real)
    requires bound <= 256
  {
    if SplitBelow(hist, bound) then FirstBestBelow(hist, bound, r) && best == Score(hist, r)
    else r == 128 && best == 0.0
  }

  /**
   * The threshold selection: one accumulating scan over t = 0..255 that skips
   * while the background class is empty, stops once the foreground class is
   * empty, and lets a candidate replace the incumbent only on a strictly
   * greater score.
   */
  method OtsuThreshold(img: Image) returns (threshold: Luma)
    ensures IsOtsuChoice(HistogramOf(img), threshold)
  {
    var histogram := HistogramOf(img);
    var totalPixels := PixelCount(img);
    var totalSum := Moment(histogram, 256);
    HistogramTotal(img);

    threshold := 128;
    var bestVariance: real := 0.0;
    var weightBg: nat := 0;
    var sumBg: nat := 0;

    for t := 0 to 256
      invariant weightBg == Prefix(histogram, t)
      invariant sumBg == Moment(histogram, t)
      invariant Incumbent(histogram, t, threshold, bestVariance)
    {
      weightBg := weightBg + histogram[t];
      if weightBg == 0 {
        IncumbentSkip(histogram, t, threshold, bestVariance);
        continue;
      }
      var weightFg := totalPixels - weightBg;
      if weightFg == 0 {
        IncumbentSkip(histogram, t, threshold, bestVariance);
        IncumbentFinal(histogram, t + 1, threshold, bestVariance);
        break;
      }
      sumBg := sumBg + t * histogram[t];
      PrefixMonotone(histogram, t + 1, 256);
      var variance := ClassScore(weightBg, weightFg, sumBg, totalSum - sumBg);
      assert variance == Score(histogram, t);
      IncumbentStep(histogram, t, threshold, bestVariance);
      if variance > bestVariance {
        bestVariance := variance;
        threshold := t;
      }
    }
  }

  /** A threshold that does not split leaves the incumbent in place. */
  lemma IncumbentSkip(hist: Histogram, t: Luma, r: int, best: real)
    requires Incumbent(hist, t, r, best) && !Splits(hist, t)
    ensures Incumbent(hist, t + 1, r, best)
  {
    SplitBelowStep(hist, t);
  }

  /** A splitting threshold replaces the incumbent exactly when it scores strictly higher. */
  lemma IncumbentStep(hist: Histogram, t: Luma, r: int, best: real)
    requires Incumbent(hist, t, r, best) && Splits(hist, t)
    ensures Score(hist, t) > best ==> Incumbent(hist, t + 1, t, Score(hist, t))
    ensures Score(hist, t) <= best ==> Incumbent(hist, t + 1, r, best)
  {
    SplitBelowStep(hist, t);
    ScorePositive(hist, t);
  }

  /** Once the background class holds every pixel, the incumbent is the final choice. */
  lemma IncumbentFinal(hist: Histogram, bound: nat, r: int, best: real)
    requires 0 < bound <= 256
    requires Incumbent(hist, bound, r, best) && Prefix(hist, bound) == Total(hist)
    ensures IsOtsuChoice(hist, r)
  {
    NoSplitAbove(hist, bound - 1);
    if SplitBelow(hist, 256) {
      var u :| 0 <= u < 256 && Splits(hist, u);
      assert u < bound - 1;
    }
  }

  lemma SplitBelowStep(hist: Histogram, t: Luma)
    ensures SplitBelow(hist, t + 1) <==> SplitBelow(hist, t) || Splits(hist, t)
  {
    if SplitBelow(hist, t + 1) && !Splits(hist, t) {
      var u :| 0 <= u < t + 1 && Splits(hist, u);
      assert u < t;
    }
  }

  lemma {:induction false} PrefixMonotone(hist: seq<nat>, i: nat, j: nat)
    requires i <= j <= |hist|
    ensures Prefix(hist, i) <= Prefix(hist, j)
    decreases j
  {
    if i < j {
      PrefixMonotone(hist, i, j - 1);
    }
  }

  /** Once the background class holds every pixel, no later threshold splits. */
  lemma NoSplitAbove(hist: Histogram, t: Luma)
    requires Prefix(hist, t + 1) == Total(hist)
    ensures forall u :: t <= u < 256 ==> !Splits(hist, u)
  {
    forall u | t <= u < 256
      ensures !Splits(hist, u)
    {
      PrefixMonotone(hist, t + 1, u + 1);
      PrefixMonotone(hist, u + 1, 256);
    }
  }

  /** The pixels in buckets below k have luminance at most k - 1. */
  lemma {:induction false} MomentBelow(hist: seq<nat>, k: nat)
    requires k <= |hist|
    ensures Moment(hist, k) <= (k - 1) * Prefix(hist, k)
  {
    if k > 0 {
      MomentBelow(hist, k - 1);
      StepBelow(Moment(hist, k - 1), Prefix(hist, k - 1), hist[k - 1], k - 1);
    }
  }

  /** One bucket of luminance m added to a class whose sum is at most (m - 1) times its weight. */
  lemma StepBelow(sum: int, weight: nat, count: nat, m: int)
    requires sum <= (m - 1) * weight
    ensures sum + m * count <= m * (weight + count)
  {
    assert (m - 1) * weight == m * weight - weight;
    assert m * (weight + count) == m * weight + m * count;
  }

  /** The pixels in buckets k and above have luminance at least k. */
  lemma {:induction false} MomentAbove(hist: Histogram, k: nat)
    requires k <= 256
    ensures Moment(hist, 256) - Moment(hist, k) >= k * (Total(hist) - Prefix(hist, k))
    decreases 256 - k
  {
    if k < 256 {
      MomentAbove(hist, k + 1);
      PrefixMonotone(hist, k + 1, 256);
      StepAbove(Moment(hist, 256) - Moment(hist, k + 1), Total(hist) - Prefix(hist, k + 1), hist[k], k);
    }
  }

  /** One bucket of luminance k added to a class whose sum is at least (k + 1) times its weight. */
  lemma StepAbove(sum: int, weight: nat, count: nat, k: nat)
    requires sum >= (k + 1) * weight
    ensures sum + k * count >= k * (weight + count)
  {
    assert (k + 1) * weight == k * weight + weight;
    assert k * (weight + count) == k * weight + k * count;
  }

  /** A class mean is at most t when its sum is at most t times its weight. */
  lemma MeanAtMost(sum: int, weight: int, t: int)
    requires weight > 0 && sum <= t * weight
    ensures (sum as real) / (weight as real) <= t as real
  {
    assert (sum as real) / (weight as real) * (weight as real) == sum as real;
    assert (t * weight) as real == (t as real) * (weight as real);
  }

  /** A class mean is at least t when its sum is at least t times its weight. */
  lemma MeanAtLeast(sum: int, weight: int, t: int)
    requires weight > 0 && sum >= t * weight
    ensures (sum as real) / (weight as real) >= t as real
  {
    assert (sum as real) / (weight as real) * (weight as real) == sum as real;
    assert (t * weight) as real == (t as real) * (weight as real);
  }

  lemma GapScore(weight: real, meanBg: real, meanFg: real)
    requires weight >= 1.0 && meanFg - meanBg >= 1.0
    ensures weight * (meanBg - meanFg) * (meanBg - meanFg) >= 1.0
  {
    var gap := meanFg - meanBg;
    assert gap * gap >= gap * 1.0;
    assert (meanBg - meanFg) * (meanBg - meanFg) == gap * gap;
    assert weight * (gap * gap) >= weight * 1.0;
  }

  /**
   * Every splitting threshold scores at least 1: the background mean is at
   * most t and the foreground mean at least t + 1. So the first splitting t
   * always displaces the initial best score of 0.
   */
  lemma ScorePositive(hist: Histogram, t: Luma)
    requires Splits(hist, t)
    ensures Score(hist, t) >= 1.0
  {
    var weightBg := Prefix(hist, t + 1);
    var weightFg := Total(hist) - weightBg;
    var sumBg := Moment(hist, t + 1);
    var sumFg := Moment(hist, 256) - sumBg;
    assert sumBg <= t * weightBg by {
      MomentBelow(hist, t + 1);
    }
    assert sumFg >= (t + 1) * weightFg by {
      MomentAbove(hist, t + 1);
    }
    ClassScoreAtLeastOne(weightBg, weightFg, sumBg, sumFg, t);
  }

  /** Classes whose means are at least 1 apart score at least 1. */
  lemma ClassScoreAtLeastOne(weightBg: int, weightFg: int, sumBg: int, sumFg: int, t: int)
    requires weightBg > 0 && weightFg > 0
    requires sumBg <= t * weightBg && sumFg >= (t + 1) * weightFg
    ensures ClassScore(weightBg, weightFg, sumBg, sumFg) >= 1.0
  {
    MeanAtMost(sumBg, weightBg, t);
    MeanAtLeast(sumFg, weightFg, t + 1);
    assert weightBg * weightFg >= 1 by {
      assert weightBg * weightFg >= 1 * weightFg;
    }
    GapScore((weightBg * weightFg) as real, sumBg as real / weightBg as real, sumFg as real / weightFg as real);
  }

  /** The choice never leaves the foreground class of a split empty: r <= 254 or r == 128. */
  lemma OtsuChoiceBelowWhite(hist: Histogram, r: int)
    requires IsOtsuChoice(hist, r)
    ensures 0 <= r < 255
  {
  }

  /** At most one threshold meets the promise, so the scan's result is determined. */
  lemma OtsuChoiceUnique(hist: Histogram, r1: int, r2: int)
    requires IsOtsuChoice(hist, r1) && IsOtsuChoice(hist, r2)
    ensures r1 == r2
  {
  }

  /** Buckets that are empty leave the running sums unchanged. */
  lemma {:induction false} PrefixFlat(hist: seq<nat>, i: nat, j: nat)
    requires i <= j <= |hist|
    requires forall v :: i <= v < j ==> hist[v] == 0
    ensures Prefix(hist, j) == Prefix(hist, i) && Moment(hist, j) == Moment(hist, i)
    decreases j
  {
    if i < j {
      PrefixFlat(hist, i, j - 1);
    }
  }

  /** Two occupied buckets a < b: exactly the thresholds a..b-1 split the pixels. */
  lemma TwoLevelSplits(hist: Histogram, a: Luma, b: Luma, t: Luma)
    requires a < b && hist[a] > 0 && hist[b] > 0
    requires forall v :: 0 <= v < 256 && v != a && v != b ==> hist[v] == 0
    ensures Splits(hist, t) <==> a <= t < b
  {
    if t < a {
      PrefixFlat(hist, 0, t + 1);
    } else if t >= b {
      PrefixFlat(hist, t + 1, 256);
    } else {
      PrefixMonotone(hist, a + 1, t + 1);
      PrefixMonotone(hist, t + 1, b);
      PrefixMonotone(hist, b + 1, 256);
    }
  }

  /**
   * On a histogram with exactly two occupied buckets a < b, the choice is a:
   * every t in a..b-1 makes the same split and the scan keeps the first.
   */
  lemma TwoLevelChoice(hist: Histogram, a: Luma, b: Luma, r: int)
    requires a < b && hist[a] > 0 && hist[b] > 0
    requires forall v :: 0 <= v < 256 && v != a && v != b ==> hist[v] == 0
    requires IsOtsuChoice(hist, r)
    ensures r == a
  {
    TwoLevelSplits(hist, a, b, a);
    assert FirstBestBelow(hist, 256, r);
    TwoLevelSplits(hist, a, b, r);
    if r != a {
      PrefixFlat(hist, a + 1, r + 1);
      assert false;
    }
  }

  /** The histogram's buckets below k count the pixels darker than k. */
  lemma {:induction false} HistogramPrefix(img: Image, k: nat)
    requires k <= 256
    ensures Prefix(HistogramOf(img), k) == CountBelow(Pixels(img), k)
  {
    if k == 0 {
      CountBelowPartial(Pixels(img), 0);
      CountBelowPositive(Pixels(img), 0);
    } else {
      HistogramPrefix(img, k - 1);
      CountBelowStep(Pixels(img), k - 1);
    }
  }

  /** The histogram holds every pixel once: its total is width * height. */
  lemma HistogramTotal(img: Image)
    ensures Total(HistogramOf(img)) == PixelCount(img)
  {
    HistogramPrefix(img, 256);
    CountBelowPartial(Pixels(img), 256);
    PixelsLength(img);
  }

  /** Threshold t splits an image's pixels exactly when some pixel is <= t and some is > t. */
  lemma SplitsIff(img: Image, t: Luma)
    ensures Splits(HistogramOf(img), t) <==>
      (exists i :: 0 <= i < |Pixels(img)| && Pixels(img)[i] <= t) &&
      (exists j :: 0 <= j < |Pixels(img)| && Pixels(img)[j] > t)
  {
    HistogramPrefix(img, t + 1);
    HistogramPrefix(img, 256);
    CountBelowPartial(Pixels(img), 256);
    CountBelowPositive(Pixels(img), t + 1);
    CountBelowPartial(Pixels(img), t + 1);
  }

  /**
   * Range and default of the choice on an image: 128 when the image is empty
   * or uniform, otherwise a threshold with min pixel <= r < max pixel.
   */
  lemma OtsuChoiceRange(img: Image, r: int)
    requires IsOtsuChoice(HistogramOf(img), r)
    ensures 0 <= r <= 255
    ensures !(exists i, j :: 0 <= i < |Pixels(img)| && 0 <= j < |Pixels(img)| && Pixels(img)[i] < Pixels(img)[j])
      ==> r == 128
    ensures (exists i, j :: 0 <= i < |Pixels(img)| && 0 <= j < |Pixels(img)| && Pixels(img)[i] < Pixels(img)[j])
      ==> (&& (exists i :: 0 <= i < |Pixels(img)| && Pixels(img)[i] <= r)
           && (exists j :: 0 <= j < |Pixels(img)| && Pixels(img)[j] > r))
  {
    var px := Pixels(img);
    var hist := HistogramOf(img);
    if exists i, j :: 0 <= i < |px| && 0 <= j < |px| && px[i] < px[j] {
      var i, j :| 0 <= i < |px| && 0 <= j < |px| && px[i] < px[j];
      SplitsIff(img, px[i]);
      assert Splits(hist, px[i]);
      assert FirstBestBelow(hist, 256, r);
      SplitsIff(img, r);
    } else if SplitBelow(hist, 256) {
      var t :| 0 <= t < 256 && Splits(hist, t);
      SplitsIff(img, t);
      assert false;
    }
  }

  /** Exactly two luminance values a < b, both present: the choice is a. */
  lemma TwoValuedImage(img: Image, a: Luma, b: Luma, r: int)
    requires a < b
    requires forall i :: 0 <= i < |Pixels(img)| ==> Pixels(img)[i] == a || Pixels(img)[i] == b
    requires exists i :: 0 <= i < |Pixels(img)| && Pixels(img)[i] == a
    requires exists i :: 0 <= i < |Pixels(img)| && Pixels(img)[i] == b
    requires IsOtsuChoice(HistogramOf(img), r)
    ensures r == a
  {
    var px := Pixels(img);
    var hist := HistogramOf(img);
    forall v | 0 <= v < 256 && v != a && v != b
      ensures hist[v] == 0
    {
      CountAbsent(px, v);
    }
    CountPresent(px, a);
    CountPresent(px, b);
    TwoLevelChoice(hist, a, b, r);
  }

  lemma {:induction false} CountAbsent(s: seq<Luma>, v: int)
    requires forall i :: 0 <= i < |s| ==> s[i] != v
    ensures Count(s, v) == 0
  {
    if s != [] {
      CountAbsent(s[1..], v);
    }
  }

  lemma {:induction false} CountPresent(s: seq<Luma>, v: int)
    requires exists i :: 0 <= i < |s| && s[i] == v
    ensures Count(s, v) > 0
  {
    if s[0] != v {
      var i :| 0 <= i < |s| && s[i] == v;
      assert s[1..][i - 1] == v;
      CountPresent(s[1..], v);
    }
  }
}
