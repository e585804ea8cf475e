/**
 * The geometry stages of the normalisation pipeline: trimming the capture's
 * edges, padding with a white margin, and choosing the recognition size.
 */
module Geometry {
  import opened Raster

  /** Pixels trimmed from each side when both sides exceed 2 * 3 + 10. */
  const BorderCrop: nat := 3
  /** Width of the white margin added on every side. */
  const Padding: nat := 15
  /** Smallest side the recognition engine is given. */
  const MinSide: nat := 400
  /** Largest side the recognition engine is given. */
  const MaxSide: nat := 1500

  function Min(a: int, b: int): int {
    if a <= b then a else b
  }

  function Max(a: int, b: int): int {
    if a >= b then a else b
  }

  /** The library's crop to the box (b, b, width - b, height - b). */
  function Crop(img: Image, b: nat): (r: Image)
    requires 2 * b <= img.width && 2 * b <= img.height
    ensures r.width == img.width - 2 * b && r.height == img.height - 2 * b
    ensures forall y, x :: 0 <= y < r.height && 0 <= x < r.width ==>
      r.rows[y][x] == img.rows[y + b][x + b]
  {
    Grid(img.width - 2 * b, img.height - 2 * b,
         seq(img.height - 2 * b, y requires 0 <= y < img.height - 2 * b =>
           img.rows[y + b][b..img.width - b]))
  }

  /** The library's expand: a border of `fill` pixels on all four sides. */
  function Expand(img: Image, border: nat, fill: Luma): (r: Image)
    ensures r.width == img.width + 2 * border && r.height == img.height + 2 * border
    ensures forall y, x :: 0 <= y < r.height && 0 <= x < r.width ==>
      r.rows[y][x] ==
        if border <= y < border + img.height && border <= x < border + img.width
        then img.rows[y - border][x - border]
        else fill
  {
    var w := img.width + 2 * border;
    var h := img.height + 2 * border;
    Grid(w, h, seq(h, y requires 0 <= y < h => seq(w, x requires 0 <= x < w =>
      if border <= y < border + img.height && border <= x < border + img.width
      then img.rows[y - border][x - border]
      else fill)))
  }

  /** The edge trim applies only when both sides exceed 2 * 3 + 10 = 16 pixels. */
  predicate TrimsEdges(w: nat, h: nat) {
    w > 2 * BorderCrop + 10 && h > 2 * BorderCrop + 10
  }

  /**
   * Edge trim and padding. The result is 24 pixels wider and taller than the
   * input when the trim applies and 30 otherwise; its outer 15-pixel frame is
   * white and its interior is the input, less 3 pixels per side when trimmed.
   */
  function CropAndPad(img: Image): (r: Image)
    ensures TrimsEdges(img.width, img.height) ==>
      r.width == img.width + 24 && r.height == img.height + 24
    ensures !TrimsEdges(img.width, img.height) ==>
      r.width == img.width + 30 && r.height == img.height + 30
    ensures forall y, x :: 0 <= y < r.height && 0 <= x < r.width ==>
      (y < Padding || y >= r.height - Padding || x < Padding || x >= r.width - Padding) ==>
        r.rows[y][x] == 255
    ensures var c := if TrimsEdges(img.width, img.height) then BorderCrop else 0;
      forall y, x :: Padding <= y < r.height - Padding && Padding <= x < r.width - Padding ==>
        r.rows[y][x] == img.rows[y - Padding + c][x - Padding + c]
  {
    var trimmed := if TrimsEdges(img.width, img.height) then Crop(img, BorderCrop) else img;
    Expand(trimmed, Padding, 255)
  }

  /** A binary image stays binary through trim and padding. */
  lemma CropAndPadKeepsBinary(img: Image)
    requires IsBinary(img)
    ensures IsBinary(CropAndPad(img))
  {
    var r := CropAndPad(img);
    var c := if TrimsEdges(img.width, img.height) then BorderCrop else 0;
    forall y, x | 0 <= y < r.height && 0 <= x < r.width
      ensures r.rows[y][x] == 0 || r.rows[y][x] == 255
    {
      if Padding <= y < r.height - Padding && Padding <= x < r.width - Padding {
        assert r.rows[y][x] == img.rows[y - Padding + c][x - Padding + c];
      }
    }
  }

  /** One side scaled by num / den and truncated, as `int(side * (num / den))` in exact arithmetic. */
  function ScaleSide(side: nat, num: nat, den: nat): nat
    requires den > 0
  {
    side * num / den
  }

  /**
   * The upscale rule: a short side below 400 is brought to exactly 400, and
   * each side becomes the floor of side * 400 / short side.
   */
  function ScaleUpSize(w: nat, h: nat): (r: (nat, nat))
    requires w > 0 && h > 0
    ensures Min(w, h) < MinSide ==> Min(r.0, r.1) == MinSide && r.0 >= w && r.1 >= h
    ensures Min(w, h) < MinSide ==> IsFloorScale(r.0, w, MinSide, Min(w, h)) && IsFloorScale(r.1, h, MinSide, Min(w, h))
    ensures Min(w, h) < MinSide && w <= h ==> r.0 <= r.1
    ensures Min(w, h) < MinSide && h <= w ==> r.1 <= r.0
    ensures Min(w, h) >= MinSide ==> r == (w, h)
  {
    var minDim := Min(w, h);
    if minDim < MinSide then
      ScaleFacts(w, h, MinSide, minDim);
      ScaleFacts(h, w, MinSide, minDim);
      (ScaleSide(w, MinSide, minDim), ScaleSide(h, MinSide, minDim))
    else
      (w, h)
  }

  /**
   * The downscale rule: a long side above 1500 is brought to exactly 1500,
   * and each side becomes the floor of side * 1500 / long side.
   */
  function ScaleDownSize(w: nat, h: nat): (r: (nat, nat))
    ensures Max(w, h) > MaxSide ==> Max(r.0, r.1) == MaxSide && r.0 <= w && r.1 <= h
    ensures Max(w, h) > MaxSide ==> IsFloorScale(r.0, w, MaxSide, Max(w, h)) && IsFloorScale(r.1, h, MaxSide, Max(w, h))
    ensures Max(w, h) <= MaxSide ==> r == (w, h)
  {
    var maxDim := Max(w, h);
    if maxDim > MaxSide then
      ScaleFacts(w, h, MaxSide, maxDim);
      ScaleFacts(h, w, MaxSide, maxDim);
      (ScaleSide(w, MaxSide, maxDim), ScaleSide(h, MaxSide, maxDim))
    else
      (w, h)
  }

  /**
   * Resolution normalisation on sizes: the upscale rule, then the downscale
   * rule measured on the upscaled size. The long side never ends above 1500;
   * a size already within 400..1500 is kept.
   */
  function NormalizedSize(w: nat, h: nat): (r: (nat, nat))
    requires w > 0 && h > 0
    ensures Max(r.0, r.1) <= MaxSide
    ensures MinSide <= Min(w, h) && Max(w, h) <= MaxSide ==> r == (w, h)
    ensures Min(w, h) < MinSide && Max(ScaleUpSize(w, h).0, ScaleUpSize(w, h).1) <= MaxSide ==>
      Min(r.0, r.1) == MinSide
    ensures Max(ScaleUpSize(w, h).0, ScaleUpSize(w, h).1) > MaxSide ==> Max(r.0, r.1) == MaxSide
    ensures var u := ScaleUpSize(w, h); var m := Max(u.0, u.1);
      m > MaxSide ==> IsFloorScale(r.0, u.0, MaxSide, m) && IsFloorScale(r.1, u.1, MaxSide, m)
    ensures var u := ScaleUpSize(w, h); Max(u.0, u.1) <= MaxSide ==> r == u
  {
    var up := ScaleUpSize(w, h);
    ScaleDownSize(up.0, up.1)
  }

  /**
   * q is side * num / den truncated: the largest integer with q * den at most
   * side * num.
   */
  predicate IsFloorScale(q: nat, side: nat, num: nat, den: nat) {
    q * den <= side * num < (q + 1) * den
  }

  /** Scaling truncates the exact product: it is the floor of side * num / den. */
  lemma ScaleFloor(side: nat, num: nat, den: nat)
    requires den > 0
    ensures IsFloorScale(ScaleSide(side, num, den), side, num, den)
  {
    var q := side * num / den;
    assert den * q <= side * num < den * q + den;
    assert q * den == den * q && (q + 1) * den == den * q + den;
  }

  /** The floor clause determines the scaled side: at most one q satisfies it. */
  lemma FloorScaleUnique(q: nat, q': nat, side: nat, num: nat, den: nat)
    requires IsFloorScale(q, side, num, den) && IsFloorScale(q', side, num, den)
    ensures q == q'
  {
    assert (q + 1) * den == den * (q + 1) && q' * den == den * q';
    assert (q' + 1) * den == den * (q' + 1) && q * den == den * q;
    MulMonotone(den, q + 1, q');
    MulMonotone(den, q' + 1, q);
  }

  /** Scaling is monotone in the side. */
  lemma ScaleMonotone(a: nat, b: nat, num: nat, den: nat)
    requires den > 0
    ensures a <= b ==> ScaleSide(a, num, den) <= ScaleSide(b, num, den)
  {
    if a <= b {
      MulMonotone(num, a, b);
      assert a * num == num * a && b * num == num * b;
      DivMonotone(a * num, b * num, den);
    }
  }

  /** Scaling maps den to num exactly. */
  lemma ScaleExact(num: nat, den: nat)
    requires den > 0
    ensures ScaleSide(den, num, den) == num
  {
    MulDiv(num, den);
  }

  /** Scaling by num / den >= 1 never shrinks a side; by num / den <= 1 never grows it. */
  lemma ScaleDirection(a: nat, num: nat, den: nat)
    requires den > 0
    ensures num >= den ==> ScaleSide(a, num, den) >= a
    ensures num <= den ==> ScaleSide(a, num, den) <= a
  {
    MulDiv(a, den);
    MulMonotone(a, den, num);
    MulMonotone(a, num, den);
    assert den * a == a * den;
    if num >= den {
      DivMonotone(a * den, a * num, den);
    }
    if num <= den {
      DivMonotone(a * num, a * den, den);
    }
  }

  /** What the two scaling rules need about one pair of sides. */
  lemma ScaleFacts(a: nat, b: nat, num: nat, den: nat)
    requires den > 0
    ensures a <= b ==> ScaleSide(a, num, den) <= ScaleSide(b, num, den)
    ensures a == den ==> ScaleSide(a, num, den) == num
    ensures den <= a ==> ScaleSide(a, num, den) >= num
    ensures a <= den ==> ScaleSide(a, num, den) <= num
    ensures num >= den ==> ScaleSide(a, num, den) >= a
    ensures num <= den ==> ScaleSide(a, num, den) <= a
    ensures IsFloorScale(ScaleSide(a, num, den), a, num, den)
  {
    ScaleFloor(a, num, den);
    ScaleMonotone(a, b, num, den);
    ScaleMonotone(den, a, num, den);
    ScaleMonotone(a, den, num, den);
    ScaleExact(num, den);
    ScaleDirection(a, num, den);
  }

  lemma MulMonotone(m: nat, a: int, b: int)
    ensures a <= b ==> m * a <= m * b
  {
    assert m * b - m * a == m * (b - a);
  }

  lemma DivMonotone(x: int, y: int, m: int)
    requires 0 <= x <= y && m > 0
    ensures x / m <= y / m
  {
    var qx, qy := x / m, y / m;
    assert m * qx <= x;
    assert y < m * qy + m;
    assert m * (qy + 1) == m * qy + m;
    MulMonotone(m, qy + 1, qx);
  }

  lemma MulDiv(k: int, m: int)
    requires m > 0
    ensures (m * k) / m == k
  {
    var q := (m * k) / m;
    assert m * q <= m * k < m * q + m;
    assert m * (q + 1) == m * q + m;
    MulMonotone(m, q + 1, k);
    MulMonotone(m, k + 1, q);
    assert m * (k + 1) == m * k + m;
  }

  /**
   * The library's resampling as a parameter: `resample(img, w, h)` is the
   * image scaled to w x h. It honours the requested size.
   */
  ghost predicate HonoursSize(resample: (Image, nat, nat) -> Image) {
    forall img: Image, w: nat, h: nat :: resample(img, w, h).width == w && resample(img, w, h).height == h
  }

  /**
   * Resolution normalisation on images: resample when the short side is
   * below 400, re-measure, and resample again when the long side exceeds 1500.
   */
  function NormalizeResolution(img: Image, resample: (Image, nat, nat) -> Image): (r: Image)
    requires img.width > 0 && img.height > 0
    ensures MinSide <= Min(img.width, img.height) && Max(img.width, img.height) <= MaxSide ==> r == img
    ensures HonoursSize(resample) ==> (r.width, r.height) == NormalizedSize(img.width, img.height)
  {
    var w, h := img.width, img.height;
    var minDim := Min(w, h);
    var maxDim := Max(w, h);
    var up := if minDim < MinSide then resample(img, ScaleSide(w, MinSide, minDim), ScaleSide(h, MinSide, minDim)) else img;
    var maxAfter := if minDim < MinSide then Max(up.width, up.height) else maxDim;
    if maxAfter > MaxSide then
      resample(up, ScaleSide(up.width, MaxSide, maxAfter), ScaleSide(up.height, MaxSide, maxAfter))
    else
      up
  }

  /**
   * An aspect ratio beyond 1500:1 after upscaling reaches a zero side: a
   * 31 x 46501 padded image (a 1-pixel-wide capture) is sized 0 x 1500.
   */
  lemma ExtremeAspectCollapses()
    ensures NormalizedSize(31, 46501) == (0, 1500)
  {
    assert ScaleSide(31, MinSide, 31) == 400 && ScaleSide(46501, MinSide, 31) == 600012;
    assert ScaleUpSize(31, 46501) == (400, 600012);
    assert ScaleSide(400, MaxSide, 600012) == 0 && ScaleSide(600012, MaxSide, 600012) == 1500;
  }
}
