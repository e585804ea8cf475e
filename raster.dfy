/**
 * Single-channel ('L' mode) raster images as the normalisation pipeline sees
 * them after luminance conversion: a width, a height and rows of 8-bit
 * luminance values, plus the pixel-level vocabulary the other modules share.
 */
module Raster {

  /** An 8-bit luminance value: 0 is black, 255 is white. */
  type Luma = v: int | 0 <= v <= 255

  /** A raster before its shape is checked. */
  datatype Grid = Grid(width: nat, height: nat, rows: seq<seq<Luma>>)

  /** `height` rows of exactly `width` pixels each. */
  predicate Rectangular(g: Grid) {
    |g.rows| == g.height && forall y :: 0 <= y < |g.rows| ==> |g.rows[y]| == g.width
  }

  /** A single-channel image; `rows[y][x]` is the pixel in column x of row y. */
  type Image = g: Grid | Rectangular(g) witness Grid(0, 0, [])

  /** Every pixel is pure black or pure white. */
  predicate IsBinary(img: Image) {
    forall y, x :: 0 <= y < img.height && 0 <= x < img.width ==>
      img.rows[y][x] == 0 || img.rows[y][x] == 255
  }

  /** Applies a per-pixel map (the library's `point` operation). */
  function MapPixels(img: Image, f: Luma -> Luma): (r: Image)
    ensures r.width == img.width && r.height == img.height
    ensures forall y, x :: 0 <= y < r.height && 0 <= x < r.width ==>
      r.rows[y][x] == f(img.rows[y][x])
  {
    Grid(img.width, img.height, MapRows(img.rows, f))
  }

  function MapRows(rows: seq<seq<Luma>>, f: Luma -> Luma): (r: seq<seq<Luma>>)
    ensures |r| == |rows|
    ensures forall y :: 0 <= y < |r| ==> r[y] == MapSeq(rows[y], f)
  {
    seq(|rows|, y requires 0 <= y < |rows| => MapSeq(rows[y], f))
  }

  function MapSeq(s: seq<Luma>, f: Luma -> Luma): (r: seq<Luma>)
    ensures |r| == |s|
    ensures forall i :: 0 <= i < |s| ==> r[i] == f(s[i])
  {
    seq(|s|, i requires 0 <= i < |s| => f(s[i]))
  }

  /** Number of pixels: width times height. */
  function PixelCount(img: Image): nat {
    img.width * img.height
  }

  /** The pixels in row-major order. */
  function Pixels(img: Image): seq<Luma> {
    Flatten(img.rows)
  }

  function Flatten(rows: seq<seq<Luma>>): seq<Luma> {
    if rows == [] then [] else rows[0] + Flatten(rows[1..])
  }

  /** Sum of luminance values. */
  function Sum(s: seq<Luma>): int {
    if s == [] then 0 else s[0] + Sum(s[1..])
  }

  /** Number of entries of `s` equal to `v`. */
  function Count(s: seq<Luma>, v: int): nat {
    if s == [] then 0 else (if s[0] == v then 1 else 0) + Count(s[1..], v)
  }

  /** Number of entries of `s` strictly below `k`. */
  function CountBelow(s: seq<Luma>, k: int): nat {
    if s == [] then 0 else (if s[0] < k then 1 else 0) + CountBelow(s[1..], k)
  }

  /** A W x H image has W * H pixels. */
  lemma PixelsLength(img: Image)
    ensures |Pixels(img)| == img.width * img.height
  {
    FlattenLength(img.rows, img.width);
  }

  lemma {:induction false} FlattenLength(rows: seq<seq<Luma>>, w: nat)
    requires forall y :: 0 <= y < |rows| ==> |rows[y]| == w
    ensures |Flatten(rows)| == |rows| * w
  {
    if rows != [] {
      FlattenLength(rows[1..], w);
    }
  }

  /** Flattening commutes with a per-pixel map. */
  lemma {:induction false} FlattenMap(rows: seq<seq<Luma>>, f: Luma -> Luma)
    ensures Flatten(MapRows(rows, f)) == MapSeq(Flatten(rows), f)
  {
    if rows != [] {
      assert MapRows(rows, f)[1..] == MapRows(rows[1..], f);
      FlattenMap(rows[1..], f);
      assert MapSeq(rows[0] + Flatten(rows[1..]), f)
          == MapSeq(rows[0], f) + MapSeq(Flatten(rows[1..]), f);
    }
  }

  /** Counting the values below k + 1 counts those below k and those equal to k. */
  lemma {:induction false} CountBelowStep(s: seq<Luma>, k: int)
    ensures CountBelow(s, k + 1) == CountBelow(s, k) + Count(s, k)
  {
    if s != [] {
      CountBelowStep(s[1..], k);
    }
  }

  /** Some entry lies below k exactly when the count below k is positive. */
  lemma {:induction false} CountBelowPositive(s: seq<Luma>, k: int)
    ensures CountBelow(s, k) > 0 <==> exists i :: 0 <= i < |s| && s[i] < k
  {
    if s != [] {
      CountBelowPositive(s[1..], k);
      if CountBelow(s[1..], k) > 0 {
        var i :| 0 <= i < |s[1..]| && s[1..][i] < k;
        assert s[i + 1] < k;
      }
      if exists i :: 0 <= i < |s| && s[i] < k {
        var i :| 0 <= i < |s| && s[i] < k;
        if i > 0 {
          assert s[1..][i - 1] < k;
        }
      }
    }
  }

  /** Some entry is at least k exactly when the count below k misses an entry. */
  lemma {:induction false} CountBelowPartial(s: seq<Luma>, k: int)
    ensures CountBelow(s, k) <= |s|
    ensures CountBelow(s, k) < |s| <==> exists i :: 0 <= i < |s| && s[i] >= k
  {
    if s != [] {
      CountBelowPartial(s[1..], k);
      if CountBelow(s[1..], k) < |s[1..]| {
        var i :| 0 <= i < |s[1..]| && s[1..][i] >= k;
        assert s[i + 1] >= k;
      }
      if exists i :: 0 <= i < |s| && s[i] >= k {
        var i :| 0 <= i < |s| && s[i] >= k;
        if i > 0 {
          assert s[1..][i - 1] >= k;
        }
      }
    }
  }
}
