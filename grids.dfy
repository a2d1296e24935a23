/**
 * Single-channel 8-bit images ('L' mode) as grids of intensities, with the
 * operations the glyph-matching engine needs on them: fitting a rasterised
 * bitmap onto a fixed-size canvas, the mean intensity, and cutting one
 * glyph-sized tile out of a larger image.
 */
module Grids {

  /** Rows of pixel intensities; an 'L' image keeps every value in 0..255. */
  type Grid = seq<seq<int>>

  /** `g` has exactly `h` rows of exactly `w` pixels each. */
  predicate IsGrid(g: Grid, h: nat, w: nat)
  {
    |g| == h && forall r :: 0 <= r < |g| ==> |g[r]| == w
  }

  /** Every pixel of `g` is an 8-bit intensity. */
  predicate InRange(g: Grid)
  {
    forall r, c :: 0 <= r < |g| && 0 <= c < |g[r]| ==> 0 <= g[r][c] <= 255
  }

  /** Saturates a value into the 8-bit range, as storing into an 'L' image does. */
  function Clamp(v: int): (r: int)
    ensures 0 <= r <= 255
    ensures 0 <= v <= 255 ==> r == v
  {
    if v < 0 then 0 else if v > 255 then 255 else v
  }

  /**
   * The image obtained by drawing `g` at the origin of a blank (all 0)
   * canvas of `w` columns and `h` rows: whatever falls outside the canvas is
   * cut off, uncovered canvas stays 0.
   */
  function Fit(g: Grid, h: nat, w: nat): (r: Grid)
    ensures IsGrid(r, h, w) && InRange(r)
  {
    seq(h, i requires 0 <= i < h =>
      seq(w, j requires 0 <= j < w =>
        if i < |g| && j < |g[i]| then Clamp(g[i][j]) else 0))
  }

  /** Drawing an image that already has the canvas' size and mode changes nothing. */
  lemma FitKeepsCanvas(g: Grid, h: nat, w: nat)
    requires IsGrid(g, h, w) && InRange(g)
    ensures Fit(g, h, w) == g
  {
    var r := Fit(g, h, w);
    forall i | 0 <= i < h
      ensures r[i] == g[i]
    {
      assert |r[i]| == |g[i]|;
    }
  }

  function RowSum(row: seq<int>): int
  {
    if row == [] then 0 else row[0] + RowSum(row[1..])
  }

  /** Sum of all pixels. */
  function Sum(g: Grid): int
  {
    if g == [] then 0 else RowSum(g[0]) + Sum(g[1..])
  }

  /** Number of pixels. */
  function Count(g: Grid): nat
  {
    if g == [] then 0 else |g[0]| + Count(g[1..])
  }

  /** The mean intensity (numpy's `mean` over the whole array), exactly. */
  function Mean(g: Grid): (m: real)
    requires g != [] && g[0] != []
    ensures Count(g) > 0 && m * Count(g) as real == Sum(g) as real
  {
    Sum(g) as real / Count(g) as real
  }

  lemma {:induction false} RowSumBounds(row: seq<int>)
    requires forall c :: 0 <= c < |row| ==> 0 <= row[c] <= 255
    ensures 0 <= RowSum(row) <= 255 * |row|
  {
    if row != [] {
      RowSumBounds(row[1..]);
    }
  }

  lemma {:induction false} SumBounds(g: Grid)
    requires InRange(g)
    ensures 0 <= Sum(g) <= 255 * Count(g)
  {
    if g != [] {
      RowSumBounds(g[0]);
      SumBounds(g[1..]);
    }
  }

  /** The mean of an 8-bit image is itself an intensity. */
  lemma MeanInRange(g: Grid)
    requires g != [] && g[0] != [] && InRange(g)
    ensures 0.0 <= Mean(g) <= 255.0
  {
    SumBounds(g);
    QuotientBounds(Sum(g) as real, Count(g) as real);
  }

  lemma QuotientBounds(s: real, n: real)
    requires n > 0.0 && 0.0 <= s <= 255.0 * n
    ensures 0.0 <= s / n <= 255.0
  {
    var m := s / n;
    assert m * n == s;
  }

  lemma MulMonotone(a: nat, b: nat, c: nat)
    requires a <= b
    ensures a * c <= b * c
  {
  }

  /**
   * Tile `k` of size `size` fits in a dimension of length `total` whenever
   * k < total / size; what is left after the last whole tile is shorter than
   * one tile.
   */
  lemma TileInside(k: nat, size: nat, total: nat)
    requires size > 0 && k < total / size
    ensures k * size + size <= total
    ensures total - (total / size) * size < size
  {
    var q := total / size;
    assert q * size <= total;
    MulMonotone(k + 1, q, size);
  }

  /**
   * The block of `h` rows and `w` columns whose top-left pixel is at
   * (top, left): the image's pixels at that offset, exactly the block's size.
   */
  function Block(img: Grid, width: nat, top: nat, left: nat, h: nat, w: nat): (b: Grid)
    requires IsGrid(img, |img|, width) && top + h <= |img| && left + w <= width
    ensures IsGrid(b, h, w)
    ensures forall i, j :: 0 <= i < h && 0 <= j < w ==> b[i][j] == img[top + i][left + j]
    ensures InRange(img) ==> InRange(b)
  {
    seq(h, i requires 0 <= i < h => img[top + i][left .. left + w])
  }

  /**
   * The block at tile position (y, x) of an image `width` columns wide, cut
   * into tiles of `h` rows and `w` columns: rows y*h .. y*h+h and columns
   * x*w .. x*w+w. For every tile position below |img| / h and width / w the
   * slice lies inside the image and has exactly the tile's size.
   */
  function Tile(img: Grid, width: nat, h: nat, w: nat, y: nat, x: nat): (b: Grid)
    requires h > 0 && w > 0 && IsGrid(img, |img|, width)
    requires y < |img| / h && x < width / w
    ensures y * h + h <= |img| && x * w + w <= width
    ensures IsGrid(b, h, w)
    ensures forall i, j :: 0 <= i < h && 0 <= j < w ==> b[i][j] == img[y * h + i][x * w + j]
    ensures InRange(img) ==> InRange(b)
  {
    TileInside(y, h, |img|);
    TileInside(x, w, width);
    Block(img, width, y * h, x * w, h, w)
  }

  /** Two images of the same size that agree on the pixels of tile (y, x) have the same tile there. */
  lemma TileLocal(img: Grid, img': Grid, width: nat, h: nat, w: nat, y: nat, x: nat)
    requires h > 0 && w > 0 && IsGrid(img, |img|, width) && IsGrid(img', |img'|, width) && |img'| == |img|
    requires y < |img| / h && x < width / w
    requires forall r, col :: y * h <= r < |img| && r < y * h + h && x * w <= col < width && col < x * w + w ==>
      img[r][col] == img'[r][col]
    ensures Tile(img, width, h, w, y, x) == Tile(img', width, h, w, y, x)
  {
    var b, b' := Tile(img, width, h, w, y, x), Tile(img', width, h, w, y, x);
    forall i | 0 <= i < h
      ensures b[i] == b'[i]
    {
      forall j | 0 <= j < w
        ensures b[i][j] == b'[i][j]
      {
        var r, col := y * h + i, x * w + j;
        assert img[r][col] == img'[r][col];
      }
    }
  }
}
