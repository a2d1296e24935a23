/**
 * The min-difference strategy: the glyph bitmaps stacked in charset order
 * (as rendered, and inverted as 255 minus each pixel), and the lookup that
 * returns the charset character at the first index of minimal Euclidean
 * distance to the block. Distances are compared squared: the square root is
 * monotone, so the first index of the minimum is the same.
 */
module MinDiff {
  import opened Grids

  /** Same number of rows, and row by row the same number of pixels. */
  predicate SameShape(a: Grid, b: Grid)
  {
    |a| == |b| && forall i :: 0 <= i < |a| ==> |a[i]| == |b[i]|
  }

  /** `255 - g` on a whole bitmap. */
  function Invert(g: Grid): (r: Grid)
    ensures SameShape(r, g)
    ensures forall i, j :: 0 <= i < |g| && 0 <= j < |g[i]| ==> r[i][j] + g[i][j] == 255
    ensures InRange(g) ==> InRange(r)
  {
    seq(|g|, i requires 0 <= i < |g| => seq(|g[i]|, j requires 0 <= j < |g[i]| => 255 - g[i][j]))
  }

  /** Inverting twice gives the bitmap back. */
  lemma InvertInvolution(g: Grid)
    ensures Invert(Invert(g)) == g
  {
    var r := Invert(Invert(g));
    forall i | 0 <= i < |g|
      ensures r[i] == g[i]
    {
      assert |r[i]| == |g[i]|;
    }
  }

  /** The inverted stack, bitmap by bitmap. */
  function InvertAll(tensor: seq<Grid>): (r: seq<Grid>)
    ensures |r| == |tensor|
    ensures forall i :: 0 <= i < |tensor| ==> SameShape(r[i], tensor[i]) && r[i] == Invert(tensor[i])
  {
    seq(|tensor|, i requires 0 <= i < |tensor| => Invert(tensor[i]))
  }

  function Square(v: int): nat
  {
    v * v
  }

  /** Squared Euclidean distance of two pixel rows; it bounds each pixel's own squared difference. */
  function RowDistance(a: seq<int>, b: seq<int>): (d: nat)
    requires |a| == |b|
    ensures forall j :: 0 <= j < |a| ==> Square(a[j] - b[j]) <= d
  {
    if a == [] then 0
    else
      var rest := RowDistance(a[1..], b[1..]);
      assert forall j :: 1 <= j < |a| ==> a[j] == a[1..][j - 1] && b[j] == b[1..][j - 1];
      Square(a[0] - b[0]) + rest
  }

  /** Squared Euclidean distance of two bitmaps taken as flat vectors. */
  function Distance(a: Grid, b: Grid): (d: nat)
    requires SameShape(a, b)
    ensures forall i, j :: 0 <= i < |a| && 0 <= j < |a[i]| ==> Square(a[i][j] - b[i][j]) <= d
  {
    if a == [] then 0 else RowDistance(a[0], b[0]) + Distance(a[1..], b[1..])
  }

  /** The difference of two `uint8` pixels as numpy computes it: modulo 256. */
  function WrappedDifference(p: int, q: int): (d: int)
    ensures 0 <= d < 256
    ensures 0 <= p < 256 && 0 <= q < 256 ==> d == if p >= q then p - q else p - q + 256
  {
    (p - q) % 256
  }

  /** The squared norm of a row difference taken on `uint8` pixels; it bounds each wrapped difference's square. */
  function WrappedRowDistance(a: seq<int>, b: seq<int>): (d: nat)
    requires |a| == |b|
    ensures forall j :: 0 <= j < |a| ==> WrappedDifference(a[j], b[j]) * WrappedDifference(a[j], b[j]) <= d
  {
    if a == [] then 0
    else WrappedDifference(a[0], b[0]) * WrappedDifference(a[0], b[0]) + WrappedRowDistance(a[1..], b[1..])
  }

  /** The squared norm of `block - glyph` computed on `uint8` arrays, each difference wrapped. */
  function WrappedDistance(a: Grid, b: Grid): (d: nat)
    requires SameShape(a, b)
    ensures forall i, j :: 0 <= i < |a| && 0 <= j < |a[i]| ==>
      WrappedDifference(a[i][j], b[i][j]) * WrappedDifference(a[i][j], b[i][j]) <= d
  {
    if a == [] then 0 else WrappedRowDistance(a[0], b[0]) + WrappedDistance(a[1..], b[1..])
  }

  lemma {:induction false} RowDistanceZero(a: seq<int>, b: seq<int>)
    requires |a| == |b|
    ensures RowDistance(a, b) == 0 <==> a == b
  {
    if a != [] {
      RowDistanceZero(a[1..], b[1..]);
      SquareZero(a[0] - b[0]);
      assert RowDistance(a, b) == Square(a[0] - b[0]) + RowDistance(a[1..], b[1..]);
      assert a == [a[0]] + a[1..] && b == [b[0]] + b[1..];
    }
  }

  lemma SquareZero(v: int)
    ensures Square(v) == 0 <==> v == 0
  {
    if v != 0 {
      assert v * v > 0;
    }
  }

  /** Distance 0 means the bitmaps are identical, and only then. */
  lemma {:induction false} DistanceZero(a: Grid, b: Grid)
    requires SameShape(a, b)
    ensures Distance(a, b) == 0 <==> a == b
  {
    if a != [] {
      RowDistanceZero(a[0], b[0]);
      DistanceZero(a[1..], b[1..]);
      assert a == [a[0]] + a[1..] && b == [b[0]] + b[1..];
    }
  }

  lemma {:induction false} RowDistanceSymmetric(a: seq<int>, b: seq<int>)
    requires |a| == |b|
    ensures RowDistance(a, b) == RowDistance(b, a)
  {
    if a != [] {
      RowDistanceSymmetric(a[1..], b[1..]);
      assert (a[0] - b[0]) * (a[0] - b[0]) == (b[0] - a[0]) * (b[0] - a[0]);
    }
  }

  /** The distance of a block to a glyph is that of the glyph to the block. */
  lemma {:induction false} DistanceSymmetric(a: Grid, b: Grid)
    requires SameShape(a, b)
    ensures Distance(a, b) == Distance(b, a)
  {
    if a != [] {
      RowDistanceSymmetric(a[0], b[0]);
      DistanceSymmetric(a[1..], b[1..]);
    }
  }

  function Abs(v: int): nat
  {
    if v < 0 then -v else v
  }

  lemma SquareMonotone(u: int, v: int)
    requires Abs(u) <= Abs(v)
    ensures u * u <= v * v
  {
    var p, q := Abs(u), Abs(v);
    assert u * u == p * p && v * v == q * q;
    assert p * p <= p * q <= q * q;
  }

  lemma {:induction false} RowDistanceMonotone(a: seq<int>, b: seq<int>, c: seq<int>)
    requires |a| == |b| == |c|
    requires forall k :: 0 <= k < |a| ==> Abs(a[k] - b[k]) <= Abs(a[k] - c[k])
    ensures RowDistance(a, b) <= RowDistance(a, c)
  {
    if a != [] {
      SquareMonotone(a[0] - b[0], a[0] - c[0]);
      RowDistanceMonotone(a[1..], b[1..], c[1..]);
    }
  }

  /**
   * A glyph that is, pixel by pixel, no further from the block than another
   * glyph is no further in distance either.
   */
  lemma {:induction false} DistanceMonotone(a: Grid, b: Grid, c: Grid)
    requires SameShape(a, b) && SameShape(a, c)
    requires forall i, k :: 0 <= i < |a| && 0 <= k < |a[i]| ==> Abs(a[i][k] - b[i][k]) <= Abs(a[i][k] - c[i][k])
    ensures Distance(a, b) <= Distance(a, c)
  {
    if a != [] {
      RowDistanceMonotone(a[0], b[0], c[0]);
      DistanceMonotone(a[1..], b[1..], c[1..]);
    }
  }

  /**
   * `np.argmin`: the first index holding the minimum. Every entry is at
   * least the one at the result, and every entry before it is larger.
   */
  function ArgMin(ds: seq<nat>): (k: nat)
    requires |ds| > 0
    ensures k < |ds|
    ensures forall j :: 0 <= j < |ds| ==> ds[k] <= ds[j]
    ensures forall j :: 0 <= j < k ==> ds[k] < ds[j]
  {
    if |ds| == 1 then 0
    else
      var k := ArgMin(ds[..|ds| - 1]);
      if ds[|ds| - 1] < ds[k] then |ds| - 1 else k
  }

  /** Every bitmap of the stack has the block's shape (numpy needs it to subtract). */
  predicate Aligned(tensor: seq<Grid>, block: Grid)
  {
    forall i :: 0 <= i < |tensor| ==> SameShape(block, tensor[i])
  }

  /** The distance of the block to every bitmap of the stack, in stack order. */
  function Distances(tensor: seq<Grid>, block: Grid): (ds: seq<nat>)
    requires Aligned(tensor, block)
    ensures |ds| == |tensor|
  {
    seq(|tensor|, i requires 0 <= i < |tensor| => Distance(block, tensor[i]))
  }

  function WrappedDistances(tensor: seq<Grid>, block: Grid): (ds: seq<nat>)
    requires Aligned(tensor, block)
    ensures |ds| == |tensor|
  {
    seq(|tensor|, i requires 0 <= i < |tensor| => WrappedDistance(block, tensor[i]))
  }

  /** The first index of the bitmap nearest to the block. */
  function BestIndex(tensor: seq<Grid>, block: Grid): (k: nat)
    requires |tensor| > 0 && Aligned(tensor, block)
    ensures k < |tensor|
    ensures forall j :: 0 <= j < |tensor| ==> Distance(block, tensor[k]) <= Distance(block, tensor[j])
    ensures forall j :: 0 <= j < k ==> Distance(block, tensor[k]) < Distance(block, tensor[j])
  {
    var ds := Distances(tensor, block);
    var k := ArgMin(ds);
    assert forall j :: 0 <= j < |tensor| ==> ds[j] == Distance(block, tensor[j]);
    k
  }

  /**
   * `c` is the charset character of the first slot of the stack whose
   * bitmap is at minimal distance from the block.
   */
  predicate IsNearest(tensor: seq<Grid>, charset: seq<char>, block: Grid, c: char)
    requires |tensor| == |charset| && Aligned(tensor, block)
  {
    exists k :: (0 <= k < |charset| && c == charset[k] &&
      (forall j :: 0 <= j < |tensor| ==> Distance(block, tensor[k]) <= Distance(block, tensor[j])) &&
      (forall j :: 0 <= j < k ==> Distance(block, tensor[k]) < Distance(block, tensor[j])))
  }

  /** The character the block is matched to: `CHARSET[argmin]`, slot i of the stack standing for charset[i]. */
  function Match(tensor: seq<Grid>, charset: seq<char>, block: Grid): (c: char)
    requires |tensor| == |charset| > 0 && Aligned(tensor, block)
    ensures c in charset
    ensures IsNearest(tensor, charset, block, c)
  {
    charset[BestIndex(tensor, block)]
  }

  /** The lookup as the code computes it, with wrapped `uint8` differences. */
  function MatchAsWritten(tensor: seq<Grid>, charset: seq<char>, block: Grid): (c: char)
    requires |tensor| == |charset| > 0 && Aligned(tensor, block)
    ensures c in charset
  {
    charset[ArgMin(WrappedDistances(tensor, block))]
  }

  /**
   * A block identical to the bitmap at slot i matches a slot no later than
   * i holding that same bitmap (distance 0); when no earlier slot holds it,
   * exactly slot i.
   */
  lemma MatchRoundTrip(tensor: seq<Grid>, i: nat)
    requires i < |tensor| && Aligned(tensor, tensor[i])
    ensures BestIndex(tensor, tensor[i]) <= i
    ensures tensor[BestIndex(tensor, tensor[i])] == tensor[i]
    ensures (forall j :: 0 <= j < i ==> tensor[j] != tensor[i]) ==> BestIndex(tensor, tensor[i]) == i
  {
    var block := tensor[i];
    var k := BestIndex(tensor, block);
    DistanceZero(block, block);
    DistanceZero(block, tensor[k]);
  }

  /**
   * The wrapped difference is not a distance: from a black pixel, a pixel
   * of 1 is 255 away and a pixel of 255 is 1 away, and the two directions
   * disagree. So among glyphs [[1]] and [[255]] a black block [[0]] is
   * matched to the white glyph, where the Euclidean distance picks the
   * nearly black one. That is the stack compared without inversion.
   */
  lemma WrappedDifferenceMisleads()
    ensures WrappedDistance([[0]], [[1]]) == 65025
    ensures WrappedDistance([[0]], [[255]]) == 1
    ensures WrappedDistance([[1]], [[0]]) == 1
    ensures MatchAsWritten([[[1]], [[255]]], "ab", [[0]]) == 'b'
    ensures Match([[[1]], [[255]]], "ab", [[0]]) == 'a'
  {
    var tensor: seq<Grid> := [[[1]], [[255]]];
    var block: Grid := [[0]];
    assert WrappedDistance(block, tensor[0]) == 65025;
    assert WrappedDistance(block, tensor[1]) == 1;
    assert WrappedDistances(tensor, block) == [65025, 1];
    assert Distance(block, tensor[0]) == 1;
    assert Distance(block, tensor[1]) == 65025;
    assert Distances(tensor, block) == [1, 65025];
  }

  /**
   * The same disagreement on the inverted stack the lookup compares by
   * default: glyphs [[254]] and [[0]] invert to [[1]] and [[255]].
   */
  lemma WrappedDifferenceMisleadsInverted()
    ensures InvertAll([[[254]], [[0]]]) == [[[1]], [[255]]]
    ensures MatchAsWritten(InvertAll([[[254]], [[0]]]), "ab", [[0]]) == 'b'
    ensures Match(InvertAll([[[254]], [[0]]]), "ab", [[0]]) == 'a'
  {
    var glyphs: seq<Grid> := [[[254]], [[0]]];
    assert Invert(glyphs[0])[0] == [1] && Invert(glyphs[1])[0] == [255];
    assert Invert(glyphs[0]) == [[1]] && Invert(glyphs[1]) == [[255]];
    assert InvertAll(glyphs) == [[[1]], [[255]]];
    WrappedDifferenceMisleads();
  }
}
