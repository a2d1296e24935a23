/**
 * The drawing engine behind both front ends (`_AsciiDraw` in ascii_draw.py
 * and `_PixelDraw` in pixel_draw.py, which repeats it): a glyph cache that
 * renders every charset character onto a blank canvas of the font's space
 * size, the features each strategy precomputes from it, the per-block
 * matcher, and the canvas that tiles an image into glyph-sized blocks.
 *
 * The font rasteriser and the image filters (Gaussian blur) are foreign
 * code and appear as function parameters: `ink(c)` is what the rasteriser
 * draws for `c`, a filter maps an image to an image. The canvas they are
 * drawn on has a fixed size and 8-bit mode, which `Fit` enforces.
 */
module Draw {
  import opened Grids
  import opened BrightnessSort
  import BrightnessIndex
  import MinDiff

  /** Which subclass the engine is: `Brightness...Draw` or `MinDiffAsciiDraw`. */
  datatype Strategy = Brightness | MinDifference

  /** A canvas cell: row `y`, column `x`. */
  datatype Cell = Cell(y: nat, x: nat)

  predicate Distinct(s: seq<char>)
  {
    forall i, j :: 0 <= i < j < |s| ==> s[i] != s[j]
  }

  /** The image after each filter in turn; a filter keeps the image's size and mode. */
  function ApplyFilters(g: Grid, filters: seq<Grid -> Grid>, h: nat, w: nat): (r: Grid)
    ensures filters != [] || r == g
    ensures IsGrid(g, h, w) && InRange(g) ==> IsGrid(r, h, w) && InRange(r)
  {
    if filters == [] then g
    else Fit(filters[|filters| - 1](ApplyFilters(g, filters[..|filters| - 1], h, w)), h, w)
  }

  /** The glyph bitmap of a character: its ink on a blank h x w canvas, then filtered. */
  function Render(ink: Grid, filters: seq<Grid -> Grid>, h: nat, w: nat): (r: Grid)
    ensures IsGrid(r, h, w) && InRange(r)
  {
    ApplyFilters(Fit(ink, h, w), filters, h, w)
  }

  /** The (character, glyph mean) pairs of a charset rendered with `ink` and `filters`. */
  function RenderedPairs(charset: seq<char>, ink: char -> Grid, filters: seq<Grid -> Grid>, h: nat, w: nat): (pairs: seq<Pair>)
    requires h > 0 && w > 0
    ensures Chars(pairs) == charset
  {
    seq(|charset|, i requires 0 <= i < |charset| => Pair(charset[i], Mean(Render(ink(charset[i]), filters, h, w))))
  }

  /** Cells (0, x) .. (height - 1, x): one column, top to bottom. */
  function Column(height: nat, x: nat): seq<Cell>
  {
    if height == 0 then [] else Column(height - 1, x) + [Cell(height - 1, x)]
  }

  /** All cells of a height x width canvas, column after column. */
  function ColumnMajor(height: nat, width: nat): seq<Cell>
  {
    if width == 0 then [] else ColumnMajor(height, width - 1) + Column(height, width - 1)
  }

  /** Position of a cell in column-major order. */
  function Position(c: Cell, height: nat): nat
  {
    c.x * height + c.y
  }

  lemma {:induction false} ColumnCells(height: nat, x: nat)
    ensures |Column(height, x)| == height
    ensures forall k :: 0 <= k < height ==> Column(height, x)[k] == Cell(k, x)
  {
    if height > 0 {
      ColumnCells(height - 1, x);
    }
  }

  lemma {:induction false} ColumnMajorLength(height: nat, width: nat)
    ensures |ColumnMajor(height, width)| == height * width
  {
    if width > 0 {
      ColumnMajorLength(height, width - 1);
      ColumnCells(height, width - 1);
      assert height * width == height * (width - 1) + height;
    }
  }

  lemma {:induction false} ColumnMajorPositions(height: nat, width: nat)
    ensures forall k :: 0 <= k < |ColumnMajor(height, width)| ==>
      ColumnMajor(height, width)[k].y < height && ColumnMajor(height, width)[k].x < width &&
      Position(ColumnMajor(height, width)[k], height) == k
  {
    if width > 0 {
      var prefix := ColumnMajor(height, width - 1);
      var column := Column(height, width - 1);
      var t := ColumnMajor(height, width);
      ColumnMajorPositions(height, width - 1);
      ColumnMajorLength(height, width - 1);
      ColumnCells(height, width - 1);
      var n := |prefix|;
      assert n == height * (width - 1);
      assert t == prefix + column;
      forall k | 0 <= k < |t|
        ensures t[k].y < height && t[k].x < width && Position(t[k], height) == k
      {
        if k < n {
          assert t[k] == prefix[k];
        } else {
          var y := k - n;
          assert t[k] == column[y] == Cell(y, width - 1);
        }
      }
    }
  }

  lemma {:induction false} ColumnMajorCovers(height: nat, width: nat)
    ensures forall c: Cell :: c.y < height && c.x < width ==>
      Position(c, height) < |ColumnMajor(height, width)| && ColumnMajor(height, width)[Position(c, height)] == c
  {
    if width > 0 {
      ColumnMajorCovers(height, width - 1);
      forall c: Cell | c.y < height && c.x < width
        ensures Position(c, height) < |ColumnMajor(height, width)| && ColumnMajor(height, width)[Position(c, height)] == c
      {
        if c.x < width - 1 {
          assert ColumnMajor(height, width) == ColumnMajor(height, width - 1) + Column(height, width - 1);
        } else {
          CoversLastColumn(height, width - 1, c.y);
        }
      }
    }
  }

  /** Cell (y, x) sits at its position in the walk over the first x + 1 columns. */
  lemma CoversLastColumn(height: nat, x: nat, y: nat)
    requires y < height
    ensures Position(Cell(y, x), height) < |ColumnMajor(height, x + 1)|
    ensures ColumnMajor(height, x + 1)[Position(Cell(y, x), height)] == Cell(y, x)
  {
    ColumnMajorLength(height, x);
    ColumnCells(height, x);
    assert ColumnMajor(height, x + 1) == ColumnMajor(height, x) + Column(height, x);
  }

  /**
   * The column-major walk visits every cell of the canvas exactly once: the
   * k-th step is the cell at position k, so no cell comes twice, and every
   * cell of the canvas comes.
   */
  lemma ColumnMajorVisitsEachCellOnce(height: nat, width: nat)
    ensures |ColumnMajor(height, width)| == height * width
    ensures forall k :: 0 <= k < |ColumnMajor(height, width)| ==>
      ColumnMajor(height, width)[k].y < height && ColumnMajor(height, width)[k].x < width &&
      Position(ColumnMajor(height, width)[k], height) == k
    ensures forall c: Cell :: c.y < height && c.x < width ==> c in ColumnMajor(height, width)
  {
    ColumnMajorLength(height, width);
    ColumnMajorPositions(height, width);
    ColumnMajorCovers(height, width);
    forall c: Cell | c.y < height && c.x < width
      ensures c in ColumnMajor(height, width)
    {
      assert ColumnMajor(height, width)[Position(c, height)] == c;
    }
  }

  /**
   * What the matcher reads of an engine, as a value: the strategy, the
   * charset, the glyph size and the features of either strategy.
   */
  datatype Engine = Engine(strategy: Strategy, charset: seq<char>, h: nat, w: nat,
                           inverted: seq<Pair>, normal: seq<Pair>,
                           tensor: seq<Grid>, tensorInverted: seq<Grid>)

  /**
   * What the matcher relies on: for the brightness strategy two well-formed
   * lists of charset characters; for the min-difference strategy two stacks
   * of h x w bitmaps, one slot per charset character.
   */
  ghost predicate Ready(e: Engine)
  {
    e.w > 0 && e.h > 0 && |e.charset| > 0 &&
    match e.strategy
    case Brightness =>
      BrightnessIndex.WellFormed(e.inverted) && BrightnessIndex.WellFormed(e.normal) &&
      (forall i :: 0 <= i < |e.inverted| ==> e.inverted[i].ch in e.charset) &&
      (forall i :: 0 <= i < |e.normal| ==> e.normal[i].ch in e.charset)
    case MinDifference =>
      |e.tensor| == |e.tensorInverted| == |e.charset| &&
      (forall i :: 0 <= i < |e.tensor| ==> IsGrid(e.tensor[i], e.h, e.w)) &&
      (forall i :: 0 <= i < |e.tensorInverted| ==> IsGrid(e.tensorInverted[i], e.h, e.w))
  }

  /**
   * `_find_best_matched_char`: the character an h x w block is drawn as.
   * The brightness strategy returns the character of the leftmost entry of
   * the chosen list whose scaled brightness is at least the block's mean;
   * the min-difference strategy the charset character at the first slot of
   * the chosen stack at minimal distance from the block. Either way a
   * character of the charset.
   */
  function MatchWith(e: Engine, block: Grid, invert: bool): (c: char)
    requires Ready(e) && IsGrid(block, e.h, e.w) && InRange(block)
    ensures c in e.charset
    ensures e.strategy == Brightness ==>
      BrightnessIndex.IsLeftmostAtLeast(if invert then e.inverted else e.normal, Mean(block), c)
    ensures e.strategy == MinDifference ==>
      MinDiff.Aligned(if invert then e.tensorInverted else e.tensor, block) &&
      MinDiff.IsNearest(if invert then e.tensorInverted else e.tensor, e.charset, block, c)
  {
    match e.strategy
    case Brightness =>
      var list := if invert then e.inverted else e.normal;
      MeanInRange(block);
      var c := BrightnessIndex.Match(list, Mean(block));
      assert c in Chars(list);
      c
    case MinDifference =>
      var tensor := if invert then e.tensorInverted else e.tensor;
      assert MinDiff.Aligned(tensor, block);
      MinDiff.Match(tensor, e.charset, block)
  }

  /** What cell (y, x) of the canvas of `img` is drawn as: the match of its tile. */
  function CellChar(e: Engine, img: Grid, width: nat, invert: bool, y: nat, x: nat): (c: char)
    requires Ready(e) && IsGrid(img, |img|, width) && InRange(img)
    requires y < |img| / e.h && x < width / e.w
    ensures c in e.charset
  {
    MatchWith(e, Tile(img, width, e.h, e.w, y, x), invert)
  }

  /**
   * A cell depends on its own tile only: two images of the same size that
   * agree on the pixels of tile (y, x) give that cell the same character.
   */
  lemma CellCharLocal(e: Engine, img: Grid, img': Grid, width: nat, invert: bool, y: nat, x: nat)
    requires Ready(e) && IsGrid(img, |img|, width) && InRange(img)
    requires IsGrid(img', |img'|, width) && InRange(img') && |img'| == |img|
    requires y < |img| / e.h && x < width / e.w
    requires forall r, col :: y * e.h <= r < |img| && r < y * e.h + e.h && x * e.w <= col < width && col < x * e.w + e.w ==>
      img[r][col] == img'[r][col]
    ensures CellChar(e, img, width, invert, y, x) == CellChar(e, img', width, invert, y, x)
  {
    TileLocal(img, img', width, e.h, e.w, y, x);
  }

  /**
   * One drawing engine. Models the state of `_AsciiDraw` / `_PixelDraw`
   * (the glyph dictionary and its key order, the glyph size) and of their
   * subclasses (the brightness index, or the stacked glyph bitmaps).
   */
  class AsciiDraw {
    const strategy: Strategy
    /** CHARSET of the class. */
    const charset: seq<char>
    /** Glyph size: the font's width and height of a space. */
    var w: nat
    var h: nat
    /** The glyph dictionary `char_to_arr`, and its keys in insertion order. */
    var keys: seq<char>
    var charToArr: map<char, Grid>
    /** Brightness strategy: `_brightnesses_inverted` and `_brightnesses`. */
    var brightnessesInverted: seq<Pair>
    var brightnesses: seq<Pair>
    /** Min-difference strategy: `_char_arr` and `_char_arr_inverted`. */
    var charArr: seq<Grid>
    var charArrInverted: seq<Grid>

    /**
     * The glyph cache: one entry per charset character, keyed in charset
     * order, every glyph an h x w 8-bit bitmap.
     */
    ghost predicate CacheValid()
      reads this`w, this`h, this`keys, this`charToArr
    {
      w > 0 && h > 0 && |charset| > 0 && Distinct(charset) && keys == charset &&
      (forall c :: c in charToArr <==> c in charset) &&
      (forall c :: c in charToArr ==> IsGrid(charToArr[c], h, w) && InRange(charToArr[c]))
    }

    /** The cache, and the features of the engine's strategy computed from it. */
    ghost predicate Valid()
      reads this
    {
      CacheValid() &&
      match strategy
      case Brightness =>
        BrightnessIndex.HasContrast(Pairs()) &&
        BrightnessIndex.Index(brightnessesInverted, brightnesses) == BrightnessIndex.Features(Pairs())
      case MinDifference =>
        charArr == Glyphs() && charArrInverted == MinDiff.InvertAll(charArr)
    }

    /** `{char: mean(arr) for char, arr in char_to_arr.items()}`, in key order. */
    function Pairs(): (pairs: seq<Pair>)
      reads this`w, this`h, this`keys, this`charToArr
      requires CacheValid()
      ensures Chars(pairs) == charset
    {
      var ks, glyphs := keys, charToArr;
      var pairs := seq(|ks|, i requires 0 <= i < |ks| => Pair(ks[i], Mean(glyphs[ks[i]])));
      assert Chars(pairs) == charset;
      pairs
    }

    /** `char_to_arr.values()` stacked: slot i holds the glyph of charset[i]. */
    function Glyphs(): (tensor: seq<Grid>)
      reads this`w, this`h, this`keys, this`charToArr
      requires CacheValid()
      ensures |tensor| == |charset|
      ensures forall i :: 0 <= i < |charset| ==> tensor[i] == charToArr[charset[i]]
    {
      var ks, glyphs := keys, charToArr;
      seq(|ks|, i requires 0 <= i < |ks| => glyphs[ks[i]])
    }

    /**
     * Builds the engine: loads the glyph cache, then computes the strategy's
     * features. The brightness strategy divides by the spread between the
     * lightest and darkest glyph, so its glyphs must not all be equally bright.
     */
    constructor (strategy: Strategy, charset: seq<char>, w: nat, h: nat,
                 ink: char -> Grid, filters: seq<Grid -> Grid>, blur: Grid -> Grid)
      requires w > 0 && h > 0 && |charset| > 0 && Distinct(charset)
      requires strategy == Brightness ==> BrightnessIndex.HasContrast(RenderedPairs(charset, ink, filters, h, w))
      ensures Valid()
      ensures this.strategy == strategy && this.charset == charset && this.w == w && this.h == h
      ensures forall k :: 0 <= k < |charset| ==>
        charToArr[charset[k]] == Render(ink(charset[k]), if strategy == Brightness then filters else [blur], h, w)
    {
      this.strategy := strategy;
      this.charset := charset;
      new;
      LoadCharsWithFont(w, h, ink, filters);
      PairsAreRendered(ink, filters);
      ComputeCharsetFeatures(ink, blur);
    }

    /** A cache loaded through `ink` and `filters` has the means of those renderings as its pairs. */
    lemma PairsAreRendered(ink: char -> Grid, filters: seq<Grid -> Grid>)
      requires CacheValid()
      requires forall c :: c in charset ==> charToArr[c] == Render(ink(c), filters, h, w)
      ensures Pairs() == RenderedPairs(charset, ink, filters, h, w)
    {
    }

    /**
     * `load_chars_with_font`: sets the glyph size, empties the dictionary and
     * loads every charset character in order.
     */
    method LoadCharsWithFont(w: nat, h: nat, ink: char -> Grid, filters: seq<Grid -> Grid>)
      requires w > 0 && h > 0 && |charset| > 0 && Distinct(charset)
      modifies this`w, this`h, this`keys, this`charToArr
      ensures CacheValid() && this.w == w && this.h == h
      ensures forall c :: c in charset ==> charToArr[c] == Render(ink(c), filters, h, w)
    {
      charToArr := map[];
      keys := [];
      this.w, this.h := w, h;
      var i := 0;
      while i < |charset|
        invariant 0 <= i <= |charset|
        invariant this.w == w && this.h == h
        invariant keys == charset[..i]
        invariant forall c :: c in charToArr <==> c in charset[..i]
        invariant forall c :: c in charToArr ==> charToArr[c] == Render(ink(c), filters, h, w)
      {
        assert charset[i] !in charset[..i];
        LoadChar(charset[i], ink, filters);
        assert charset[..i + 1] == charset[..i] + [charset[i]];
        i := i + 1;
      }
      assert charset[..i] == charset;
    }

    /**
     * `_load_char`: draws the character on a blank h x w canvas, applies the
     * filters in order and stores the bitmap under the character; a key new
     * to the dictionary goes to the end of its key order.
     */
    method LoadChar(c: char, ink: char -> Grid, filters: seq<Grid -> Grid>)
      modifies this`keys, this`charToArr
      ensures charToArr == old(charToArr)[c := Render(ink(c), filters, h, w)]
      ensures keys == if c in old(charToArr) then old(keys) else old(keys) + [c]
    {
      var image := Fit(ink(c), h, w);
      var i := 0;
      while i < |filters|
        invariant 0 <= i <= |filters|
        invariant image == ApplyFilters(Fit(ink(c), h, w), filters[..i], h, w)
      {
        assert filters[..i + 1][..i] == filters[..i];
        image := Fit(filters[i](image), h, w);
        i := i + 1;
      }
      assert filters[..i] == filters;
      if c !in charToArr {
        keys := keys + [c];
      }
      charToArr := charToArr[c := image];
    }

    /**
     * `_compute_charset_features`. Brightness: the index of sorted, rescaled
     * glyph means. Min-difference: reloads every glyph blurred, then stacks
     * the bitmaps in key order, and their inverses.
     */
    method ComputeCharsetFeatures(ink: char -> Grid, blur: Grid -> Grid)
      requires CacheValid()
      requires strategy == Brightness ==> BrightnessIndex.HasContrast(Pairs())
      modifies this`keys, this`charToArr, this`brightnessesInverted, this`brightnesses,
               this`charArr, this`charArrInverted
      ensures Valid()
      ensures strategy == Brightness ==>
        keys == old(keys) && charToArr == old(charToArr) && charArr == old(charArr) && charArrInverted == old(charArrInverted)
      ensures strategy == MinDifference ==>
        forall k :: 0 <= k < |charset| ==> charToArr[charset[k]] == Render(ink(charset[k]), [blur], h, w)
    {
      match strategy
      case Brightness =>
        ComputeBrightnessIndex();
      case MinDifference =>
        StackBlurredGlyphs(ink, blur);
    }

    /** `BrightnessAsciiDraw._compute_charset_features`: the index of sorted, rescaled glyph means. */
    method ComputeBrightnessIndex()
      requires CacheValid() && BrightnessIndex.HasContrast(Pairs())
      modifies this`brightnessesInverted, this`brightnesses
      ensures BrightnessIndex.Index(brightnessesInverted, brightnesses) == BrightnessIndex.Features(Pairs())
    {
      var index := BrightnessIndex.Features(Pairs());
      brightnessesInverted, brightnesses := index.inverted, index.normal;
    }

    /**
     * `MinDiffAsciiDraw._compute_charset_features`: reloads every charset
     * character with the blur as the only filter, then stacks the bitmaps
     * in key order, and their inverses.
     */
    method StackBlurredGlyphs(ink: char -> Grid, blur: Grid -> Grid)
      requires CacheValid()
      modifies this`keys, this`charToArr, this`charArr, this`charArrInverted
      ensures CacheValid()
      ensures forall k :: 0 <= k < |charset| ==> charToArr[charset[k]] == Render(ink(charset[k]), [blur], h, w)
      ensures charArr == Glyphs() && charArrInverted == MinDiff.InvertAll(charArr)
    {
      ReloadChars(ink, [blur]);
      charArr := Glyphs();
      charArrInverted := MinDiff.InvertAll(charArr);
    }

    /**
     * The `for char in self.CHARSET: self._load_char(char, filters)` loop
     * on a loaded cache: every glyph is replaced by its rendering through
     * `filters`; the keys and their order stay as they are.
     */
    method ReloadChars(ink: char -> Grid, filters: seq<Grid -> Grid>)
      requires CacheValid()
      modifies this`keys, this`charToArr
      ensures CacheValid()
      ensures forall k :: 0 <= k < |charset| ==> charToArr[charset[k]] == Render(ink(charset[k]), filters, h, w)
    {
      var i := 0;
      while i < |charset|
        invariant 0 <= i <= |charset|
        invariant CacheValid()
        invariant forall k :: 0 <= k < i ==> charToArr[charset[k]] == Render(ink(charset[k]), filters, h, w)
      {
        assert charset[i] in charToArr;
        ghost var before := charToArr;
        LoadChar(charset[i], ink, filters);
        assert charToArr.Keys == before.Keys;
        i := i + 1;
      }
    }

    /** The glyph stack the min-difference strategy compares a block against. */
    function Tensor(invert: bool): (tensor: seq<Grid>)
      reads this
      requires Valid() && strategy == MinDifference
      ensures |tensor| == |charset|
      ensures forall i :: 0 <= i < |charset| ==>
        tensor[i] == (if invert then MinDiff.Invert(charToArr[charset[i]]) else charToArr[charset[i]])
    {
      if invert then charArrInverted else charArr
    }

    /** The engine's state as the matcher reads it. */
    function State(): Engine
      reads this
    {
      Engine(strategy, charset, h, w, brightnessesInverted, brightnesses, charArr, charArrInverted)
    }

    lemma ValidIsReady()
      requires Valid()
      ensures Ready(State())
    {
      match strategy
      case Brightness =>
        var pairs := Pairs();
        BrightnessIndex.FeaturesWellFormed(pairs);
        BrightnessIndex.FeaturesPermutation(pairs);
        forall i | 0 <= i < |brightnessesInverted|
          ensures brightnessesInverted[i].ch in charset
        {
          assert Chars(brightnessesInverted)[i] in multiset(Chars(pairs));
        }
        forall i | 0 <= i < |brightnesses|
          ensures brightnesses[i].ch in charset
        {
          assert Chars(brightnesses)[i] in multiset(Chars(pairs));
        }
      case MinDifference =>
    }

    /** `_find_best_matched_char` on this engine's features. */
    function FindBestMatchedChar(block: Grid, invert: bool): (c: char)
      reads this
      requires Ready(State()) && IsGrid(block, h, w) && InRange(block)
      ensures c in charset
    {
      MatchWith(State(), block, invert)
    }

    /**
     * `image_to_ascii` without the loading and printing: an image of |img|
     * rows and `width` columns gives a canvas of |img| / h rows and width / w
     * columns (the partial tiles at the bottom and right are dropped), whose
     * cell (y, x) holds the match of the tile at rows y*h .. y*h+h and
     * columns x*w .. x*w+w, written column by column, each cell exactly once
     * (`trace` lists the writes in order).
     */
    method ImageToAscii(img: Grid, width: nat, invert: bool) returns (canvas: array2<char>, ghost trace: seq<Cell>)
      requires Valid() && IsGrid(img, |img|, width) && InRange(img)
      ensures fresh(canvas)
      ensures Ready(State())
      ensures canvas.Length0 == |img| / h && canvas.Length1 == width / w
      ensures forall y, x :: 0 <= y < canvas.Length0 && 0 <= x < canvas.Length1 ==>
        canvas[y, x] == CellChar(State(), img, width, invert, y, x)
      ensures trace == ColumnMajor(canvas.Length0, canvas.Length1)
    {
      ValidIsReady();
      var e := State();
      var rows, cols := |img| / h, width / w;
      canvas, trace := DrawCells(rows, cols,
        (y: nat, x: nat) requires Ready(e) && IsGrid(img, |img|, width) && InRange(img) &&
                                  y < |img| / e.h && x < width / e.w =>
          CellChar(e, img, width, invert, y, x));
    }
  }

  /**
   * The nested loops of `image_to_ascii`: for every column x, for every row
   * y, cell (y, x) of a fresh `rows` x `cols` canvas is set to `cell(y, x)`.
   * Every cell ends up holding its value, and the writes happen in
   * column-major order, one per cell.
   */
  method DrawCells(rows: nat, cols: nat, cell: (nat, nat) --> char) returns (canvas: array2<char>, ghost trace: seq<Cell>)
    requires forall y: nat, x: nat :: y < rows && x < cols ==> cell.requires(y, x)
    ensures fresh(canvas)
    ensures canvas.Length0 == rows && canvas.Length1 == cols
    ensures forall y: nat, x: nat :: y < rows && x < cols ==> canvas[y, x] == cell(y, x)
    ensures trace == ColumnMajor(rows, cols)
  {
    canvas := new char[rows, cols];
    trace := [];
    var x := 0;
    while x < cols
      invariant 0 <= x <= cols
      invariant forall y': nat, x': nat :: y' < rows && x' < x ==> canvas[y', x'] == cell(y', x')
      invariant trace == ColumnMajor(rows, x)
    {
      var y := 0;
      while y < rows
        invariant 0 <= y <= rows
        invariant forall y': nat, x': nat :: y' < rows && x' < x ==> canvas[y', x'] == cell(y', x')
        invariant forall y': nat :: y' < y ==> canvas[y', x] == cell(y', x)
        invariant trace == ColumnMajor(rows, x) + Column(y, x)
      {
        canvas[y, x] := cell(y, x);
        trace := trace + [Cell(y, x)];
        y := y + 1;
      }
      x := x + 1;
    }
  }

  /**
   * For the min-difference engine, a block identical to the (as rendered)
   * glyph of charset[i] is drawn as charset[i], or as an earlier character
   * whose glyph is that very bitmap.
   */
  lemma GlyphMatchesItself(d: AsciiDraw, i: nat)
    requires d.Valid() && d.strategy == MinDifference && i < |d.charset|
    ensures exists j :: (0 <= j <= i && d.FindBestMatchedChar(d.charToArr[d.charset[i]], false) == d.charset[j] &&
      d.charToArr[d.charset[j]] == d.charToArr[d.charset[i]])
  {
    d.ValidIsReady();
    var tensor := d.Tensor(false);
    MinDiff.MatchRoundTrip(tensor, i);
    var j := MinDiff.BestIndex(tensor, tensor[i]);
    assert d.FindBestMatchedChar(tensor[i], false) == d.charset[j];
  }

  /**
   * For the brightness engine, each list of the index holds every charset
   * character exactly once.
   */
  lemma IndexIsCharsetPermutation(d: AsciiDraw)
    requires d.Valid() && d.strategy == Brightness
    ensures multiset(Chars(d.brightnessesInverted)) == multiset(d.charset)
    ensures multiset(Chars(d.brightnesses)) == multiset(d.charset)
  {
    BrightnessIndex.FeaturesPermutation(d.Pairs());
  }
}
