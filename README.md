# Glyph-matching engine of an image-to-ASCII converter

This project models the engine that turns a greyscale image into a grid of
characters. It covers `ascii_draw.py` and the brightness half of
`pixel_draw.py`, which repeats it almost line for line. The engine has four
parts:

- **Glyph cache.** Every character of the charset is rasterised onto a blank
  `w` x `h` 8-bit canvas and optionally filtered. The bitmap is stored under
  the character, keyed in charset order. The font rasteriser and the filters
  are foreign code and are taken as function parameters (`ink`, `filters`,
  `blur`). Their output is placed onto the fixed-size 'L' canvas by
  `Grids.Fit`.
- **Brightness strategy.** A glyph's brightness is its mean intensity. The
  (character, brightness) pairs are sorted descending, stably. Each
  brightness is rescaled affinely into 0..255 against the lightest and
  darkest glyph. This gives two lists: the *inverted* list (in sorted order)
  and the *normal* list (in reverse order). A block is matched by
  `bisect_left` on its own mean: the result is the leftmost entry whose
  scaled brightness is at least the mean.
- **Min-difference strategy.** The glyphs are reloaded with a blur and
  stacked in charset order, together with their inverses `255 - g`. A block
  is matched to the charset character at the first index of minimal
  Euclidean distance. Distances are compared squared; the square root is
  monotone, so the argmin is the same.
- **Canvas tiling.** An image of `H` rows and `W` columns gives a canvas of
  `H // h` by `W // w` cells. Two nested loops, columns outside and rows
  inside, write each cell with the match of its `h` x `w` block.

Modules:

- `Grids`: bitmaps, the mean, and tile slicing.
- `BrightnessSort`: the stable descending sort.
- `BrightnessIndex`: scaling, the index and `bisect_left`.
- `MinDiff`: distances, the argmin and the wrapped-difference finding.
- `Draw`: the engine class `AsciiDraw`, its glyph cache, the matcher and the
  canvas loops.

The class's `strategy` field selects the subclass behaviour:
`BrightnessAsciiDraw` / `BrightnessPixelDraw`, or `MinDiffAsciiDraw`.

Behaviour of the code that the model states as it is:

- **Ties in the index.** The index lists are only non-decreasing: glyphs of
  equal brightness get equal scaled values (ascii_draw.py:97-100).
  `BrightnessIndex.WellFormed` states non-decreasing, not strictly ascending.
- **`lightest == darkest`.** When every glyph is equally bright, line 94
  divides 0 by 0 and the index holds NaN. The model requires at least two
  glyph brightnesses to differ (`BrightnessIndex.HasContrast`).
- **Identical glyphs.** A block equal to a glyph's bitmap may be matched to
  an earlier character whose bitmap is identical, because `np.argmin`
  returns the first minimum (ascii_draw.py:134). `MinDiff.MatchRoundTrip`
  and `Draw.GlyphMatchesItself` state this.
- **Pixel differences.** The min-difference code subtracts `uint8` arrays,
  which wraps modulo 256 (ascii_draw.py:134). Here the model does not follow
  the code: the engine (`Draw.MatchWith`, and through it
  `Draw.AsciiDraw.ImageToAscii` and `Draw.GlyphMatchesItself`) uses the
  intended Euclidean distance. Only `MinDiff.MatchAsWritten` computes the
  wrapped lookup. See "Findings".

## Model

| member | source | states |
|---|---|---|
| Grids.Fit | ascii_draw.py:74-76 | a rendered glyph becomes exactly h rows of w pixels, each in 0..255 |
| Grids.FitKeepsCanvas | ascii_draw.py:77-80 | placing a bitmap that already is h x w and 8-bit onto the canvas leaves it unchanged |
| Grids.Mean | ascii_draw.py:110-112 | the mean of a non-empty bitmap is the real number that, times the pixel count, gives the pixel sum; the pixel variant repeats `_get_brightness` at pixel_draw.py:104-106 |
| Grids.MeanInRange | ascii_draw.py:110-112 | the mean of an 8-bit bitmap lies in 0..255; the pixel variant repeats this at pixel_draw.py:104-106 |
| Grids.TileInside | ascii_draw.py:32-36 | tile k of size s ends inside a dimension of length n when k < n // s; the dropped remainder is shorter than one tile |
| Grids.Block | ascii_draw.py:36 | the slice at (top, left) is h x w and holds the image's pixels at that offset |
| Grids.Tile | ascii_draw.py:36 | for every y < H // h and x < W // w the rows y*h .. y*h+h and columns x*w .. x*w+w lie inside the image, and the block is exactly h x w with pixel (i, j) equal to the image's pixel (y*h+i, x*w+j); the pixel variant repeats this at pixel_draw.py:50 |
| Grids.TileLocal | ascii_draw.py:36 | two images of the same size that agree on the pixels of tile (y, x) give the same block there |
| BrightnessSort.SortDescending | ascii_draw.py:87-89 | the sorted pairs are in descending brightness and are a permutation of the input; the pixel variant repeats this at pixel_draw.py:82-84 |
| BrightnessSort.SortStable | ascii_draw.py:87-89 | for every brightness, the pairs of that brightness keep their input order |
| BrightnessSort.SortKeepsChars | ascii_draw.py:85-89 | the sorted characters are a permutation of the input characters |
| BrightnessSort.SortedExtremes | ascii_draw.py:90 | the first sorted brightness is the largest input brightness (lightest) and the last is the smallest (darkest), both taken from the input |
| BrightnessIndex.Lightest | ascii_draw.py:90 | `lightest`, the first brightness of the sorted pairs, is the largest brightness of any glyph and is some glyph's brightness |
| BrightnessIndex.Darkest | ascii_draw.py:90 | `darkest`, the last brightness of the sorted pairs, is the smallest brightness of any glyph and is some glyph's brightness |
| BrightnessIndex.ContrastSpread | ascii_draw.py:90-94 | when two glyphs differ in brightness, darkest < lightest (the division is defined) and every brightness lies between them |
| BrightnessIndex.Scale | ascii_draw.py:93-95 | the scaled value s (or 255 - s when inverting) satisfies s * (lightest - darkest) == (b - darkest) * 255, i.e. the affine map sending darkest to 0 and lightest to 255 |
| BrightnessIndex.ScaleProperties | ascii_draw.py:93-95 | scaling is monotone, maps darkest to 0 and lightest to 255, stays in 0..255, and the inverted value is 255 minus the normal one |
| BrightnessIndex.Features | ascii_draw.py:85-100 | the index has one entry per glyph in each list; what the lists hold is stated by FeaturesWellFormed, FeaturesMirror and FeaturesPermutation |
| BrightnessIndex.FeaturesWellFormed | ascii_draw.py:97-100 | both lists are non-empty, non-decreasing, inside 0..255, start at exactly 0 and end at exactly 255; the pixel variant repeats this at pixel_draw.py:91-94 |
| BrightnessIndex.InvertedWellFormed | ascii_draw.py:97-98 | inverted scaling of the list sorted lightest-first gives a well-formed ascending list |
| BrightnessIndex.NormalWellFormed | ascii_draw.py:99-100 | plain scaling of the reversed sorted list gives a well-formed ascending list |
| BrightnessIndex.FeaturesMirror | ascii_draw.py:97-100 | the normal list holds the inverted list's characters in reverse order, and a character's two scaled values sum to 255; the pixel variant repeats this at pixel_draw.py:91-94 |
| BrightnessIndex.FeaturesPermutation | ascii_draw.py:85-100 | each list holds every glyph character exactly as often as the cache does |
| BrightnessIndex.BisectLeft | ascii_draw.py:105-106 | on an ascending list the result i is in [lo, hi], every entry before i is below x and every entry from i on is at least x |
| BrightnessIndex.MatchIndex | ascii_draw.py:103-107 | for a mean up to 255 the index is inside the list and is the leftmost entry whose scaled value is at least the mean; the pixel variant repeats this at pixel_draw.py:97-101 |
| BrightnessIndex.Match | ascii_draw.py:107 | the returned character is that of the leftmost entry at least as bright as the mean |
| BrightnessIndex.MatchExtremes | ascii_draw.py:103-107 | a mean of 0 matches the first entry; a mean of 255 matches an entry of scaled value 255 |
| BrightnessIndex.MatchIndexMonotone | ascii_draw.py:103-107 | a brighter block never matches an earlier entry |
| MinDiff.Invert | ascii_draw.py:129 | the inverted bitmap has the same shape and each pixel plus its inverse is 255 |
| MinDiff.InvertInvolution | ascii_draw.py:129 | inverting twice gives the bitmap back |
| MinDiff.InvertAll | ascii_draw.py:129 | the inverted stack has one slot per glyph, and slot i is glyph i inverted, of the same shape |
| MinDiff.Distance | ascii_draw.py:133-134 | the squared Euclidean distance of two same-shaped bitmaps is at least the squared difference of every single pixel pair |
| MinDiff.DistanceZero | ascii_draw.py:133-134 | the distance is 0 exactly when the two bitmaps are identical |
| MinDiff.DistanceSymmetric | ascii_draw.py:133-134 | the distance from block to glyph equals the distance from glyph to block |
| MinDiff.DistanceMonotone | ascii_draw.py:133-134 | a glyph pixelwise no further from the block than another is no further in distance |
| MinDiff.ArgMin | ascii_draw.py:134 | the result indexes a minimum, and every earlier entry is strictly larger (the first minimum) |
| MinDiff.BestIndex | ascii_draw.py:134 | the first slot of the stack at minimal distance from the block |
| MinDiff.Match | ascii_draw.py:131-135 | the charset character of the first slot at minimal distance |
| MinDiff.MatchRoundTrip | ascii_draw.py:131-135 | a block identical to slot i matches a slot no later than i holding the same bitmap, and exactly i when no earlier slot holds it |
| MinDiff.WrappedDifference | ascii_draw.py:134 | a `uint8` difference lies in 0..255; for 8-bit pixels it is the true difference when that is non-negative and the difference plus 256 otherwise |
| MinDiff.WrappedDistance | ascii_draw.py:134 | the squared norm of the `uint8` difference is at least the square of every single wrapped pixel difference |
| MinDiff.MatchAsWritten | ascii_draw.py:134-135 | the lookup with wrapped differences still returns a charset character |
| MinDiff.WrappedDifferenceMisleads | ascii_draw.py:134 | on the stack [[1]], [[255]] (glyphs compared without inversion) and block [[0]], the wrapped lookup picks the white glyph where the Euclidean one picks the dark glyph |
| MinDiff.WrappedDifferenceMisleadsInverted | ascii_draw.py:129-134 | with inversion, the default, glyphs [[254]] and [[0]] give that same stack, so the two lookups disagree there too |
| Draw.ApplyFilters | ascii_draw.py:77-79 | no filters leave the bitmap as is; filters keep it h x w and 8-bit |
| Draw.Render | ascii_draw.py:74-80 | a stored glyph is always an h x w 8-bit bitmap |
| Draw.RenderedPairs | ascii_draw.py:85-86 | the (character, mean) pairs list the charset characters in order |
| Draw.ColumnMajorVisitsEachCellOnce | ascii_draw.py:34-38 | the loops visit height*width cells; the k-th visit is the cell at column-major position k, so no cell is visited twice and every cell is visited; the pixel variant repeats this at pixel_draw.py:48-52 |
| Draw.ColumnMajorPositions | ascii_draw.py:34-35 | each visited cell is in bounds and its column-major position is its step number |
| Draw.ColumnMajorCovers | ascii_draw.py:34-35 | every in-bounds cell is visited, at its column-major position |
| Draw.MatchWith | ascii_draw.py:102-135 | brightness: the character of the leftmost entry of the chosen list at least as bright as the block's mean, always a charset character; min-difference: the charset character of the first slot of the chosen stack at minimal distance from the block |
| Draw.CellChar | ascii_draw.py:36-37 | the character of cell (y, x) is a charset character (which one is stated by Draw.MatchWith on the cell's tile) |
| Draw.CellCharLocal | ascii_draw.py:36-37 | a cell's character depends only on the pixels of its own tile: images agreeing there give it the same character |
| Draw.DrawCells | ascii_draw.py:33-38 | a fresh rows x cols canvas whose every cell holds its value, written in column-major order once per cell |
| Draw.AsciiDraw.constructor | ascii_draw.py:17-19 | loads the cache then computes the features; every glyph is the rendering of its character, through the given filters for brightness (a blur in the pixel variant, pixel_draw.py:18-23) and through the blur for min-difference |
| Draw.AsciiDraw.PairsAreRendered | ascii_draw.py:85-86 | the (character, mean) pairs of a cache loaded through the rasteriser and filters are the means of those renderings, in charset order |
| Draw.AsciiDraw.LoadCharsWithFont | ascii_draw.py:60-69 | sets w and h, then the cache holds one entry per charset character, keyed in charset order, each an h x w 8-bit rendering; the pixel variant repeats this at pixel_draw.py:55-64 |
| Draw.AsciiDraw.LoadChar | ascii_draw.py:71-80 | the character's entry becomes its filtered rendering; a new key goes to the end of the key order; the pixel variant repeats this at pixel_draw.py:66-75 |
| Draw.AsciiDraw.ComputeCharsetFeatures | ascii_draw.py:19 | after the strategy's feature step the engine is valid; the brightness step leaves the cache, its key order and the glyph stacks unchanged; the min-difference step reloads every glyph blurred |
| Draw.AsciiDraw.ComputeBrightnessIndex | ascii_draw.py:84-100 | the two lists are the index built from the cache's (character, mean) pairs; the pixel variant repeats this at pixel_draw.py:79-94 |
| Draw.AsciiDraw.StackBlurredGlyphs | ascii_draw.py:122-129 | every glyph is reloaded blurred; the stack holds them in charset order, with their inverses |
| Draw.AsciiDraw.ReloadChars | ascii_draw.py:126-127 | every glyph is replaced by its rendering through the filters; keys and key order are unchanged |
| Draw.AsciiDraw.Pairs | ascii_draw.py:85-86 | the (character, mean) pairs list the charset characters in key order |
| Draw.AsciiDraw.Glyphs | ascii_draw.py:128 | slot i of the stack is the glyph of charset[i] |
| Draw.AsciiDraw.Tensor | ascii_draw.py:132 | slot i of the chosen stack is the glyph of charset[i], or its inverse |
| Draw.AsciiDraw.ValidIsReady | ascii_draw.py:97-100 | a built engine has well-formed lists of charset characters, or stacks of h x w bitmaps with one slot per character |
| Draw.AsciiDraw.FindBestMatchedChar | ascii_draw.py:102-107 | the block is drawn as a charset character |
| Draw.AsciiDraw.ImageToAscii | ascii_draw.py:32-38 | the canvas is (H // h) x (W // w); cell (y, x) holds the match of the block at rows y*h.. and columns x*w..; cells are written column by column, each once; the pixel variant repeats this at pixel_draw.py:46-52 |
| Draw.GlyphMatchesItself | ascii_draw.py:126-135 | for the min-difference engine, a glyph's own bitmap is drawn as that character or as an earlier character with the same bitmap |
| Draw.IndexIsCharsetPermutation | ascii_draw.py:85-100 | each list of a built brightness engine holds every charset character exactly once |

## Left out

- Image loading, greyscale conversion and resizing (`_load_image_arr_monochrome`): these are file I/O and PIL rounding. The image is an input grid of 8-bit intensities.
- Font loading, `font.getsize`, text rasterisation and the Gaussian blur: these are foreign library calls. They become the parameters `w`, `h`, `ink`, `filters` and `blur`. Their output is cropped or padded with 0 and clamped to the 'L' canvas.
- `_print_canvas`: this is standard-output I/O. The model returns the canvas.
- IEEE-754 behaviour of `np.mean`, of the scaling and of `np.linalg.norm`: the model uses exact reals and squared integer distances.
- Draw.AsciiDraw.constructor: the NaN index that the source produces when all glyphs are equally bright is excluded by a precondition (`HasContrast`), not modelled.
- A glyph size of 0: `font.getsize` of a printable font gives a positive width and height, and with h or w = 0 the source fails (`ZeroDivisionError` at ascii_draw.py:32, and `np.mean` of an empty glyph is NaN). The model requires `w > 0` and `h > 0` and does not model that failure.
- Draw.AsciiDraw.ComputeCharsetFeatures: under min-difference its own contract does not restate that the brightness lists stay untouched. That is stated by the frame of `StackBlurredGlyphs`, which does not modify them.
- The empty base-class hooks `_compute_charset_features` and `_find_best_matched_char`: they do nothing.
- The `CHARSET` class constants: the charset is a constructor argument, required to be non-empty and without repeats, as the source's constants are.
- Draw.AsciiDraw.FindBestMatchedChar: its own contract says only that the result is a charset character. The full statement of which character is in `Draw.MatchWith`, which it calls.
- Draw.MatchWith: the min-difference lookup uses the true pixel difference, not the wrapped `uint8` difference of the source (see Findings; the as-written lookup is `MinDiff.MatchAsWritten`).
- The in-place update of the canvas in `image_to_ascii` is kept, but the loop is factored into `Draw.DrawCells`. It takes the per-cell matcher as a function value.

## Findings

| source | as written | input that shows it | evidently intended | confidence | as-written member | corrected member |
|---|---|---|---|---|---|---|
| ascii_draw.py:134 | `block - char_arr` subtracts two `uint8` arrays, so each pixel difference wraps modulo 256 before the norm is taken | with `inverted_color=True` (the default): glyphs [[254]] for 'a' and [[0]] for 'b', block [[0]]; the compared stack is [[1]], [[255]], the wrapped squared distances are 65025 and 1, so 'b' is returned. With `inverted_color=False`, glyphs [[1]] and [[255]] show the same | the Euclidean distance of the intensities, as the comment on line 133 says, which returns 'a' | not executed | MinDiff.MatchAsWritten | MinDiff.Match |
