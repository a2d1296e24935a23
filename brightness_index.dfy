/**
 * The brightness strategy's precomputed index and its lookup: every glyph's
 * mean brightness, sorted descending, rescaled into 0..255 against the
 * lightest and darkest glyph, once inverted and once as is; a block is
 * matched by a leftmost-insertion binary search (`bisect_left`) on its own
 * mean brightness.
 */
module BrightnessIndex {
  import opened BrightnessSort

  /** The two lists of (character, scaled brightness) pairs. */
  datatype Index = Index(inverted: seq<Pair>, normal: seq<Pair>)

  /** At least two glyphs differ in brightness, so `lightest - darkest` is not zero. */
  predicate HasContrast(pairs: seq<Pair>)
  {
    exists i, j :: 0 <= i < |pairs| && 0 <= j < |pairs| && pairs[i].brightness != pairs[j].brightness
  }

  /** `l` is the largest brightness among the pairs, and some pair has it. */
  predicate IsLightest(pairs: seq<Pair>, l: real)
  {
    (exists p :: p in pairs && p.brightness == l) && forall p :: p in pairs ==> p.brightness <= l
  }

  /** `d` is the smallest brightness among the pairs, and some pair has it. */
  predicate IsDarkest(pairs: seq<Pair>, d: real)
  {
    (exists p :: p in pairs && p.brightness == d) && forall p :: p in pairs ==> d <= p.brightness
  }

  /** Brightness of the first pair after sorting: the lightest glyph. */
  function Lightest(pairs: seq<Pair>): (l: real)
    requires pairs != []
    ensures IsLightest(pairs, l)
  {
    SortedExtremes(pairs);
    SortDescending(pairs)[0].brightness
  }

  /** Brightness of the last pair after sorting: the darkest glyph. */
  function Darkest(pairs: seq<Pair>): (d: real)
    requires pairs != []
    ensures IsDarkest(pairs, d)
  {
    SortedExtremes(pairs);
    SortDescending(pairs)[|pairs| - 1].brightness
  }

  /** With contrast, the lightest glyph is strictly brighter than the darkest. */
  lemma ContrastSpread(pairs: seq<Pair>)
    requires HasContrast(pairs)
    ensures Darkest(pairs) < Lightest(pairs)
    ensures forall p :: p in pairs ==> Darkest(pairs) <= p.brightness <= Lightest(pairs)
  {
    SortedExtremes(pairs);
    var i, j :| 0 <= i < |pairs| && 0 <= j < |pairs| && pairs[i].brightness != pairs[j].brightness;
    assert pairs[i] in pairs && pairs[j] in pairs;
  }

  /**
   * Maps a raw brightness affinely so that `darkest` goes to 0 and
   * `lightest` to 255, then mirrors it (255 minus it) when inverting.
   */
  function Scale(b: real, lightest: real, darkest: real, invert: bool): (r: real)
    requires lightest != darkest
    ensures (if invert then 255.0 - r else r) * (lightest - darkest) == (b - darkest) * 255.0
  {
    var t := (b - darkest) / (lightest - darkest);
    assert t * (lightest - darkest) == b - darkest;
    var s := t * 255.0;
    if invert then 255.0 - s else s
  }

  /** Scaling is monotone, lands in 0..255 for brightnesses between the extremes, and hits both ends. */
  lemma ScaleProperties(b: real, b': real, lightest: real, darkest: real)
    requires darkest < lightest
    requires darkest <= b <= b' <= lightest
    ensures 0.0 <= Scale(b, lightest, darkest, false) <= Scale(b', lightest, darkest, false) <= 255.0
    ensures Scale(darkest, lightest, darkest, false) == 0.0
    ensures Scale(lightest, lightest, darkest, false) == 255.0
    ensures Scale(b, lightest, darkest, true) == 255.0 - Scale(b, lightest, darkest, false)
  {
    var d := lightest - darkest;
    var t, t' := (b - darkest) / d, (b' - darkest) / d;
    assert t * d == b - darkest && t' * d == b' - darkest;
    assert 0.0 <= t <= t' by {
      assert (t' - t) * d == b' - b;
    }
    assert t' <= 1.0 by {
      assert (1.0 - t') * d == lightest - b';
    }
    assert d / d == 1.0;
  }

  /**
   * The index built from the glyphs' (character, mean) pairs: the pairs are
   * sorted descending; the inverted list scales them inverted in that order,
   * the normal list scales them as is in the reverse order.
   */
  function Features(pairs: seq<Pair>): (index: Index)
    requires HasContrast(pairs)
    ensures |index.inverted| == |index.normal| == |pairs|
  {
    ContrastSpread(pairs);
    var sorted := SortDescending(pairs);
    var n := |sorted|;
    var lightest, darkest := sorted[0].brightness, sorted[n - 1].brightness;
    Index(
      seq(n, i requires 0 <= i < n => Pair(sorted[i].ch, Scale(sorted[i].brightness, lightest, darkest, true))),
      seq(n, i requires 0 <= i < n => Pair(sorted[n - 1 - i].ch, Scale(sorted[n - 1 - i].brightness, lightest, darkest, false))))
  }

  /**
   * What the lookup relies on: a non-empty list, non-decreasing in scaled
   * brightness, inside 0..255, starting at exactly 0 and ending at exactly 255.
   */
  predicate WellFormed(list: seq<Pair>)
  {
    |list| > 0 && Ascending(list) &&
    (forall i :: 0 <= i < |list| ==> 0.0 <= list[i].brightness <= 255.0) &&
    list[0].brightness == 0.0 && list[|list| - 1].brightness == 255.0
  }

  /** Both lists of the index are well formed. */
  lemma FeaturesWellFormed(pairs: seq<Pair>)
    requires HasContrast(pairs)
    ensures WellFormed(Features(pairs).inverted) && WellFormed(Features(pairs).normal)
  {
    ContrastSpread(pairs);
    var sorted := SortDescending(pairs);
    var f := Features(pairs);
    var n := |sorted|;
    var lightest, darkest := sorted[0].brightness, sorted[n - 1].brightness;
    DescendingSpans(sorted);
    assert WellFormed(f.inverted) by {
      assert forall i :: 0 <= i < n ==>
        f.inverted[i].brightness == Scale(sorted[i].brightness, lightest, darkest, true);
      InvertedWellFormed(sorted, lightest, darkest, f.inverted);
    }
    assert WellFormed(f.normal) by {
      assert forall i :: 0 <= i < n ==>
        f.normal[i].brightness == Scale(sorted[n - 1 - i].brightness, lightest, darkest, false);
      NormalWellFormed(sorted, lightest, darkest, f.normal);
    }
  }

  /** A non-empty descending list runs from its first brightness down to its last. */
  lemma DescendingSpans(sorted: seq<Pair>)
    requires |sorted| > 0 && Descending(sorted)
    ensures Spans(sorted, sorted[0].brightness, sorted[|sorted| - 1].brightness)
  {
  }

  /** `sorted` runs from `lightest` down to `darkest`. */
  predicate Spans(sorted: seq<Pair>, lightest: real, darkest: real)
  {
    |sorted| > 0 && Descending(sorted) &&
    sorted[0].brightness == lightest && sorted[|sorted| - 1].brightness == darkest &&
    forall k :: 0 <= k < |sorted| ==> darkest <= sorted[k].brightness <= lightest
  }

  /** Scaling, inverted, the list from lightest to darkest gives a well-formed list. */
  lemma InvertedWellFormed(sorted: seq<Pair>, lightest: real, darkest: real, list: seq<Pair>)
    requires darkest < lightest && Spans(sorted, lightest, darkest)
    requires |list| == |sorted|
    requires forall i :: 0 <= i < |list| ==>
      list[i].brightness == Scale(sorted[i].brightness, lightest, darkest, true)
    ensures WellFormed(list)
  {
    var n := |list|;
    forall i, j | 0 <= i <= j < n
      ensures 0.0 <= list[i].brightness <= list[j].brightness <= 255.0
    {
      ScaleProperties(sorted[j].brightness, sorted[i].brightness, lightest, darkest);
    }
    ScaleProperties(darkest, lightest, lightest, darkest);
  }

  /** Scaling, as is, the list from darkest to lightest gives a well-formed list. */
  lemma NormalWellFormed(sorted: seq<Pair>, lightest: real, darkest: real, list: seq<Pair>)
    requires darkest < lightest && Spans(sorted, lightest, darkest)
    requires |list| == |sorted|
    requires forall i :: 0 <= i < |list| ==>
      list[i].brightness == Scale(sorted[|sorted| - 1 - i].brightness, lightest, darkest, false)
    ensures WellFormed(list)
  {
    var n := |list|;
    forall i, j | 0 <= i <= j < n
      ensures 0.0 <= list[i].brightness <= list[j].brightness <= 255.0
    {
      ScaleProperties(sorted[n - 1 - i].brightness, sorted[n - 1 - j].brightness, lightest, darkest);
    }
    ScaleProperties(darkest, lightest, lightest, darkest);
  }

  /**
   * The two lists hold the same characters in opposite orders, and a
   * character's two scaled brightnesses add up to 255.
   */
  lemma FeaturesMirror(pairs: seq<Pair>)
    requires HasContrast(pairs)
    ensures |Features(pairs).inverted| == |Features(pairs).normal| == |pairs|
    ensures forall i :: 0 <= i < |pairs| ==>
      Features(pairs).normal[i].ch == Features(pairs).inverted[|pairs| - 1 - i].ch &&
      Features(pairs).normal[i].brightness + Features(pairs).inverted[|pairs| - 1 - i].brightness == 255.0
  {
    ContrastSpread(pairs);
    var f := Features(pairs);
    var sorted := SortDescending(pairs);
    var n := |pairs|;
    var lightest, darkest := sorted[0].brightness, sorted[n - 1].brightness;
    assert forall i :: 0 <= i < n ==>
      f.inverted[i] == Pair(sorted[i].ch, Scale(sorted[i].brightness, lightest, darkest, true));
    assert forall i :: 0 <= i < n ==>
      f.normal[i] == Pair(sorted[n - 1 - i].ch, Scale(sorted[n - 1 - i].brightness, lightest, darkest, false));
    MirroredLists(sorted, lightest, darkest, f.inverted, f.normal);
  }

  /**
   * The list scaled inverted in sorted order and the list scaled as is in
   * reverse order mirror each other.
   */
  lemma MirroredLists(sorted: seq<Pair>, lightest: real, darkest: real, inverted: seq<Pair>, normal: seq<Pair>)
    requires lightest != darkest
    requires |inverted| == |normal| == |sorted|
    requires forall i :: 0 <= i < |sorted| ==>
      inverted[i] == Pair(sorted[i].ch, Scale(sorted[i].brightness, lightest, darkest, true))
    requires forall i :: 0 <= i < |sorted| ==>
      normal[i] == Pair(sorted[|sorted| - 1 - i].ch, Scale(sorted[|sorted| - 1 - i].brightness, lightest, darkest, false))
    ensures forall i :: 0 <= i < |sorted| ==>
      normal[i].ch == inverted[|sorted| - 1 - i].ch &&
      normal[i].brightness + inverted[|sorted| - 1 - i].brightness == 255.0
  {
    var n := |sorted|;
    forall i | 0 <= i < n
      ensures normal[i].ch == inverted[n - 1 - i].ch
      ensures normal[i].brightness + inverted[n - 1 - i].brightness == 255.0
    {
      var k := n - 1 - i;
      assert inverted[k] == Pair(sorted[k].ch, Scale(sorted[k].brightness, lightest, darkest, true));
    }
  }

  /** Each list holds every character of the input exactly as often as the input does. */
  lemma FeaturesPermutation(pairs: seq<Pair>)
    requires HasContrast(pairs)
    ensures multiset(Chars(Features(pairs).inverted)) == multiset(Chars(pairs))
    ensures multiset(Chars(Features(pairs).normal)) == multiset(Chars(pairs))
  {
    SortedExtremes(pairs);
    SortKeepsChars(pairs);
    FeaturesMirror(pairs);
    var f := Features(pairs);
    var sorted := SortDescending(pairs);
    assert Chars(f.inverted) == Chars(sorted);
    ReversedKeepsChars(Chars(f.inverted), Chars(f.normal));
  }

  lemma {:induction false} ReversedKeepsChars(s: seq<char>, r: seq<char>)
    requires |r| == |s| && forall i :: 0 <= i < |s| ==> r[i] == s[|s| - 1 - i]
    ensures multiset(r) == multiset(s)
  {
    if s != [] {
      var n := |s|;
      ReversedKeepsChars(s[1..], r[..n - 1]);
      assert s == [s[0]] + s[1..];
      assert r == r[..n - 1] + [r[n - 1]];
    }
  }

  /**
   * Python's `bisect.bisect_left(a, x, lo, hi, key=brightness)`: halves
   * [lo, hi) until it closes on the first position whose brightness is not
   * below `x`. On a list sorted ascending, every pair before the result is
   * darker than `x` and every pair from it on is at least as bright.
   */
  function BisectLeft(a: seq<Pair>, x: real, lo: nat, hi: nat): (i: nat)
    requires lo <= hi <= |a| && Ascending(a)
    ensures lo <= i <= hi
    ensures forall j :: lo <= j < i ==> a[j].brightness < x
    ensures forall j :: i <= j < hi ==> a[j].brightness >= x
    decreases hi - lo
  {
    if lo < hi then
      var mid := (lo + hi) / 2;
      if a[mid].brightness < x then BisectLeft(a, x, mid + 1, hi) else BisectLeft(a, x, lo, mid)
    else lo
  }

  /**
   * The index a block of mean brightness `mean` is matched to: the leftmost
   * entry whose scaled brightness is at least `mean`. It lies inside the
   * list for every mean up to the last entry's brightness (255).
   */
  function MatchIndex(list: seq<Pair>, mean: real): (i: nat)
    requires WellFormed(list) && mean <= 255.0
    ensures i < |list|
    ensures mean <= list[i].brightness
    ensures forall j :: 0 <= j < i ==> list[j].brightness < mean
  {
    BisectLeft(list, mean, 0, |list|)
  }

  /**
   * `c` is the character of the leftmost entry of `list` whose scaled
   * brightness is at least `mean`.
   */
  predicate IsLeftmostAtLeast(list: seq<Pair>, mean: real, c: char)
  {
    exists i :: (0 <= i < |list| && c == list[i].ch && mean <= list[i].brightness &&
      forall j :: 0 <= j < i ==> list[j].brightness < mean)
  }

  /** The character of the matched entry, `brightnesses[idx][0]`. */
  function Match(list: seq<Pair>, mean: real): (c: char)
    requires WellFormed(list) && mean <= 255.0
    ensures c in Chars(list)
    ensures IsLeftmostAtLeast(list, mean, c)
  {
    var i := MatchIndex(list, mean);
    assert Chars(list)[i] == list[i].ch;
    list[i].ch
  }

  /**
   * The extremes of the lookup: a block of mean 0 matches the first entry
   * (scaled brightness 0), a block of mean 255 the first entry of scaled
   * brightness 255.
   */
  lemma MatchExtremes(list: seq<Pair>)
    requires WellFormed(list)
    ensures MatchIndex(list, 0.0) == 0
    ensures list[MatchIndex(list, 255.0)].brightness == 255.0
  {
  }

  /**
   * The lookup is monotone: a block at least as bright as another is
   * matched to an entry no earlier in the list.
   */
  lemma MatchIndexMonotone(list: seq<Pair>, mean: real, mean': real)
    requires WellFormed(list) && mean <= mean' <= 255.0
    ensures MatchIndex(list, mean) <= MatchIndex(list, mean')
  {
  }
}
