/**
 * The (character, brightness) pairs of the brightness strategy and the
 * descending sort they go through: `sorted(pairs, key=brightness,
 * reverse=True)`, which is stable (pairs of equal brightness keep their
 * order).
 */
module BrightnessSort {

  /** A character with a brightness: raw (a glyph mean) or scaled into 0..255. */
  datatype Pair = Pair(ch: char, brightness: real)

  predicate Descending(s: seq<Pair>)
  {
    forall i, j :: 0 <= i < j < |s| ==> s[i].brightness >= s[j].brightness
  }

  predicate Ascending(s: seq<Pair>)
  {
    forall i, j :: 0 <= i < j < |s| ==> s[i].brightness <= s[j].brightness
  }

  /** The characters of `s`, in order. */
  function Chars(s: seq<Pair>): seq<char>
  {
    seq(|s|, i requires 0 <= i < |s| => s[i].ch)
  }

  /** The pairs of `s` whose brightness is `v`, in their order in `s`. */
  function WithBrightness(s: seq<Pair>, v: real): seq<Pair>
  {
    if s == [] then []
    else (if s[0].brightness == v then [s[0]] else []) + WithBrightness(s[1..], v)
  }

  /** A sort is stable when, for every brightness, the pairs of that brightness keep their order. */
  ghost predicate Stable(r: seq<Pair>, s: seq<Pair>)
  {
    forall v :: WithBrightness(r, v) == WithBrightness(s, v)
  }

  /**
   * Inserts `p` before the first pair that is not brighter than it: `p`
   * comes from earlier in the input than every pair of `s`, so among equal
   * brightnesses it goes first.
   */
  function Insert(p: Pair, s: seq<Pair>): (r: seq<Pair>)
    ensures |r| == |s| + 1
  {
    if s == [] || s[0].brightness <= p.brightness then [p] + s
    else [s[0]] + Insert(p, s[1..])
  }

  lemma {:induction false} InsertMultiset(p: Pair, s: seq<Pair>)
    ensures multiset(Insert(p, s)) == multiset(s) + multiset{p}
  {
    if s != [] && s[0].brightness > p.brightness {
      InsertMultiset(p, s[1..]);
      assert s == [s[0]] + s[1..];
    }
  }

  lemma {:induction false} InsertDescending(p: Pair, s: seq<Pair>)
    requires Descending(s)
    ensures Descending(Insert(p, s))
  {
    if s != [] && s[0].brightness > p.brightness {
      var r, t := Insert(p, s), Insert(p, s[1..]);
      InsertDescending(p, s[1..]);
      InsertMultiset(p, s[1..]);
      assert r == [s[0]] + t;
      forall j | 0 < j < |r|
        ensures r[0].brightness >= r[j].brightness
      {
        assert r[j] == t[j - 1];
        assert r[j] in multiset(t);
        if r[j] != p {
          assert r[j] in multiset(s[1..]);
          var k :| 0 <= k < |s[1..]| && s[1..][k] == r[j];
          assert s[k + 1] == r[j];
        }
      }
    }
  }

  /** Inserting `p` puts it first among the pairs of its own brightness and moves no other pair past one of equal brightness. */
  lemma {:induction false} InsertFilter(p: Pair, s: seq<Pair>, v: real)
    ensures WithBrightness(Insert(p, s), v) ==
            (if v == p.brightness then [p] + WithBrightness(s, v) else WithBrightness(s, v))
  {
    var r := Insert(p, s);
    if s == [] || s[0].brightness <= p.brightness {
      assert r[1..] == s;
    } else {
      InsertFilter(p, s[1..], v);
      assert r[1..] == Insert(p, s[1..]);
    }
  }

  lemma InsertStable(p: Pair, s: seq<Pair>, rest: seq<Pair>)
    requires Stable(s, rest)
    ensures Stable(Insert(p, s), [p] + rest)
  {
    forall v
      ensures WithBrightness(Insert(p, s), v) == WithBrightness([p] + rest, v)
    {
      InsertFilter(p, s, v);
      assert ([p] + rest)[1..] == rest;
    }
  }

  /**
   * Python's `sorted(pairs, key=brightness, reverse=True)`: the pairs in
   * descending brightness, a permutation of the input (stable on ties, see
   * `SortStable`).
   */
  function SortDescending(s: seq<Pair>): (r: seq<Pair>)
    ensures Descending(r)
    ensures multiset(r) == multiset(s)
    ensures |r| == |s|
  {
    if s == [] then []
    else
      var t := SortDescending(s[1..]);
      var r := Insert(s[0], t);
      InsertDescending(s[0], t);
      InsertMultiset(s[0], t);
      assert multiset(r) == multiset(s) by {
        assert s == [s[0]] + s[1..];
      }
      r
  }

  /** The sort is stable: pairs of equal brightness keep their input order. */
  lemma {:induction false} SortStable(s: seq<Pair>)
    ensures Stable(SortDescending(s), s)
  {
    if s != [] {
      SortStable(s[1..]);
      InsertStable(s[0], SortDescending(s[1..]), s[1..]);
      assert s == [s[0]] + s[1..];
    }
  }

  /** Sorting keeps the characters: the sorted characters are a permutation of the input's. */
  lemma {:induction false} SortKeepsChars(s: seq<Pair>)
    ensures multiset(Chars(SortDescending(s))) == multiset(Chars(s))
  {
    if s != [] {
      SortKeepsChars(s[1..]);
      InsertKeepsChars(s[0], SortDescending(s[1..]));
      assert Chars(s) == [s[0].ch] + Chars(s[1..]);
    }
  }

  lemma {:induction false} InsertKeepsChars(p: Pair, s: seq<Pair>)
    ensures multiset(Chars(Insert(p, s))) == multiset(Chars(s)) + multiset{p.ch}
  {
    if s == [] || s[0].brightness <= p.brightness {
      assert Chars([p] + s) == [p.ch] + Chars(s);
    } else {
      InsertKeepsChars(p, s[1..]);
      assert Chars([s[0]] + Insert(p, s[1..])) == [s[0].ch] + Chars(Insert(p, s[1..]));
      assert Chars(s) == [s[0].ch] + Chars(s[1..]);
    }
  }

  /**
   * In the sorted list the first brightness is the largest of the input
   * (`lightest`) and the last the smallest (`darkest`).
   */
  lemma SortedExtremes(s: seq<Pair>)
    requires s != []
    ensures |SortDescending(s)| == |s|
    ensures forall p :: p in s ==>
      SortDescending(s)[|s| - 1].brightness <= p.brightness <= SortDescending(s)[0].brightness
    ensures SortDescending(s)[0] in s && SortDescending(s)[|s| - 1] in s
  {
    var r := SortDescending(s);
    assert |r| == |multiset(r)| == |multiset(s)| == |s|;
    forall p | p in s
      ensures r[|s| - 1].brightness <= p.brightness <= r[0].brightness
    {
      assert p in multiset(r);
      var k :| 0 <= k < |r| && r[k] == p;
    }
    assert r[0] in multiset(s);
    assert r[|s| - 1] in multiset(s);
  }
}
