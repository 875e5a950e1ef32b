/** The finder's configuration and the candidate ranker (Recipe_finder.py, __init__ and
    prefer_sort). */
module Ranking {
  import opened Text
  import opened Library

  /** The class defaults: the wrap width and the preferred site suffixes. */
  const DefaultWrap: int := 92
  const DefaultPreferred: seq<string> :=
    ["allrecipes.com", "bbcgoodfood.com", "seriouseats.com", "foodnetwork.com",
     "tasty.co", "epicurious.com", "thekitchn.com"]

  /** The two settings a finder carries. The wrap width is used only by the console printer,
      which is not part of this model. */
  datatype Finder = Finder(wrap: int, preferred: seq<string>)

  /** The constructor: a truthy argument overrides the class default. An absent argument is
      falsy, like 0 and the empty list, and is written as one of those. */
  function NewFinder(wrap: int, preferred: seq<string>): (f: Finder)
    ensures f.wrap != 0 && f.preferred != []
    ensures f.wrap == wrap || (wrap == 0 && f.wrap == DefaultWrap)
    ensures f.preferred == preferred || (preferred == [] && f.preferred == DefaultPreferred)
  {
    Finder(if wrap != 0 then wrap else DefaultWrap,
           if preferred != [] then preferred else DefaultPreferred)
  }

  /** The lower-cased host of `u` ends with one of the preferred suffixes. */
  predicate Preferred(lib: Lib, f: Finder, u: string)
  {
    exists d :: d in f.preferred && EndsWith(AsciiLower(lib.netloc(u)), d)
  }

  /** The first component of the sort key. */
  function Tier(lib: Lib, f: Finder, u: string): int
  {
    if Preferred(lib, f, u) then 1 else 0
  }

  /** The key of `a`, (tier, -length), is at least that of `b`. */
  predicate KeyAtLeast(lib: Lib, f: Finder, a: string, b: string)
  {
    Tier(lib, f, a) > Tier(lib, f, b) || (Tier(lib, f, a) == Tier(lib, f, b) && |a| <= |b|)
  }

  predicate SameKey(lib: Lib, f: Finder, a: string, b: string)
  {
    Tier(lib, f, a) == Tier(lib, f, b) && |a| == |b|
  }

  /** Ordered by descending key. */
  predicate Descending(lib: Lib, f: Finder, t: seq<string>)
  {
    forall i, j :: 0 <= i < j < |t| ==> KeyAtLeast(lib, f, t[i], t[j])
  }

  /** Places `x` after every element whose key is at least its own. */
  function Insert(lib: Lib, f: Finder, t: seq<string>, x: string): seq<string>
  {
    if t == [] || KeyAtLeast(lib, f, t[|t| - 1], x) then t + [x]
    else Insert(lib, f, t[..|t| - 1], x) + [t[|t| - 1]]
  }

  /** `sorted(urls, key=score, reverse=True)`: a stable sort by descending key. */
  function PreferSort(lib: Lib, f: Finder, urls: seq<string>): seq<string>
  {
    if urls == [] then []
    else Insert(lib, f, PreferSort(lib, f, urls[..|urls| - 1]), urls[|urls| - 1])
  }

  /** The elements of `s` whose key equals that of `u`, in order. */
  function WithKeyOf(lib: Lib, f: Finder, s: seq<string>, u: string): seq<string>
  {
    if s == [] then []
    else
      WithKeyOf(lib, f, s[..|s| - 1], u) +
      (if SameKey(lib, f, s[|s| - 1], u) then [s[|s| - 1]] else [])
  }

  lemma {:induction false} InsertPermutes(lib: Lib, f: Finder, t: seq<string>, x: string)
    ensures multiset(Insert(lib, f, t, x)) == multiset(t) + multiset{x}
    decreases |t|
  {
    if !(t == [] || KeyAtLeast(lib, f, t[|t| - 1], x)) {
      InsertPermutes(lib, f, t[..|t| - 1], x);
      assert t == t[..|t| - 1] + [t[|t| - 1]];
    }
  }

  lemma {:induction false} InsertKeepsDescending(lib: Lib, f: Finder, t: seq<string>, x: string)
    requires Descending(lib, f, t)
    ensures Descending(lib, f, Insert(lib, f, t, x))
    decreases |t|
  {
    if t == [] {
    } else if KeyAtLeast(lib, f, t[|t| - 1], x) {
      var r := t + [x];
      forall i, j | 0 <= i < j < |r| ensures KeyAtLeast(lib, f, r[i], r[j]) {
        if j == |t| && i < |t| - 1 {
          assert KeyAtLeast(lib, f, t[i], t[|t| - 1]);
        }
      }
    } else {
      var init := t[..|t| - 1];
      var last := t[|t| - 1];
      InsertKeepsDescending(lib, f, init, x);
      InsertPermutes(lib, f, init, x);
      var p := Insert(lib, f, init, x);
      var r := p + [last];
      forall i, j | 0 <= i < j < |r| ensures KeyAtLeast(lib, f, r[i], r[j]) {
        if j == |p| {
          assert r[i] in multiset(init) + multiset{x} by {
            assert r[i] in multiset(p);
          }
          if r[i] != x {
            var k :| 0 <= k < |init| && init[k] == r[i];
            assert KeyAtLeast(lib, f, t[k], t[|t| - 1]);
          }
        }
      }
    }
  }

  lemma {:induction false} InsertKeepsKeyOrder(lib: Lib, f: Finder, t: seq<string>, x: string, u: string)
    ensures WithKeyOf(lib, f, Insert(lib, f, t, x), u) ==
              WithKeyOf(lib, f, t, u) + (if SameKey(lib, f, x, u) then [x] else [])
    decreases |t|
  {
    if t == [] || KeyAtLeast(lib, f, t[|t| - 1], x) {
      assert (t + [x])[..|t|] == t;
    } else {
      var init := t[..|t| - 1];
      var last := t[|t| - 1];
      InsertKeepsKeyOrder(lib, f, init, x, u);
      var p := Insert(lib, f, init, x);
      assert (p + [last])[..|p|] == p;
    }
  }

  /** prefer_sort returns a permutation of its input. */
  lemma {:induction false} PreferSortPermutes(lib: Lib, f: Finder, urls: seq<string>)
    ensures multiset(PreferSort(lib, f, urls)) == multiset(urls)
  {
    if urls != [] {
      PreferSortPermutes(lib, f, urls[..|urls| - 1]);
      InsertPermutes(lib, f, PreferSort(lib, f, urls[..|urls| - 1]), urls[|urls| - 1]);
      assert urls == urls[..|urls| - 1] + [urls[|urls| - 1]];
    }
  }

  /** prefer_sort orders by descending key. */
  lemma {:induction false} PreferSortDescending(lib: Lib, f: Finder, urls: seq<string>)
    ensures Descending(lib, f, PreferSort(lib, f, urls))
  {
    if urls != [] {
      PreferSortDescending(lib, f, urls[..|urls| - 1]);
      InsertKeepsDescending(lib, f, PreferSort(lib, f, urls[..|urls| - 1]), urls[|urls| - 1]);
    }
  }

  /** Every preferred URL comes before every other one, and within a tier shorter URLs come
      first (lengths never decrease). */
  lemma PreferSortOrder(lib: Lib, f: Finder, urls: seq<string>)
    ensures var r := PreferSort(lib, f, urls);
            forall i, j :: 0 <= i < j < |r| ==>
              (Preferred(lib, f, r[j]) ==> Preferred(lib, f, r[i])) &&
              (Preferred(lib, f, r[i]) == Preferred(lib, f, r[j]) ==> |r[i]| <= |r[j]|)
  {
    PreferSortDescending(lib, f, urls);
  }

  /** The sort is stable: the URLs sharing any one key appear in their input order. */
  lemma {:induction false} PreferSortStable(lib: Lib, f: Finder, urls: seq<string>, u: string)
    ensures WithKeyOf(lib, f, PreferSort(lib, f, urls), u) == WithKeyOf(lib, f, urls, u)
  {
    if urls != [] {
      PreferSortStable(lib, f, urls[..|urls| - 1], u);
      InsertKeepsKeyOrder(lib, f, PreferSort(lib, f, urls[..|urls| - 1]), urls[|urls| - 1], u);
    }
  }
}
