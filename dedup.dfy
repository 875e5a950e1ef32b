/** The deduplication loop at the end of the search (Recipe_finder.py, search_duckduckgo,
    lines 50-54): first occurrences in order, stopping once `n` links are kept. */
module Dedup {

  /** The first occurrence of every element of `s`, in order. */
  function Distinct(s: seq<string>): seq<string>
  {
    if s == [] then []
    else
      var init := s[..|s| - 1];
      Distinct(init) + (if s[|s| - 1] in init then [] else [s[|s| - 1]])
  }

  /** The loop appends before it compares the length with `n`, so it keeps at least one link
      even when `n` is below 1. */
  function Limit(n: int): int
  {
    if n < 1 then 1 else n
  }

  function Min(a: int, b: int): int
  {
    if a <= b then a else b
  }

  /** The position of the first occurrence of `x` in `s`. */
  function FirstIndex(s: seq<string>, x: string): (k: int)
    requires x in s
    ensures 0 <= k < |s| && s[k] == x && x !in s[..k]
  {
    if x in s[..|s| - 1] then
      var k := FirstIndex(s[..|s| - 1], x);
      assert s[..|s| - 1][..k] == s[..k];
      k
    else |s| - 1
  }

  /** The first occurrence of an element of the prefix lies in the prefix. */
  lemma FirstIndexOfInit(s: seq<string>, y: string)
    requires s != [] && y in s[..|s| - 1]
    ensures FirstIndex(s, y) == FirstIndex(s[..|s| - 1], y)
  {
  }

  predicate NoDuplicates(s: seq<string>)
  {
    forall i, j :: 0 <= i < j < |s| ==> s[i] != s[j]
  }

  /** Distinct holds exactly the elements of `s`, each once, ordered by first occurrence. */
  lemma {:induction false} DistinctSpec(s: seq<string>)
    ensures forall x :: x in Distinct(s) <==> x in s
    ensures NoDuplicates(Distinct(s))
    ensures forall i, j :: 0 <= i < j < |Distinct(s)| ==>
              FirstIndex(s, Distinct(s)[i]) < FirstIndex(s, Distinct(s)[j])
  {
    if s != [] {
      var init := s[..|s| - 1];
      var last := s[|s| - 1];
      DistinctSpec(init);
      assert s == init + [last];
      var r := Distinct(s);
      var p := Distinct(init);
      forall i, j | 0 <= i < j < |r| ensures FirstIndex(s, r[i]) < FirstIndex(s, r[j]) {
        assert r[i] == p[i] && p[i] in p;
        FirstIndexOfInit(s, r[i]);
        if j < |p| {
          assert r[j] == p[j] && p[j] in p;
          FirstIndexOfInit(s, r[j]);
          assert FirstIndex(init, p[i]) < FirstIndex(init, p[j]);
        } else {
          assert r[j] == last && last !in init;
          assert FirstIndex(s, last) == |s| - 1;
        }
      }
    }
  }

  /** What the loop keeps: the first `Limit(n)` distinct links, or all of them. */
  function FirstDistinct(links: seq<string>, n: int): seq<string>
  {
    var d := Distinct(links);
    d[..Min(Limit(n), |d|)]
  }

  /** Extending the input only appends to the distinct list. */
  lemma {:induction false} DistinctPrefix(a: seq<string>, b: seq<string>)
    ensures |Distinct(a)| <= |Distinct(a + b)|
    ensures Distinct(a + b)[..|Distinct(a)|] == Distinct(a)
    decreases |b|
  {
    if b == [] {
      assert a + b == a;
    } else {
      var b' := b[..|b| - 1];
      DistinctPrefix(a, b');
      assert (a + b)[..|a + b| - 1] == a + b';
    }
  }

  /** The kept links are duplicate-free links of the input, at most `Limit(n)` of them, and
      exactly `Limit(n)` when the input has that many distinct links; they are the first
      distinct links, in the order of their first occurrence. */
  lemma FirstDistinctSpec(links: seq<string>, n: int)
    ensures var r := FirstDistinct(links, n);
            && |r| <= Limit(n)
            && (|Distinct(links)| >= Limit(n) ==> |r| == Limit(n))
            && (|Distinct(links)| < Limit(n) ==> r == Distinct(links))
            && NoDuplicates(r)
            && (forall x :: x in r ==> x in links)
            && (forall i, j :: 0 <= i < j < |r| ==> FirstIndex(links, r[i]) < FirstIndex(links, r[j]))
  {
    DistinctSpec(links);
    var d := Distinct(links);
    var r := FirstDistinct(links, n);
    forall i | 0 <= i < |r| ensures r[i] == d[i] && r[i] in links {
      assert d[i] in d;
    }
  }

  /** The loop itself, with `seen` as the set of links looked at so far. */
  method DedupLinks(links: seq<string>, n: int) returns (out: seq<string>)
    ensures out == FirstDistinct(links, n)
  {
    var seen: set<string> := {};
    out := [];
    var i := 0;
    while i < |links|
      invariant 0 <= i <= |links|
      invariant out == Distinct(links[..i])
      invariant seen == set k | 0 <= k < i :: links[k]
      invariant |out| < Limit(n)
    {
      var u := links[i];
      assert links[..i + 1][..i] == links[..i];
      assert u in seen <==> u in links[..i];
      if u !in seen {
        seen := seen + {u};
        out := out + [u];
        if |out| >= n {
          assert |out| == Limit(n);
          DistinctPrefix(links[..i + 1], links[i + 1..]);
          assert links[..i + 1] + links[i + 1..] == links;
          return;
        }
      }
      i := i + 1;
    }
    assert links[..i] == links;
  }
}
