/** String helpers with Python's meaning: str.isspace, str.strip, str.lower (on ASCII),
    str.endswith, str.replace of one character and str.count of one character. */
module Text {

  /** The characters for which Python's str.isspace() holds. */
  const Whitespace: set<char> :=
    {'\t', '\n', '\U{B}', '\U{C}', '\r', '\U{1C}', '\U{1D}', '\U{1E}', '\U{1F}', ' ',
     '\U{85}', '\U{A0}', '\U{1680}',
     '\U{2000}', '\U{2001}', '\U{2002}', '\U{2003}', '\U{2004}', '\U{2005}', '\U{2006}',
     '\U{2007}', '\U{2008}', '\U{2009}', '\U{200A}',
     '\U{2028}', '\U{2029}', '\U{202F}', '\U{205F}', '\U{3000}'}

  /** Drops the leading characters that belong to `cs`. */
  function TrimLeft(s: string, cs: set<char>): string
    decreases |s|
  {
    if |s| > 0 && s[0] in cs then TrimLeft(s[1..], cs) else s
  }

  /** Drops the trailing characters that belong to `cs`. */
  function TrimRight(s: string, cs: set<char>): string
    decreases |s|
  {
    if |s| > 0 && s[|s| - 1] in cs then TrimRight(s[..|s| - 1], cs) else s
  }

  /** TrimLeft cuts a prefix of characters of `cs` and stops at one outside `cs`. */
  lemma {:induction false} TrimLeftCuts(s: string, cs: set<char>)
    ensures |TrimLeft(s, cs)| <= |s| && TrimLeft(s, cs) == s[|s| - |TrimLeft(s, cs)|..]
    ensures TrimLeft(s, cs) != "" ==> TrimLeft(s, cs)[0] !in cs
    ensures forall i :: 0 <= i < |s| - |TrimLeft(s, cs)| ==> s[i] in cs
    decreases |s|
  {
    if |s| > 0 && s[0] in cs {
      TrimLeftCuts(s[1..], cs);
    }
  }

  /** TrimRight cuts a suffix of characters of `cs` and stops at one outside `cs`. */
  lemma {:induction false} TrimRightCuts(s: string, cs: set<char>)
    ensures |TrimRight(s, cs)| <= |s| && TrimRight(s, cs) == s[..|TrimRight(s, cs)|]
    ensures TrimRight(s, cs) != "" ==> TrimRight(s, cs)[|TrimRight(s, cs)| - 1] !in cs
    ensures forall i :: |TrimRight(s, cs)| <= i < |s| ==> s[i] in cs
    decreases |s|
  {
    if |s| > 0 && s[|s| - 1] in cs {
      TrimRightCuts(s[..|s| - 1], cs);
    }
  }

  /** Python's `s.strip(chars)`: cuts the characters of `cs` off both ends of `s`. */
  function StripChars(s: string, cs: set<char>): (r: string)
    ensures r != "" ==> r[0] !in cs && r[|r| - 1] !in cs
    ensures r == "" <==> forall i :: 0 <= i < |s| ==> s[i] in cs
    ensures exists i, j :: 0 <= i <= j <= |s| && r == s[i..j] &&
              (forall k :: 0 <= k < i ==> s[k] in cs) &&
              (forall k :: j <= k < |s| ==> s[k] in cs)
  {
    var l := TrimLeft(s, cs);
    var r := TrimRight(l, cs);
    TrimLeftCuts(s, cs);
    TrimRightCuts(l, cs);
    assert r == "" ==> forall i :: 0 <= i < |s| ==> s[i] in cs by {
      if r == "" {
        assert l == "";
      }
    }
    assert r != "" ==> r[0] == l[0];
    var i := |s| - |l|;
    assert r == s[i..i + |r|];
    r
  }

  /** Python's `s.strip()`. */
  function Strip(s: string): string
  {
    StripChars(s, Whitespace)
  }

  /** Python's truth value of `s.strip()`: false exactly for blank strings. */
  predicate NonBlank(s: string)
  {
    Strip(s) != ""
  }

  /** Stripping a string twice cuts nothing more. */
  lemma StripCharsIdempotent(s: string, cs: set<char>)
    ensures StripChars(StripChars(s, cs), cs) == StripChars(s, cs)
  {
    var r := StripChars(s, cs);
    if r != "" {
      StripCharsOfTrimmed(r, cs);
    }
  }

  /** The stripped form of a non-blank string is non-empty and strips to itself. */
  lemma StrippedClean(s: string)
    ensures Strip(Strip(s)) == Strip(s)
  {
    StripCharsIdempotent(s, Whitespace);
  }

  /** A string whose first and last characters lie outside `cs` is left alone by StripChars. */
  lemma StripCharsOfTrimmed(s: string, cs: set<char>)
    requires s != "" && s[0] !in cs && s[|s| - 1] !in cs
    ensures StripChars(s, cs) == s
  {
    assert TrimLeft(s, cs) == s;
    assert TrimRight(s, cs) == s;
  }

  /** Lower-cases the ASCII letters A-Z and leaves every other character alone. */
  function AsciiLower(s: string): (r: string)
    ensures |r| == |s|
    ensures forall i :: 0 <= i < |s| ==> r[i] == if 'A' <= s[i] <= 'Z' then (s[i] as int + 32) as char else s[i]
  {
    seq(|s|, i requires 0 <= i < |s| => if 'A' <= s[i] <= 'Z' then (s[i] as int + 32) as char else s[i])
  }

  /** Python's `s.endswith(suffix)`. */
  predicate EndsWith(s: string, suffix: string)
  {
    |suffix| <= |s| && s[|s| - |suffix|..] == suffix
  }

  /** Python's `s.count(c)` for one character `c`. */
  function CountChar(s: string, c: char): nat
  {
    multiset(s)[c]
  }

  /** Python's `s.replace(from, to)` for one-character `from` and `to`: every `from`
      becomes `to`, every other character stays where it is, so no `from` is left and the
      count of every other character except `to` is unchanged. */
  function ReplaceChar(s: string, from: char, to: char): (r: string)
    ensures |r| == |s|
    ensures forall i :: 0 <= i < |s| && s[i] == from ==> r[i] == to
    ensures forall i :: 0 <= i < |s| && s[i] != from ==> r[i] == s[i]
    ensures from != to ==> from !in r
    ensures forall c :: c != from && c != to ==> multiset(r)[c] == multiset(s)[c]
  {
    if s == [] then []
    else
      var init := s[..|s| - 1];
      var last := s[|s| - 1];
      var t := if last == from then to else last;
      var ri := ReplaceChar(init, from, to);
      assert s == init + [last];
      assert multiset(s) == multiset(init) + multiset{last};
      assert multiset(ri + [t]) == multiset(ri) + multiset{t};
      ri + [t]
  }

  /** Lower-casing compares equal to "recipe" exactly for the six letters of "recipe", each
      in either case. */
  lemma AsciiLowerIsRecipe(s: string)
    ensures AsciiLower(s) == "recipe" <==>
              |s| == 6 && forall i :: 0 <= i < 6 ==> s[i] == "recipe"[i] || s[i] == "RECIPE"[i]
  {
    if |s| == 6 && forall i :: 0 <= i < 6 ==> s[i] == "recipe"[i] || s[i] == "RECIPE"[i] {
      assert forall i :: 0 <= i < 6 ==> AsciiLower(s)[i] == "recipe"[i];
    }
  }
}
