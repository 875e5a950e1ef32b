/** The embedded-data extractor (Recipe_finder.py, extract_jsonld): every linked-data script
    block of a page is decoded, stripped and parsed, with one repair attempt for blocks that
    hold several objects side by side. Blocks that fail both attempts are skipped. */
module Extract {
  import opened Wrappers
  import opened Json
  import opened Text
  import opened Library

  /** The wrapping step of the repair (lines 69-70): a text that does not open a list but
      holds more than one `{` is put inside `[` ... `]`. */
  function WrapObjects(s2: string): string
  {
    if s2 != "" && s2[0] != '[' && CountChar(s2, '{') > 1 then "[" + s2 + "]" else s2
  }

  /** The repair applied after a first parse failure (lines 68-70): newlines become spaces,
      the ends are stripped, and the result is wrapped by WrapObjects. */
  function Repair(s: string): string
  {
    WrapObjects(Strip(ReplaceChar(s, '\n', ' ')))
  }

  /** Replacing newlines keeps the first and last character of a stripped string, so the
      second strip of the repair never cuts anything. */
  lemma ReplaceNewlinesKeepsStripped(s: string)
    requires s != "" && s[0] !in Whitespace && s[|s| - 1] !in Whitespace
    ensures Strip(ReplaceChar(s, '\n', ' ')) == ReplaceChar(s, '\n', ' ')
  {
    StripCharsOfTrimmed(ReplaceChar(s, '\n', ' '), Whitespace);
  }

  /** On the stripped, non-empty text the extractor passes it, the repair is just the newline
      replacement, wrapped exactly when the text does not start with `[` and holds more than
      one `{`: the `s2` guard of line 69 never fails there. */
  lemma {:induction false} RepairOfStripped(s: string)
    requires s != "" && Strip(s) == s
    ensures Repair(s) == if s[0] != '[' && CountChar(s, '{') > 1
                         then "[" + ReplaceChar(s, '\n', ' ') + "]"
                         else ReplaceChar(s, '\n', ' ')
  {
    var t := ReplaceChar(s, '\n', ' ');
    RepairIsWrapOfReplaced(s);
    assert t[0] == s[0] by {
      assert s[0] !in Whitespace;
    }
    WrapObjectsAgrees(s, t);
  }

  lemma RepairIsWrapOfReplaced(s: string)
    requires s != "" && Strip(s) == s
    ensures Repair(s) == WrapObjects(ReplaceChar(s, '\n', ' '))
  {
    ReplaceNewlinesKeepsStripped(s);
  }

  /** WrapObjects only looks at the first character and the number of `{`. */
  lemma WrapObjectsAgrees(s: string, t: string)
    requires t != "" && s != "" && t[0] == s[0] && CountChar(t, '{') == CountChar(s, '{')
    ensures WrapObjects(t) == if s[0] != '[' && CountChar(s, '{') > 1 then "[" + t + "]" else t
  {
  }

  /** Repairing a repaired text changes nothing more. */
  lemma RepairIdempotent(s: string)
    ensures Repair(Repair(s)) == Repair(s)
  {
    var s2 := Strip(ReplaceChar(s, '\n', ' '));
    NoNewlineAfterStrip(ReplaceChar(s, '\n', ' '));
    if WrapObjects(s2) == s2 {
      RepairKeepsUnwrapped(s2);
    } else {
      RepairKeepsWrapped(s2);
    }
  }

  lemma RepairKeepsUnwrapped(s2: string)
    requires '\n' !in s2 && Strip(s2) == s2 && WrapObjects(s2) == s2
    ensures Repair(s2) == s2
  {
    NoNewlineReplaceIdentity(s2);
  }

  lemma RepairKeepsWrapped(s2: string)
    requires '\n' !in s2
    ensures Repair("[" + s2 + "]") == "[" + s2 + "]"
  {
    var r := "[" + s2 + "]";
    assert '\n' !in r;
    NoNewlineReplaceIdentity(r);
    StripCharsOfTrimmed(r, Whitespace);
  }

  lemma NoNewlineAfterStrip(s: string)
    requires '\n' !in s
    ensures '\n' !in Strip(s)
  {
    var l := TrimLeft(s, Whitespace);
    TrimLeftCuts(s, Whitespace);
    assert forall c :: c in l ==> c in s;
    var r := TrimRight(l, Whitespace);
    TrimRightCuts(l, Whitespace);
    assert forall c :: c in r ==> c in l;
  }

  lemma NoNewlineReplaceIdentity(s: string)
    requires '\n' !in s
    ensures ReplaceChar(s, '\n', ' ') == s
  {
  }

  /** Two objects written back to back, with no enclosing list: the repair wraps them in
      brackets (newlines become spaces), but adds no comma between them. */
  lemma RepairWrapsConcatenated(x: string, y: string)
    requires x != "" && y != "" && x[0] == '{' && y[0] == '{' && y[|y| - 1] == '}'
    ensures Repair(x + y) == "[" + ReplaceChar(x + y, '\n', ' ') + "]"
  {
    var s := x + y;
    assert s[0] == '{' && s[|s| - 1] == '}';
    StripCharsOfTrimmed(s, Whitespace);
    RepairOfStripped(s);
    assert s[0] in multiset(x) && s[|x|] in multiset(y) by {
      assert s[0] == x[0];
      assert s[|x|] == y[0];
    }
    assert multiset(s) == multiset(x) + multiset(y);
  }

  /** One block of lines 61-73: the parsed value, or None when the block is blank (skipped
      before any parse) or when both parse attempts fail. The second attempt is made only
      when the first fails. */
  function ParseBlock(lib: Lib, b: string): (r: Option<J>)
    ensures Strip(lib.unescape(b)) == "" ==> r == None
    ensures Strip(lib.unescape(b)) != "" && lib.loads(Strip(lib.unescape(b))).Some? ==>
              r == lib.loads(Strip(lib.unescape(b)))
    ensures Strip(lib.unescape(b)) != "" && lib.loads(Strip(lib.unescape(b))).None? ==>
              r == lib.loads(Repair(Strip(lib.unescape(b))))
  {
    var s := Strip(lib.unescape(b));
    if s == "" then None
    else
      match lib.loads(s)
      case Some(j) => Some(j)
      case None => lib.loads(Repair(s))
  }

  /** The values of the blocks that parse, in block order. */
  function Extracted(lib: Lib, blocks: seq<string>): seq<J>
  {
    if blocks == [] then []
    else
      var last := ParseBlock(lib, blocks[|blocks| - 1]);
      Extracted(lib, blocks[..|blocks| - 1]) + (if last.Some? then [last.value] else [])
  }

  /** Extraction works block by block: the values of two runs of blocks are the values of
      each run, one after the other. A failing block therefore never affects the others. */
  lemma {:induction false} ExtractedAppend(lib: Lib, a: seq<string>, b: seq<string>)
    ensures Extracted(lib, a + b) == Extracted(lib, a) + Extracted(lib, b)
    decreases |b|
  {
    if b == [] {
      assert a + b == a;
    } else {
      var b' := b[..|b| - 1];
      assert (a + b)[..|a + b| - 1] == a + b';
      ExtractedAppend(lib, a, b');
    }
  }

  /** Every value comes from its own block, and only parsed blocks give one. */
  lemma {:induction false} ExtractedBound(lib: Lib, blocks: seq<string>)
    ensures |Extracted(lib, blocks)| <= |blocks|
    ensures (forall i :: 0 <= i < |blocks| ==> ParseBlock(lib, blocks[i]).Some?) ==>
              |Extracted(lib, blocks)| == |blocks|
    ensures (forall i :: 0 <= i < |blocks| ==> ParseBlock(lib, blocks[i]).None?) ==>
              Extracted(lib, blocks) == []
  {
    if blocks != [] {
      var init := blocks[..|blocks| - 1];
      ExtractedBound(lib, init);
    }
  }

  /** The body of the loop of extract_jsonld for one block (lines 62-73). */
  method ParseOne(lib: Lib, b: string) returns (r: Option<J>)
    ensures r == ParseBlock(lib, b)
  {
    var s := Strip(lib.unescape(b));
    if s == "" {
      return None;
    }
    r := lib.loads(s);
    if r.None? {
      var s2 := Strip(ReplaceChar(s, '\n', ' '));
      if s2 != "" && s2[0] != '[' && CountChar(s2, '{') > 1 {
        s2 := "[" + s2 + "]";
      }
      assert s2 == Repair(s);
      r := lib.loads(s2);
    }
  }

  lemma ExtractedStep(lib: Lib, blocks: seq<string>, i: int)
    requires 0 <= i < |blocks|
    ensures Extracted(lib, blocks[..i + 1]) == Extracted(lib, blocks[..i]) +
              (if ParseBlock(lib, blocks[i]).Some? then [ParseBlock(lib, blocks[i]).value] else [])
  {
    assert blocks[..i + 1][..i] == blocks[..i];
  }

  /** extract_jsonld: the loop over the page's blocks. */
  method ExtractJsonLd(lib: Lib, html: string) returns (objs: seq<J>)
    ensures objs == Extracted(lib, lib.scriptBlocks(html))
  {
    var blocks := lib.scriptBlocks(html);
    objs := [];
    var i := 0;
    while i < |blocks|
      invariant 0 <= i <= |blocks|
      invariant objs == Extracted(lib, blocks[..i])
    {
      ExtractedStep(lib, blocks, i);
      var parsed := ParseOne(lib, blocks[i]);
      if parsed.Some? {
        objs := objs + [parsed.value];
      }
      i := i + 1;
    }
    assert blocks[..|blocks|] == blocks;
  }
}
