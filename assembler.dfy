/** The recipe assembler and the extraction loop of the orchestrator (Recipe_finder.py,
    scrape): each parsed block is searched for a recipe object (or its "mainEntity"), its
    fields are read with Python's `or` fallbacks, and the first block that yields a record
    with a name, an ingredient or a step is the result. */
module Assembler {
  import opened Wrappers
  import opened Json
  import opened Text
  import opened Library
  import opened Locator
  import opened Instructions
  import opened Extract

  /** The record scrape returns. */
  datatype Recipe = Recipe(name: string, url: string, ingredients: seq<string>, steps: seq<string>)

  /** The name given to a record whose own name is blank. */
  const FallbackName: string := "Recipe"

  /** The reason scrape gives when no block yields a record. */
  const NoRecipeFound: string := "no recipe found"

  /** `rec.get("name") or ""` */
  function NameValue(ms: seq<Member>): J
  {
    Or(Get(ms, "name"), JStr(""))
  }

  /** `rec.get("recipeIngredient") or rec.get("ingredients") or []` */
  function IngredientsValue(ms: seq<Member>): J
  {
    Or(Or(Get(ms, "recipeIngredient"), Get(ms, "ingredients")), JArr([]))
  }

  /** `rec.get("recipeInstructions") or rec.get("instructions") or []` */
  function InstructionsValue(ms: seq<Member>): J
  {
    Or(Or(Get(ms, "recipeInstructions"), Get(ms, "instructions")), JArr([]))
  }

  /** Python's `for i in v`: a list gives its elements, a string its characters, a dict its
      keys; iterating None, a boolean or a number raises TypeError. */
  function Iterate(v: J): (r: Result<seq<J>>)
    ensures r.Raised? <==> v.JNull? || v.JBool? || v.JNum?
    ensures v.JArr? ==> r == Ok(v.elems)
    ensures v.JStr? ==> (r.Ok? && |r.value| == |v.s| &&
                         forall i :: 0 <= i < |v.s| ==> r.value[i] == JStr([v.s[i]]))
    ensures v.JObj? ==> (r.Ok? && |r.value| == |v.members| &&
                         forall i :: 0 <= i < |v.members| ==> r.value[i] == JStr(v.members[i].key))
  {
    match v
    case JArr(es) => Ok(es)
    case JStr(s) => Ok(seq(|s|, i requires 0 <= i < |s| => JStr([s[i]])))
    case JObj(ms) => Ok(seq(|ms|, i requires 0 <= i < |ms| => JStr(ms[i].key)))
    case _ => Raised(TypeError)
  }

  /** `[html.unescape(i).strip() for i in items if isinstance(i, str) and i.strip()]`: the
      strings that are not blank before decoding, decoded and stripped, in order. */
  function Cleaned(lib: Lib, items: seq<J>): (r: seq<string>)
    ensures |r| <= |items|
    ensures forall x :: x in r ==> Strip(x) == x
  {
    if items == [] then []
    else
      var last := items[|items| - 1];
      var init := Cleaned(lib, items[..|items| - 1]);
      if last.JStr? && NonBlank(last.s) then
        StrippedClean(lib.unescape(last.s));
        init + [Strip(lib.unescape(last.s))]
      else init
  }

  /** The comprehension works item by item, in order. */
  lemma {:induction false} CleanedAppend(lib: Lib, a: seq<J>, b: seq<J>)
    ensures Cleaned(lib, a + b) == Cleaned(lib, a) + Cleaned(lib, b)
    decreases |b|
  {
    if b == [] {
      assert a + b == a;
    } else {
      var b' := b[..|b| - 1];
      assert (a + b)[..|a + b| - 1] == a + b';
      assert (a + b)[|a + b| - 1] == b[|b| - 1];
      CleanedAppend(lib, a, b');
    }
  }

  /** Item `it` is kept by the comprehension of line 121 and becomes `x`. */
  predicate Keeps(lib: Lib, it: J, x: string)
  {
    it.JStr? && NonBlank(it.s) && x == Strip(lib.unescape(it.s))
  }

  /** The kept items are exactly the strings that are not blank before decoding, each
      decoded and stripped. */
  lemma {:induction false} CleanedMembers(lib: Lib, items: seq<J>)
    ensures forall x :: x in Cleaned(lib, items) <==> exists it :: it in items && Keeps(lib, it, x)
  {
    if items != [] {
      var init := items[..|items| - 1];
      var last := items[|items| - 1];
      CleanedMembers(lib, init);
      assert items == init + [last];
      assert forall it :: it in items <==> it in init || it == last;
      var tail := if last.JStr? && NonBlank(last.s) then [Strip(lib.unescape(last.s))] else [];
      assert Cleaned(lib, items) == Cleaned(lib, init) + tail;
      assert forall x :: x in tail <==> Keeps(lib, last, x);
    }
  }

  /** The step list of norm_instructions as the list of strings the comprehension of line 122
      iterates over. */
  function AsStrings(ss: seq<string>): (r: seq<J>)
    ensures |r| == |ss| && forall i :: 0 <= i < |ss| ==> r[i] == JStr(ss[i])
  {
    seq(|ss|, i requires 0 <= i < |ss| => JStr(ss[i]))
  }

  /** The three cleaned fields of a candidate (lines 117-122), or the exception reading them
      raises: `.get` on a non-dict and `.strip()` on a non-string name raise AttributeError,
      the normaliser can raise, and iterating a numeric or boolean ingredients value raises
      TypeError. */
  function Fields(lib: Lib, rec: J): (r: Result<(string, seq<string>, seq<string>)>)
    ensures r.Ok? <==> rec.JObj? && NameValue(rec.members).JStr? &&
                       InstructionSteps(lib, InstructionsValue(rec.members)).Ok? &&
                       Iterate(IngredientsValue(rec.members)).Ok?
    ensures r.Ok? ==> r.value.0 == Strip(NameValue(rec.members).s)
    ensures r.Ok? ==> r.value.1 == Cleaned(lib, Iterate(IngredientsValue(rec.members)).value)
    ensures r.Ok? ==>
              r.value.2 == Cleaned(lib, AsStrings(InstructionSteps(lib, InstructionsValue(rec.members)).value))
    ensures (rec.JObj? && NameValue(rec.members).JStr? &&
             InstructionSteps(lib, InstructionsValue(rec.members)).Raised?) ==>
              r == Raised(InstructionSteps(lib, InstructionsValue(rec.members)).exc)
    ensures (rec.JObj? && NameValue(rec.members).JStr? &&
             InstructionSteps(lib, InstructionsValue(rec.members)).Ok? &&
             Iterate(IngredientsValue(rec.members)).Raised?) ==> r == Raised(TypeError)
    ensures r.Ok? ==> Strip(r.value.0) == r.value.0
    ensures r.Ok? ==> forall x :: x in r.value.1 ==> Strip(x) == x
    ensures r.Ok? ==> forall x :: x in r.value.2 ==> Strip(x) == x
  {
    if !rec.JObj? then Raised(AttributeError)
    else
      var nv := NameValue(rec.members);
      if !nv.JStr? then Raised(AttributeError)
      else
        match InstructionSteps(lib, InstructionsValue(rec.members))
        case Raised(e) => Raised(e)
        case Ok(steps) =>
          match Iterate(IngredientsValue(rec.members))
          case Raised(e) => Raised(e)
          case Ok(items) =>
            StrippedClean(nv.s);
            Ok((Strip(nv.s), Cleaned(lib, items), Cleaned(lib, AsStrings(steps))))
  }

  /** Lines 117-124 for one candidate: a record when the name, the ingredients or the steps
      are non-empty, None when all three are empty, or the exception reading them raised. */
  function Assemble(lib: Lib, url: string, rec: J): Result<Option<Recipe>>
  {
    match Fields(lib, rec)
    case Raised(e) => Raised(e)
    case Ok((name, ingr, steps)) =>
      if name != "" || ingr != [] || steps != [] then
        Ok(Some(Recipe(if name != "" then name else FallbackName, url, ingr, steps)))
      else Ok(None)
  }

  /** A record is returned exactly when a field is non-empty; its name is the stripped name,
      or "Recipe" when that is blank; its url is the page's; its ingredients and steps are
      the cleaned fields, every one of them already stripped. */
  lemma AssembleSpec(lib: Lib, url: string, rec: J, name: string, ingr: seq<string>, steps: seq<string>)
    requires Fields(lib, rec) == Ok((name, ingr, steps))
    ensures Assemble(lib, url, rec).Ok?
    ensures Assemble(lib, url, rec).value.Some? <==> name != "" || ingr != [] || steps != []
    ensures Assemble(lib, url, rec).value.Some? ==>
              var r := Assemble(lib, url, rec).value.value;
              && r.name == (if name == "" then FallbackName else name)
              && r.name != "" && Strip(r.name) == r.name
              && r.url == url && r.ingredients == ingr && r.steps == steps
              && (forall x :: x in r.ingredients ==> Strip(x) == x)
              && (forall x :: x in r.steps ==> Strip(x) == x)
  {
    FallbackNameStripped();
  }

  lemma FallbackNameStripped()
    ensures Strip(FallbackName) == FallbackName
  {
    StripCharsOfTrimmed(FallbackName, Whitespace);
  }

  /** An exception while reading the fields is the assembler's result. */
  lemma AssembleRaises(lib: Lib, url: string, rec: J)
    ensures Assemble(lib, url, rec).Raised? <==> Fields(lib, rec).Raised?
    ensures Fields(lib, rec).Raised? ==> Assemble(lib, url, rec).exc == Fields(lib, rec).exc
  {
  }

  /** A candidate that is not a dict, or whose truthy name is not a string, raises
      AttributeError. */
  lemma FieldsAttributeError(lib: Lib, rec: J)
    ensures !rec.JObj? ==> Fields(lib, rec) == Raised(AttributeError)
    ensures rec.JObj? && !NameValue(rec.members).JStr? ==> Fields(lib, rec) == Raised(AttributeError)
    ensures rec.JObj? && (Get(rec.members, "name").JNum? || Get(rec.members, "name").JBool?)
              && Truthy(Get(rec.members, "name"))
            ==> Fields(lib, rec) == Raised(AttributeError)
  {
  }

  /** When decoding keeps every non-blank text non-blank, no ingredient and no step is empty.
      Decoding can break this: see EntityOnlyIngredientIsEmpty. */
  lemma {:induction false} CleanedNonEmpty(lib: Lib, items: seq<J>)
    requires forall s :: NonBlank(s) ==> NonBlank(lib.unescape(s))
    ensures forall x :: x in Cleaned(lib, items) ==> x != ""
  {
    if items != [] {
      CleanedNonEmpty(lib, items[..|items| - 1]);
    }
  }

  /** The blank filter of line 121 runs before html.unescape: "&nbsp;" passes it, decodes
      to a no-break space, and strips to an empty ingredient, which still makes the record
      acceptable. */
  lemma EntityOnlyIngredientIsEmpty(lib: Lib, url: string)
    requires lib.unescape("&nbsp;") == "\U{A0}"
    ensures Assemble(lib, url, JObj([Member("recipeIngredient", JArr([JStr("&nbsp;")]))])) ==
              Ok(Some(Recipe(FallbackName, url, [""], [])))
  {
    var ms := [Member("recipeIngredient", JArr([JStr("&nbsp;")]))];
    assert IngredientsValue(ms) == JArr([JStr("&nbsp;")]);
    IngredientsOnly(lib, ms);
    CleanedEntity(lib);
    AssembleSpec(lib, url, JObj(ms), "", [""], []);
  }

  lemma CleanedEntity(lib: Lib)
    requires lib.unescape("&nbsp;") == "\U{A0}"
    ensures Cleaned(lib, [JStr("&nbsp;")]) == [""]
  {
    assert Strip("&nbsp;") == "&nbsp;" by {
      StripCharsOfTrimmed("&nbsp;", Whitespace);
    }
    assert Strip("\U{A0}") == "";
  }

  /** The fields of a dict with neither a name nor instructions. */
  lemma IngredientsOnly(lib: Lib, ms: seq<Member>)
    requires Get(ms, "name") == JNull
    requires Get(ms, "recipeInstructions") == JNull && Get(ms, "instructions") == JNull
    requires Iterate(IngredientsValue(ms)).Ok?
    ensures Fields(lib, JObj(ms)) == Ok(("", Cleaned(lib, Iterate(IngredientsValue(ms)).value), []))
  {
    assert NameValue(ms) == JStr("");
    assert InstructionsValue(ms) == JArr([]);
    assert InstructionSteps(lib, JArr([])) == Ok([]);
    assert Strip("") == "";
  }

  /** An ingredients value given as one string is iterated character by character: every
      non-blank character becomes an ingredient of its own. */
  lemma StringIngredientsAreCharacters(lib: Lib, url: string)
    requires forall s :: lib.unescape(s) == s
    ensures Assemble(lib, url, JObj([Member("ingredients", JStr("ab"))])) ==
              Ok(Some(Recipe(FallbackName, url, ["a", "b"], [])))
  {
    var ms := [Member("ingredients", JStr("ab"))];
    assert IngredientsValue(ms) == JStr("ab");
    IngredientsOnly(lib, ms);
    assert Iterate(JStr("ab")).value == [JStr("a"), JStr("b")];
    CleanedLetters(lib);
    AssembleSpec(lib, url, JObj(ms), "", ["a", "b"], []);
  }

  lemma CleanedLetters(lib: Lib)
    requires forall s :: lib.unescape(s) == s
    ensures Cleaned(lib, [JStr("a"), JStr("b")]) == ["a", "b"]
  {
    assert Strip("a") == "a" by { StripCharsOfTrimmed("a", Whitespace); }
    assert Strip("b") == "b" by { StripCharsOfTrimmed("b", Whitespace); }
    assert [JStr("a"), JStr("b")][..1] == [JStr("a")];
  }

  /** An empty (or otherwise falsy) "recipeIngredient" falls through to "ingredients", and
      likewise for the instructions. */
  lemma FalsyPrimaryFallsThrough(ms: seq<Member>)
    ensures !Truthy(Get(ms, "recipeIngredient")) ==>
              IngredientsValue(ms) == Or(Get(ms, "ingredients"), JArr([]))
    ensures Truthy(Get(ms, "recipeIngredient")) ==>
              IngredientsValue(ms) == Get(ms, "recipeIngredient")
    ensures !Truthy(Get(ms, "recipeInstructions")) ==>
              InstructionsValue(ms) == Or(Get(ms, "instructions"), JArr([]))
    ensures Truthy(Get(ms, "recipeInstructions")) ==>
              InstructionsValue(ms) == Get(ms, "recipeInstructions")
  {
  }

  /** What one block offers the assembler (lines 113-115): the recipe object the locator
      finds, or else the block's "mainEntity" when the block is a dict. */
  function Candidate(block: J): J
  {
    var found := Search([block]);
    var rec := if found.Some? then found.value else JNull;
    if Truthy(rec) then rec
    else if block.JObj? then Get(block.members, "mainEntity")
    else JNull
  }

  /** The locator's result, when there is one, is the candidate: a recipe object is never
      empty. When there is none, the "mainEntity" fallback holds no recipe object either,
      since the locator has already searched it. */
  lemma CandidateSpec(block: J)
    ensures Search([block]).Some? ==> Candidate(block) == Search([block]).value
    ensures Search([block]).None? ==> !HasRecipe(Candidate(block))
  {
    SearchOne(block);
    var found := Search([block]);
    if found.None? && block.JObj? {
      var v := Get(block.members, "mainEntity");
      if v != JNull {
        var i :| 0 <= i < |block.members| && block.members[i] == Member("mainEntity", v);
        assert block.members[i] in block.members;
      }
    }
  }

  /** What one block contributes to the loop of lines 112-124. */
  datatype Outcome = Accepted(recipe: Recipe) | Skipped | Crashed(exc: Exc)

  function BlockOutcome(lib: Lib, url: string, block: J): Outcome
  {
    var rec := Candidate(block);
    if !Truthy(rec) then Skipped
    else
      match Assemble(lib, url, rec)
      case Raised(e) => Crashed(e)
      case Ok(None) => Skipped
      case Ok(Some(r)) => Accepted(r)
  }

  /** What scrape returns: a record, a failure reason, or an exception it lets escape. */
  datatype ScrapeResult = Found(recipe: Recipe) | Failed(reason: string) | Aborted(exc: Exc)

  /** What each parsed block contributes, in block order. */
  function Outcomes(lib: Lib, url: string, blocks: seq<J>): (os: seq<Outcome>)
    ensures |os| == |blocks| && forall k :: 0 <= k < |blocks| ==> os[k] == BlockOutcome(lib, url, blocks[k])
  {
    seq(|blocks|, k requires 0 <= k < |blocks| => BlockOutcome(lib, url, blocks[k]))
  }

  /** The loop of lines 112-125 on the outcomes of the blocks: the first accepted record or
      the first exception ends it; when every block is skipped, "no recipe found". */
  function FirstOf(os: seq<Outcome>): ScrapeResult
  {
    if os == [] then Failed(NoRecipeFound)
    else
      match os[0]
      case Accepted(r) => Found(r)
      case Crashed(e) => Aborted(e)
      case Skipped => FirstOf(os[1..])
  }

  /** The loop of lines 112-125 over the parsed blocks, in order. */
  function FirstRecipe(lib: Lib, url: string, blocks: seq<J>): ScrapeResult
  {
    FirstOf(Outcomes(lib, url, blocks))
  }

  lemma {:induction false} FirstOfFound(os: seq<Outcome>, r: Recipe)
    ensures FirstOf(os) == Found(r) <==>
              exists k :: 0 <= k < |os| && os[k] == Accepted(r) && forall j :: 0 <= j < k ==> os[j] == Skipped
  {
    if os != [] {
      FirstOfFound(os[1..], r);
      if FirstOf(os) == Found(r) && os[0].Skipped? {
        var k :| 0 <= k < |os[1..]| && os[1..][k] == Accepted(r) &&
                 forall j :: 0 <= j < k ==> os[1..][j] == Skipped;
        assert forall j :: 0 <= j < k + 1 ==> os[j] == Skipped by {
          forall j | 0 <= j < k + 1 ensures os[j] == Skipped {
            if j > 0 { assert os[j] == os[1..][j - 1]; }
          }
        }
        assert os[k + 1] == os[1..][k];
      }
      if k :| 0 <= k < |os| && os[k] == Accepted(r) && forall j :: 0 <= j < k ==> os[j] == Skipped {
        if k > 0 {
          assert os[1..][k - 1] == Accepted(r);
          assert forall j :: 0 <= j < k - 1 ==> os[1..][j] == Skipped by {
            forall j | 0 <= j < k - 1 ensures os[1..][j] == Skipped {
              assert os[1..][j] == os[j + 1];
            }
          }
        }
      }
    }
  }

  lemma {:induction false} FirstOfNotFound(os: seq<Outcome>)
    ensures FirstOf(os) == Failed(NoRecipeFound) <==> forall k :: 0 <= k < |os| ==> os[k] == Skipped
  {
    if os != [] {
      FirstOfNotFound(os[1..]);
      assert forall k :: 0 < k < |os| ==> os[k] == os[1..][k - 1];
    }
  }

  lemma {:induction false} FirstOfDecided(os: seq<Outcome>, more: seq<Outcome>)
    requires !FirstOf(os).Failed?
    ensures FirstOf(os + more) == FirstOf(os)
  {
    assert (os + more)[0] == os[0];
    if os[0].Skipped? {
      assert (os + more)[1..] == os[1..] + more;
      FirstOfDecided(os[1..], more);
    }
  }

  /** First match wins: the record found is that of the first block that is not skipped,
      and every block before it is skipped. */
  lemma FirstRecipeFound(lib: Lib, url: string, blocks: seq<J>, r: Recipe)
    ensures FirstRecipe(lib, url, blocks) == Found(r) <==>
              exists k :: 0 <= k < |blocks| && BlockOutcome(lib, url, blocks[k]) == Accepted(r) &&
                          forall j :: 0 <= j < k ==> BlockOutcome(lib, url, blocks[j]) == Skipped
  {
    var os := Outcomes(lib, url, blocks);
    FirstOfFound(os, r);
    if k :| 0 <= k < |blocks| && BlockOutcome(lib, url, blocks[k]) == Accepted(r) &&
            forall j :: 0 <= j < k ==> BlockOutcome(lib, url, blocks[j]) == Skipped {
      assert os[k] == Accepted(r) && forall j :: 0 <= j < k ==> os[j] == Skipped;
    }
  }

  /** "no recipe found" is the result exactly when every block is skipped. */
  lemma FirstRecipeNotFound(lib: Lib, url: string, blocks: seq<J>)
    ensures FirstRecipe(lib, url, blocks) == Failed(NoRecipeFound) <==>
              forall k :: 0 <= k < |blocks| ==> BlockOutcome(lib, url, blocks[k]) == Skipped
  {
    FirstOfNotFound(Outcomes(lib, url, blocks));
  }

  /** Later blocks are never examined: once a prefix of the blocks decides the result, no
      further blocks change it. */
  lemma LaterBlocksIgnored(lib: Lib, url: string, blocks: seq<J>, more: seq<J>)
    requires !FirstRecipe(lib, url, blocks).Failed?
    ensures FirstRecipe(lib, url, blocks + more) == FirstRecipe(lib, url, blocks)
  {
    var os := Outcomes(lib, url, blocks);
    assert Outcomes(lib, url, blocks + more) == os + Outcomes(lib, url, more);
    FirstOfDecided(os, Outcomes(lib, url, more));
  }

  /** What the fetcher gave: the page text, or the text of the exception it raised. */
  datatype Fetch = Page(body: string) | FetchError(cause: string)

  /** scrape as a function of the crawl permission, the fetch and the library calls. */
  function ScrapeResultOf(lib: Lib, url: string, allowed: bool, fetched: Fetch): ScrapeResult
  {
    if !allowed then Failed("robots disallow " + url)
    else
      match fetched
      case FetchError(cause) => Failed("fetch failed: " + cause)
      case Page(page) => FirstRecipe(lib, url, Extracted(lib, lib.scriptBlocks(page)))
  }

  /** One pass of the loop body of scrape (lines 113-124) for one block. */
  method Examine(lib: Lib, url: string, block: J) returns (o: Outcome)
    ensures o == BlockOutcome(lib, url, block)
  {
    var found := FindRecipeInJson(block);
    var rec := if found.Some? then found.value else JNull;
    if !Truthy(rec) {
      rec := if block.JObj? then Get(block.members, "mainEntity") else JNull;
    }
    assert rec == Candidate(block);
    if !Truthy(rec) {
      return Skipped;
    }
    var made := Assemble(lib, url, rec);
    match made {
      case Raised(e) => return Crashed(e);
      case Ok(None) => return Skipped;
      case Ok(Some(r)) => return Accepted(r);
    }
  }

  lemma FirstRecipeStep(lib: Lib, url: string, blocks: seq<J>, i: int)
    requires 0 <= i < |blocks| && BlockOutcome(lib, url, blocks[i]).Skipped?
    ensures FirstRecipe(lib, url, blocks[i..]) == FirstRecipe(lib, url, blocks[i + 1..])
  {
    assert Outcomes(lib, url, blocks[i..])[1..] == Outcomes(lib, url, blocks[i + 1..]);
  }

  /** scrape (lines 106-125): the permission check and the fetch are given as inputs. */
  method Scrape(lib: Lib, url: string, allowed: bool, fetched: Fetch) returns (res: ScrapeResult)
    ensures res == ScrapeResultOf(lib, url, allowed, fetched)
  {
    if !allowed {
      return Failed("robots disallow " + url);
    }
    if fetched.FetchError? {
      return Failed("fetch failed: " + fetched.cause);
    }
    var blocks := ExtractJsonLd(lib, fetched.body);
    var i := 0;
    while i < |blocks|
      invariant 0 <= i <= |blocks|
      invariant FirstRecipe(lib, url, blocks[i..]) == FirstRecipe(lib, url, blocks)
    {
      var o := Examine(lib, url, blocks[i]);
      match o {
        case Crashed(e) => return Aborted(e);
        case Accepted(r) => return Found(r);
        case Skipped =>
      }
      FirstRecipeStep(lib, url, blocks, i);
      i := i + 1;
    }
    assert blocks[i..] == [];
    return Failed(NoRecipeFound);
  }
}
