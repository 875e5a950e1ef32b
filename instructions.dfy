/** The instruction normaliser (Recipe_finder.py, norm_instructions): a text, or a list of
    texts and step objects, becomes a list of step strings. */
module Instructions {
  import opened Wrappers
  import opened Json
  import opened Text
  import opened Library

  /** The characters `p.strip(" -•\t")` cuts off the fragments of a text. */
  const BulletChars: set<char> := {' ', '-', '•', '\t'}

  /** The text branch (line 96) on the fragments of the split: each fragment that is not
      blank, with bullets, dashes, spaces and tabs cut off both ends. */
  function TextSteps(parts: seq<string>): (r: seq<string>)
    ensures |r| <= |parts|
    ensures forall x :: x in r ==> StripChars(x, BulletChars) == x
  {
    if parts == [] then []
    else
      var p := parts[|parts| - 1];
      var init := TextSteps(parts[..|parts| - 1]);
      StripCharsIdempotent(p, BulletChars);
      init + (if NonBlank(p) then [StripChars(p, BulletChars)] else [])
  }

  /** The step one list element gives (lines 99-103): a non-blank string, stripped; for a
      dict, its "text" (or, when that is falsy, its "name") stripped when not blank; nothing
      for any other element. A truthy "text"/"name" that is not a string has no `strip`, so
      Python raises AttributeError. */
  function ItemStep(it: J): (r: Result<seq<string>>)
    ensures r.Raised? <==> Raises(it)
    ensures r.Raised? ==> r.exc == AttributeError
    ensures it.JStr? && NonBlank(it.s) ==> r == Ok([Strip(it.s)])
    ensures it.JObj? && StepText(it.members).JStr? && NonBlank(StepText(it.members).s) ==>
              r == Ok([Strip(StepText(it.members).s)])
    ensures ((it.JStr? && !NonBlank(it.s)) ||
             (it.JObj? && StepText(it.members).JStr? && !NonBlank(StepText(it.members).s)) ||
             !(it.JStr? || it.JObj?)) ==> r == Ok([])
    ensures r.Ok? ==> |r.value| <= 1 && forall x :: x in r.value ==> x != "" && Strip(x) == x
  {
    match it
    case JStr(s) =>
      StrippedClean(s);
      Ok(if NonBlank(s) then [Strip(s)] else [])
    case JObj(ms) =>
      var t := StepText(ms);
      if t.JStr? then
        StrippedClean(t.s);
        Ok(if NonBlank(t.s) then [Strip(t.s)] else [])
      else Raised(AttributeError)
    case _ => Ok([])
  }

  /** `it.get("text") or it.get("name") or ""` */
  function StepText(ms: seq<Member>): J
  {
    Or(Or(Get(ms, "text"), Get(ms, "name")), JStr(""))
  }

  /** An element raises exactly when it is a dict whose "text"-or-"name" value is truthy but
      not a string. */
  predicate Raises(it: J)
  {
    it.JObj? && !StepText(it.members).JStr?
  }

  /** The steps of one part followed by those of the next; an exception in the first part
      wins, as the loop stops there. */
  function Then(a: Result<seq<string>>, b: Result<seq<string>>): Result<seq<string>>
  {
    match a
    case Raised(e) => Raised(e)
    case Ok(x) =>
      match b
      case Raised(e) => Raised(e)
      case Ok(y) => Ok(x + y)
  }

  lemma ThenAssociative(a: Result<seq<string>>, b: Result<seq<string>>, c: Result<seq<string>>)
    ensures Then(Then(a, b), c) == Then(a, Then(b, c))
  {
    if a.Ok? && b.Ok? && c.Ok? {
      assert a.value + b.value + c.value == a.value + (b.value + c.value);
    }
  }

  /** The list branch (lines 98-103): the steps of the elements in order, or the exception of
      the first element that raises. */
  function ListSteps(items: seq<J>): Result<seq<string>>
  {
    if items == [] then Ok([])
    else Then(ListSteps(items[..|items| - 1]), ItemStep(items[|items| - 1]))
  }

  /** norm_instructions as a function of its argument: a text is split and cleaned, a list is
      handled element by element, and every other value gives no steps. */
  function InstructionSteps(lib: Lib, instr: J): Result<seq<string>>
  {
    match instr
    case JStr(s) => Ok(TextSteps(lib.splitSteps(s)))
    case JArr(items) => ListSteps(items)
    case _ => Ok([])
  }

  /** The list branch raises exactly when some element raises, and otherwise every step it
      returns is non-empty and already stripped. */
  lemma {:induction false} ListStepsSpec(items: seq<J>)
    ensures ListSteps(items).Raised? <==> exists it :: it in items && Raises(it)
    ensures ListSteps(items).Ok? ==>
              forall x :: x in ListSteps(items).value ==> x != "" && Strip(x) == x
  {
    if items != [] {
      var init := items[..|items| - 1];
      var last := items[|items| - 1];
      assert items == init + [last];
      ListStepsSpec(init);
      assert forall it :: it in items <==> it in init || it == last;
    }
  }

  /** The list branch works element by element, in order: the steps of two runs of elements
      are the steps of each run, one after the other. */
  lemma {:induction false} ListStepsAppend(a: seq<J>, b: seq<J>)
    ensures ListSteps(a + b) == Then(ListSteps(a), ListSteps(b))
    decreases |b|
  {
    if b == [] {
      assert a + b == a;
      assert Then(ListSteps(a), Ok([])) == ListSteps(a) by {
        if ListSteps(a).Ok? { assert ListSteps(a).value + [] == ListSteps(a).value; }
      }
    } else {
      var b' := b[..|b| - 1];
      assert (a + b)[..|a + b| - 1] == a + b';
      assert (a + b)[|a + b| - 1] == b[|b| - 1];
      ListStepsAppend(a, b');
      ThenAssociative(ListSteps(a), ListSteps(b'), ItemStep(b[|b| - 1]));
    }
  }

  /** Fragment `p` passes the filter of line 96 and becomes the step `x`. */
  predicate Survives(p: string, x: string)
  {
    NonBlank(p) && x == StripChars(p, BulletChars)
  }

  /** The text branch keeps exactly the non-blank fragments, each with the bullet characters
      cut off both ends. */
  lemma {:induction false} TextStepsMembers(parts: seq<string>)
    ensures forall x :: x in TextSteps(parts) <==> exists p :: p in parts && Survives(p, x)
  {
    if parts != [] {
      var init := parts[..|parts| - 1];
      var last := parts[|parts| - 1];
      TextStepsMembers(init);
      assert parts == init + [last];
      assert forall p :: p in parts <==> p in init || p == last;
      var tail := if NonBlank(last) then [StripChars(last, BulletChars)] else [];
      assert TextSteps(parts) == TextSteps(init) + tail;
      assert forall x :: x in tail <==> Survives(last, x);
    }
  }

  /** The text branch works fragment by fragment, in order. */
  lemma {:induction false} TextStepsAppend(a: seq<string>, b: seq<string>)
    ensures TextSteps(a + b) == TextSteps(a) + TextSteps(b)
    decreases |b|
  {
    if b == [] {
      assert a + b == a;
    } else {
      var b' := b[..|b| - 1];
      assert (a + b)[..|a + b| - 1] == a + b';
      assert (a + b)[|a + b| - 1] == b[|b| - 1];
      TextStepsAppend(a, b');
    }
  }

  /** A value that is neither a text nor a list, and an empty list, give no steps. */
  lemma NoStepsByDefault(lib: Lib, instr: J)
    requires !instr.JStr? && (instr.JArr? ==> instr.elems == [])
    ensures InstructionSteps(lib, instr) == Ok([])
  {
  }

  /** A text whose fragments are all blank gives no steps; Python's re.split gives [""] for
      the empty text, so "" gives no steps. */
  lemma {:induction false} BlankTextNoSteps(parts: seq<string>)
    requires forall p :: p in parts ==> !NonBlank(p)
    ensures TextSteps(parts) == []
  {
    if parts != [] {
      assert forall p :: p in parts[..|parts| - 1] ==> p in parts;
      BlankTextNoSteps(parts[..|parts| - 1]);
    }
  }

  /** The text branch filters on `p.strip()` but returns `p.strip(" -•\t")`, so a fragment
      made of a dash alone survives the filter as an empty step. */
  lemma DashFragmentGivesEmptyStep()
    ensures TextSteps(["-"]) == [""]
  {
    assert StripChars("-", Whitespace) == "-" by {
      StripCharsOfTrimmed("-", Whitespace);
    }
    assert StripChars("-", BulletChars) == "";
  }

  lemma ListStepsStep(items: seq<J>, i: int, acc: seq<string>)
    requires 0 <= i < |items| && ListSteps(items[..i]) == Ok(acc)
    ensures ListSteps(items[..i + 1]) == Then(Ok(acc), ItemStep(items[i]))
  {
    assert items[..i + 1][..i] == items[..i];
  }

  /** An exception at one item is the result of the whole list. */
  lemma ListStepsRaised(items: seq<J>, i: int)
    requires 0 <= i < |items| && ListSteps(items[..i + 1]) == Raised(AttributeError)
    ensures ListSteps(items) == Raised(AttributeError)
  {
    assert items == items[..i + 1] + items[i + 1..];
    ListStepsAppend(items[..i + 1], items[i + 1..]);
  }

  /** norm_instructions: the text branch is a comprehension over the split; the list branch
      appends to `steps` in a loop. */
  method NormInstructions(lib: Lib, instr: J) returns (steps: Result<seq<string>>)
    ensures steps == InstructionSteps(lib, instr)
  {
    match instr {
      case JStr(s) =>
        steps := Ok(TextSteps(lib.splitSteps(s)));
      case JArr(items) =>
        var acc: seq<string> := [];
        var i := 0;
        while i < |items|
          invariant 0 <= i <= |items|
          invariant ListSteps(items[..i]) == Ok(acc)
        {
          ListStepsStep(items, i, acc);
          var it := items[i];
          match it {
            case JStr(x) =>
              if NonBlank(x) {
                acc := acc + [Strip(x)];
              } else {
                assert acc + [] == acc;
              }
            case JObj(ms) =>
              var t := StepText(ms);
              if !t.JStr? {
                ListStepsRaised(items, i);
                return Raised(AttributeError);
              }
              if NonBlank(t.s) {
                acc := acc + [Strip(t.s)];
              } else {
                assert acc + [] == acc;
              }
            case _ =>
              assert acc + [] == acc;
          }
          i := i + 1;
        }
        assert items[..|items|] == items;
        steps := Ok(acc);
      case _ =>
        steps := Ok([]);
    }
  }
}
