/** The recipe locator: a depth-first search with an explicit stack for the first object
    whose declared type is "recipe" (Recipe_finder.py, find_recipe_in_json). */
module Locator {
  import opened Wrappers
  import opened Json
  import opened Text

  /** `node.get("@type") or node.get("type") or ""` */
  function TypeValue(ms: seq<Member>): J
  {
    Or(Or(Get(ms, "@type"), Get(ms, "type")), JStr(""))
  }

  /** `t if isinstance(t, list) else [t]` */
  function TypeList(t: J): seq<J>
  {
    if t.JArr? then t.elems else [t]
  }

  /** `str(x).lower() == "recipe"`. Only a string can pass: the str() of null, a boolean, a
      number, a list or a dict never lower-cases to "recipe". Lower-casing ASCII letters is
      enough, as no other character lower-cases to one of the letters of "recipe". */
  predicate NamesRecipe(x: J)
  {
    x.JStr? && AsciiLower(x.s) == "recipe"
  }

  /** A dict whose type value, as a list, holds an element naming "recipe". */
  predicate IsRecipe(j: J)
  {
    j.JObj? && exists x :: x in TypeList(TypeValue(j.members)) && NamesRecipe(x)
  }

  /** The container elements of `es`, in order. */
  function Containers(es: seq<J>): (r: seq<J>)
    ensures SizeOf(r) <= SizeOf(es)
  {
    if es == [] then []
    else
      var last := es[|es| - 1];
      var init := Containers(es[..|es| - 1]);
      var tail := if IsContainer(last) then [last] else [];
      assert es == es[..|es| - 1] + [last];
      assert SizeOf(es) == SizeOf(es[..|es| - 1]) + Size(last);
      SizeOfAppend(init, tail);
      assert SizeOf(tail) <= Size(last) by {
        if tail != [] { assert tail[..0] == []; }
      }
      init + tail
  }

  /** The container values among the members of a dict, in order. */
  function MemberContainers(ms: seq<Member>): (r: seq<J>)
    ensures SizeOf(r) <= SizeOfMembers(ms)
  {
    if ms == [] then []
    else
      var last := ms[|ms| - 1];
      var init := MemberContainers(ms[..|ms| - 1]);
      var tail := if IsContainer(last.value) then [last.value] else [];
      assert ms == ms[..|ms| - 1] + [last];
      assert SizeOfMembers(ms) == SizeOfMembers(ms[..|ms| - 1]) + Size(last.value);
      SizeOfAppend(init, tail);
      assert SizeOf(tail) <= Size(last.value) by {
        if tail != [] { assert tail[..0] == []; }
      }
      init + tail
  }

  /** The list children pushed are exactly the dict and list elements. */
  lemma {:induction false} ContainersMembers(es: seq<J>)
    ensures forall x :: x in Containers(es) <==> x in es && IsContainer(x)
  {
    if es != [] {
      ContainersMembers(es[..|es| - 1]);
      assert es == es[..|es| - 1] + [es[|es| - 1]];
    }
  }

  /** The dict values pushed are exactly the dict and list values. */
  lemma {:induction false} MemberContainersMembers(ms: seq<Member>)
    ensures forall x :: x in MemberContainers(ms) <==>
              (exists m :: m in ms && m.value == x) && IsContainer(x)
  {
    if ms != [] {
      MemberContainersMembers(ms[..|ms| - 1]);
      assert ms == ms[..|ms| - 1] + [ms[|ms| - 1]];
    }
  }

  /** What the loop pushes after popping `node` without returning it, in push order. */
  function Pushed(node: J): (r: seq<J>)
    ensures SizeOf(r) < Size(node)
  {
    match node
    case JArr(es) => Containers(es)
    case JObj(ms) => MemberContainers(ms)
    case _ => []
  }

  /** The search as the loop performs it on a given stack: pop the top; a recipe object ends
      the search; otherwise its container children are pushed in order. The number of nodes
      on the stack shrinks with every pop, so the search ends on every finite tree. */
  function Search(stack: seq<J>): Option<J>
    decreases SizeOf(stack)
  {
    if stack == [] then None
    else
      var node := stack[|stack| - 1];
      var rest := stack[..|stack| - 1];
      if IsRecipe(node) then Some(node)
      else
        SizeOfAppend(rest, Pushed(node));
        Search(rest + Pushed(node))
  }

  /** `x` is `j` or a node nested anywhere inside it. */
  predicate Occurs(x: J, j: J)
  {
    x == j ||
    match j
    case JArr(es) => exists e :: e in es && Occurs(x, e)
    case JObj(ms) => exists m :: m in ms && Occurs(x, m.value)
    case _ => false
  }

  /** Some node of `j`, `j` included, is a recipe object. */
  predicate HasRecipe(j: J)
  {
    IsRecipe(j) ||
    match j
    case JArr(es) => exists e :: e in es && HasRecipe(e)
    case JObj(ms) => exists m :: m in ms && HasRecipe(m.value)
    case _ => false
  }

  /** A node found inside a pushed child is found inside the popped node. */
  lemma OccursInPushed(x: J, c: J, node: J)
    requires c in Pushed(node) && Occurs(x, c)
    ensures Occurs(x, node)
  {
    match node
    case JArr(es) =>
      ContainersMembers(es);
    case JObj(ms) =>
      MemberContainersMembers(ms);
      var m :| m in ms && m.value == c;
    case _ =>
  }

  /** Below a popped node that is not itself a recipe, a recipe exists exactly when one exists
      below a pushed child: scalar children, which are not pushed, hold none. */
  lemma HasRecipeInPushed(node: J)
    requires !IsRecipe(node)
    ensures HasRecipe(node) <==> exists c :: c in Pushed(node) && HasRecipe(c)
  {
    match node
    case JArr(es) =>
      ContainersMembers(es);
      if HasRecipe(node) {
        var e :| e in es && HasRecipe(e);
        assert IsContainer(e) by { ScalarHasNoRecipe(e); }
      }
    case JObj(ms) =>
      MemberContainersMembers(ms);
      if HasRecipe(node) {
        var m :| m in ms && HasRecipe(m.value);
        assert IsContainer(m.value) by { ScalarHasNoRecipe(m.value); }
      }
      if c :| c in Pushed(node) && HasRecipe(c) {
        var m :| m in ms && m.value == c;
      }
    case _ =>
  }

  lemma ScalarHasNoRecipe(j: J)
    requires HasRecipe(j)
    ensures IsContainer(j)
  {
  }

  /** The search returns a recipe object found in the stack's trees, and returns None exactly
      when no tree on the stack holds a recipe object. */
  lemma {:induction false} SearchCorrect(stack: seq<J>)
    ensures Search(stack).Some? ==>
              IsRecipe(Search(stack).value) && exists e :: e in stack && Occurs(Search(stack).value, e)
    ensures Search(stack).None? <==> forall e :: e in stack ==> !HasRecipe(e)
    decreases SizeOf(stack)
  {
    if stack != [] {
      var node := stack[|stack| - 1];
      var rest := stack[..|stack| - 1];
      assert stack == rest + [node];
      if !IsRecipe(node) {
        var next := rest + Pushed(node);
        SizeOfAppend(rest, Pushed(node));
        SearchCorrect(next);
        assert Search(stack) == Search(next);
        if Search(next).Some? {
          var v := Search(next).value;
          var e :| e in next && Occurs(v, e);
          if e !in rest {
            OccursInPushed(v, e, node);
          }
        }
        HasRecipeInPushed(node);
      }
    }
  }

  lemma ContainersStep(es: seq<J>, i: int)
    requires 0 <= i < |es|
    ensures Containers(es[..i + 1]) ==
              Containers(es[..i]) + (if IsContainer(es[i]) then [es[i]] else [])
  {
    assert es[..i + 1][..i] == es[..i];
  }

  lemma MemberContainersStep(ms: seq<Member>, i: int)
    requires 0 <= i < |ms|
    ensures MemberContainers(ms[..i + 1]) ==
              MemberContainers(ms[..i]) + (if IsContainer(ms[i].value) then [ms[i].value] else [])
  {
    assert ms[..i + 1][..i] == ms[..i];
  }

  /** The pushing loop of find_recipe_in_json for a dict (lines 85-86): its container
      values, appended in order. */
  method PushMemberValues(stack: seq<J>, ms: seq<Member>) returns (s: seq<J>)
    ensures s == stack + MemberContainers(ms)
  {
    s := stack;
    var i := 0;
    while i < |ms|
      invariant 0 <= i <= |ms|
      invariant s == stack + MemberContainers(ms[..i])
    {
      MemberContainersStep(ms, i);
      var v := ms[i].value;
      if IsContainer(v) {
        s := s + [v];
      }
      i := i + 1;
    }
    assert ms[..|ms|] == ms;
  }

  /** The pushing loop of find_recipe_in_json for a list (lines 88-89): its container
      elements, appended in order. */
  method PushElements(stack: seq<J>, es: seq<J>) returns (s: seq<J>)
    ensures s == stack + Containers(es)
  {
    s := stack;
    var i := 0;
    while i < |es|
      invariant 0 <= i <= |es|
      invariant s == stack + Containers(es[..i])
    {
      ContainersStep(es, i);
      if IsContainer(es[i]) {
        s := s + [es[i]];
      }
      i := i + 1;
    }
    assert es[..|es|] == es;
  }

  /** One step of the search: popping a node that is not a recipe replaces it by its
      pushed children, which hold fewer nodes in all. */
  lemma SearchStep(stack: seq<J>)
    requires stack != [] && !IsRecipe(stack[|stack| - 1])
    ensures Search(stack) == Search(stack[..|stack| - 1] + Pushed(stack[|stack| - 1]))
    ensures SizeOf(stack[..|stack| - 1] + Pushed(stack[|stack| - 1])) < SizeOf(stack)
  {
    var rest, node := stack[..|stack| - 1], stack[|stack| - 1];
    SizeOfAppend(rest, Pushed(node));
  }

  /** The search of a single tree: sound and complete for that tree. */
  lemma SearchOne(obj: J)
    ensures Search([obj]).Some? ==> IsRecipe(Search([obj]).value) && Occurs(Search([obj]).value, obj)
    ensures Search([obj]).None? <==> !HasRecipe(obj)
  {
    SearchCorrect([obj]);
    assert forall e :: e in [obj] <==> e == obj;
  }

  /** find_recipe_in_json: pops nodes until it meets a recipe object or the stack runs out. */
  method FindRecipeInJson(obj: J) returns (r: Option<J>)
    ensures r == Search([obj])
    ensures r.Some? ==> IsRecipe(r.value) && Occurs(r.value, obj)
    ensures r.None? <==> !HasRecipe(obj)
  {
    SearchOne(obj);
    var stack := [obj];
    while stack != []
      invariant Search(stack) == Search([obj])
      decreases SizeOf(stack)
    {
      var node := stack[|stack| - 1];
      var rest := stack[..|stack| - 1];
      if IsRecipe(node) {
        return Some(node);
      }
      SearchStep(stack);
      match node {
        case JObj(ms) => stack := PushMemberValues(rest, ms);
        case JArr(es) => stack := PushElements(rest, es);
        case _ =>
          assert rest + Pushed(node) == rest;
          stack := rest;
      }
    }
    return None;
  }

  /** Siblings are pushed in order and popped from the top, so among the elements of a list
      the LAST one is examined first: a recipe object at the end of a list is the result,
      whatever recipe objects come before it. */
  lemma LastSiblingWins(es: seq<J>)
    requires es != [] && IsRecipe(es[|es| - 1])
    ensures Search([JArr(es)]) == Some(es[|es| - 1])
  {
    SearchOfList(es);
    LastContainer(es);
    SearchTop(Containers(es));
  }

  /** Popping a list pushes its container elements. */
  lemma SearchOfList(es: seq<J>)
    ensures Search([JArr(es)]) == Search(Containers(es))
  {
    SearchStep([JArr(es)]);
    assert [JArr(es)][..0] + Pushed(JArr(es)) == Containers(es);
  }

  /** A container ending a list ends its container elements. */
  lemma LastContainer(es: seq<J>)
    requires es != [] && IsContainer(es[|es| - 1])
    ensures Containers(es) != [] && Containers(es)[|Containers(es)| - 1] == es[|es| - 1]
  {
    ContainersStep(es, |es| - 1);
    assert es[..|es|] == es;
  }

  lemma SearchTop(stack: seq<J>)
    requires stack != [] && IsRecipe(stack[|stack| - 1])
    ensures Search(stack) == Some(stack[|stack| - 1])
  {
  }

  /** Two recipe objects X and Y, read as the list [X, Y]: the locator returns Y. */
  lemma ConcatenatedRecipesGiveLast()
    ensures var x := JObj([Member("@type", JStr("Recipe")), Member("name", JStr("X"))]);
            var y := JObj([Member("@type", JStr("Recipe")), Member("name", JStr("Y"))]);
            Search([JArr([x, y])]) == Some(y)
  {
    var x := JObj([Member("@type", JStr("Recipe")), Member("name", JStr("X"))]);
    var y := JObj([Member("@type", JStr("Recipe")), Member("name", JStr("Y"))]);
    assert AsciiLower("Recipe") == "recipe";
    assert TypeValue(y.members) == JStr("Recipe");
    assert JStr("Recipe") in TypeList(TypeValue(y.members));
    LastSiblingWins([x, y]);
  }
}
