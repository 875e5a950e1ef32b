/** Parsed JSON values as Python's `json.loads` returns them, with Python's truth values
    and the `dict.get` / `a or b` idioms the extractor relies on. */
module Json {

  /** A JSON value. Numbers are kept as reals: Python ints and floats behave the same
      everywhere they are used here (only their truth value matters). An object keeps its
      members in document order, as a Python dict does. */
  datatype J =
    | JNull
    | JBool(b: bool)
    | JNum(n: real)
    | JStr(s: string)
    | JArr(elems: seq<J>)
    | JObj(members: seq<Member>)

  datatype Member = Member(key: string, value: J)

  /** Python's truth value: None, False, 0, "", [] and {} are false, all else is true. */
  predicate Truthy(j: J)
  {
    match j
    case JNull => false
    case JBool(b) => b
    case JNum(n) => n != 0.0
    case JStr(s) => s != ""
    case JArr(es) => es != []
    case JObj(ms) => ms != []
  }

  /** Python's `a or b`: `a` when it is truthy, otherwise `b`. */
  function Or(a: J, b: J): (r: J)
    ensures Truthy(r) <==> Truthy(a) || Truthy(b)
    ensures Truthy(a) ==> r == a
    ensures !Truthy(a) ==> r == b
  {
    if Truthy(a) then a else b
  }

  /** Python's `d.get(key)` on the members of a dict: the value stored under `key`, or
      None (which is also what JSON null parses to) when the key is absent. */
  function Get(ms: seq<Member>, key: string): (v: J)
    ensures (forall i :: 0 <= i < |ms| ==> ms[i].key != key) ==> v == JNull
    ensures v != JNull ==> exists i :: 0 <= i < |ms| && ms[i] == Member(key, v)
    ensures forall i :: (0 <= i < |ms| && ms[i].key == key &&
                         (forall j :: 0 <= j < i ==> ms[j].key != key)) ==> v == ms[i].value
  {
    if ms == [] then JNull
    else if ms[0].key == key then ms[0].value
    else Get(ms[1..], key)
  }

  /** Python's `isinstance(v, (dict, list))`. */
  predicate IsContainer(j: J)
  {
    j.JArr? || j.JObj?
  }

  /** Number of nodes in a value. */
  function Size(j: J): nat
  {
    match j
    case JArr(es) => 1 + SizeOf(es)
    case JObj(ms) => 1 + SizeOfMembers(ms)
    case _ => 1
  }

  /** Total number of nodes in a sequence of values. */
  function SizeOf(es: seq<J>): nat
  {
    if es == [] then 0 else SizeOf(es[..|es| - 1]) + Size(es[|es| - 1])
  }

  /** Total number of nodes in the values of an object's members. */
  function SizeOfMembers(ms: seq<Member>): nat
  {
    if ms == [] then 0 else SizeOfMembers(ms[..|ms| - 1]) + Size(ms[|ms| - 1].value)
  }

  lemma {:induction false} SizeOfAppend(a: seq<J>, b: seq<J>)
    ensures SizeOf(a + b) == SizeOf(a) + SizeOf(b)
    decreases |b|
  {
    if b == [] {
      assert a + b == a;
    } else {
      assert (a + b)[..|a + b| - 1] == a + b[..|b| - 1];
      SizeOfAppend(a, b[..|b| - 1]);
    }
  }
}
