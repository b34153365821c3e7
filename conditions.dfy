/**
 * Field conditions: predicates over the part of a record decoded so far,
 * deciding whether a definition applies. The source builds `|` and `&` by
 * rewrapping `check` closures; here composition is a tree of constructors.
 */
module Conditions {
  import opened Wrappers
  import opened Structs

  /**
   * `Always` is the base `Condition` (its `check` is true), `Contains` tests
   * for a key, `ValueIs` compares a field's value with a constant using the
   * comparator string, `Or`/`And` are `|`/`&`.
   *
   * Two slips in the source are modelled by their evident intent: the
   * `Contains` constructor's parameter is spelt `neagtion` while its body
   * reads `negation`, and `ValueIs.check` compares with a bare `condition`
   * rather than the stored `self.condition`.
   */
  datatype Cond =
    | Always
    | Contains(field: string, negation: bool)
    | ValueIs(field: string, value: Value, op: string)
    | Or(left: Cond, right: Cond)
    | And(left: Cond, right: Cond)

  /** Why a `ValueIs` could not be built. */
  datatype ConditionError = InvalidCondition(op: string)

  /** The comparators `ValueIs` accepts for numbers; strings allow only the first two. */
  const EqualityOps: set<string> := {"==", "!="}
  const NumericOps: set<string> := {"==", "!=", "<", "<=", ">", ">="}

  /**
   * The `ValueIs` constructor: a string constant admits only `==`/`!=`, a
   * number only the six comparators; any other constant (a one-byte
   * character) is accepted with any comparator string.
   */
  function MakeValueIs(field: string, value: Value, op: string): (r: Result<Cond, ConditionError>)
    ensures r.Ok? <==> (value.StrV? ==> op in EqualityOps) && (value.IntV? ==> op in NumericOps)
    ensures r.Ok? ==> r.value == ValueIs(field, value, op)
    ensures r.Err? ==> r.error == InvalidCondition(op)
  {
    if value.StrV? && op !in EqualityOps then Err(InvalidCondition(op))
    else if value.IntV? && op !in NumericOps then Err(InvalidCondition(op))
    else Ok(ValueIs(field, value, op))
  }

  /** Python's `<` on byte strings: lexicographic, a proper prefix first. */
  predicate LexLess(a: seq<byte>, b: seq<byte>)
    decreases |a|
  {
    if a == [] then b != []
    else if b == [] then false
    else if a[0] != b[0] then a[0] < b[0]
    else LexLess(a[1..], b[1..])
  }

  /** Python's `<` on two values of the same type; values of different types are not ordered. */
  predicate Less(a: Value, b: Value) {
    match (a, b)
    case (IntV(x), IntV(y)) => x < y
    case (StrV(x), StrV(y)) => LexLess(x, y)
    case (CharV(x), CharV(y)) => x < y
    case _ => false
  }

  predicate SameType(a: Value, b: Value) {
    (a.IntV? && b.IntV?) || (a.StrV? && b.StrV?) || (a.CharV? && b.CharV?)
  }

  /** Python's `<=`. */
  predicate LessEq(a: Value, b: Value) {
    SameType(a, b) && (Less(a, b) || a == b)
  }

  /**
   * `value <op> constant`, as the chain of comparisons in `ValueIs.check`.
   * Only the six known comparators can hold, and an ordering comparison holds
   * only between values of one type (where Python raises `TypeError`).
   */
  predicate Compare(x: Value, op: string, v: Value)
    ensures Compare(x, op, v) ==> op in NumericOps
    ensures Compare(x, op, v) && op !in EqualityOps ==> SameType(x, v)
  {
    if op == "==" then x == v
    else if op == "!=" then x != v
    else if op == ">=" then LessEq(v, x)
    else if op == "<=" then LessEq(x, v)
    else if op == ">" then Less(v, x)
    else if op == "<" then Less(x, v)
    else false
  }

  /** `check(output)`. A `ValueIs` holds only on a present field with a known comparator. */
  predicate Eval(c: Cond, output: Record)
    ensures c.ValueIs? && Eval(c, output) ==> c.field in output && c.op in NumericOps
  {
    match c
    case Always => true
    case Contains(f, negation) => if f !in output then negation else !negation
    case ValueIs(f, v, op) => f in output && Compare(output[f], op, v)
    case Or(a, b) => Eval(a, output) || Eval(b, output)
    case And(a, b) => Eval(a, output) && Eval(b, output)
  }

  /** The fields a condition looks at. */
  function Fields(c: Cond): (fs: set<string>) {
    match c
    case Always => {}
    case Contains(f, _) => {f}
    case ValueIs(f, _, _) => {f}
    case Or(a, b) => Fields(a) + Fields(b)
    case And(a, b) => Fields(a) + Fields(b)
  }

  /** Two records agree on fs: each field of fs is in both or in neither, with the same value. */
  ghost predicate AgreeOn(fs: set<string>, r1: Record, r2: Record) {
    forall f :: f in fs ==> (f in r1 <==> f in r2) && (f in r1 ==> r1[f] == r2[f])
  }

  /** A condition's verdict depends on its own fields only. */
  lemma {:induction false} EvalDependsOnFields(c: Cond, r1: Record, r2: Record)
    requires AgreeOn(Fields(c), r1, r2)
    ensures Eval(c, r1) == Eval(c, r2)
  {
    match c
    case Always =>
    case Contains(f, _) =>
      assert f in Fields(c);
    case ValueIs(f, _, _) =>
      assert f in Fields(c);
    case Or(a, b) =>
      EvalDependsOnFields(a, r1, r2);
      EvalDependsOnFields(b, r1, r2);
    case And(a, b) =>
      EvalDependsOnFields(a, r1, r2);
      EvalDependsOnFields(b, r1, r2);
  }

  /** `Contains(f, negation)` holds exactly when the presence of f differs from negation. */
  lemma ContainsSemantics(f: string, negation: bool, output: Record)
    ensures Eval(Contains(f, negation), output) <==> (f in output) != negation
  {}

  /** `ValueIs` is false on an absent field, and false for a comparator it does not know. */
  lemma ValueIsSemantics(f: string, v: Value, op: string, output: Record)
    ensures f !in output ==> !Eval(ValueIs(f, v, op), output)
    ensures op !in NumericOps ==> !Eval(ValueIs(f, v, op), output)
  {}

  /** Byte-string order is trichotomous: exactly one of a < b, a == b, b < a (transitivity is `LexTransitive`). */
  lemma {:induction false} LexTrichotomy(a: seq<byte>, b: seq<byte>)
    ensures LexLess(a, b) || a == b || LexLess(b, a)
    ensures !(LexLess(a, b) && LexLess(b, a))
    ensures !(LexLess(a, b) && a == b)
    decreases |a|
  {
    if a != [] && b != [] && a[0] == b[0] {
      LexTrichotomy(a[1..], b[1..]);
      if a[1..] == b[1..] {
        assert a == [a[0]] + a[1..] && b == [b[0]] + b[1..];
      }
    }
  }

  /** Byte-string order is transitive, so with trichotomy it is a strict total order. */
  lemma {:induction false} LexTransitive(a: seq<byte>, b: seq<byte>, c: seq<byte>)
    requires LexLess(a, b) && LexLess(b, c)
    ensures LexLess(a, c)
    decreases |a|
  {
    if a != [] && b != [] && c != [] && a[0] == b[0] && b[0] == c[0] {
      LexTransitive(a[1..], b[1..], c[1..]);
    }
  }

  /** Values of one type are totally ordered by `Less`. */
  lemma LessTrichotomy(x: Value, v: Value)
    requires SameType(x, v)
    ensures Less(x, v) || x == v || Less(v, x)
    ensures !(Less(x, v) && Less(v, x))
    ensures !(Less(x, v) && x == v)
  {
    if x.StrV? {
      LexTrichotomy(x.s, v.s);
    }
  }

  /**
   * On a present field whose value has the constant's type, the comparators
   * pair up as complements: `<` against `>=`, `>` against `<=`, `==` against
   * `!=`; and `<=` is `<` or `==`.
   */
  lemma ComparatorsComplement(f: string, v: Value, output: Record)
    requires f in output && SameType(output[f], v)
    ensures Eval(ValueIs(f, v, "<"), output) <==> !Eval(ValueIs(f, v, ">="), output)
    ensures Eval(ValueIs(f, v, ">"), output) <==> !Eval(ValueIs(f, v, "<="), output)
    ensures Eval(ValueIs(f, v, "=="), output) <==> !Eval(ValueIs(f, v, "!="), output)
    ensures Eval(ValueIs(f, v, "<="), output)
            <==> Eval(ValueIs(f, v, "<"), output) || Eval(ValueIs(f, v, "=="), output)
  {
    LessTrichotomy(output[f], v);
  }

  /**
   * The class docstring's `Contains(field="foo") & ValueIs(field="foo",
   * value=4, condition="!=")` holds exactly when foo is present and not 4;
   * and `Contains("a") & ValueIs("b", 5, ">")` holds exactly when both parts
   * hold, `|` when either does.
   */
  lemma ComposedExample(output: Record)
    ensures Eval(And(Contains("foo", false), ValueIs("foo", IntV(4), "!=")), output)
            <==> "foo" in output && output["foo"] != IntV(4)
    ensures Eval(And(Contains("a", false), ValueIs("b", IntV(5), ">")), output)
            <==> "a" in output && "b" in output && output["b"].IntV? && output["b"].i > 5
    ensures Eval(Or(Contains("a", false), ValueIs("b", IntV(5), ">")), output)
            <==> "a" in output || ("b" in output && output["b"].IntV? && output["b"].i > 5)
  {}
}
