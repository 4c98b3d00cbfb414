/** The two evaluators declare the same five built-ins; the CPS ones take
    one extra, last argument, the continuation, and pass their result to
    it instead of returning it.  This module states that correspondence. */
module BuiltinsAgreement {
  import opened Outcomes
  import opened Lists
  import N = NaiveInterpreter
  import C = CpsInterpreter

  /** The CPS built-in declared under the same name. */
  function ToCps(op: N.Primitive): C.Primitive {
    match op
    case ZeroP => C.ZeroP
    case Times => C.Times
    case Plus => C.Plus
    case Add => C.Add
    case Subtract => C.Subtract
  }

  /** A naive number or truth value as the CPS evaluator represents it. */
  function Carry(v: N.Value): C.Value {
    match v
    case Number(n) => C.Number(n)
    case Boolean(b) => C.Boolean(b)
    case _ => C.NoValue
  }

  /** The same numbers as argument lists of the two evaluators; the CPS one
      ends with the continuation `k`. */
  function NaiveNumbers(ns: seq<int>): (r: List<N.Value>)
    ensures r.Length() == |ns|
    ensures forall i | 0 <= i < |ns| :: r.Elements()[i] == N.Number(ns[i])
  {
    if ns == [] then Empty else Cons(N.Number(ns[0]), NaiveNumbers(ns[1..]))
  }

  function CpsNumbers(ns: seq<int>, k: C.Callable): (r: List<C.Value>)
    ensures r.Length() == |ns| + 1
    ensures forall i | 0 <= i < |ns| :: r.Elements()[i] == C.Number(ns[i])
    ensures r.Elements()[|ns|] == k
  {
    if ns == [] then Cons(k, Empty) else Cons(C.Number(ns[0]), CpsNumbers(ns[1..], k))
  }

  /** On numbers, each CPS built-in calls its continuation with exactly the
      value the naive built-in of the same name returns. */
  lemma BuiltinsAgree(op: N.Primitive, ns: seq<int>, k: C.Callable)
    requires |ns| == C.Arity(ToCps(op)) - 1
    ensures N.ApplyBuiltin(op, NaiveNumbers(ns)).Ok?
    ensures C.ApplyPrimitive(ToCps(op), CpsNumbers(ns, k)) ==
      Ok(C.NextCall(k, Cons(Carry(N.ApplyBuiltin(op, NaiveNumbers(ns)).value), Empty)))
  {
    // Follows by unfolding both built-ins on the element facts of
    // `NaiveNumbers` and `CpsNumbers`.
  }
}
