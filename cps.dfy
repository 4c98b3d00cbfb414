/** The continuation-passing intermediate form (`Continuations.CValue`,
    `Continuations.CExp`, `CExp.BindingSpec`).  Operands are atoms by
    construction: every operand position has type `CValue`. */
module Cps {
  import opened Lists

  datatype CValue = Number(value: int) | Var(name: string)

  datatype CExp =
    | App(fn: CValue, arguments: List<CValue>)
    | If(condition: CValue, ifTrue: CExp, ifFalse: CExp)
    | LetRec(bindings: List<BindingSpec>, cont: CExp)

  /** A procedure: user lambdas and reified continuations alike. */
  datatype BindingSpec = BindingSpec(name: string, formals: List<string>, definition: CExp)

  /** `e` is `within` or one of its sub-expressions, binding definitions
      included. */
  predicate Occurs(e: CExp, within: CExp)
    decreases within
  {
    e == within ||
    match within
    case App(_, _) => false
    case If(_, t, f) => Occurs(e, t) || Occurs(e, f)
    case LetRec(bs, body) => Occurs(e, body) || OccursInBindings(e, bs)
  }

  predicate OccursInBindings(e: CExp, bs: List<BindingSpec>)
    decreases bs
  {
    bs.Cons? && (Occurs(e, bs.head.definition) || OccursInBindings(e, bs.tail))
  }

  lemma {:induction false} OccursTransitive(a: CExp, b: CExp, c: CExp)
    requires Occurs(a, b) && Occurs(b, c)
    ensures Occurs(a, c)
    decreases c
  {
    if b != c {
      match c
      case If(_, t, f) =>
        if Occurs(b, t) { OccursTransitive(a, b, t); } else { OccursTransitive(a, b, f); }
      case LetRec(bs, body) =>
        if Occurs(b, body) { OccursTransitive(a, b, body); } else { OccursInBindingsTransitive(a, b, bs); }
    }
  }

  lemma {:induction false} OccursInBindingsTransitive(a: CExp, b: CExp, bs: List<BindingSpec>)
    requires Occurs(a, b) && OccursInBindings(b, bs)
    ensures OccursInBindings(a, bs)
    decreases bs
  {
    if Occurs(b, bs.head.definition) {
      OccursTransitive(a, b, bs.head.definition);
    } else {
      OccursInBindingsTransitive(a, b, bs.tail);
    }
  }
}
