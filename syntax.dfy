/** The abstract syntax handed to both evaluators by the parser.  The shape
    follows what the callers use: the repository's own `List` and `Option`,
    and the `LetRec` and `BindingSpec` records that `Parser.java` builds. */
module Syntax {
  import opened Lists
  import opened Options

  datatype Ast =
    | Call(fn: Ast, arguments: List<Ast>)
    | Number(value: int)
    | Ident(name: string)
    | Lambda(formals: List<string>, statements: List<Ast>, returnExpr: Ast)
    | Conditional(test: Ast, ifTrue: Ast, ifFalse: Option<Ast>)
    | LetRec(bindings: List<BindingSpec>, statements: List<Ast>, returnExpr: Ast)

  datatype BindingSpec = BindingSpec(identifier: string, expr: Ast)

  /** Numbers and identifiers need no sub-computation. */
  predicate IsAtom(a: Ast) {
    a.Number? || a.Ident?
  }

  /** Every element of the list is an atom. */
  predicate AllAtoms(es: List<Ast>)
    decreases es
  {
    es.Cons? ==> IsAtom(es.head) && AllAtoms(es.tail)
  }

  /** A size that every strict subtree is below.  The constants leave room
      for the termination measures of the converter's continuations. */
  function Size(a: Ast): (n: nat)
    ensures n >= 1
    decreases a
  {
    match a
    case Call(fn, args) => 2 + Size(fn) + SizeOfAll(args)
    case Number(_) => 1
    case Ident(_) => 1
    case Lambda(_, stmts, ret) => 1 + SizeOfAll(stmts) + Size(ret)
    case Conditional(test, ifTrue, ifFalse) =>
      1 + Size(test) + Size(ifTrue) + (if ifFalse.Some? then Size(ifFalse.value) else 0)
    case LetRec(bs, stmts, ret) => 1 + SizeOfBindings(bs) + SizeOfAll(stmts) + Size(ret)
  }

  function SizeOfAll(es: List<Ast>): nat
    decreases es
  {
    match es
    case Empty => 0
    case Cons(h, t) => 3 + Size(h) + SizeOfAll(t)
  }

  function SizeOfBindings(bs: List<BindingSpec>): nat
    decreases bs
  {
    match bs
    case Empty => 0
    case Cons(b, t) => 1 + Size(b.expr) + SizeOfBindings(t)
  }

  /** `AllAtoms`, position by position. */
  lemma {:induction false} AllAtomsElements(es: List<Ast>)
    ensures AllAtoms(es) <==> forall i | 0 <= i < es.Length() :: IsAtom(es.Elements()[i])
    decreases es
  {
    if es.Cons? {
      AllAtomsElements(es.tail);
      assert es.Elements()[0] == es.head;
      assert forall i | 0 < i < es.Length() :: es.Elements()[i] == es.tail.Elements()[i - 1];
      if forall i | 0 <= i < es.Length() :: IsAtom(es.Elements()[i]) {
        assert forall i | 0 <= i < es.tail.Length() :: IsAtom(es.tail.Elements()[i]) by {
          forall i | 0 <= i < es.tail.Length() ensures IsAtom(es.tail.Elements()[i]) {
            assert es.Elements()[i + 1] == es.tail.Elements()[i];
          }
        }
      }
    }
  }

  /** Every element of a list of expressions is smaller than the list. */
  lemma {:induction false} ElementSmaller(es: List<Ast>, i: int)
    requires 0 <= i < es.Length()
    ensures Size(es.Elements()[i]) < SizeOfAll(es)
    decreases es
  {
    if i > 0 {
      ElementSmaller(es.tail, i - 1);
    }
  }
}
