/** `Continuations.Converter`: the CPS transformation.

    The Java converter passes a meta-level continuation, a Java lambda from
    an atom to the rest of the output, and draws fresh names from one
    `lastVar` counter that some of those lambdas also use.  Here the lambdas
    are the constructors of `Cont` (an atom is expected) and `ListCont` (a
    list of atoms is expected), and the counter is a `Supply` threaded
    through every step in the order the Java code runs them. */
module Converter {
  import opened Outcomes
  import opened Lists
  import opened Options
  import opened Names
  import opened Cps
  import S = Syntax

  /** The two RuntimeExceptions the converter throws. */
  datatype ConvertError =
    | MissingElse                      // `ifFalse().map(...).get()` on None
    | NotALambda(identifier: string)   // "Can't do this (yet?)"

  /** `lastVar`, together with the log of every name drawn so far. */
  datatype Supply = Supply(lastVar: nat, drawn: seq<string>)

  /** The state of a `new Converter()`. */
  const Initial := Supply(0, [])

  /** `genVar()`: `"$$var" + lastVar++`.  The counter moves on by one and
      the name joins the log, which stays well formed. */
  function GenVar(s: Supply): (r: (string, Supply))
    ensures r.0 == VarName(s.lastVar)
    ensures r.1.lastVar == s.lastVar + 1 && r.1.drawn == s.drawn + [r.0]
    ensures Advances(s, r.1)
  {
    var name := VarName(s.lastVar);
    (name, Supply(s.lastVar + 1, s.drawn + [name]))
  }

  /** `genCont()`: `"$$cont" + lastVar++`, with the same bookkeeping. */
  function GenCont(s: Supply): (r: (string, Supply))
    ensures r.0 == ContName(s.lastVar)
    ensures r.1.lastVar == s.lastVar + 1 && r.1.drawn == s.drawn + [r.0]
    ensures Advances(s, r.1)
  {
    var name := ContName(s.lastVar);
    (name, Supply(s.lastVar + 1, s.drawn + [name]))
  }

  /** The log holds exactly one name per counter value consumed, the one
      `genVar` or `genCont` returns for that value. */
  ghost predicate WellFormed(s: Supply) {
    |s.drawn| == s.lastVar &&
    forall i | 0 <= i < |s.drawn| :: s.drawn[i] == VarName(i) || s.drawn[i] == ContName(i)
  }

  /** `t` is a later state of the run that was in state `s`. */
  ghost predicate Advances(s: Supply, t: Supply) {
    s.lastVar <= t.lastVar &&
    s.drawn <= t.drawn &&
    (WellFormed(s) ==> WellFormed(t))
  }

  /** The meta-level continuations that receive one atom. */
  datatype Cont =
    | Halt                                   // compile: x -> (Var("$$HALT") x)
    | Return(k: string)                      // z -> (Var(k) z)
    | CallArgs(args: List<S.Ast>, r: string) // f -> convertMany(args, ApplyTo(f, r))
    | ManyRest(rest: List<S.Ast>, next: ListCont) // hd -> convertMany(rest, ConsOnto(hd, next))
    | Branch(k: string, x: string, ifTrue: CExp, ifFalse: CExp, outer: Cont)
      // v -> letrec ((k (x) outer(Var(x)))) (if v ifTrue ifFalse)

  /** The meta-level continuations that receive a list of atoms. */
  datatype ListCont =
    | ApplyTo(f: CValue, r: string)          // args -> (f args... Var(r))
    | ConsOnto(hd: CValue, next: ListCont)   // tl -> then(Cons(hd, tl))

  function ContSize(k: Cont): nat {
    match k
    case Halt => 0
    case Return(_) => 0
    case CallArgs(args, _) => S.SizeOfAll(args) + 1
    case ManyRest(rest, next) => S.SizeOfAll(rest) + ListContSize(next) + 2
    case Branch(_, _, _, _, outer) => ContSize(outer) + 1
  }

  function ListContSize(k: ListCont): nat {
    match k
    case ApplyTo(_, _) => 0
    case ConsOnto(_, next) => ListContSize(next) + 1
  }

  type Conversion = Outcome<(CExp, Supply), ConvertError>

  /** `convert(ast, cont)`. */
  function Convert(ast: S.Ast, k: Cont, s: Supply): (r: Conversion)
    ensures r.Ok? ==> Advances(s, r.value.1)
    decreases S.Size(ast) + ContSize(k), 2
  {
    match ast
    case Number(n) => ApplyCont(k, Number(n), s)
    case Ident(x) => ApplyCont(k, Var(x), s)
    case Lambda(_, _, _) => ConvertLambda(ast, k, s)
    case Call(_, _) => ConvertCall(ast, k, s)
    case LetRec(_, _, _) => ConvertLetRec(ast, k, s)
    case Conditional(_, _, _) => ConvertConditional(ast, k, s)
  }

  /** A lambda becomes a named function with an extra continuation formal,
      passed to `k` by name. */
  function ConvertLambda(ast: S.Ast, k: Cont, s: Supply): (r: Conversion)
    requires ast.Lambda?
    ensures r.Ok? ==> Advances(s, r.value.1)
    decreases S.Size(ast) + ContSize(k), 1
  {
    var (f, s1) := GenVar(s);
    var (kn, s2) := GenCont(s1);
    var body :- Convert(ast.returnExpr, Return(kn), s2);
    var binding := BindingSpec(f, ast.formals.Append(kn), body.0);
    var rest :- ApplyCont(k, Var(f), body.1);
    Ok((LetRec(Cons(binding, Empty), rest.0), rest.1))
  }

  /** A call names its return continuation `r` (formal `x`), whose body is
      `k` applied to `x`, and then evaluates the callee and the arguments. */
  function ConvertCall(ast: S.Ast, k: Cont, s: Supply): (r: Conversion)
    requires ast.Call?
    ensures r.Ok? ==> Advances(s, r.value.1)
    decreases S.Size(ast) + ContSize(k), 1
  {
    var (rn, s1) := GenCont(s);
    var (x, s2) := GenCont(s1);
    var app :- Convert(ast.fn, CallArgs(ast.arguments, rn), s2);
    var def :- ApplyCont(k, Var(x), app.1);
    var binding := BindingSpec(rn, Cons(x, Empty), def.0);
    Ok((LetRec(Cons(binding, Empty), app.0), def.1))
  }

  /** A letrec keeps its (converted) bindings; its statements are dropped. */
  function ConvertLetRec(ast: S.Ast, k: Cont, s: Supply): (r: Conversion)
    requires ast.LetRec?
    ensures r.Ok? ==> Advances(s, r.value.1)
    decreases S.Size(ast) + ContSize(k), 1
  {
    var converted :- ConvertBindings(ast.bindings, s);
    var body :- Convert(ast.returnExpr, k, converted.1);
    Ok((LetRec(converted.0, body.0), body.1))
  }

  /** A conditional names the join continuation, converts both branches to
      return to it, and then evaluates the test. */
  function ConvertConditional(ast: S.Ast, k: Cont, s: Supply): (r: Conversion)
    requires ast.Conditional?
    ensures r.Ok? ==> Advances(s, r.value.1)
    decreases S.Size(ast) + ContSize(k), 1
  {
    var (kn, s1) := GenCont(s);
    var (x, s2) := GenVar(s1);
    var t :- Convert(ast.ifTrue, Return(kn), s2);
    match ast.ifFalse
    case None => Err(MissingElse)
    case Some(e) =>
      var f :- Convert(e, Return(kn), t.1);
      Convert(ast.test, Branch(kn, x, t.0, f.0, k), f.1)
  }

  /** `cont.apply(v)`. */
  function ApplyCont(k: Cont, v: CValue, s: Supply): (r: Conversion)
    ensures r.Ok? ==> Advances(s, r.value.1)
    decreases ContSize(k), 0
  {
    match k
    case Halt => Ok((App(Var("$$HALT"), Cons(v, Empty)), s))
    case Return(kn) => Ok((App(Var(kn), Cons(v, Empty)), s))
    case CallArgs(args, r) => ConvertMany(args, ApplyTo(v, r), s)
    case ManyRest(rest, next) => ConvertMany(rest, ConsOnto(v, next), s)
    case Branch(kn, x, t, f, outer) =>
      var o :- ApplyCont(outer, Var(x), s);
      Ok((LetRec(Cons(BindingSpec(kn, Cons(x, Empty), o.0), Empty), If(v, t, f)), o.1))
  }

  /** `convertMany(exprs, cont)`. */
  function ConvertMany(es: List<S.Ast>, k: ListCont, s: Supply): (r: Conversion)
    ensures r.Ok? ==> Advances(s, r.value.1)
    decreases S.SizeOfAll(es) + ListContSize(k), 1
  {
    match es
    case Empty => ApplyListCont(k, Empty, s)
    case Cons(h, t) => Convert(h, ManyRest(t, k), s)
  }

  /** `cont.apply(args)` for a list continuation. */
  function ApplyListCont(k: ListCont, vs: List<CValue>, s: Supply): (r: Conversion)
    ensures r.Ok? ==> Advances(s, r.value.1)
    decreases ListContSize(k), 0
  {
    match k
    case ApplyTo(f, r) => Ok((App(f, vs.Append(Var(r))), s))
    case ConsOnto(hd, next) => ApplyListCont(next, Cons(hd, vs), s)
  }

  /** `convertBinding(binding)`. */
  function ConvertBinding(b: S.BindingSpec, s: Supply): (r: Outcome<(BindingSpec, Supply), ConvertError>)
    ensures r.Ok? ==> Advances(s, r.value.1)
    decreases S.Size(b.expr), 1
  {
    match b.expr
    case Lambda(formals, _, ret) =>
      var (w, s1) := GenCont(s);
      var body :- Convert(ret, Return(w), s1);
      Ok((BindingSpec(b.identifier, formals.Append(w), body.0), body.1))
    case _ => Err(NotALambda(b.identifier))
  }

  /** `bindings().map(this::convertBinding)`: head first, then the tail. */
  function ConvertBindings(bs: List<S.BindingSpec>, s: Supply): (r: Outcome<(List<BindingSpec>, Supply), ConvertError>)
    ensures r.Ok? ==> Advances(s, r.value.1)
    decreases S.SizeOfBindings(bs), 1
  {
    match bs
    case Empty => Ok((Empty, s))
    case Cons(b, t) =>
      var head :- ConvertBinding(b, s);
      var tail :- ConvertBindings(t, head.1);
      Ok((Cons(head.0, tail.0), tail.1))
  }

  /** `Converter.compile(ast)`: a fresh converter and the halt continuation. */
  function Compile(ast: S.Ast): Outcome<CExp, ConvertError> {
    var r :- Convert(ast, Halt, Initial);
    Ok(r.0)
  }
}
