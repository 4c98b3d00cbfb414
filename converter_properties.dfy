/** What the CPS conversion guarantees: when it fails, that its meta-level
    continuation is always reached with an atom, the shape of each case, the
    order of arguments, and the freshness of the names it draws. */
module ConverterProperties {
  import opened Outcomes
  import opened Lists
  import opened Options
  import opened Names
  import opened Cps
  import opened Converter
  import S = Syntax

  // ---------------------------------------------------------------------
  // Conversion-time failures

  /** Every `Conditional` the converter visits has an else-branch, and every
      `LetRec` binding it visits is a `Lambda`.  Statements are never
      visited. */
  predicate Convertible(a: S.Ast)
    decreases a
  {
    match a
    case Number(_) => true
    case Ident(_) => true
    case Lambda(_, _, ret) => Convertible(ret)
    case Call(fn, args) => Convertible(fn) && AllConvertible(args)
    case LetRec(bs, _, ret) => BindingsConvertible(bs) && Convertible(ret)
    case Conditional(test, t, f) =>
      f.Some? && Convertible(test) && Convertible(t) && Convertible(f.value)
  }

  predicate AllConvertible(es: List<S.Ast>)
    decreases es
  {
    es.Cons? ==> Convertible(es.head) && AllConvertible(es.tail)
  }

  predicate BindingsConvertible(bs: List<S.BindingSpec>)
    decreases bs
  {
    bs.Cons? ==>
      bs.head.expr.Lambda? && Convertible(bs.head.expr.returnExpr) && BindingsConvertible(bs.tail)
  }

  /** The expressions a continuation still has to convert are convertible. */
  predicate ContConvertible(k: Cont) {
    match k
    case Halt => true
    case Return(_) => true
    case CallArgs(args, _) => AllConvertible(args)
    case ManyRest(rest, _) => AllConvertible(rest)
    case Branch(_, _, _, _, outer) => ContConvertible(outer)
  }

  /** A list continuation never fails and draws no names. */
  lemma {:induction false} ApplyListContSucceeds(k: ListCont, vs: List<CValue>, s: Supply)
    ensures ApplyListCont(k, vs, s).Ok? && ApplyListCont(k, vs, s).value.1 == s
    decreases k
  {
    if k.ConsOnto? {
      ApplyListContSucceeds(k.next, Cons(k.hd, vs), s);
    }
  }

  lemma {:induction false} ConvertSucceeds(a: S.Ast, k: Cont, s: Supply)
    ensures Convert(a, k, s).Ok? <==> Convertible(a) && ContConvertible(k)
    decreases S.Size(a) + ContSize(k), 2
  {
    match a
    case Number(n) => ApplyContSucceeds(k, Number(n), s);
    case Ident(x) => ApplyContSucceeds(k, Var(x), s);
    case Lambda(formals, _, ret) =>
      var (f, s1) := GenVar(s);
      var (kn, s2) := GenCont(s1);
      ConvertSucceeds(ret, Return(kn), s2);
      var body := Convert(ret, Return(kn), s2);
      if body.Ok? {
        ApplyContSucceeds(k, Var(f), body.value.1);
      }
    case Call(fn, args) =>
      var (r, s1) := GenCont(s);
      var (x, s2) := GenCont(s1);
      ConvertSucceeds(fn, CallArgs(args, r), s2);
      var app := Convert(fn, CallArgs(args, r), s2);
      if app.Ok? {
        ApplyContSucceeds(k, Var(x), app.value.1);
      }
    case LetRec(bs, _, ret) =>
      ConvertBindingsSucceed(bs, s);
      var converted := ConvertBindings(bs, s);
      if converted.Ok? {
        ConvertSucceeds(ret, k, converted.value.1);
      }
    case Conditional(test, ifTrue, ifFalse) =>
      var (kn, s1) := GenCont(s);
      var (x, s2) := GenVar(s1);
      ConvertSucceeds(ifTrue, Return(kn), s2);
      var t := Convert(ifTrue, Return(kn), s2);
      if t.Ok? && ifFalse.Some? {
        ConvertSucceeds(ifFalse.value, Return(kn), t.value.1);
        var f := Convert(ifFalse.value, Return(kn), t.value.1);
        if f.Ok? {
          ConvertSucceeds(test, Branch(kn, x, t.value.0, f.value.0, k), f.value.1);
        }
      }
  }

  lemma {:induction false} ApplyContSucceeds(k: Cont, v: CValue, s: Supply)
    ensures ApplyCont(k, v, s).Ok? <==> ContConvertible(k)
    decreases ContSize(k), 1
  {
    match k
    case Halt =>
    case Return(_) =>
    case CallArgs(args, r) => ConvertManySucceeds(args, ApplyTo(v, r), s);
    case ManyRest(rest, next) => ConvertManySucceeds(rest, ConsOnto(v, next), s);
    case Branch(_, x, _, _, outer) => ApplyContSucceeds(outer, Var(x), s);
  }

  lemma {:induction false} ConvertManySucceeds(es: List<S.Ast>, k: ListCont, s: Supply)
    ensures ConvertMany(es, k, s).Ok? <==> AllConvertible(es)
    decreases S.SizeOfAll(es) + ListContSize(k), 2
  {
    match es
    case Empty => ApplyListContSucceeds(k, Empty, s);
    case Cons(h, t) => ConvertSucceeds(h, ManyRest(t, k), s);
  }

  lemma {:induction false} ConvertBindingsSucceed(bs: List<S.BindingSpec>, s: Supply)
    ensures ConvertBindings(bs, s).Ok? <==> BindingsConvertible(bs)
    decreases S.SizeOfBindings(bs), 2
  {
    match bs
    case Empty =>
    case Cons(b, t) =>
      if b.expr.Lambda? {
        var (w, s1) := GenCont(s);
        assert S.Size(b.expr.returnExpr) < S.Size(b.expr);
        ConvertSucceeds(b.expr.returnExpr, Return(w), s1);
        var head := ConvertBinding(b, s);
        if head.Ok? {
          ConvertBindingsSucceed(t, head.value.1);
        }
      }
  }

  /** `compile` throws exactly when some visited conditional lacks an else
      or some visited letrec binds a non-lambda. */
  lemma CompileSucceeds(a: S.Ast)
    ensures Compile(a).Ok? <==> Convertible(a)
  {
    ConvertSucceeds(a, Halt, Initial);
  }

  /** A conditional without an else-branch never converts. */
  lemma MissingElseFails(test: S.Ast, ifTrue: S.Ast, k: Cont, s: Supply)
    ensures Convert(S.Conditional(test, ifTrue, None), k, s).Err?
    ensures Convert(ifTrue, Return(GenCont(s).0), GenVar(GenCont(s).1).1).Ok? ==>
      Convert(S.Conditional(test, ifTrue, None), k, s) == Err(MissingElse)
  {
  }

  /** A letrec binding whose right-hand side is not a lambda never converts,
      and the error names it when the bindings before it convert. */
  lemma {:induction false} NonLambdaBindingFails(bs: List<S.BindingSpec>, s: Supply, i: int)
    requires 0 <= i < bs.Length() && !bs.Elements()[i].expr.Lambda?
    ensures ConvertBindings(bs, s).Err?
    ensures i == 0 ==> ConvertBindings(bs, s) == Err(NotALambda(bs.head.identifier))
    decreases bs
  {
    if i > 0 {
      var head := ConvertBinding(bs.head, s);
      if head.Ok? {
        NonLambdaBindingFails(bs.tail, head.value.1, i - 1);
      }
    }
  }

  // ---------------------------------------------------------------------
  // Every continuation is reached with an atom; argument order

  /** The operand an atomic expression converts to. */
  function Atom(a: S.Ast): CValue
    requires S.IsAtom(a)
  {
    if a.Number? then Number(a.value) else Var(a.name)
  }

  /** `v` is one of the names drawn while the counter ran from `lo` up to
      `hi`. */
  predicate DrawnIn(v: CValue, lo: nat, hi: nat) {
    exists j: nat | lo <= j < hi :: v == Var(VarName(j)) || v == Var(ContName(j))
  }

  /** The operand a conversion of `a` hands to its continuation, when the
      counter ran from `lo` to `hi` in between: an atom's own atom; for a
      lambda, call or conditional a name drawn in that span; for a letrec,
      what its return expression hands on. */
  predicate Hands(a: S.Ast, v: CValue, lo: nat, hi: nat)
    decreases a
  {
    match a
    case LetRec(_, _, ret) => Hands(ret, v, lo, hi)
    case _ => if S.IsAtom(a) then v == Atom(a) else DrawnIn(v, lo, hi)
  }

  /** A wider span still contains what was handed on. */
  lemma {:induction false} HandsWiden(a: S.Ast, v: CValue, lo: nat, hi: nat, lo': nat, hi': nat)
    requires Hands(a, v, lo, hi) && lo' <= lo && hi <= hi'
    ensures Hands(a, v, lo', hi')
    decreases a
  {
    if a.LetRec? {
      HandsWiden(a.returnExpr, v, lo, hi, lo', hi');
    } else if !S.IsAtom(a) {
      var j: nat :| lo <= j < hi && (v == Var(VarName(j)) || v == Var(ContName(j)));
      assert lo' <= j < hi';
    }
  }

  /** Converting `a` with `k` produces, somewhere inside the output, what
      `k` makes of the operand `a` hands on, in the supply state `t` at that
      moment; for an atomic `a` the output is exactly `k` applied to its
      atom. */
  lemma {:induction false} ConvertReachesCont(a: S.Ast, k: Cont, s: Supply)
    ensures S.IsAtom(a) ==> Convert(a, k, s) == ApplyCont(k, Atom(a), s)
    ensures Convert(a, k, s).Ok? ==>
      exists v: CValue, t: Supply ::
        ApplyCont(k, v, t).Ok? && Occurs(ApplyCont(k, v, t).value.0, Convert(a, k, s).value.0) &&
        s.lastVar <= t.lastVar && Hands(a, v, s.lastVar, t.lastVar)
    decreases a
  {
    var r := Convert(a, k, s);
    if r.Ok? {
      match a
      case Number(n) =>
        assert ApplyCont(k, Number(n), s).Ok? && Occurs(ApplyCont(k, Number(n), s).value.0, r.value.0);
        assert Hands(a, Number(n), s.lastVar, s.lastVar);
      case Ident(x) =>
        assert ApplyCont(k, Var(x), s).Ok? && Occurs(ApplyCont(k, Var(x), s).value.0, r.value.0);
        assert Hands(a, Var(x), s.lastVar, s.lastVar);
      case Lambda(formals, _, ret) =>
        assert r == ConvertLambda(a, k, s);
        var (f, s1) := GenVar(s);
        var (kn, s2) := GenCont(s1);
        var body := Convert(ret, Return(kn), s2).value;
        var rest := ApplyCont(k, Var(f), body.1);
        assert r.value.0.cont == rest.value.0;
        assert Occurs(rest.value.0, r.value.0);
        assert Var(f) == Var(VarName(s.lastVar));
        assert Hands(a, Var(f), s.lastVar, body.1.lastVar);
      case Call(fn, args) =>
        assert r == ConvertCall(a, k, s);
        var (rn, s1) := GenCont(s);
        var (x, s2) := GenCont(s1);
        var app := Convert(fn, CallArgs(args, rn), s2).value;
        var def := ApplyCont(k, Var(x), app.1);
        assert r.value.0.bindings.head.definition == def.value.0;
        assert Occurs(def.value.0, r.value.0);
        assert Var(x) == Var(ContName(s.lastVar + 1));
        assert Hands(a, Var(x), s.lastVar, app.1.lastVar);
      case LetRec(bs, _, ret) =>
        assert r == ConvertLetRec(a, k, s);
        var converted := ConvertBindings(bs, s).value;
        ConvertReachesCont(ret, k, converted.1);
        var v: CValue, t: Supply :| ApplyCont(k, v, t).Ok? &&
          Occurs(ApplyCont(k, v, t).value.0, Convert(ret, k, converted.1).value.0) &&
          converted.1.lastVar <= t.lastVar && Hands(ret, v, converted.1.lastVar, t.lastVar);
        OccursTransitive(ApplyCont(k, v, t).value.0, Convert(ret, k, converted.1).value.0, r.value.0);
        HandsWiden(ret, v, converted.1.lastVar, t.lastVar, s.lastVar, t.lastVar);
      case Conditional(test, ifTrue, ifFalse) =>
        assert r == ConvertConditional(a, k, s);
        var (kn, s1) := GenCont(s);
        var (x, s2) := GenVar(s1);
        var tb := Convert(ifTrue, Return(kn), s2).value;
        var fb := Convert(ifFalse.value, Return(kn), tb.1).value;
        var branch := Branch(kn, x, tb.0, fb.0, k);
        ConvertReachesCont(test, branch, fb.1);
        var v: CValue, t: Supply :| ApplyCont(branch, v, t).Ok? &&
          Occurs(ApplyCont(branch, v, t).value.0, r.value.0) &&
          fb.1.lastVar <= t.lastVar;
        var joined := ApplyCont(k, Var(x), t);
        assert ApplyCont(branch, v, t).value.0.bindings.head.definition == joined.value.0;
        assert Occurs(joined.value.0, ApplyCont(branch, v, t).value.0);
        OccursTransitive(joined.value.0, ApplyCont(branch, v, t).value.0, r.value.0);
        assert Var(x) == Var(VarName(s.lastVar + 1));
        assert Hands(a, Var(x), s.lastVar, t.lastVar);
    }
  }

  /** `vs` has one operand per expression of `es`, and the counter spans
      `bounds[i]` to `bounds[i + 1]`, which follow each other in source
      order, are the ones during which expression `i` was converted up to
      the point where it handed on `vs[i]`. */
  predicate PassesAtoms(es: List<S.Ast>, vs: List<CValue>, bounds: seq<nat>) {
    vs.Length() == es.Length() && |bounds| == es.Length() + 1 &&
    (forall i, j | 0 <= i <= j < |bounds| :: bounds[i] <= bounds[j]) &&
    forall i | 0 <= i < es.Length() :: Hands(es.Elements()[i], vs.Elements()[i], bounds[i], bounds[i + 1])
  }

  /** Converting one more expression in front, in the span just before
      the others, extends the operands and spans at the head. */
  lemma PassesAtomsCons(h: S.Ast, tl: List<S.Ast>, v: CValue, vs: List<CValue>, lo: nat, bs: seq<nat>)
    requires PassesAtoms(tl, vs, bs) && lo <= bs[0] && Hands(h, v, lo, bs[0])
    ensures PassesAtoms(Cons(h, tl), Cons(v, vs), [lo] + bs)
  {
    var es, all, bounds := Cons(h, tl), Cons(v, vs), [lo] + bs;
    forall i, j | 0 <= i <= j < |bounds| ensures bounds[i] <= bounds[j] {
      if i > 0 {
        assert bounds[i] == bs[i - 1] && bounds[j] == bs[j - 1];
      } else if j > 0 {
        assert bounds[j] == bs[j - 1] && bs[0] <= bs[j - 1];
      }
    }
    forall i | 0 <= i < es.Length()
      ensures Hands(es.Elements()[i], all.Elements()[i], bounds[i], bounds[i + 1])
    {
      if i > 0 {
        assert es.Elements()[i] == tl.Elements()[i - 1];
        assert all.Elements()[i] == vs.Elements()[i - 1];
        assert bounds[i] == bs[i - 1] && bounds[i + 1] == bs[i];
      }
    }
  }

  /** `convertMany` hands its list continuation one operand per expression,
      converting the expressions head first: the atom of each atomic
      expression sits at that expression's index, and every name an
      expression hands on was drawn after those of the expressions before
      it and before those of the expressions after it. */
  lemma {:induction false} ConvertManyReachesCont(es: List<S.Ast>, k: ListCont, s: Supply)
    ensures ConvertMany(es, k, s).Ok? ==>
      exists vs: List<CValue>, t: Supply, bounds: seq<nat> ::
        PassesAtoms(es, vs, bounds) && bounds[0] == s.lastVar && bounds[|bounds| - 1] <= t.lastVar &&
        ApplyListCont(k, vs, t).Ok? &&
        Occurs(ApplyListCont(k, vs, t).value.0, ConvertMany(es, k, s).value.0)
    decreases es, 1
  {
    var r := ConvertMany(es, k, s);
    if r.Ok? {
      match es
      case Empty =>
        ApplyListContSucceeds(k, Empty, s);
        assert PassesAtoms(es, Empty, [s.lastVar]);
        assert ApplyListCont(k, Empty, s).Ok? && Occurs(ApplyListCont(k, Empty, s).value.0, r.value.0);
      case Cons(h, tl) =>
        ConvertManyReachesContCons(h, tl, k, s);
    }
  }

  /** The `Cons` case of `ConvertManyReachesCont`: the head is converted
      first and hands its operand to the conversion of the tail. */
  lemma {:induction false} ConvertManyReachesContCons(h: S.Ast, tl: List<S.Ast>, k: ListCont, s: Supply)
    requires ConvertMany(Cons(h, tl), k, s).Ok?
    ensures exists vs: List<CValue>, t: Supply, bounds: seq<nat> ::
      PassesAtoms(Cons(h, tl), vs, bounds) && bounds[0] == s.lastVar && bounds[|bounds| - 1] <= t.lastVar &&
      ApplyListCont(k, vs, t).Ok? &&
      Occurs(ApplyListCont(k, vs, t).value.0, ConvertMany(Cons(h, tl), k, s).value.0)
    decreases Cons(h, tl), 0
  {
    var es := Cons(h, tl);
    var r := ConvertMany(es, k, s);
    assert r == Convert(h, ManyRest(tl, k), s);
    ConvertReachesCont(h, ManyRest(tl, k), s);
    var v: CValue, t: Supply :| ApplyCont(ManyRest(tl, k), v, t).Ok? &&
      Occurs(ApplyCont(ManyRest(tl, k), v, t).value.0, r.value.0) &&
      s.lastVar <= t.lastVar && Hands(h, v, s.lastVar, t.lastVar);
    var inner := ConvertMany(tl, ConsOnto(v, k), t);
    assert inner == ApplyCont(ManyRest(tl, k), v, t);
    ConvertManyReachesCont(tl, ConsOnto(v, k), t);
    var vs: List<CValue>, t': Supply, bs: seq<nat> :| PassesAtoms(tl, vs, bs) &&
      bs[0] == t.lastVar && bs[|bs| - 1] <= t'.lastVar &&
      ApplyListCont(ConsOnto(v, k), vs, t').Ok? &&
      Occurs(ApplyListCont(ConsOnto(v, k), vs, t').value.0, inner.value.0);
    var all := Cons(v, vs);
    var bounds := [s.lastVar] + bs;
    assert ApplyListCont(ConsOnto(v, k), vs, t') == ApplyListCont(k, all, t');
    OccursTransitive(ApplyListCont(k, all, t').value.0, inner.value.0, r.value.0);
    PassesAtomsCons(h, tl, v, vs, s.lastVar, bs);
    assert bounds[|bounds| - 1] == bs[|bs| - 1];
    var out := ApplyListCont(k, all, t');
    assert PassesAtoms(es, all, bounds) && bounds[0] == s.lastVar && bounds[|bounds| - 1] <= t'.lastVar &&
      out.Ok? && Occurs(out.value.0, r.value.0);
  }

  /** The operands of a list of atomic expressions, in order. */
  function Atoms(es: List<S.Ast>): (vs: List<CValue>)
    requires S.AllAtoms(es)
    ensures vs.Length() == es.Length()
    ensures forall i | 0 <= i < es.Length() :: S.IsAtom(es.Elements()[i]) && vs.Elements()[i] == Atom(es.Elements()[i])
    decreases es
  {
    if es.Empty? then Empty else Cons(Atom(es.head), Atoms(es.tail))
  }

  /** For atomic expressions `convertMany` draws no names and passes exactly
      their atoms, in order. */
  lemma {:induction false} ConvertManyAtomic(es: List<S.Ast>, k: ListCont, s: Supply)
    requires S.AllAtoms(es)
    ensures ConvertMany(es, k, s) == ApplyListCont(k, Atoms(es), s)
    decreases es
  {
    if es.Cons? {
      ConvertReachesCont(es.head, ManyRest(es.tail, k), s);
      ConvertManyAtomic(es.tail, ConsOnto(Atom(es.head), k), s);
    }
  }

  // ---------------------------------------------------------------------
  // The shape of each case

  /** A call: one continuation binding `r` with the single formal `x`, whose
      body is the outer continuation applied to `x`; inside, the call proper
      passes the callee's operand, then one operand per argument, then
      `Var(r)`.  The callee is converted first: what it hands on was drawn
      in a counter span that ends where the arguments' spans begin. */
  lemma CallShape(fn: S.Ast, args: List<S.Ast>, k: Cont, s: Supply)
    ensures var r := Convert(S.Call(fn, args), k, s);
      r.Ok? ==>
        var e := r.value.0;
        e.LetRec? && e.bindings.Length() == 1 &&
        e.bindings.head.name == ContName(s.lastVar) &&
        e.bindings.head.formals == Cons(ContName(s.lastVar + 1), Empty) &&
        (exists t :: ApplyCont(k, Var(e.bindings.head.formals.head), t) == Ok((e.bindings.head.definition, r.value.1))) &&
        exists f: CValue, vs: List<CValue>, bounds: seq<nat> ::
          PassesAtoms(args, vs, bounds) && s.lastVar + 2 <= bounds[0] &&
          Hands(fn, f, s.lastVar + 2, bounds[0]) &&
          Occurs(App(f, vs.Append(Var(ContName(s.lastVar)))), e.cont)
  {
    var rn := ContName(s.lastVar);
    var x := ContName(s.lastVar + 1);
    var s2 := GenCont(GenCont(s).1).1;
    var app := Convert(fn, CallArgs(args, rn), s2);
    var r := Convert(S.Call(fn, args), k, s);
    assert r == ConvertCall(S.Call(fn, args), k, s);
    if r.Ok? {
      assert ApplyCont(k, Var(x), app.value.1) == Ok((r.value.0.bindings.head.definition, r.value.1));
      CallOperands(fn, args, rn, s2);
    }
  }

  /** The inside of a converted call: the callee is converted first, its
      operand then goes with the arguments' operands and `Var(rn)` into one
      application. */
  lemma CallOperands(fn: S.Ast, args: List<S.Ast>, rn: string, s2: Supply)
    requires Convert(fn, CallArgs(args, rn), s2).Ok?
    ensures exists f: CValue, vs: List<CValue>, bounds: seq<nat> ::
      PassesAtoms(args, vs, bounds) && s2.lastVar <= bounds[0] &&
      Hands(fn, f, s2.lastVar, bounds[0]) &&
      Occurs(App(f, vs.Append(Var(rn))), Convert(fn, CallArgs(args, rn), s2).value.0)
  {
    var app := Convert(fn, CallArgs(args, rn), s2);
    ConvertReachesCont(fn, CallArgs(args, rn), s2);
    var f: CValue, t: Supply :| ApplyCont(CallArgs(args, rn), f, t).Ok? &&
      Occurs(ApplyCont(CallArgs(args, rn), f, t).value.0, app.value.0) &&
      s2.lastVar <= t.lastVar && Hands(fn, f, s2.lastVar, t.lastVar);
    ConvertManyReachesCont(args, ApplyTo(f, rn), t);
    var vs: List<CValue>, t': Supply, bounds: seq<nat> :| PassesAtoms(args, vs, bounds) &&
      bounds[0] == t.lastVar && bounds[|bounds| - 1] <= t'.lastVar &&
      ApplyListCont(ApplyTo(f, rn), vs, t').Ok? &&
      Occurs(ApplyListCont(ApplyTo(f, rn), vs, t').value.0, ConvertMany(args, ApplyTo(f, rn), t).value.0);
    assert ApplyListCont(ApplyTo(f, rn), vs, t').value.0 == App(f, vs.Append(Var(rn)));
    assert ApplyCont(CallArgs(args, rn), f, t) == ConvertMany(args, ApplyTo(f, rn), t);
    OccursTransitive(App(f, vs.Append(Var(rn))), ApplyCont(CallArgs(args, rn), f, t).value.0, app.value.0);
  }

  /** With an atomic callee and atomic arguments the call converts to exactly
      `(letrec ((r (x) k[x])) (f a1 .. an r))`: the callee first, then the
      arguments in order, then the return continuation. */
  lemma AtomicCall(fn: S.Ast, args: List<S.Ast>, k: Cont, s: Supply)
    requires S.IsAtom(fn) && S.AllAtoms(args)
    ensures var rn := ContName(s.lastVar);
      var x := ContName(s.lastVar + 1);
      var def := ApplyCont(k, Var(x), GenCont(GenCont(s).1).1);
      Convert(S.Call(fn, args), k, s) ==
        if def.Err? then Err(def.error)
        else Ok((LetRec(Cons(BindingSpec(rn, Cons(x, Empty), def.value.0), Empty),
                        App(Atom(fn), Atoms(args).Append(Var(rn)))),
                 def.value.1))
  {
    var rn := ContName(s.lastVar);
    var s2 := GenCont(GenCont(s).1).1;
    ConvertReachesCont(fn, CallArgs(args, rn), s2);
    ConvertManyAtomic(args, ApplyTo(Atom(fn), rn), s2);
  }

  /** A lambda: one binding of a fresh `$$var` name whose formals are the
      source formals followed by one fresh continuation name, whose body
      returns to that name, and the outer continuation receives the name. */
  lemma LambdaShape(formals: List<string>, stmts: List<S.Ast>, ret: S.Ast, k: Cont, s: Supply)
    ensures var r := Convert(S.Lambda(formals, stmts, ret), k, s);
      r.Ok? ==>
        var e := r.value.0;
        e.LetRec? && e.bindings.Length() == 1 &&
        e.bindings.head.name == VarName(s.lastVar) &&
        e.bindings.head.formals.Elements() == formals.Elements() + [ContName(s.lastVar + 1)] &&
        (exists v: CValue :: Occurs(App(Var(ContName(s.lastVar + 1)), Cons(v, Empty)), e.bindings.head.definition)) &&
        exists t :: ApplyCont(k, Var(VarName(s.lastVar)), t) == Ok((e.cont, r.value.1))
  {
    var kn := ContName(s.lastVar + 1);
    var s2 := GenCont(GenVar(s).1).1;
    var body := Convert(ret, Return(kn), s2);
    var r := Convert(S.Lambda(formals, stmts, ret), k, s);
    assert r == ConvertLambda(S.Lambda(formals, stmts, ret), k, s);
    if r.Ok? {
      ConvertReachesCont(ret, Return(kn), s2);
      assert ApplyCont(k, Var(VarName(s.lastVar)), body.value.1) == Ok((r.value.0.cont, r.value.1));
    }
  }

  /** `out` is the binding `src` converted with continuation name
      `ContName(n)`: same name, the lambda's formals followed by that name. */
  predicate ConvertedBinding(src: S.BindingSpec, out: BindingSpec, n: nat) {
    src.expr.Lambda? && out.name == src.identifier &&
    out.formals.Elements() == src.expr.formals.Elements() + [ContName(n)]
  }

  /** A letrec keeps its bindings, count and identifiers, in order; each
      becomes a procedure whose formals are the lambda's formals followed by
      one continuation name drawn during this conversion, and the bindings
      are converted head first: their continuation counters increase along
      the list. */
  lemma ConvertBindingsShape(bs: List<S.BindingSpec>, s: Supply)
    ensures var r := ConvertBindings(bs, s);
      r.Ok? ==>
        r.value.0.Length() == bs.Length() &&
        exists ns: seq<nat> ::
          |ns| == bs.Length() &&
          (forall i, j | 0 <= i < j < |ns| :: ns[i] < ns[j]) &&
          forall i | 0 <= i < |ns| ::
            s.lastVar <= ns[i] < r.value.1.lastVar &&
            ConvertedBinding(bs.Elements()[i], r.value.0.Elements()[i], ns[i])
  {
    if ConvertBindings(bs, s).Ok? {
      var ns := BindingCounters(bs, s);
    }
  }

  /** The counters of `ConvertBindingsShape`, one per binding. */
  lemma {:induction false} BindingCounters(bs: List<S.BindingSpec>, s: Supply) returns (ns: seq<nat>)
    requires ConvertBindings(bs, s).Ok?
    ensures var r := ConvertBindings(bs, s).value;
      r.0.Length() == bs.Length() && |ns| == bs.Length() &&
      (forall i, j | 0 <= i < j < |ns| :: ns[i] < ns[j]) &&
      forall i | 0 <= i < |ns| ::
        s.lastVar <= ns[i] < r.1.lastVar &&
        ConvertedBinding(bs.Elements()[i], r.0.Elements()[i], ns[i])
    decreases bs
  {
    ns := [];
    if bs.Cons? {
      var head := ConvertBinding(bs.head, s).value;
      var tail := ConvertBindings(bs.tail, head.1).value;
      assert ConvertBindings(bs, s).value == (Cons(head.0, tail.0), tail.1);
      var rest := BindingCounters(bs.tail, head.1);
      assert ConvertedBinding(bs.head, head.0, s.lastVar);
      BindingsConsShape(bs.head, bs.tail, head.0, tail.0, s.lastVar, head.1.lastVar, tail.1.lastVar, rest);
      ns := [s.lastVar] + rest;
    }
  }

  /** The head binding, converted first with counter `lo`, goes in front of
      the tail's bindings, whose counters are all at least `mid > lo`. */
  lemma {:induction false} BindingsConsShape(b: S.BindingSpec, rest: List<S.BindingSpec>, out: BindingSpec, outs: List<BindingSpec>,
                          lo: nat, mid: nat, hi: nat, ns': seq<nat>)
    requires ConvertedBinding(b, out, lo) && lo < mid <= hi
    requires outs.Length() == rest.Length() && |ns'| == rest.Length()
    requires forall i, j | 0 <= i < j < |ns'| :: ns'[i] < ns'[j]
    requires forall i | 0 <= i < |ns'| :: mid <= ns'[i] < hi && ConvertedBinding(rest.Elements()[i], outs.Elements()[i], ns'[i])
    ensures var ns := [lo] + ns';
      (forall i, j | 0 <= i < j < |ns| :: ns[i] < ns[j]) &&
      forall i | 0 <= i < |ns| ::
        lo <= ns[i] < hi &&
        ConvertedBinding(Cons(b, rest).Elements()[i], Cons(out, outs).Elements()[i], ns[i])
  {
    var ns := [lo] + ns';
    forall i, j | 0 <= i < j < |ns| ensures ns[i] < ns[j] {
      assert ns[j] == ns'[j - 1];
      if i > 0 {
        assert ns[i] == ns'[i - 1];
      }
    }
    forall i | 0 <= i < |ns|
      ensures lo <= ns[i] < hi &&
        ConvertedBinding(Cons(b, rest).Elements()[i], Cons(out, outs).Elements()[i], ns[i])
    {
      if i > 0 {
        assert ns[i] == ns'[i - 1];
        assert Cons(b, rest).Elements()[i] == rest.Elements()[i - 1];
        assert Cons(out, outs).Elements()[i] == outs.Elements()[i - 1];
      }
    }
  }

  /** A letrec converts to a letrec over its converted bindings. */
  lemma LetRecShape(bs: List<S.BindingSpec>, stmts: List<S.Ast>, ret: S.Ast, k: Cont, s: Supply)
    ensures var r := Convert(S.LetRec(bs, stmts, ret), k, s);
      r.Ok? ==>
        r.value.0.LetRec? && ConvertBindings(bs, s).Ok? &&
        r.value.0.bindings == ConvertBindings(bs, s).value.0 &&
        r.value.0.bindings.Length() == bs.Length() &&
        forall i | 0 <= i < bs.Length() :: r.value.0.bindings.Elements()[i].name == bs.Elements()[i].identifier
  {
    ConvertBindingsShape(bs, s);
  }

  /** A conditional with an atomic test: the join continuation `k` (formal
      `x`) is bound around an `If` on the test's atom whose branches both
      return to `k`. */
  lemma AtomicConditional(test: S.Ast, ifTrue: S.Ast, ifFalse: S.Ast, k: Cont, s: Supply)
    requires S.IsAtom(test)
    ensures var r := Convert(S.Conditional(test, ifTrue, Some(ifFalse)), k, s);
      r.Ok? ==>
        var kn := ContName(s.lastVar);
        var e := r.value.0;
        e.LetRec? && e.bindings.Length() == 1 &&
        e.bindings.head.name == kn &&
        e.bindings.head.formals == Cons(VarName(s.lastVar + 1), Empty) &&
        e.cont.If? && e.cont.condition == Atom(test) &&
        (exists v: CValue :: Occurs(App(Var(kn), Cons(v, Empty)), e.cont.ifTrue)) &&
        (exists v: CValue :: Occurs(App(Var(kn), Cons(v, Empty)), e.cont.ifFalse))
  {
    var kn := ContName(s.lastVar);
    var x := VarName(s.lastVar + 1);
    var s2 := GenVar(GenCont(s).1).1;
    var c := S.Conditional(test, ifTrue, Some(ifFalse));
    var r := Convert(c, k, s);
    assert r == ConvertConditional(c, k, s);
    var t := Convert(ifTrue, Return(kn), s2);
    if r.Ok? {
      var f := Convert(ifFalse, Return(kn), t.value.1);
      var branch := Branch(kn, x, t.value.0, f.value.0, k);
      assert r == Convert(test, branch, f.value.1);
      ConvertReachesCont(test, branch, f.value.1);
      var o := ApplyCont(k, Var(x), f.value.1);
      assert r == ApplyCont(branch, Atom(test), f.value.1);
      assert r.value.0 == LetRec(Cons(BindingSpec(kn, Cons(x, Empty), o.value.0), Empty), If(Atom(test), t.value.0, f.value.0));
      ConvertReachesCont(ifTrue, Return(kn), s2);
      var v1: CValue, u1: Supply :| ApplyCont(Return(kn), v1, u1).Ok? &&
        Occurs(ApplyCont(Return(kn), v1, u1).value.0, t.value.0);
      assert Occurs(App(Var(kn), Cons(v1, Empty)), t.value.0);
      ConvertReachesCont(ifFalse, Return(kn), t.value.1);
      var v2: CValue, u2: Supply :| ApplyCont(Return(kn), v2, u2).Ok? &&
        Occurs(ApplyCont(Return(kn), v2, u2).value.0, f.value.0);
      assert Occurs(App(Var(kn), Cons(v2, Empty)), f.value.0);
    }
  }

  /** The top-level continuation is the halt call. */
  lemma CompileHalts(a: S.Ast)
    ensures Compile(a).Ok? ==> exists v: CValue :: Occurs(App(Var("$$HALT"), Cons(v, Empty)), Compile(a).value)
  {
    ConvertReachesCont(a, Halt, Initial);
  }

  // ---------------------------------------------------------------------
  // Fresh names

  /** In a well-formed supply no name was drawn twice. */
  lemma DrawnDistinct(s: Supply)
    requires WellFormed(s)
    ensures forall i, j | 0 <= i < j < |s.drawn| :: s.drawn[i] != s.drawn[j]
  {
    forall i, j | 0 <= i < j < |s.drawn| ensures s.drawn[i] != s.drawn[j] {
      FreshNamesDistinct(i, j);
      FreshNamesDistinct(j, i);
    }
  }

  /** `genVar` and `genCont` return a name not drawn before. */
  lemma GenFresh(s: Supply)
    requires WellFormed(s)
    ensures GenVar(s).0 !in s.drawn && WellFormed(GenVar(s).1)
    ensures GenCont(s).0 !in s.drawn && WellFormed(GenCont(s).1)
  {
    forall i | 0 <= i < |s.drawn| ensures s.drawn[i] != VarName(s.lastVar) && s.drawn[i] != ContName(s.lastVar) {
      FreshNamesDistinct(i, s.lastVar);
      FreshNamesDistinct(s.lastVar, i);
    }
  }

  /** All names drawn during one `compile` are pairwise distinct. */
  lemma CompileNamesDistinct(a: S.Ast)
    ensures var r := Convert(a, Halt, Initial);
      r.Ok? ==> forall i, j | 0 <= i < j < |r.value.1.drawn| :: r.value.1.drawn[i] != r.value.1.drawn[j]
  {
    var r := Convert(a, Halt, Initial);
    if r.Ok? {
      DrawnDistinct(r.value.1);
    }
  }

  /** `(+ 2 3)` compiles to `(letrec (($$cont0 ($$cont1) ($$HALT $$cont1))) (+ 2 3 $$cont0))`. */
  lemma CompileSum()
    ensures Compile(S.Call(S.Ident("+"), Cons(S.Number(2), Cons(S.Number(3), Empty)))) ==
      Ok(LetRec(Cons(BindingSpec("$$cont0", Cons("$$cont1", Empty), App(Var("$$HALT"), Cons(Var("$$cont1"), Empty))), Empty),
                App(Var("+"), Cons(Number(2), Cons(Number(3), Cons(Var("$$cont0"), Empty))))))
  {
    var args := Cons(S.Number(2), Cons(S.Number(3), Empty));
    assert ContName(0) == "$$cont0" && ContName(1) == "$$cont1";
    AtomicCall(S.Ident("+"), args, Halt, Initial);
    assert Atoms(args) == Cons(Number(2), Cons(Number(3), Empty));
  }
}
