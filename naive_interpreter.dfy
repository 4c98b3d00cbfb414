/** `NaiveInterpreter`: a direct, environment-passing evaluator over the
    abstract syntax.  Unlike the CPS path it runs statements and treats a
    missing else-branch as `NoValue`.  Java recursion is unbounded; here
    every entry into a lambda body spends one unit of `fuel`. */
module NaiveInterpreter {
  import opened Outcomes
  import opened Lists
  import opened Options
  import opened Scopes
  import S = Syntax

  /** The built-ins of `Env.global`: `zero?`, `*`, `+`, `add`, `subtract`. */
  datatype Primitive = ZeroP | Times | Plus | Add | Subtract

  datatype Value =
    | Func(formals: List<string>, statements: List<S.Ast>, returnExpr: S.Ast, scope: Env<Value>)
    | Number(value: int)
    | Boolean(truth: bool)
    | BuiltinFunc(op: Primitive)
    | NoValue

  datatype RuntimeError =
    | UnboundVariable(name: string)
    | NotAFunction
    | WrongArity
    | NotANumber
    | IndexOutOfBounds(index: int)
    | OutOfFuel

  // ---------------------------------------------------------------------
  // Built-ins

  /** `arguments.get(i)`. */
  function Arg(args: List<Value>, i: int): Outcome<Value, RuntimeError> {
    match args.Get(i)
    case Ok(v) => Ok(v)
    case Err(e) => Err(RuntimeError.IndexOutOfBounds(e.index))
  }

  /** `((Number) v).value()`. */
  function AsNumber(v: Value): Outcome<int, RuntimeError> {
    if v.Number? then Ok(v.value) else Err(NotANumber)
  }

  /** The lambdas of `Env.global`: the operands are read and cast from left
      to right; extra arguments are ignored. */
  function ApplyBuiltin(op: Primitive, args: List<Value>): (r: Outcome<Value, RuntimeError>)
    ensures op == ZeroP ==> (r.Ok? <==> args.Length() >= 1)
    ensures op == ZeroP && r.Ok? ==> r.value == Boolean(args.Elements()[0] == Number(0))
    ensures op != ZeroP ==>
      (r.Ok? <==> args.Length() >= 2 && args.Elements()[0].Number? && args.Elements()[1].Number?)
    ensures op == Times && r.Ok? ==> r.value == Number(args.Elements()[0].value * args.Elements()[1].value)
    ensures (op == Plus || op == Add) && r.Ok? ==> r.value == Number(args.Elements()[0].value + args.Elements()[1].value)
    ensures op == Subtract && r.Ok? ==> r.value == Number(args.Elements()[0].value - args.Elements()[1].value)
    ensures args.Length() == 0 ==> r == Err(RuntimeError.IndexOutOfBounds(0))
    ensures op != ZeroP && args.Length() >= 1 && !args.Elements()[0].Number? ==> r == Err(NotANumber)
  {
    match op
    case ZeroP =>
      var a :- Arg(args, 0);
      Ok(Boolean(a == Number(0)))
    case _ =>
      var a :- Arg(args, 0);
      var x :- AsNumber(a);
      var b :- Arg(args, 1);
      var y :- AsNumber(b);
      var z := match op
        case Times => x * y
        case Subtract => x - y
        case _ => x + y;
      Ok(Number(z))
  }

  function Builtins(): map<string, Value> {
    map["zero?" := BuiltinFunc(ZeroP), "*" := BuiltinFunc(Times), "+" := BuiltinFunc(Plus),
        "add" := BuiltinFunc(Add), "subtract" := BuiltinFunc(Subtract)]
  }

  /** `Env.global()`. */
  method Global() returns (env: Env<Value>)
    ensures fresh(env.vars) && env.parent == None && env.vars.entries == Builtins()
  {
    env := Root();
    env.Declare("zero?", BuiltinFunc(ZeroP));
    env.Declare("*", BuiltinFunc(Times));
    env.Declare("+", BuiltinFunc(Plus));
    env.Declare("add", BuiltinFunc(Add));
    env.Declare("subtract", BuiltinFunc(Subtract));
  }

  // ---------------------------------------------------------------------
  // Evaluation

  /** The branch a conditional evaluates once its test has the value
      `test`: the else-branch, if any, exactly when the test is
      `Boolean(false)`; nothing (the result is `NoValue`) when that branch
      is absent; the then-branch for every other value. */
  function Select(test: Value, ifTrue: S.Ast, ifFalse: Option<S.Ast>): (branch: Option<S.Ast>)
    ensures branch.None? <==> test == Boolean(false) && ifFalse.None?
    ensures branch.Some? && test == Boolean(false) ==> branch == ifFalse
    ensures test != Boolean(false) ==> branch == Some(ifTrue)
  {
    if test == Boolean(false) then
      match ifFalse
      case Some(e) => Some(e)
      case None => None
    else Some(ifTrue)
  }

  /** The value of an atom: the number itself, or the nearest binding of
      the name, with `UnboundVariable` when no frame binds it. */
  ghost function AtomValue(a: S.Ast, env: Env<Value>): Outcome<Value, RuntimeError>
    requires S.IsAtom(a)
    reads env.Chain()
  {
    if a.Number? then Ok(Number(a.value))
    else match env.Lookup(a.name)
      case Some(v) => Ok(v)
      case None => Err(UnboundVariable(a.name))
  }

  /** The value of an atom in a frame whose table holds `entries`, below
      `parent`: the frame's own binding first, then the enclosing frames as
      `AtomValue` reads them.  It lets a contract name the value of an atom
      at a moment when the table held something other than it holds now. */
  ghost function AtomValueIn(a: S.Ast, entries: map<string, Value>, parent: Option<Env<Value>>): Outcome<Value, RuntimeError>
    requires S.IsAtom(a)
    reads if parent.Some? then parent.value.Chain() else {}
  {
    if a.Number? then Ok(Number(a.value))
    else if a.name in entries then Ok(entries[a.name])
    else if parent.None? then Err(UnboundVariable(a.name))
    else AtomValue(a, parent.value)
  }

  /** The values of a list of atoms, or the error of the first one that
      fails. */
  ghost function AtomValues(es: List<S.Ast>, env: Env<Value>): (r: Outcome<List<Value>, RuntimeError>)
    requires S.AllAtoms(es)
    reads env.Chain()
    ensures r.Ok? ==> r.value.Length() == es.Length()
    ensures r.Ok? ==>
      forall i | 0 <= i < es.Length() :: S.IsAtom(es.Elements()[i]) && AtomValue(es.Elements()[i], env) == Ok(r.value.Elements()[i])
    decreases es
  {
    match es
    case Empty => Ok(Empty)
    case Cons(h, t) =>
      assert forall i | 0 < i < es.Length() :: es.Elements()[i] == t.Elements()[i - 1];
      match AtomValue(h, env)
      case Err(e) => Err(e)
      case Ok(v) =>
        match AtomValues(t, env)
        case Err(e) => Err(e)
        case Ok(vs) => Ok(Cons(v, vs))
  }

  /** `AtomValues` fails exactly when some atom is unbound, and then with
      the error of the first such atom. */
  lemma {:induction false} AtomValuesFail(es: List<S.Ast>, env: Env<Value>)
    requires S.AllAtoms(es)
    ensures AtomValues(es, env).Err? <==>
      exists i | 0 <= i < es.Length() :: S.IsAtom(es.Elements()[i]) && AtomValue(es.Elements()[i], env).Err?
    ensures AtomValues(es, env).Err? ==>
      exists i | 0 <= i < es.Length() ::
        S.IsAtom(es.Elements()[i]) && AtomValue(es.Elements()[i], env) == Err(AtomValues(es, env).error) &&
        forall j | 0 <= j < i :: S.IsAtom(es.Elements()[j]) && AtomValue(es.Elements()[j], env).Ok?
    decreases es
  {
    if es.Cons? {
      var h, t := es.head, es.tail;
      assert es.Elements()[0] == h;
      if AtomValue(h, env).Err? {
        assert AtomValues(es, env) == Err(AtomValue(h, env).error);
      } else if AtomValues(t, env).Err? {
        AtomValuesFail(t, env);
        assert AtomValues(es, env) == AtomValues(t, env);
        var k :| 0 <= k < t.Length() &&
          S.IsAtom(t.Elements()[k]) && AtomValue(t.Elements()[k], env) == Err(AtomValues(t, env).error) &&
          forall j | 0 <= j < k :: S.IsAtom(t.Elements()[j]) && AtomValue(t.Elements()[j], env).Ok?;
        assert es.Elements()[k + 1] == t.Elements()[k] && k + 1 < es.Length();
        assert S.IsAtom(es.Elements()[k + 1]) && AtomValue(es.Elements()[k + 1], env).Err?;
        assert forall j | 0 < j <= k :: es.Elements()[j] == t.Elements()[j - 1];
      } else {
        assert AtomValues(es, env) == Ok(Cons(AtomValue(h, env).value, AtomValues(t, env).value));
      }
    }
  }

  /** The value of a body made of atoms: the first failing statement's
      error, otherwise the value of the return expression; the statements'
      own values are dropped. */
  ghost function BodyValue(stmts: List<S.Ast>, ret: S.Ast, env: Env<Value>): Outcome<Value, RuntimeError>
    requires S.AllAtoms(stmts) && S.IsAtom(ret)
    reads env.Chain()
  {
    match AtomValues(stmts, env)
    case Err(e) => Err(e)
    case Ok(_) => AtomValue(ret, env)
  }

  /** Atoms that all have values, given position by position in `vs`,
      have `vs` as their `AtomValues`. */
  lemma AtomValuesOk(es: List<S.Ast>, env: Env<Value>, vs: seq<Value>)
    requires S.AllAtoms(es) && |vs| == es.Length()
    requires forall j | 0 <= j < |vs| && S.IsAtom(es.Elements()[j]) :: AtomValue(es.Elements()[j], env) == Ok(vs[j])
    ensures AtomValues(es, env).Ok? && AtomValues(es, env).value.Elements() == vs
  {
    S.AllAtomsElements(es);
    AtomValuesFail(es, env);
  }

  /** When the atoms before position `|vs|` have values and the atom there
      fails, `AtomValues` fails with that atom's error. */
  lemma AtomValuesFirstErr(es: List<S.Ast>, env: Env<Value>, vs: seq<Value>, e: RuntimeError)
    requires S.AllAtoms(es) && |vs| < es.Length()
    requires forall j | 0 <= j < |vs| && S.IsAtom(es.Elements()[j]) :: AtomValue(es.Elements()[j], env) == Ok(vs[j])
    requires S.IsAtom(es.Elements()[|vs|]) && AtomValue(es.Elements()[|vs|], env) == Err(e)
    ensures AtomValues(es, env) == Err(e)
  {
    S.AllAtomsElements(es);
    AtomValuesFail(es, env);
    var i :| 0 <= i < es.Length() &&
      S.IsAtom(es.Elements()[i]) && AtomValue(es.Elements()[i], env) == Err(AtomValues(es, env).error) &&
      forall j | 0 <= j < i :: S.IsAtom(es.Elements()[j]) && AtomValue(es.Elements()[j], env).Ok?;
    assert i == |vs|;
  }

  /** In the frame a call builds, formals that are pairwise distinct look up
      to their own arguments: formal `i` gives argument `i`. */
  lemma FormalsBound(formals: List<string>, vs: List<Value>, frame: Table<Value>, scope: Env<Value>)
    requires formals.Length() == vs.Length()
    requires forall i, j | 0 <= i < j < formals.Length() :: formals.Elements()[i] != formals.Elements()[j]
    requires frame.entries == Declared(map[], formals.Zip(vs))
    ensures forall i | 0 <= i < formals.Length() ::
      Env(frame, Some(scope)).Lookup(formals.Elements()[i]) == Some(vs.Elements()[i])
  {
    var pairs := formals.Zip(vs);
    DeclaredDistinct(map[], pairs);
  }

  /** An expression whose value needs no call: an atom or a lambda. */
  ghost predicate IsDirect(a: S.Ast) {
    S.IsAtom(a) || a.Lambda?
  }

  /** The value of an atom or a lambda in `env`: a lambda is a closure over
      `env`. */
  ghost function DirectValue(a: S.Ast, env: Env<Value>): Outcome<Value, RuntimeError>
    requires IsDirect(a)
    reads env.Chain()
  {
    if a.Lambda? then Ok(Func(a.formals, a.statements, a.returnExpr, env)) else AtomValue(a, env)
  }

  /** What `interpret(ast, env)` is known to give with `fuel`, case by
      case.  An atom or a lambda gives its `DirectValue`.  A call with an
      atom or a lambda in function position: the callee's error, a
      non-function, a wrong arity, a built-in over atomic arguments, or a
      closure over atomic arguments whose body is made of atoms, run in the
      new frame `frame` holding exactly the formals zipped with the argument
      values.  A conditional with an atomic test as `Select` says.  A letrec
      of lambdas whose body is made of atoms, run in the new frame `frame`
      that holds the pairs `bound` as `BindingsBound` says.  The closures
      involved may reach any frame, so the predicate reads the whole heap. */
  ghost predicate Evaluates(ast: S.Ast, env: Env<Value>, fuel: nat, r: Outcome<Value, RuntimeError>,
                            frame: Table<Value>, bound: List<(string, Value)>)
    reads *
  {
    (IsDirect(ast) ==> r == DirectValue(ast, env)) &&
    (ast.Call? && IsDirect(ast.fn) && DirectValue(ast.fn, env).Err? ==> r == DirectValue(ast.fn, env)) &&
    (ast.Call? && IsDirect(ast.fn) && DirectValue(ast.fn, env).Ok? ==>
      var callee := DirectValue(ast.fn, env).value;
      (!callee.Func? && !callee.BuiltinFunc? ==> r == Err(NotAFunction)) &&
      (callee.Func? && ast.arguments.Length() != callee.formals.Length() ==> r == Err(WrongArity)) &&
      (callee.BuiltinFunc? && S.AllAtoms(ast.arguments) ==>
        r == match AtomValues(ast.arguments, env)
          case Ok(vs) => ApplyBuiltin(callee.op, vs)
          case Err(e) => Err(e)) &&
      (callee.Func? && ast.arguments.Length() == callee.formals.Length() && S.AllAtoms(ast.arguments) ==>
        match AtomValues(ast.arguments, env)
        case Err(e) => r == Err(e)
        case Ok(vs) =>
          (fuel == 0 ==> r == Err(OutOfFuel)) &&
          (fuel > 0 && S.AllAtoms(callee.statements) && S.IsAtom(callee.returnExpr) ==>
            frame.entries == Declared(map[], callee.formals.Zip(vs)) &&
              r == BodyValue(callee.statements, callee.returnExpr, Env(frame, Some(callee.scope)))))) &&
    (ast.Conditional? && S.IsAtom(ast.test) && AtomValue(ast.test, env).Err? ==> r == AtomValue(ast.test, env)) &&
    (ast.Conditional? && S.IsAtom(ast.test) && AtomValue(ast.test, env).Ok? ==>
      var branch := Select(AtomValue(ast.test, env).value, ast.ifTrue, ast.ifFalse);
      (branch.None? ==> r == Ok(NoValue)) &&
      (branch.Some? && S.IsAtom(branch.value) ==> r == AtomValue(branch.value, env))) &&
    (ast.LetRec? && LambdaBindings(ast.bindings) && S.AllAtoms(ast.statements) && S.IsAtom(ast.returnExpr) ==>
      bound.Length() == ast.bindings.Length() &&
        BindingsBound(ast.bindings.Elements(), bound, map[], Env(frame, Some(env))) &&
        frame.entries == Declared(map[], bound) &&
        r == BodyValue(ast.statements, ast.returnExpr, Env(frame, Some(env))))
  }

  /** `interpret(ast)`: in a fresh global frame holding exactly the
      built-ins, as `Evaluates` says. */
  method Run(ast: S.Ast, fuel: nat)
    returns (r: Outcome<Value, RuntimeError>, ghost global: Env<Value>, ghost frame: Table<Value>, ghost bound: List<(string, Value)>)
    ensures fresh(global.vars)
    ensures global.parent == None && global.vars.entries == Builtins()
    ensures Evaluates(ast, global, fuel, r, frame, bound)
    ensures ast.Number? ==> r == Ok(Number(ast.value))
    ensures ast.Ident? ==> r == if ast.name in Builtins() then Ok(Builtins()[ast.name]) else Err(UnboundVariable(ast.name))
  {
    var env := Global();
    global := env;
    r, frame, bound := Interpret(ast, env, fuel);
  }

  /** `interpret(ast, env)`.  Atoms and lambdas are evaluated on the spot:
      a lambda becomes a closure over `env` and its body is not run. */
  method Interpret(ast: S.Ast, env: Env<Value>, fuel: nat)
    returns (r: Outcome<Value, RuntimeError>, ghost frame: Table<Value>, ghost bound: List<(string, Value)>)
    ensures Evaluates(ast, env, fuel, r, frame, bound)
    decreases fuel, S.Size(ast), 3
  {
    env.ChainAllocated();
    frame, bound := env.vars, Empty;
    match ast
    case Number(n) =>
      r := Ok(Number(n));
    case Ident(x) =>
      r := match env.Lookup(x)
        case Some(v) => Ok(v)
        case None => Err(UnboundVariable(x));
    case Lambda(formals, stmts, ret) =>
      r := Ok(Func(formals, stmts, ret, env));
    case Conditional(_, _, _) =>
      ghost var test, branch;
      r, test, branch := EvalConditional(ast, env, fuel);
    case LetRec(_, _, _) =>
      r, frame, bound := EvalLetRec(ast, env, fuel);
      assert LambdaBindings(ast.bindings) && S.AllAtoms(ast.statements) && S.IsAtom(ast.returnExpr) ==>
        bound.Length() == ast.bindings.Length() &&
        BindingsBound(ast.bindings.Elements(), bound, map[], Env(frame, Some(env))) &&
        frame.entries == Declared(map[], bound) &&
        r == BodyValue(ast.statements, ast.returnExpr, Env(frame, Some(env)));
    case Call(fn, args) =>
      var callee := Evaluate(fn, env, fuel);
      if callee.Err? {
        r := Err(callee.error);
      } else {
        ghost var called, values;
        r, called, values := Apply(callee.value, args, env, fuel);
        if called.Some? {
          frame := called.value;
        }
      }
  }

  /** The `Conditional` case: the test is evaluated first and decides the
      branch as `Select` says. */
  method EvalConditional(ast: S.Ast, env: Env<Value>, fuel: nat)
    returns (r: Outcome<Value, RuntimeError>, ghost test: Outcome<Value, RuntimeError>, ghost branch: Option<S.Ast>)
    requires ast.Conditional?
    ensures test.Err? ==> r == Err(test.error) && branch == None
    ensures test.Ok? ==> branch == Select(test.value, ast.ifTrue, ast.ifFalse)
    ensures test.Ok? && branch.None? ==> r == Ok(NoValue)
    ensures S.IsAtom(ast.test) ==> test == AtomValue(ast.test, env)
    ensures test.Ok? && branch.Some? && S.IsAtom(branch.value) ==> r == AtomValue(branch.value, env)
    decreases fuel, S.Size(ast), 2
  {
    env.ChainAllocated();
    var tested := Evaluate(ast.test, env, fuel);
    test := tested;
    if tested.Err? {
      r := Err(tested.error);
      branch := None;
    } else {
      var chosen := Select(tested.value, ast.ifTrue, ast.ifFalse);
      branch := chosen;
      match chosen
      case None =>
        r := Ok(NoValue);
      case Some(e) =>
        r := Evaluate(e, env, fuel);
    }
  }

  /** The `LetRec` case: one child frame of `env` holds the bindings, then
      the statements run and `returnExpr` gives the value, all in the child. */
  method EvalLetRec(ast: S.Ast, env: Env<Value>, fuel: nat)
    returns (r: Outcome<Value, RuntimeError>, ghost frame: Table<Value>, ghost bound: List<(string, Value)>)
    requires ast.LetRec?
    ensures fresh(frame)
    ensures r.Ok? ==>
      bound.Length() == ast.bindings.Length() &&
      BindingsBound(ast.bindings.Elements(), bound, map[], Env(frame, Some(env))) &&
      frame.entries == Declared(map[], bound)
    ensures r.Ok? && S.IsAtom(ast.returnExpr) ==> r == AtomValue(ast.returnExpr, Env(frame, Some(env)))
    ensures LambdaBindings(ast.bindings) ==>
      bound.Length() == ast.bindings.Length() &&
      BindingsBound(ast.bindings.Elements(), bound, map[], Env(frame, Some(env))) &&
      frame.entries == Declared(map[], bound)
    ensures LambdaBindings(ast.bindings) && S.AllAtoms(ast.statements) && S.IsAtom(ast.returnExpr) ==>
      r == BodyValue(ast.statements, ast.returnExpr, Env(frame, Some(env)))
    decreases fuel, S.Size(ast), 2
  {
    env.ChainAllocated();
    var child := env.MakeChild();
    frame := child.vars;
    var declared;
    declared, bound := DeclareBindings(ast.bindings, child, fuel);
    if declared.Err? {
      return Err(declared.error), frame, bound;
    }
    var ran := RunStatements(ast.statements, child, fuel);
    if ran.Err? {
      return Err(ran.error), frame, bound;
    }
    r := Evaluate(ast.returnExpr, child, fuel);
  }

  /** The binding loop of the `LetRec` case: each binding is evaluated in
      `child` and declared there before the next one is evaluated, so later
      bindings see earlier ones and lambdas, which close over `child`, see
      them all.  On success the frame gained exactly the bound pairs, in
      order; the first failing binding stops the loop. */
  method DeclareBindings(bs: List<S.BindingSpec>, child: Env<Value>, fuel: nat)
    returns (r: Outcome<(), RuntimeError>, ghost bound: List<(string, Value)>)
    requires child.parent.Some? ==> child.vars !in child.parent.value.Chain()
    modifies child.vars
    ensures r.Ok? ==>
      bound.Length() == bs.Length() &&
      BindingsBound(bs.Elements(), bound, old(child.vars.entries), child) &&
      child.vars.entries == Declared(old(child.vars.entries), bound)
    ensures LambdaBindings(bs) ==> r.Ok?
    decreases fuel, S.SizeOfBindings(bs), 1
  {
    if child.parent.Some? {
      child.parent.value.ChainAllocated();
    }
    bound := Empty;
    ghost var bs' := bs.Elements();
    var current := bs;
    ghost var done := 0;
    r := Ok(());
    while current.Cons?
      invariant 0 <= done <= |bs'| && current.Length() == |bs'| - done
      invariant current.Elements() == bs'[done..]
      invariant S.SizeOfBindings(current) <= S.SizeOfBindings(bs)
      invariant bound.Length() == done
      invariant child.vars.entries == Declared(old(child.vars.entries), bound)
      invariant BindingsBound(bs', bound, old(child.vars.entries), child)
      decreases current
    {
      var b := current.head;
      assert b == bs'[done] && current.tail.Elements() == bs'[done + 1..];
      var value := DeclareBinding(b, child, fuel);
      if value.Err? {
        assert !b.expr.Lambda?;
        return Err(value.error), bound;
      }
      BindingsBoundAppend(bs', bound, old(child.vars.entries), child, (b.identifier, value.value));
      DeclaredAppend(old(child.vars.entries), bound, (b.identifier, value.value));
      bound := bound.Append((b.identifier, value.value));
      done := done + 1;
      current := current.tail;
    }
  }

  /** Every binding of `bs` binds a lambda. */
  ghost predicate LambdaBindings(bs: List<S.BindingSpec>) {
    forall i | 0 <= i < bs.Length() :: bs.Elements()[i].expr.Lambda?
  }

  /** The pair `p` is binding `b` declared in `child` when the frame held
      `before`: under the binding's own name, and for a lambda the closure
      over `child`, for an atom the value it had in that frame. */
  ghost predicate BoundAt(b: S.BindingSpec, p: (string, Value), before: map<string, Value>, child: Env<Value>)
    reads if child.parent.Some? then child.parent.value.Chain() else {}
  {
    p.0 == b.identifier &&
    (b.expr.Lambda? ==> p.1 == Func(b.expr.formals, b.expr.statements, b.expr.returnExpr, child)) &&
    (S.IsAtom(b.expr) ==> AtomValueIn(b.expr, before, child.parent) == Ok(p.1))
  }

  /** The first `bound.Length()` bindings of `bs` were declared in order,
      starting from a frame that held `m`: pair `i` is binding `i` declared
      once the pairs before it were. */
  ghost predicate BindingsBound(bs: seq<S.BindingSpec>, bound: List<(string, Value)>, m: map<string, Value>, child: Env<Value>)
    reads if child.parent.Some? then child.parent.value.Chain() else {}
  {
    bound.Length() <= |bs| &&
    forall i | 0 <= i < bound.Length() :: BoundAt(bs[i], bound.Elements()[i], Declared(m, bound.Prefix(i)), child)
  }

  lemma BindingsBoundAppend(bs: seq<S.BindingSpec>, bound: List<(string, Value)>, m: map<string, Value>,
                            child: Env<Value>, p: (string, Value))
    requires BindingsBound(bs, bound, m, child) && bound.Length() < |bs|
    requires BoundAt(bs[bound.Length()], p, Declared(m, bound), child)
    ensures BindingsBound(bs, bound.Append(p), m, child)
  {
    PrefixAppend(bound, p);
    var next := bound.Append(p);
    forall i | 0 <= i < next.Length()
      ensures BoundAt(bs[i], next.Elements()[i], Declared(m, next.Prefix(i)), child)
    {
      if i < bound.Length() {
        assert next.Elements()[i] == bound.Elements()[i];
      }
    }
  }

  /** One binding of the `LetRec` loop: its expression is evaluated in
      `child` as the frame stands, then declared there under its name. */
  method DeclareBinding(b: S.BindingSpec, child: Env<Value>, fuel: nat) returns (r: Outcome<Value, RuntimeError>)
    requires child.parent.Some? ==> child.vars !in child.parent.value.Chain()
    modifies child.vars
    ensures S.IsAtom(b.expr) ==> r == AtomValueIn(b.expr, old(child.vars.entries), child.parent)
    ensures b.expr.Lambda? ==> r == Ok(Func(b.expr.formals, b.expr.statements, b.expr.returnExpr, child))
    ensures r.Ok? ==> child.vars.entries == old(child.vars.entries)[b.identifier := r.value]
    decreases fuel, S.Size(b.expr), 5
  {
    child.ChainAllocated();
    if child.parent.Some? {
      child.parent.value.ChainAllocated();
    }
    r := Evaluate(b.expr, child, fuel);
    assert S.IsAtom(b.expr) ==> r == AtomValueIn(b.expr, old(child.vars.entries), child.parent);
    if r.Ok? {
      child.Declare(b.identifier, r.value);
    }
  }

  /** `statements.forEach(stmt -> interpret(stmt, env))`: the values are
      dropped; the first error stops the run.  A block of atoms fails
      exactly as `AtomValues` does, with the same error. */
  method RunStatements(stmts: List<S.Ast>, env: Env<Value>, fuel: nat) returns (r: Outcome<(), RuntimeError>)
    ensures stmts.Empty? ==> r.Ok?
    ensures S.AllAtoms(stmts) ==>
      match AtomValues(stmts, env)
      case Ok(_) => r.Ok?
      case Err(e) => r == Err(e)
    decreases fuel, S.SizeOfAll(stmts), 1
  {
    env.ChainAllocated();
    ghost var ss := stmts.Elements();
    ghost var vs: seq<Value> := [];
    var current := stmts;
    r := Ok(());
    while current.Cons?
      invariant S.SizeOfAll(current) <= S.SizeOfAll(stmts)
      invariant |vs| <= |ss| && current.Elements() == ss[|vs|..]
      invariant forall j | 0 <= j < |vs| && S.IsAtom(ss[j]) :: AtomValue(ss[j], env) == Ok(vs[j])
      invariant r.Ok?
      decreases current
    {
      assert current.head == ss[|vs|] && current.tail.Elements() == ss[|vs| + 1..];
      var value := Evaluate(current.head, env, fuel);
      if value.Err? {
        if S.AllAtoms(stmts) {
          S.AllAtomsElements(stmts);
          AtomValuesFirstErr(stmts, env, vs, value.error);
        }
        return Err(value.error);
      }
      vs := vs + [value.value];
      current := current.tail;
    }
    if S.AllAtoms(stmts) {
      AtomValuesOk(stmts, env, vs);
    }
  }

  /** `interpret(a, env)` where only its atom and lambda cases matter to
      the caller. */
  method Evaluate(a: S.Ast, env: Env<Value>, fuel: nat) returns (r: Outcome<Value, RuntimeError>)
    ensures IsDirect(a) ==> r == DirectValue(a, env)
    decreases fuel, S.Size(a), 4
  {
    ghost var frame, bound;
    r, frame, bound := Interpret(a, env, fuel);
  }

  /** `c.arguments().map(arg -> interpret(arg, env))`, head first. */
  method EvaluateArguments(args: List<S.Ast>, env: Env<Value>, fuel: nat) returns (r: Outcome<List<Value>, RuntimeError>)
    ensures r.Ok? ==> r.value.Length() == args.Length()
    ensures S.AllAtoms(args) ==> r == AtomValues(args, env)
    ensures r.Ok? ==>
      forall j | 0 <= j < args.Length() && S.IsAtom(args.Elements()[j]) ::
        AtomValue(args.Elements()[j], env) == Ok(r.value.Elements()[j])
    decreases fuel, S.SizeOfAll(args), 1
  {
    env.ChainAllocated();
    match args
    case Empty =>
      r := Ok(Empty);
    case Cons(h, t) =>
      var head := Evaluate(h, env, fuel);
      if head.Err? {
        return Err(head.error);
      }
      var tail := EvaluateArguments(t, env, fuel);
      assert S.AllAtoms(args) ==> S.AllAtoms(t) && head == AtomValue(h, env) && tail == AtomValues(t, env);
      if tail.Err? {
        return Err(tail.error);
      }
      r := Ok(Cons(head.value, tail.value));
      assert forall i | 0 < i < args.Length() :: args.Elements()[i] == t.Elements()[i - 1];
  }

  /** The `Call` case once the callee is known: a closure is entered as
      `ApplyClosure` says; for a built-in all arguments are evaluated first,
      head first; anything else is not a function. */
  method Apply(callee: Value, args: List<S.Ast>, env: Env<Value>, fuel: nat)
    returns (r: Outcome<Value, RuntimeError>, ghost frame: Option<Table<Value>>, ghost values: List<Value>)
    ensures !callee.Func? && !callee.BuiltinFunc? ==> r == Err(NotAFunction)
    ensures callee.Func? && args.Length() != callee.formals.Length() ==> r == Err(WrongArity)
    ensures callee.BuiltinFunc? && r.Ok? ==> values.Length() == args.Length() && r == ApplyBuiltin(callee.op, values)
    ensures callee.BuiltinFunc? && S.AllAtoms(args) ==>
      r == match AtomValues(args, env)
        case Ok(vs) => ApplyBuiltin(callee.op, vs)
        case Err(e) => Err(e)
    ensures callee.Func? && r.Ok? ==>
      frame.Some? && fresh(frame.value) && values.Length() == args.Length() &&
      frame.value.entries == Declared(map[], callee.formals.Zip(values))
    ensures (callee.Func? || callee.BuiltinFunc?) && r.Ok? ==>
      values.Length() == args.Length() &&
      forall j | 0 <= j < args.Length() && S.IsAtom(args.Elements()[j]) ::
        AtomValue(args.Elements()[j], env) == Ok(values.Elements()[j])
    ensures callee.Func? && r.Ok? && S.IsAtom(callee.returnExpr) ==>
      frame.Some? && r == AtomValue(callee.returnExpr, Env(frame.value, Some(callee.scope)))
    ensures callee.Func? && args.Length() == callee.formals.Length() && S.AllAtoms(args) ==>
      match AtomValues(args, env)
      case Err(e) => r == Err(e)
      case Ok(vs) =>
        frame.Some? && values == vs && frame.value.entries == Declared(map[], callee.formals.Zip(vs)) &&
        (fuel == 0 ==> r == Err(OutOfFuel)) &&
        (fuel > 0 && S.AllAtoms(callee.statements) && S.IsAtom(callee.returnExpr) ==>
          r == BodyValue(callee.statements, callee.returnExpr, Env(frame.value, Some(callee.scope))))
    decreases fuel, S.SizeOfAll(args), 2
  {
    frame := None;
    values := Empty;
    match callee
    case Func(_, _, _, _) =>
      ghost var table;
      r, table, values := ApplyClosure(callee, args, env, fuel);
      frame := Some(table);
    case BuiltinFunc(op) =>
      var evaluated := EvaluateArguments(args, env, fuel);
      if evaluated.Err? {
        return Err(evaluated.error), frame, values;
      }
      values := evaluated.value;
      r := ApplyBuiltin(op, evaluated.value);
    case _ =>
      r := Err(NotAFunction);
  }

  /** A closure call: a child frame of the closure's scope (made before the
      arity check), the arguments bound in it as `BindArguments` says, then
      the statements and the return expression run in the child.  On
      success the frame holds exactly the formals zipped with the argument
      values. */
  method ApplyClosure(callee: Value, args: List<S.Ast>, env: Env<Value>, fuel: nat)
    returns (r: Outcome<Value, RuntimeError>, ghost frame: Table<Value>, ghost values: List<Value>)
    requires callee.Func?
    ensures fresh(frame)
    ensures args.Length() != callee.formals.Length() ==> r == Err(WrongArity)
    ensures r.Ok? ==>
      values.Length() == args.Length() && frame.entries == Declared(map[], callee.formals.Zip(values))
    ensures r.Ok? ==>
      forall j | 0 <= j < args.Length() && S.IsAtom(args.Elements()[j]) ::
        AtomValue(args.Elements()[j], env) == Ok(values.Elements()[j])
    ensures r.Ok? && S.IsAtom(callee.returnExpr) ==> r == AtomValue(callee.returnExpr, Env(frame, Some(callee.scope)))
    ensures args.Length() == callee.formals.Length() && S.AllAtoms(args) ==>
      match AtomValues(args, env)
      case Err(e) => r == Err(e)
      case Ok(vs) =>
        values == vs && frame.entries == Declared(map[], callee.formals.Zip(vs)) &&
        (fuel == 0 ==> r == Err(OutOfFuel)) &&
        (fuel > 0 && S.AllAtoms(callee.statements) && S.IsAtom(callee.returnExpr) ==>
          r == BodyValue(callee.statements, callee.returnExpr, Env(frame, Some(callee.scope))))
    decreases fuel, S.SizeOfAll(args), 1
  {
    env.ChainAllocated();
    var child := callee.scope.MakeChild();
    frame := child.vars;
    values := Empty;
    var given := args.Size();
    var expected := callee.formals.Size();
    if given != expected {
      return Err(WrongArity), frame, values;
    }
    var bound;
    bound, values := BindArguments(callee.formals, args, env, child, fuel);
    if bound.Err? {
      return Err(bound.error), frame, values;
    }
    if fuel == 0 {
      return Err(OutOfFuel), frame, values;
    }
    child.ChainAllocated();
    var ran := RunStatements(callee.statements, child, fuel - 1);
    if ran.Err? {
      return Err(ran.error), frame, values;
    }
    r := Evaluate(callee.returnExpr, child, fuel - 1);
    assert S.AllAtoms(callee.statements) && S.IsAtom(callee.returnExpr) ==>
      r == BodyValue(callee.statements, callee.returnExpr, child);
  }

  /** One position of the argument loop: `arg` is evaluated in the
      caller's `env` and, when it succeeds, declared in `child` under
      `formal`. */
  method BindArgument(formal: string, arg: S.Ast, env: Env<Value>, child: Env<Value>, fuel: nat)
    returns (r: Outcome<Value, RuntimeError>)
    requires child.vars !in env.Chain()
    modifies child.vars
    ensures S.IsAtom(arg) ==> r == AtomValue(arg, env)
    ensures r.Ok? ==> child.vars.entries == old(child.vars.entries)[formal := r.value]
    decreases fuel, S.Size(arg), 5
  {
    env.ChainAllocated();
    r := Evaluate(arg, env, fuel);
    if r.Ok? {
      child.Declare(formal, r.value);
    }
  }

  /** The argument loop of a closure call: for each position `i`, argument
      `i` is evaluated in the caller's `env` and declared in `child` under
      formal `i`.  On success the frame gained the formals zipped with the
      values; the first failing argument stops the loop. */
  method BindArguments(formals: List<string>, args: List<S.Ast>, env: Env<Value>, child: Env<Value>, fuel: nat)
    returns (r: Outcome<(), RuntimeError>, ghost values: List<Value>)
    requires formals.Length() == args.Length()
    requires child.vars !in env.Chain()
    modifies child.vars
    ensures r.Ok? ==>
      values.Length() == args.Length() &&
      child.vars.entries == Declared(old(child.vars.entries), formals.Zip(values))
    ensures r.Ok? ==>
      forall j | 0 <= j < args.Length() && S.IsAtom(args.Elements()[j]) ::
        AtomValue(args.Elements()[j], env) == Ok(values.Elements()[j])
    ensures S.AllAtoms(args) ==>
      match AtomValues(args, env)
      case Ok(vs) => r.Ok? && values == vs
      case Err(e) => r == Err(e)
    decreases fuel, S.SizeOfAll(args), 0
  {
    env.ChainAllocated();
    var given := args.Size();
    ghost var es := args.Elements();
    ghost var fs := formals.Elements();
    ghost var vs: seq<Value> := [];
    values := Empty;
    r := Ok(());
    var i := 0;
    while i < given
      invariant 0 <= i <= given == |es| == |fs|
      invariant values.Elements() == vs && |vs| == i
      invariant child.vars.entries == Declared(old(child.vars.entries), formals.Zip(values))
      invariant ArgumentsBound(es, vs, env)
    {
      S.ElementSmaller(args, i);
      var arg := args.Get(i).value;
      var formal := formals.Get(i).value;
      assert arg == es[i] && formal == fs[i];
      var value := BindArgument(formal, arg, env, child, fuel);
      if value.Err? {
        if S.AllAtoms(args) {
          S.AllAtomsElements(args);
          AtomValuesFirstErr(args, env, vs, value.error);
        }
        return Err(value.error), values;
      }
      ZipAppend(formals, values, value.value);
      DeclaredAppend(old(child.vars.entries), formals.Zip(values), (formal, value.value));
      ArgumentsBoundAppend(es, vs, env, value.value);
      values := values.Append(value.value);
      vs := vs + [value.value];
      i := i + 1;
    }
    if S.AllAtoms(args) {
      AtomValuesOk(args, env, vs);
      ElementsInjective(values, AtomValues(args, env).value);
    }
  }

  /** Each atomic argument among the first `|vs|` of `es` has, in `env`, the
      value at its position in `vs`. */
  ghost predicate ArgumentsBound(es: seq<S.Ast>, vs: seq<Value>, env: Env<Value>)
    reads env.Chain()
  {
    |vs| <= |es| && forall j | 0 <= j < |vs| && S.IsAtom(es[j]) :: AtomValue(es[j], env) == Ok(vs[j])
  }

  lemma ArgumentsBoundAppend(es: seq<S.Ast>, vs: seq<Value>, env: Env<Value>, v: Value)
    requires ArgumentsBound(es, vs, env) && |vs| < |es|
    requires S.IsAtom(es[|vs|]) ==> AtomValue(es[|vs|], env) == Ok(v)
    ensures ArgumentsBound(es, vs + [v], env)
  {
  }
}
