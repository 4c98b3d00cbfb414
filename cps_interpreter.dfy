/** `Continuations.Interpreter`: runs converted programs on a trampoline.
    `interpretUntilCont` walks `If` and `LetRec` nodes up to the next `App`
    and returns the call it describes; `interpret` keeps making such calls
    until the halt built-in returns a final value. */
module CpsInterpreter {
  import opened Outcomes
  import opened Lists
  import opened Options
  import opened Scopes
  import C = Cps

  /** The built-ins of `Env.global`, by name: `zero?`, `*`, `+`, `add`,
      `subtract` and `$$HALT`. */
  datatype Primitive = ZeroP | Times | Plus | Add | Subtract | Halt

  datatype Value =
    | Number(value: int)
    | Boolean(truth: bool)
    | NoValue
    | Func(name: string, formals: List<string>, body: C.CExp, scope: Env<Value>)
    | Native(op: Primitive)

  /** The values the Java code can cast to `Callable`. */
  type Callable = v: Value | v.Func? || v.Native? witness Native(Halt)

  datatype Result = Final(result: Value) | NextCall(fn: Callable, arguments: List<Value>)

  /** The exceptions a run can raise: a failed lookup, a failed cast to
      `Callable` or `Number`, a wrong arity, and `Empty.get`. */
  datatype RuntimeError =
    | UnboundVariable(name: string)
    | NotCallable
    | NotANumber
    | WrongArity(callee: string)
    | IndexOutOfBounds(index: int)

  /** What `interpret` ends with when it is given at most `fuel` calls. */
  datatype Run = Halted(value: Value) | Crashed(error: RuntimeError) | Exhausted

  // ---------------------------------------------------------------------
  // Built-ins

  /** How many arguments a built-in reads; the last one it reads is its
      continuation, except for `$$HALT`, which has none. */
  function Arity(op: Primitive): nat {
    match op
    case Halt => 1
    case ZeroP => 2
    case _ => 3
  }

  predicate IsArithmetic(op: Primitive) {
    op.Times? || op.Plus? || op.Add? || op.Subtract?
  }

  /** `arguments.get(i)`. */
  function Arg(args: List<Value>, i: int): Outcome<Value, RuntimeError> {
    match args.Get(i)
    case Ok(v) => Ok(v)
    case Err(e) => Err(RuntimeError.IndexOutOfBounds(e.index))
  }

  /** `(Callable) v`. */
  function AsCallable(v: Value): Outcome<Callable, RuntimeError> {
    if v.Func? || v.Native? then Ok(v) else Err(NotCallable)
  }

  /** `((Number) v).value()`. */
  function AsNumber(v: Value): Outcome<int, RuntimeError> {
    if v.Number? then Ok(v.value) else Err(NotANumber)
  }

  /** The arguments a built-in can run on. */
  predicate WellTyped(op: Primitive, args: List<Value>) {
    var a := args.Elements();
    |a| >= Arity(op) &&
    (op != Halt ==> a[Arity(op) - 1].Func? || a[Arity(op) - 1].Native?) &&
    (IsArithmetic(op) ==> a[0].Number? && a[1].Number?)
  }

  /** The lambdas of `Env.global`.  Each reads its continuation first, then
      its operands from left to right, as Java evaluates the arguments of
      `new NextCall(...)`. */
  function ApplyPrimitive(op: Primitive, args: List<Value>): (r: Outcome<Result, RuntimeError>)
    ensures r.Ok? <==> WellTyped(op, args)
    ensures args.Length() < Arity(op) ==> r == Err(RuntimeError.IndexOutOfBounds(Arity(op) - 1 - args.Length()))
    ensures r.Ok? && r.value.Final? <==> op == Halt && r.Ok?
    ensures op == Halt && r.Ok? ==> r.value.result == args.Elements()[0]
    ensures op != Halt && r.Ok? ==>
      r.value.fn == args.Elements()[Arity(op) - 1] && r.value.arguments.Length() == 1
    ensures op == ZeroP && r.Ok? ==>
      r.value.arguments.head == Boolean(args.Elements()[0] == Number(0))
    ensures op == Times && r.Ok? ==>
      r.value.arguments.head == Number(args.Elements()[0].value * args.Elements()[1].value)
    ensures (op == Plus || op == Add) && r.Ok? ==>
      r.value.arguments.head == Number(args.Elements()[0].value + args.Elements()[1].value)
    ensures op == Subtract && r.Ok? ==>
      r.value.arguments.head == Number(args.Elements()[0].value - args.Elements()[1].value)
  {
    match op
    case Halt =>
      var a :- Arg(args, 0);
      Ok(Final(a))
    case ZeroP =>
      var k :- Arg(args, 1);
      var kc :- AsCallable(k);
      var a :- Arg(args, 0);
      Ok(NextCall(kc, Cons(Boolean(a == Number(0)), Empty)))
    case _ =>
      var k :- Arg(args, 2);
      var kc :- AsCallable(k);
      var a :- Arg(args, 0);
      var x :- AsNumber(a);
      var b :- Arg(args, 1);
      var y :- AsNumber(b);
      var z := match op
        case Times => x * y
        case Subtract => x - y
        case _ => x + y;
      Ok(NextCall(kc, Cons(Number(z), Empty)))
  }

  /** The contents of the global frame. */
  function Builtins(): map<string, Value> {
    map["zero?" := Native(ZeroP), "*" := Native(Times), "+" := Native(Plus),
        "add" := Native(Add), "subtract" := Native(Subtract), "$$HALT" := Native(Halt)]
  }

  /** `Env.global()`. */
  method Global() returns (env: Env<Value>)
    ensures fresh(env.vars) && env.parent == None && env.vars.entries == Builtins()
  {
    env := Root();
    env.Declare("zero?", Native(ZeroP));
    env.Declare("*", Native(Times));
    env.Declare("+", Native(Plus));
    env.Declare("add", Native(Add));
    env.Declare("subtract", Native(Subtract));
    env.Declare("$$HALT", Native(Halt));
  }

  // ---------------------------------------------------------------------
  // One step: up to the next call

  /** `interpretValue`: a number is itself, a variable is looked up. */
  function InterpretValue(v: C.CValue, scope: Env<Value>): (r: Outcome<Value, RuntimeError>)
    reads scope.Chain()
    ensures v.Number? ==> r == Ok(Number(v.value))
    ensures v.Var? ==> (r.Ok? <==> scope.Lookup(v.name).Some?)
    ensures v.Var? && r.Ok? ==> r.value == scope.Lookup(v.name).value
    ensures r.Err? ==> v.Var? && r.error == UnboundVariable(v.name)
  {
    match v
    case Number(n) => Ok(Number(n))
    case Var(x) =>
      match scope.Lookup(x)
      case Some(value) => Ok(value)
      case None => Err(UnboundVariable(x))
  }

  /** `arguments.map(arg -> interpretValue(arg, scope))`: head first, so the
      first failing operand decides the error (`InterpretValuesFirstError`). */
  function InterpretValues(vs: List<C.CValue>, scope: Env<Value>): (r: Outcome<List<Value>, RuntimeError>)
    reads scope.Chain()
    ensures r.Ok? ==> r.value.Length() == vs.Length()
    ensures r.Ok? ==>
      forall i | 0 <= i < vs.Length() ::
        InterpretValue(vs.Elements()[i], scope) == Ok(r.value.Elements()[i])
    decreases vs
  {
    match vs
    case Empty => Ok(Empty)
    case Cons(h, t) =>
      var x :- InterpretValue(h, scope);
      var rest :- InterpretValues(t, scope);
      assert forall i | 0 < i < vs.Length() :: vs.Elements()[i] == t.Elements()[i - 1];
      Ok(Cons(x, rest))
  }

  /** The operands are interpreted in order: the list fails exactly when
      some operand fails, and then with the error of the first one that
      does. */
  lemma {:induction false} InterpretValuesFirstError(vs: List<C.CValue>, scope: Env<Value>)
    ensures (forall i | 0 <= i < vs.Length() :: InterpretValue(vs.Elements()[i], scope).Ok?) ==>
      InterpretValues(vs, scope).Ok?
    ensures InterpretValues(vs, scope).Err? ==>
      exists i | 0 <= i < vs.Length() ::
        InterpretValue(vs.Elements()[i], scope) == Err(InterpretValues(vs, scope).error) &&
        forall j | 0 <= j < i :: InterpretValue(vs.Elements()[j], scope).Ok?
    decreases vs
  {
    if vs.Cons? {
      var h, t := vs.head, vs.tail;
      assert vs.Elements() == [h] + t.Elements();
      assert vs.Elements()[0] == h;
      InterpretValuesFirstError(t, scope);
      if InterpretValue(h, scope).Err? {
        assert InterpretValues(vs, scope) == Err(InterpretValue(h, scope).error);
        assert 0 < vs.Length() && InterpretValue(vs.Elements()[0], scope) == Err(InterpretValues(vs, scope).error);
        assert !(forall i | 0 <= i < vs.Length() :: InterpretValue(vs.Elements()[i], scope).Ok?);
        assert InterpretValues(vs, scope).Err?;
      } else if InterpretValues(t, scope).Err? {
        assert InterpretValues(vs, scope) == Err(InterpretValues(t, scope).error);
        var k :| 0 <= k < t.Length() &&
          InterpretValue(t.Elements()[k], scope) == Err(InterpretValues(t, scope).error) &&
          forall j | 0 <= j < k :: InterpretValue(t.Elements()[j], scope).Ok?;
        assert vs.Elements()[k + 1] == t.Elements()[k] && k + 1 < vs.Length();
        assert InterpretValue(vs.Elements()[k + 1], scope) == Err(InterpretValues(vs, scope).error);
        forall j | 0 <= j < k + 1
          ensures InterpretValue(vs.Elements()[j], scope).Ok?
        {
          if j > 0 {
            assert vs.Elements()[j] == t.Elements()[j - 1];
          }
        }
      } else {
        forall i | 0 <= i < vs.Length()
          ensures InterpretValue(vs.Elements()[i], scope).Ok?
        {
          if i > 0 {
            assert vs.Elements()[i] == t.Elements()[i - 1];
          }
        }
      }
    }
  }

  /** The `App` case: the callee is interpreted and cast before any
      argument is interpreted. */
  function InterpretApp(fn: C.CValue, args: List<C.CValue>, scope: Env<Value>): (r: Outcome<Result, RuntimeError>)
    reads scope.Chain()
    ensures r.Ok? <==>
      InterpretValue(fn, scope).Ok? && (InterpretValue(fn, scope).value.Func? || InterpretValue(fn, scope).value.Native?) &&
      InterpretValues(args, scope).Ok?
    ensures r.Ok? ==> r.value == NextCall(InterpretValue(fn, scope).value, InterpretValues(args, scope).value)
    ensures InterpretValue(fn, scope).Err? ==> r == Err(InterpretValue(fn, scope).error)
  {
    var f :- InterpretValue(fn, scope);
    var callee :- AsCallable(f);
    var vs :- InterpretValues(args, scope);
    Ok(NextCall(callee, vs))
  }

  /** The closures of one `LetRec`, each capturing the scope it is declared
      in. */
  function Closures(bs: List<C.BindingSpec>, scope: Env<Value>): (pairs: List<(string, Value)>)
    ensures pairs.Length() == bs.Length()
    ensures forall i | 0 <= i < bs.Length() ::
      var b := bs.Elements()[i];
      pairs.Elements()[i] == (b.name, Func(b.name, b.formals, b.definition, scope))
  {
    bs.Map((b: C.BindingSpec) => (b.name, Func(b.name, b.formals, b.definition, scope)))
  }

  /** What `interpretUntilCont(expr, scope)` does, given the tables of the
      `LetRec` frames it creates, outermost first:
      an `App` is interpreted in `scope`; an `If` continues in its else
      branch exactly when the condition is `Boolean(false)`; a `LetRec`
      continues in one child of `scope` that holds all its closures, each
      capturing that same child. */
  ghost predicate Unfolds(expr: C.CExp, scope: Env<Value>, frames: seq<Table<Value>>, r: Outcome<Result, RuntimeError>)
    reads scope.Chain(), set t | t in frames
    decreases expr
  {
    match expr
    case App(fn, args) => frames == [] && r == InterpretApp(fn, args, scope)
    case If(c, t, f) =>
      var cond := InterpretValue(c, scope);
      if cond.Err? then frames == [] && r == Err(cond.error)
      else if cond.value == Boolean(false) then Unfolds(f, scope, frames, r)
      else Unfolds(t, scope, frames, r)
    case LetRec(bs, body) =>
      |frames| > 0 &&
      var child := Env(frames[0], Some(scope));
      assert child.Frames() == [frames[0]] + scope.Frames();
      frames[0].entries == Declared(map[], Closures(bs, child)) &&
      Unfolds(body, child, frames[1..], r)
  }

  /** `interpretUntilCont` never returns a final value. */
  lemma {:induction false} UnfoldsToCall(expr: C.CExp, scope: Env<Value>, frames: seq<Table<Value>>, r: Outcome<Result, RuntimeError>)
    requires Unfolds(expr, scope, frames, r)
    ensures r.Ok? ==> r.value.NextCall?
    decreases expr
  {
    match expr
    case App(_, _) =>
    case If(c, t, f) =>
      var cond := InterpretValue(c, scope);
      if cond.Ok? {
        if cond.value == Boolean(false) {
          UnfoldsToCall(f, scope, frames, r);
        } else {
          UnfoldsToCall(t, scope, frames, r);
        }
      }
    case LetRec(_, body) =>
      UnfoldsToCall(body, Env(frames[0], Some(scope)), frames[1..], r);
  }

  /** `interpretUntilCont(expr, scope)`.  It writes only the frames it
      creates, each before anything runs in it, so the final heap explains
      the whole walk. */
  method InterpretUntilCont(expr: C.CExp, scope: Env<Value>) returns (r: Outcome<Result, RuntimeError>, ghost frames: seq<Table<Value>>)
    ensures Unfolds(expr, scope, frames, r)
    ensures forall t | t in frames :: fresh(t)
    decreases expr
  {
    scope.ChainAllocated();
    match expr
    case App(fn, args) =>
      r := InterpretApp(fn, args, scope);
      frames := [];
    case If(c, t, f) =>
      var cond := InterpretValue(c, scope);
      if cond.Err? {
        r := Err(cond.error);
        frames := [];
      } else if cond.value == Boolean(false) {
        r, frames := InterpretUntilCont(f, scope);
      } else {
        r, frames := InterpretUntilCont(t, scope);
      }
    case LetRec(bs, body) =>
      var child := scope.MakeChild();
      child.DeclareEach(Closures(bs, child));
      ghost var inner;
      r, inner := InterpretUntilCont(body, child);
      frames := [child.vars] + inner;
      assert frames[1..] == inner;
  }

  /** What `Callable.call(args)` does, given the tables of the frames it
      creates, outermost first: a built-in runs its lambda; a `Func` of the
      wrong arity fails with its name; any other `Func` binds its formals
      positionally in one child of the scope it closed over and unfolds its
      body there. */
  ghost predicate Steps(fn: Callable, args: List<Value>, frames: seq<Table<Value>>, r: Outcome<Result, RuntimeError>)
    reads StepReads(fn, frames)
  {
    match fn
    case Native(op) => frames == [] && r == ApplyPrimitive(op, args)
    case Func(name, formals, body, scope) =>
      if formals.Length() != args.Length() then frames == [] && r == Err(WrongArity(name))
      else
        |frames| > 0 &&
        var child := Env(frames[0], Some(scope));
        assert child.Frames() == [frames[0]] + scope.Frames();
        frames[0].entries == Declared(map[], formals.Zip(args)) &&
        Unfolds(body, child, frames[1..], r)
  }

  /** The tables a call reads: those of the callee's scope and those it
      creates. */
  ghost function StepReads(fn: Callable, frames: seq<Table<Value>>): set<Table<Value>> {
    (if fn.Func? then fn.scope.Chain() else {}) + set t | t in frames
  }

  /** `Callable.call`. */
  method Call(fn: Callable, args: List<Value>) returns (r: Outcome<Result, RuntimeError>, ghost frames: seq<Table<Value>>)
    ensures Steps(fn, args, frames, r)
    ensures forall t | t in frames :: fresh(t)
  {
    match fn
    case Native(op) =>
      r := ApplyPrimitive(op, args);
      frames := [];
    case Func(name, formals, body, scope) =>
      var expected := formals.Size();
      var given := args.Size();
      if expected != given {
        r := Err(WrongArity(name));
        frames := [];
      } else {
        var frame := scope.MakeChild();
        frame.DeclareEach(formals.Zip(args));
        ghost var inner;
        r, inner := InterpretUntilCont(body, frame);
        frames := [frame.vars] + inner;
        assert frames[1..] == inner;
      }
  }

  /** A call never yields a final value unless it is a call of `$$HALT`,
      and then the value is its first argument. */
  lemma StepsToFinal(fn: Callable, args: List<Value>, frames: seq<Table<Value>>, r: Outcome<Result, RuntimeError>)
    requires Steps(fn, args, frames, r)
    ensures r.Ok? && r.value.Final? ==>
      fn == Native(Halt) && args.Length() >= 1 && r.value.result == args.Elements()[0]
  {
    if fn.Func? && fn.formals.Length() == args.Length() {
      UnfoldsToCall(fn.body, Env(frames[0], Some(fn.scope)), frames[1..], r);
    }
  }

  /** The tables a run of `expr` reads while it produces `trace`: the
      global frame, the frames of the first walk, and those every call
      reads. */
  ghost function TraceReads(global: Env<Value>, trace: seq<Outcome<Result, RuntimeError>>, frames: seq<seq<Table<Value>>>): set<Table<Value>>
    requires 1 <= |trace| == |frames|
    decreases |trace|
  {
    if |trace| == 1 then global.Chain() + set t | t in frames[0]
    else
      var n := |trace| - 2;
      TraceReads(global, trace[..n + 1], frames[..n + 1]) +
      (if trace[n].Ok? && trace[n].value.NextCall? then StepReads(trace[n].value.fn, frames[n + 1]) else {})
  }

  /** `trace` is what `interpret(expr)` goes through in the global frame
      `global`: its first result is the walk of `expr` there; every result
      but the last is a `NextCall`, and calling it gives the next result, as
      `Steps` says, creating the corresponding entry of `frames`. */
  ghost predicate Runs(expr: C.CExp, global: Env<Value>, trace: seq<Outcome<Result, RuntimeError>>, frames: seq<seq<Table<Value>>>)
    requires 1 <= |trace| == |frames|
    reads TraceReads(global, trace, frames)
    decreases |trace|
  {
    if |trace| == 1 then Unfolds(expr, global, frames[0], trace[0])
    else
      var n := |trace| - 2;
      Runs(expr, global, trace[..n + 1], frames[..n + 1]) &&
      trace[n].Ok? && trace[n].value.NextCall? &&
      Steps(trace[n].value.fn, trace[n].value.arguments, frames[n + 1], trace[n + 1])
  }

  /** `Runs`, position by position. */
  lemma {:induction false} RunsSteps(expr: C.CExp, global: Env<Value>, trace: seq<Outcome<Result, RuntimeError>>, frames: seq<seq<Table<Value>>>)
    requires 1 <= |trace| == |frames|
    requires Runs(expr, global, trace, frames)
    ensures Unfolds(expr, global, frames[0], trace[0])
    ensures forall i | 0 <= i < |trace| - 1 ::
      trace[i].Ok? && trace[i].value.NextCall? &&
      Steps(trace[i].value.fn, trace[i].value.arguments, frames[i + 1], trace[i + 1])
    decreases |trace|
  {
    if |trace| > 1 {
      var n := |trace| - 2;
      RunsSteps(expr, global, trace[..n + 1], frames[..n + 1]);
    }
  }

  /** Growing a trace by one call adds that call's tables to what it
      reads. */
  lemma TraceReadsExtend(global: Env<Value>, trace: seq<Outcome<Result, RuntimeError>>, frames: seq<seq<Table<Value>>>,
                         next: Outcome<Result, RuntimeError>, more: seq<Table<Value>>)
    requires 1 <= |trace| == |frames|
    requires trace[|trace| - 1].Ok? && trace[|trace| - 1].value.NextCall?
    ensures TraceReads(global, trace + [next], frames + [more]) ==
      TraceReads(global, trace, frames) + StepReads(trace[|trace| - 1].value.fn, more)
  {
    var t, f := trace + [next], frames + [more];
    assert t[..|trace|] == trace && f[..|trace|] == frames;
  }

  /** A run whose last result is a `NextCall` grows by what that call
      gives. */
  lemma RunsExtend(expr: C.CExp, global: Env<Value>, trace: seq<Outcome<Result, RuntimeError>>, frames: seq<seq<Table<Value>>>,
                   next: Outcome<Result, RuntimeError>, more: seq<Table<Value>>)
    requires 1 <= |trace| == |frames| && Runs(expr, global, trace, frames)
    requires trace[|trace| - 1].Ok? && trace[|trace| - 1].value.NextCall?
    requires Steps(trace[|trace| - 1].value.fn, trace[|trace| - 1].value.arguments, more, next)
    ensures Runs(expr, global, trace + [next], frames + [more])
  {
    var t, f := trace + [next], frames + [more];
    var n := |t| - 2;
    assert t[..n + 1] == trace && f[..n + 1] == frames;
    assert t[n] == trace[|trace| - 1] && t[n + 1] == next && f[n + 1] == more;
  }

  /** One turn of the `interpret` loop, `nc.fn().call(nc.arguments())`,
      where `nc` ends a run so far: the run grows by what the call gives. */
  method Bounce(nc: Result, ghost expr: C.CExp, ghost global: Env<Value>,
                ghost trace: seq<Outcome<Result, RuntimeError>>, ghost frames: seq<seq<Table<Value>>>)
    returns (next: Outcome<Result, RuntimeError>, ghost more: seq<Table<Value>>)
    requires 1 <= |trace| == |frames| && trace[|trace| - 1] == Ok(nc) && nc.NextCall?
    requires Runs(expr, global, trace, frames)
    requires forall t | t in TraceReads(global, trace, frames) :: allocated(t)
    ensures Runs(expr, global, trace + [next], frames + [more])
    ensures forall t | t in TraceReads(global, trace + [next], frames + [more]) :: allocated(t)
  {
    if nc.fn.Func? {
      nc.fn.scope.ChainAllocated();
    }
    next, more := Call(nc.fn, nc.arguments);
    RunsExtend(expr, global, trace, frames, next, more);
    TraceReadsExtend(global, trace, frames, next, more);
  }

  /** How a run ends, given its last result: an exception, the value of a
      `Final`, or a call still to be made when the fuel ran out. */
  function Report(last: Outcome<Result, RuntimeError>): (run: Run)
    ensures run.Crashed? <==> last.Err?
    ensures last.Err? ==> run.error == last.error
    ensures run.Halted? <==> last.Ok? && last.value.Final?
    ensures run.Halted? ==> run.value == last.value.result
  {
    match last
    case Err(e) => Crashed(e)
    case Ok(Final(v)) => Halted(v)
    case Ok(NextCall(_, _)) => Exhausted
  }

  /** `interpret(expr)`, given at most `fuel` calls: a fresh global frame,
      the walk to the first call, then one call after another, as `Runs`
      says.  The run reports the last result the trampoline reached. */
  method Interpret(expr: C.CExp, fuel: nat)
    returns (run: Run, ghost global: Env<Value>, ghost trace: seq<Outcome<Result, RuntimeError>>, ghost frames: seq<seq<Table<Value>>>)
    ensures fresh(global.vars)
    ensures global.parent == None && global.vars.entries == Builtins()
    ensures 1 <= |trace| <= fuel + 1 && |frames| == |trace|
    ensures Runs(expr, global, trace, frames)
    ensures run == Report(trace[|trace| - 1])
    ensures run.Exhausted? ==> |trace| == fuel + 1
  {
    var scope := Global();
    global := scope;
    var first;
    ghost var walked;
    first, walked := InterpretUntilCont(expr, scope);
    scope.ChainAllocated();
    var last;
    last, trace, frames := Trampoline(first, expr, global, walked, fuel);
    run := Report(last);
  }

  /** The loop of `interpret`: from the walk's result `first`, make one call
      after another until an error or a final value, or until `fuel` calls
      were made; `last` is the result it stopped at. */
  method Trampoline(first: Outcome<Result, RuntimeError>, ghost expr: C.CExp, ghost global: Env<Value>,
                    ghost walked: seq<Table<Value>>, fuel: nat)
    returns (last: Outcome<Result, RuntimeError>, ghost trace: seq<Outcome<Result, RuntimeError>>, ghost frames: seq<seq<Table<Value>>>)
    requires Runs(expr, global, [first], [walked])
    requires forall t | t in TraceReads(global, [first], [walked]) :: allocated(t)
    ensures 1 <= |trace| <= fuel + 1 && |frames| == |trace|
    ensures Runs(expr, global, trace, frames)
    ensures last == trace[|trace| - 1]
    ensures last.Ok? && last.value.NextCall? ==> |trace| == fuel + 1
  {
    last := first;
    var steps := 0;
    trace := [first];
    frames := [walked];
    while last.Ok? && last.value.NextCall? && steps < fuel
      invariant |trace| == steps + 1 <= fuel + 1 && |frames| == |trace|
      invariant trace[steps] == last
      invariant Runs(expr, global, trace, frames)
      invariant forall t | t in TraceReads(global, trace, frames) :: allocated(t)
      decreases fuel - steps
    {
      var next;
      ghost var more;
      next, more := Bounce(last.value, expr, global, trace, frames);
      trace := trace + [next];
      frames := frames + [more];
      steps := steps + 1;
      last := next;
    }
  }

  /** A halted run ends with a call of `$$HALT`, and its value is that
      call's first argument. */
  lemma HaltedByHalt(expr: C.CExp, global: Env<Value>, trace: seq<Outcome<Result, RuntimeError>>, frames: seq<seq<Table<Value>>>)
    requires 1 <= |trace| == |frames|
    requires Runs(expr, global, trace, frames)
    requires trace[|trace| - 1].Ok? && trace[|trace| - 1].value.Final?
    ensures |trace| >= 2
    ensures var call := trace[|trace| - 2].value;
      call.fn == Native(Halt) && call.arguments.Length() >= 1 &&
      trace[|trace| - 1].value.result == call.arguments.Elements()[0]
  {
    RunsSteps(expr, global, trace, frames);
    if |trace| == 1 {
      UnfoldsToCall(expr, global, frames[0], trace[0]);
    } else {
      var n := |trace| - 2;
      StepsToFinal(trace[n].value.fn, trace[n].value.arguments, frames[n + 1], trace[n + 1]);
    }
  }
}
