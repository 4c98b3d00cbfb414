/** Whole programs run by the naive interpreter, worked out from the
    contract of `Run` and `Interpret`. */
module NaiveExamples {
  import opened Outcomes
  import opened Lists
  import opened Options
  import opened Scopes
  import S = Syntax
  import opened NaiveInterpreter

  /** `(+ 2 3)` in the global frame gives 5. */
  lemma RunSum(global: Env<Value>, fuel: nat, r: Outcome<Value, RuntimeError>, frame: Table<Value>, bound: List<(string, Value)>)
    requires global.parent == None && global.vars.entries == Builtins()
    requires Evaluates(S.Call(S.Ident("+"), Cons(S.Number(2), Cons(S.Number(3), Empty))), global, fuel, r, frame, bound)
    ensures r == Ok(Number(5))
  {
    var args := Cons(S.Number(2), Cons(S.Number(3), Empty));
    assert DirectValue(S.Ident("+"), global) == Ok(BuiltinFunc(Plus));
    assert AtomValues(Cons(S.Number(3), Empty), global) == Ok(Cons(Number(3), Empty));
    assert AtomValues(args, global) == Ok(Cons(Number(2), Cons(Number(3), Empty)));
  }

  /** `((lambda (x) x) 5)` gives 5, in any frame and with any fuel left. */
  lemma RunIdentity(env: Env<Value>, fuel: nat, r: Outcome<Value, RuntimeError>, frame: Table<Value>, bound: List<(string, Value)>)
    requires fuel > 0
    requires Evaluates(S.Call(S.Lambda(Cons("x", Empty), Empty, S.Ident("x")), Cons(S.Number(5), Empty)), env, fuel, r, frame, bound)
    ensures r == Ok(Number(5))
  {
    var vs := Cons(Number(5), Empty);
    assert AtomValues(Cons(S.Number(5), Empty), env) == Ok(vs);
    assert Cons("x", Empty).Zip(vs) == Cons(("x", Number(5)), Empty);
    assert frame.entries == map["x" := Number(5)];
  }

  /** `((lambda (x y) y) 1 2)` gives 2: each formal is bound to its own
      argument. */
  lemma RunSecond(env: Env<Value>, fuel: nat, r: Outcome<Value, RuntimeError>, frame: Table<Value>, bound: List<(string, Value)>)
    requires fuel > 0
    requires Evaluates(S.Call(S.Lambda(Cons("x", Cons("y", Empty)), Empty, S.Ident("y")), Cons(S.Number(1), Cons(S.Number(2), Empty))),
                       env, fuel, r, frame, bound)
    ensures r == Ok(Number(2))
  {
    var formals := Cons("x", Cons("y", Empty));
    var vs := Cons(Number(1), Cons(Number(2), Empty));
    assert AtomValues(Cons(S.Number(2), Empty), env) == Ok(Cons(Number(2), Empty));
    assert AtomValues(Cons(S.Number(1), Cons(S.Number(2), Empty)), env) == Ok(vs);
    FormalsBound(formals, vs, frame, env);
    assert formals.Elements()[1] == "y" && vs.Elements()[1] == Number(2);
  }

  /** `((lambda (x) x) 5)` with no fuel left fails with `OutOfFuel`. */
  lemma RunIdentityNoFuel(env: Env<Value>, r: Outcome<Value, RuntimeError>, frame: Table<Value>, bound: List<(string, Value)>)
    requires Evaluates(S.Call(S.Lambda(Cons("x", Empty), Empty, S.Ident("x")), Cons(S.Number(5), Empty)), env, 0, r, frame, bound)
    ensures r == Err(OutOfFuel)
  {
    assert AtomValues(Cons(S.Number(5), Empty), env) == Ok(Cons(Number(5), Empty));
  }

  /** `(letrec ((f (lambda (x) x))) f)` gives the closure of the lambda
      over the letrec's own frame, whose parent is `env`. */
  lemma RunLetRecClosure(env: Env<Value>, fuel: nat, r: Outcome<Value, RuntimeError>, frame: Table<Value>, bound: List<(string, Value)>)
    requires Evaluates(S.LetRec(Cons(S.BindingSpec("f", S.Lambda(Cons("x", Empty), Empty, S.Ident("x"))), Empty), Empty, S.Ident("f")),
                       env, fuel, r, frame, bound)
    ensures r == Ok(Func(Cons("x", Empty), Empty, S.Ident("x"), Env(frame, Some(env))))
  {
    var b := S.BindingSpec("f", S.Lambda(Cons("x", Empty), Empty, S.Ident("x")));
    assert Cons(b, Empty).Elements() == [b];
    assert LambdaBindings(Cons(b, Empty));
    assert bound.Length() == 1;
    assert BoundAt(b, bound.Elements()[0], Declared(map[], bound.Prefix(0)), Env(frame, Some(env)));
    assert bound == Cons(("f", Func(Cons("x", Empty), Empty, S.Ident("x"), Env(frame, Some(env)))), Empty);
    assert Declared(map[], bound) == Declared(map[]["f" := bound.head.1], Empty);
  }
}
