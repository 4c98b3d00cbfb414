# ponzi in Dafny

A model of the core of *ponzi*, a small Scheme-like language in Java. The model covers:

- the continuation-passing-style (CPS) converter and the trampolined interpreter of `Continuations.java`;
- the direct tree-walking evaluator of `NaiveInterpreter.java`;
- the persistent `List` and `Option` containers that both depend on.

Modules, in dependency order:

| module | file | models |
|---|---|---|
| `Outcomes` | outcomes.dfy | `Ok`/`Err`, standing for a normal return or a thrown exception |
| `Lists` | lists.dfy | `List.java`: `Cons`/`Empty`. Pure operations are functions; `size`, `forEach` and `of` are loops |
| `Options` | options.dfy | `Option.java` |
| `Syntax` | syntax.dfy | the AST in the shape its callers use, including `LetRec` and `BindingSpec` |
| `Names` | names.dfy | the fresh names `"$$var" + n` and `"$$cont" + n`, with `n` rendered in decimal |
| `Cps` | cps.dfy | `CValue`, `CExp`, `BindingSpec`, and a sub-expression relation `Occurs` |
| `Converter` | converter.dfy | `Continuations.Converter` |
| `ConverterProperties` | converter_properties.dfy | when conversion succeeds, the shape of its output, the order of operands, and name freshness |
| `Scopes` | scopes.dfy | the `Env` record shared by both interpreters (see below) |
| `CpsInterpreter` | cps_interpreter.dfy | `Continuations.Interpreter` |
| `NaiveInterpreter` | naive_interpreter.dfy | `NaiveInterpreter` |
| `BuiltinsAgreement` | builtins_agreement.dfy | the link between the two evaluators' built-ins |
| `NaiveExamples` | naive_examples.dfy | small whole programs worked out from `Run` and `Interpret`'s contract |

## How the model is built

**Converter: continuations.** The Java converter's meta-continuations are lambdas. Here they are defunctionalised:

- `Cont` is a continuation that expects one atom;
- `ListCont` is a continuation that expects a list of atoms;
- `ApplyCont` and `ApplyListCont` play the lambdas' bodies.

**Converter: the counter.** The `lastVar` counter is a `Supply` value threaded through every step, in the Java evaluation order. It also logs every name drawn, so distinctness can be stated.

**Environments.** An environment is `Env(vars, parent)`, a datatype that mirrors the Java record. `vars` is a `Table`, a class whose `entries` map stands for the mutable `HashMap`.

- `makeChild` allocates a new `Table`.
- `declare` writes the `Table` of the receiver only.
- The only interpreter methods with a `modifies` clause are the naive evaluator's binding loops (`DeclareBindings`, `DeclareBinding`, `BindArguments`, `BindArgument`). Each names only the table of the child frame it fills; that table comes from the caller's `makeChild` and lies in no chain the loop reads from.
- Every other interpreter method writes only tables it allocated itself, so the tables of the caller's scopes stay unchanged.
- `declare` leaves every other name's lookup unchanged in every chain, even one in which a table occurs twice: it changes one binding of one table, and `LookupUnchanged` shows that a lookup depends only on the bindings of its own name.
- `Separate` says that no table occurs twice along a chain; `makeChild` preserves it, so every chain the interpreters build has that shape. The interpreters' proofs need only the weaker fact that the frame being filled is not in the chain being read, which a fresh `makeChild` table always satisfies.

**Specifying `interpretUntilCont`.** The CPS `interpretUntilCont` is specified against the ghost predicate `Unfolds`. It relates an expression, its scope and the frames the walk creates to the result.

**Specifying the trampoline.** `Steps` states what one call of `Callable.call` gives: a built-in's result, an arity error, or the unfolding of the body in a fresh frame holding the formals. `Runs` chains a walk and a sequence of calls: the first result is `Unfolds` of the program in the global frame, and each later result is `Steps` of the call before it. `Interpret` returns that sequence (as ghost values) with the global frame and the frames each step made.

**Specifying the naive evaluator.** `Evaluates` states what `interpret(ast, env)` gives, case by case. The frames a closure call or a letrec creates are passed to it as witnesses, which `Interpret` and `Run` return as ghost values. `BodyValue` is the value of a body made of atoms: the first failing statement's error, otherwise the return expression's value. Sub-expressions are evaluated through `Evaluate`, which promises just the value of an atom or a lambda.

**Built-ins.** The built-ins of both evaluators are closed tags (`Primitive`), not lambdas. Java `ClassCastException`s and `RuntimeException`s become `Err` values.

## Model

| member | source | states |
|---|---|---|
| Lists.List.Prepend | src/main/java/io/github/kustosz/ponzi/List.java:13-16 | the new list is `e` followed by the old elements; length + 1 (the `Empty` case at 60-62 too) |
| Lists.List.Append | src/main/java/io/github/kustosz/ponzi/List.java:18-21 | the elements are the old ones in order with `e` last; length + 1 (the `Empty` case at 64-67 too) |
| Lists.List.Map | src/main/java/io/github/kustosz/ponzi/List.java:23-26 | same length; element `i` is `f` of element `i` |
| Lists.List.Get | src/main/java/io/github/kustosz/ponzi/List.java:28-35 | succeeds exactly for `0 <= i < length`, with element `i`; any other index, negative ones included, fails in `Empty.get` with index `i - length` |
| Lists.List.Size | src/main/java/io/github/kustosz/ponzi/List.java:46-55 | the counting loop returns the number of cells |
| Lists.List.ForEach | src/main/java/io/github/kustosz/ponzi/List.java:37-44 | the consumer receives exactly the elements, once each, from head to tail |
| Lists.List.Zip | src/main/java/io/github/kustosz/ponzi/List.java:111-117 | length is the minimum of the two lengths; pair `i` is `(this[i], that[i])` |
| Lists.ElementsInjective | src/main/java/io/github/kustosz/ponzi/List.java:12 | two lists with the same elements are the same value, as record equality promises |
| Lists.Of | src/main/java/io/github/kustosz/ponzi/List.java:131-137 | the reverse loop builds a list with exactly the given elements in the given order |
| Options.Option.Map | src/main/java/io/github/kustosz/ponzi/Option.java:29-32 | `None` stays `None`; `Some(v)` becomes `Some(f(v))` |
| Options.Option.Get | src/main/java/io/github/kustosz/ponzi/Option.java:39-42 | succeeds exactly on `Some`, with its value; `None.get` (22-25) fails |
| Options.Option.Stream | src/main/java/io/github/kustosz/ponzi/Option.java:34-37 | at most one element; exactly the value for `Some`, none for `None` |
| Options.Of | src/main/java/io/github/kustosz/ponzi/Option.java:45-51 | `None` exactly for null; otherwise `Some` of the value |
| Options.OfThenGet | src/main/java/io/github/kustosz/ponzi/Option.java:45-51 | `of(v).get()` returns `v`; `of(null).get()` fails |
| Options.MapStream | src/main/java/io/github/kustosz/ponzi/Option.java:28-37 | the stream of `map(f)` is the stream mapped through `f` |
| Names.DecimalInjective | src/main/java/io/github/kustosz/ponzi/Continuations.java:69 | different counter values give different decimal suffixes, because parsing the suffix back recovers the counter |
| Names.FreshNamesDistinct | src/main/java/io/github/kustosz/ponzi/Continuations.java:68-74 | a `genVar` name never equals a `genCont` name; different counter values give different names |
| Converter.Convert | src/main/java/io/github/kustosz/ponzi/Continuations.java:80-122 | the counter never decreases; names are only added to the log; a well-formed log stays well formed |
| Converter.ConvertLambda | src/main/java/io/github/kustosz/ponzi/Continuations.java:84-91 | the counter advances as for `Convert` (shape in `LambdaShape`) |
| Converter.ConvertCall | src/main/java/io/github/kustosz/ponzi/Continuations.java:92-100 | the counter advances as for `Convert` (shape in `CallShape`) |
| Converter.ConvertLetRec | src/main/java/io/github/kustosz/ponzi/Continuations.java:102-105 | the counter advances as for `Convert` (shape in `LetRecShape`) |
| Converter.ConvertConditional | src/main/java/io/github/kustosz/ponzi/Continuations.java:107-120 | the counter advances as for `Convert` (shape in `AtomicConditional`) |
| Converter.ApplyCont | src/main/java/io/github/kustosz/ponzi/Continuations.java:114-118 | applying any of the converter's atom continuations only advances the counter |
| Converter.ConvertMany | src/main/java/io/github/kustosz/ponzi/Continuations.java:135-141 | the counter advances as for `Convert` (order in `ConvertManyReachesCont`) |
| Converter.ApplyListCont | src/main/java/io/github/kustosz/ponzi/Continuations.java:96-97 | applying a list continuation only advances the counter |
| Converter.ConvertBinding | src/main/java/io/github/kustosz/ponzi/Continuations.java:124-133 | the counter advances as for `Convert` |
| Converter.ConvertBindings | src/main/java/io/github/kustosz/ponzi/Continuations.java:103 | the counter advances as for `Convert` (order in `ConvertBindingsShape`) |
| Converter.GenVar | src/main/java/io/github/kustosz/ponzi/Continuations.java:68-70 | the name is `$$var` followed by the counter; the counter goes up by one and the name is logged |
| Converter.GenCont | src/main/java/io/github/kustosz/ponzi/Continuations.java:72-74 | the name is `$$cont` followed by the counter; the counter goes up by one and the name is logged |
| ConverterProperties.ApplyListContSucceeds | src/main/java/io/github/kustosz/ponzi/Continuations.java:96-97 | a list continuation always succeeds and draws no name |
| ConverterProperties.ConvertSucceeds | src/main/java/io/github/kustosz/ponzi/Continuations.java:80-122 | conversion succeeds exactly when no conditional lacks an else-branch and every letrec binding is a lambda, in the expression and in the pending continuation |
| ConverterProperties.ApplyContSucceeds | src/main/java/io/github/kustosz/ponzi/Continuations.java:114-118 | a continuation succeeds exactly when the work it still holds is convertible |
| ConverterProperties.ConvertManySucceeds | src/main/java/io/github/kustosz/ponzi/Continuations.java:135-141 | a list converts exactly when every element does |
| ConverterProperties.ConvertBindingsSucceed | src/main/java/io/github/kustosz/ponzi/Continuations.java:124-133 | bindings convert exactly when each one is a lambda whose return expression converts |
| ConverterProperties.CompileSucceeds | src/main/java/io/github/kustosz/ponzi/Continuations.java:76-78 | `compile` succeeds exactly on convertible programs |
| ConverterProperties.MissingElseFails | src/main/java/io/github/kustosz/ponzi/Continuations.java:111-113 | a conditional without an else-branch always fails; when its then-branch converts, it fails with `MissingElse` |
| ConverterProperties.NonLambdaBindingFails | src/main/java/io/github/kustosz/ponzi/Continuations.java:125-131 | a letrec with a non-lambda binding always fails; when that binding is first, the error names it |
| ConverterProperties.ConvertReachesCont | src/main/java/io/github/kustosz/ponzi/Continuations.java:80-122 | an atom goes straight to the continuation; any successful conversion contains what the continuation makes of the operand the expression hands on: its own atom, a letrec's return operand, or else a name drawn during this conversion |
| ConverterProperties.ConvertManyReachesCont | src/main/java/io/github/kustosz/ponzi/Continuations.java:135-141 | `convertMany` hands its continuation one operand per expression, converted head first: each expression's operand (its own atom when atomic) comes from a counter span that follows the spans of the expressions before it |
| ConverterProperties.ConvertManyAtomic | src/main/java/io/github/kustosz/ponzi/Continuations.java:135-141 | for atomic expressions, `convertMany` is its continuation applied to their atoms in source order |
| ConverterProperties.CallShape | src/main/java/io/github/kustosz/ponzi/Continuations.java:92-99 | a call becomes a letrec with one binding `r = $$cont<n>`, one formal `$$cont<n+1>` and body `k(x)`; inside, an `App` passes the callee's operand, one operand per argument in order, then `Var(r)`; the callee's span ends before the arguments' spans begin |
| ConverterProperties.AtomicCall | src/main/java/io/github/kustosz/ponzi/Continuations.java:92-99 | with an atomic callee and atomic arguments, the exact output `(letrec ((r (x) k[x])) (f a1 .. an r))` |
| ConverterProperties.LambdaShape | src/main/java/io/github/kustosz/ponzi/Continuations.java:84-90 | a lambda becomes one binding named `$$var<n>`, with formals = source formals + `$$cont<n+1>`; its body returns to that name; the continuation receives `Var($$var<n>)` |
| ConverterProperties.ConvertBindingsShape | src/main/java/io/github/kustosz/ponzi/Continuations.java:103-129 | same count and identifiers, in order; each binding's formals are the lambda's formals followed by one `$$cont` name drawn during this conversion, and those counters increase along the list (head first) |
| ConverterProperties.BindingCounters | src/main/java/io/github/kustosz/ponzi/Continuations.java:103-129 | the counters of `ConvertBindingsShape` given outright: one per binding, strictly increasing, each within this conversion's span, each binding converted with its counter |
| ConverterProperties.LetRecShape | src/main/java/io/github/kustosz/ponzi/Continuations.java:102-104 | a letrec becomes a letrec over the converted bindings, with the same count and names |
| ConverterProperties.AtomicConditional | src/main/java/io/github/kustosz/ponzi/Continuations.java:107-119 | with an atomic test, a join binding `k (x)` wraps `(if test ifT ifF)`, and both branches return to `k` |
| ConverterProperties.CompileHalts | src/main/java/io/github/kustosz/ponzi/Continuations.java:77 | every compiled program contains a call `($$HALT v)` |
| ConverterProperties.DrawnDistinct | src/main/java/io/github/kustosz/ponzi/Continuations.java:66-74 | a well-formed log of drawn names has no repeats |
| ConverterProperties.GenFresh | src/main/java/io/github/kustosz/ponzi/Continuations.java:66-74 | `genVar` and `genCont` return a name not drawn before and keep the log well formed |
| ConverterProperties.CompileNamesDistinct | src/main/java/io/github/kustosz/ponzi/Continuations.java:66-74 | all names drawn during one `compile` are pairwise distinct |
| ConverterProperties.CompileSum | src/main/java/io/github/kustosz/ponzi/Continuations.java:76-78 | `(+ 2 3)` compiles to `(letrec (($$cont0 ($$cont1) ($$HALT $$cont1))) (+ 2 3 $$cont0))` |
| Scopes.Env.Lookup | src/main/java/io/github/kustosz/ponzi/Continuations.java:251-269 | a name bound in the receiver's own table gives that binding; in a parentless frame the lookup succeeds exactly for the names of its table (the naive `lookup`, NaiveInterpreter.java:47-65, is the same) |
| Scopes.Env.LookupNearest | src/main/java/io/github/kustosz/ponzi/Continuations.java:251-269 | lookup fails exactly when no frame binds the name; otherwise it returns the binding of the nearest frame that has it |
| Scopes.Env.MakeChild | src/main/java/io/github/kustosz/ponzi/Continuations.java:271-273 | a fresh, empty frame whose parent is the receiver; every lookup is the parent's; no existing table changes |
| Scopes.Env.Declare | src/main/java/io/github/kustosz/ponzi/Continuations.java:275-278 | only the receiver's table changes, to `x := v`; `x` now looks up to `v`; no other name's lookup changes |
| Scopes.Env.LookupUnchanged | src/main/java/io/github/kustosz/ponzi/Continuations.java:251-269 | a heap change that keeps every table's binding of a name keeps that name's lookup, repeated tables included |
| Scopes.Env.DeclareEach | src/main/java/io/github/kustosz/ponzi/Continuations.java:200 | declaring the pairs in order leaves the table as `Declared` says, so a later pair wins |
| Scopes.Root | src/main/java/io/github/kustosz/ponzi/Continuations.java:225 | a fresh, empty table with no parent |
| Scopes.DeclaredDistinct | src/main/java/io/github/kustosz/ponzi/Continuations.java:200 | with distinct keys, each key gets its own value, and other names keep their old binding |
| NaiveInterpreter.FormalsBound | src/main/java/io/github/kustosz/ponzi/NaiveInterpreter.java:120-122 | in a call's frame, pairwise distinct formals look up to their own arguments: formal `i` gives argument `i` |
| CpsInterpreter.ApplyPrimitive | src/main/java/io/github/kustosz/ponzi/Continuations.java:226-246 | succeeds exactly on well-typed arguments; too few arguments fail with the Java index; only `$$HALT` yields `Final`, of its first argument; the others call the argument at index arity − 1 (the last one at exact arity; `zero?` index 1, the rest index 2) with a one-element list: `zero?`, product, sum, difference |
| CpsInterpreter.Global | src/main/java/io/github/kustosz/ponzi/Continuations.java:224-249 | a fresh parentless frame holding exactly the six built-ins |
| CpsInterpreter.InterpretValue | src/main/java/io/github/kustosz/ponzi/Continuations.java:145-150 | a number is itself; a variable is its lookup; the only failure is an unbound variable |
| CpsInterpreter.InterpretValues | src/main/java/io/github/kustosz/ponzi/Continuations.java:156 | same length; each operand interpreted in the scope |
| CpsInterpreter.InterpretValuesFirstError | src/main/java/io/github/kustosz/ponzi/Continuations.java:156 | the list succeeds when every operand does (the converse is in `InterpretValues`'s contract), and a failing list carries the error of its first failing operand, every operand before it succeeding |
| CpsInterpreter.InterpretApp | src/main/java/io/github/kustosz/ponzi/Continuations.java:154-158 | succeeds exactly when the callee is bound to a callable and all operands are bound; the result is `NextCall(callee, operands)`; a callee error comes first |
| CpsInterpreter.Closures | src/main/java/io/github/kustosz/ponzi/Continuations.java:169-170 | one closure per binding, in order, each named by the binding and capturing the given scope |
| CpsInterpreter.UnfoldsToCall | src/main/java/io/github/kustosz/ponzi/Continuations.java:152-174 | `interpretUntilCont` never produces a `Final` |
| CpsInterpreter.InterpretUntilCont | src/main/java/io/github/kustosz/ponzi/Continuations.java:152-174 | the walk follows `Unfolds`: `If` takes the else branch exactly on `Boolean(false)`; each `LetRec` makes one fresh child holding all its closures, each capturing that child, before the body runs there |
| CpsInterpreter.Call | src/main/java/io/github/kustosz/ponzi/Continuations.java:193-203 | `Steps`: a built-in runs `ApplyPrimitive`; a wrong arity fails with the function's name; otherwise a fresh child of the closure's scope holds the formals zipped with the arguments and the body unfolds there |
| CpsInterpreter.StepsToFinal | src/main/java/io/github/kustosz/ponzi/Continuations.java:193-246 | a call that yields `Final` is a call of `$$HALT` with at least one argument, and the value is its first argument |
| CpsInterpreter.RunsSteps | src/main/java/io/github/kustosz/ponzi/Continuations.java:176-183 | a run, position by position: its first result is the walk of the program in the global frame, and each later result is the call of the `NextCall` before it |
| CpsInterpreter.RunsExtend | src/main/java/io/github/kustosz/ponzi/Continuations.java:179-181 | making the pending call of a run's last result extends the run by one step |
| CpsInterpreter.Bounce | src/main/java/io/github/kustosz/ponzi/Continuations.java:180 | one trampoline bounce: calling the last `NextCall` extends the run by what `Call` gives |
| CpsInterpreter.Trampoline | src/main/java/io/github/kustosz/ponzi/Continuations.java:178-182 | the loop makes at most `fuel` calls, each the step `Runs` demands; it stops at the first error or `Final`, or with a call pending only when the fuel is spent |
| CpsInterpreter.Report | src/main/java/io/github/kustosz/ponzi/Continuations.java:182 | an error crashes the run with that error; a `Final` halts it with its value; a pending call leaves it exhausted |
| CpsInterpreter.Interpret | src/main/java/io/github/kustosz/ponzi/Continuations.java:176-183 | runs `expr` from a freshly allocated parentless frame holding exactly the built-ins: the trace of results is `Runs` of `expr`, at most `fuel` calls long, and the run reports its last result |
| CpsInterpreter.HaltedByHalt | src/main/java/io/github/kustosz/ponzi/Continuations.java:179-183 | a halted run ends with a call of `$$HALT`, and its value is that call's first argument |
| NaiveInterpreter.ApplyBuiltin | src/main/java/io/github/kustosz/ponzi/NaiveInterpreter.java:30-42 | `zero?` is `Boolean(arg0 == Number(0))`; `*` is the product; `+` and `add` are the sum; `subtract` is the difference; errors are a missing argument and a non-number operand |
| NaiveInterpreter.Global | src/main/java/io/github/kustosz/ponzi/NaiveInterpreter.java:28-45 | a fresh parentless frame holding exactly the five built-ins |
| NaiveInterpreter.Select | src/main/java/io/github/kustosz/ponzi/NaiveInterpreter.java:93-101 | the else-branch exactly when the test is `Boolean(false)` and one exists; no branch (so `NoValue`) when it is absent; otherwise the then-branch |
| NaiveInterpreter.AtomValues | src/main/java/io/github/kustosz/ponzi/NaiveInterpreter.java:126 | the values of atomic arguments in order: same length, each the atom's value |
| NaiveInterpreter.AtomValuesFail | src/main/java/io/github/kustosz/ponzi/NaiveInterpreter.java:126 | atomic arguments fail exactly when one is unbound, with the error of the first such one |
| NaiveInterpreter.AtomValuesOk | src/main/java/io/github/kustosz/ponzi/NaiveInterpreter.java:126 | atoms with the given values position by position have exactly those values as `AtomValues` |
| NaiveInterpreter.AtomValuesFirstErr | src/main/java/io/github/kustosz/ponzi/NaiveInterpreter.java:126 | when the atoms before a position have values and the atom there is unbound, `AtomValues` fails with its error |
| NaiveInterpreter.Run | src/main/java/io/github/kustosz/ponzi/NaiveInterpreter.java:82-84 | evaluation in a freshly allocated global frame that has no parent and holds exactly the five built-ins, with the result `Evaluates` gives for that frame; in particular a number is itself and a name is a built-in or unbound |
| NaiveInterpreter.Interpret | src/main/java/io/github/kustosz/ponzi/NaiveInterpreter.java:86-131 | `Evaluates`: an atom is its value; a lambda is a closure over the current environment, its body not run; with an atom or a lambda as callee: the callee's error, a non-function fails, a wrong arity fails, a built-in over atomic arguments is `ApplyBuiltin` of their values, a closure over atomic arguments fails with the first unbound one, fails with `OutOfFuel` at zero fuel, and otherwise runs a body made of atoms (`BodyValue`) in a frame under the closure's scope holding exactly the formals zipped with the argument values; with an atomic test: its error is the result, a missing else-branch gives `NoValue`, an atomic branch gives its value; a letrec of lambdas with a body made of atoms gives `BodyValue` in a child of the current environment holding exactly the bindings' closures over that child |
| NaiveInterpreter.Evaluate | src/main/java/io/github/kustosz/ponzi/NaiveInterpreter.java:87-90 | a sub-expression that is an atom or a lambda evaluates to its `DirectValue`: its value, or the closure over the environment |
| NaiveExamples.RunSum | src/main/java/io/github/kustosz/ponzi/NaiveInterpreter.java:126 | `(+ 2 3)` in the global frame gives 5 |
| NaiveExamples.RunIdentity | src/main/java/io/github/kustosz/ponzi/NaiveInterpreter.java:114-124 | `((lambda (x) x) 5)` gives 5 |
| NaiveExamples.RunSecond | src/main/java/io/github/kustosz/ponzi/NaiveInterpreter.java:114-124 | `((lambda (x y) y) 1 2)` gives 2: each formal is bound to its own argument |
| NaiveExamples.RunIdentityNoFuel | src/main/java/io/github/kustosz/ponzi/NaiveInterpreter.java:114-124 | `((lambda (x) x) 5)` with no fuel left gives `OutOfFuel` |
| NaiveExamples.RunLetRecClosure | src/main/java/io/github/kustosz/ponzi/NaiveInterpreter.java:104-110 | `(letrec ((f (lambda (x) x))) f)` gives the closure over the letrec's own frame, a child of the current environment |
| NaiveInterpreter.EvalConditional | src/main/java/io/github/kustosz/ponzi/NaiveInterpreter.java:91-102 | the test is evaluated first, to its value when atomic; its error is the result; otherwise the branch is `Select`'s, `NoValue` when there is none, and an atomic branch's value |
| NaiveInterpreter.EvalLetRec | src/main/java/io/github/kustosz/ponzi/NaiveInterpreter.java:104-110 | one fresh child frame; on success, and always when every binding is a lambda, it holds exactly the bindings in order, as `BindingsBound` says; an atomic return expression gives its value in that child; with lambda bindings and a body made of atoms the result is that body's `BodyValue` in the child |
| NaiveInterpreter.DeclareBindings | src/main/java/io/github/kustosz/ponzi/NaiveInterpreter.java:106-107 | each binding is evaluated in the child and declared there before the next: on success the frame gains exactly those pairs, under the bindings' names; lambda values capture the child; an atomic binding has its value in the frame as it stood after the bindings before it; bindings that are all lambdas always succeed |
| NaiveInterpreter.DeclareBinding | src/main/java/io/github/kustosz/ponzi/NaiveInterpreter.java:106-107 | one binding: an atom's value in the child frame as it stands, a lambda's closure over the child; on success the frame gains that one entry |
| NaiveInterpreter.RunStatements | src/main/java/io/github/kustosz/ponzi/NaiveInterpreter.java:108 | no statements means no failure; a block of atoms succeeds exactly when `AtomValues` does, and otherwise fails with the first unbound statement's error |
| NaiveInterpreter.EvaluateArguments | src/main/java/io/github/kustosz/ponzi/NaiveInterpreter.java:126 | one value per argument; for atomic arguments, exactly `AtomValues` |
| NaiveInterpreter.Apply | src/main/java/io/github/kustosz/ponzi/NaiveInterpreter.java:112-129 | a non-function fails; a closure with the wrong arity fails; a built-in applies `ApplyBuiltin` to the evaluated arguments; a closure's frame holds the formals zipped with the argument values; atomic arguments have their values in the caller's environment; a closure of matching arity over atomic arguments fails with the first unbound one, fails with `OutOfFuel` at zero fuel, and otherwise gives its atomic body's `BodyValue` in the closure's frame |
| NaiveInterpreter.ApplyClosure | src/main/java/io/github/kustosz/ponzi/NaiveInterpreter.java:115-125 | a fresh child of the closure's scope; a wrong arity fails; on success the child holds exactly the formals zipped with the argument values, atomic arguments having their values in the caller's environment, and an atomic return expression gives its value in the child; at matching arity over atomic arguments: the first unbound argument's error, `OutOfFuel` at zero fuel, otherwise the atomic body's `BodyValue` in the child |
| NaiveInterpreter.BindArguments | src/main/java/io/github/kustosz/ponzi/NaiveInterpreter.java:120-122 | argument `i` is evaluated in the caller's environment and declared under formal `i`: the frame gains the formals zipped with the values, and an atomic argument's value is its value there; atomic arguments bind successfully exactly when `AtomValues` succeeds, to its values, and otherwise fail with its error |
| NaiveInterpreter.BindArgument | src/main/java/io/github/kustosz/ponzi/NaiveInterpreter.java:121 | one argument: an atom's value in the caller's environment; on success the child frame gains that one entry |
| BuiltinsAgreement.BuiltinsAgree | src/main/java/io/github/kustosz/ponzi/Continuations.java:226-244 | on numbers, each CPS built-in calls its continuation with exactly the value the naive built-in of the same name (NaiveInterpreter.java:30-42) returns |

## Left out

- `Parser.java` and `App.java` are not part of this model. They hold an ANTLR visitor over generated classes, plus file reading and printing.
- `Ast.java` is modelled only as a datatype, in the shape its callers use. That shape is the repository's `List` and `Option` plus the `LetRec` and `BindingSpec` variants; the file as shipped has neither variant and uses `java.util` types.
- The `toString` pretty-printers of `CValue`, `CExp` and `BindingSpec` are left out. They are debug output only.
- The `System.out.println` in `Env.lookup` is left out; a failed lookup is an `Err` result.
- Integers are unbounded. Java `long` wrap-around of runtime numbers is not modelled, nor the 32-bit `int` of `CValue.Number`, `Ast.Number` and the converter's `lastVar`.
- `List.stream`, `List.empty` and the array overload of `List.of` are left out. `stream` is `forEach` into a builder (`ForEach` models the order); `empty` is the `Empty` value; the array `of` is the same loop as the collection `of`.
- `Converter.Compile` has no contract of its own. `CompileSucceeds`, `CompileHalts`, `CompileNamesDistinct` and `CompileSum` state what it does.
- The `Converter` class with its mutable `lastVar` field is modelled as a threaded `Supply` value. Every conversion step takes the counter and returns the advanced one, so no step can observe an alias.
- The statements of a `Lambda` or `LetRec` are dropped by the converter, as in the source (its `todo BODY` markers): only the bindings and the return expression are converted. The naive evaluator does run them.
- The converter's `$$var`/`$$cont` names could collide with user identifiers starting with `$$`. The model does not rule this out, because what the parser accepts is not part of this model.
- Trampoline termination is not provable in general. `CpsInterpreter.Interpret` takes a bound on the number of calls (`fuel`) and may end `Exhausted`.
- The naive evaluator's recursion is bounded by `fuel`, which drops by one on each closure entry; it fails with `OutOfFuel` at zero. The Java code has no such bound; it would overflow the stack instead.
- CpsInterpreter.Interpret: the trace is tied to `expr` step by step through `Runs`, but the frames are ghost values the run itself creates, so the contract does not give the run's value as a function of `expr` alone. A big-step meaning of CPS programs is not part of this model.
- NaiveInterpreter.Interpret: `Evaluates` is per case, not a full big-step relation. It fixes the result when every sub-expression involved is an atom, or a lambda in binding or callee position; a call, conditional or letrec nested inside another expression is evaluated by a recursive call whose own contract is again per case, so `(letrec ((f (lambda (x) x))) (f 5))` is tied to its value only through that nested call.
- NaiveInterpreter.EvalConditional: a non-atomic test or branch is tied to the program only through `Interpret`'s per-case contract.
- NaiveInterpreter.EvalLetRec: a binding that is neither an atom nor a lambda, and a statement or return expression that is not an atom, are tied to the program only through `Interpret`'s per-case contract.
- NaiveInterpreter.DeclareBindings: a binding that is neither an atom nor a lambda gets the value of a recursive `Interpret`, which its contract fixes only per case.
- NaiveInterpreter.BindArguments: a non-atomic argument gets the value of a recursive `Interpret`, which its contract fixes only per case.
- NaiveInterpreter.Apply: the same gap as `BindArguments` for non-atomic arguments; a statement or return expression of the closure that is not an atom is tied to the result only through `Interpret`'s per-case contract.
- NaiveInterpreter.ApplyClosure: the same gap as `BindArguments` for non-atomic arguments; a statement or return expression that is not an atom is tied only through `Interpret`'s per-case contract.
- Converter.ConvertMany: its own contract states only that the counter advances. The head-before-tail order and the operands handed on are stated by `ConvertManyReachesCont` instead, so that the function keeps a small contract.
- Converter.ConvertBindings: its own contract states only that the counter advances. The head-first order and the shape of each converted binding are stated by `ConvertBindingsShape`.
- ConverterProperties.ConvertManyReachesCont: a non-atomic expression's operand is pinned to its counter span, not to the one name inside it that the source passes on.
- ConverterProperties.CallShape: the callee's operand `f` is given by its counter span (or its own atom), not named exactly.
- NaiveInterpreter.RunStatements: a block with a non-atomic statement is stated only to succeed when empty; its statements go through `Interpret`'s per-case contract. Statement values are discarded, as in the source.
- Java `equals` on records is modelled as Dafny value equality. This includes the `Boolean(false)` test and `zero?`'s comparison with `Number(0)`. A closure's scope is compared by its table references, which matches the Java record's `HashMap` equality only when the tables are the same objects.
