/** Local assignments of a query (localBindings) and the static scope of the lambdas they define. */
module LambdaScopes {
  import opened Wrappers
  import opened Types
  import opened Expressions
  import opened TypingRules
  import opened Resolver

  // ---------------------------------------------------------------- free names

  function Free(e: Expr): set<string>
    decreases e, 0
  {
    match e
    case Lit(_) => {}
    case Bind(name) => {name}
    case Column(_, _) => {}
    case Arithmetic(operands, _) => FreeAll(operands)
    case Logic(_, operands) => FreeAll(operands)
    case Concat(operands) => FreeAll(operands)
    case Compare(operands, _) => FreeAll(operands)
    case NullCheck(operand, _) => Free(operand)
    case InValues(left, values) => Free(left) + FreeAll(values)
    case InList(left, list) => Free(left) + Free(list)
    case Case(selector, conditions, results, otherwise) =>
      (if selector.Some? then Free(selector.value) else {}) + FreeAll(conditions) + FreeAll(results) + Free(otherwise)
    case If(arguments) => FreeAll(arguments)
    case Coalesce(arguments) => FreeAll(arguments)
    case AsStruct(_, values) => FreeAll(values)
    case AsList(values) => FreeAll(values)
    case ListCreate(_) => {}
    case Member(base, _) => Free(base)
    case ListApply(_, list, Inline(lambda)) => Free(list) + FreeLambda(lambda)
    case ListApply(_, list, Named(name)) => Free(list) + {name}
    case Invoke(name, arguments) => {name} + FreeAll(arguments)
  }

  function FreeAll(es: seq<Expr>): set<string>
    decreases es, 0
  {
    if es == [] then {} else FreeAll(es[..|es| - 1]) + Free(es[|es| - 1])
  }

  /** The names a lambda takes from where it is written. */
  function FreeLambda(lambda: Lambda): set<string>
    decreases lambda, |lambda.locals| + 1
  {
    FreeBody(lambda, 0) - set name <- lambda.parameters
  }

  function FreeBody(lambda: Lambda, i: nat): set<string>
    requires i <= |lambda.locals|
    decreases lambda, |lambda.locals| - i
  {
    if i == |lambda.locals| then Free(lambda.result)
    else Free(lambda.locals[i].value) + (FreeBody(lambda, i + 1) - {lambda.locals[i].name})
  }

  // ---------------------------------------------------------------- coincidence

  ghost predicate SameAt<V>(a: map<string, V>, b: map<string, V>, name: string) {
    (name in a <==> name in b) && (name in a && name in b ==> a[name] == b[name])
  }

  /** Both scopes give the listed names the same type and the same captured lambda. */
  ghost predicate AgreeOn(a: Scope, b: Scope, names: set<string>) {
    && a.relations == b.relations
    && forall name <- names :: SameAt(a.bindings, b.bindings, name) && SameAt(a.lambdas.table, b.lambdas.table, name)
  }

  lemma AgreeOnPart(a: Scope, b: Scope, names: set<string>, part: set<string>)
    requires AgreeOn(a, b, names) && part <= names
    ensures AgreeOn(a, b, part)
  {
  }

  /** An expression means the same wherever its free names do. */
  lemma {:induction false} Coincidence(e: Expr, a: Scope, b: Scope)
    requires AgreeOn(a, b, Free(e))
    ensures Resolve(e, a) == Resolve(e, b)
    decreases e, 1
  {
    hide AgreeOn, Resolve, Free;
    match e
    case Lit(_) => LeafCoincidence(e, a, b);
    case Bind(_) => LeafCoincidence(e, a, b);
    case Column(_, _) => LeafCoincidence(e, a, b);
    case ListCreate(_) => LeafCoincidence(e, a, b);
    case NullCheck(_, _) => PairCoincidence(e, a, b);
    case Member(_, _) => PairCoincidence(e, a, b);
    case InValues(_, _) => InValuesCoincidence(e, a, b);
    case InList(_, _) => PairCoincidence(e, a, b);
    case Case(_, _, _, _) => CaseCoincidence(e, a, b);
    case ListApply(_, _, _) => ListApplyCoincidence(e, a, b);
    case _ => OperandFormCoincidence(e, a, b);
  }

  lemma LeafCoincidence(e: Expr, a: Scope, b: Scope)
    requires e.Lit? || e.Bind? || e.Column? || e.ListCreate?
    requires AgreeOn(a, b, Free(e))
    ensures Resolve(e, a) == Resolve(e, b)
  {
    hide ResolveColumn, LiteralType;
  }

  lemma {:induction false} PairCoincidence(e: Expr, a: Scope, b: Scope)
    requires e.NullCheck? || e.Member? || e.InList?
    requires AgreeOn(a, b, Free(e))
    ensures Resolve(e, a) == Resolve(e, b)
    decreases e, 0
  {
    hide AgreeOn, MemberType, InListType;
    if e.NullCheck? {
      Coincidence(e.operand, a, b);
    } else if e.Member? {
      Coincidence(e.base, a, b);
    } else {
      AgreeOnPart(a, b, Free(e), Free(e.left));
      AgreeOnPart(a, b, Free(e), Free(e.list));
      Coincidence(e.left, a, b);
      Coincidence(e.list, a, b);
    }
  }

  lemma {:induction false} InValuesCoincidence(e: Expr, a: Scope, b: Scope)
    requires e.InValues? && AgreeOn(a, b, Free(e))
    ensures Resolve(e, a) == Resolve(e, b)
    decreases e, 0
  {
    hide AgreeOn, InType;
    AgreeOnPart(a, b, Free(e), Free(e.left));
    AgreeOnPart(a, b, Free(e), FreeAll(e.values));
    Coincidence(e.left, a, b);
    AllCoincide(e.values, a, b);
    forall value | value in e.values ensures IsListBind(value, a.bindings) == IsListBind(value, b.bindings) {
      var i :| 0 <= i < |e.values| && e.values[i] == value;
      ListBindCoincides(e.values, i, a, b);
    }
  }

  lemma {:induction false} ListBindCoincides(es: seq<Expr>, i: nat, a: Scope, b: Scope)
    requires i < |es| && AgreeOn(a, b, FreeAll(es))
    ensures IsListBind(es[i], a.bindings) == IsListBind(es[i], b.bindings)
  {
    hide SameAt;
    var n := |es| - 1;
    if i < n {
      ListBindCoincides(es[..n], i, a, b);
    } else if es[n].Bind? {
      assert es[n].name in FreeAll(es);
      SameAtMeans(a.bindings, b.bindings, es[n].name);
    }
  }

  lemma SameAtMeans<V>(a: map<string, V>, b: map<string, V>, name: string)
    requires SameAt(a, b, name)
    ensures name in a <==> name in b
    ensures name in a ==> a[name] == b[name]
  {
  }

  lemma {:induction false} CaseCoincidence(e: Expr, a: Scope, b: Scope)
    requires e.Case? && AgreeOn(a, b, Free(e))
    ensures Resolve(e, a) == Resolve(e, b)
    decreases e, 0
  {
    hide AgreeOn, CaseType;
    AgreeOnPart(a, b, Free(e), FreeAll(e.conditions));
    AgreeOnPart(a, b, Free(e), FreeAll(e.results));
    AgreeOnPart(a, b, Free(e), Free(e.otherwise));
    AllCoincide(e.conditions, a, b);
    AllCoincide(e.results, a, b);
    Coincidence(e.otherwise, a, b);
    if e.selector.Some? {
      AgreeOnPart(a, b, Free(e), Free(e.selector.value));
      Coincidence(e.selector.value, a, b);
    }
  }

  lemma {:induction false} ListApplyCoincidence(e: Expr, a: Scope, b: Scope)
    requires e.ListApply? && AgreeOn(a, b, Free(e))
    ensures Resolve(e, a) == Resolve(e, b)
    decreases e, 0
  {
    hide AgreeOn, ListApplyType, ResolveLambda, ResolveNamed, FreeLambda;
    AgreeOnPart(a, b, Free(e), Free(e.list));
    Coincidence(e.list, a, b);
    match Resolve(e.list, a)
    case Err =>
    case Ok(list) =>
      if CallbackItem(list).Ok? {
        var item := CallbackItem(list).value;
        match e.callback
        case Inline(lambda) =>
          AgreeOnPart(a, b, Free(e), FreeLambda(lambda));
          LambdaCoincidence(lambda, [item], a, b);
        case Named(name) =>
          AgreeOnPart(a, b, Free(e), {name});
          NamedCoincidence(name, [item], a, b);
      }
  }

  lemma NamedCoincidence(name: string, types: seq<Type>, a: Scope, b: Scope)
    requires AgreeOn(a, b, {name})
    ensures ResolveNamed(name, types, a) == ResolveNamed(name, types, b)
  {
    hide ResolveLambda;
    assert name in {name};
  }

  lemma {:induction false} OperandFormCoincidence(e: Expr, a: Scope, b: Scope)
    requires e.Arithmetic? || e.Logic? || e.Concat? || e.Compare? || e.If? || e.Coalesce? || e.AsStruct? || e.AsList? || e.Invoke?
    requires AgreeOn(a, b, Free(e))
    ensures Resolve(e, a) == Resolve(e, b)
    decreases e, 0
  {
    hide AgreeOn, ResolveNamed, ArithmeticType, LogicType, ConcatType, CompareType, IfType, CoalesceType, StructType, AsListType;
    match e
    case Arithmetic(operands, _) => AllCoincide(operands, a, b);
    case Logic(_, operands) => AllCoincide(operands, a, b);
    case Concat(operands) => AllCoincide(operands, a, b);
    case Compare(operands, _) => AllCoincide(operands, a, b);
    case If(arguments) => AllCoincide(arguments, a, b);
    case Coalesce(arguments) => AllCoincide(arguments, a, b);
    case AsStruct(_, values) => AllCoincide(values, a, b);
    case AsList(values) => AllCoincide(values, a, b);
    case Invoke(name, arguments) =>
      AgreeOnPart(a, b, Free(e), FreeAll(arguments));
      AgreeOnPart(a, b, Free(e), {name});
      AllCoincide(arguments, a, b);
      if ResolveAll(arguments, a).Ok? {
        NamedCoincidence(name, ResolveAll(arguments, a).value, a, b);
      }
  }

  lemma {:induction false} AllCoincide(es: seq<Expr>, a: Scope, b: Scope)
    requires AgreeOn(a, b, FreeAll(es))
    ensures ResolveAll(es, a) == ResolveAll(es, b)
    decreases es, 0
  {
    hide AgreeOn, Resolve, Free;
    if es != [] {
      var n := |es| - 1;
      AgreeOnPart(a, b, FreeAll(es), FreeAll(es[..n]));
      AgreeOnPart(a, b, FreeAll(es), Free(es[n]));
      AllCoincide(es[..n], a, b);
      Coincidence(es[n], a, b);
    }
  }

  lemma {:induction false} BindAllAt<V>(a: map<string, V>, b: map<string, V>, names: seq<string>, values: seq<V>, name: string)
    requires |names| == |values| && (name in names || SameAt(a, b, name))
    ensures SameAt(BindAll(a, names, values), BindAll(b, names, values), name)
  {
    if names != [] {
      var n := |names| - 1;
      if names[n] != name {
        assert names == names[..n] + [names[n]];
        BindAllAt(a, b, names[..n], values[..n], name);
      }
    }
  }

  /** A lambda means the same wherever the names it takes from outside do; the rest of the scope is irrelevant. */
  lemma {:induction false} LambdaCoincidence(lambda: Lambda, types: seq<Type>, a: Scope, b: Scope)
    requires AgreeOn(a, b, FreeLambda(lambda))
    ensures ResolveLambda(lambda, types, a) == ResolveLambda(lambda, types, b)
    decreases lambda, |lambda.locals| + 1
  {
    hide ResolveBody, FreeBody, BindAll, SameAt;
    var names := lambda.parameters;
    if |names| == |types| {
      var shadowed := set name <- names;
      var innerA := Scope([], BindAll(a.bindings, names, types), Without(a.lambdas, shadowed));
      var innerB := Scope([], BindAll(b.bindings, names, types), Without(b.lambdas, shadowed));
      forall name | name in FreeBody(lambda, 0)
        ensures SameAt(innerA.bindings, innerB.bindings, name) && SameAt(innerA.lambdas.table, innerB.lambdas.table, name)
      {
        BindAllAt(a.bindings, b.bindings, names, types, name);
        WithoutAt(a.lambdas, b.lambdas, shadowed, name);
      }
      BodyCoincidence(lambda, 0, shadowed, innerA, innerB);
    }
  }

  lemma WithoutAt(a: Lambdas<Type>, b: Lambdas<Type>, names: set<string>, name: string)
    requires name in names || SameAt(a.table, b.table, name)
    ensures SameAt(Without(a, names).table, Without(b, names).table, name)
  {
  }

  lemma {:induction false} BodyCoincidence(lambda: Lambda, i: nat, seen: set<string>, a: Scope, b: Scope)
    requires i <= |lambda.locals| && a.relations == [] == b.relations && AgreeOn(a, b, FreeBody(lambda, i))
    ensures ResolveBody(lambda, i, seen, a) == ResolveBody(lambda, i, seen, b)
    decreases lambda, |lambda.locals| - i
  {
    hide Resolve, Free, SameAt;
    if i == |lambda.locals| {
      Coincidence(lambda.result, a, b);
    } else {
      var local := lambda.locals[i];
      AgreeOnPart(a, b, FreeBody(lambda, i), Free(local.value));
      Coincidence(local.value, a, b);
      if local.name !in seen && Resolve(local.value, a).Ok? {
        var t := Resolve(local.value, a).value;
        var innerA := Scope([], a.bindings[local.name := t], Without(a.lambdas, {local.name}));
        var innerB := Scope([], b.bindings[local.name := t], Without(b.lambdas, {local.name}));
        forall name | name in FreeBody(lambda, i + 1)
          ensures SameAt(innerA.bindings, innerB.bindings, name) && SameAt(innerA.lambdas.table, innerB.lambdas.table, name)
        {
          UpdateAt(a.bindings, b.bindings, local.name, t, name);
          WithoutAt(a.lambdas, b.lambdas, {local.name}, name);
        }
        BodyCoincidence(lambda, i + 1, seen + {local.name}, innerA, innerB);
      }
    }
  }

  lemma UpdateAt<V>(a: map<string, V>, b: map<string, V>, key: string, value: V, name: string)
    requires name == key || SameAt(a, b, name)
    ensures SameAt(a[key := value], b[key := value], name)
  {
  }

  // ---------------------------------------------------------------- scripts of local assignments

  /** One `$name = ...` statement; `inferred` is what the parameter inference knew at that point. */
  datatype Statement =
    | Define(name: string, lambda: Lambda, inferred: map<string, Type>)
    | Assign(name: string, value: Expr)

  datatype Locals = Locals(types: map<string, Type>, lambdas: Lambdas<Type>)

  /** What a lambda captures: declared parameters, earlier locals, and the unambiguous inferred types of other names. */
  function CapturedBindings(declared: map<string, Type>, locals: Locals, inferred: map<string, Type>): map<string, Type> {
    (map name | name in inferred && inferred[name].kind != NoKind :: inferred[name]) + declared + locals.types
  }

  function AssignedType(declared: map<string, Type>, locals: Locals, value: Expr): Result<Type> {
    if value.Bind? then
      if value.name in locals.types then Ok(locals.types[value.name])
      else if value.name in declared then Ok(declared[value.name])
      else Err
    else Resolve(value, Scope([], declared + locals.types, locals.lambdas))
  }

  /** One turn of the loop of localBindings; Err is a diagnostic, after which the loop goes on unchanged. */
  function Execute(declared: map<string, Type>, locals: Locals, statement: Statement): Result<Locals> {
    if statement.name in declared || statement.name in locals.types then Err
    else
      match statement
      case Define(name, lambda, inferred) =>
        var captured := Captured(lambda, CapturedBindings(declared, locals, inferred), locals.lambdas);
        Ok(Locals(locals.types[name := Plain(Kind.Lambda)], Lambdas(locals.lambdas.table[name := captured])))
      case Assign(name, value) =>
        match AssignedType(declared, locals, value)
        case Err => Err
        case Ok(t) =>
          var alias := value.Bind? && t.kind == Kind.Lambda && value.name in locals.lambdas.table;
          var table := if alias then locals.lambdas.table[name := locals.lambdas.table[value.name]] else locals.lambdas.table;
          Ok(Locals(locals.types[name := t], Lambdas(table)))
  }

  function Run(declared: map<string, Type>, locals: Locals, script: seq<Statement>): Locals {
    if script == [] then locals
    else
      var before := Run(declared, locals, script[..|script| - 1]);
      match Execute(declared, before, script[|script| - 1])
      case Err => before
      case Ok(after) => after
  }

  /** How many statements of the script get a diagnostic. */
  function Failures(declared: map<string, Type>, locals: Locals, script: seq<Statement>): nat {
    if script == [] then 0
    else
      var n := |script| - 1;
      Failures(declared, locals, script[..n])
      + (if Execute(declared, Run(declared, locals, script[..n]), script[n]).Err? then 1 else 0)
  }

  method RunScript(declared: map<string, Type>, script: seq<Statement>) returns (locals: Locals, diagnostics: nat)
    ensures locals == Run(declared, Locals(map[], Lambdas(map[])), script)
    ensures diagnostics == Failures(declared, Locals(map[], Lambdas(map[])), script)
  {
    hide Execute;
    locals, diagnostics := Locals(map[], Lambdas(map[])), 0;
    for i := 0 to |script|
      invariant locals == Run(declared, Locals(map[], Lambdas(map[])), script[..i])
      invariant diagnostics == Failures(declared, Locals(map[], Lambdas(map[])), script[..i])
    {
      assert script[..i + 1][..i] == script[..i];
      var step := Execute(declared, locals, script[i]);
      match step {
        case Err => diagnostics := diagnostics + 1;
        case Ok(after) => locals := after;
      }
    }
    assert script[..|script|] == script;
  }

  /** No later statement changes what an assigned name means. */
  lemma {:induction false} RunKeepsNames(declared: map<string, Type>, locals: Locals, script: seq<Statement>, name: string)
    requires name in locals.types
    ensures var after := Run(declared, locals, script);
            && name in after.types && after.types[name] == locals.types[name]
            && SameAt(after.lambdas.table, locals.lambdas.table, name)
  {
    hide Resolve;
    if script != [] {
      RunKeepsNames(declared, locals, script[..|script| - 1], name);
    }
  }

  /** Whether the statement has a type where it stands. */
  predicate Typed(declared: map<string, Type>, before: Locals, statement: Statement) {
    statement.Assign? ==> AssignedType(declared, before, statement.value).Ok?
  }

  /** The locals are the names that are not declared and that some statement gives a type, where it stands. */
  lemma {:induction false} LocalsAreAssigned(declared: map<string, Type>, script: seq<Statement>, name: string)
    ensures name in Run(declared, Locals(map[], Lambdas(map[])), script).types <==>
            && name !in declared
            && exists i | 0 <= i < |script| ::
                 script[i].name == name && Typed(declared, Run(declared, Locals(map[], Lambdas(map[])), script[..i]), script[i])
    decreases |script|
  {
    hide AssignedType;
    var none := Locals(map[], Lambdas(map[]));
    if script != [] {
      var n := |script| - 1;
      var front := script[..n];
      LocalsAreAssigned(declared, front, name);
      assert forall i | 0 <= i < n :: front[..i] == script[..i] && front[i] == script[i];
      assert name in Run(declared, none, script).types <==>
             name in Run(declared, none, front).types
             || (script[n].name == name && name !in declared && Typed(declared, Run(declared, none, front), script[n]));
    }
  }

  /** Every statement either adds one local or gets one diagnostic. */
  lemma {:induction false} DiagnosticsAndLocals(declared: map<string, Type>, locals: Locals, script: seq<Statement>)
    ensures |Run(declared, locals, script).types.Keys| + Failures(declared, locals, script) == |locals.types.Keys| + |script|
    decreases |script|
  {
    hide Execute;
    if script != [] {
      var n := |script| - 1;
      DiagnosticsAndLocals(declared, locals, script[..n]);
      if Execute(declared, Run(declared, locals, script[..n]), script[n]).Ok? {
        OneMoreLocal(declared, Run(declared, locals, script[..n]), script[n]);
      }
    }
  }

  lemma OneMoreLocal(declared: map<string, Type>, before: Locals, statement: Statement)
    requires Execute(declared, before, statement).Ok?
    ensures |Execute(declared, before, statement).value.types.Keys| == |before.types.Keys| + 1
  {
    hide AssignedType;
    var after := Execute(declared, before, statement).value;
    assert after.types.Keys == before.types.Keys + {statement.name};
  }

  /** Any place of the query that sees these locals: its relations and its other bindings are arbitrary. */
  ghost predicate Sees(scope: Scope, locals: Locals, name: string) {
    && name in locals.types && name in scope.bindings && scope.bindings[name] == locals.types[name]
    && SameAt(scope.lambdas.table, locals.lambdas.table, name)
  }

  /**
   * Static scope: however the script goes on after the definition and wherever the call stands, its result type is the
   * type of the body under the bindings of the definition and the argument types.
   */
  lemma CallsAreStaticallyScoped(declared: map<string, Type>, before: Locals, definition: Statement, rest: seq<Statement>,
                                 scope: Scope, arguments: seq<Expr>)
    requires definition.Define? && Execute(declared, before, definition).Ok?
    requires Sees(scope, Run(declared, Execute(declared, before, definition).value, rest), definition.name)
    ensures Resolve(Invoke(definition.name, arguments), scope) ==
            match ResolveAll(arguments, scope)
            case Err => Err
            case Ok(types) =>
              ResolveLambda(definition.lambda, types,
                            Scope([], CapturedBindings(declared, before, definition.inferred), before.lambdas))
  {
    hide ResolveLambda, Run;
    RunKeepsNames(declared, Execute(declared, before, definition).value, rest, definition.name);
  }

  /** Two definitions of one lambda that captured the same types for the names it uses answer every call alike. */
  lemma OnlyUsedNamesAreCaptured(lambda: Lambda, name: string, types: seq<Type>, a: Scope, b: Scope)
    requires forall scope <- [a, b] ::
               && name in scope.bindings && scope.bindings[name].kind == Kind.Lambda
               && name in scope.lambdas.table && scope.lambdas.table[name].lambda == lambda
    requires AgreeOn(Scope([], a.lambdas.table[name].bindings, a.lambdas.table[name].lambdas),
                     Scope([], b.lambdas.table[name].bindings, b.lambdas.table[name].lambdas), FreeLambda(lambda))
    ensures ResolveNamed(name, types, a) == ResolveNamed(name, types, b)
  {
    hide ResolveLambda, FreeLambda, AgreeOn;
    assert a in [a, b] && b in [a, b];
    LambdaCoincidence(lambda, types,
                      Scope([], a.lambdas.table[name].bindings, a.lambdas.table[name].lambdas),
                      Scope([], b.lambdas.table[name].bindings, b.lambdas.table[name].lambdas));
  }

  /** `$g = $f` makes calls of g calls of f. */
  lemma AliasesCallTheSameLambda(declared: map<string, Type>, before: Locals, alias: string, name: string,
                                 rest: seq<Statement>, scope: Scope, types: seq<Type>)
    requires name in before.types && before.types[name].kind == Kind.Lambda && name in before.lambdas.table
    requires Execute(declared, before, Assign(alias, Bind(name))).Ok?
    requires var after := Run(declared, Execute(declared, before, Assign(alias, Bind(name))).value, rest);
             Sees(scope, after, name) && Sees(scope, after, alias)
    ensures ResolveNamed(alias, types, scope) == ResolveNamed(name, types, scope)
  {
    hide ResolveLambda, Run, Resolve;
    var aliased := Execute(declared, before, Assign(alias, Bind(name))).value;
    RunKeepsNames(declared, aliased, rest, name);
    RunKeepsNames(declared, aliased, rest, alias);
  }

  // ---------------------------------------------------------------- what a lambda captures

  /** An expression only resolves where all its free names are bound. */
  lemma {:induction false} FreeNamesAreBound(e: Expr, scope: Scope)
    requires Resolve(e, scope).Ok?
    ensures Free(e) <= scope.bindings.Keys
    decreases e, 1
  {
    match e
    case Lit(_) =>
    case Bind(_) =>
    case Column(_, _) =>
    case ListCreate(_) =>
    case NullCheck(operand, _) => FreeNamesAreBound(operand, scope);
    case Member(base, _) => FreeNamesAreBound(base, scope);
    case InValues(left, values) =>
      FreeNamesAreBound(left, scope);
      AllNamesAreBound(values, scope);
    case InList(left, list) =>
      FreeNamesAreBound(left, scope);
      FreeNamesAreBound(list, scope);
    case Case(_, _, _, _) => CaseNamesAreBound(e, scope);
    case ListApply(_, _, _) => CallbackNamesAreBound(e, scope);
    case _ => OperandNamesAreBound(e, scope);
  }

  lemma {:induction false} AllNamesAreBound(es: seq<Expr>, scope: Scope)
    requires ResolveAll(es, scope).Ok?
    ensures FreeAll(es) <= scope.bindings.Keys
    decreases es, 0
  {
    hide Resolve, Free;
    if es != [] {
      var n := |es| - 1;
      AllNamesAreBound(es[..n], scope);
      FreeNamesAreBound(es[n], scope);
    }
  }

  lemma {:induction false} CaseNamesAreBound(e: Expr, scope: Scope)
    requires e.Case? && Resolve(e, scope).Ok?
    ensures Free(e) <= scope.bindings.Keys
    decreases e, 0
  {
    hide CaseType;
    AllNamesAreBound(e.conditions, scope);
    AllNamesAreBound(e.results, scope);
    FreeNamesAreBound(e.otherwise, scope);
    if e.selector.Some? {
      FreeNamesAreBound(e.selector.value, scope);
    }
  }

  lemma {:induction false} OperandNamesAreBound(e: Expr, scope: Scope)
    requires e.Arithmetic? || e.Logic? || e.Concat? || e.Compare? || e.If? || e.Coalesce? || e.AsStruct? || e.AsList? || e.Invoke?
    requires Resolve(e, scope).Ok?
    ensures Free(e) <= scope.bindings.Keys
    decreases e, 0
  {
    hide ArithmeticType, LogicType, ConcatType, CompareType, IfType, CoalesceType, StructType, AsListType, ResolveLambda;
    match e
    case Arithmetic(operands, _) => AllNamesAreBound(operands, scope);
    case Logic(_, operands) => AllNamesAreBound(operands, scope);
    case Concat(operands) => AllNamesAreBound(operands, scope);
    case Compare(operands, _) => AllNamesAreBound(operands, scope);
    case If(arguments) => AllNamesAreBound(arguments, scope);
    case Coalesce(arguments) => AllNamesAreBound(arguments, scope);
    case AsStruct(_, values) => AllNamesAreBound(values, scope);
    case AsList(values) => AllNamesAreBound(values, scope);
    case Invoke(_, arguments) => AllNamesAreBound(arguments, scope);
  }

  lemma {:induction false} CallbackNamesAreBound(e: Expr, scope: Scope)
    requires e.ListApply? && Resolve(e, scope).Ok?
    ensures Free(e) <= scope.bindings.Keys
    decreases e, 0
  {
    hide ListApplyType, ResolveLambda, FreeLambda;
    FreeNamesAreBound(e.list, scope);
    var item := CallbackItem(Resolve(e.list, scope).value).value;
    assert ResolveCallback(e.callback, item, scope).Ok?;
    match e.callback
    case Inline(lambda) =>
      assert Free(e) == Free(e.list) + FreeLambda(lambda);
      LambdaNamesAreBound(lambda, [item], scope);
    case Named(name) =>
      assert Free(e) == Free(e.list) + {name};
      assert ResolveNamed(name, [item], scope).Ok?;
  }

  lemma {:induction false} LambdaNamesAreBound(lambda: Lambda, types: seq<Type>, scope: Scope)
    requires ResolveLambda(lambda, types, scope).Ok?
    ensures FreeLambda(lambda) <= scope.bindings.Keys
    decreases lambda, |lambda.locals| + 1
  {
    hide ResolveBody, FreeBody, BindAll;
    var names := lambda.parameters;
    var shadowed := set name <- names;
    var inner := Scope([], BindAll(scope.bindings, names, types), Without(scope.lambdas, shadowed));
    BodyNamesAreBound(lambda, 0, shadowed, inner);
    forall name | name in inner.bindings ensures name in scope.bindings || name in names {
      BoundBefore(scope.bindings, names, types, name);
    }
  }

  lemma {:induction false} BoundBefore<V>(bindings: map<string, V>, names: seq<string>, values: seq<V>, name: string)
    requires |names| == |values| && name in BindAll(bindings, names, values)
    ensures name in bindings || name in names
  {
    if names != [] {
      var n := |names| - 1;
      assert names == names[..n] + [names[n]];
      if names[n] != name {
        BoundBefore(bindings, names[..n], values[..n], name);
      }
    }
  }

  lemma {:induction false} BodyNamesAreBound(lambda: Lambda, i: nat, seen: set<string>, scope: Scope)
    requires i <= |lambda.locals| && ResolveBody(lambda, i, seen, scope).Ok?
    ensures FreeBody(lambda, i) <= scope.bindings.Keys
    decreases lambda, |lambda.locals| - i
  {
    hide Resolve, Free;
    if i == |lambda.locals| {
      FreeNamesAreBound(lambda.result, scope);
    } else {
      var local := lambda.locals[i];
      FreeNamesAreBound(local.value, scope);
      var t := Resolve(local.value, scope).value;
      BodyNamesAreBound(lambda, i + 1, seen + {local.name},
                        Scope([], scope.bindings[local.name := t], Without(scope.lambdas, {local.name})));
    }
  }

  /**
   * Inside a lambda a name has the type that an assignment from it would get at the same place: that of the local, or else
   * the declared one.  Only other names have their inferred type, if it is unambiguous.
   */
  lemma CapturedAsAssigned(declared: map<string, Type>, before: Locals, definition: Statement, name: string)
    requires definition.Define? && Execute(declared, before, definition).Ok?
    ensures var captured := Execute(declared, before, definition).value.lambdas.table[definition.name];
            && captured.lambda == definition.lambda && captured.lambdas == before.lambdas
            && match AssignedType(declared, before, Bind(name))
               case Ok(t) => name in captured.bindings && captured.bindings[name] == t
               case Err =>
                 && (name in captured.bindings <==> name in definition.inferred && definition.inferred[name].kind != NoKind)
                 && (name in captured.bindings ==> captured.bindings[name] == definition.inferred[name])
  {
  }

  /** The body of a lambda without parameters. */
  function Thunk(e: Expr): Lambda {
    Expressions.Lambda.Lambda([], [], e)
  }

  /**
   * Wherever an expression can be assigned, a lambda of the same body gives its type in every later call, however the
   * script goes on: it has captured everything that the assignment sees.
   */
  lemma CallIsAssignment(declared: map<string, Type>, before: Locals, local: string, name: string, e: Expr,
                         inferred: map<string, Type>, rest: seq<Statement>, scope: Scope)
    requires Execute(declared, before, Assign(local, e)).Ok?
    requires Execute(declared, before, Define(name, Thunk(e), inferred)).Ok?
    requires Sees(scope, Run(declared, Execute(declared, before, Define(name, Thunk(e), inferred)).value, rest), name)
    ensures Resolve(Invoke(name, []), scope) == Ok(Execute(declared, before, Assign(local, e)).value.types[local])
  {
    hide Run, Resolve, Free, ResolveLambda;
    var definition := Define(name, Thunk(e), inferred);
    var outside := Scope([], declared + before.types, before.lambdas);
    var captured := Scope([], CapturedBindings(declared, before, inferred), before.lambdas);
    AssignmentResolves(declared, before, e);
    FreeNamesAreBound(e, outside);
    forall n | n in Free(e) ensures SameAt(outside.bindings, captured.bindings, n) {
      CapturedAsAssigned(declared, before, definition, n);
    }
    Coincidence(e, outside, captured);
    ThunkResolves(e, captured);
    CallsAreStaticallyScoped(declared, before, definition, rest, scope, []);
    NoArguments(scope);
  }

  lemma NoArguments(scope: Scope)
    ensures ResolveAll([], scope) == Ok([])
  {
  }

  lemma AssignmentResolves(declared: map<string, Type>, before: Locals, e: Expr)
    requires AssignedType(declared, before, e).Ok?
    ensures Resolve(e, Scope([], declared + before.types, before.lambdas)) == AssignedType(declared, before, e)
  {
  }

  lemma ThunkResolves(e: Expr, scope: Scope)
    requires scope.relations == []
    ensures ResolveLambda(Thunk(e), [], scope) == Resolve(e, scope)
  {
    hide Resolve;
    assert (set name: string <- []) == {};
    assert Without(scope.lambdas, {}) == scope.lambdas;
    assert BindAll(scope.bindings, [], []) == scope.bindings;
    assert Scope([], scope.bindings, scope.lambdas) == scope;
    assert ResolveBody(Thunk(e), 0, {}, scope) == Resolve(e, scope);
  }
}
