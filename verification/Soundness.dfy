/** Well-typed expressions have a value, and it conforms to their type: a type that is not nullable is never NULL. */
module Soundness {
  import opened Wrappers
  import opened Types
  import opened CommonTypes
  import opened Expressions
  import opened TypingRules
  import opened Resolver
  import opened Comparisons
  import opened Evaluation
  import opened Conformance
  import opened RuleSoundness

  // ---------------------------------------------------------------- conforming environments

  ghost predicate BindingsConform(types: map<string, Type>, values: map<string, Value>) {
    forall name <- types :: name in values && Conforms(values[name], types[name])
  }

  /** Both sides captured the same lambdas, each in conforming environments. */
  ghost predicate LambdasConform(types: Lambdas<Type>, values: Lambdas<Value>)
    decreases types
  {
    types.table.Keys == values.table.Keys
    && forall name <- types.table ::
         && types.table[name].lambda == values.table[name].lambda
         && BindingsConform(types.table[name].bindings, values.table[name].bindings)
         && LambdasConform(types.table[name].lambdas, values.table[name].lambdas)
  }

  ghost predicate ColumnsConform(columns: seq<ColumnType>, row: map<string, Value>) {
    forall j | 0 <= j < |columns| :: columns[j].name in row && Conforms(row[columns[j].name], columns[j].typ)
  }

  /** Only optional relations are padded; the columns of the others hold values of their declared types. */
  ghost predicate RowConforms(relations: seq<Relation>, row: Row) {
    |row| == |relations|
    && forall i | 0 <= i < |row| ::
         if row[i].None? then relations[i].optional && !relations[i].grouping
         else ColumnsConform(relations[i].columns, row[i].value)
  }

  ghost predicate ScopeConforms(scope: Scope, env: Environment) {
    && env.relations == scope.relations
    && RowConforms(scope.relations, env.row)
    && BindingsConform(scope.bindings, env.bindings)
    && LambdasConform(scope.lambdas, env.lambdas)
  }

  lemma {:induction false} BindAllConforms(types: map<string, Type>, values: map<string, Value>,
                                           names: seq<string>, ts: seq<Type>, vs: seq<Value>)
    requires BindingsConform(types, values) && |names| == |ts| && AllConform(vs, ts)
    ensures BindingsConform(BindAll(types, names, ts), BindAll(values, names, vs))
  {
    hide Conforms;
    if names != [] {
      var n := |names| - 1;
      BindAllConforms(types, values, names[..n], ts[..n], vs[..n]);
    }
  }

  lemma WithoutConforms(types: Lambdas<Type>, values: Lambdas<Value>, names: set<string>)
    requires LambdasConform(types, values)
    ensures LambdasConform(Without(types, names), Without(values, names))
  {
    hide BindingsConform;
  }

  // ---------------------------------------------------------------- columns

  lemma {:induction false} ColumnNamedConforms(columns: seq<ColumnType>, row: map<string, Value>, name: string)
    requires ColumnsConform(columns, row) && ColumnNamed(columns, name).Some?
    ensures name in row && Conforms(row[name], ColumnNamed(columns, name).value)
  {
    hide Conforms;
    if columns[0].name != name {
      forall j | 0 <= j < |columns[1..]|
        ensures columns[1..][j].name in row && Conforms(row[columns[1..][j].name], columns[1..][j].typ)
      {
        assert columns[1..][j] == columns[j + 1];
      }
      ColumnNamedConforms(columns[1..], row, name);
    } else {
      assert columns[0].name in row;
    }
  }

  lemma ColumnSound(relations: seq<Relation>, row: Row, qualifier: string, name: string)
    requires RowConforms(relations, row) && ResolveColumn(relations, qualifier, name).Ok?
    ensures Conforms(ColumnValue(relations, row, qualifier, name), ResolveColumn(relations, qualifier, name).value)
  {
    hide Conforms, ColumnSource, ColumnsConform;
    var i := ColumnSource(relations, qualifier, name).value;
    var typ := ColumnNamed(relations[i].columns, name).value;
    var optional := relations[i].optional && !(qualifier == "" && relations[i].grouping);
    if row[i].Some? {
      ColumnNamedConforms(relations[i].columns, row[i].value, name);
      ConformsToOptional(row[i].value[name], typ, optional);
    } else {
      ConformsToOptional(Missing, typ, optional);
    }
  }

  // ---------------------------------------------------------------- settled comparisons

  /**
   * Every comparison and IN in the expression, in lambdas it calls too, has operands that are Optional at most at the
   * top.  IS [NOT] DISTINCT FROM and the selector of CASE may have any operands.
   */
  ghost predicate Settled(e: Expr, scope: Scope)
    decreases Depth(scope.lambdas), e, 0
  {
    match e
    case Lit(_) => true
    case Bind(_) => true
    case Column(_, _) => true
    case ListCreate(_) => true
    case NullCheck(operand, _) => Settled(operand, scope)
    case Member(base, _) => Settled(base, scope)
    case Arithmetic(operands, _) => SettledAll(operands, scope)
    case Logic(_, operands) => SettledAll(operands, scope)
    case Concat(operands) => SettledAll(operands, scope)
    case If(arguments) => SettledAll(arguments, scope)
    case Coalesce(arguments) => SettledAll(arguments, scope)
    case AsStruct(_, values) => SettledAll(values, scope)
    case AsList(values) => SettledAll(values, scope)
    case Compare(operands, ops) => SettledAll(operands, scope) && (NullSafe(ops) || DecidableOperands(operands, scope))
    case InValues(left, values) =>
      Settled(left, scope) && SettledAll(values, scope) && DecidableOperand(left, scope) && DecidableOperands(values, scope)
    case InList(left, list) =>
      Settled(left, scope) && Settled(list, scope) && DecidableOperand(left, scope) && DecidableItems(list, scope)
    case Case(selector, conditions, results, otherwise) =>
      && (selector.Some? ==> Settled(selector.value, scope))
      && SettledAll(conditions, scope) && SettledAll(results, scope) && Settled(otherwise, scope)
    case ListApply(_, list, callback) =>
      && Settled(list, scope)
      && (Resolve(list, scope).Ok? && CallbackItem(Resolve(list, scope).value).Ok? ==>
            SettledCallback(callback, CallbackItem(Resolve(list, scope).value).value, scope))
    case Invoke(name, arguments) =>
      && SettledAll(arguments, scope)
      && (ResolveAll(arguments, scope).Ok? ==> SettledNamed(name, ResolveAll(arguments, scope).value, scope))
  }

  ghost predicate SettledAll(es: seq<Expr>, scope: Scope)
    decreases Depth(scope.lambdas), es, 0
  {
    forall i | 0 <= i < |es| :: Settled(es[i], scope)
  }

  predicate DecidableOperand(e: Expr, scope: Scope) {
    Resolve(e, scope).Ok? ==> Decidable(Resolve(e, scope).value)
  }

  predicate DecidableOperands(es: seq<Expr>, scope: Scope) {
    ResolveAll(es, scope).Ok? ==> AllDecidable(ResolveAll(es, scope).value)
  }

  predicate DecidableItems(list: Expr, scope: Scope) {
    Resolve(list, scope).Ok? && Unwrap(Resolve(list, scope).value).elem.Some? ==>
      Decidable(Unwrap(Resolve(list, scope).value).elem.value)
  }

  ghost predicate SettledCallback(callback: Callback, item: Type, scope: Scope)
    decreases Depth(scope.lambdas), callback, 0
  {
    match callback
    case Inline(lambda) => SettledLambda(lambda, [item], scope)
    case Named(name) => SettledNamed(name, [item], scope)
  }

  ghost predicate SettledNamed(name: string, types: seq<Type>, scope: Scope)
    decreases Depth(scope.lambdas), name, 0
  {
    if name !in scope.lambdas.table then true
    else
      var captured := scope.lambdas.table[name];
      CapturedIsShallower(scope.lambdas, name);
      SettledLambda(captured.lambda, types, Scope([], captured.bindings, captured.lambdas))
  }

  ghost predicate SettledLambda(lambda: Lambda, types: seq<Type>, scope: Scope)
    decreases Depth(scope.lambdas), lambda, |lambda.locals| + 1
  {
    if |lambda.parameters| != |types| then true
    else
      var shadowed := set name <- lambda.parameters;
      ShadowingIsNotDeeper(scope.lambdas, shadowed);
      SettledBody(lambda, 0, Scope([], BindAll(scope.bindings, lambda.parameters, types), Without(scope.lambdas, shadowed)))
  }

  ghost predicate SettledBody(lambda: Lambda, i: nat, scope: Scope)
    requires i <= |lambda.locals|
    decreases Depth(scope.lambdas), lambda, |lambda.locals| - i
  {
    if i == |lambda.locals| then Settled(lambda.result, scope)
    else
      var local := lambda.locals[i];
      ShadowingIsNotDeeper(scope.lambdas, {local.name});
      && Settled(local.value, scope)
      && (Resolve(local.value, scope).Ok? ==>
            SettledBody(lambda, i + 1, Scope([], scope.bindings[local.name := Resolve(local.value, scope).value],
                                             Without(scope.lambdas, {local.name}))))
  }

  // ---------------------------------------------------------------- the theorem

  /** The induction hypothesis: the expression has a value, and it conforms. */
  ghost predicate Sound(order: Order, e: Expr, scope: Scope, env: Environment)
    requires Resolve(e, scope).Ok?
  {
    var v := Evaluate(order, e, env);
    v.Some? && Conforms(v.value, Resolve(e, scope).value)
  }

  ghost predicate AllSound(order: Order, es: seq<Expr>, scope: Scope, env: Environment)
    requires ResolveAll(es, scope).Ok?
  {
    var vs := EvaluateAll(order, es, env);
    vs.Some? && AllConform(vs.value, ResolveAll(es, scope).value)
  }

  lemma {:induction false} ExpressionSound(order: Order, e: Expr, scope: Scope, env: Environment)
    requires Decided(order) && Settled(e, scope) && ScopeConforms(scope, env) && Resolve(e, scope).Ok?
    ensures Sound(order, e, scope, env)
    decreases Depth(scope.lambdas), e, 1
  {
    hide Resolve, Evaluate, Sound, Decided, ScopeConforms, Settled;
    match e
    case Lit(_) => LeafSound(order, e, scope, env);
    case Bind(_) => LeafSound(order, e, scope, env);
    case Column(_, _) => LeafSound(order, e, scope, env);
    case ListCreate(_) => LeafSound(order, e, scope, env);
    case NullCheck(_, _) => UnarySound(order, e, scope, env);
    case Member(_, _) => UnarySound(order, e, scope, env);
    case InValues(_, _) => InValuesInScope(order, e, scope, env);
    case InList(_, _) => InListInScope(order, e, scope, env);
    case Compare(_, _) => CompareInScope(order, e, scope, env);
    case Case(_, _, _, _) => CaseInScope(order, e, scope, env);
    case ListApply(_, _, _) => ListApplyInScope(order, e, scope, env);
    case _ => OperandFormSound(order, e, scope, env);
  }

  lemma LeafSound(order: Order, e: Expr, scope: Scope, env: Environment)
    requires e.Lit? || e.Bind? || e.Column? || e.ListCreate?
    requires ScopeConforms(scope, env) && Resolve(e, scope).Ok?
    ensures Sound(order, e, scope, env)
  {
    hide Conforms, ScopeConforms, LiteralType, LiteralValue, ResolveColumn, ColumnValue, Valid;
    match e
    case Lit(literal) => LiteralSound(literal);
    case Bind(name) => BindSound(name, scope, env);
    case Column(qualifier, name) => ColumnInScope(qualifier, name, scope, env);
    case ListCreate(item) => EmptyListConforms(ListOf(item));
  }

  lemma {:induction false} UnarySound(order: Order, e: Expr, scope: Scope, env: Environment)
    requires e.NullCheck? || e.Member?
    requires Decided(order) && Settled(e, scope) && ScopeConforms(scope, env) && Resolve(e, scope).Ok?
    ensures Sound(order, e, scope, env)
    decreases Depth(scope.lambdas), e, 0
  {
    hide Conforms, Decided, ScopeConforms, MemberType, MemberOf;
    if e.NullCheck? {
      ExpressionSound(order, e.operand, scope, env);
      FlagConforms(Evaluate(order, e, env).value, false);
    } else {
      ExpressionSound(order, e.base, scope, env);
      MemberSound(Resolve(e.base, scope).value, e.path, Evaluate(order, e.base, env).value);
    }
  }

  lemma {:induction false} InValuesInScope(order: Order, e: Expr, scope: Scope, env: Environment)
    requires e.InValues?
    requires Decided(order) && Settled(e, scope) && ScopeConforms(scope, env) && Resolve(e, scope).Ok?
    ensures Sound(order, e, scope, env)
    decreases Depth(scope.lambdas), e, 0
  {
    hide Conforms, Decided, ScopeConforms, AllConform, InType, IsAmong, ResolveAll, EvaluateAll, SettledAll, Decidable, AllDecidable;
    ExpressionSound(order, e.left, scope, env);
    OperandsSound(order, e.values, scope, env);
    InValuesSound(order, Resolve(e.left, scope).value, ResolveAll(e.values, scope).value,
                  Evaluate(order, e.left, env).value, EvaluateAll(order, e.values, env).value);
  }

  lemma {:induction false} InListInScope(order: Order, e: Expr, scope: Scope, env: Environment)
    requires e.InList?
    requires Decided(order) && Settled(e, scope) && ScopeConforms(scope, env) && Resolve(e, scope).Ok?
    ensures Sound(order, e, scope, env)
    decreases Depth(scope.lambdas), e, 0
  {
    hide Conforms, Decided, ScopeConforms, InType, IsAmong, Decidable;
    ExpressionSound(order, e.left, scope, env);
    ExpressionSound(order, e.list, scope, env);
    InListSound(order, Resolve(e.left, scope).value, Resolve(e.list, scope).value,
                Evaluate(order, e.left, env).value, Evaluate(order, e.list, env).value);
  }

  lemma {:induction false} CompareInScope(order: Order, e: Expr, scope: Scope, env: Environment)
    requires e.Compare?
    requires Decided(order) && Settled(e, scope) && ScopeConforms(scope, env) && Resolve(e, scope).Ok?
    ensures Sound(order, e, scope, env)
    decreases Depth(scope.lambdas), e, 0
  {
    hide Conforms, Decided, ScopeConforms, AllConform, CompareAll, ResolveAll, EvaluateAll, SettledAll, AllDecidable, NullSafe;
    OperandsSound(order, e.operands, scope, env);
    CompareSound(order, ResolveAll(e.operands, scope).value, e.comparisons, EvaluateAll(order, e.operands, env).value);
  }

  /** The operands of the forms that look at nothing but their operands. */
  function OperandsOf(e: Expr): seq<Expr> {
    match e
    case Arithmetic(operands, _) => operands
    case Logic(_, operands) => operands
    case Concat(operands) => operands
    case If(arguments) => arguments
    case Coalesce(arguments) => arguments
    case AsStruct(_, values) => values
    case AsList(values) => values
    case Invoke(_, arguments) => arguments
    case _ => []
  }

  lemma {:induction false} OperandFormSound(order: Order, e: Expr, scope: Scope, env: Environment)
    requires e.Arithmetic? || e.Logic? || e.Concat? || e.If? || e.Coalesce? || e.AsStruct? || e.AsList? || e.Invoke?
    requires Decided(order) && Settled(e, scope) && ScopeConforms(scope, env) && Resolve(e, scope).Ok?
    ensures Sound(order, e, scope, env)
    decreases Depth(scope.lambdas), e, 0
  {
    hide Conforms, Decided, ScopeConforms, AllConform, ResolveAll, EvaluateAll, ResolveNamed, EvaluateNamed;
    hide SettledAll, SettledNamed;
    hide LogicType, ConcatType, IfType, IfValue, CoalesceType, FirstPresent, CalculateAll, RecordOf;
    OperandsSound(order, OperandsOf(e), scope, env);
    var types, vs := ResolveAll(OperandsOf(e), scope).value, EvaluateAll(order, OperandsOf(e), env).value;
    match e
    case Arithmetic(_, ops) => ArithmeticFoldSound(types, ops, vs);
    case Logic(op, _) => LogicSound(op, types, vs);
    case Concat(_) => ConcatSound(types, vs);
    case If(_) => IfSound(types, vs);
    case Coalesce(arguments) => CoalesceInScope(order, arguments, scope, env);
    case AsStruct(names, _) => StructSound(names, types, vs);
    case AsList(_) => AsListSound(types, vs);
    case Invoke(name, _) => NamedSound(order, name, types, vs, scope, env);
  }

  lemma BindSound(name: string, scope: Scope, env: Environment)
    requires ScopeConforms(scope, env) && name in scope.bindings
    ensures name in env.bindings && Conforms(env.bindings[name], scope.bindings[name])
  {
    hide Conforms;
  }

  lemma ColumnInScope(qualifier: string, name: string, scope: Scope, env: Environment)
    requires ScopeConforms(scope, env) && ResolveColumn(scope.relations, qualifier, name).Ok?
    ensures Conforms(ColumnValue(env.relations, env.row, qualifier, name),
                     ResolveColumn(scope.relations, qualifier, name).value)
  {
    hide Conforms, ResolveColumn;
    ColumnSound(scope.relations, env.row, qualifier, name);
  }

  lemma {:induction false} OperandsSound(order: Order, es: seq<Expr>, scope: Scope, env: Environment)
    requires Decided(order) && SettledAll(es, scope) && ScopeConforms(scope, env) && ResolveAll(es, scope).Ok?
    ensures AllSound(order, es, scope, env)
    decreases Depth(scope.lambdas), es, 1
  {
    hide Conforms, Decided, ScopeConforms, Resolve, Evaluate;
    if es != [] {
      var n := |es| - 1;
      OperandsSound(order, es[..n], scope, env);
      ExpressionSound(order, es[n], scope, env);
    }
  }

  lemma {:induction false} CaseInScope(order: Order, e: Expr, scope: Scope, env: Environment)
    requires e.Case? && Decided(order) && Settled(e, scope) && ScopeConforms(scope, env) && Resolve(e, scope).Ok?
    ensures Sound(order, e, scope, env)
    decreases Depth(scope.lambdas), e, 0
  {
    hide Conforms, Decided, ScopeConforms, CaseType, Choose;
    var Case(selector, conditions, results, otherwise) := e;
    OperandsSound(order, conditions, scope, env);
    OperandsSound(order, results, scope, env);
    ExpressionSound(order, otherwise, scope, env);
    if selector.Some? {
      ExpressionSound(order, selector.value, scope, env);
    }
    var selectorType := if selector.None? then None else Some(Resolve(selector.value, scope).value);
    var selected := if selector.None? then None else Some(Evaluate(order, selector.value, env).value);
    var cts, rts, ot := ResolveAll(conditions, scope).value, ResolveAll(results, scope).value, Resolve(otherwise, scope).value;
    assert CaseType(selectorType, cts, rts, ot) == Resolve(e, scope);
    CaseShape(selectorType, cts, rts, ot);
    CaseSound(order, selectorType, selected, cts, EvaluateAll(order, conditions, env).value, rts,
              EvaluateAll(order, results, env).value, ot, Evaluate(order, otherwise, env).value);
  }

  lemma CaseShape(selector: Option<Type>, conditions: seq<Type>, results: seq<Type>, otherwise: Type)
    requires CaseType(selector, conditions, results, otherwise).Ok?
    ensures |conditions| == |results|
  {
  }

  lemma {:induction false} EvaluateAllAt(order: Order, es: seq<Expr>, env: Environment, i: nat)
    requires EvaluateAll(order, es, env).Some? && i < |es|
    ensures Evaluate(order, es[i], env) == Some(EvaluateAll(order, es, env).value[i])
  {
    hide Evaluate;
    var n := |es| - 1;
    if i < n {
      EvaluateAllAt(order, es[..n], env, i);
    }
  }

  lemma CoalesceInScope(order: Order, arguments: seq<Expr>, scope: Scope, env: Environment)
    requires ResolveAll(arguments, scope).Ok? && AllSound(order, arguments, scope, env)
    requires CoalesceType(CallArguments(arguments, ResolveAll(arguments, scope).value)).Ok?
    ensures Conforms(FirstPresent(EvaluateAll(order, arguments, env).value),
                     CoalesceType(CallArguments(arguments, ResolveAll(arguments, scope).value)).value)
  {
    hide Conforms, ResolveAll, EvaluateAll, CoalesceFold, Accepted;
    var types, vs := ResolveAll(arguments, scope).value, EvaluateAll(order, arguments, env).value;
    var calls := CallArguments(arguments, types);
    forall i | 0 <= i < |vs| ensures ArgumentConforms(calls[i], vs[i]) {
      EvaluateAllAt(order, arguments, env, i);
    }
    CoalesceFoldSound(calls, vs);
  }

  lemma {:induction false} ListApplyInScope(order: Order, e: Expr, scope: Scope, env: Environment)
    requires e.ListApply? && Decided(order) && Settled(e, scope) && ScopeConforms(scope, env) && Resolve(e, scope).Ok?
    ensures Sound(order, e, scope, env)
    decreases Depth(scope.lambdas), e, 0
  {
    hide Conforms, Decided, ScopeConforms, ListApplyType, ResolveCallback, EvaluateCallback, Selected;
    var ListApply(filter, list, callback) := e;
    ExpressionSound(order, list, scope, env);
    var listType, v := Resolve(list, scope).value, Evaluate(order, list, env).value;
    var item := CallbackItem(listType).value;
    var result := ResolveCallback(callback, item, scope).value;
    if v.Items? {
      ListItemsConform(v, listType);
      CallbackSound(order, callback, item, v.items, scope, env);
      ListApplySound(filter, listType, result, v, EvaluateCallback(order, callback, v.items, env).value);
    } else {
      ListApplySound(filter, listType, result, v, []);
    }
  }

  lemma {:induction false} CallbackSound(order: Order, callback: Callback, item: Type, items: seq<Value>,
                                             scope: Scope, env: Environment)
    requires Decided(order) && ScopeConforms(scope, env)
    requires ResolveCallback(callback, item, scope).Ok? && SettledCallback(callback, item, scope)
    requires forall v <- items :: Conforms(v, item)
    ensures var vs := EvaluateCallback(order, callback, items, env);
            vs.Some? && forall v <- vs.value :: Conforms(v, ResolveCallback(callback, item, scope).value)
    decreases Depth(scope.lambdas), callback, 0, |items|
  {
    hide Conforms, Decided, ScopeConforms, ResolveLambda, EvaluateLambda, ResolveNamed, EvaluateNamed;
    if items != [] {
      var n := |items| - 1;
      CallbackSound(order, callback, item, items[..n], scope, env);
      assert items[n] in items;
      assert AllConform([items[n]], [item]);
      match callback
      case Inline(lambda) => LambdaSound(order, lambda, [item], [items[n]], scope, env);
      case Named(name) => NamedSound(order, name, [item], [items[n]], scope, env);
    }
  }

  lemma {:induction false} NamedSound(order: Order, name: string, types: seq<Type>, vs: seq<Value>, scope: Scope, env: Environment)
    requires Decided(order) && ScopeConforms(scope, env) && AllConform(vs, types)
    requires ResolveNamed(name, types, scope).Ok? && SettledNamed(name, types, scope)
    ensures var v := EvaluateNamed(order, name, vs, env);
            v.Some? && Conforms(v.value, ResolveNamed(name, types, scope).value)
    decreases Depth(scope.lambdas), name, 0
  {
    hide Conforms, Decided, BindingsConform, ResolveLambda, EvaluateLambda, AllConform;
    var captured, values := scope.lambdas.table[name], env.lambdas.table[name];
    CapturedIsShallower(scope.lambdas, name);
    var inner := Scope([], captured.bindings, captured.lambdas);
    var innerEnv := Environment([], [], values.bindings, values.lambdas);
    assert ScopeConforms(inner, innerEnv);
    LambdaSound(order, captured.lambda, types, vs, inner, innerEnv);
  }

  lemma {:induction false} LambdaSound(order: Order, lambda: Lambda, types: seq<Type>, vs: seq<Value>, scope: Scope, env: Environment)
    requires Decided(order) && ScopeConforms(scope, env) && AllConform(vs, types)
    requires ResolveLambda(lambda, types, scope).Ok? && SettledLambda(lambda, types, scope)
    ensures var v := EvaluateLambda(order, lambda, vs, env);
            v.Some? && Conforms(v.value, ResolveLambda(lambda, types, scope).value)
    decreases Depth(scope.lambdas), lambda, |lambda.locals| + 1
  {
    hide Conforms, Decided, BindingsConform, LambdasConform, ResolveBody, EvaluateBody;
    var names := lambda.parameters;
    var shadowed := set name <- names;
    ShadowingIsNotDeeper(scope.lambdas, shadowed);
    BindAllConforms(scope.bindings, env.bindings, names, types, vs);
    WithoutConforms(scope.lambdas, env.lambdas, shadowed);
    var inner := Scope([], BindAll(scope.bindings, names, types), Without(scope.lambdas, shadowed));
    var innerEnv := Environment([], [], BindAll(env.bindings, names, vs), Without(env.lambdas, shadowed));
    assert ScopeConforms(inner, innerEnv);
    BodySound(order, lambda, 0, shadowed, inner, innerEnv);
  }

  lemma {:induction false} BodySound(order: Order, lambda: Lambda, i: nat, seen: set<string>, scope: Scope, env: Environment)
    requires i <= |lambda.locals|
    requires Decided(order) && ScopeConforms(scope, env)
    requires ResolveBody(lambda, i, seen, scope).Ok? && SettledBody(lambda, i, scope)
    ensures var v := EvaluateBody(order, lambda, i, env);
            v.Some? && Conforms(v.value, ResolveBody(lambda, i, seen, scope).value)
    decreases Depth(scope.lambdas), lambda, |lambda.locals| - i
  {
    hide Conforms, Decided, LambdasConform, Resolve, Evaluate;
    if i == |lambda.locals| {
      ExpressionSound(order, lambda.result, scope, env);
    } else {
      var local := lambda.locals[i];
      ExpressionSound(order, local.value, scope, env);
      var t, v := Resolve(local.value, scope).value, Evaluate(order, local.value, env).value;
      ShadowingIsNotDeeper(scope.lambdas, {local.name});
      WithoutConforms(scope.lambdas, env.lambdas, {local.name});
      var inner := Scope([], scope.bindings[local.name := t], Without(scope.lambdas, {local.name}));
      var innerEnv := Environment([], [], env.bindings[local.name := v], Without(env.lambdas, {local.name}));
      assert ScopeConforms(inner, innerEnv);
      BodySound(order, lambda, i + 1, seen + {local.name}, inner, innerEnv);
    }
  }

  /**
   * Nullability is sound: in every conforming environment a well-typed expression whose comparisons are settled has a
   * value, and that value is not NULL when the type is neither Optional nor Null.
   */
  lemma NullabilitySound(order: Order, e: Expr, scope: Scope, env: Environment)
    requires Decided(order) && Settled(e, scope) && ScopeConforms(scope, env) && Resolve(e, scope).Ok?
    ensures Evaluate(order, e, env).Some?
    ensures var t := Resolve(e, scope).value;
            !IsOptional(t) && t.kind != Null ==> Evaluate(order, e, env).value != Missing
  {
    hide Resolve, Evaluate, Conforms, Decided, ScopeConforms, Settled;
    ExpressionSound(order, e, scope, env);
    var t, v := Resolve(e, scope).value, Evaluate(order, e, env).value;
    if !IsOptional(t) && t.kind != Null {
      PresentUnlessNullable(v, t);
    }
  }

  // ---------------------------------------------------------------- the condition is needed

  /** x = y and the like, for two parameters of one type. */
  function Comparison(op: CompareOp): Expr {
    Compare([Bind("x"), Bind("y")], [op])
  }

  function TwoOf(t: Type): Scope {
    Scope([], map["x" := t, "y" := t], Lambdas(map[]))
  }

  function TwoValues(v: Value, w: Value): Environment {
    Environment([], [], map["x" := v, "y" := w], Lambdas(map[]))
  }

  /** The comparison of two parameters is typed plain Bool, and its value is that of the comparison. */
  lemma ComparisonOfTwo(order: Order, op: CompareOp, t: Type, v: Value, w: Value)
    requires Valid(t) && !IsOptional(t) && t.kind != Null && Conforms(v, t) && Conforms(w, t)
    ensures ScopeConforms(TwoOf(t), TwoValues(v, w))
    ensures Resolve(Comparison(op), TwoOf(t)) == Ok(Plain(Bool))
    ensures Evaluate(order, Comparison(op), TwoValues(v, w)) == Some(ComparePair(order, op, v, w))
  {
    hide Conforms, Valid, CommonType, ComparePair;
    var scope, env, x, y := TwoOf(t), TwoValues(v, w), Bind("x"), Bind("y");
    assert Resolve(x, scope) == Ok(t) == Resolve(y, scope);
    assert Evaluate(order, x, env) == Some(v) && Evaluate(order, y, env) == Some(w);
    OperandPair(order, x, y, scope, env);
    CommonTypeOfTwins(t);
    OnePair(order, op, v, w);
  }

  lemma OnePair(order: Order, op: CompareOp, v: Value, w: Value)
    ensures CompareAll(order, [v, w], [op]) == ComparePair(order, op, v, w)
  {
    hide ComparePair;
    assert [v, w][..1] == [v] && CompareAll(order, [v], [op]) == v;
  }

  /** No engine that decides scalars answers NULL to a comparison of two values of the type. */
  ghost predicate NeverNull(t: Type) {
    forall order: Order, op: CompareOp, v: Value, w: Value | Decided(order) && Conforms(v, t) && Conforms(w, t) ::
      Evaluate(order, Comparison(op), TwoValues(v, w)) != Some(Missing)
  }

  lemma SolidIsNeverNull(t: Type)
    requires Valid(t) && !IsOptional(t) && t.kind != Null && SolidType(t)
    ensures NeverNull(t)
  {
    hide Conforms, Valid, Evaluate, SolidType, Decided, ComparePair;
    forall order: Order, op: CompareOp, v: Value, w: Value | Decided(order) && Conforms(v, t) && Conforms(w, t)
      ensures Evaluate(order, Comparison(op), TwoValues(v, w)) != Some(Missing)
    {
      ComparisonOfTwo(order, op, t, v, w);
      SolidTypeSolidValue(v, t);
      SolidTypeSolidValue(w, t);
      ComparisonIsKnown(order, op, v, w);
    }
  }

  lemma HollowIsSometimesNull(t: Type)
    requires Valid(t) && !IsOptional(t) && t.kind != Null && !SolidType(t)
    ensures !NeverNull(t)
  {
    hide Conforms, Valid, Evaluate, SolidType, Equality, Sample;
    SampleConforms(t);
    ComparisonOfTwo(Reluctant, Equals, t, Sample(t), Sample(t));
    SampleEqualsItself(t);
    assert Decided(Reluctant);
    assert Evaluate(Reluctant, Comparison(Equals), TwoValues(Sample(t), Sample(t))) == Some(Missing);
  }

  /**
   * The analyzer types a comparison at a type that is not Optional as plain Bool.  That is right exactly for the types
   * without Optional or Null inside.
   */
  lemma ComparisonIsNeverNullExactly(t: Type)
    requires Valid(t) && !IsOptional(t) && t.kind != Null
    ensures forall op :: Resolve(Comparison(op), TwoOf(t)) == Ok(Plain(Bool))
    ensures NeverNull(t) <==> SolidType(t)
  {
    hide Conforms, Valid, Resolve, SolidType, NeverNull, Sample;
    SampleConforms(t);
    forall op ensures Resolve(Comparison(op), TwoOf(t)) == Ok(Plain(Bool)) {
      ComparisonOfTwo(Reluctant, op, t, Sample(t), Sample(t));
    }
    if SolidType(t) {
      SolidIsNeverNull(t);
    } else {
      HollowIsSometimesNull(t);
    }
  }

  const HOLLOW := Plain(Struct).(fields := [Field("a", OptionalOf(Plain(Int32)))])

  lemma IntegerIsValid()
    ensures Valid(Plain(Int32))
  {
  }

  lemma OptionalIsValid(t: Type)
    requires Valid(t)
    ensures Valid(OptionalOf(t))
  {
  }

  lemma StructIsValid(f: Field)
    requires f.name != "" && Valid(f.typ)
    ensures Valid(Plain(Struct).(fields := [f]))
  {
  }

  lemma HollowValue()
    ensures Valid(HOLLOW) && Conforms(Record(map["a" := Missing]), HOLLOW)
  {
    hide Conforms, Sample, Valid;
    IntegerIsValid();
    OptionalIsValid(Plain(Int32));
    StructIsValid(Field("a", OptionalOf(Plain(Int32))));
    SampleConforms(HOLLOW);
    HollowSample();
  }

  lemma HollowSample()
    ensures Sample(HOLLOW) == Record(map["a" := Missing])
  {
    var field := Field("a", OptionalOf(Plain(Int32)));
    assert [field][..0] == [];
    assert FieldSamples([field]) == map["a" := Missing];
  }

  /** Whatever the engine: for Struct<a:Optional<Int32>> the comparison is typed Bool, and it is NULL for this value. */
  lemma OptionalMemberIsUnsound(order: Order)
    ensures var v := Record(map["a" := Missing]);
            && ScopeConforms(TwoOf(HOLLOW), TwoValues(v, v))
            && Resolve(Comparison(Equals), TwoOf(HOLLOW)) == Ok(Plain(Bool))
            && Evaluate(order, Comparison(Equals), TwoValues(v, v)) == Some(Missing)
  {
    hide Conforms, Evaluate, Resolve, ScopeConforms, Valid;
    var v := Record(map["a" := Missing]);
    HollowValue();
    ComparisonOfTwo(order, Equals, HOLLOW, v, v);
    var answers := set name | name in v.members :: Equality(order, v.members[name], v.members[name]);
    assert Equality(order, v.members["a"], v.members["a"]) == None && None in answers;
    assert forall name <- v.members :: v.members[name].Missing?;
    assert Equality(order, v, v) == AllOf(answers);
  }

  lemma OperandPair(order: Order, x: Expr, y: Expr, scope: Scope, env: Environment)
    requires Resolve(x, scope).Ok? && Resolve(y, scope).Ok? && Evaluate(order, x, env).Some? && Evaluate(order, y, env).Some?
    ensures ResolveAll([x, y], scope) == Ok([Resolve(x, scope).value, Resolve(y, scope).value])
    ensures EvaluateAll(order, [x, y], env) == Some([Evaluate(order, x, env).value, Evaluate(order, y, env).value])
  {
    hide Resolve, Evaluate, ResolveAll, EvaluateAll;
    NoOperands(order, scope, env);
    OperandSnoc(order, [], x, scope, env);
    assert [] + [x] == [x];
    OperandSnoc(order, [x], y, scope, env);
    assert [x] + [y] == [x, y];
    var t, u := Resolve(x, scope).value, Resolve(y, scope).value;
    var v, w := Evaluate(order, x, env).value, Evaluate(order, y, env).value;
    assert [] + [t] == [t] && [t] + [u] == [t, u] && [] + [v] == [v] && [v] + [w] == [v, w];
  }

  lemma NoOperands(order: Order, scope: Scope, env: Environment)
    ensures ResolveAll([], scope) == Ok([]) && EvaluateAll(order, [], env) == Some([])
  {
  }

  lemma OperandSnoc(order: Order, es: seq<Expr>, e: Expr, scope: Scope, env: Environment)
    requires ResolveAll(es, scope).Ok? && EvaluateAll(order, es, env).Some?
    requires Resolve(e, scope).Ok? && Evaluate(order, e, env).Some?
    ensures ResolveAll(es + [e], scope) == Ok(ResolveAll(es, scope).value + [Resolve(e, scope).value])
    ensures EvaluateAll(order, es + [e], env) == Some(EvaluateAll(order, es, env).value + [Evaluate(order, e, env).value])
  {
    hide Resolve, Evaluate;
    var all := es + [e];
    assert all[..|all| - 1] == es && all[|all| - 1] == e;
  }

  lemma CommonTypeOfTwins(t: Type)
    requires Valid(t) && !IsOptional(t) && t.kind != Null
    ensures CommonType([t, t]).Ok? && !IsOptional(CommonType([t, t]).value)
  {
    hide Valid, CommonType, Below, Equal;
    assert [t] + [t] == [t, t];
    CoresOfOne(t);
    CoresOfSum([t], [t]);
    BelowIsPreorder(t, t, t);
    CommonTypeSucceeds([t, t]);
    CommonTypeIsJoin([t, t]);
  }
}
