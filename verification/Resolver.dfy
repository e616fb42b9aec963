/** resolveExpression and its helpers: the type of an expression in a scope, or an error. */
module Resolver {
  import opened Wrappers
  import opened Types
  import opened CommonTypes
  import opened Expressions
  import opened TypingRules

  /** What is visible at one place of a query. */
  datatype Scope = Scope(relations: seq<Relation>, bindings: map<string, Type>, lambdas: Lambdas<Type>)

  // ---------------------------------------------------------------- columns

  function ColumnNamed(columns: seq<ColumnType>, name: string): Option<Type> {
    if columns == [] then None
    else if columns[0].name == name then Some(columns[0].typ)
    else ColumnNamed(columns[1..], name)
  }

  function CountNamed(columns: seq<ColumnType>, name: string): nat {
    if columns == [] then 0
    else (if columns[|columns| - 1].name == name then 1 else 0) + CountNamed(columns[..|columns| - 1], name)
  }

  predicate Qualifies(relation: Relation, qualifier: string) {
    qualifier == "" || qualifier == relation.alias
  }

  /** How many columns of the first k relations a reference could mean. */
  function MatchCount(relations: seq<Relation>, qualifier: string, name: string): nat {
    if relations == [] then 0
    else
      var last := relations[|relations| - 1];
      (if Qualifies(last, qualifier) then CountNamed(last.columns, name) else 0)
      + MatchCount(relations[..|relations| - 1], qualifier, name)
  }

  /** The first relation with such a column; |relations| when there is none. */
  function FirstMatch(relations: seq<Relation>, qualifier: string, name: string): (i: nat)
    ensures i <= |relations|
  {
    if relations == [] then 0
    else if Qualifies(relations[0], qualifier) && ColumnNamed(relations[0].columns, name).Some? then 0
    else 1 + FirstMatch(relations[1..], qualifier, name)
  }

  /** The first grouping relation with such an alias; |relations| when there is none. */
  function FirstGrouping(relations: seq<Relation>, name: string): (i: nat)
    ensures i <= |relations|
  {
    if relations == [] then 0
    else if relations[0].grouping && ColumnNamed(relations[0].columns, name).Some? then 0
    else 1 + FirstGrouping(relations[1..], name)
  }

  /** Which relation a column reference means: a GROUP BY alias first, else the only source that has it. */
  function ColumnSource(relations: seq<Relation>, qualifier: string, name: string): Option<nat> {
    var grouping := if qualifier == "" then FirstGrouping(relations, name) else |relations|;
    if grouping < |relations| then Some(grouping)
    else if MatchCount(relations, qualifier, name) != 1 then None
    else Some(FirstMatch(relations, qualifier, name))
  }

  function ResolveColumn(relations: seq<Relation>, qualifier: string, name: string): Result<Type> {
    match ColumnSource(relations, qualifier, name)
    case None => Err
    case Some(i) =>
      if i >= |relations| then Err
      else
        match ColumnNamed(relations[i].columns, name)
        case None => Err
        case Some(typ) => Ok(WithOptional(typ, relations[i].optional && !(qualifier == "" && relations[i].grouping)))
  }

  // ---------------------------------------------------------------- expressions

  function IntegerValue(e: Expr): Option<int> {
    if e.Lit? && e.literal.IntegerLiteral? then Some(e.literal.number) else None
  }

  predicate IsListBind(e: Expr, bindings: map<string, Type>) {
    e.Bind? && e.name in bindings && Unwrap(bindings[e.name]).kind == List
  }

  function Resolve(e: Expr, scope: Scope): Result<Type>
    decreases Depth(scope.lambdas), e, 0
  {
    match e
    case Lit(literal) => LiteralType(literal)
    case Bind(name) => if name in scope.bindings then Ok(scope.bindings[name]) else Err
    case Column(qualifier, name) => ResolveColumn(scope.relations, qualifier, name)
    case Arithmetic(operands, ops) =>
      (match ResolveAll(operands, scope) case Err => Err case Ok(types) => ArithmeticType(types, ops))
    case Logic(op, operands) =>
      (match ResolveAll(operands, scope) case Err => Err case Ok(types) => LogicType(op, types))
    case Concat(operands) =>
      (match ResolveAll(operands, scope) case Err => Err case Ok(types) => ConcatType(types))
    case Compare(operands, ops) =>
      (match ResolveAll(operands, scope) case Err => Err case Ok(types) => CompareType(types, ops))
    case NullCheck(operand, _) =>
      (match Resolve(operand, scope) case Err => Err case Ok(_) => Ok(Plain(Bool)))
    case InValues(left, values) =>
      (match (Resolve(left, scope), ResolveAll(values, scope))
       case (Ok(l), Ok(types)) =>
         if exists value <- values :: IsListBind(value, scope.bindings) then Err else InType(l, types, false)
       case _ => Err)
    case InList(left, list) =>
      (match (Resolve(left, scope), Resolve(list, scope))
       case (Ok(l), Ok(items)) => InListType(l, items)
       case _ => Err)
    case Case(selector, conditions, results, otherwise) =>
      (match (ResolveAll(conditions, scope), ResolveAll(results, scope), Resolve(otherwise, scope))
       case (Ok(cs), Ok(rs), Ok(o)) =>
         (match selector
          case None => CaseType(None, cs, rs, o)
          case Some(s) => (match Resolve(s, scope) case Err => Err case Ok(st) => CaseType(Some(st), cs, rs, o)))
       case _ => Err)
    case If(arguments) =>
      (match ResolveAll(arguments, scope) case Err => Err case Ok(types) => IfType(types))
    case Coalesce(arguments) =>
      (match ResolveAll(arguments, scope) case Err => Err case Ok(types) => CoalesceType(CallArguments(arguments, types)))
    case AsStruct(names, values) =>
      (match ResolveAll(values, scope) case Err => Err case Ok(types) => StructType(names, types))
    case AsList(values) =>
      (match ResolveAll(values, scope) case Err => Err case Ok(types) => AsListType(types))
    case ListCreate(item) => ListCreateType(item)
    case Member(base, path) =>
      (match Resolve(base, scope) case Err => Err case Ok(t) => MemberType(t, path))
    case ListApply(filter, list, callback) =>
      (match Resolve(list, scope)
       case Err => Err
       case Ok(listType) =>
         match CallbackItem(listType)
         case Err => Err
         case Ok(item) =>
           match ResolveCallback(callback, item, scope)
           case Err => Err
           case Ok(result) => ListApplyType(filter, listType, result))
    case Invoke(name, arguments) =>
      (match ResolveAll(arguments, scope)
       case Err => Err
       case Ok(types) => ResolveNamed(name, types, scope))
  }

  function ResolveAll(es: seq<Expr>, scope: Scope): (r: Result<seq<Type>>)
    ensures r.Ok? ==> |r.value| == |es|
    decreases Depth(scope.lambdas), es, 0
  {
    if es == [] then Ok([])
    else
      match (ResolveAll(es[..|es| - 1], scope), Resolve(es[|es| - 1], scope))
      case (Ok(types), Ok(t)) => Ok(types + [t])
      case _ => Err
  }

  function CallArguments(es: seq<Expr>, types: seq<Type>): (arguments: seq<Argument>)
    requires |es| == |types|
    ensures |arguments| == |es|
  {
    seq(|es|, i requires 0 <= i < |es| => Argument(types[i], IntegerValue(es[i]), es[i].ListCreate?))
  }

  /** The result type of a callback on list items. */
  function ResolveCallback(callback: Callback, item: Type, scope: Scope): Result<Type>
    decreases Depth(scope.lambdas), callback, 0
  {
    match callback
    case Inline(lambda) => ResolveLambda(lambda, [item], scope)
    case Named(name) => ResolveNamed(name, [item], scope)
  }

  /** A call of a lambda by name: its body is typed where the lambda was written, not where it is called. */
  function ResolveNamed(name: string, types: seq<Type>, scope: Scope): Result<Type>
    decreases Depth(scope.lambdas), name, 0
  {
    if name !in scope.bindings || scope.bindings[name].kind != Kind.Lambda || name !in scope.lambdas.table then Err
    else
      var captured := scope.lambdas.table[name];
      CapturedIsShallower(scope.lambdas, name);
      ResolveLambda(captured.lambda, types, Scope([], captured.bindings, captured.lambdas))
  }

  function ResolveLambda(lambda: Lambda, types: seq<Type>, scope: Scope): Result<Type>
    decreases Depth(scope.lambdas), lambda, |lambda.locals| + 1
  {
    var names := lambda.parameters;
    if |names| != |types| || !DistinctStrings(names) || exists t <- types :: t.kind == Kind.Lambda then Err
    else
      var shadowed := set name <- names;
      ShadowingIsNotDeeper(scope.lambdas, shadowed);
      ResolveBody(lambda, 0, shadowed,
                  Scope([], BindAll(scope.bindings, names, types), Without(scope.lambdas, shadowed)))
  }

  /** The statements of a lambda body from the i-th on, then its RETURN; `seen` holds the names it has bound. */
  function ResolveBody(lambda: Lambda, i: nat, seen: set<string>, scope: Scope): Result<Type>
    requires i <= |lambda.locals|
    decreases Depth(scope.lambdas), lambda, |lambda.locals| - i
  {
    if i == |lambda.locals| then Resolve(lambda.result, scope)
    else
      var local := lambda.locals[i];
      if local.name in seen then Err
      else
        match Resolve(local.value, scope)
        case Err => Err
        case Ok(t) =>
          ShadowingIsNotDeeper(scope.lambdas, {local.name});
          ResolveBody(lambda, i + 1, seen + {local.name},
                      Scope([], scope.bindings[local.name := t], Without(scope.lambdas, {local.name})))
  }

  predicate DistinctStrings(names: seq<string>) {
    forall i, j | 0 <= i < j < |names| :: names[i] != names[j]
  }

  function BindAll<V>(bindings: map<string, V>, names: seq<string>, values: seq<V>): map<string, V>
    requires |names| == |values|
  {
    if names == [] then bindings
    else
      var n := |names| - 1;
      BindAll(bindings, names[..n], values[..n])[names[n] := values[n]]
  }
}
