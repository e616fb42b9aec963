/**
 * The reference the typing rules are measured against: evaluation under three-valued logic.
 * The result is None only where an expression is malformed; well-typed expressions always have a value.
 */
module Evaluation {
  import opened Wrappers
  import opened Types
  import opened CommonTypes
  import opened Expressions
  import opened Comparisons
  import opened Resolver

  /** One row of every relation in scope; None is a row padded with NULLs by an outer join. */
  type Row = seq<Option<map<string, Value>>>

  datatype Environment = Environment(
    relations: seq<Relation>,
    row: Row,
    bindings: map<string, Value>,
    lambdas: Lambdas<Value>)

  // ---------------------------------------------------------------- operators

  function ToReal(v: Value): real {
    match v case Whole(n) => n as real case Fraction(r) => r case _ => 0.0
  }

  function Calculate(op: ArithmeticOp, v: Value, w: Value): Value {
    if v.Missing? || w.Missing? then Missing
    else if v.Whole? && w.Whole? then
      Whole(match op case Plus => v.n + w.n case Minus => v.n - w.n case _ => v.n * w.n)
    else
      var x, y := ToReal(v), ToReal(w);
      Fraction(match op case Plus => x + y case Minus => x - y case _ => x * y)
  }

  function CalculateAll(vs: seq<Value>, ops: seq<ArithmeticOp>): Value
    requires vs != [] && |ops| + 1 >= |vs|
  {
    var n := |vs| - 1;
    if n == 0 then vs[0] else Calculate(ops[n - 1], CalculateAll(vs[..n], ops), vs[n])
  }

  function ConjunctionOf(vs: seq<Value>): Value {
    if Flag(false) in vs then Flag(false) else if Missing in vs then Missing else Flag(true)
  }

  function DisjunctionOf(vs: seq<Value>): Value {
    if Flag(true) in vs then Flag(true) else if Missing in vs then Missing else Flag(false)
  }

  function ParityOf(vs: seq<Value>): bool {
    vs != [] && (vs[|vs| - 1] == Flag(true)) != ParityOf(vs[..|vs| - 1])
  }

  function Combine(op: LogicOp, vs: seq<Value>): Value {
    match op
    case And => ConjunctionOf(vs)
    case Or => DisjunctionOf(vs)
    case Xor => if Missing in vs then Missing else Flag(ParityOf(vs))
    case Not => if Missing in vs || vs == [] then Missing else Flag(vs[0] == Flag(false))
  }

  function Joined(vs: seq<Value>): string {
    if vs == [] then ""
    else Joined(vs[..|vs| - 1]) + (if vs[|vs| - 1].Text? then vs[|vs| - 1].text else "")
  }

  /** A chain of comparisons associates to the left. */
  ghost function CompareAll(order: Order, vs: seq<Value>, ops: seq<CompareOp>): Value
    requires vs != [] && |ops| + 1 >= |vs|
  {
    var n := |vs| - 1;
    if n == 0 then vs[0] else ComparePair(order, ops[n - 1], CompareAll(order, vs[..n], ops), vs[n])
  }

  /** IN: some item is equal, or unknown when an equality is unknown and none holds. */
  ghost function IsAmong(order: Order, v: Value, items: seq<Value>): Value {
    if items == [] then Flag(false)
    else
      var n := |items| - 1;
      DisjunctionOf([IsAmong(order, v, items[..n]), ComparePair(order, Equals, v, items[n])])
  }

  ghost function Choose(order: Order, selector: Option<Value>, conditions: seq<Value>, results: seq<Value>, otherwise: Value): Value
    requires |conditions| == |results|
  {
    if conditions == [] then otherwise
    else
      var test := if selector.None? then conditions[0] else ComparePair(order, Equals, selector.value, conditions[0]);
      if test == Flag(true) then results[0]
      else Choose(order, selector, conditions[1..], results[1..], otherwise)
  }

  function IfValue(vs: seq<Value>): Value {
    if |vs| >= 2 && vs[0] == Flag(true) then vs[1] else if |vs| == 3 then vs[2] else Missing
  }

  function FirstPresent(vs: seq<Value>): Value {
    if vs == [] then Missing
    else
      var before := FirstPresent(vs[..|vs| - 1]);
      if before.Missing? then vs[|vs| - 1] else before
  }

  function MemberOf(v: Value, path: seq<string>): Value
    decreases path
  {
    if path == [] then v
    else if v.Record? && path[0] in v.members then MemberOf(v.members[path[0]], path[1..])
    else Missing
  }

  function RecordOf(names: seq<string>, vs: seq<Value>): Value
    requires |names| == |vs|
  {
    Record(BindAll(map[], names, vs))
  }

  /** The items whose predicate answered TRUE. */
  function Selected(items: seq<Value>, answers: seq<Value>): seq<Value>
    requires |items| == |answers|
  {
    if items == [] then []
    else
      var n := |items| - 1;
      Selected(items[..n], answers[..n]) + (if answers[n] == Flag(true) then [items[n]] else [])
  }

  function LiteralValue(literal: Literal): Value {
    match literal
    case NullLiteral => Missing
    case BoolLiteral(b) => Flag(b)
    case TextLiteral(kind, text) => if kind == String || kind == Utf8 then Text(text) else Opaque(kind, text)
    case IntegerLiteral(n, _) => Whole(n)
    case RealLiteral(_, r) => Fraction(r)
  }

  function ColumnValue(relations: seq<Relation>, row: Row, qualifier: string, name: string): Value {
    match ColumnSource(relations, qualifier, name)
    case None => Missing
    case Some(i) => if i < |row| && row[i].Some? && name in row[i].value then row[i].value[name] else Missing
  }

  // ---------------------------------------------------------------- expressions

  ghost function Evaluate(order: Order, e: Expr, env: Environment): Option<Value>
    decreases Depth(env.lambdas), e, 0
  {
    match e
    case Lit(literal) => Some(LiteralValue(literal))
    case Bind(name) => Some(if name in env.bindings then env.bindings[name] else Missing)
    case Column(qualifier, name) => Some(ColumnValue(env.relations, env.row, qualifier, name))
    case Arithmetic(operands, ops) =>
      (match EvaluateAll(order, operands, env)
       case None => None
       case Some(vs) => if vs == [] || |ops| + 1 != |vs| then None else Some(CalculateAll(vs, ops)))
    case Logic(op, operands) =>
      (match EvaluateAll(order, operands, env) case None => None case Some(vs) => Some(Combine(op, vs)))
    case Concat(operands) =>
      (match EvaluateAll(order, operands, env)
       case None => None
       case Some(vs) => Some(if Missing in vs then Missing else Text(Joined(vs))))
    case Compare(operands, ops) =>
      (match EvaluateAll(order, operands, env)
       case None => None
       case Some(vs) => if vs == [] || |ops| + 1 != |vs| then None else Some(CompareAll(order, vs, ops)))
    case NullCheck(operand, negated) =>
      (match Evaluate(order, operand, env) case None => None case Some(v) => Some(Flag(v.Missing? != negated)))
    case InValues(left, values) =>
      (match (Evaluate(order, left, env), EvaluateAll(order, values, env))
       case (Some(v), Some(vs)) => Some(IsAmong(order, v, vs))
       case _ => None)
    case InList(left, list) =>
      (match (Evaluate(order, left, env), Evaluate(order, list, env))
       case (Some(v), Some(Items(vs))) => Some(IsAmong(order, v, vs))
       case (Some(v), Some(_)) => Some(Missing)
       case _ => None)
    case Case(selector, conditions, results, otherwise) =>
      (match (EvaluateAll(order, conditions, env), EvaluateAll(order, results, env), Evaluate(order, otherwise, env))
       case (Some(cs), Some(rs), Some(o)) =>
         if |cs| != |rs| then None
         else
           (match selector
            case None => Some(Choose(order, None, cs, rs, o))
            case Some(s) =>
              match Evaluate(order, s, env) case None => None case Some(v) => Some(Choose(order, Some(v), cs, rs, o)))
       case _ => None)
    case If(arguments) =>
      (match EvaluateAll(order, arguments, env)
       case None => None
       case Some(vs) => Some(IfValue(vs)))
    case Coalesce(arguments) =>
      (match EvaluateAll(order, arguments, env) case None => None case Some(vs) => Some(FirstPresent(vs)))
    case AsStruct(names, values) =>
      (match EvaluateAll(order, values, env)
       case None => None
       case Some(vs) => if |names| != |vs| then None else Some(RecordOf(names, vs)))
    case AsList(values) =>
      (match EvaluateAll(order, values, env) case None => None case Some(vs) => Some(Items(vs)))
    case ListCreate(_) => Some(Items([]))
    case Member(base, path) =>
      (match Evaluate(order, base, env) case None => None case Some(v) => Some(MemberOf(v, path)))
    case ListApply(filter, list, callback) =>
      (match Evaluate(order, list, env)
       case None => None
       case Some(v) =>
         if !v.Items? then Some(Missing)
         else
           match EvaluateCallback(order, callback, v.items, env)
           case None => None
           case Some(answers) => Some(Items(if filter then Selected(v.items, answers) else answers)))
    case Invoke(name, arguments) =>
      (match EvaluateAll(order, arguments, env)
       case None => None
       case Some(vs) => EvaluateNamed(order, name, vs, env))
  }

  ghost function EvaluateAll(order: Order, es: seq<Expr>, env: Environment): (r: Option<seq<Value>>)
    ensures r.Some? ==> |r.value| == |es|
    decreases Depth(env.lambdas), es, 0
  {
    if es == [] then Some([])
    else
      match (EvaluateAll(order, es[..|es| - 1], env), Evaluate(order, es[|es| - 1], env))
      case (Some(vs), Some(v)) => Some(vs + [v])
      case _ => None
  }

  /** The callback applied to each item. */
  ghost function EvaluateCallback(order: Order, callback: Callback, items: seq<Value>, env: Environment): (r: Option<seq<Value>>)
    ensures r.Some? ==> |r.value| == |items|
    decreases Depth(env.lambdas), callback, |items|
  {
    if items == [] then Some([])
    else
      var n := |items| - 1;
      var last := match callback
        case Inline(lambda) => EvaluateLambda(order, lambda, [items[n]], env)
        case Named(name) => EvaluateNamed(order, name, [items[n]], env);
      match (EvaluateCallback(order, callback, items[..n], env), last)
      case (Some(vs), Some(v)) => Some(vs + [v])
      case _ => None
  }

  ghost function EvaluateNamed(order: Order, name: string, arguments: seq<Value>, env: Environment): Option<Value>
    decreases Depth(env.lambdas), name, 0
  {
    if name !in env.lambdas.table then None
    else
      var captured := env.lambdas.table[name];
      CapturedIsShallower(env.lambdas, name);
      EvaluateLambda(order, captured.lambda, arguments, Environment([], [], captured.bindings, captured.lambdas))
  }

  ghost function EvaluateLambda(order: Order, lambda: Lambda, arguments: seq<Value>, env: Environment): Option<Value>
    decreases Depth(env.lambdas), lambda, |lambda.locals| + 1
  {
    if |lambda.parameters| != |arguments| then None
    else
      var shadowed := set name <- lambda.parameters;
      ShadowingIsNotDeeper(env.lambdas, shadowed);
      EvaluateBody(order, lambda, 0,
                   Environment([], [], BindAll(env.bindings, lambda.parameters, arguments), Without(env.lambdas, shadowed)))
  }

  ghost function EvaluateBody(order: Order, lambda: Lambda, i: nat, env: Environment): Option<Value>
    requires i <= |lambda.locals|
    decreases Depth(env.lambdas), lambda, |lambda.locals| - i
  {
    if i == |lambda.locals| then Evaluate(order, lambda.result, env)
    else
      var local := lambda.locals[i];
      match Evaluate(order, local.value, env)
      case None => None
      case Some(v) =>
        ShadowingIsNotDeeper(env.lambdas, {local.name});
        EvaluateBody(order, lambda, i + 1,
                     Environment([], [], env.bindings[local.name := v], Without(env.lambdas, {local.name})))
  }
}
