/**
 * The typing rule of each expression form, given the types of its operands.
 * Each rule that the analyzer computes in a loop is also given as that loop, proved equal to the rule.
 */
module TypingRules {
  import opened Wrappers
  import opened Types
  import opened CommonTypes
  import opened Expressions

  // ---------------------------------------------------------------- literals and integer ranges

  /** The first value above the range of an integer of this width. */
  function Limit(width: Width): nat {
    var bits := if width.signed && width.bits > 0 then width.bits - 1 else width.bits;
    if bits == 7 then 0x80 else if bits == 8 then 0x100
    else if bits == 15 then 0x8000 else if bits == 16 then 0x1_0000
    else if bits == 31 then 0x8000_0000 else if bits == 32 then 0x1_0000_0000
    else if bits == 63 then 0x8000_0000_0000_0000 else if bits == 64 then 0x1_0000_0000_0000_0000
    else 0
  }

  predicate InRange(n: int, kind: Kind) {
    var width := IntegerInfo(kind);
    (if width.signed then 0 - Limit(width) else 0) <= n < Limit(width)
  }

  /** integerLiteralFits; None is a missing literal. */
  predicate LiteralFits(literal: Option<int>, kind: Kind) {
    literal.Some? && InRange(literal.value, kind)
  }

  /** totalIntegerCast. */
  predicate TotalIntegerCast(source: Kind, target: Kind) {
    var s, t := IntegerInfo(source), IntegerInfo(target);
    if s.signed == t.signed then t.bits >= s.bits
    else if s.signed then false
    else t.signed && t.bits > s.bits
  }

  predicate CanWidenInteger(source: Type, target: Type) {
    var s, t := IntegerInfo(Unwrap(source).kind), IntegerInfo(Unwrap(target).kind);
    && !(IsOptional(source) && !IsOptional(target))
    && s.bits != 0 && t.bits != 0
    && ((s.signed == t.signed && s.bits <= t.bits) || (!s.signed && t.signed && s.bits < t.bits))
  }

  /** A cast between integer kinds is declared total exactly when the target holds every value of the source. */
  lemma TotalCastLosesNothing(source: Kind, target: Kind)
    requires IsInteger(source) && IsInteger(target)
    ensures TotalIntegerCast(source, target) <==> forall n | InRange(n, source) :: InRange(n, target)
  {
    var least := if IntegerInfo(source).signed then 0 - Limit(IntegerInfo(source)) else 0;
    var most := Limit(IntegerInfo(source)) - 1;
    assert InRange(least, source) && InRange(most, source);
    if !TotalIntegerCast(source, target) {
      assert !InRange(least, target) || !InRange(most, target);
    }
  }

  /** Widening is allowed exactly when no value and no NULL is lost. */
  lemma WideningLosesNothing(source: Type, target: Type)
    ensures CanWidenInteger(source, target) <==>
            && IsInteger(Unwrap(source).kind) && IsInteger(Unwrap(target).kind)
            && (IsOptional(source) ==> IsOptional(target))
            && forall n | InRange(n, Unwrap(source).kind) :: InRange(n, Unwrap(target).kind)
  {
    var s, t := Unwrap(source).kind, Unwrap(target).kind;
    if IsInteger(s) && IsInteger(t) {
      TotalCastLosesNothing(s, t);
    }
  }

  function LiteralType(literal: Literal): Result<Type> {
    match literal
    case NullLiteral => Ok(Plain(Null))
    case BoolLiteral(_) => Ok(Plain(Bool))
    case TextLiteral(kind, _) => if kind in {String, Utf8, Yson, Json} then Ok(Plain(kind)) else Err
    case RealLiteral(kind, _) => if kind in {Float, Double} then Ok(Plain(kind)) else Err
    case IntegerLiteral(n, Some(kind)) =>
      if kind in {Uint64, Uint16, Uint8, Int64, Int16, Int8, Uint32} && InRange(n, kind) then Ok(Plain(kind)) else Err
    case IntegerLiteral(n, None) =>
      if InRange(n, Int32) then Ok(Plain(Int32)) else if InRange(n, Int64) then Ok(Plain(Int64)) else Err
  }

  // ---------------------------------------------------------------- arithmetic

  predicate ArithmeticKind(kind: Kind) {
    IsInteger(kind) || kind == Float || kind == Double
  }

  function ArithmeticPair(op: ArithmeticOp, left: Type, right: Type): Result<Type> {
    if op == UnsupportedOp || !ArithmeticKind(Unwrap(left).kind) || !ArithmeticKind(Unwrap(right).kind) then Err
    else CommonType([left, right])
  }

  /** The left fold over operands; NoKind marks the result that is not set yet. */
  function ArithmeticFold(types: seq<Type>, ops: seq<ArithmeticOp>): Result<Type>
    requires |ops| + 1 >= |types|
  {
    if types == [] then Ok(Plain(NoKind))
    else
      var n := |types| - 1;
      match ArithmeticFold(types[..n], ops)
      case Err => Err
      case Ok(result) =>
        if result.kind == NoKind then Ok(types[n])
        else if n == 0 then Err
        else ArithmeticPair(ops[n - 1], result, types[n])
  }

  function ArithmeticType(types: seq<Type>, ops: seq<ArithmeticOp>): Result<Type> {
    if types == [] || |ops| + 1 != |types| then Err else ArithmeticFold(types, ops)
  }

  lemma {:induction false} ArithmeticStopsAtError(types: seq<Type>, ops: seq<ArithmeticOp>, n: nat)
    requires |ops| + 1 >= |types| && n <= |types| && ArithmeticFold(types[..n], ops).Err?
    ensures ArithmeticFold(types, ops).Err?
    decreases |types|
  {
    if n == |types| {
      assert types[..n] == types;
    } else {
      var front := types[..|types| - 1];
      assert front[..n] == types[..n];
      ArithmeticStopsAtError(front, ops, n);
    }
  }

  method ComputeArithmeticType(types: seq<Type>, ops: seq<ArithmeticOp>) returns (r: Result<Type>)
    requires types != [] && |ops| + 1 == |types|
    ensures r == ArithmeticType(types, ops)
  {
    hide ArithmeticPair;
    var result := Plain(NoKind);
    for i := 0 to |types|
      invariant ArithmeticFold(types[..i], ops) == Ok(result)
      invariant i == 0 ==> result.kind == NoKind
    {
      assert types[..i + 1][..i] == types[..i];
      if result.kind == NoKind {
        result := types[i];
      } else {
        var step := ArithmeticPair(ops[i - 1], result, types[i]);
        if step.Err? {
          ArithmeticStopsAtError(types, ops, i + 1);
          return Err;
        }
        result := step.value;
      }
    }
    assert types[..|types|] == types;
    return Ok(result);
  }

  // ---------------------------------------------------------------- AND, OR, XOR, NOT

  predicate BoolOrNull(t: Type) {
    t.kind == Null || Unwrap(t).kind == Bool
  }

  predicate NullOrOptional(t: Type) {
    t.kind == Null || IsOptional(t)
  }

  predicate AllBoolOrNull(types: seq<Type>) {
    forall t <- types :: BoolOrNull(t)
  }

  predicate AllNull(types: seq<Type>) {
    forall t <- types :: t.kind == Null
  }

  predicate AnyNullOrOptional(types: seq<Type>) {
    exists t <- types :: NullOrOptional(t)
  }

  function LogicType(op: LogicOp, types: seq<Type>): Result<Type> {
    if types == [] || !AllBoolOrNull(types) then Err
    else if op == Not && AllNull(types) then Ok(Plain(Null))
    else Ok(WithOptional(Plain(Bool), AnyNullOrOptional(types)))
  }

  lemma LogicPrefix(types: seq<Type>, i: nat)
    requires i < |types|
    ensures AllBoolOrNull(types[..i + 1]) <==> AllBoolOrNull(types[..i]) && BoolOrNull(types[i])
    ensures AllNull(types[..i + 1]) <==> AllNull(types[..i]) && types[i].kind == Null
    ensures AnyNullOrOptional(types[..i + 1]) <==> AnyNullOrOptional(types[..i]) || NullOrOptional(types[i])
    ensures !BoolOrNull(types[i]) ==> !AllBoolOrNull(types)
  {
    hide BoolOrNull, NullOrOptional;
    assert types[..i + 1] == types[..i] + [types[i]];
    assert types[i] in types[..i + 1] && types[i] in types;
    assert forall t <- types[..i] :: t in types[..i + 1];
  }

  method ComputeLogicType(op: LogicOp, types: seq<Type>) returns (r: Result<Type>)
    requires types != []
    ensures r == LogicType(op, types)
  {
    hide BoolOrNull, NullOrOptional, AllBoolOrNull, AllNull, AnyNullOrOptional;
    var result := if op == Not then Plain(Null) else Plain(Bool);
    var optional := false;
    assert AllBoolOrNull([]) && AllNull([]) && !AnyNullOrOptional([]) by { LogicOfNothing(); }
    for i := 0 to |types|
      invariant AllBoolOrNull(types[..i])
      invariant optional <==> AnyNullOrOptional(types[..i])
      invariant result == if op == Not && AllNull(types[..i]) then Plain(Null) else Plain(Bool)
    {
      LogicPrefix(types, i);
      if !BoolOrNull(types[i]) { return Err; }
      optional := optional || NullOrOptional(types[i]);
      if types[i].kind != Null { result := Plain(Bool); }
    }
    assert types[..|types|] == types;
    if optional && result.kind != Null {
      result := OptionalOf(result);
    }
    return Ok(result);
  }

  lemma LogicOfNothing()
    ensures AllBoolOrNull([]) && AllNull([]) && !AnyNullOrOptional([])
  {
  }

  // ---------------------------------------------------------------- concatenation

  /** The variables of the concatenation loop; NoKind marks a result that is not set yet. */
  datatype Concatenated = Concatenated(result: Type, optional: bool, hasNull: bool)

  function ConcatStep(acc: Concatenated, t: Type): Result<Concatenated> {
    var base := Unwrap(t);
    if t.kind == Null then Ok(acc.(hasNull := true))
    else if base.kind != String && base.kind != Utf8 then Err
    else if acc.result.kind == NoKind then Ok(Concatenated(base, acc.optional || IsOptional(t), acc.hasNull))
    else if !Equal(acc.result, base) then Err
    else Ok(acc.(optional := acc.optional || IsOptional(t)))
  }

  function ConcatFold(types: seq<Type>): Result<Concatenated> {
    if types == [] then Ok(Concatenated(Plain(NoKind), false, false))
    else
      match ConcatFold(types[..|types| - 1])
      case Err => Err
      case Ok(acc) => ConcatStep(acc, types[|types| - 1])
  }

  function ConcatType(types: seq<Type>): Result<Type> {
    if types == [] then Err
    else
      match ConcatFold(types)
      case Err => Err
      case Ok(acc) =>
        if acc.hasNull then Ok(Plain(Null)) else Ok(if acc.optional then OptionalOf(acc.result) else acc.result)
  }

  lemma {:induction false} ConcatStopsAtError(types: seq<Type>, n: nat)
    requires n <= |types| && ConcatFold(types[..n]).Err?
    ensures ConcatFold(types).Err?
    decreases |types|
  {
    if n == |types| {
      assert types[..n] == types;
    } else {
      var front := types[..|types| - 1];
      assert front[..n] == types[..n];
      ConcatStopsAtError(front, n);
    }
  }

  method ComputeConcatType(types: seq<Type>) returns (r: Result<Type>)
    requires types != []
    ensures r == ConcatType(types)
  {
    hide Equal;
    var result, optional, hasNull := Plain(NoKind), false, false;
    for i := 0 to |types|
      invariant ConcatFold(types[..i]) == Ok(Concatenated(result, optional, hasNull))
    {
      assert types[..i + 1][..i] == types[..i];
      if types[i].kind == Null {
        hasNull := true;
      } else {
        optional := optional || IsOptional(types[i]);
        var base := Unwrap(types[i]);
        if base.kind != String && base.kind != Utf8 {
          ConcatStopsAtError(types, i + 1);
          return Err;
        }
        if result.kind == NoKind {
          result := base;
        } else if !Equal(result, base) {
          ConcatStopsAtError(types, i + 1);
          return Err;
        }
      }
    }
    assert types[..|types|] == types;
    if hasNull { return Ok(Plain(Null)); }
    return Ok(if optional then OptionalOf(result) else result);
  }

  // ---------------------------------------------------------------- comparisons and IN

  predicate NullSafe(ops: seq<CompareOp>) {
    forall op <- ops :: op in {DistinctFrom, NotDistinctFrom}
  }

  function CompareType(types: seq<Type>, ops: seq<CompareOp>): Result<Type> {
    if |types| < 2 || |ops| + 1 != |types| then Err
    else if forall t <- types :: t.kind == Null then Ok(WithOptional(Plain(Bool), !NullSafe(ops)))
    else
      match CommonType(types)
      case Err => Err
      case Ok(common) => Ok(WithOptional(Plain(Bool), IsOptional(common) && !NullSafe(ops)))
  }

  function InType(left: Type, items: seq<Type>, optionalList: bool): Result<Type> {
    if items == [] then Err
    else
      match CommonType([left] + items)
      case Err => Err
      case Ok(common) => Ok(WithOptional(Plain(Bool), IsOptional(common) || optionalList))
  }

  function InListType(left: Type, list: Type): Result<Type> {
    var items := Unwrap(list);
    if items.kind != List || items.elem.None? then Err else InType(left, [items.elem.value], IsOptional(list))
  }

  // ---------------------------------------------------------------- CASE and IF

  predicate ConditionAllowed(selector: Option<Type>, condition: Type) {
    match selector
    case None => Unwrap(condition).kind == Bool || condition.kind == Null
    case Some(s) => CommonType([s, condition]).Ok?
  }

  function CaseType(selector: Option<Type>, conditions: seq<Type>, results: seq<Type>, otherwise: Type): Result<Type> {
    if conditions == [] || |conditions| != |results| || exists c <- conditions :: !ConditionAllowed(selector, c) then Err
    else CommonType(results + [otherwise])
  }

  method ComputeCaseType(selector: Option<Type>, conditions: seq<Type>, results: seq<Type>, otherwise: Type)
    returns (r: Result<Type>)
    requires |conditions| == |results|
    ensures r == CaseType(selector, conditions, results, otherwise)
  {
    if conditions == [] { return Err; }
    var branches: seq<Type> := [];
    for i := 0 to |conditions|
      invariant forall c <- conditions[..i] :: ConditionAllowed(selector, c)
      invariant branches == results[..i]
    {
      assert conditions[..i + 1] == conditions[..i] + [conditions[i]];
      if !ConditionAllowed(selector, conditions[i]) { return Err; }
      branches := branches + [results[i]];
    }
    assert conditions[..|conditions|] == conditions;
    assert branches == results;
    branches := branches + [otherwise];
    r := ComputeCommonType(branches);
  }

  function IfType(arguments: seq<Type>): Result<Type> {
    if |arguments| != 2 && |arguments| != 3 then Err
    else
      match BaseOf(arguments[0])
      case Err => Err
      case Ok(condition) =>
        if condition.typ.kind != Bool then Err
        else CommonType(if |arguments| == 2 then [arguments[1], Plain(Null)] else arguments[1..])
  }

  // ---------------------------------------------------------------- COALESCE

  /** A call argument with what COALESCE may look at besides its type. */
  datatype Argument = Argument(typ: Type, literal: Option<int>, emptyList: bool)

  /** The right operand after the two coercions: a bare empty list takes the left type, and so does a fitting literal. */
  function Coerced(left: Type, right: Base, argument: Argument): Base {
    var fitted := if argument.emptyList && argument.typ.kind == List && left.kind == List then Base(left, false) else right;
    if !fitted.nullable && IsInteger(left.kind) && IsInteger(fitted.typ.kind) && LiteralFits(argument.literal, left.kind)
    then Base(left, false)
    else fitted
  }

  predicate MixedText(left: Kind, right: Kind) {
    (left == String && right == Utf8) || (left == Utf8 && right == String)
  }

  function CoalescePair(left: Type, right: Type): Result<Type> {
    if MixedText(left.kind, right.kind) then CommonConcrete(Plain(String), Plain(String)) else CommonConcrete(left, right)
  }

  /** One turn of the COALESCE loop: the type so far meets the next argument. */
  function CoalesceStep(result: Type, argument: Argument): Result<Type> {
    match BaseOf(argument.typ)
    case Err => Err
    case Ok(base) =>
      var left := Unwrap(result);
      if left.kind == Null then Ok(argument.typ)
      else if base.typ.kind == Null then Ok(result)
      else
        var right := Coerced(left, base, argument);
        match CoalescePair(left, right.typ)
        case Err => Err
        case Ok(common) => Ok(WithOptional(common, IsOptional(result) && right.nullable))
  }

  function CoalesceFold(arguments: seq<Argument>): Result<Type> {
    if arguments == [] then Ok(Plain(Null))
    else
      match CoalesceFold(arguments[..|arguments| - 1])
      case Err => Err
      case Ok(result) => CoalesceStep(result, arguments[|arguments| - 1])
  }

  function CoalesceType(arguments: seq<Argument>): Result<Type> {
    if arguments == [] then Err
    else
      match CoalesceFold(arguments)
      case Err => Err
      case Ok(result) => if result.kind == Null then Err else Ok(result)
  }

  lemma {:induction false} CoalesceStopsAtError(arguments: seq<Argument>, n: nat)
    requires n <= |arguments| && CoalesceFold(arguments[..n]).Err?
    ensures CoalesceFold(arguments).Err?
    decreases |arguments|
  {
    if n == |arguments| {
      assert arguments[..n] == arguments;
    } else {
      var front := arguments[..|arguments| - 1];
      assert front[..n] == arguments[..n];
      CoalesceStopsAtError(front, n);
    }
  }

  method ComputeCoalesceType(arguments: seq<Argument>) returns (r: Result<Type>)
    ensures r == CoalesceType(arguments)
  {
    if arguments == [] { return Err; }
    var result := Plain(Null);
    for i := 0 to |arguments|
      invariant CoalesceFold(arguments[..i]) == Ok(result)
    {
      assert arguments[..i + 1][..i] == arguments[..i];
      var step := CoalesceStep(result, arguments[i]);
      if step.Err? {
        CoalesceStopsAtError(arguments, i + 1);
        return Err;
      }
      result := step.value;
    }
    assert arguments[..|arguments|] == arguments;
    return if result.kind == Null then Err else Ok(result);
  }

  // ---------------------------------------------------------------- structs and lists

  function StructType(names: seq<string>, types: seq<Type>): Result<Type> {
    if names == [] || |names| != |types| then Err
    else
      var fields := seq(|names|, i requires 0 <= i < |names| => Field(names[i], types[i]));
      if ValidFields(fields) then Ok(Plain(Struct).(fields := fields)) else Err
  }

  function FieldNamed(fields: seq<Field>, name: string): Option<Type> {
    if fields == [] then None
    else if fields[0].name == name then Some(fields[0].typ)
    else FieldNamed(fields[1..], name)
  }

  function MemberStep(t: Type, name: string): Result<Type> {
    var base := Unwrap(t);
    if base.kind != Struct then Err
    else
      match FieldNamed(base.fields, name)
      case None => Err
      case Some(member) => Ok(WithOptional(member, IsOptional(t)))
  }

  function MemberType(t: Type, path: seq<string>): Result<Type>
    decreases path
  {
    if path == [] then Ok(t)
    else
      match MemberStep(t, path[0])
      case Err => Err
      case Ok(member) => MemberType(member, path[1..])
  }

  /** The two nested loops of resolveMemberAccess. */
  method ComputeMemberType(t: Type, path: seq<string>) returns (r: Result<Type>)
    ensures r == MemberType(t, path)
  {
    var typ := t;
    for i := 0 to |path|
      invariant MemberType(t, path) == MemberType(typ, path[i..])
    {
      var optional := IsOptional(typ);
      typ := Unwrap(typ);
      if typ.kind != Struct { return Err; }
      var found := false;
      var base := typ;
      for j := 0 to |base.fields|
        invariant !found && typ == base
        invariant FieldNamed(base.fields, path[i]) == FieldNamed(base.fields[j..], path[i])
      {
        if base.fields[j].name == path[i] {
          typ := base.fields[j].typ;
          if optional && !IsOptional(typ) {
            typ := OptionalOf(typ);
          }
          found := true;
          break;
        }
      }
      if !found { return Err; }
    }
    return Ok(typ);
  }

  function AsListType(types: seq<Type>): Result<Type> {
    match CommonType(types)
    case Err => Err
    case Ok(item) => Ok(ListOf(item))
  }

  function ListCreateType(item: Type): Result<Type> {
    if Valid(item) && item.kind != Null && item.kind != Void then Ok(ListOf(item)) else Err
  }

  /** The item type ListMap and ListFilter hand to their callback. */
  function CallbackItem(list: Type): Result<Type> {
    var items := Unwrap(list);
    if items.kind != List || items.elem.None? then Err else Ok(items.elem.value)
  }

  /** resolveListTransform on a callback of type Callable<(item)->result>. */
  function ListApplyType(filter: bool, list: Type, result: Type): Result<Type> {
    var items := Unwrap(list);
    if items.kind != List || items.elem.None? || !Valid(items.elem.value) || !Valid(result) then Err
    else if filter then
      match BaseOf(result)
      case Err => Err
      case Ok(base) => if base.typ.kind != Bool then Err else Ok(WithOptional(items, IsOptional(list)))
    else if result.kind == Null || result.kind == Void then Err
    else Ok(WithOptional(ListOf(result), IsOptional(list)))
  }
}
