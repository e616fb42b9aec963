/** The static type of CAST (internal/yql/builtins/cast.go), against the values that integers have. */
module Casts {
  import opened Wrappers
  import opened Types
  import opened CommonTypes
  import opened TypingRules
  import opened Comparisons
  import opened Evaluation

  predicate IsText(kind: Kind) {
    kind == String || kind == Utf8
  }

  predicate IsInstant(kind: Kind) {
    kind == Date || kind == Datetime || kind == Timestamp
  }

  /** castRule: None is an unsupported conversion, Some says whether it may fail. */
  function CastRule(source: Type, target: Type): Option<bool> {
    var s, t := source.kind, target.kind;
    if Equal(source, target) then Some(false)
    else if (IsInteger(s) && t == Bool) || (s == Bool && IsInteger(t)) then Some(false)
    else if IsInstant(s) && t == String then Some(false)
    else if s == Timestamp && t == Uint64 then Some(false)
    else if s == Uint64 && t == Timestamp then Some(true)
    else if IsText(s) && t == Json then Some(true)
    else if IsInteger(s) && IsInteger(t) then Some(!TotalIntegerCast(s, t))
    else if IsPrimitiveNumber(s) && IsPrimitiveNumber(t) && s != Decimal && t != Decimal then
      Some((s == Float || s == Double) && IsInteger(t))
    else if IsText(s) && IsPrimitiveNumber(t) then Some(true)
    else if IsPrimitiveNumber(s) && t == String then Some(false)
    else if s == Utf8 && t == String then Some(false)
    else if s == String && t == Utf8 then Some(true)
    else None
  }

  /** Cast. */
  function Cast(source: Type, target: Type): Result<Type> {
    match (BaseOf(source), BaseOf(target))
    case (Ok(s), Ok(t)) =>
      if t.typ.kind == Null then Err
      else if s.typ.kind == Null then Ok(WithOptional(t.typ, true))
      else
        (match CastRule(s.typ, t.typ)
         case None => Err
         case Some(mayFail) => Ok(WithOptional(t.typ, s.nullable || t.nullable || mayFail)))
    case _ => Err
  }

  /** An integer type, perhaps Optional. */
  predicate IntegerType(t: Type) {
    (t == Plain(Unwrap(t).kind) && IsInteger(t.kind)) || (t == OptionalOf(Plain(Unwrap(t).kind)) && IsInteger(Unwrap(t).kind))
  }

  /** The integers a type stands for, with their width, and NULL where it is Optional. */
  predicate Holds(t: Type, v: Value) {
    if v.Missing? then IsOptional(t) else v.Whole? && InRange(v.n, Unwrap(t).kind)
  }

  /** An integer the target cannot represent becomes NULL. */
  function Converted(v: Value, target: Type): Value {
    if v.Whole? && InRange(v.n, Unwrap(target).kind) then v else Missing
  }

  lemma IntegerCast(source: Type, target: Type)
    requires IntegerType(source) && IntegerType(target)
    ensures var mayFail := !TotalIntegerCast(Unwrap(source).kind, Unwrap(target).kind);
            Cast(source, target) ==
            Ok(WithOptional(Plain(Unwrap(target).kind), IsOptional(source) || IsOptional(target) || mayFail))
  {
    hide TotalIntegerCast, CastRule, BaseOf, Valid;
    IntegerBase(source);
    IntegerBase(target);
    IntegerRule(Unwrap(source), Unwrap(target));
  }

  lemma IntegerBase(t: Type)
    requires IntegerType(t)
    ensures BaseOf(t) == Ok(Base(Unwrap(t), IsOptional(t))) && Unwrap(t) == Plain(Unwrap(t).kind) && IsInteger(Unwrap(t).kind)
  {
    hide Valid;
    IntegerIsValid(Unwrap(t).kind);
  }

  lemma IntegerIsValid(kind: Kind)
    requires IsInteger(kind)
    ensures Valid(Plain(kind))
  {
  }

  lemma IntegerRule(source: Type, target: Type)
    requires source == Plain(source.kind) && target == Plain(target.kind) && IsInteger(source.kind) && IsInteger(target.kind)
    ensures CastRule(source, target) == Some(!TotalIntegerCast(source.kind, target.kind))
  {
    hide TotalIntegerCast;
    if source.kind == target.kind {
      SameKindIsTotal(source.kind);
      PlainEqual(source);
    }
  }

  lemma SameKindIsTotal(kind: Kind)
    requires IsInteger(kind)
    ensures TotalIntegerCast(kind, kind)
  {
  }

  lemma PlainEqual(t: Type)
    requires t == Plain(t.kind)
    ensures Equal(t, t)
  {
  }

  /**
   * The declared type of an integer CAST holds every converted value, and it is Optional only where it has to be: the
   * input or the target is, or some value of the input cannot be represented.
   */
  lemma IntegerCastIsExact(source: Type, target: Type)
    requires IntegerType(source) && IntegerType(target)
    ensures Cast(source, target).Ok?
    ensures var t := Cast(source, target).value;
            && (forall v | Holds(source, v) :: Holds(t, Converted(v, target)))
            && (IsOptional(t) <==>
                IsOptional(source) || IsOptional(target) || exists v :: Holds(source, v) && Converted(v, target) == Missing)
  {
    hide TotalIntegerCast, InRange, Cast;
    IntegerCast(source, target);
    var s, t := Unwrap(source).kind, Unwrap(target).kind;
    TotalCastLosesNothing(s, t);
    if !TotalIntegerCast(s, t) {
      var n :| InRange(n, s) && !InRange(n, t);
      assert Holds(source, Whole(n)) && Converted(Whole(n), target) == Missing;
    }
  }

  /**
   * A supported CAST of a value has the target's type; it is Optional where the input or the target is, or where the
   * conversion may fail, and CAST(NULL AS T) is always Optional.
   */
  lemma CastNullability(source: Type, target: Type)
    requires Concrete(target) && Accepted(source)
    ensures !Concrete(source) ==> Cast(source, target) == Ok(OptionalOf(Core(target)))
    ensures Concrete(source) ==>
              var rule := CastRule(Core(source), Core(target));
              && (Cast(source, target).Ok? <==> rule.Some?)
              && (rule.Some? ==>
                    && Unwrap(Cast(source, target).value) == Core(target)
                    && IsOptional(Cast(source, target).value) == (IsOptional(source) || IsOptional(target) || rule.value))
  {
    hide Valid, CastRule;
    CoresAreLegal([target]);
    CoresOfOne(target);
  }

  /** Casting to a type without loss and back gives the value again. */
  lemma LosslessCastRoundTrip(source: Type, target: Type, v: Value)
    requires IntegerType(source) && IntegerType(target) && !IsOptional(source) && !IsOptional(target)
    requires Cast(source, target) == Ok(target) && Holds(source, v)
    ensures Converted(Converted(v, target), source) == v
  {
    hide TotalIntegerCast, InRange, Cast;
    IntegerCast(source, target);
    TotalCastLosesNothing(Unwrap(source).kind, Unwrap(target).kind);
  }

  /**
   * The common type of two integer kinds is an upper bound in the chain of numeric kinds, but not of their values: it
   * holds all of them exactly when the signs agree or the signed kind is strictly wider.
   */
  lemma CommonIntegerHoldsBoth(left: Kind, right: Kind)
    requires IsInteger(left) && IsInteger(right)
    ensures (forall n | InRange(n, left) || InRange(n, right) :: InRange(n, CommonInteger(left, right).kind)) <==>
            var l, r := IntegerInfo(left), IntegerInfo(right);
            l.signed == r.signed || (if l.signed then l.bits > r.bits else r.bits > l.bits)
  {
    hide InRange;
    var common := CommonInteger(left, right).kind;
    TotalCastLosesNothing(left, common);
    TotalCastLosesNothing(right, common);
  }
}
