/** The common type of branches and values, and integer widening (internal/yql/builtins). */
module CommonTypes {
  import opened Wrappers
  import opened Types

  // ---------------------------------------------------------------- the numeric kinds

  datatype Width = Width(signed: bool, bits: nat)

  function IntegerInfo(kind: Kind): Width {
    match kind
    case Int8 => Width(true, 8)
    case Int16 => Width(true, 16)
    case Int32 => Width(true, 32)
    case Int64 => Width(true, 64)
    case Uint8 => Width(false, 8)
    case Uint16 => Width(false, 16)
    case Uint32 => Width(false, 32)
    case Uint64 => Width(false, 64)
    case _ => Width(false, 0)
  }

  predicate IsInteger(kind: Kind) {
    IntegerInfo(kind).bits != 0
  }

  predicate IsPrimitiveNumber(kind: Kind) {
    IsInteger(kind) || kind == Float || kind == Double || kind == Decimal
  }

  function IntegerKind(signed: bool, bits: nat): Kind {
    if signed then
      if bits == 8 then Int8 else if bits == 16 then Int16 else if bits == 32 then Int32 else Int64
    else
      if bits == 8 then Uint8 else if bits == 16 then Uint16 else if bits == 32 then Uint32 else Uint64
  }

  predicate ScalarKind(kind: Kind) {
    !kind.NoKind? && !kind.Decimal? && !kind.Optional? && !kind.List? && !kind.Stream? && !kind.Flow? && !kind.Set?
    && !kind.Dict? && !kind.Struct? && !kind.Tuple? && !kind.Tagged? && !kind.Callable? && !kind.Lambda? && !kind.Other?
  }

  // ---------------------------------------------------------------- valid types

  predicate Bare(t: Type) {
    t.key.None? && t.items == [] && t.precision == 0 && t.scale == 0
  }

  /** validateConcreteOrNull. */
  predicate Valid(t: Type) {
    && (t.kind != Struct ==> t.fields == [])
    && (t.kind != Tagged ==> t.tag == "")
    && match t.kind
       case Tagged => t.elem.Some? && t.tag != "" && Bare(t) && Valid(t.elem.value)
       case Callable =>
         t.elem.Some? && t.key.None? && t.precision == 0 && t.scale == 0 && ValidItems(t.items) && Valid(t.elem.value)
       case Optional => t.elem.Some? && Bare(t) && Valid(t.elem.value)
       case List => t.elem.Some? && Bare(t) && Valid(t.elem.value)
       case Stream => t.elem.Some? && Bare(t) && Valid(t.elem.value)
       case Flow => t.elem.Some? && Bare(t) && Valid(t.elem.value)
       case Set => t.elem.Some? && Bare(t) && Valid(t.elem.value)
       case Dict =>
         && t.key.Some? && t.elem.Some? && t.items == [] && t.precision == 0 && t.scale == 0
         && Valid(t.key.value) && Valid(t.elem.value)
       case Tuple =>
         t.items != [] && t.key.None? && t.elem.None? && t.precision == 0 && t.scale == 0 && ValidItems(t.items)
       case Struct => t.fields != [] && Bare(t) && t.elem.None? && ValidFields(t.fields)
       case Decimal =>
         1 <= t.precision <= 35 && 0 <= t.scale <= t.precision && t.key.None? && t.elem.None? && t.items == []
       case _ => ScalarKind(t.kind) && t.elem.None? && Bare(t)
  }

  predicate ValidItems(items: seq<Type>) {
    forall i | 0 <= i < |items| :: Valid(items[i])
  }

  predicate ValidFields(fields: seq<Field>) {
    DistinctNames(fields) && forall i | 0 <= i < |fields| :: fields[i].name != "" && Valid(fields[i].typ)
  }

  lemma {:induction false} ValidIsDistinct(t: Type)
    requires Valid(t)
    ensures Distinct(t)
    decreases t
  {
    if t.elem.Some? { ValidIsDistinct(t.elem.value); }
    if t.key.Some? { ValidIsDistinct(t.key.value); }
    ValidItemsAreDistinct(t.items);
    ValidFieldsAreDistinct(t.fields);
  }

  lemma {:induction false} ValidItemsAreDistinct(items: seq<Type>)
    requires ValidItems(items)
    ensures DistinctItems(items)
    decreases items
  {
    forall i | 0 <= i < |items| ensures Distinct(items[i]) {
      ValidIsDistinct(items[i]);
    }
  }

  lemma {:induction false} ValidFieldsAreDistinct(fields: seq<Field>)
    requires ValidFields(fields)
    ensures DistinctFields(fields)
    decreases fields
  {
    forall i | 0 <= i < |fields| ensures Distinct(fields[i].typ) {
      ValidIsDistinct(fields[i].typ);
    }
  }

  /** baseType: the type under at most one Optional, and whether there was one. */
  datatype Base = Base(typ: Type, nullable: bool)

  function BaseOf(t: Type): Result<Base> {
    if t.kind == Optional then
      if t.elem.None? || t.elem.value.kind == Optional || !Valid(t.elem.value) then Err
      else Ok(Base(t.elem.value, true))
    else if Valid(t) then Ok(Base(t, false)) else Err
  }

  // ---------------------------------------------------------------- CommonType

  function CommonInteger(left: Kind, right: Kind): Type {
    var l, r := IntegerInfo(left), IntegerInfo(right);
    if l.signed == r.signed then
      if r.bits > l.bits then Plain(right) else Plain(left)
    else
      var signedBits, unsignedBits := if l.signed then l.bits else r.bits, if l.signed then r.bits else l.bits;
      if signedBits >= unsignedBits then Plain(IntegerKind(true, signedBits)) else Plain(IntegerKind(false, unsignedBits))
  }

  function CommonConcrete(left: Type, right: Type): Result<Type> {
    if Equal(left, right) then Ok(left)
    else if IsInteger(left.kind) && IsInteger(right.kind) then Ok(CommonInteger(left.kind, right.kind))
    else if IsPrimitiveNumber(left.kind) && IsPrimitiveNumber(right.kind) && left.kind != Decimal && right.kind != Decimal then
      if left.kind == Double || right.kind == Double then Ok(Plain(Double))
      else if left.kind == Float || right.kind == Float then Ok(Plain(Float))
      else Err
    else Err
  }

  /** What the loop of CommonType has gathered; NoKind means no concrete type was seen yet. */
  datatype Gathered = Gathered(common: Type, nullable: bool)

  function Gather(acc: Gathered, value: Type): Result<Gathered> {
    match BaseOf(value)
    case Err => Err
    case Ok(Base(typ, nullable)) =>
      if typ.kind == Null then Ok(acc.(nullable := true))
      else if acc.common.kind == NoKind then Ok(Gathered(typ, acc.nullable || nullable))
      else
        match CommonConcrete(acc.common, typ)
        case Err => Err
        case Ok(common) => Ok(Gathered(common, acc.nullable || nullable))
  }

  function GatherAll(types: seq<Type>): Result<Gathered> {
    if types == [] then Ok(Gathered(Plain(NoKind), false))
    else
      match GatherAll(types[..|types| - 1])
      case Err => Err
      case Ok(acc) => Gather(acc, types[|types| - 1])
  }

  function WithOptional(t: Type, nullable: bool): Type {
    if nullable && t.kind != Optional then OptionalOf(t) else t
  }

  function Finish(acc: Gathered): Result<Type> {
    if acc.common.kind == NoKind then Err else Ok(WithOptional(acc.common, acc.nullable))
  }

  function CommonType(types: seq<Type>): Result<Type> {
    match GatherAll(types)
    case Err => Err
    case Ok(acc) => Finish(acc)
  }

  method ComputeCommonType(types: seq<Type>) returns (r: Result<Type>)
    ensures r == CommonType(types)
  {
    var acc := Gathered(Plain(NoKind), false);
    for i := 0 to |types|
      invariant GatherAll(types[..i]) == Ok(acc)
    {
      assert types[..i + 1][..i] == types[..i];
      var step := Gather(acc, types[i]);
      if step.Err? {
        GatherStopsAtError(types, i + 1);
        return Err;
      }
      acc := step.value;
    }
    assert types[..|types|] == types;
    return Finish(acc);
  }

  lemma {:induction false} GatherStopsAtError(types: seq<Type>, n: nat)
    requires n <= |types| && GatherAll(types[..n]).Err?
    ensures GatherAll(types).Err?
    decreases |types|
  {
    if n < |types| {
      var front := types[..|types| - 1];
      assert front[..n] == types[..n];
      GatherStopsAtError(front, n);
    } else {
      assert types[..n] == types;
    }
  }

  // ---------------------------------------------------------------- the order on concrete types

  /** Position in the numeric chain Uint8 < Int8 < Uint16 < ... < Int64 < Float < Double; -1 outside it. */
  function Rank(kind: Kind): int {
    match kind
    case Uint8 => 0 case Int8 => 1 case Uint16 => 2 case Int16 => 3
    case Uint32 => 4 case Int32 => 5 case Uint64 => 6 case Int64 => 7
    case Float => 8 case Double => 9
    case _ => -1
  }

  ghost predicate Below(a: Type, b: Type) {
    Equal(a, b) || 0 <= Rank(a.kind) <= Rank(b.kind)
  }

  ghost predicate Comparable(a: Type, b: Type) {
    Below(a, b) || Below(b, a)
  }

  lemma EqualOnValid(a: Type, b: Type, c: Type)
    requires Valid(a) && Valid(b) && Valid(c)
    ensures Equal(a, a)
    ensures Equal(a, b) ==> Equal(b, a)
    ensures Equal(a, b) && Equal(b, c) ==> Equal(a, c)
  {
    hide Equal;
    ValidIsDistinct(a);
    ValidIsDistinct(b);
    ValidIsDistinct(c);
    EqualIsEquivalence(a, b, c);
  }

  lemma RankedIsPlain(t: Type)
    requires Valid(t) && Rank(t.kind) >= 0
    ensures t == Plain(t.kind)
  {
  }

  lemma EqualRanks(a: Type, b: Type)
    requires Equal(a, b)
    ensures a.kind == b.kind
  {
  }

  lemma BelowIsPreorder(a: Type, b: Type, c: Type)
    requires Valid(a) && Valid(b) && Valid(c)
    ensures Below(a, a)
    ensures Below(a, b) && Below(b, c) ==> Below(a, c)
    ensures Below(a, b) && Below(b, a) ==> Equal(a, b)
  {
    hide Valid;
    EqualOnValid(a, b, c);
    EqualOnValid(b, a, a);
    if Equal(a, b) { EqualRanks(a, b); }
    if Equal(b, c) { EqualRanks(b, c); }
    if !Equal(a, b) && Below(a, b) && Below(b, a) && Rank(a.kind) == Rank(b.kind) {
      RankedIsPlain(a);
      RankedIsPlain(b);
      RankDeterminesKind(a.kind, b.kind);
    }
    if Equal(b, a) { EqualRanks(b, a); }
  }

  lemma RankDeterminesKind(a: Kind, b: Kind)
    requires 0 <= Rank(a) == Rank(b)
    ensures a == b
  {
  }

  lemma BoundedIsComparable(a: Type, b: Type, c: Type)
    requires Valid(a) && Valid(b) && Valid(c) && Below(a, c) && Below(b, c)
    ensures Comparable(a, b)
  {
    hide Valid;
    EqualOnValid(a, c, b);
    EqualOnValid(b, c, a);
    if Equal(a, c) { EqualRanks(a, c); BelowIsPreorder(b, c, a); }
    if Equal(b, c) { EqualRanks(b, c); BelowIsPreorder(a, c, b); }
  }

  lemma RankedKinds(kind: Kind)
    ensures Rank(kind) >= 0 <==> IsPrimitiveNumber(kind) && kind != Decimal
    ensures 0 <= Rank(kind) < 8 <==> IsInteger(kind)
  {
  }

  lemma IntegerMax(a: Kind, b: Kind)
    requires IsInteger(a) && IsInteger(b)
    ensures CommonInteger(a, b) == Plain(if Rank(a) >= Rank(b) then a else b)
  {
  }

  lemma NumericMax(a: Kind, b: Kind)
    requires Rank(a) >= 0 && Rank(b) >= 0 && a != b
    ensures CommonConcrete(Plain(a), Plain(b)) == Ok(Plain(if Rank(a) > Rank(b) then a else b))
  {
    RankedKinds(a);
    RankedKinds(b);
    if IsInteger(a) && IsInteger(b) { IntegerMax(a, b); }
    assert !Equal(Plain(a), Plain(b));
  }

  /** On legal types the case analysis of commonConcreteType is a maximum. */
  lemma CommonConcreteIsMax(a: Type, b: Type)
    requires Valid(a) && Valid(b)
    ensures CommonConcrete(a, b).Ok? <==> Comparable(a, b)
    ensures CommonConcrete(a, b).Ok? ==>
              var c := CommonConcrete(a, b).value; (c == a || c == b) && Below(a, c) && Below(b, c)
  {
    hide Valid, Equal;
    EqualOnValid(a, b, a);
    EqualOnValid(b, a, b);
    if Equal(a, b) {
      assert CommonConcrete(a, b) == Ok(a);
    } else if Rank(a.kind) >= 0 && Rank(b.kind) >= 0 {
      RankedIsPlain(a);
      RankedIsPlain(b);
      NumericMax(a.kind, b.kind);
    } else {
      RankedKinds(a.kind);
      RankedKinds(b.kind);
      assert CommonConcrete(a, b).Err?;
    }
  }

  // ---------------------------------------------------------------- CommonType as a least upper bound

  ghost predicate Accepted(t: Type) {
    BaseOf(t).Ok?
  }

  /** A legal type that is neither Null nor Optional<Null>. */
  ghost predicate Concrete(t: Type) {
    Accepted(t) && BaseOf(t).value.typ.kind != Null
  }

  ghost predicate Nullable(t: Type) {
    Accepted(t) && (BaseOf(t).value.nullable || BaseOf(t).value.typ.kind == Null)
  }

  ghost function Core(t: Type): Type
    requires Accepted(t)
  {
    BaseOf(t).value.typ
  }

  ghost predicate AllAccepted(types: seq<Type>) {
    forall t <- types :: Accepted(t)
  }

  ghost predicate AnyNullable(types: seq<Type>) {
    exists t <- types :: Nullable(t)
  }

  /** The concrete inputs without their Optional. */
  ghost function Cores(types: seq<Type>): set<Type> {
    set t | t in types && Concrete(t) :: Core(t)
  }

  ghost predicate Legal(cores: set<Type>) {
    forall c <- cores :: Valid(c) && c.kind != NoKind && c.kind != Optional && c.kind != Null
  }

  ghost predicate IsChain(cores: set<Type>) {
    forall a <- cores, b <- cores :: Comparable(a, b)
  }

  ghost predicate IsTop(cores: set<Type>, top: Type) {
    top in cores && forall c <- cores :: Below(c, top)
  }

  lemma CoresAreLegal(types: seq<Type>)
    ensures Legal(Cores(types))
  {
  }

  lemma CoresOfSum(xs: seq<Type>, ys: seq<Type>)
    ensures Cores(xs + ys) == Cores(xs) + Cores(ys)
    ensures AllAccepted(xs + ys) <==> AllAccepted(xs) && AllAccepted(ys)
    ensures AnyNullable(xs + ys) <==> AnyNullable(xs) || AnyNullable(ys)
  {
    hide Accepted, Concrete, Nullable, Core;
    assert forall t :: t in xs + ys <==> t in xs || t in ys;
  }

  lemma TopMakesChain(cores: set<Type>, top: Type)
    requires Legal(cores) && IsTop(cores, top)
    ensures IsChain(cores)
  {
    hide Valid, Below, Comparable;
    forall a, b | a in cores && b in cores ensures Comparable(a, b) {
      BoundedIsComparable(a, b, top);
    }
  }

  lemma TopIsUnique(cores: set<Type>, a: Type, b: Type)
    requires Legal(cores) && IsTop(cores, a) && IsTop(cores, b)
    ensures Equal(a, b)
  {
    hide Valid, Below, Equal;
    BelowIsPreorder(a, b, a);
  }

  lemma TopOfUnion(xs: set<Type>, ys: set<Type>, a: Type, b: Type)
    requires Legal(xs) && Legal(ys) && IsTop(xs, a) && IsTop(ys, b)
    ensures IsChain(xs + ys) <==> Comparable(a, b)
    ensures Below(a, b) ==> IsTop(xs + ys, b)
    ensures Below(b, a) ==> IsTop(xs + ys, a)
  {
    hide Valid, Below;
    forall c | c in xs + ys
      ensures Below(a, b) ==> Below(c, b)
      ensures Below(b, a) ==> Below(c, a)
    {
      if c in xs { BelowIsPreorder(c, a, b); } else { BelowIsPreorder(c, b, a); }
    }
    if Below(a, b) { TopMakesChain(xs + ys, b); }
    if Below(b, a) { TopMakesChain(xs + ys, a); }
  }

  /** What GatherAll has to deliver on `types`. */
  ghost predicate Gathers(types: seq<Type>, acc: Gathered) {
    && (acc.nullable <==> AnyNullable(types))
    && (if acc.common.kind == NoKind then Cores(types) == {} else IsTop(Cores(types), acc.common))
  }

  ghost predicate Joinable(types: seq<Type>) {
    AllAccepted(types) && IsChain(Cores(types))
  }

  /** The loop succeeds exactly on comparable inputs and has then gathered their maximum and their nullability. */
  lemma {:induction false} GatherMeaning(types: seq<Type>)
    ensures GatherAll(types).Ok? <==> Joinable(types)
    ensures GatherAll(types).Ok? ==> Gathers(types, GatherAll(types).value)
  {
    if types != [] {
      var n := |types| - 1;
      assert types == types[..n] + [types[n]];
      GatherMeaning(types[..n]);
      if GatherAll(types[..n]).Ok? {
        GatherOne(types[..n], types[n], GatherAll(types[..n]).value);
      } else {
        CoresOfSum(types[..n], [types[n]]);
      }
    }
  }

  lemma CoresOfOne(t: Type)
    ensures Cores([t]) == if Concrete(t) then {Core(t)} else {}
    ensures AllAccepted([t]) <==> Accepted(t)
    ensures AnyNullable([t]) <==> Nullable(t)
  {
    hide Accepted, Concrete, Nullable, Core;
    assert t in [t];
  }

  lemma GatherOne(front: seq<Type>, last: Type, acc: Gathered)
    requires Joinable(front) && Gathers(front, acc)
    ensures Gather(acc, last).Ok? <==> Joinable(front + [last])
    ensures Gather(acc, last).Ok? ==> Gathers(front + [last], Gather(acc, last).value)
  {
    hide Valid, Equal, Below, CommonConcrete, Cores, AllAccepted, AnyNullable, IsChain, IsTop;
    CoresOfSum(front, [last]);
    CoresOfOne(last);
    if Concrete(last) {
      GatherConcrete(Cores(front), front, last, acc);
    } else {
      assert Cores(front) + {} == Cores(front);
    }
  }

  lemma GatherConcrete(cores: set<Type>, front: seq<Type>, last: Type, acc: Gathered)
    requires cores == Cores(front) && Concrete(last)
    requires if acc.common.kind == NoKind then cores == {} else IsTop(cores, acc.common)
    ensures Gather(acc, last).Ok? <==> IsChain(cores + {Core(last)})
    ensures Gather(acc, last).Ok? ==>
              var r := Gather(acc, last).value;
              r.common.kind != NoKind && IsTop(cores + {Core(last)}, r.common) && r.nullable == (acc.nullable || Nullable(last))
  {
    hide Valid, Equal, Below, CommonConcrete;
    var core := Core(last);
    CoresAreLegal(front);
    CoresAreLegal([last]);
    CoresOfOne(last);
    BelowIsPreorder(core, core, core);
    assert IsTop({core}, core);
    if acc.common.kind != NoKind {
      CommonConcreteIsMax(acc.common, core);
      TopOfUnion(cores, {core}, acc.common, core);
    }
  }

  // ---------------------------------------------------------------- the join laws

  /** Same failure, or types that are Equal. */
  ghost predicate SameAnswer(a: Result<Type>, b: Result<Type>) {
    a.Ok? == b.Ok? && (a.Ok? ==> Equal(a.value, b.value))
  }

  /** CommonType succeeds exactly on legal, pairwise comparable types of which at least one is concrete. */
  lemma CommonTypeSucceeds(types: seq<Type>)
    ensures CommonType(types).Ok? <==> AllAccepted(types) && IsChain(Cores(types)) && Cores(types) != {}
  {
    GatherMeaning(types);
  }

  /** The answer is the maximum of the concrete inputs, Optional exactly when some input is Optional or Null. */
  lemma {:induction false} CommonTypeIsJoin(types: seq<Type>)
    requires CommonType(types).Ok?
    ensures var r := CommonType(types).value;
            && IsTop(Cores(types), Unwrap(r))
            && r == WithOptional(Unwrap(r), AnyNullable(types))
            && Concrete(r) && Core(r) == Unwrap(r) && Nullable(r) == IsOptional(r) == AnyNullable(types)
  {
    hide Valid, Below;
    GatherMeaning(types);
    CoresAreLegal(types);
  }

  lemma OptionalKeepsEqual(a: Type, b: Type, nullable: bool)
    requires Equal(a, b) && a.kind != Optional
    ensures Equal(WithOptional(a, nullable), WithOptional(b, nullable))
  {
  }

  lemma SameTopSameAnswer(xs: seq<Type>, ys: seq<Type>)
    requires AllAccepted(xs) == AllAccepted(ys) && Cores(xs) == Cores(ys) && AnyNullable(xs) == AnyNullable(ys)
    ensures SameAnswer(CommonType(xs), CommonType(ys))
  {
    hide Equal, CommonType, Core, Concrete, IsTop;
    CommonTypeSucceeds(xs);
    CommonTypeSucceeds(ys);
    CoresAreLegal(xs);
    if CommonType(xs).Ok? {
      CommonTypeIsJoin(xs);
      CommonTypeIsJoin(ys);
      var a, b := Unwrap(CommonType(xs).value), Unwrap(CommonType(ys).value);
      TopIsUnique(Cores(xs), a, b);
      OptionalKeepsEqual(a, b, AnyNullable(xs));
    }
  }

  /** Order and repetition of the inputs are irrelevant: only the set of input types matters. */
  lemma CommonTypeDependsOnMembersOnly(xs: seq<Type>, ys: seq<Type>)
    requires forall t :: t in xs <==> t in ys
    ensures SameAnswer(CommonType(xs), CommonType(ys))
  {
    hide CommonType, Accepted, Concrete, Nullable, Core, SameAnswer;
    assert Cores(xs) == Cores(ys);
    SameTopSameAnswer(xs, ys);
  }

  lemma TopOfGroups(xs: set<Type>, ys: set<Type>, a: Type, b: Type)
    requires Legal(xs) && Legal(ys) && IsTop(xs, a) && IsTop(ys, b)
    ensures IsChain(xs + ys) <==> IsChain({a} + {b})
    ensures forall join, pairJoin | IsTop(xs + ys, join) && IsTop({a} + {b}, pairJoin) :: Equal(join, pairJoin)
  {
    hide Valid, Below, Equal, IsChain;
    assert IsTop({a}, a) && IsTop({b}, b) by {
      BelowIsPreorder(a, a, a);
      BelowIsPreorder(b, b, b);
    }
    TopOfUnion(xs, ys, a, b);
    TopOfUnion({a}, {b}, a, b);
    forall join, pairJoin | IsTop(xs + ys, join) && IsTop({a} + {b}, pairJoin) ensures Equal(join, pairJoin) {
      TopMakesChain(xs + ys, join);
      assert IsTop(xs + ys, pairJoin) by {
        var top := if Below(a, b) then b else a;
        forall c | c in xs + ys ensures Below(c, pairJoin) {
          BelowIsPreorder(c, top, pairJoin);
        }
      }
      TopIsUnique(xs + ys, join, pairJoin);
    }
  }

  /** Joining two groups first and then their answers is joining everything at once. */
  lemma CommonTypeOfGroups(xs: seq<Type>, ys: seq<Type>)
    requires CommonType(xs).Ok? && CommonType(ys).Ok?
    ensures SameAnswer(CommonType(xs + ys), CommonType([CommonType(xs).value, CommonType(ys).value]))
  {
    hide CommonType, Equal, Below, Cores, AllAccepted, AnyNullable, Accepted, BaseOf, Nullable, Core, IsChain, Legal, IsTop;
    var a, b := CommonType(xs).value, CommonType(ys).value;
    CommonTypeIsJoin(xs);
    CommonTypeIsJoin(ys);
    CommonTypeSucceeds(xs);
    CommonTypeSucceeds(ys);
    CoresOfSum(xs, ys);
    CoresOfSum([a], [b]);
    assert [a] + [b] == [a, b];
    CoresOfOne(a);
    CoresOfOne(b);
    CommonTypeSucceeds(xs + ys);
    CommonTypeSucceeds([a, b]);
    CoresAreLegal(xs);
    CoresAreLegal(ys);
    TopOfGroups(Cores(xs), Cores(ys), Core(a), Core(b));
    if CommonType(xs + ys).Ok? {
      CommonTypeIsJoin(xs + ys);
      CommonTypeIsJoin([a, b]);
      var join, pairJoin := Unwrap(CommonType(xs + ys).value), Unwrap(CommonType([a, b]).value);
      JoinIsNotOptional(xs + ys);
      OptionalKeepsEqual(join, pairJoin, AnyNullable(xs + ys));
    }
  }

  lemma JoinIsNotOptional(types: seq<Type>)
    requires CommonType(types).Ok?
    ensures Unwrap(CommonType(types).value).kind != Optional
  {
    hide Valid, Below;
    CommonTypeIsJoin(types);
    CoresAreLegal(types);
  }
}
