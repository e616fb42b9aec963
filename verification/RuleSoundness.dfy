/** Each typing rule is sound for its operator: operands that conform give a result that conforms. */
module RuleSoundness {
  import opened Wrappers
  import opened Types
  import opened CommonTypes
  import opened Expressions
  import opened TypingRules
  import opened Resolver
  import opened Comparisons
  import opened Evaluation
  import opened Conformance

  lemma LiteralSound(literal: Literal)
    requires LiteralType(literal).Ok?
    ensures Conforms(LiteralValue(literal), LiteralType(literal).value)
  {
  }

  // ---------------------------------------------------------------- arithmetic

  lemma SameSortConforms(v: Value, w: Value, t: Type)
    requires ArithmeticKind(Unwrap(t).kind) && Conforms(v, t)
    requires (v.Whole? && w.Whole?) || (v.Fraction? && w.Fraction?) || v == w
    ensures Conforms(w, t)
  {
  }

  lemma NumberOrMissing(v: Value, t: Type)
    requires ArithmeticKind(Unwrap(t).kind) && Conforms(v, t)
    ensures v.Missing? || v.Whole? || v.Fraction?
  {
  }

  lemma ArithmeticPairSound(op: ArithmeticOp, left: Type, right: Type, v: Value, w: Value)
    requires ArithmeticPair(op, left, right).Ok? && Conforms(v, left) && Conforms(w, right)
    ensures Conforms(Calculate(op, v, w), ArithmeticPair(op, left, right).value)
  {
    hide Conforms, CommonType;
    var result := Calculate(op, v, w);
    NumberOrMissing(v, left);
    NumberOrMissing(w, right);
    if v.Missing? || (v.Fraction? && !w.Missing?) || (v.Whole? && w.Whole?) {
      SameSortConforms(v, result, left);
      CommonTypeCovers([left, right], left, result);
    } else {
      SameSortConforms(w, result, right);
      CommonTypeCovers([left, right], right, result);
    }
  }

  lemma {:induction false} ArithmeticFoldSound(types: seq<Type>, ops: seq<ArithmeticOp>, vs: seq<Value>)
    requires types != [] && |ops| + 1 >= |types| && ArithmeticFold(types, ops).Ok? && AllConform(vs, types)
    ensures Conforms(CalculateAll(vs, ops), ArithmeticFold(types, ops).value)
  {
    hide Conforms, ArithmeticPair, Calculate;
    var n := |types| - 1;
    if n > 0 {
      ArithmeticFoldSound(types[..n], ops, vs[..n]);
      var before := ArithmeticFold(types[..n], ops).value;
      ConformsHasKind(CalculateAll(vs[..n], ops), before);
      ArithmeticPairSound(ops[n - 1], before, types[n], CalculateAll(vs[..n], ops), vs[n]);
    }
  }

  lemma ConformsHasKind(v: Value, t: Type)
    requires Conforms(v, t)
    ensures t.kind != NoKind
  {
  }

  // ---------------------------------------------------------------- AND, OR, XOR, NOT and ||

  lemma FlagOrMissing(v: Value, t: Type)
    requires BoolOrNull(t) && Conforms(v, t)
    ensures v.Flag? || v.Missing?
    ensures v.Missing? ==> NullOrOptional(t)
    ensures t.kind == Null ==> v.Missing?
  {
  }

  lemma LogicSound(op: LogicOp, types: seq<Type>, vs: seq<Value>)
    requires LogicType(op, types).Ok? && AllConform(vs, types)
    ensures Conforms(Combine(op, vs), LogicType(op, types).value)
  {
    hide Conforms, BoolOrNull, NullOrOptional;
    var result := Combine(op, vs);
    assert result.Flag? || (result.Missing? && Missing in vs);
    if Missing in vs {
      var i :| 0 <= i < |vs| && vs[i] == Missing;
      FlagOrMissing(vs[i], types[i]);
      assert AnyNullOrOptional(types);
    }
    if AllNull(types) {
      FlagOrMissing(vs[0], types[0]);
      assert Missing in vs;
    }
    LogicValueConforms(result, LogicType(op, types).value, op == Not && AllNull(types), AnyNullOrOptional(types));
  }

  lemma LogicValueConforms(result: Value, t: Type, onlyNull: bool, nullable: bool)
    requires t == if onlyNull then Plain(Null) else WithOptional(Plain(Bool), nullable)
    requires if onlyNull then result.Missing? else result.Flag? || (result.Missing? && nullable)
    ensures Conforms(result, t)
  {
  }

  /** What the concatenation loop knows of the operands it has passed. */
  ghost predicate ConcatHolds(acc: Concatenated, someMissing: bool, none: bool) {
    && (acc.hasNull ==> someMissing)
    && (someMissing ==> acc.hasNull || acc.optional)
    && (acc.result.kind == NoKind || acc.result.kind == String || acc.result.kind == Utf8)
    && (acc.result.kind == NoKind ==> none || acc.hasNull)
  }

  lemma ConcatStepSound(acc: Concatenated, t: Type, v: Value, someMissing: bool, none: bool)
    requires ConcatStep(acc, t).Ok? && Conforms(v, t) && ConcatHolds(acc, someMissing, none)
    ensures ConcatHolds(ConcatStep(acc, t).value, someMissing || v.Missing?, false)
  {
    hide Equal;
  }

  lemma {:induction false} ConcatFoldSound(types: seq<Type>, vs: seq<Value>)
    requires ConcatFold(types).Ok? && AllConform(vs, types)
    ensures ConcatHolds(ConcatFold(types).value, Missing in vs, types == [])
  {
    hide ConcatStep, Conforms;
    if types != [] {
      var n := |types| - 1;
      ConcatFoldSound(types[..n], vs[..n]);
      assert vs == vs[..n] + [vs[n]];
      ConcatStepSound(ConcatFold(types[..n]).value, types[n], vs[n], Missing in vs[..n], types[..n] == []);
    }
  }

  lemma ConcatSound(types: seq<Type>, vs: seq<Value>)
    requires ConcatType(types).Ok? && AllConform(vs, types)
    ensures Conforms(if Missing in vs then Missing else Text(Joined(vs)), ConcatType(types).value)
  {
    hide Conforms, ConcatFold, Joined;
    ConcatFoldSound(types, vs);
    var acc := ConcatFold(types).value;
    if acc.hasNull {
      NullConforms();
    } else {
      TextConforms(Joined(vs), acc.result, acc.optional);
    }
  }

  lemma NullConforms()
    ensures Conforms(Missing, Plain(Null))
  {
  }

  lemma TextConforms(text: string, t: Type, optional: bool)
    requires t.kind == String || t.kind == Utf8
    ensures Conforms(Text(text), if optional then OptionalOf(t) else t)
    ensures optional ==> Conforms(Missing, OptionalOf(t))
  {
    assert Conforms(Text(text), t);
  }

  // ---------------------------------------------------------------- comparisons and IN

  lemma FlagConforms(r: Value, nullable: bool)
    requires r.Flag? || (r.Missing? && nullable)
    ensures Conforms(r, WithOptional(Plain(Bool), nullable))
  {
  }

  lemma MissingMakesOptional(types: seq<Type>, t: Type)
    requires CommonType(types).Ok? && t in types && Conforms(Missing, t)
    ensures IsOptional(CommonType(types).value)
  {
    hide Valid, Below, Cores, IsTop, IsChain, Conforms, CommonType;
    CommonTypeSucceeds(types);
    CommonTypeIsJoin(types);
    ConformsToCore(Missing, t);
  }

  /** Values a comparison can be asked about. */
  ghost predicate AllKnown(vs: seq<Value>) {
    forall v <- vs :: v.Missing? || Solid(v)
  }

  predicate AllDecidable(types: seq<Type>) {
    forall t <- types :: Decidable(t)
  }

  lemma DecidableValues(types: seq<Type>, vs: seq<Value>)
    requires AllConform(vs, types) && AllDecidable(types)
    ensures AllKnown(vs)
  {
    hide Conforms, Solid, Decidable;
    forall v | v in vs ensures v.Missing? || Solid(v) {
      var i :| 0 <= i < |vs| && vs[i] == v;
      DecidableValue(v, types[i]);
    }
  }

  lemma PairIsPresent(order: Order, op: CompareOp, v: Value, w: Value)
    requires (op == DistinctFrom || op == NotDistinctFrom) || (Decided(order) && AllKnown([v, w]))
    ensures var r := ComparePair(order, op, v, w);
            r.Flag? || (r.Missing? && (v.Missing? || w.Missing?) && op != DistinctFrom && op != NotDistinctFrom)
  {
    hide Solid, Identical;
    assert v in [v, w] && w in [v, w];
    if op == DistinctFrom || op == NotDistinctFrom || (!v.Missing? && !w.Missing?) {
      ComparisonIsKnown(order, op, v, w);
    }
  }

  lemma {:induction false} CompareAllIsPresent(order: Order, vs: seq<Value>, ops: seq<CompareOp>)
    requires NullSafe(ops) || (Decided(order) && AllKnown(vs))
    requires |vs| >= 2 && |ops| + 1 >= |vs|
    ensures var r := CompareAll(order, vs, ops); r.Flag? || (r.Missing? && Missing in vs)
    ensures CompareAll(order, vs, ops).Missing? ==> !NullSafe(ops)
  {
    hide ComparePair, Decided;
    var n := |vs| - 1;
    assert vs[n] in vs && ops[n - 1] in ops;
    if n > 1 {
      CompareAllIsPresent(order, vs[..n], ops);
    } else {
      assert CompareAll(order, vs[..n], ops) == vs[0] && vs[0] in vs;
    }
    PairIsPresent(order, ops[n - 1], CompareAll(order, vs[..n], ops), vs[n]);
  }

  lemma CompareSound(order: Order, types: seq<Type>, ops: seq<CompareOp>, vs: seq<Value>)
    requires NullSafe(ops) || (Decided(order) && AllDecidable(types))
    requires CompareType(types, ops).Ok? && AllConform(vs, types)
    ensures Conforms(CompareAll(order, vs, ops), CompareType(types, ops).value)
  {
    hide Conforms, CommonType, CompareAll, Decided, NullSafe, AllKnown, AllDecidable;
    if !NullSafe(ops) {
      DecidableValues(types, vs);
    }
    CompareAllIsPresent(order, vs, ops);
    var r := CompareAll(order, vs, ops);
    if forall t <- types :: t.kind == Null {
      FlagConforms(r, !NullSafe(ops));
    } else {
      if r.Missing? {
        var i :| 0 <= i < |vs| && vs[i] == Missing;
        MissingMakesOptional(types, types[i]);
      }
      FlagConforms(r, IsOptional(CommonType(types).value) && !NullSafe(ops));
    }
  }

  lemma {:induction false} IsAmongIsPresent(order: Order, v: Value, items: seq<Value>)
    requires Decided(order) && AllKnown([v]) && AllKnown(items)
    ensures var r := IsAmong(order, v, items); r.Flag? || (r.Missing? && (v.Missing? || Missing in items))
  {
    hide ComparePair, Decided, Solid;
    if items != [] {
      var n := |items| - 1;
      assert v in [v] && items[n] in items;
      IsAmongIsPresent(order, v, items[..n]);
      PairIsPresent(order, Equals, v, items[n]);
    }
  }

  lemma InSound(order: Order, left: Type, types: seq<Type>, optionalList: bool, v: Value, items: seq<Value>)
    requires Decided(order) && AllKnown([v]) && AllKnown(items)
    requires InType(left, types, optionalList).Ok? && Conforms(v, left)
    requires Missing in items ==> exists t <- types :: Conforms(Missing, t)
    ensures Conforms(IsAmong(order, v, items), InType(left, types, optionalList).value)
  {
    hide Conforms, CommonType, IsAmong, Decided, AllKnown;
    IsAmongIsPresent(order, v, items);
    var r, all := IsAmong(order, v, items), [left] + types;
    if r.Missing? {
      var t := left;
      if !v.Missing? {
        t :| t in types && Conforms(Missing, t);
      }
      assert t in all && Conforms(Missing, t);
      MissingMakesOptional(all, t);
    }
    FlagConforms(r, IsOptional(CommonType(all).value) || optionalList);
  }

  lemma KnownLeft(left: Type, v: Value)
    requires Decidable(left) && Conforms(v, left)
    ensures AllKnown([v])
  {
    hide Conforms, Decidable, Solid;
    DecidableValue(v, left);
  }

  lemma InValuesSound(order: Order, left: Type, types: seq<Type>, v: Value, vs: seq<Value>)
    requires Decided(order) && Decidable(left) && AllDecidable(types)
    requires InType(left, types, false).Ok? && Conforms(v, left) && AllConform(vs, types)
    ensures Conforms(IsAmong(order, v, vs), InType(left, types, false).value)
  {
    hide Conforms, IsAmong, Decided, InType, AllKnown, AllDecidable, Decidable;
    KnownLeft(left, v);
    DecidableValues(types, vs);
    if Missing in vs {
      var i :| 0 <= i < |vs| && vs[i] == Missing;
      assert types[i] in types;
    }
    InSound(order, left, types, false, v, vs);
  }

  lemma InListSound(order: Order, left: Type, list: Type, v: Value, items: Value)
    requires InListType(left, list).Ok? && Conforms(v, left) && Conforms(items, list)
    requires Decided(order) && Decidable(left) && Decidable(Unwrap(list).elem.value)
    ensures items.Items? ==> Conforms(IsAmong(order, v, items.items), InListType(left, list).value)
    ensures !items.Items? ==> Conforms(Missing, InListType(left, list).value)
  {
    hide IsAmong, Decided, CommonType, Decidable, AllKnown, Conforms;
    var item := Unwrap(list).elem.value;
    assert item in [item];
    if items.Items? {
      ListItemsConform(items, list);
      KnownLeft(left, v);
      KnownItems(item, items.items);
      InSound(order, left, [item], IsOptional(list), v, items.items);
    } else {
      AbsentList(items, list);
      FlagConforms(Missing, IsOptional(list));
    }
  }

  lemma KnownItems(item: Type, items: seq<Value>)
    requires Decidable(item) && forall v <- items :: Conforms(v, item)
    ensures AllKnown(items)
  {
    hide Conforms, Decidable, Solid;
    forall v | v in items ensures v.Missing? || Solid(v) {
      DecidableValue(v, item);
    }
  }

  lemma AbsentList(v: Value, list: Type)
    requires Conforms(v, list) && Unwrap(list).kind == List && Unwrap(list).elem.Some? && !v.Items?
    ensures IsOptional(list)
  {
  }

  lemma ListItemsConform(v: Value, list: Type)
    requires Conforms(v, list) && v.Items? && Unwrap(list).kind == List && Unwrap(list).elem.Some?
    ensures forall item <- v.items :: Conforms(item, Unwrap(list).elem.value)
  {
  }

  // ---------------------------------------------------------------- CASE, IF and COALESCE

  lemma {:induction false} ChoosePicks(order: Order, selector: Option<Value>, conditions: seq<Value>,
                                           results: seq<Value>, otherwise: Value)
    requires |conditions| == |results|
    ensures Choose(order, selector, conditions, results, otherwise) in results + [otherwise]
  {
    if conditions != [] {
      ChoosePicks(order, selector, conditions[1..], results[1..], otherwise);
      assert results + [otherwise] == [results[0]] + (results[1..] + [otherwise]);
    }
  }

  lemma OneOfConforms(types: seq<Type>, vs: seq<Value>, v: Value)
    requires CommonType(types).Ok? && AllConform(vs, types) && v in vs
    ensures Conforms(v, CommonType(types).value)
  {
    hide Conforms, CommonType;
    var i :| 0 <= i < |vs| && vs[i] == v;
    CommonTypeCovers(types, types[i], v);
  }

  lemma CaseSound(order: Order, selectorType: Option<Type>, selector: Option<Value>, conditionTypes: seq<Type>,
                  conditions: seq<Value>, types: seq<Type>, results: seq<Value>, otherwiseType: Type, otherwise: Value)
    requires CaseType(selectorType, conditionTypes, types, otherwiseType).Ok?
    requires |conditions| == |conditionTypes| && AllConform(results, types) && Conforms(otherwise, otherwiseType)
    ensures Conforms(Choose(order, selector, conditions, results, otherwise),
                     CaseType(selectorType, conditionTypes, types, otherwiseType).value)
  {
    hide Conforms, CommonType, Choose;
    ChoosePicks(order, selector, conditions, results, otherwise);
    assert AllConform(results + [otherwise], types + [otherwiseType]);
    OneOfConforms(types + [otherwiseType], results + [otherwise], Choose(order, selector, conditions, results, otherwise));
  }

  lemma IfSound(types: seq<Type>, vs: seq<Value>)
    requires IfType(types).Ok? && AllConform(vs, types)
    ensures Conforms(IfValue(vs), IfType(types).value)
  {
    hide CommonType, BaseOf, Conforms;
    NullConforms();
    if |vs| == 2 {
      assert AllConform([vs[1], Missing], [types[1], Plain(Null)]);
      OneOfConforms([types[1], Plain(Null)], [vs[1], Missing], IfValue(vs));
    } else {
      assert AllConform(vs[1..], types[1..]);
      assert vs[1..][0] == vs[1] && vs[1..][1] == vs[2];
      OneOfConforms(types[1..], vs[1..], IfValue(vs));
    }
  }

  /** The value at hand of an argument may be a bare empty list: the ListCreate call the argument is. */
  ghost predicate ArgumentConforms(argument: Argument, v: Value) {
    Conforms(v, argument.typ) && (argument.emptyList ==> v == Items([]))
  }

  lemma CommonConcreteCovers(a: Type, b: Type, v: Value)
    requires Valid(a) && Valid(b) && CommonConcrete(a, b).Ok? && (Conforms(v, a) || Conforms(v, b))
    ensures Conforms(v, CommonConcrete(a, b).value)
  {
    hide Valid, Conforms, CommonConcrete;
    CommonConcreteIsMax(a, b);
    var c := CommonConcrete(a, b).value;
    if Conforms(v, a) { BelowKeepsValues(a, c, v); } else { BelowKeepsValues(b, c, v); }
  }

  lemma EmptyListConforms(t: Type)
    requires t.kind == List && Valid(t)
    ensures Conforms(Items([]), t)
  {
  }

  lemma IntegerConforms(v: Value, a: Type, b: Type)
    requires IsInteger(a.kind) && IsInteger(b.kind) && Conforms(v, a)
    ensures Conforms(v, b)
  {
  }

  lemma TextKindsConform(v: Value, a: Type)
    requires (a.kind == String || a.kind == Utf8) && Conforms(v, a)
    ensures Conforms(v, Plain(String))
  {
  }

  lemma CoalescePairCovers(left: Type, right: Type, v: Value)
    requires Valid(left) && Valid(right) && CoalescePair(left, right).Ok? && (Conforms(v, left) || Conforms(v, right))
    ensures Conforms(v, CoalescePair(left, right).value)
  {
    hide Valid, Conforms, CommonConcrete;
    if MixedText(left.kind, right.kind) {
      TextKindsConform(v, if Conforms(v, left) then left else right);
      assert Valid(Plain(String)) by { PlainStringIsValid(); }
      CommonConcreteCovers(Plain(String), Plain(String), v);
    } else {
      CommonConcreteCovers(left, right, v);
    }
  }

  lemma PlainStringIsValid()
    ensures Valid(Plain(String))
  {
  }

  /** The coercions keep the argument's value: a conforming value still conforms, and NULL stays allowed. */
  lemma CoercedSound(left: Type, argument: Argument, v: Value)
    requires Valid(left) && Accepted(argument.typ) && Concrete(argument.typ) && ArgumentConforms(argument, v)
    ensures var right := Coerced(left, BaseOf(argument.typ).value, argument);
            && Valid(right.typ) && (v.Missing? ==> right.nullable) && (!v.Missing? ==> Conforms(v, right.typ))
  {
    hide Valid, Conforms, LiteralFits;
    ConformsToCore(v, argument.typ);
    CoresAreLegal([argument.typ]);
    CoresOfOne(argument.typ);
    if left.kind == List { EmptyListConforms(left); }
    if !v.Missing? && IsInteger(left.kind) && IsInteger(Core(argument.typ).kind) {
      IntegerConforms(v, Core(argument.typ), left);
    }
  }

  lemma AcceptedWithOptional(t: Type, nullable: bool)
    requires Valid(t) && t.kind != Optional
    ensures Accepted(WithOptional(t, nullable))
  {
  }

  lemma CoalescePairIsLegal(left: Type, right: Type)
    requires Valid(left) && Valid(right) && left.kind != Optional && right.kind != Optional && CoalescePair(left, right).Ok?
    ensures Valid(CoalescePair(left, right).value) && CoalescePair(left, right).value.kind != Optional
    ensures left.kind != Null && right.kind != Null ==> CoalescePair(left, right).value.kind != Null
  {
    hide Valid, CommonConcrete;
    PlainStringIsValid();
    CommonConcreteIsMax(Plain(String), Plain(String));
    CommonConcreteIsMax(left, right);
  }

  /** The loop invariant of COALESCE: the type so far is legal and the first present value so far conforms to it. */
  lemma CoalesceStepSound(result: Type, argument: Argument, u: Value, v: Value)
    requires result == Plain(Null) || Accepted(result)
    requires Conforms(u, result) && ArgumentConforms(argument, v) && CoalesceStep(result, argument).Ok?
    ensures var next := CoalesceStep(result, argument).value;
            Accepted(next) && Conforms(if u.Missing? then v else u, next)
  {
    hide Valid, Conforms, Coerced, CoalescePair;
    ConformsToCore(v, argument.typ);
    PlainNullIsAccepted();
    ConformsToCore(u, result);
    if Concrete(result) && Concrete(argument.typ) {
      CoalesceConcreteSound(result, argument, u, v);
    }
  }

  lemma CoalesceConcreteSound(result: Type, argument: Argument, u: Value, v: Value)
    requires Concrete(result) && Concrete(argument.typ)
    requires u.Missing? ==> IsOptional(result)
    requires !u.Missing? ==> Conforms(u, Core(result))
    requires ArgumentConforms(argument, v)
    ensures Core(result) == Unwrap(result) && Unwrap(result).kind != Null
    ensures var right := Coerced(Unwrap(result), BaseOf(argument.typ).value, argument);
            CoalescePair(Unwrap(result), right.typ).Ok? ==>
              var next := WithOptional(CoalescePair(Unwrap(result), right.typ).value, IsOptional(result) && right.nullable);
              Accepted(next) && Conforms(if u.Missing? then v else u, next)
  {
    hide Valid, Conforms, Coerced, CoalescePair;
    var left := Unwrap(result);
    CoresAreLegal([result]);
    CoresOfOne(result);
    CoercedSound(left, argument, v);
    CoercedIsNotOptional(left, argument);
    var right := Coerced(left, BaseOf(argument.typ).value, argument);
    if CoalescePair(left, right.typ).Ok? {
      var common := CoalescePair(left, right.typ).value;
      CoalescePairIsLegal(left, right.typ);
      AcceptedWithOptional(common, IsOptional(result) && right.nullable);
      var next := if u.Missing? then v else u;
      if !next.Missing? {
        CoalescePairCovers(left, right.typ, next);
      }
      ConformsToOptional(next, common, IsOptional(result) && right.nullable);
    }
  }

  lemma PlainNullIsAccepted()
    ensures Accepted(Plain(Null))
  {
  }

  lemma CoercedIsNotOptional(left: Type, argument: Argument)
    requires Accepted(argument.typ) && left.kind != Optional
    ensures Coerced(left, BaseOf(argument.typ).value, argument).typ.kind != Optional
  {
  }

  lemma {:induction false} CoalesceFoldSound(arguments: seq<Argument>, vs: seq<Value>)
    requires CoalesceFold(arguments).Ok? && |vs| == |arguments|
    requires forall i | 0 <= i < |vs| :: ArgumentConforms(arguments[i], vs[i])
    ensures Accepted(CoalesceFold(arguments).value) && Conforms(FirstPresent(vs), CoalesceFold(arguments).value)
  {
    hide Conforms, Accepted, CoalesceStep, ArgumentConforms;
    PlainNullIsAccepted();
    NullConforms();
    if arguments != [] {
      var n := |arguments| - 1;
      CoalesceFoldSound(arguments[..n], vs[..n]);
      CoalesceStepSound(CoalesceFold(arguments[..n]).value, arguments[n], FirstPresent(vs[..n]), vs[n]);
    }
  }

  // ---------------------------------------------------------------- structs and lists

  lemma {:induction false} BindAllLooksUp<V>(bindings: map<string, V>, names: seq<string>, vs: seq<V>, i: nat)
    requires |names| == |vs| && DistinctStrings(names) && i < |names|
    ensures names[i] in BindAll(bindings, names, vs) && BindAll(bindings, names, vs)[names[i]] == vs[i]
  {
    var n := |names| - 1;
    if i < n {
      BindAllLooksUp(bindings, names[..n], vs[..n], i);
    }
  }

  lemma RecordFieldsConform(names: seq<string>, types: seq<Type>, vs: seq<Value>, fields: seq<Field>)
    requires |names| == |types| == |fields| && AllConform(vs, types) && DistinctNames(fields)
    requires forall i | 0 <= i < |fields| :: fields[i] == Field(names[i], types[i])
    ensures FieldsConform(BindAll(map[], names, vs), fields)
    ensures BindAll(map[], names, vs).Keys == FieldTable(fields).Keys
  {
    hide Conforms, BindAll;
    forall i, j | 0 <= i < j < |names| ensures names[i] != names[j] {
      assert fields[i].name != fields[j].name;
    }
    forall i | 0 <= i < |fields|
      ensures fields[i].name in BindAll(map[], names, vs) && Conforms(BindAll(map[], names, vs)[fields[i].name], fields[i].typ)
    {
      BindAllLooksUp(map[], names, vs, i);
    }
    BoundNames(names, vs, fields);
  }

  lemma {:induction false} BoundNames(names: seq<string>, vs: seq<Value>, fields: seq<Field>)
    requires |names| == |vs| == |fields| && forall i | 0 <= i < |fields| :: fields[i].name == names[i]
    ensures BindAll(map[], names, vs).Keys == FieldTable(fields).Keys
  {
    if names != [] {
      var n := |names| - 1;
      BoundNames(names[..n], vs[..n], fields[..n]);
    }
  }

  lemma StructSound(names: seq<string>, types: seq<Type>, vs: seq<Value>)
    requires StructType(names, types).Ok? && AllConform(vs, types)
    ensures Conforms(RecordOf(names, vs), StructType(names, types).value)
  {
    hide Valid, BindAll, AllConform, FieldsConform;
    RecordFieldsConform(names, types, vs, StructType(names, types).value.fields);
  }

  lemma {:induction false} FieldNamedConforms(members: map<string, Value>, fields: seq<Field>, name: string)
    requires FieldsConform(members, fields) && FieldNamed(fields, name).Some?
    ensures name in members && Conforms(members[name], FieldNamed(fields, name).value)
  {
    hide Conforms;
    if fields[0].name != name {
      forall i | 0 <= i < |fields[1..]|
        ensures fields[1..][i].name in members && Conforms(members[fields[1..][i].name], fields[1..][i].typ)
      {
        assert fields[1..][i] == fields[i + 1];
      }
      FieldNamedConforms(members, fields[1..], name);
    } else {
      assert fields[0].name in members;
    }
  }

  lemma MemberStepSound(t: Type, name: string, v: Value)
    requires MemberStep(t, name).Ok? && Conforms(v, t)
    ensures if v.Record? then name in v.members && Conforms(v.members[name], MemberStep(t, name).value)
            else IsOptional(MemberStep(t, name).value) && v.Missing?
  {
    hide FieldsConform, FieldNamed;
    var member := FieldNamed(Unwrap(t).fields, name).value;
    if v.Record? {
      FieldNamedConforms(v.members, Unwrap(t).fields, name);
      ConformsToOptional(v.members[name], member, IsOptional(t));
    }
  }

  lemma {:induction false} MemberSound(t: Type, path: seq<string>, v: Value)
    requires MemberType(t, path).Ok? && Conforms(v, t)
    ensures Conforms(MemberOf(v, path), MemberType(t, path).value)
    decreases path
  {
    hide Conforms, MemberStep;
    if path != [] {
      MemberStepSound(t, path[0], v);
      var member := MemberStep(t, path[0]).value;
      if v.Record? {
        MemberSound(member, path[1..], v.members[path[0]]);
      } else {
        MissingConforms(member);
        MemberSound(member, path[1..], Missing);
        MissingHasNoMembers(path[1..]);
      }
    }
  }

  lemma MissingConforms(t: Type)
    requires IsOptional(t)
    ensures Conforms(Missing, t)
  {
  }

  lemma MissingHasNoMembers(path: seq<string>)
    ensures MemberOf(Missing, path) == Missing
  {
  }

  lemma AsListSound(types: seq<Type>, vs: seq<Value>)
    requires AsListType(types).Ok? && AllConform(vs, types)
    ensures Conforms(Items(vs), AsListType(types).value)
  {
    hide CommonType;
    forall v | v in vs ensures Conforms(v, CommonType(types).value) {
      OneOfConforms(types, vs, v);
    }
  }

  lemma {:induction false} SelectedAreItems(items: seq<Value>, answers: seq<Value>)
    requires |items| == |answers|
    ensures forall v <- Selected(items, answers) :: v in items
  {
    if items != [] {
      var n := |items| - 1;
      SelectedAreItems(items[..n], answers[..n]);
    }
  }

  lemma ListApplySound(filter: bool, list: Type, result: Type, v: Value, answers: seq<Value>)
    requires ListApplyType(filter, list, result).Ok? && Conforms(v, list)
    requires v.Items? ==> |answers| == |v.items| && forall a <- answers :: Conforms(a, result)
    ensures v.Items? ==>
              Conforms(Items(if filter then Selected(v.items, answers) else answers), ListApplyType(filter, list, result).value)
    ensures !v.Items? ==> Conforms(Missing, ListApplyType(filter, list, result).value)
  {
    hide Valid, BaseOf;
    var inner := if filter then Unwrap(list) else ListOf(result);
    assert ListApplyType(filter, list, result).value == WithOptional(inner, IsOptional(list));
    if v.Items? {
      SelectedAreItems(v.items, answers);
      var out := Items(if filter then Selected(v.items, answers) else answers);
      assert Conforms(out, inner);
      ConformsToOptional(out, inner, IsOptional(list));
    } else {
      ConformsToOptional(Missing, inner, IsOptional(list));
    }
  }

  // ---------------------------------------------------------------- COALESCE is exact

  ghost predicate NonNullAreOptional(arguments: seq<Argument>) {
    forall argument <- arguments :: argument.typ.kind == Null || IsOptional(argument.typ)
  }

  lemma CoalesceStepOptional(result: Type, argument: Argument, before: bool)
    requires Accepted(result) && CoalesceStep(result, argument).Ok?
    requires if result.kind == Null then before else IsOptional(result) == before
    ensures var next := CoalesceStep(result, argument).value;
            var after := before && (argument.typ.kind == Null || IsOptional(argument.typ));
            && Accepted(next)
            && (if next.kind == Null then after else IsOptional(next) == after)
  {
    hide Valid, Coerced, CoalescePair;
    var left := Unwrap(result);
    if left.kind != Null && Concrete(argument.typ) {
      var right := Coerced(left, BaseOf(argument.typ).value, argument);
      CoercedNullability(left, argument);
      CoercedIsNotOptional(left, argument);
      CoresAreLegal([result]);
      CoresOfOne(result);
      CoalescePairIsLegal(left, right.typ);
      AcceptedWithOptional(CoalescePair(left, right.typ).value, IsOptional(result) && right.nullable);
    }
  }

  lemma CoercedNullability(left: Type, argument: Argument)
    requires Concrete(argument.typ) && Valid(left) && left.kind != Null
    ensures var right := Coerced(left, BaseOf(argument.typ).value, argument);
            right.nullable == IsOptional(argument.typ) && Valid(right.typ) && right.typ.kind != Null
  {
    hide LiteralFits;
  }

  lemma {:induction false} CoalesceFoldOptional(arguments: seq<Argument>)
    requires CoalesceFold(arguments).Ok?
    ensures var result := CoalesceFold(arguments).value;
            && Accepted(result)
            && (if result.kind == Null then NonNullAreOptional(arguments)
                else IsOptional(result) == NonNullAreOptional(arguments))
  {
    hide Accepted, CoalesceStep;
    PlainNullIsAccepted();
    if arguments != [] {
      var n := |arguments| - 1;
      CoalesceFoldOptional(arguments[..n]);
      assert arguments == arguments[..n] + [arguments[n]];
      CoalesceStepOptional(CoalesceFold(arguments[..n]).value, arguments[n], NonNullAreOptional(arguments[..n]));
    }
  }

  /** COALESCE is Optional exactly when every argument that is not Null is Optional. */
  lemma CoalesceIsOptionalExactly(arguments: seq<Argument>)
    requires CoalesceType(arguments).Ok?
    ensures IsOptional(CoalesceType(arguments).value) <==>
            forall argument <- arguments | argument.typ.kind != Null :: IsOptional(argument.typ)
  {
    CoalesceFoldOptional(arguments);
  }
}
