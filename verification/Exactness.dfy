/**
 * How tight the nullability of the typing rules is.  Soundness says that an expression typed neither Optional nor Null is
 * never NULL; here an operator on parameters is typed Optional or Null exactly when some arguments make it NULL.
 */
module Exactness {
  import opened Wrappers
  import opened Types
  import opened CommonTypes
  import opened Expressions
  import opened TypingRules
  import opened Resolver
  import opened Comparisons
  import opened Evaluation
  import opened Conformance
  import opened RuleSoundness
  import opened Witnesses

  // ---------------------------------------------------------------- arithmetic

  lemma {:induction false} CalculateMissing(vs: seq<Value>, ops: seq<ArithmeticOp>)
    requires vs != [] && |ops| + 1 >= |vs| && Missing in vs
    ensures CalculateAll(vs, ops) == Missing
    decreases |vs|
  {
    var n := |vs| - 1;
    if n > 0 && Missing in vs[..n] {
      CalculateMissing(vs[..n], ops);
    }
    assert vs == vs[..n] + [vs[n]];
  }

  lemma CommonNullability(types: seq<Type>)
    requires CommonType(types).Ok?
    ensures AllAccepted(types)
    ensures NullOrOptional(CommonType(types).value) == IsOptional(CommonType(types).value) == AnyNullOrOptional(types)
  {
    hide CommonType, Cores, IsChain, IsTop, Accepted, Nullable, Core, NullOrOptional;
    CommonTypeSucceeds(types);
    CommonTypeIsJoin(types);
    forall t | t in types ensures NullOrOptional(t) == Nullable(t) { AcceptedPick(t, false); }
    AnswerIsNotNull(types);
  }

  lemma AnswerIsNotNull(types: seq<Type>)
    requires CommonType(types).Ok?
    ensures CommonType(types).value.kind != Null
    ensures NullOrOptional(CommonType(types).value) == IsOptional(CommonType(types).value)
  {
    hide CommonType, Cores, IsTop, Valid;
    CommonTypeIsJoin(types);
  }

  lemma {:induction false} ArithmeticNullability(types: seq<Type>, ops: seq<ArithmeticOp>)
    requires types != [] && |ops| + 1 >= |types| && ArithmeticFold(types, ops).Ok? && types[0].kind != NoKind
    ensures var t := ArithmeticFold(types, ops).value;
            && t.kind != NoKind
            && NullOrOptional(t) == AnyNullOrOptional(types)
            && (|types| > 1 ==> AllAccepted(types))
            && (|types| == 1 ==> t == types[0])
    decreases |types|
  {
    hide CommonType, Accepted, NullOrOptional;
    var n := |types| - 1;
    assert types == types[..n] + [types[n]];
    if n > 0 {
      ArithmeticNullability(types[..n], ops);
      var before := ArithmeticFold(types[..n], ops).value;
      CommonNullability([before, types[n]]);
      AnswerHasKind([before, types[n]]);
      assert before in [before, types[n]] && types[n] in [before, types[n]];
      assert n == 1 ==> types[..n] == [types[0]];
    } else {
      assert types[..0] == [] && types == [types[0]];
    }
  }

  lemma AnswerHasKind(types: seq<Type>)
    requires CommonType(types).Ok?
    ensures CommonType(types).value.kind != NoKind
  {
    hide CommonType, Cores, IsTop, Valid;
    CommonTypeIsJoin(types);
    CoresAreLegal(types);
    assert Unwrap(CommonType(types).value) in Cores(types) by { TopIsCore(types, Unwrap(CommonType(types).value)); }
  }

  lemma TopIsCore(types: seq<Type>, top: Type)
    requires IsTop(Cores(types), top)
    ensures top in Cores(types)
  {
    hide Cores, Below;
  }

  /** A chain of two or more operands has the largest of their types, Optional when one of them is. */
  lemma {:induction false} ArithmeticIsJoin(types: seq<Type>, ops: seq<ArithmeticOp>)
    requires |types| >= 2 && |ops| + 1 >= |types| && ArithmeticFold(types, ops).Ok? && types[0].kind != NoKind
    ensures var t := ArithmeticFold(types, ops).value;
            && Concrete(t) && IsTop(Cores(types), Core(t))
            && t == WithOptional(Core(t), AnyNullOrOptional(types))
    decreases |types|
  {
    hide CommonType, Accepted, NullOrOptional, ArithmeticFold, IsTop, Cores, Core, Concrete, Below, AnyNullOrOptional;
    var n := |types| - 1;
    var front, last := types[..n], types[n];
    ArithmeticStep(types, ops, front);
    var before := ArithmeticFold(front, ops).value;
    assert types == front + [last];
    ArithmeticNullability(types, ops);
    CommonTypeIsJoin([before, last]);
    CommonNullability([before, last]);
    if n > 1 {
      ArithmeticIsJoin(front, ops);
      JoinOneMore(front, before, last);
    } else {
      OneOperand(front, ops);
      assert front == [types[0]] && before == types[0];
      assert types == [before, last];
    }
  }

  lemma PairIsCommon(op: ArithmeticOp, left: Type, right: Type)
    ensures ArithmeticPair(op, left, right).Ok? ==> ArithmeticPair(op, left, right) == CommonType([left, right])
  {
    hide CommonType;
  }

  lemma FoldUnfolds(types: seq<Type>, ops: seq<ArithmeticOp>)
    requires |types| >= 2 && |ops| + 1 >= |types| && ArithmeticFold(types, ops).Ok?
    ensures var n := |types| - 1;
            && ArithmeticFold(types[..n], ops).Ok?
            && var before := ArithmeticFold(types[..n], ops).value;
               before.kind != NoKind ==> ArithmeticFold(types, ops) == ArithmeticPair(ops[n - 1], before, types[n])
  {
    hide ArithmeticPair;
  }

  /** The last step of a chain joins what came before with the last operand. */
  lemma ArithmeticStep(types: seq<Type>, ops: seq<ArithmeticOp>, front: seq<Type>)
    requires |types| >= 2 && |ops| + 1 >= |types| && ArithmeticFold(types, ops).Ok? && types[0].kind != NoKind
    requires front == types[..|types| - 1]
    ensures ArithmeticFold(front, ops).Ok?
    ensures CommonType([ArithmeticFold(front, ops).value, types[|types| - 1]]) == ArithmeticFold(types, ops)
  {
    hide ArithmeticFold, ArithmeticPair, CommonType;
    FoldUnfolds(types, ops);
    ArithmeticHasKind(front, ops);
    PairIsCommon(ops[|front| - 1], ArithmeticFold(front, ops).value, types[|front|]);
  }

  lemma OneOperand(types: seq<Type>, ops: seq<ArithmeticOp>)
    requires |types| == 1
    ensures ArithmeticFold(types, ops) == Ok(types[0])
  {
    assert types[..0] == [];
  }

  lemma ArithmeticHasKind(types: seq<Type>, ops: seq<ArithmeticOp>)
    requires types != [] && |ops| + 1 >= |types| && ArithmeticFold(types, ops).Ok? && types[0].kind != NoKind
    ensures ArithmeticFold(types, ops).value.kind != NoKind
  {
    hide ArithmeticFold, NullOrOptional, Accepted, AnyNullOrOptional;
    ArithmeticNullability(types, ops);
  }

  lemma JoinOneMore(front: seq<Type>, before: Type, last: Type)
    requires CommonType([before, last]).Ok? && Concrete(before) && IsTop(Cores(front), Core(before))
    ensures IsTop(Cores(front + [last]), Unwrap(CommonType([before, last]).value))
  {
    hide CommonType, Accepted, Cores, Core, Below, IsTop;
    CommonTypeIsJoin([before, last]);
    assert [before] + [last] == [before, last];
    CoresOfSum([before], [last]);
    CoresOfSum(front, [last]);
    CoresOfOne(before);
    CoresOfOne(last);
    CoresAreLegal(front);
    CoresAreLegal([before]);
    CoresAreLegal([last]);
    JoinTops(Cores(front), Cores([last]), Core(before), Unwrap(CommonType([before, last]).value));
  }

  lemma JoinTops(xs: set<Type>, ys: set<Type>, a: Type, join: Type)
    requires Legal(xs) && Legal(ys) && IsTop(xs, a) && |ys| <= 1 && IsTop({a} + ys, join)
    ensures IsTop(xs + ys, join)
  {
    hide Below, Legal;
    forall c | c in xs ensures Below(c, join) {
      assert Legal({join}) by { LegalMember(xs, ys, a, join); }
      BelowThrough(xs, c, a, join);
    }
  }

  lemma LegalMember(xs: set<Type>, ys: set<Type>, a: Type, join: Type)
    requires Legal(xs) && Legal(ys) && a in xs && join in {a} + ys
    ensures Legal({join})
  {
  }

  lemma BelowThrough(xs: set<Type>, c: Type, a: Type, join: Type)
    requires Legal(xs) && c in xs && a in xs && Legal({join}) && Below(c, a) && Below(a, join)
    ensures Below(c, join)
  {
    hide Valid, Below;
    BelowIsPreorder(c, a, join);
  }

  lemma ArithmeticOnParameters(names: seq<string>, types: seq<Type>, ops: seq<ArithmeticOp>)
    requires DistinctStrings(names) && |names| == |types|
    ensures Resolve(Arithmetic(Binds(names), ops), ScopeOf(names, types)) == ArithmeticType(types, ops)
    ensures forall order: Order, vs: seq<Value> | |vs| == |names| && vs != [] && |ops| + 1 == |vs| ::
              Evaluate(order, Arithmetic(Binds(names), ops), EnvironmentOf(names, vs)) == Some(CalculateAll(vs, ops))
  {
    hide ResolveAll, EvaluateAll, ScopeOf, EnvironmentOf, ArithmeticType, CalculateAll;
    AllParameters(names, types);
  }

  lemma ArithmeticWitness(types: seq<Type>, ops: seq<ArithmeticOp>) returns (vs: seq<Value>)
    requires ArithmeticType(types, ops).Ok? && types[0].kind != NoKind && NullOrOptional(ArithmeticType(types, ops).value)
    ensures AllConform(vs, types) && CalculateAll(vs, ops) == Missing
  {
    hide Conforms, NullOrOptional, ArithmeticFold, Accepted, Worst, CalculateAll;
    ArithmeticNullability(types, ops);
    vs := Worst(types, false);
    if |types| > 1 {
      AcceptedWorst(types, false);
    } else {
      assert types == [types[0]];
      WorstConforms(types, false);
    }
    CalculateMissing(vs, ops);
  }

  /** Arithmetic is typed Optional or Null exactly when some operands make it NULL. */
  lemma ArithmeticIsExact(names: seq<string>, types: seq<Type>, ops: seq<ArithmeticOp>)
    requires DistinctStrings(names) && |names| == |types|
    requires Resolve(Arithmetic(Binds(names), ops), ScopeOf(names, types)).Ok? && types[0].kind != NoKind
    ensures TypedNullable(Arithmetic(Binds(names), ops), names, types) <==> CanBeNull(Arithmetic(Binds(names), ops), names, types)
  {
    hide Resolve, Evaluate, ScopeOf, EnvironmentOf, ArithmeticFold, CalculateAll, Conforms, NullOrOptional, CanBeNull, Decided;
    var e := Arithmetic(Binds(names), ops);
    ArithmeticOnParameters(names, types, ops);
    if TypedNullable(e, names, types) {
      var vs := ArithmeticWitness(types, ops);
      SharpIsDecided();
      MakesNull(e, names, types, Sharp, vs);
    }
    if CanBeNull(e, names, types) {
      var order, vs := NullArguments(e, names, types);
      ArithmeticFoldSound(types, ops, vs);
      NullConformsToNullable(ArithmeticType(types, ops).value);
    }
  }

  // ---------------------------------------------------------------- AND, OR, XOR, NOT

  /** The value of the operands that may not be NULL, so that none of them decides. */
  function Neutral(op: LogicOp): bool {
    op == And
  }

  lemma LogicWitness(op: LogicOp, types: seq<Type>) returns (vs: seq<Value>)
    requires LogicType(op, types).Ok? && NullOrOptional(LogicType(op, types).value)
    ensures AllConform(vs, types) && Combine(op, vs) == Missing
  {
    hide Conforms, AnyNullOrOptional, NullOrOptional, BoolOrNull, Pick;
    vs := Worst(types, Neutral(op));
    forall t | t in types && !NullOrOptional(t)
      ensures Conforms(Pick(t, Neutral(op)), t) && Pick(t, Neutral(op)) == Flag(Neutral(op))
    {
      BoolPick(t, Neutral(op));
    }
    WorstConforms(types, Neutral(op));
    NullNeedsNullable(op, types);
    forall v | v in vs ensures v == Missing || v == Flag(Neutral(op)) {
      var i :| 0 <= i < |vs| && vs[i] == v;
      assert types[i] in types;
    }
    assert Flag(!Neutral(op)) !in vs;
  }

  lemma BoolPick(t: Type, second: bool)
    requires BoolOrNull(t) && !NullOrOptional(t)
    ensures Conforms(Pick(t, second), t) && Pick(t, second) == Flag(second)
  {
  }

  lemma NullNeedsNullable(op: LogicOp, types: seq<Type>)
    requires LogicType(op, types).Ok? && NullOrOptional(LogicType(op, types).value)
    ensures AnyNullOrOptional(types)
  {
    assert types[0] in types;
  }

  lemma LogicOnParameters(op: LogicOp, names: seq<string>, types: seq<Type>)
    requires DistinctStrings(names) && |names| == |types|
    ensures Resolve(Logic(op, Binds(names)), ScopeOf(names, types)) == LogicType(op, types)
    ensures forall order: Order, vs: seq<Value> | |vs| == |names| ::
              Evaluate(order, Logic(op, Binds(names)), EnvironmentOf(names, vs)) == Some(Combine(op, vs))
  {
    hide ResolveAll, EvaluateAll, ScopeOf, EnvironmentOf, LogicType, Combine;
    AllParameters(names, types);
  }

  /** A connective is typed Optional or Null exactly when some truth values of its operands make it NULL. */
  lemma LogicIsExact(op: LogicOp, names: seq<string>, types: seq<Type>)
    requires DistinctStrings(names) && |names| == |types|
    requires Resolve(Logic(op, Binds(names)), ScopeOf(names, types)).Ok?
    ensures TypedNullable(Logic(op, Binds(names)), names, types) <==> CanBeNull(Logic(op, Binds(names)), names, types)
  {
    hide Resolve, Evaluate, ScopeOf, EnvironmentOf, LogicType, Combine, Conforms, NullOrOptional, CanBeNull, Decided;
    var e := Logic(op, Binds(names));
    LogicOnParameters(op, names, types);
    if TypedNullable(e, names, types) {
      var vs := LogicWitness(op, types);
      SharpIsDecided();
      MakesNull(e, names, types, Sharp, vs);
    }
    if CanBeNull(e, names, types) {
      var order, vs := NullArguments(e, names, types);
      LogicSound(op, types, vs);
      NullConformsToNullable(LogicType(op, types).value);
    }
  }

  // ---------------------------------------------------------------- concatenation, IS NULL

  /** The concatenation has a Null operand or, if it has none, an Optional one, exactly when the fold says so. */
  predicate ConcatAllowed(t: Type) {
    t.kind == Null || Unwrap(t).kind == String || Unwrap(t).kind == Utf8
  }

  predicate ConcatKnows(acc: Concatenated, nullable: bool) {
    && (acc.hasNull || acc.optional <==> nullable)
    && !acc.result.kind.Optional? && !acc.result.kind.Null?
  }

  lemma ConcatStepNullability(acc: Concatenated, t: Type, nullable: bool)
    requires ConcatStep(acc, t).Ok? && ConcatKnows(acc, nullable)
    ensures ConcatKnows(ConcatStep(acc, t).value, nullable || NullOrOptional(t)) && ConcatAllowed(t)
  {
    hide Equal;
  }

  lemma {:induction false} ConcatNullability(types: seq<Type>)
    requires ConcatFold(types).Ok?
    ensures ConcatKnows(ConcatFold(types).value, AnyNullOrOptional(types)) && forall t <- types :: ConcatAllowed(t)
    decreases |types|
  {
    hide ConcatStep, NullOrOptional, ConcatAllowed;
    if types != [] {
      var n := |types| - 1;
      ConcatNullability(types[..n]);
      LogicPrefix(types, n);
      assert types[..n + 1] == types == types[..n] + [types[n]];
      ConcatStepNullability(ConcatFold(types[..n]).value, types[n], AnyNullOrOptional(types[..n]));
    }
  }

  lemma TextPick(t: Type, second: bool)
    requires Unwrap(t).kind == String || Unwrap(t).kind == Utf8
    ensures Conforms(Pick(t, second), t)
  {
  }

  lemma ConcatWitness(types: seq<Type>) returns (vs: seq<Value>)
    requires ConcatType(types).Ok? && NullOrOptional(ConcatType(types).value)
    ensures AllConform(vs, types) && Missing in vs
  {
    hide Conforms, ConcatFold, Pick, Worst;
    ConcatNullability(types);
    vs := Worst(types, false);
    forall t | t in types && !NullOrOptional(t) ensures Conforms(Pick(t, false), t) { TextPick(t, false); }
    WorstConforms(types, false);
  }

  lemma ConcatOnParameters(names: seq<string>, types: seq<Type>)
    requires DistinctStrings(names) && |names| == |types|
    ensures Resolve(Concat(Binds(names)), ScopeOf(names, types)) == ConcatType(types)
    ensures forall order: Order, vs: seq<Value> | |vs| == |names| ::
              Evaluate(order, Concat(Binds(names)), EnvironmentOf(names, vs)) ==
              Some(if Missing in vs then Missing else Text(Joined(vs)))
  {
    hide ResolveAll, EvaluateAll, ScopeOf, EnvironmentOf, ConcatType, Joined;
    AllParameters(names, types);
  }

  /** Concatenation is typed Optional or Null exactly when some operands make it NULL. */
  lemma ConcatIsExact(names: seq<string>, types: seq<Type>)
    requires DistinctStrings(names) && |names| == |types|
    requires Resolve(Concat(Binds(names)), ScopeOf(names, types)).Ok?
    ensures TypedNullable(Concat(Binds(names)), names, types) <==> CanBeNull(Concat(Binds(names)), names, types)
  {
    hide Resolve, Evaluate, ScopeOf, EnvironmentOf, ConcatType, Joined, Conforms, NullOrOptional, CanBeNull, Decided;
    var e := Concat(Binds(names));
    ConcatOnParameters(names, types);
    if TypedNullable(e, names, types) {
      var vs := ConcatWitness(types);
      SharpIsDecided();
      MakesNull(e, names, types, Sharp, vs);
    }
    if CanBeNull(e, names, types) {
      var order, vs := NullArguments(e, names, types);
      ConcatSound(types, vs);
      NullConformsToNullable(ConcatType(types).value);
    }
  }

  /** IS [NOT] NULL is never NULL, and never typed so. */
  lemma NullCheckIsKnown(name: string, t: Type, negated: bool)
    ensures Resolve(NullCheck(Bind(name), negated), ScopeOf([name], [t])).Ok?
    ensures !TypedNullable(NullCheck(Bind(name), negated), [name], [t])
    ensures !CanBeNull(NullCheck(Bind(name), negated), [name], [t])
    ensures forall order: Order, v: Value ::
              Evaluate(order, NullCheck(Bind(name), negated), EnvironmentOf([name], [v])) == Some(Flag((v == Missing) != negated))
  {
    hide ScopeOf, EnvironmentOf, Conforms, Decided;
    ParameterResolves([name], [t], 0);
    forall order: Order, v: Value
      ensures Evaluate(order, NullCheck(Bind(name), negated), EnvironmentOf([name], [v])) == Some(Flag((v == Missing) != negated))
    {
      ParameterEvaluates(order, [name], [v], 0);
    }
    forall order: Order, vs: seq<Value> | |vs| == 1
      ensures Evaluate(order, NullCheck(Bind(name), negated), EnvironmentOf([name], vs)) != Some(Missing)
    {
      assert vs == [vs[0]];
    }
  }

  // ---------------------------------------------------------------- comparisons

  predicate IsNullSafe(op: CompareOp) {
    op == DistinctFrom || op == NotDistinctFrom
  }

  /** Some operand may be NULL and every comparison from it to the end of the chain passes NULL on. */
  predicate ReachesEnd(types: seq<Type>, ops: seq<CompareOp>) {
    exists j | 0 <= j < |types| :: NullOrOptional(types[j]) && PassesOn(ops, j)
  }

  /** No comparison that operand j goes through is null-safe. */
  predicate PassesOn(ops: seq<CompareOp>, j: nat) {
    forall k | 0 <= k < |ops| && j - 1 <= k :: !IsNullSafe(ops[k])
  }

  lemma MissingPair(order: Order, op: CompareOp, v: Value, w: Value)
    requires !IsNullSafe(op) && (v == Missing || w == Missing)
    ensures ComparePair(order, op, v, w) == Missing
  {
  }

  lemma {:induction false} MissingPassesOn(order: Order, vs: seq<Value>, ops: seq<CompareOp>, j: nat)
    requires |ops| + 1 == |vs| && j < |vs| && vs[j] == Missing && PassesOn(ops, j)
    ensures CompareAll(order, vs, ops) == Missing
    decreases |vs|
  {
    hide ComparePair;
    var n := |vs| - 1;
    if n > 0 {
      MissingPair(order, ops[n - 1], if j < n then Missing else CompareAll(order, vs[..n], ops[..n - 1]), vs[n]);
      FewerComparisons(order, vs[..n], ops);
      if j < n {
        MissingPassesOn(order, vs[..n], ops[..n - 1], j);
      }
    }
  }

  lemma {:induction false} FewerComparisons(order: Order, vs: seq<Value>, ops: seq<CompareOp>)
    requires vs != [] && |ops| + 1 >= |vs|
    ensures CompareAll(order, vs, ops) == CompareAll(order, vs, ops[..|vs| - 1])
    decreases |vs|
  {
    hide ComparePair;
    var n := |vs| - 1;
    if n > 0 {
      FewerComparisons(order, vs[..n], ops);
      FewerComparisons(order, vs[..n], ops[..n]);
      assert ops[..n][..n - 1] == ops[..n - 1];
    }
  }

  /** A NULL answer comes from a NULL operand that all later comparisons passed on. */
  lemma {:induction false} MissingComesFrom(order: Order, vs: seq<Value>, ops: seq<CompareOp>) returns (j: nat)
    requires |ops| + 1 == |vs| && CompareAll(order, vs, ops) == Missing
    requires NullSafe(ops) || (Decided(order) && AllKnown(vs))
    ensures j < |vs| && vs[j] == Missing && PassesOn(ops, j)
    decreases |vs|
  {
    hide ComparePair, Decided, Solid;
    var n := |vs| - 1;
    j := n;
    if n > 0 {
      var front, before := vs[..n], CompareAll(order, vs[..n], ops);
      assert vs[n] in vs && ops[n - 1] in ops && forall v <- front :: v in vs;
      FewerComparisons(order, front, ops);
      KnownPrefix(order, front, ops);
      PairIsPresent(order, ops[n - 1], before, vs[n]);
      if vs[n] != Missing {
        assert forall op <- ops[..n - 1] :: op in ops;
        j := MissingComesFrom(order, front, ops[..n - 1]);
      }
    }
  }

  lemma KnownPrefix(order: Order, vs: seq<Value>, ops: seq<CompareOp>)
    requires vs != [] && |ops| + 1 >= |vs| && (NullSafe(ops) || (Decided(order) && AllKnown(vs)))
    ensures AllKnown(vs) ==> AllKnown([CompareAll(order, vs, ops)])
  {
    hide ComparePair, Decided;
    if |vs| >= 2 {
      CompareAllIsPresent(order, vs, ops);
    } else {
      assert vs[0] in vs && CompareAll(order, vs, ops) == vs[0];
    }
  }

  lemma CompareOnParameters(names: seq<string>, types: seq<Type>, ops: seq<CompareOp>)
    requires DistinctStrings(names) && |names| == |types|
    ensures Resolve(Compare(Binds(names), ops), ScopeOf(names, types)) == CompareType(types, ops)
    ensures forall order: Order, vs: seq<Value> | |vs| == |names| && vs != [] && |ops| + 1 == |vs| ::
              Evaluate(order, Compare(Binds(names), ops), EnvironmentOf(names, vs)) == Some(CompareAll(order, vs, ops))
  {
    hide ResolveAll, EvaluateAll, ScopeOf, EnvironmentOf, CompareType, CompareAll;
    AllParameters(names, types);
  }

  lemma CompareNullability(types: seq<Type>, ops: seq<CompareOp>)
    requires CompareType(types, ops).Ok?
    ensures NullOrOptional(CompareType(types, ops).value) <==> AnyNullOrOptional(types) && !NullSafe(ops)
    ensures forall t <- types :: !NullOrOptional(t) ==> Conforms(Pick(t, false), t)
  {
    hide CommonType, Accepted, Conforms, Pick;
    if forall t <- types :: t.kind == Null {
      assert types[0] in types;
    } else {
      CommonNullability(types);
      forall t | t in types ensures Conforms(Pick(t, false), t) { AcceptedPick(t, false); }
    }
  }

  /**
   * A chain of comparisons is typed Optional exactly when an operand may be NULL and not all comparisons are null-safe;
   * it is NULL for some operands exactly when none of the comparisons behind such an operand is null-safe.
   */
  lemma CompareIsExact(names: seq<string>, types: seq<Type>, ops: seq<CompareOp>)
    requires DistinctStrings(names) && |names| == |types|
    requires Resolve(Compare(Binds(names), ops), ScopeOf(names, types)).Ok? && (NullSafe(ops) || AllDecidable(types))
    ensures TypedNullable(Compare(Binds(names), ops), names, types) <==> AnyNullOrOptional(types) && !NullSafe(ops)
    ensures CanBeNull(Compare(Binds(names), ops), names, types) <==> ReachesEnd(types, ops)
  {
    hide Resolve, Evaluate, ScopeOf, EnvironmentOf, CompareAll, Conforms, NullOrOptional, CanBeNull, Decided, Worst,
         CommonType, NullSafe, AllDecidable, PassesOn;
    var e := Compare(Binds(names), ops);
    CompareOnParameters(names, types, ops);
    CompareNullability(types, ops);
    if ReachesEnd(types, ops) {
      var j :| 0 <= j < |types| && NullOrOptional(types[j]) && PassesOn(ops, j);
      var vs := Worst(types, false);
      WorstConforms(types, false);
      WorstAt(types, false, j);
      MissingPassesOn(Sharp, vs, ops, j);
      SharpIsDecided();
      MakesNull(e, names, types, Sharp, vs);
    }
    if CanBeNull(e, names, types) {
      var order, vs := NullArguments(e, names, types);
      if !NullSafe(ops) { DecidableValues(types, vs); }
      var j := MissingComesFrom(order, vs, ops);
      NullConformsToNullable(types[j]);
    }
  }

  lemma WorstAt(types: seq<Type>, second: bool, j: nat)
    requires j < |types| && NullOrOptional(types[j])
    ensures Worst(types, second)[j] == Missing
  {
  }

  /** One comparison, or several of which all or none are null-safe: then the type is exact. */
  lemma UniformComparisonIsExact(names: seq<string>, types: seq<Type>, ops: seq<CompareOp>)
    requires DistinctStrings(names) && |names| == |types|
    requires Resolve(Compare(Binds(names), ops), ScopeOf(names, types)).Ok? && (NullSafe(ops) || AllDecidable(types))
    requires NullSafe(ops) || forall op <- ops :: !IsNullSafe(op)
    ensures TypedNullable(Compare(Binds(names), ops), names, types) <==> CanBeNull(Compare(Binds(names), ops), names, types)
  {
    hide Resolve, ScopeOf, NullOrOptional, CanBeNull, TypedNullable, AllDecidable, CompareType;
    CompareOnParameters(names, types, ops);
    CompareIsExact(names, types, ops);
    OperatorCount(types, ops);
    if NullSafe(ops) {
      assert ops[|ops| - 1] in ops;
      assert !ReachesEnd(types, ops);
    } else if t :| t in types && NullOrOptional(t) {
      var j :| 0 <= j < |types| && types[j] == t;
      assert PassesOn(ops, j);
    }
  }

  lemma OperatorCount(types: seq<Type>, ops: seq<CompareOp>)
    requires CompareType(types, ops).Ok?
    ensures |types| >= 2 && |ops| + 1 == |types|
  {
  }
}
