/** The nullability of IN, CASE, IF, COALESCE, member paths, list transforms and columns is exact, too. */
module BranchExactness {
  import opened Wrappers
  import opened Types
  import opened CommonTypes
  import opened Expressions
  import opened TypingRules
  import opened Resolver
  import opened Comparisons
  import opened Evaluation
  import opened Conformance
  import opened RuleSoundness
  import opened Soundness
  import opened Witnesses
  import opened Exactness

  // ---------------------------------------------------------------- IN

  lemma {:induction false} AmongUnknown(order: Order, v: Value, items: seq<Value>)
    requires forall w <- items :: Equality(order, v, w) != Some(true)
    ensures IsAmong(order, v, items) == if exists w <- items :: Equality(order, v, w) == None then Missing else Flag(false)
    decreases |items|
  {
    hide Equality, IsAmong;
    if items == [] {
      AmongNothing(order, v);
    } else {
      var n := |items| - 1;
      var front, last := items[..n], items[n];
      assert items == front + [last];
      assert forall w :: w in items <==> w in front || w == last;
      AmongUnknown(order, v, front);
      AmongOneMore(order, v, front, last);
    }
  }

  lemma AmongNothing(order: Order, v: Value)
    ensures IsAmong(order, v, []) == Flag(false)
  {
  }

  lemma AmongOneMore(order: Order, v: Value, items: seq<Value>, w: Value)
    requires Equality(order, v, w) != Some(true) && IsAmong(order, v, items) in {Missing, Flag(false)}
    ensures IsAmong(order, v, items + [w]) ==
            if Equality(order, v, w) == None || IsAmong(order, v, items) == Missing then Missing else Flag(false)
  {
    hide Equality;
    OneOfThree(Equality(order, v, w));
    assert (items + [w])[..|items|] == items;
  }

  lemma InNullability(left: Type, items: seq<Type>, optionalList: bool)
    requires InType(left, items, optionalList).Ok?
    ensures NullOrOptional(InType(left, items, optionalList).value) <==> AnyNullOrOptional([left] + items) || optionalList
    ensures AllAccepted([left] + items) && CommonType([left] + items).Ok? && items != []
  {
    hide CommonType, Accepted, AnyNullOrOptional;
    CommonNullability([left] + items);
  }

  lemma InWitness(left: Type, items: seq<Type>) returns (v: Value, vs: seq<Value>)
    requires InType(left, items, false).Ok? && NullOrOptional(InType(left, items, false).value)
    ensures Conforms(v, left) && AllConform(vs, items) && IsAmong(Sharp, v, vs) == Missing
  {
    hide CommonType, Accepted, Conforms, Pick, Equality, NullOrOptional, InType, IsAmong;
    var all := [left] + items;
    InNullability(left, items, false);
    assert left in all && forall t <- items :: t in all;
    AcceptedPick(left, false);
    vs := Worst(items, true);
    AcceptedWorst(items, true);
    v := if NullOrOptional(left) then Missing else Pick(left, false);
    forall w | w in vs ensures Equality(Sharp, v, w) != Some(true) {
      var i :| 0 <= i < |vs| && vs[i] == w;
      NullIsNotEqual(Sharp, v);
      NullIsNotEqual(Sharp, w);
      OperandsMatch(all, left, items[i]);
    }
    AmongUnknown(Sharp, v, vs);
    if NullOrOptional(left) {
      NullIsNotEqual(Sharp, vs[0]);
      assert vs[0] in vs;
    } else {
      assert AnyNullOrOptional(items);
      NullIsNotEqual(Sharp, v);
    }
  }

  lemma InOnParameters(names: seq<string>, types: seq<Type>)
    requires DistinctStrings(names) && |names| == |types| >= 1
    ensures var e, scope := InValues(Bind(names[0]), Binds(names[1..])), ScopeOf(names, types);
            Resolve(e, scope).Ok? ==> Resolve(e, scope) == InType(types[0], types[1..], false)
    ensures forall order: Order, vs: seq<Value> | |vs| == |names| ::
              Evaluate(order, InValues(Bind(names[0]), Binds(names[1..])), EnvironmentOf(names, vs)) ==
              Some(IsAmong(order, vs[0], vs[1..]))
  {
    hide ResolveAll, EvaluateAll, ScopeOf, EnvironmentOf, InType, IsAmong, IsListBind;
    ParameterResolves(names, types, 0);
    ParametersResolve(names, types, 1, |names|);
    assert names[1..|names|] == names[1..] && types[1..|names|] == types[1..];
    forall order: Order, vs: seq<Value> | |vs| == |names|
      ensures Evaluate(order, InValues(Bind(names[0]), Binds(names[1..])), EnvironmentOf(names, vs)) ==
              Some(IsAmong(order, vs[0], vs[1..]))
    {
      ParameterEvaluates(order, names, vs, 0);
      ParametersEvaluate(order, names, vs, 1, |names|);
      assert vs[1..|names|] == vs[1..];
    }
  }

  /** IN over values is typed Optional exactly when some values make it NULL. */
  lemma InValuesIsExact(names: seq<string>, types: seq<Type>)
    requires DistinctStrings(names) && |names| == |types| >= 1
    requires Resolve(InValues(Bind(names[0]), Binds(names[1..])), ScopeOf(names, types)).Ok? && AllDecidable(types)
    ensures var e := InValues(Bind(names[0]), Binds(names[1..]));
            TypedNullable(e, names, types) <==> CanBeNull(e, names, types)
  {
    hide Resolve, Evaluate, ScopeOf, EnvironmentOf, InType, IsAmong, Conforms, NullOrOptional, CanBeNull, Decided, Decidable;
    var e := InValues(Bind(names[0]), Binds(names[1..]));
    InOnParameters(names, types);
    assert types == [types[0]] + types[1..];
    if TypedNullable(e, names, types) {
      var v, vs := InWitness(types[0], types[1..]);
      SharpIsDecided();
      assert ([v] + vs)[1..] == vs;
      MakesNull(e, names, types, Sharp, [v] + vs);
    }
    if CanBeNull(e, names, types) {
      var order, vs := NullArguments(e, names, types);
      assert types[0] in types && forall t <- types[1..] :: t in types;
      InValuesSound(order, types[0], types[1..], vs[0], vs[1..]);
      NullConformsToNullable(InType(types[0], types[1..], false).value);
    }
  }

  lemma InListOnParameters(names: seq<string>, types: seq<Type>)
    requires DistinctStrings(names) && |names| == |types| == 2
    ensures Resolve(InList(Bind(names[0]), Bind(names[1])), ScopeOf(names, types)) == InListType(types[0], types[1])
    ensures forall order: Order, vs: seq<Value> | |vs| == 2 ::
              Evaluate(order, InList(Bind(names[0]), Bind(names[1])), EnvironmentOf(names, vs)) ==
              Some(if vs[1].Items? then IsAmong(order, vs[0], vs[1].items) else Missing)
  {
    hide ScopeOf, EnvironmentOf, InListType, IsAmong;
    ParameterResolves(names, types, 0);
    ParameterResolves(names, types, 1);
    forall order: Order, vs: seq<Value> | |vs| == 2
      ensures Evaluate(order, InList(Bind(names[0]), Bind(names[1])), EnvironmentOf(names, vs)) ==
              Some(if vs[1].Items? then IsAmong(order, vs[0], vs[1].items) else Missing)
    {
      ParameterEvaluates(order, names, vs, 0);
      ParameterEvaluates(order, names, vs, 1);
    }
  }

  lemma ListOfOne(list: Type, item: Value)
    requires Unwrap(list).kind == List && Unwrap(list).elem.Some? && Conforms(item, Unwrap(list).elem.value)
    ensures Conforms(Items([item]), list)
  {
  }

  lemma InListWitness(left: Type, list: Type) returns (v: Value, w: Value)
    requires InListType(left, list).Ok? && NullOrOptional(InListType(left, list).value)
    ensures Conforms(v, left) && Conforms(w, list)
    ensures (if w.Items? then IsAmong(Sharp, v, w.items) else Missing) == Missing
  {
    hide CommonType, Accepted, Conforms, Pick, Equality, NullOrOptional, InType;
    var item := Unwrap(list).elem.value;
    InNullability(left, [item], IsOptional(list));
    assert [left] + [item] == [left, item];
    assert left in [left, item] && item in [left, item];
    AcceptedPick(left, false);
    AcceptedPick(item, false);
    if IsOptional(list) {
      MissingConforms(list);
      v, w := Pick(left, false), Missing;
    } else {
      v := if NullOrOptional(left) then Missing else Pick(left, false);
      w := Items([if NullOrOptional(left) then Pick(item, false) else Missing]);
      assert NullOrOptional(left) || NullOrOptional(item);
      ListOfOne(list, w.items[0]);
      NullIsNotEqual(Sharp, v);
      NullIsNotEqual(Sharp, w.items[0]);
      assert w.items[0] in w.items;
      AmongUnknown(Sharp, v, w.items);
    }
  }

  /** IN over a list is typed Optional exactly when some value and some list make it NULL. */
  lemma InListIsExact(names: seq<string>, types: seq<Type>)
    requires DistinctStrings(names) && |names| == |types| == 2
    requires Resolve(InList(Bind(names[0]), Bind(names[1])), ScopeOf(names, types)).Ok?
    requires Decidable(types[0]) && (CallbackItem(types[1]).Ok? ==> Decidable(CallbackItem(types[1]).value))
    ensures var e := InList(Bind(names[0]), Bind(names[1]));
            TypedNullable(e, names, types) <==> CanBeNull(e, names, types)
  {
    hide Resolve, Evaluate, ScopeOf, EnvironmentOf, InType, IsAmong, Conforms, NullOrOptional, CanBeNull, Decided, Decidable;
    var e := InList(Bind(names[0]), Bind(names[1]));
    InListOnParameters(names, types);
    if TypedNullable(e, names, types) {
      var v, w := InListWitness(types[0], types[1]);
      SharpIsDecided();
      MakesNull(e, names, types, Sharp, [v, w]);
    }
    if CanBeNull(e, names, types) {
      var order, vs := NullArguments(e, names, types);
      InListSound(order, types[0], types[1], vs[0], vs[1]);
      NullConformsToNullable(InListType(types[0], types[1]).value);
    }
  }

  // ---------------------------------------------------------------- CASE

  ghost function Test(order: Order, selector: Option<Value>, condition: Value): Value {
    if selector.None? then condition else ComparePair(order, Equals, selector.value, condition)
  }

  lemma {:induction false} ChooseFirst(order: Order, selector: Option<Value>, conditions: seq<Value>, results: seq<Value>,
                                       otherwise: Value, which: nat)
    requires |conditions| == |results| && which <= |results|
    requires forall i | 0 <= i < which :: Test(order, selector, conditions[i]) != Flag(true)
    requires which < |results| ==> Test(order, selector, conditions[which]) == Flag(true)
    ensures Choose(order, selector, conditions, results, otherwise) == if which < |results| then results[which] else otherwise
    decreases which
  {
    hide ComparePair;
    if which > 0 {
      assert Test(order, selector, conditions[0]) != Flag(true);
      forall i | 0 <= i < which - 1 ensures Test(order, selector, conditions[1..][i]) != Flag(true) {
        assert conditions[1..][i] == conditions[i + 1];
      }
      ChooseFirst(order, selector, conditions[1..], results[1..], otherwise, which - 1);
    }
  }

  lemma {:induction false} ChosenByTest(order: Order, selector: Option<Value>, conditions: seq<Value>, results: seq<Value>,
                                        otherwise: Value) returns (which: nat)
    requires |conditions| == |results|
    ensures which <= |results|
    ensures which < |results| ==> Test(order, selector, conditions[which]) == Flag(true)
    ensures Choose(order, selector, conditions, results, otherwise) == if which < |results| then results[which] else otherwise
    decreases |results|
  {
    hide ComparePair;
    which := 0;
    if conditions != [] && Test(order, selector, conditions[0]) != Flag(true) {
      which := ChosenByTest(order, selector, conditions[1..], results[1..], otherwise);
      which := which + 1;
    }
  }

  /** A WHEN can hold at all: it is not the literal NULL, and neither it nor the selector must hold a NULL. */
  predicate CanHold(selector: Option<Type>, condition: Type) {
    match selector
    case None => condition.kind != Null
    case Some(s) => Matchable(s) && Matchable(condition)
  }

  lemma TrueCanHold(order: Order, selectorType: Option<Type>, selector: Option<Value>, t: Type, condition: Value)
    requires selectorType.Some? == selector.Some? && Conforms(condition, t)
    requires selector.Some? ==> Conforms(selector.value, selectorType.value)
    requires Test(order, selector, condition) == Flag(true)
    ensures CanHold(selectorType, t)
  {
    hide Equality, Matchable;
    if selector.Some? {
      if !Matchable(t) { UnmatchableIsNotEqual(order, t, selector.value, condition); }
      if !Matchable(selectorType.value) { UnmatchableIsNotEqual(order, selectorType.value, selector.value, condition); }
    }
  }

  lemma TestPick(selector: Option<Type>, condition: Type, holds: bool) returns (v: Value)
    requires ConditionAllowed(selector, condition) && (holds ==> CanHold(selector, condition))
    ensures Conforms(v, condition)
    ensures selector.Some? ==> Conforms(Pick(selector.value, false), selector.value)
    ensures var s := if selector.Some? then Some(Pick(selector.value, false)) else None;
            Test(Sharp, s, v) == Flag(true) <==> holds
  {
    if selector.None? {
      v := if condition.kind == Null then Missing else Flag(holds);
    } else {
      hide Conforms, Pick, Equality, CommonType, Accepted, Matchable;
      var types := [selector.value, condition];
      CommonTypeSucceeds(types);
      assert selector.value in types && condition in types;
      AcceptedPick(selector.value, false);
      AcceptedPick(condition, !holds);
      OperandsMatch(types, selector.value, condition);
      v := Pick(condition, !holds);
    }
  }

  lemma CaseNullability(selector: Option<Type>, conditions: seq<Type>, results: seq<Type>, otherwise: Type)
    requires CaseType(selector, conditions, results, otherwise).Ok?
    ensures NullOrOptional(CaseType(selector, conditions, results, otherwise).value) <==>
            AnyNullOrOptional(results + [otherwise])
    ensures AllAccepted(results + [otherwise])
  {
    hide CommonType, Accepted, AnyNullOrOptional, ConditionAllowed;
    CommonNullability(results + [otherwise]);
  }

  lemma {:induction false} TestPicks(selector: Option<Type>, conditions: seq<Type>, which: nat) returns (vs: seq<Value>)
    requires forall c <- conditions :: ConditionAllowed(selector, c)
    requires which < |conditions| ==> CanHold(selector, conditions[which])
    ensures AllConform(vs, conditions)
    ensures var s := if selector.Some? then Some(Pick(selector.value, false)) else None;
            forall i | 0 <= i < |vs| :: Test(Sharp, s, vs[i]) == Flag(true) <==> i == which
    decreases |conditions|
  {
    hide Conforms, Pick, ConditionAllowed, CanHold, Test;
    vs := [];
    if conditions != [] {
      var n := |conditions| - 1;
      assert conditions[n] in conditions && forall c <- conditions[..n] :: c in conditions;
      var before := TestPicks(selector, conditions[..n], if which < n then which else n);
      var v := TestPick(selector, conditions[n], which == n);
      vs := before + [v];
    }
  }

  /** Some operands lead to a NULL in the branch at `which`, ELSE being the last. */
  lemma CaseWitness(selector: Option<Type>, conditions: seq<Type>, results: seq<Type>, otherwise: Type, which: nat)
    returns (s: Option<Value>, cs: seq<Value>, rs: seq<Value>, o: Value)
    requires CaseType(selector, conditions, results, otherwise).Ok? && which <= |results|
    requires if which < |results| then NullOrOptional(results[which]) && CanHold(selector, conditions[which])
             else NullOrOptional(otherwise)
    ensures s.Some? == selector.Some? && (s.Some? ==> Conforms(s.value, selector.value))
    ensures AllConform(cs, conditions) && AllConform(rs, results) && Conforms(o, otherwise)
    ensures Choose(Sharp, s, cs, rs, o) == Missing
  {
    hide Conforms, Pick, ConditionAllowed, CanHold, Test, CommonType, Accepted, Choose, NullOrOptional;
    CaseNullability(selector, conditions, results, otherwise);
    cs := TestPicks(selector, conditions, which);
    s := if selector.Some? then Some(Pick(selector.value, false)) else None;
    if selector.Some? {
      assert conditions[0] in conditions;
      var v := TestPick(selector, conditions[0], false);
    }
    var branches, values := results + [otherwise], Worst(results + [otherwise], false);
    AcceptedWorst(branches, false);
    rs, o := values[..|results|], values[|results|];
    assert branches[|results|] == otherwise && forall i | 0 <= i < |results| :: branches[i] == results[i];
    WorstAt(branches, false, which);
    ChooseFirst(Sharp, s, cs, rs, o, which);
  }

  /** CASE on parameters: the selector if there is one, the conditions, the results, and ELSE. */
  function CaseOf(selected: bool, n: nat, names: seq<string>): Expr
    requires |names| == (if selected then 1 else 0) + 2 * n + 1
  {
    var k := if selected then 1 else 0;
    Case(if selected then Some(Bind(names[0])) else None,
         Binds(names[k..k + n]), Binds(names[k + n..k + 2 * n]), Bind(names[k + 2 * n]))
  }

  function First<T>(selected: bool, xs: seq<T>): Option<T>
    requires selected ==> xs != []
  {
    if selected then Some(xs[0]) else None
  }

  lemma CaseOnParameters(selected: bool, n: nat, names: seq<string>, types: seq<Type>)
    requires DistinctStrings(names) && |names| == |types| == (if selected then 1 else 0) + 2 * n + 1
    ensures var k := if selected then 1 else 0;
            && Resolve(CaseOf(selected, n, names), ScopeOf(names, types)) ==
               CaseType(First(selected, types), types[k..k + n], types[k + n..k + 2 * n], types[k + 2 * n])
            && forall order: Order, vs: seq<Value> | |vs| == |names| ::
                 Evaluate(order, CaseOf(selected, n, names), EnvironmentOf(names, vs)) ==
                 Some(Choose(order, First(selected, vs), vs[k..k + n], vs[k + n..k + 2 * n], vs[k + 2 * n]))
  {
    hide ResolveAll, EvaluateAll, ScopeOf, EnvironmentOf, CaseType, Choose, Binds;
    var k := if selected then 1 else 0;
    ParameterResolves(names, types, 0);
    ParameterResolves(names, types, k + 2 * n);
    ParametersResolve(names, types, k, k + n);
    ParametersResolve(names, types, k + n, k + 2 * n);
    forall order: Order, vs: seq<Value> | |vs| == |names|
      ensures Evaluate(order, CaseOf(selected, n, names), EnvironmentOf(names, vs)) ==
              Some(Choose(order, First(selected, vs), vs[k..k + n], vs[k + n..k + 2 * n], vs[k + 2 * n]))
    {
      ParameterEvaluates(order, names, vs, 0);
      ParameterEvaluates(order, names, vs, k + 2 * n);
      ParametersEvaluate(order, names, vs, k, k + n);
      ParametersEvaluate(order, names, vs, k + n, k + 2 * n);
    }
  }

  /** ELSE may be NULL, or some result whose WHEN can hold. */
  predicate SomeBranchIsNull(selector: Option<Type>, conditions: seq<Type>, results: seq<Type>, otherwise: Type)
    requires |conditions| == |results|
  {
    || NullOrOptional(otherwise)
    || exists i | 0 <= i < |results| :: NullOrOptional(results[i]) && CanHold(selector, conditions[i])
  }

  lemma CaseArguments(selected: bool, n: nat, names: seq<string>, types: seq<Type>)
    requires DistinctStrings(names) && |names| == |types| == (if selected then 1 else 0) + 2 * n + 1
    requires Resolve(CaseOf(selected, n, names), ScopeOf(names, types)).Ok? && CanBeNull(CaseOf(selected, n, names), names, types)
    ensures var k := if selected then 1 else 0;
            SomeBranchIsNull(First(selected, types), types[k..k + n], types[k + n..k + 2 * n], types[k + 2 * n])
  {
    hide Resolve, Evaluate, ScopeOf, EnvironmentOf, CaseType, Choose, Conforms, NullOrOptional, CanBeNull, Decided, CanHold,
         Test, CaseOf;
    var k := if selected then 1 else 0;
    var e := CaseOf(selected, n, names);
    CaseOnParameters(selected, n, names, types);
    var order, vs := NullArguments(e, names, types);
    var cs, rs := vs[k..k + n], vs[k + n..k + 2 * n];
    var which := ChosenByTest(order, First(selected, vs), cs, rs, vs[k + 2 * n]);
    if which < n {
      assert vs[k + n + which] == Missing;
      NullConformsToNullable(types[k + n + which]);
      assert cs[which] == vs[k + which];
      TrueCanHold(order, First(selected, types), First(selected, vs), types[k + which], cs[which]);
    } else {
      NullConformsToNullable(types[k + 2 * n]);
    }
  }

  lemma FourParts<T>(front: seq<T>, xs: seq<T>, ys: seq<T>, last: T)
    ensures var all, k := front + xs + ys + [last], |front|;
            && all[k..k + |xs|] == xs && all[k + |xs|..k + |xs| + |ys|] == ys && all[k + |xs| + |ys|] == last
  {
  }

  lemma CaseCanBeNull(selected: bool, n: nat, names: seq<string>, types: seq<Type>)
    requires DistinctStrings(names) && |names| == |types| == (if selected then 1 else 0) + 2 * n + 1
    requires Resolve(CaseOf(selected, n, names), ScopeOf(names, types)).Ok?
    requires var k := if selected then 1 else 0;
             SomeBranchIsNull(First(selected, types), types[k..k + n], types[k + n..k + 2 * n], types[k + 2 * n])
    ensures CanBeNull(CaseOf(selected, n, names), names, types)
  {
    hide Resolve, Evaluate, ScopeOf, EnvironmentOf, CaseType, Choose, Conforms, NullOrOptional, CanBeNull, Decided, CanHold,
         CaseOf, AllConform;
    var k := if selected then 1 else 0;
    CaseOnParameters(selected, n, names, types);
    var selector, conditions, results, otherwise :=
      First(selected, types), types[k..k + n], types[k + n..k + 2 * n], types[k + 2 * n];
    var which := n;
    if !NullOrOptional(otherwise) {
      which :| 0 <= which < n && NullOrOptional(results[which]) && CanHold(selector, conditions[which]);
    }
    var s, cs, rs, o := CaseWitness(selector, conditions, results, otherwise, which);
    ConformingLength(cs, conditions);
    ConformingLength(rs, results);
    var front: seq<Value> := if selected then [s.value] else [];
    var vs := front + cs + rs + [o];
    FourParts(front, cs, rs, o);
    assert First(selected, vs) == s;
    CaseConforms(selected, n, types, s, cs, rs, o, vs);
    SharpIsDecided();
    MakesNull(CaseOf(selected, n, names), names, types, Sharp, vs);
  }

  /**
   * CASE is typed Optional exactly when a branch is Optional or Null.  Some operands make it NULL exactly when ELSE may be
   * NULL or a result may be whose WHEN can hold; so the type is exact wherever every WHEN can hold.
   */
  lemma CaseIsExact(selected: bool, n: nat, names: seq<string>, types: seq<Type>)
    requires DistinctStrings(names) && |names| == |types| == (if selected then 1 else 0) + 2 * n + 1
    requires Resolve(CaseOf(selected, n, names), ScopeOf(names, types)).Ok?
    ensures var k := if selected then 1 else 0;
            && (TypedNullable(CaseOf(selected, n, names), names, types) <==>
                exists i | k + n <= i < |types| :: NullOrOptional(types[i]))
            && (CanBeNull(CaseOf(selected, n, names), names, types) <==>
                SomeBranchIsNull(First(selected, types), types[k..k + n], types[k + n..k + 2 * n], types[k + 2 * n]))
  {
    hide Resolve, Evaluate, ScopeOf, EnvironmentOf, CaseType, Choose, NullOrOptional, CanBeNull, CanHold, CaseOf,
         SomeBranchIsNull;
    var k := if selected then 1 else 0;
    CaseOnParameters(selected, n, names, types);
    var results, otherwise := types[k + n..k + 2 * n], types[k + 2 * n];
    CaseNullability(First(selected, types), types[k..k + n], results, otherwise);
    BranchAt(results, otherwise, types, k + n);
    if SomeBranchIsNull(First(selected, types), types[k..k + n], results, otherwise) {
      CaseCanBeNull(selected, n, names, types);
    }
    if CanBeNull(CaseOf(selected, n, names), names, types) {
      CaseArguments(selected, n, names, types);
    }
  }

  lemma CaseConforms(selected: bool, n: nat, types: seq<Type>, s: Option<Value>, cs: seq<Value>, rs: seq<Value>, o: Value,
                     vs: seq<Value>)
    requires |types| == (if selected then 1 else 0) + 2 * n + 1 && s.Some? == selected
    requires s.Some? ==> Conforms(s.value, types[0])
    requires var k := if selected then 1 else 0;
             AllConform(cs, types[k..k + n]) && AllConform(rs, types[k + n..k + 2 * n]) && Conforms(o, types[k + 2 * n])
    requires vs == (if selected then [s.value] else []) + cs + rs + [o]
    ensures AllConform(vs, types)
  {
    hide Conforms;
    var k := if selected then 1 else 0;
    forall i | 0 <= i < |vs| ensures Conforms(vs[i], types[i]) {
      if k <= i < k + n {
        assert vs[i] == cs[i - k] && types[k..k + n][i - k] == types[i];
      } else if k + n <= i < k + 2 * n {
        assert vs[i] == rs[i - k - n] && types[k + n..k + 2 * n][i - k - n] == types[i];
      }
    }
  }

  lemma ConformingLength(vs: seq<Value>, types: seq<Type>)
    requires AllConform(vs, types)
    ensures |vs| == |types|
  {
  }

  lemma BranchAt(results: seq<Type>, otherwise: Type, types: seq<Type>, lo: nat)
    requires lo < |types| && results == types[lo..|types| - 1] && otherwise == types[|types| - 1]
    ensures AnyNullOrOptional(results + [otherwise]) <==> exists i | lo <= i < |types| :: NullOrOptional(types[i])
  {
    hide NullOrOptional;
    var branches := results + [otherwise];
    assert forall j | 0 <= j < |branches| :: branches[j] == types[lo + j];
    if t :| t in branches && NullOrOptional(t) {
      var j :| 0 <= j < |branches| && branches[j] == t;
      assert NullOrOptional(types[lo + j]);
    }
    if i :| lo <= i < |types| && NullOrOptional(types[i]) {
      assert branches[i - lo] == types[i] && branches[i - lo] in branches;
    }
  }

  // ---------------------------------------------------------------- IF and COALESCE

  lemma IfOnParameters(names: seq<string>, types: seq<Type>)
    requires DistinctStrings(names) && |names| == |types|
    ensures Resolve(If(Binds(names)), ScopeOf(names, types)) == IfType(types)
    ensures forall order: Order, vs: seq<Value> | |vs| == |names| ::
              Evaluate(order, If(Binds(names)), EnvironmentOf(names, vs)) == Some(IfValue(vs))
  {
    hide ResolveAll, EvaluateAll, ScopeOf, EnvironmentOf, IfType, IfValue;
    AllParameters(names, types);
  }

  lemma ConditionPick(t: Type, holds: bool)
    requires BaseOf(t).Ok? && BaseOf(t).value.typ.kind == Bool
    ensures Conforms(Flag(holds), t)
  {
    hide Valid;
  }

  lemma IfWitness(types: seq<Type>) returns (vs: seq<Value>)
    requires IfType(types).Ok? && NullOrOptional(IfType(types).value)
    ensures AllConform(vs, types) && IfValue(vs) == Missing
  {
    hide CommonType, BaseOf, Conforms, Pick, NullOrOptional, Accepted;
    ConditionPick(types[0], true);
    ConditionPick(types[0], false);
    var branches := if |types| == 2 then [types[1], Plain(Null)] else types[1..];
    CommonNullability(branches);
    assert types[1] == branches[0] && branches[0] in branches && branches[1] in branches;
    AcceptedPick(types[1], false);
    if |types| == 2 {
      vs := [Flag(false), Pick(types[1], false)];
    } else {
      assert types[2] == branches[1];
      AcceptedPick(types[2], false);
      vs := if NullOrOptional(types[1]) then [Flag(true), Missing, Pick(types[2], false)]
            else [Flag(false), Pick(types[1], false), Missing];
      assert NullOrOptional(types[1]) || NullOrOptional(types[2]) by {
        assert branches == [types[1], types[2]];
      }
    }
  }

  /** IF is typed Optional exactly when some arguments make it NULL; with two arguments it always is. */
  lemma IfIsExact(names: seq<string>, types: seq<Type>)
    requires DistinctStrings(names) && |names| == |types|
    requires Resolve(If(Binds(names)), ScopeOf(names, types)).Ok?
    ensures TypedNullable(If(Binds(names)), names, types) <==> CanBeNull(If(Binds(names)), names, types)
  {
    hide Resolve, Evaluate, ScopeOf, EnvironmentOf, IfType, IfValue, Conforms, NullOrOptional, CanBeNull, Decided;
    var e := If(Binds(names));
    IfOnParameters(names, types);
    if TypedNullable(e, names, types) {
      var vs := IfWitness(types);
      SharpIsDecided();
      MakesNull(e, names, types, Sharp, vs);
    }
    if CanBeNull(e, names, types) {
      var order, vs := NullArguments(e, names, types);
      IfSound(types, vs);
      NullConformsToNullable(IfType(types).value);
    }
  }

  function TypedArguments(types: seq<Type>): (arguments: seq<Argument>)
    ensures |arguments| == |types|
  {
    seq(|types|, i requires 0 <= i < |types| => Argument(types[i], None, false))
  }

  lemma CoalesceOnParameters(names: seq<string>, types: seq<Type>)
    requires DistinctStrings(names) && |names| == |types|
    ensures Resolve(Coalesce(Binds(names)), ScopeOf(names, types)) == CoalesceType(TypedArguments(types))
    ensures forall order: Order, vs: seq<Value> | |vs| == |names| ::
              Evaluate(order, Coalesce(Binds(names)), EnvironmentOf(names, vs)) == Some(FirstPresent(vs))
  {
    hide ResolveAll, EvaluateAll, ScopeOf, EnvironmentOf, CoalesceType, FirstPresent;
    AllParameters(names, types);
    assert CallArguments(Binds(names), types) == TypedArguments(types);
  }

  lemma {:induction false} AllMissing(vs: seq<Value>)
    requires forall v <- vs :: v == Missing
    ensures FirstPresent(vs) == Missing
    decreases |vs|
  {
    if vs != [] {
      var front := vs[..|vs| - 1];
      assert forall v <- front :: v in vs;
      AllMissing(front);
      assert vs[|vs| - 1] in vs;
    }
  }

  lemma NullableTakesMissing(t: Type)
    requires NullOrOptional(t)
    ensures Conforms(Missing, t)
  {
  }

  lemma CoalesceWitness(types: seq<Type>) returns (vs: seq<Value>)
    requires CoalesceType(TypedArguments(types)).Ok? && IsOptional(CoalesceType(TypedArguments(types)).value)
    ensures AllConform(vs, types) && FirstPresent(vs) == Missing
  {
    hide Conforms, CoalesceFold;
    var arguments := TypedArguments(types);
    CoalesceIsOptionalExactly(arguments);
    vs := seq(|types|, _ => Missing);
    forall i | 0 <= i < |types| ensures Conforms(vs[i], types[i]) {
      assert arguments[i] in arguments && arguments[i].typ == types[i];
      NullableTakesMissing(types[i]);
    }
    AllMissing(vs);
  }

  /** COALESCE is typed Optional exactly when some arguments make it NULL. */
  lemma CoalesceIsExact(names: seq<string>, types: seq<Type>)
    requires DistinctStrings(names) && |names| == |types|
    requires Resolve(Coalesce(Binds(names)), ScopeOf(names, types)).Ok?
    ensures TypedNullable(Coalesce(Binds(names)), names, types) <==> CanBeNull(Coalesce(Binds(names)), names, types)
  {
    hide Resolve, Evaluate, ScopeOf, EnvironmentOf, CoalesceFold, FirstPresent, Conforms, CanBeNull, Decided;
    var e := Coalesce(Binds(names));
    CoalesceOnParameters(names, types);
    if TypedNullable(e, names, types) {
      var vs := CoalesceWitness(types);
      SharpIsDecided();
      MakesNull(e, names, types, Sharp, vs);
    }
    if CanBeNull(e, names, types) {
      var order, vs := NullArguments(e, names, types);
      CoalesceFoldSound(TypedArguments(types), vs);
      NullConformsToNullable(CoalesceType(TypedArguments(types)).value);
    }
  }

  // ---------------------------------------------------------------- members and list transforms

  lemma MemberOnParameter(name: string, t: Type, path: seq<string>)
    ensures Resolve(Member(Bind(name), path), ScopeOf([name], [t])) == MemberType(t, path)
    ensures forall order: Order, vs: seq<Value> | |vs| == 1 ::
              Evaluate(order, Member(Bind(name), path), EnvironmentOf([name], vs)) == Some(MemberOf(vs[0], path))
  {
    hide ScopeOf, EnvironmentOf, MemberType, MemberOf;
    ParameterResolves([name], [t], 0);
    forall order: Order, vs: seq<Value> | |vs| == 1
      ensures Evaluate(order, Member(Bind(name), path), EnvironmentOf([name], vs)) == Some(MemberOf(vs[0], path))
    {
      ParameterEvaluates(order, [name], vs, 0);
    }
  }

  lemma {:induction false} FieldNamedAt(fields: seq<Field>, name: string) returns (i: nat)
    requires FieldNamed(fields, name).Some?
    ensures i < |fields| && fields[i].name == name && FieldNamed(fields, name) == Some(fields[i].typ)
  {
    i := 0;
    if fields[0].name != name {
      i := FieldNamedAt(fields[1..], name);
      i := i + 1;
    }
  }

  lemma RecordWith(t: Type, i: nat, w: Value) returns (v: Value)
    requires t.kind == Struct && ValidFields(t.fields) && i < |t.fields| && Conforms(w, t.fields[i].typ)
    ensures Conforms(v, t) && v.Record? && t.fields[i].name in v.members && v.members[t.fields[i].name] == w
  {
    hide Valid, Pick;
    v := Record(FieldPicks(t.fields, false)[t.fields[i].name := w]);
    FieldPickAt(t.fields, false, i);
    forall j | 0 <= j < |t.fields|
      ensures t.fields[j].name in v.members && Conforms(v.members[t.fields[j].name], t.fields[j].typ)
    {
      FieldPickAt(t.fields, false, j);
      PickConforms(t.fields[j].typ, false);
    }
  }

  lemma {:induction false} MemberWitness(t: Type, path: seq<string>) returns (v: Value)
    requires Valid(t) && MemberType(t, path).Ok? && NullOrOptional(MemberType(t, path).value)
    ensures Conforms(v, t) && MemberOf(v, path) == Missing
    decreases path
  {
    hide Valid, Conforms, NullOrOptional;
    v := Missing;
    if path == [] {
      NullableTakesMissing(t);
    } else if IsOptional(t) {
      MissingConforms(t);
      MissingHasNoMembers(path);
    } else {
      ValidParts(t);
      var i := FieldNamedAt(t.fields, path[0]);
      var w := MemberWitness(t.fields[i].typ, path[1..]);
      v := RecordWith(t, i, w);
    }
  }

  /** A member path is typed Optional or Null exactly when some base value makes it NULL. */
  lemma MemberIsExact(name: string, t: Type, path: seq<string>)
    requires Valid(t) && Resolve(Member(Bind(name), path), ScopeOf([name], [t])).Ok?
    ensures TypedNullable(Member(Bind(name), path), [name], [t]) <==> CanBeNull(Member(Bind(name), path), [name], [t])
  {
    hide Resolve, Evaluate, ScopeOf, EnvironmentOf, MemberType, MemberOf, Conforms, Valid, NullOrOptional, CanBeNull, Decided;
    var e := Member(Bind(name), path);
    MemberOnParameter(name, t, path);
    if TypedNullable(e, [name], [t]) {
      var v := MemberWitness(t, path);
      SharpIsDecided();
      MakesNull(e, [name], [t], Sharp, [v]);
    }
    if CanBeNull(e, [name], [t]) {
      var order, vs := NullArguments(e, [name], [t]);
      MemberSound(t, path, vs[0]);
      NullConformsToNullable(MemberType(t, path).value);
    }
  }

  /** A struct literal gives each member back with the type it was written with. */
  lemma {:induction false} StructThenMember(names: seq<string>, types: seq<Type>, i: nat)
    requires StructType(names, types).Ok? && i < |names|
    ensures MemberType(StructType(names, types).value, [names[i]]) == Ok(types[i])
  {
    hide Valid;
    var t := StructType(names, types).value;
    FirstNamed(t.fields, i);
    assert t.fields[i] == Field(names[i], types[i]);
    assert [names[i]][1..] == [];
    assert MemberStep(t, names[i]) == Ok(types[i]);
  }

  lemma {:induction false} FirstNamed(fields: seq<Field>, i: nat)
    requires DistinctNames(fields) && i < |fields|
    ensures FieldNamed(fields, fields[i].name) == Some(fields[i].typ)
    decreases i
  {
    if i > 0 {
      FirstNamed(fields[1..], i - 1);
    }
  }

  /** A list literal hands its callbacks the common type of its items, ListMap the results, ListFilter the items. */
  lemma ItemsOfLists(types: seq<Type>, list: Type, result: Type)
    ensures AsListType(types).Ok? ==> CallbackItem(AsListType(types).value) == CommonType(types)
    ensures ListApplyType(false, list, result).Ok? ==> CallbackItem(ListApplyType(false, list, result).value) == Ok(result)
    ensures ListApplyType(true, list, result).Ok? ==>
              CallbackItem(ListApplyType(true, list, result).value) == CallbackItem(list)
  {
    hide CommonType, Valid;
  }

  lemma ListApplyOnParameter(name: string, t: Type, filter: bool, callback: Callback)
    requires Resolve(ListApply(filter, Bind(name), callback), ScopeOf([name], [t])).Ok?
    ensures Unwrap(t).kind == List && Unwrap(t).elem.Some?
    ensures NullOrOptional(Resolve(ListApply(filter, Bind(name), callback), ScopeOf([name], [t])).value) <==> IsOptional(t)
    ensures forall order: Order, vs: seq<Value> | |vs| == 1 ::
              && (vs[0] == Missing ==>
                    Evaluate(order, ListApply(filter, Bind(name), callback), EnvironmentOf([name], vs)) == Some(Missing))
              && (vs[0].Items? ==>
                    Evaluate(order, ListApply(filter, Bind(name), callback), EnvironmentOf([name], vs)) != Some(Missing))
  {
    hide ScopeOf, EnvironmentOf, ResolveCallback, EvaluateCallback, Valid;
    ParameterResolves([name], [t], 0);
    forall order: Order, vs: seq<Value> | |vs| == 1
      ensures vs[0] == Missing ==>
                Evaluate(order, ListApply(filter, Bind(name), callback), EnvironmentOf([name], vs)) == Some(Missing)
      ensures vs[0].Items? ==>
                Evaluate(order, ListApply(filter, Bind(name), callback), EnvironmentOf([name], vs)) != Some(Missing)
    {
      ParameterEvaluates(order, [name], vs, 0);
    }
  }

  /** ListMap and ListFilter are typed Optional exactly when some list makes them NULL, whatever the callback. */
  lemma ListApplyIsExact(name: string, t: Type, filter: bool, callback: Callback)
    requires Resolve(ListApply(filter, Bind(name), callback), ScopeOf([name], [t])).Ok?
    ensures var e := ListApply(filter, Bind(name), callback);
            TypedNullable(e, [name], [t]) <==> CanBeNull(e, [name], [t])
  {
    hide ScopeOf, EnvironmentOf, CanBeNull, Decided, Conforms, Resolve, Evaluate;
    var e := ListApply(filter, Bind(name), callback);
    ListApplyOnParameter(name, t, filter, callback);
    if TypedNullable(e, [name], [t]) {
      SharpIsDecided();
      NullableTakesMissing(t);
      MakesNull(e, [name], [t], Sharp, [Missing]);
    }
    if CanBeNull(e, [name], [t]) {
      var order, vs := NullArguments(e, [name], [t]);
      AbsentList(vs[0], t);
    }
  }
}
