/** Expressions over parameters, and enough values of every type to make them answer NULL where they can. */
module Witnesses {
  import opened Wrappers
  import opened Types
  import opened CommonTypes
  import opened Expressions
  import opened TypingRules
  import opened Resolver
  import opened Comparisons
  import opened Evaluation
  import opened Conformance
  import opened RuleSoundness

  // ---------------------------------------------------------------- an operator on parameters

  function Binds(names: seq<string>): (es: seq<Expr>)
    ensures |es| == |names|
  {
    seq(|names|, i requires 0 <= i < |names| => Bind(names[i]))
  }

  function ScopeOf(names: seq<string>, types: seq<Type>): Scope
    requires |names| == |types|
  {
    Scope([], BindAll(map[], names, types), Lambdas(map[]))
  }

  function EnvironmentOf(names: seq<string>, vs: seq<Value>): Environment
    requires |names| == |vs|
  {
    Environment([], [], BindAll(map[], names, vs), Lambdas(map[]))
  }

  /** Some engine and some arguments of the parameters' types make the expression NULL. */
  ghost predicate CanBeNull(e: Expr, names: seq<string>, types: seq<Type>)
    requires |names| == |types|
  {
    exists order: Order, vs: seq<Value> ::
      Decided(order) && AllConform(vs, types) && Evaluate(order, e, EnvironmentOf(names, vs)) == Some(Missing)
  }

  ghost predicate TypedNullable(e: Expr, names: seq<string>, types: seq<Type>)
    requires |names| == |types| && Resolve(e, ScopeOf(names, types)).Ok?
  {
    NullOrOptional(Resolve(e, ScopeOf(names, types)).value)
  }

  lemma MakesNull(e: Expr, names: seq<string>, types: seq<Type>, order: Order, vs: seq<Value>)
    requires |names| == |types| == |vs| && Decided(order) && AllConform(vs, types)
    requires Evaluate(order, e, EnvironmentOf(names, vs)) == Some(Missing)
    ensures CanBeNull(e, names, types)
  {
    hide Evaluate, Conforms, Decided;
  }

  lemma NullArguments(e: Expr, names: seq<string>, types: seq<Type>) returns (order: Order, vs: seq<Value>)
    requires |names| == |types| && CanBeNull(e, names, types)
    ensures |vs| == |names| && Decided(order) && AllConform(vs, types)
    ensures Evaluate(order, e, EnvironmentOf(names, vs)) == Some(Missing)
  {
    hide Evaluate, Conforms, Decided;
    order, vs :| Decided(order) && AllConform(vs, types) && Evaluate(order, e, EnvironmentOf(names, vs)) == Some(Missing);
  }

  lemma ParameterResolves(names: seq<string>, types: seq<Type>, i: nat)
    requires DistinctStrings(names) && |names| == |types| && i < |names|
    ensures Resolve(Bind(names[i]), ScopeOf(names, types)) == Ok(types[i])
  {
    BindAllLooksUp(map[], names, types, i);
  }

  lemma ParameterEvaluates(order: Order, names: seq<string>, vs: seq<Value>, i: nat)
    requires DistinctStrings(names) && |names| == |vs| && i < |names|
    ensures Evaluate(order, Bind(names[i]), EnvironmentOf(names, vs)) == Some(vs[i])
  {
    BindAllLooksUp(map[], names, vs, i);
  }

  lemma BindsOneMore(names: seq<string>, last: string)
    ensures var es := Binds(names + [last]);
            |es| == |names| + 1 && es[..|es| - 1] == Binds(names) && es[|es| - 1] == Bind(last)
  {
    var es := Binds(names + [last]);
    assert forall i | 0 <= i < |names| :: es[..|names|][i] == Binds(names)[i];
  }

  lemma OneMore<T>(s: seq<T>, lo: nat, hi: nat)
    requires lo < hi <= |s|
    ensures s[lo..hi] == s[lo..hi - 1] + [s[hi - 1]]
  {
  }

  lemma ResolveOneMore(es: seq<Expr>, scope: Scope, types: seq<Type>, t: Type)
    requires es != [] && ResolveAll(es[..|es| - 1], scope) == Ok(types) && Resolve(es[|es| - 1], scope) == Ok(t)
    ensures ResolveAll(es, scope) == Ok(types + [t])
  {
    hide Resolve;
  }

  lemma EvaluateOneMore(order: Order, es: seq<Expr>, environment: Environment, vs: seq<Value>, v: Value)
    requires es != [] && EvaluateAll(order, es[..|es| - 1], environment) == Some(vs)
    requires Evaluate(order, es[|es| - 1], environment) == Some(v)
    ensures EvaluateAll(order, es, environment) == Some(vs + [v])
  {
    hide Evaluate;
  }

  lemma {:induction false} ParametersResolve(names: seq<string>, types: seq<Type>, lo: nat, hi: nat)
    requires DistinctStrings(names) && |names| == |types| && lo <= hi <= |names|
    ensures ResolveAll(Binds(names[lo..hi]), ScopeOf(names, types)) == Ok(types[lo..hi])
    decreases hi
  {
    hide Resolve, ScopeOf, ResolveAll, Binds;
    if lo == hi {
      assert names[lo..hi] == [] && types[lo..hi] == [];
      NoParameters();
    } else {
      ParametersResolve(names, types, lo, hi - 1);
      OneMore(names, lo, hi);
      BindsOneMore(names[lo..hi - 1], names[hi - 1]);
      ParameterResolves(names, types, hi - 1);
      ResolveOneMore(Binds(names[lo..hi]), ScopeOf(names, types), types[lo..hi - 1], types[hi - 1]);
      OneMore(types, lo, hi);
    }
  }

  lemma NoParameters()
    ensures Binds([]) == []
    ensures forall scope: Scope :: ResolveAll([], scope) == Ok([])
    ensures forall order: Order, environment: Environment :: EvaluateAll(order, [], environment) == Some([])
  {
  }

  lemma {:induction false} ParametersEvaluate(order: Order, names: seq<string>, vs: seq<Value>, lo: nat, hi: nat)
    requires DistinctStrings(names) && |names| == |vs| && lo <= hi <= |names|
    ensures EvaluateAll(order, Binds(names[lo..hi]), EnvironmentOf(names, vs)) == Some(vs[lo..hi])
    decreases hi
  {
    hide Evaluate, EnvironmentOf, EvaluateAll, Binds;
    if lo == hi {
      assert names[lo..hi] == [] && vs[lo..hi] == [];
      NoParameters();
    } else {
      ParametersEvaluate(order, names, vs, lo, hi - 1);
      OneMore(names, lo, hi);
      BindsOneMore(names[lo..hi - 1], names[hi - 1]);
      ParameterEvaluates(order, names, vs, hi - 1);
      EvaluateOneMore(order, Binds(names[lo..hi]), EnvironmentOf(names, vs), vs[lo..hi - 1], vs[hi - 1]);
      OneMore(vs, lo, hi);
    }
  }

  /** All parameters in order. */
  lemma AllParameters(names: seq<string>, types: seq<Type>)
    requires DistinctStrings(names) && |names| == |types|
    ensures ResolveAll(Binds(names), ScopeOf(names, types)) == Ok(types)
    ensures forall order: Order, vs: seq<Value> | |vs| == |names| ::
              EvaluateAll(order, Binds(names), EnvironmentOf(names, vs)) == Some(vs)
  {
    hide ResolveAll, EvaluateAll, ScopeOf, EnvironmentOf;
    ParametersResolve(names, types, 0, |names|);
    assert names[0..|names|] == names && types[0..|names|] == types;
    forall order: Order, vs: seq<Value> | |vs| == |names|
      ensures EvaluateAll(order, Binds(names), EnvironmentOf(names, vs)) == Some(vs)
    {
      ParametersEvaluate(order, names, vs, 0, |names|);
      assert vs[0..|names|] == vs;
    }
  }

  // ---------------------------------------------------------------- two values of each type

  /** One of two values of a type, with no NULL where there is a choice. */
  ghost function Pick(t: Type, second: bool): Value
    decreases t, 0
  {
    match t.kind
    case Optional => if t.elem.Some? then Pick(t.elem.value, second) else Missing
    case Null => Missing
    case Bool => Flag(second)
    case Int8 => Number(second) case Int16 => Number(second) case Int32 => Number(second) case Int64 => Number(second)
    case Uint8 => Number(second) case Uint16 => Number(second) case Uint32 => Number(second) case Uint64 => Number(second)
    case Float => Number(second)
    case Double => Number(second)
    case String => Text(if second then "b" else "a")
    case Utf8 => Text(if second then "b" else "a")
    case List => Items(if second && t.elem.Some? then [Pick(t.elem.value, second)] else [])
    case Struct => Record(FieldPicks(t.fields, second))
    case Tuple => Items(ItemPicks(t.items, second))
    case _ => Opaque(t.kind, if second then "b" else "a")
  }

  function Number(second: bool): Value {
    Whole(if second then 1 else 0)
  }

  ghost function ItemPicks(items: seq<Type>, second: bool): (picks: seq<Value>)
    ensures |picks| == |items|
    decreases items, 1
  {
    seq(|items|, i requires 0 <= i < |items| => Pick(items[i], second))
  }

  ghost function FieldPicks(fields: seq<Field>, second: bool): (picks: map<string, Value>)
    ensures picks.Keys == FieldTable(fields).Keys
    decreases fields, 0
  {
    if fields == [] then map[]
    else
      var last := fields[|fields| - 1];
      FieldPicks(fields[..|fields| - 1], second)[last.name := Pick(last.typ, second)]
  }

  lemma {:induction false} FieldPickAt(fields: seq<Field>, second: bool, i: nat)
    requires i < |fields| && DistinctNames(fields)
    ensures fields[i].name in FieldPicks(fields, second)
    ensures FieldPicks(fields, second)[fields[i].name] == Pick(fields[i].typ, second)
    decreases |fields|
  {
    hide Pick;
    var n := |fields| - 1;
    FieldEntry(fields, i);
    if i < n {
      FieldPickAt(fields[..n], second, i);
    }
  }

  lemma {:induction false} PickConforms(t: Type, second: bool)
    requires Valid(t)
    ensures Conforms(Pick(t, second), t)
    decreases t, 1
  {
    hide Valid, Conforms, Pick;
    ValidParts(t);
    if t.kind == Optional || t.kind == List {
      PickConforms(t.elem.value, second);
      ElemPickConforms(t, second);
    } else if t.kind == Tuple {
      ItemPicksConform(t, second);
    } else if t.kind == Struct {
      FieldPicksConform(t, second);
    } else {
      AtomPickConforms(t, second);
    }
  }

  lemma ElemPickConforms(t: Type, second: bool)
    requires (t.kind == Optional || t.kind == List) && t.elem.Some?
    requires Conforms(Pick(t.elem.value, second), t.elem.value)
    ensures Conforms(Pick(t, second), t)
  {
  }

  lemma AtomPickConforms(t: Type, second: bool)
    requires Valid(t) && t.kind != Optional && t.kind != List && t.kind != Tuple && t.kind != Struct
    ensures Conforms(Pick(t, second), t)
  {
  }

  lemma {:induction false} ItemPicksConform(t: Type, second: bool)
    requires t.kind == Tuple && ValidItems(t.items)
    ensures Conforms(Pick(t, second), t)
    decreases t, 0
  {
    hide Valid;
    forall i | 0 <= i < |t.items| ensures Conforms(Pick(t.items[i], second), t.items[i]) {
      PickConforms(t.items[i], second);
    }
  }

  lemma {:induction false} FieldPicksConform(t: Type, second: bool)
    requires t.kind == Struct && ValidFields(t.fields)
    ensures Conforms(Pick(t, second), t)
    decreases t, 0
  {
    hide Valid;
    forall i | 0 <= i < |t.fields|
      ensures t.fields[i].name in FieldPicks(t.fields, second)
      ensures Conforms(FieldPicks(t.fields, second)[t.fields[i].name], t.fields[i].typ)
    {
      FieldPickAt(t.fields, second, i);
      PickConforms(t.fields[i].typ, second);
    }
  }

  lemma AcceptedPick(t: Type, second: bool)
    requires Accepted(t)
    ensures Conforms(Pick(t, second), t)
    ensures NullOrOptional(t) ==> Conforms(Missing, t)
    ensures NullOrOptional(t) == Nullable(t)
  {
    hide Valid;
    PickConforms(if t.kind == Optional then t.elem.value else t, second);
  }

  /** NULL wherever an operand may be NULL. */
  ghost function Worst(types: seq<Type>, second: bool): (vs: seq<Value>)
    ensures |vs| == |types|
  {
    seq(|types|, i requires 0 <= i < |types| => if NullOrOptional(types[i]) then Missing else Pick(types[i], second))
  }

  lemma WorstConforms(types: seq<Type>, second: bool)
    requires forall t <- types :: !NullOrOptional(t) ==> Conforms(Pick(t, second), t)
    ensures AllConform(Worst(types, second), types)
    ensures Missing in Worst(types, second) <== AnyNullOrOptional(types)
  {
    hide Pick;
    var vs := Worst(types, second);
    forall i | 0 <= i < |vs| ensures Conforms(vs[i], types[i]) {
      assert types[i] in types;
    }
    if t :| t in types && NullOrOptional(t) {
      var i :| 0 <= i < |types| && types[i] == t;
      assert vs[i] == Missing;
    }
  }

  lemma AcceptedWorst(types: seq<Type>, second: bool)
    requires AllAccepted(types)
    ensures AllConform(Worst(types, second), types)
    ensures Missing in Worst(types, second) <== AnyNullOrOptional(types)
  {
    hide Pick, Accepted, Conforms, Worst, NullOrOptional;
    forall t | t in types ensures Conforms(Pick(t, second), t) { AcceptedPick(t, second); }
    WorstConforms(types, second);
  }

  /** An engine that tells values apart. */
  function Sharp(op: CompareOp, v: Value, w: Value): Option<bool> {
    Some(v == w)
  }

  lemma SharpIsDecided()
    ensures Decided(Sharp)
  {
  }

  /** Where the values of a type that is neither Optional nor Null conform, NULL does not. */
  lemma NullConformsToNullable(t: Type)
    requires Conforms(Missing, t)
    ensures NullOrOptional(t)
  {
  }

  // ---------------------------------------------------------------- equal and different values

  /** Values of the type can be known to be equal: they need not hold a NULL that is not Optional. */
  predicate Matchable(t: Type) {
    match t.kind
    case Null => false
    case Optional => t.elem.Some? && Matchable(t.elem.value)
    case Struct => MatchableFields(t.fields)
    case Tuple => MatchableItems(t.items)
    case _ => true
  }

  predicate MatchableFields(fields: seq<Field>) {
    forall i | 0 <= i < |fields| :: Matchable(fields[i].typ)
  }

  predicate MatchableItems(items: seq<Type>) {
    forall i | 0 <= i < |items| :: Matchable(items[i])
  }

  lemma OneOfThree(answer: Option<bool>)
    ensures answer == Some(true) || answer == Some(false) || answer == None
  {
    match answer {
      case None =>
      case Some(b) =>
        if b { assert answer == Some(true); } else { assert answer == Some(false); }
    }
  }

  lemma AllOfIsTrue(answers: set<Option<bool>>)
    ensures AllOf(answers) == Some(true) <==> forall answer <- answers :: answer == Some(true)
  {
    forall answer | answer in answers ensures answer == Some(true) || answer == Some(false) || answer == None {
      OneOfThree(answer);
    }
  }

  ghost function ItemAnswers(order: Order, v: Value, w: Value): set<Option<bool>>
    requires v.Items? && w.Items? && |v.items| == |w.items|
  {
    set i | 0 <= i < |v.items| :: Equality(order, v.items[i], w.items[i])
  }

  ghost function MemberAnswers(order: Order, v: Value, w: Value): set<Option<bool>>
    requires v.Record? && w.Record? && v.members.Keys == w.members.Keys
  {
    set name | name in v.members :: Equality(order, v.members[name], w.members[name])
  }

  lemma ContainerAnswers(order: Order, v: Value, w: Value)
    ensures v.Items? && w.Items? && |v.items| == |w.items| ==> Equality(order, v, w) == AllOf(ItemAnswers(order, v, w))
    ensures v.Record? && w.Record? && v.members.Keys == w.members.Keys ==>
              Equality(order, v, w) == AllOf(MemberAnswers(order, v, w))
  {
    hide AllOf;
  }

  lemma ItemsAnswers(order: Order, v: Value, w: Value)
    requires v.Items? && w.Items? && |v.items| == |w.items|
    ensures Equality(order, v, w) == Some(true) <==>
            forall i | 0 <= i < |v.items| :: Equality(order, v.items[i], w.items[i]) == Some(true)
  {
    hide Equality, AllOf;
    ContainerAnswers(order, v, w);
    AllOfIsTrue(ItemAnswers(order, v, w));
    forall i | 0 <= i < |v.items| ensures Equality(order, v.items[i], w.items[i]) in ItemAnswers(order, v, w) {
    }
  }

  lemma RecordAnswers(order: Order, v: Value, w: Value)
    requires v.Record? && w.Record? && v.members.Keys == w.members.Keys
    ensures Equality(order, v, w) == Some(true) <==>
            forall name <- v.members :: Equality(order, v.members[name], w.members[name]) == Some(true)
  {
    hide Equality, AllOf;
    ContainerAnswers(order, v, w);
    AllOfIsTrue(MemberAnswers(order, v, w));
    forall name | name in v.members ensures Equality(order, v.members[name], w.members[name]) in MemberAnswers(order, v, w) {
    }
  }

  lemma ContainersOfOneKind(order: Order, v: Value, w: Value)
    requires Equality(order, v, w) == Some(true)
    ensures v != Missing && w != Missing
    ensures v.Items? == w.Items? && (v.Items? ==> |v.items| == |w.items|)
    ensures v.Record? == w.Record? && (v.Record? ==> v.members.Keys == w.members.Keys)
  {
  }

  /** No value of another type is known to be equal to one that must hold a NULL. */
  lemma {:induction false} UnmatchableIsNotEqual(order: Order, t: Type, v: Value, w: Value)
    requires !Matchable(t) && (Conforms(v, t) || Conforms(w, t))
    ensures Equality(order, v, w) != Some(true)
    decreases t
  {
    if Equality(order, v, w) == Some(true) {
      ContainersOfOneKind(order, v, w);
      hide Equality;
      match t.kind {
        case Optional =>
          if t.elem.Some? { UnmatchableIsNotEqual(order, t.elem.value, v, w); }
        case Struct =>
          RecordAnswers(order, v, w);
          var i :| 0 <= i < |t.fields| && !Matchable(t.fields[i].typ);
          UnmatchableIsNotEqual(order, t.fields[i].typ, v.members[t.fields[i].name], w.members[t.fields[i].name]);
        case Tuple =>
          ItemsAnswers(order, v, w);
          var i :| 0 <= i < |t.items| && !Matchable(t.items[i]);
          UnmatchableIsNotEqual(order, t.items[i], v.items[i], w.items[i]);
        case _ =>
      }
    }
  }

  lemma PickShape(t: Type, second: bool)
    ensures t.kind == Struct ==> Pick(t, second) == Record(FieldPicks(t.fields, second))
    ensures t.kind == Tuple ==> Pick(t, second) == Items(ItemPicks(t.items, second))
    ensures t.kind == Optional && t.elem.Some? ==> Pick(t, second) == Pick(t.elem.value, second)
    ensures t.kind == List && t.elem.Some? ==> Pick(t, second) == Items(if second then [Pick(t.elem.value, second)] else [])
    ensures t.kind == Null ==> Pick(t, second) == Missing
  {
  }

  lemma AtomPicks(t: Type)
    requires Valid(t) && t.kind != Optional && t.kind != List && t.kind != Tuple && t.kind != Struct && t.kind != Null
    ensures Equality(Sharp, Pick(t, false), Pick(t, false)) == Some(true)
    ensures Equality(Sharp, Pick(t, false), Pick(t, true)) == Some(false)
  {
  }

  /** The first value of a type is known to equal itself if any is. */
  lemma {:induction false} PickEqualsItself(t: Type)
    requires Valid(t) && Matchable(t)
    ensures Equality(Sharp, Pick(t, false), Pick(t, false)) == Some(true)
    decreases t, 1
  {
    hide Valid, Pick, Equality;
    ValidParts(t);
    PickShape(t, false);
    if t.kind == Optional {
      PickEqualsItself(t.elem.value);
    } else if t.kind == List {
      ItemsAnswers(Sharp, Items([]), Items([]));
    } else if t.kind == Tuple {
      TuplePickEqualsItself(t);
    } else if t.kind == Struct {
      RecordPickEqualsItself(t);
    } else {
      AtomPicks(t);
    }
  }

  lemma {:induction false} TuplePickEqualsItself(t: Type)
    requires t.kind == Tuple && ValidItems(t.items) && MatchableItems(t.items)
    ensures Equality(Sharp, Items(ItemPicks(t.items, false)), Items(ItemPicks(t.items, false))) == Some(true)
    decreases t, 0
  {
    hide Valid, Pick, Equality, Matchable;
    var v := Items(ItemPicks(t.items, false));
    forall i | 0 <= i < |v.items| ensures Equality(Sharp, v.items[i], v.items[i]) == Some(true) {
      PickEqualsItself(t.items[i]);
    }
    ItemsAnswers(Sharp, v, v);
  }

  lemma {:induction false} RecordPickEqualsItself(t: Type)
    requires t.kind == Struct && ValidFields(t.fields) && MatchableFields(t.fields)
    ensures Equality(Sharp, Record(FieldPicks(t.fields, false)), Record(FieldPicks(t.fields, false))) == Some(true)
    decreases t, 0
  {
    hide Valid, Pick, Equality, Matchable, FieldPicks;
    var v := Record(FieldPicks(t.fields, false));
    forall name | name in v.members ensures Equality(Sharp, v.members[name], v.members[name]) == Some(true) {
      var i := FieldIndex(t.fields, name);
      FieldPickAt(t.fields, false, i);
      PickEqualsItself(t.fields[i].typ);
    }
    RecordAnswers(Sharp, v, v);
  }

  lemma DifferentLengths(order: Order, v: Value, w: Value)
    requires v.Items? && w.Items? && |v.items| != |w.items|
    ensures Equality(order, v, w) == Some(false)
  {
  }

  lemma NullIsNotEqual(order: Order, w: Value)
    ensures Equality(order, Missing, w) == None == Equality(order, w, Missing)
  {
  }

  /** The two values of a type are not known to be equal. */
  lemma {:induction false} PicksDiffer(t: Type)
    requires Valid(t)
    ensures Equality(Sharp, Pick(t, false), Pick(t, true)) != Some(true)
    decreases t, 1
  {
    hide Valid, Pick, Equality;
    ValidParts(t);
    PickShape(t, false);
    PickShape(t, true);
    SomeParts(t);
    if t.kind == Null {
      NullIsNotEqual(Sharp, Missing);
    } else if t.kind == Optional {
      PicksDiffer(t.elem.value);
    } else if t.kind == List {
      DifferentLengths(Sharp, Pick(t, false), Pick(t, true));
    } else if t.kind == Tuple {
      TuplePicksDiffer(t);
    } else if t.kind == Struct {
      RecordPicksDiffer(t);
    } else {
      AtomPicks(t);
    }
  }

  lemma {:induction false} TuplePicksDiffer(t: Type)
    requires t.kind == Tuple && ValidItems(t.items) && t.items != []
    ensures Equality(Sharp, Items(ItemPicks(t.items, false)), Items(ItemPicks(t.items, true))) != Some(true)
    decreases t, 0
  {
    hide Valid, Pick, Equality;
    var v, w := Items(ItemPicks(t.items, false)), Items(ItemPicks(t.items, true));
    PicksDiffer(t.items[0]);
    assert Equality(Sharp, v.items[0], w.items[0]) != Some(true);
    ItemsAnswers(Sharp, v, w);
  }

  lemma {:induction false} RecordPicksDiffer(t: Type)
    requires t.kind == Struct && ValidFields(t.fields) && t.fields != []
    ensures Equality(Sharp, Record(FieldPicks(t.fields, false)), Record(FieldPicks(t.fields, true))) != Some(true)
    decreases t, 0
  {
    hide Valid, Pick, Equality, FieldPicks;
    FieldPickAt(t.fields, false, 0);
    FieldPickAt(t.fields, true, 0);
    PicksDiffer(t.fields[0].typ);
    RecordAnswers(Sharp, Record(FieldPicks(t.fields, false)), Record(FieldPicks(t.fields, true)));
  }

  lemma SomeParts(t: Type)
    requires Valid(t)
    ensures t.kind == Tuple ==> t.items != []
    ensures t.kind == Struct ==> t.fields != []
  {
  }

  // ---------------------------------------------------------------- comparable types have the same two values

  lemma NumberPicks(a: Kind, b: Kind, second: bool)
    requires 0 <= Rank(a) && 0 <= Rank(b)
    ensures Pick(Plain(a), second) == Pick(Plain(b), second)
  {
  }

  lemma AtomPicksAgree(a: Type, b: Type, second: bool)
    requires a.kind == b.kind && !a.kind.Optional? && !a.kind.List? && !a.kind.Struct? && !a.kind.Tuple?
    ensures Pick(a, second) == Pick(b, second)
  {
  }

  lemma {:induction false} EqualPicks(a: Type, b: Type, second: bool)
    requires Valid(a) && Valid(b) && Equal(a, b)
    ensures Pick(a, second) == Pick(b, second)
    decreases a
  {
    hide Valid, Equal, Pick;
    EqualParts(a, b);
    ValidParts(a);
    ValidParts(b);
    PickShape(a, second);
    PickShape(b, second);
    if a.kind == Optional || a.kind == List {
      EqualPicks(a.elem.value, b.elem.value, second);
    } else if a.kind == Tuple {
      forall i | 0 <= i < |a.items| ensures Pick(a.items[i], second) == Pick(b.items[i], second) {
        EqualPicks(a.items[i], b.items[i], second);
      }
    } else if a.kind == Struct {
      MatchedKeys(a.fields, b.fields);
      var v, w := FieldPicks(a.fields, second), FieldPicks(b.fields, second);
      forall name | name in v ensures v[name] == w[name] {
        var i := FieldIndex(a.fields, name);
        var j := FieldIndex(b.fields, name);
        FieldPickAt(a.fields, second, i);
        FieldPickAt(b.fields, second, j);
        FieldEntry(b.fields, j);
        EqualPicks(a.fields[i].typ, b.fields[j].typ, second);
      }
      assert v == w;
    } else {
      AtomPicksAgree(a, b, second);
    }
  }

  lemma ComparablePicks(a: Type, b: Type, second: bool)
    requires Valid(a) && Valid(b) && Comparable(a, b)
    ensures Pick(a, second) == Pick(b, second)
  {
    hide Valid, Equal, Pick, Rank;
    BelowIsPreorder(a, b, a);
    if Below(a, b) { BelowPicks(a, b, second); } else { BelowPicks(b, a, second); }
  }

  lemma BelowPicks(a: Type, b: Type, second: bool)
    requires Valid(a) && Valid(b) && Below(a, b)
    ensures Pick(a, second) == Pick(b, second)
  {
    hide Valid, Equal, Pick, Rank;
    if Equal(a, b) {
      EqualPicks(a, b, second);
    } else {
      RankedIsPlain(a);
      RankedIsPlain(b);
      NumberPicks(a.kind, b.kind, second);
    }
  }

  lemma PickOfCore(t: Type, second: bool)
    requires Concrete(t)
    ensures Pick(t, second) == Pick(Core(t), second) && Valid(Core(t)) && Matchable(t) == Matchable(Core(t))
  {
    hide Valid;
  }

  lemma PickOfNull(t: Type, second: bool)
    requires Accepted(t) && !Concrete(t)
    ensures Pick(t, second) == Missing && !Matchable(t)
  {
    hide Valid;
  }

  /** Two operands that a comparison accepts together: their values can be told apart, and can be equal. */
  lemma OperandsMatch(types: seq<Type>, a: Type, b: Type)
    requires CommonType(types).Ok? && a in types && b in types
    ensures Equality(Sharp, Pick(a, false), Pick(b, true)) != Some(true)
    ensures Matchable(a) && Matchable(b) ==> Equality(Sharp, Pick(a, false), Pick(b, false)) == Some(true)
  {
    hide Valid, Pick, Equality, CommonType, Concrete, Core, Accepted, Matchable, Comparable;
    CommonTypeSucceeds(types);
    if Concrete(a) && Concrete(b) {
      PickOfCore(a, false);
      PickOfCore(b, false);
      PickOfCore(b, true);
      assert Core(a) in Cores(types) && Core(b) in Cores(types);
      ComparablePicks(Core(a), Core(b), false);
      PicksDiffer(Core(b));
      if Matchable(a) { PickEqualsItself(Core(a)); }
    } else if !Concrete(a) {
      PickOfNull(a, false);
      NullIsNotEqual(Sharp, Pick(b, true));
    } else {
      PickOfNull(b, true);
      NullIsNotEqual(Sharp, Pick(a, false));
    }
  }
}
