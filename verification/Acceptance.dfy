/** Which operand types each typing rule accepts, said by the values that the types have, and which type it answers with. */
module Acceptance {
  import opened Wrappers
  import opened Types
  import opened CommonTypes
  import opened Expressions
  import opened TypingRules
  import opened Comparisons
  import opened Evaluation
  import opened Conformance
  import opened RuleSoundness
  import opened Witnesses
  import opened Exactness
  import Parameters

  // ---------------------------------------------------------------- types by their values

  /** Some value of the type is a truth value and, NULL aside, all of them are. */
  ghost predicate OnlyFlags(t: Type) {
    (exists v :: Conforms(v, t) && v.Flag?) && forall v | Conforms(v, t) :: v.Missing? || v.Flag?
  }

  ghost predicate OnlyNumbers(t: Type) {
    && (exists v :: Conforms(v, t) && (v.Whole? || v.Fraction?))
    && forall v | Conforms(v, t) :: v.Missing? || v.Whole? || v.Fraction?
  }

  ghost predicate OnlyTexts(t: Type) {
    (exists v :: Conforms(v, t) && v.Text?) && forall v | Conforms(v, t) :: v.Missing? || v.Text?
  }

  lemma UnwrappedIsCore(t: Type)
    requires Accepted(t)
    ensures Unwrap(t) == Core(t) && Core(t).kind != Optional && Valid(Core(t))
    ensures forall v :: Conforms(v, t) <==> Conforms(v, Core(t)) || (v.Missing? && IsOptional(t))
    ensures Conforms(Pick(Core(t), false), Core(t))
  {
    hide Valid, Pick;
    PickConforms(Core(t), false);
    if IsOptional(t) {
      forall v ensures Conforms(v, t) <==> Conforms(v, Core(t)) || v.Missing? {
      }
    }
  }

  lemma ValuesByKind(t: Type, v: Value)
    requires Conforms(v, t) && t.kind != Optional
    ensures t.kind == Bool ==> v.Flag?
    ensures ArithmeticKind(t.kind) ==> v.Whole? || v.Fraction?
    ensures t.kind == String || t.kind == Utf8 ==> v.Text?
  {
  }

  lemma PickByKind(t: Type)
    requires t.kind != Optional
    ensures var v := Pick(t, false);
            && (v.Flag? <==> t.kind == Bool)
            && (v.Whole? || v.Fraction? <==> ArithmeticKind(t.kind))
            && (v.Text? <==> t.kind == String || t.kind == Utf8)
            && (v.Missing? <==> t.kind == Null)
  {
  }

  /** What one value of the type is, all its values are. */
  lemma CoreValues(t: Type)
    requires Accepted(t)
    ensures Unwrap(t).kind != Optional && PickOf(t) == Pick(Unwrap(t), false) && Conforms(PickOf(t), t)
    ensures forall v | Conforms(v, t) && !v.Missing? ::
              && (Unwrap(t).kind == Bool ==> v.Flag?)
              && (ArithmeticKind(Unwrap(t).kind) ==> v.Whole? || v.Fraction?)
              && (Unwrap(t).kind == String || Unwrap(t).kind == Utf8 ==> v.Text?)
  {
    hide Conforms, Pick, Accepted, ArithmeticKind, Unwrap;
    UnwrappedIsCore(t);
    forall v | Conforms(v, t) && !v.Missing?
      ensures Unwrap(t).kind == Bool ==> v.Flag?
      ensures ArithmeticKind(Unwrap(t).kind) ==> v.Whole? || v.Fraction?
      ensures Unwrap(t).kind == String || Unwrap(t).kind == Utf8 ==> v.Text?
    {
      ValuesByKind(Unwrap(t), v);
    }
  }

  ghost function PickOf(t: Type): Value {
    Pick(Unwrap(t), false)
  }

  lemma FlagsAreBool(t: Type)
    requires Accepted(t)
    ensures OnlyFlags(t) <==> Unwrap(t).kind == Bool
  {
    hide Conforms, Pick, Accepted, ArithmeticKind, Unwrap;
    CoreValues(t);
    PickByKind(Unwrap(t));
    if Unwrap(t).kind == Null { NullValues(t); }
  }

  lemma NumbersAreArithmetic(t: Type)
    requires Accepted(t)
    ensures OnlyNumbers(t) <==> ArithmeticKind(Unwrap(t).kind)
  {
    hide Conforms, Pick, Accepted, ArithmeticKind, Unwrap;
    CoreValues(t);
    PickByKind(Unwrap(t));
    if Unwrap(t).kind == Null { NullValues(t); }
  }

  lemma TextsAreText(t: Type)
    requires Accepted(t)
    ensures OnlyTexts(t) <==> Unwrap(t).kind == String || Unwrap(t).kind == Utf8
  {
    hide Conforms, Pick, Accepted, ArithmeticKind, Unwrap;
    CoreValues(t);
    PickByKind(Unwrap(t));
    if Unwrap(t).kind == Null { NullValues(t); }
  }

  lemma NullValues(t: Type)
    requires Accepted(t) && Unwrap(t).kind == Null
    ensures forall v | Conforms(v, t) :: v.Missing?
  {
    UnwrappedIsCore(t);
  }

  // ---------------------------------------------------------------- literals

  /** An integer literal has the kind its suffix names or the narrower of Int32 and Int64, if that holds it. */
  lemma IntegerLiteralKind(n: nat, suffix: Option<Kind>)
    ensures var r := LiteralType(IntegerLiteral(n, suffix));
            && (suffix.None? ==>
                  && (r.Ok? <==> n <= 0x7FFF_FFFF_FFFF_FFFF)
                  && (r.Ok? ==> r.value == Plain(if n <= 0x7FFF_FFFF then Int32 else Int64)))
            && (suffix.Some? ==>
                  && (r.Ok? <==> IsInteger(suffix.value) && suffix.value != Int32 && InRange(n, suffix.value))
                  && (r.Ok? ==> r.value == Plain(suffix.value)))
  {
  }

  /** Only the literal NULL is NULL, and only it is typed so. */
  lemma LiteralIsExact(literal: Literal)
    requires LiteralType(literal).Ok?
    ensures NullOrOptional(LiteralType(literal).value) <==> LiteralValue(literal) == Missing
    ensures LiteralValue(literal) == Missing <==> literal == NullLiteral
    ensures !literal.IntegerLiteral? && literal != NullLiteral ==>
              LiteralType(literal).value == Plain(if literal.BoolLiteral? then Bool else literal.kind)
  {
  }

  // ---------------------------------------------------------------- AND, OR, XOR, NOT

  /**
   * The connectives take operands that have only truth values, and NULL literals.  The result has truth values, too;
   * only NOT NULL is a Null again.
   */
  lemma LogicAccepts(op: LogicOp, types: seq<Type>)
    requires AllAccepted(types)
    ensures LogicType(op, types).Ok? <==> types != [] && forall t <- types :: t.kind == Null || OnlyFlags(t)
    ensures LogicType(op, types).Ok? ==>
              if op == Not && forall t <- types :: t.kind == Null then LogicType(op, types).value == Plain(Null)
              else OnlyFlags(LogicType(op, types).value)
  {
    hide Accepted, OnlyFlags;
    forall t | t in types ensures OnlyFlags(t) <==> Unwrap(t).kind == Bool {
      FlagsAreBool(t);
    }
    BoolHasFlags();
  }

  lemma BoolHasFlags()
    ensures OnlyFlags(Plain(Bool)) && OnlyFlags(OptionalOf(Plain(Bool)))
  {
    assert Conforms(Flag(true), Plain(Bool)) && Conforms(Flag(true), OptionalOf(Plain(Bool)));
  }

  // ---------------------------------------------------------------- comparisons and IN

  /** The types have a common one: legal types of which the concrete ones are pairwise comparable. */
  ghost predicate Meet(types: seq<Type>) {
    AllAccepted(types) && IsChain(Cores(types)) && Cores(types) != {}
  }

  /** Operands are compared when there is an operator between any two and they have a common type, or all are NULL. */
  lemma CompareAccepts(types: seq<Type>, ops: seq<CompareOp>)
    ensures CompareType(types, ops).Ok? <==>
            |types| >= 2 && |ops| + 1 == |types| && ((forall t <- types :: t.kind == Null) || Meet(types))
    ensures CompareType(types, ops).Ok? ==> OnlyFlags(CompareType(types, ops).value)
  {
    hide CommonType, AllAccepted, IsChain, Cores, OnlyFlags, NullSafe;
    CommonTypeSucceeds(types);
    BoolHasFlags();
  }

  /** IN needs at least one value, and a common type with all of them or with the items of the list. */
  lemma InAccepts(left: Type, values: seq<Type>, list: Type, optionalList: bool)
    ensures InType(left, values, optionalList).Ok? <==> values != [] && Meet([left] + values)
    ensures InType(left, values, optionalList).Ok? ==> OnlyFlags(InType(left, values, optionalList).value)
    ensures InListType(left, list).Ok? <==> CallbackItem(list).Ok? && Meet([left, CallbackItem(list).value])
    ensures InListType(left, list).Ok? ==> OnlyFlags(InListType(left, list).value)
  {
    hide CommonType, AllAccepted, IsChain, Cores, OnlyFlags;
    CommonTypeSucceeds([left] + values);
    BoolHasFlags();
    if CallbackItem(list).Ok? {
      var item := CallbackItem(list).value;
      assert [left] + [item] == [left, item];
      CommonTypeSucceeds([left, item]);
    }
  }

  // ---------------------------------------------------------------- arithmetic

  ghost predicate AllNumbers(types: seq<Type>) {
    forall t <- types :: ArithmeticKind(Unwrap(t).kind)
  }

  lemma TopIsNumber(types: seq<Type>, top: Type)
    requires AllAccepted(types) && AllNumbers(types) && IsTop(Cores(types), top)
    ensures ArithmeticKind(top.kind)
  {
    hide Valid, Below;
    var t :| t in types && Concrete(t) && Core(t) == top;
    UnwrappedIsCore(t);
  }

  lemma CoresOfTwo(left: Type, right: Type)
    requires Concrete(left) && Concrete(right)
    ensures Cores([left, right]) == {Core(left), Core(right)} && AllAccepted([left, right])
  {
    hide Accepted, Core;
    assert left in [left, right] && right in [left, right];
  }

  /** Two concrete types have a common one exactly when one is below the other. */
  lemma CommonOfTwo(left: Type, right: Type)
    requires Concrete(left) && Concrete(right)
    ensures CommonType([left, right]).Ok? <==> Comparable(Core(left), Core(right))
  {
    hide CommonType, Accepted, Concrete, Core, Valid, Below;
    CommonTypeSucceeds([left, right]);
    CoresOfTwo(left, right);
    CoresAreLegal([left, right]);
    BelowIsPreorder(Core(left), Core(right), Core(left));
    BelowIsPreorder(Core(right), Core(left), Core(right));
  }

  lemma NumbersAreComparable(a: Type, b: Type)
    requires ArithmeticKind(a.kind) && ArithmeticKind(b.kind)
    ensures Comparable(a, b)
  {
    hide Equal;
    RankedKinds(a.kind);
    RankedKinds(b.kind);
  }

  lemma NumberIsConcrete(t: Type)
    requires Accepted(t) && ArithmeticKind(Unwrap(t).kind)
    ensures Concrete(t)
  {
    hide Valid;
  }

  lemma NumbersHaveCommonType(left: Type, right: Type)
    requires Accepted(left) && Accepted(right) && ArithmeticKind(Unwrap(left).kind) && ArithmeticKind(Unwrap(right).kind)
    ensures CommonType([left, right]).Ok?
  {
    hide CommonType, Accepted, Core, Concrete, ArithmeticKind, Comparable;
    UnwrappedIsCore(left);
    UnwrappedIsCore(right);
    NumberIsConcrete(left);
    NumberIsConcrete(right);
    NumbersAreComparable(Core(left), Core(right));
    CommonOfTwo(left, right);
  }

  lemma PairAccepts(op: ArithmeticOp, left: Type, right: Type)
    requires Accepted(left) && Accepted(right)
    ensures ArithmeticPair(op, left, right).Ok? <==>
            op != UnsupportedOp && ArithmeticKind(Unwrap(left).kind) && ArithmeticKind(Unwrap(right).kind)
  {
    hide Accepted, CommonType;
    if ArithmeticKind(Unwrap(left).kind) && ArithmeticKind(Unwrap(right).kind) {
      NumbersHaveCommonType(left, right);
    }
  }

  /** What the fold has when it has gone through operands that are all numbers. */
  lemma FoldIsNumber(types: seq<Type>, ops: seq<ArithmeticOp>)
    requires types != [] && |ops| + 1 >= |types| && ArithmeticFold(types, ops).Ok? && types[0].kind != NoKind
    requires AllAccepted(types)
    ensures Accepted(ArithmeticFold(types, ops).value)
    ensures AllNumbers(types) ==> ArithmeticKind(Unwrap(ArithmeticFold(types, ops).value).kind)
  {
    hide ArithmeticFold, Accepted, Core, Cores, IsTop, NullOrOptional, ArithmeticKind;
    if |types| == 1 {
      OneOperand(types, ops);
      assert types[0] in types;
    } else {
      ArithmeticIsJoin(types, ops);
      UnwrappedIsCore(ArithmeticFold(types, ops).value);
      if AllNumbers(types) { TopIsNumber(types, Core(ArithmeticFold(types, ops).value)); }
    }
  }

  lemma FoldOneMore(types: seq<Type>, ops: seq<ArithmeticOp>)
    requires |types| >= 2 && |ops| + 1 >= |types|
    ensures var front := ArithmeticFold(types[..|types| - 1], ops);
            front.Ok? && front.value.kind != NoKind ==>
              ArithmeticFold(types, ops) == ArithmeticPair(ops[|types| - 2], front.value, types[|types| - 1])
    ensures ArithmeticFold(types[..|types| - 1], ops).Err? ==> ArithmeticFold(types, ops).Err?
  {
    hide ArithmeticPair;
  }

  lemma {:induction false} FoldAccepts(types: seq<Type>, ops: seq<ArithmeticOp>)
    requires |types| >= 2 && |ops| + 1 >= |types| && types[0].kind != NoKind && AllAccepted(types)
    ensures ArithmeticFold(types, ops).Ok? <==>
            (forall i | 0 <= i < |types| - 1 :: ops[i] != UnsupportedOp) && AllNumbers(types)
    decreases |types|
  {
    hide ArithmeticFold, ArithmeticPair, Accepted, ArithmeticKind, AllNumbers;
    var n := |types| - 1;
    var front, last := types[..n], types[n];
    FoldOneMore(types, ops);
    NumbersOneMore(types, front, last);
    if n >= 2 {
      FoldAccepts(front, ops);
    } else {
      OneOperand(front, ops);
      NumbersOneMore(front, [], front[0]);
    }
    if ArithmeticFold(front, ops).Ok? {
      var before := ArithmeticFold(front, ops).value;
      FoldIsNumber(front, ops);
      ArithmeticHasKind(front, ops);
      PairAccepts(ops[n - 1], before, last);
      assert n == 1 ==> before == front[0];
    }
  }

  lemma NumbersOneMore(types: seq<Type>, front: seq<Type>, last: Type)
    requires types == front + [last]
    ensures AllNumbers(types) <==> AllNumbers(front) && ArithmeticKind(Unwrap(last).kind)
    ensures AllAccepted(types) <==> AllAccepted(front) && Accepted(last)
    ensures AllNumbers([])
  {
    hide ArithmeticKind, Accepted;
    assert forall t :: t in types <==> t in front || t == last;
  }

  /** Two or more operands are accepted exactly when every operator is supported and every operand is a number. */
  lemma ArithmeticAccepts(types: seq<Type>, ops: seq<ArithmeticOp>)
    requires |types| >= 2 && |ops| + 1 == |types| && AllAccepted(types)
    ensures ArithmeticType(types, ops).Ok? <==>
            (forall op <- ops :: op != UnsupportedOp) && forall t <- types :: OnlyNumbers(t)
  {
    hide ArithmeticFold, Accepted, OnlyNumbers, ArithmeticKind;
    assert types[0] in types;
    HasKind(types[0]);
    forall t | t in types ensures OnlyNumbers(t) <==> ArithmeticKind(Unwrap(t).kind) {
      NumbersAreArithmetic(t);
    }
    FoldAccepts(types, ops);
    if forall i | 0 <= i < |types| - 1 :: ops[i] != UnsupportedOp {
      assert forall op <- ops :: op != UnsupportedOp;
    }
    if forall op <- ops :: op != UnsupportedOp {
      assert forall i | 0 <= i < |types| - 1 :: ops[i] in ops;
    }
  }

  lemma HasKind(t: Type)
    requires Accepted(t)
    ensures t.kind != NoKind
  {
  }

  // ---------------------------------------------------------------- concatenation

  /** No two operands with values differ in kind. */
  ghost predicate OneTextKind(types: seq<Type>) {
    forall t <- types, u <- types | t.kind != Null && u.kind != Null :: Unwrap(t) == Unwrap(u)
  }

  ghost predicate ConcatSeen(types: seq<Type>, acc: Concatenated) {
    && (acc.hasNull <==> exists t <- types :: t.kind == Null)
    && (acc.optional <==> exists t <- types :: IsOptional(t))
    && (acc.result.kind == NoKind <==> AllNull(types))
    && (acc.result.kind != NoKind ==> acc.result == Plain(acc.result.kind))
    && forall t <- types | t.kind != Null :: Unwrap(t) == acc.result
  }

  lemma TextIsPlain(t: Type)
    requires Accepted(t) && ConcatAllowed(t) && t.kind != Null
    ensures Unwrap(t) == Plain(Unwrap(t).kind) && Unwrap(t).kind != NoKind && Unwrap(t).kind != Optional
  {
  }

  lemma PlainsEqual(a: Kind, b: Kind)
    ensures Equal(Plain(a), Plain(b)) <==> a == b
  {
  }

  lemma ConcatStepAccepts(types: seq<Type>, acc: Concatenated, t: Type)
    requires ConcatSeen(types, acc) && Accepted(t)
    ensures ConcatStep(acc, t).Ok? <==>
            ConcatAllowed(t) && (t.kind != Null && acc.result.kind != NoKind ==> Unwrap(t) == acc.result)
  {
    hide Equal, Accepted;
    if ConcatAllowed(t) && t.kind != Null {
      TextIsPlain(t);
      PlainsEqual(acc.result.kind, Unwrap(t).kind);
    }
  }

  lemma ConcatStepNext(acc: Concatenated, t: Type)
    requires Accepted(t) && ConcatStep(acc, t).Ok?
    requires ConcatAllowed(t) && (t.kind != Null && acc.result.kind != NoKind ==> Unwrap(t) == acc.result)
    ensures ConcatStep(acc, t).value ==
            if t.kind == Null then acc.(hasNull := true)
            else Concatenated(Unwrap(t), acc.optional || IsOptional(t), acc.hasNull)
  {
    hide Equal, Accepted;
  }

  lemma MembersOfMore(types: seq<Type>, t: Type)
    ensures AllNull(types + [t]) <==> AllNull(types) && t.kind == Null
    ensures (exists u <- types + [t] :: u.kind == Null) <==> t.kind == Null || exists u <- types :: u.kind == Null
    ensures (exists u <- types + [t] :: IsOptional(u)) <==> IsOptional(t) || exists u <- types :: IsOptional(u)
  {
    assert forall u :: u in types + [t] <==> u in types || u == t;
  }

  lemma SameTextMore(types: seq<Type>, t: Type, text: Type)
    requires (forall u <- types | u.kind != Null :: Unwrap(u) == text) && (t.kind != Null ==> Unwrap(t) == text)
    ensures forall u <- types + [t] | u.kind != Null :: Unwrap(u) == text
  {
    hide Unwrap;
  }

  lemma ConcatSeenMore(types: seq<Type>, acc: Concatenated, t: Type, next: Concatenated)
    requires ConcatSeen(types, acc)
    requires t.kind != Null ==> Unwrap(t) == Plain(Unwrap(t).kind) && Unwrap(t).kind != NoKind
    requires t.kind != Null && acc.result.kind != NoKind ==> Unwrap(t) == acc.result
    requires next == if t.kind == Null then acc.(hasNull := true)
                     else Concatenated(Unwrap(t), acc.optional || IsOptional(t), acc.hasNull)
    ensures ConcatSeen(types + [t], next)
  {
    hide Unwrap, AllNull, IsOptional;
    MembersOfMore(types, t);
    NullIsNotOptional(t);
    assert forall u <- types | u.kind != Null :: Unwrap(u) == next.result by {
      if acc.result.kind == NoKind { NothingButNull(types); }
    }
    SameTextMore(types, t, next.result);
  }

  lemma NullIsNotOptional(t: Type)
    ensures t.kind == Null ==> !IsOptional(t)
  {
  }

  lemma NothingButNull(types: seq<Type>)
    requires AllNull(types)
    ensures forall u <- types :: u.kind == Null
  {
  }

  lemma ConcatStepSees(types: seq<Type>, acc: Concatenated, t: Type)
    requires ConcatSeen(types, acc) && Accepted(t)
    ensures ConcatStep(acc, t).Ok? <==>
            ConcatAllowed(t) && (t.kind != Null && acc.result.kind != NoKind ==> Unwrap(t) == acc.result)
    ensures ConcatStep(acc, t).Ok? ==> ConcatSeen(types + [t], ConcatStep(acc, t).value)
  {
    hide ConcatStep, Accepted, ConcatSeen, ConcatAllowed, Unwrap;
    ConcatStepAccepts(types, acc, t);
    if ConcatStep(acc, t).Ok? {
      ConcatStepNext(acc, t);
      if t.kind != Null { TextIsPlain(t); }
      ConcatSeenMore(types, acc, t, ConcatStep(acc, t).value);
    }
  }

  lemma OneKindMore(types: seq<Type>, acc: Concatenated, t: Type)
    requires ConcatSeen(types, acc) && (acc.result.kind == NoKind || t.kind == Null || Unwrap(t) == acc.result)
    ensures OneTextKind(types + [t])
  {
    hide Unwrap;
    assert forall u :: u in types + [t] <==> u in types || u == t;
  }

  lemma TwoTextKinds(types: seq<Type>, acc: Concatenated, t: Type)
    requires ConcatSeen(types, acc) && acc.result.kind != NoKind && t.kind != Null && Unwrap(t) != acc.result
    ensures !OneTextKind(types + [t])
  {
    hide Unwrap;
    var u :| u in types && u.kind != Null;
    assert t in types + [t] && u in types + [t];
  }

  lemma {:induction false} ConcatFoldAccepts(types: seq<Type>)
    requires AllAccepted(types)
    ensures ConcatFold(types).Ok? <==> (forall t <- types :: ConcatAllowed(t)) && OneTextKind(types)
    ensures ConcatFold(types).Ok? ==> ConcatSeen(types, ConcatFold(types).value)
    decreases |types|
  {
    hide ConcatStep, ConcatAllowed, OneTextKind, ConcatSeen, Accepted;
    if types == [] {
      NothingSeen();
    } else {
      var n := |types| - 1;
      var front, t := types[..n], types[n];
      assert types == front + [t] && t in types && forall u <- front :: u in types;
      ConcatFoldAccepts(front);
      OneKindBefore(front, t);
      if ConcatFold(front).Ok? {
        var acc := ConcatFold(front).value;
        ConcatStepSees(front, acc, t);
        if acc.result.kind == NoKind || t.kind == Null || Unwrap(t) == acc.result {
          OneKindMore(front, acc, t);
        } else {
          TwoTextKinds(front, acc, t);
        }
      }
    }
  }

  lemma NothingSeen()
    ensures OneTextKind([]) && ConcatSeen([], Concatenated(Plain(NoKind), false, false))
  {
  }

  lemma OneKindBefore(front: seq<Type>, t: Type)
    ensures OneTextKind(front + [t]) ==> OneTextKind(front)
  {
    hide Unwrap;
    assert forall u <- front :: u in front + [t];
  }

  /** Operands are NULL literals and texts of one kind; without NULL literals the result has that kind. */
  lemma ConcatAccepts(types: seq<Type>)
    requires AllAccepted(types)
    ensures ConcatType(types).Ok? <==>
            types != [] && (forall t <- types :: t.kind == Null || OnlyTexts(t)) && OneTextKind(types)
    ensures ConcatType(types).Ok? && (exists t <- types :: t.kind == Null) ==> ConcatType(types).value == Plain(Null)
    ensures ConcatType(types).Ok? && (forall t <- types :: t.kind != Null) ==>
              ConcatType(types).value == WithOptional(Unwrap(types[0]), exists t <- types :: IsOptional(t))
  {
    hide Accepted, OnlyTexts, ConcatFold;
    ConcatFoldAccepts(types);
    forall t | t in types ensures t.kind == Null || OnlyTexts(t) <==> ConcatAllowed(t) {
      TextsAreText(t);
    }
    if types != [] && (forall t <- types :: ConcatAllowed(t)) && forall t <- types :: t.kind != Null {
      assert types[0] in types;
      TextIsPlain(types[0]);
    }
  }

  // ---------------------------------------------------------------- conditions

  /** IF takes a condition that has only truth values; a NULL literal is refused. */
  lemma IfAccepts(types: seq<Type>)
    requires |types| == 3
    ensures IfType(types).Ok? <==> Accepted(types[0]) && OnlyFlags(types[0]) && CommonType([types[1], types[2]]).Ok?
    ensures IfType(types).Ok? ==> IfType(types) == CommonType([types[1], types[2]])
    ensures IfType([types[0], types[1]]) == IfType([types[0], types[1], Plain(Null)])
  {
    hide CommonType, OnlyFlags, Valid;
    assert types[1..] == [types[1], types[2]];
    assert [types[0], types[1], Plain(Null)][1..] == [types[1], Plain(Null)];
    if Accepted(types[0]) {
      FlagsAreBool(types[0]);
      UnwrappedIsCore(types[0]);
    }
  }

  /** Without a selector the conditions of CASE have only truth values or are NULL; with one each has to be comparable. */
  lemma CaseAccepts(selector: Option<Type>, conditions: seq<Type>, results: seq<Type>, otherwise: Type)
    requires AllAccepted(conditions)
    ensures CaseType(selector, conditions, results, otherwise).Ok? <==>
            && conditions != [] && |conditions| == |results| && CommonType(results + [otherwise]).Ok?
            && forall c <- conditions ::
                 if selector.None? then c.kind == Null || OnlyFlags(c) else CommonType([selector.value, c]).Ok?
    ensures CaseType(selector, conditions, results, otherwise).Ok? ==>
              CaseType(selector, conditions, results, otherwise) == CommonType(results + [otherwise])
  {
    hide CommonType, OnlyFlags, Accepted;
    forall c | c in conditions ensures OnlyFlags(c) <==> Unwrap(c).kind == Bool {
      FlagsAreBool(c);
    }
  }

  // ---------------------------------------------------------------- COALESCE

  ghost predicate BothText(a: Type, b: Type) {
    (a.kind == String && b.kind == Utf8) || (a.kind == Utf8 && b.kind == String)
  }

  ghost predicate Fits(left: Type, right: Type, literal: Option<int>)
    requires Accepted(left) && Accepted(right)
  {
    !IsOptional(right) && IsInteger(Core(left).kind) && IsInteger(Core(right).kind) && LiteralFits(literal, Core(left).kind)
  }

  lemma ConcreteParts(t: Type)
    requires Concrete(t)
    ensures Unwrap(t) == Core(t) && Valid(Core(t)) && Core(t).kind != Null && Core(t).kind != Optional
    ensures BaseOf(t) == Ok(Base(Core(t), IsOptional(t)))
    ensures Equal(Core(t), Core(t))
  {
    hide Valid, Equal;
    EqualOnValid(Core(t), Core(t), Core(t));
  }

  lemma TextsMeet(a: Type, b: Type)
    ensures CommonConcrete(Plain(String), Plain(String)) == Ok(Plain(String))
    ensures MixedText(a.kind, b.kind) <==> BothText(a, b)
  {
  }

  lemma TopOfTwo(a: Type, b: Type)
    requires Valid(a) && Valid(b)
    ensures CommonConcrete(a, b).Ok? <==> Comparable(a, b)
    ensures CommonConcrete(a, b).Ok? ==> IsTop({a, b}, CommonConcrete(a, b).value)
  {
    hide Valid, Below, Equal, CommonConcrete;
    CommonConcreteIsMax(a, b);
  }

  lemma FirstArgument(argument: Argument)
    requires Accepted(argument.typ)
    ensures CoalesceFold([argument]) == Ok(argument.typ)
  {
    assert [argument][..0] == [];
    assert CoalesceFold([]) == Ok(Plain(Null));
  }

  /** The pair that is joined after the coercions. */
  lemma CoalescePairMeets(a: Type, b: Type)
    requires Valid(a) && Valid(b)
    ensures CoalescePair(a, b).Ok? <==> Comparable(a, b) || BothText(a, b)
    ensures CoalescePair(a, b).Ok? ==>
              if BothText(a, b) then CoalescePair(a, b).value == Plain(String) else IsTop({a, b}, CoalescePair(a, b).value)
  {
    hide Valid, CommonConcrete, Comparable, IsTop;
    TextsMeet(a, b);
    TopOfTwo(a, b);
  }

  lemma SelfMeets(a: Type)
    requires Valid(a) && IsInteger(a.kind)
    ensures CoalescePair(a, a) == Ok(a)
  {
    hide Valid, Equal;
    EqualOnValid(a, a, a);
  }

  lemma IsTopIsMember(a: Type, b: Type, top: Type)
    requires IsTop({a, b}, top)
    ensures top == a || top == b
  {
  }

  lemma CoalesceMeets(left: Type, right: Type, literal: Option<int>)
    requires Concrete(left) && Concrete(right)
    ensures var r := CoalesceStep(left, Argument(right, literal, false));
            && (r.Ok? <==>
                  Fits(left, right, literal) || Comparable(Core(left), Core(right)) || BothText(Core(left), Core(right)))
            && (r.Ok? ==>
                  && IsOptional(r.value) == (IsOptional(left) && IsOptional(right))
                  && (if Fits(left, right, literal) then Unwrap(r.value) == Core(left)
                      else if BothText(Core(left), Core(right)) then Unwrap(r.value) == Plain(String)
                      else IsTop({Core(left), Core(right)}, Unwrap(r.value)))
                  && r.value.kind != Null)
  {
    hide Accepted, Valid, Equal, CoalescePair, LiteralFits, BaseOf, Core, IsTop, Comparable;
    ConcreteParts(left);
    ConcreteParts(right);
    var a, b := Core(left), Core(right);
    if Fits(left, right, literal) {
      SelfMeets(a);
    } else {
      CoalescePairMeets(a, b);
      if CoalescePair(a, b).Ok? && !BothText(a, b) {
        IsTopIsMember(a, b, CoalescePair(a, b).value);
      }
    }
  }

  /**
   * COALESCE of two arguments that are more than NULL: an integer literal in the range of the first argument's kind
   * takes that kind, String and Utf8 meet in String, and everything else has the larger of two comparable types.
   */
  lemma CoalesceOfTwo(left: Type, right: Type, literal: Option<int>)
    requires Concrete(left) && Concrete(right)
    ensures var r := CoalesceType([Argument(left, None, false), Argument(right, literal, false)]);
            && (r.Ok? <==>
                  Fits(left, right, literal) || Comparable(Core(left), Core(right)) || BothText(Core(left), Core(right)))
            && (r.Ok? ==>
                  && IsOptional(r.value) == (IsOptional(left) && IsOptional(right))
                  && (if Fits(left, right, literal) then Unwrap(r.value) == Core(left)
                      else if BothText(Core(left), Core(right)) then Unwrap(r.value) == Plain(String)
                      else IsTop({Core(left), Core(right)}, Unwrap(r.value))))
  {
    hide Fits, Core, CoalesceStep, IsTop, Comparable, Accepted;
    var first, second := Argument(left, None, false), Argument(right, literal, false);
    assert [first, second][..1] == [first];
    FirstArgument(first);
    CoalesceMeets(left, right, literal);
  }

  // ---------------------------------------------------------------- members and lists

  /** A struct literal needs as many values as members, and members with distinct, nonempty names and legal types. */
  lemma StructAccepts(names: seq<string>, types: seq<Type>)
    ensures StructType(names, types).Ok? <==>
            && names != [] && |names| == |types| && "" !in names && (forall t <- types :: Valid(t))
            && forall i, j | 0 <= i < j < |names| :: names[i] != names[j]
  {
    hide Valid, ValidFields;
    if names != [] && |names| == |types| {
      MemberFields(names, types);
    }
  }

  lemma MemberFields(names: seq<string>, types: seq<Type>)
    requires |names| == |types|
    ensures ValidFields(seq(|names|, i requires 0 <= i < |names| => Field(names[i], types[i]))) <==>
            && "" !in names && (forall t <- types :: Valid(t))
            && forall i, j | 0 <= i < j < |names| :: names[i] != names[j]
  {
    hide Valid;
    var fields := seq(|names|, i requires 0 <= i < |names| => Field(names[i], types[i]));
    assert forall i | 0 <= i < |names| :: fields[i].name == names[i] && fields[i].typ == types[i];
    if ValidFields(fields) {
      forall t | t in types ensures Valid(t) {
        var i :| 0 <= i < |types| && types[i] == t;
        assert fields[i].typ == t;
      }
      forall i, j | 0 <= i < j < |names| ensures names[i] != names[j] {
        assert fields[i].name != fields[j].name;
      }
      forall name | name in names ensures name != "" {
        var i :| 0 <= i < |names| && names[i] == name;
        assert fields[i].name != "";
      }
    }
    if "" !in names && (forall t <- types :: Valid(t)) && forall i, j | 0 <= i < j < |names| :: names[i] != names[j] {
      forall i | 0 <= i < |fields| ensures fields[i].name != "" && Valid(fields[i].typ) {
        assert names[i] in names && types[i] in types;
      }
      assert DistinctNames(fields);
    }
  }

  /** A path can be followed in two parts. */
  lemma {:induction false} MemberPathsCompose(t: Type, path: seq<string>, rest: seq<string>)
    ensures MemberType(t, path).Ok? ==> MemberType(t, path + rest) == MemberType(MemberType(t, path).value, rest)
    ensures MemberType(t, path).Err? ==> MemberType(t, path + rest).Err?
    decreases path
  {
    hide MemberStep;
    if path == [] {
      assert path + rest == rest;
    } else {
      assert (path + rest)[0] == path[0] && (path + rest)[1..] == path[1..] + rest;
      if MemberStep(t, path[0]).Ok? {
        MemberPathsCompose(MemberStep(t, path[0]).value, path[1..], rest);
      }
    }
  }

  /** A member of an Optional struct has the member's type, Optional unless it already is; a missing member is an error. */
  lemma MemberOfOptional(t: Type, name: string)
    requires t.kind == Struct
    ensures MemberType(OptionalOf(t), [name]).Ok? <==> MemberType(t, [name]).Ok?
    ensures MemberType(t, [name]).Ok? <==> exists i | 0 <= i < |t.fields| :: t.fields[i].name == name
    ensures MemberType(t, [name]).Ok? ==>
              MemberType(OptionalOf(t), [name]) == Ok(WithOptional(MemberType(t, [name]).value, true))
  {
    assert [name][1..] == [];
    FieldNamedExactly(t.fields, name);
    OneStep(t, name);
    OneStep(OptionalOf(t), name);
  }

  lemma OneStep(t: Type, name: string)
    ensures MemberType(t, [name]) == MemberStep(t, name)
  {
    hide MemberStep;
    assert [name][1..] == [];
  }

  lemma {:induction false} FieldNamedExactly(fields: seq<Field>, name: string)
    ensures FieldNamed(fields, name).Some? <==> exists i | 0 <= i < |fields| :: fields[i].name == name
    decreases |fields|
  {
    if fields != [] && fields[0].name != name {
      FieldNamedExactly(fields[1..], name);
      if i :| 0 <= i < |fields| && fields[i].name == name {
        assert fields[1..][i - 1] == fields[i];
      }
    }
  }

  /** ListFilter takes callbacks with only truth values, ListMap those with a legal type that is neither Null nor Void. */
  lemma ListApplyAccepts(filter: bool, list: Type, result: Type)
    requires Accepted(list) && Accepted(result)
    ensures ListApplyType(filter, list, result).Ok? <==>
            && Unwrap(list).kind == List && Valid(result)
            && (if filter then OnlyFlags(result) else result.kind != Null && result.kind != Void)
    ensures ListApplyType(filter, list, result).Ok? ==>
              ListApplyType(filter, list, result).value ==
              WithOptional(ListOf(if filter then CallbackItem(list).value else result), IsOptional(list))
  {
    hide Valid, OnlyFlags;
    UnwrappedIsCore(list);
    ValidParts(Unwrap(list));
    ListIsListOf(Unwrap(list));
    FlagsAreBool(result);
    UnwrappedIsCore(result);
  }

  lemma ListIsListOf(t: Type)
    requires Valid(t)
    ensures t.kind == List ==> t.elem.Some? && t == ListOf(t.elem.value)
  {
  }

  // ---------------------------------------------------------------- parameters

  /**
   * Between types that are Equal but for an Optional, a value is compatible with what a use asks for exactly when the
   * use can take all the values of its type.
   */
  lemma CompatibleKeepsValues(left: Type, right: Type)
    requires Valid(left) && Valid(right) && Accepted(left) && Accepted(right)
    requires Core(left).kind != Null && Equal(Core(left), Core(right))
    ensures Parameters.Compatible(left, right) <==> forall v | Conforms(v, left) :: Conforms(v, right)
  {
    hide Valid, Pick, Accepted, Equal, Conforms, Core;
    UnwrappedIsCore(left);
    UnwrappedIsCore(right);
    CompatibleExactly(left, right);
    EqualRanks(Core(left), Core(right));
    MissingOnlyOptional(left);
    MissingOnlyOptional(right);
    forall v | Conforms(v, Core(left)) ensures Conforms(v, Core(right)) {
      EqualTypesEqualValues(Core(left), Core(right), v);
    }
  }

  lemma MissingOnlyOptional(t: Type)
    requires Accepted(t) && Core(t).kind != Null
    ensures Conforms(Missing, t) <==> IsOptional(t)
    ensures !Conforms(Missing, Core(t))
  {
  }

  lemma CompatibleExactly(left: Type, right: Type)
    requires Valid(left) && Valid(right) && Accepted(left) && Accepted(right) && Equal(Core(left), Core(right))
    ensures Parameters.Compatible(left, right) <==> (IsOptional(left) ==> IsOptional(right))
  {
    hide Valid, Equal, WithOptional;
    UnwrappedIsCore(left);
    UnwrappedIsCore(right);
    EqualRanks(Core(left), Core(right));
    OptionalIsCore(left);
    OptionalIsCore(right);
    OptionalKeepsEqual(Core(left), Core(right), IsOptional(left));
    if Equal(left, right) { EqualRanks(left, right); }
    if Equal(left, Unwrap(right)) { EqualRanks(left, Unwrap(right)); }
  }

  lemma OptionalIsCore(t: Type)
    requires Valid(t) && Accepted(t)
    ensures t == WithOptional(Core(t), IsOptional(t))
  {
    UnwrappedIsCore(t);
  }
}
