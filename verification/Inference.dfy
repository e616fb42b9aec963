/** Parameter types inferred from the places where parameters are used (inferParameter in internal/analyzer/semantic.go). */
module Inference {
  import opened Wrappers
  import opened Types

  /** The zero Type marks a parameter whose uses disagree. */
  function Conflict(): Type {
    Plain(NoKind)
  }

  /** A type that a use can ask for: not the marker, and Optional only around something. */
  predicate Usable(t: Type) {
    t.kind != NoKind && Distinct(t) && (IsOptional(t) ==> t.elem.Some? && t == OptionalOf(t.elem.value))
  }

  /** What one more use makes of what is known so far. */
  function Next(previous: Type, t: Type): Type {
    if Equal(previous, t) then t
    else if previous.kind == NoKind then previous
    else if Equal(Unwrap(previous), Unwrap(t)) then if IsOptional(previous) && !IsOptional(t) then t else previous
    else Conflict()
  }

  /** All uses of one parameter, first to last. */
  function Inferred(uses: seq<Type>): Type
    requires uses != []
  {
    var last := uses[|uses| - 1];
    if |uses| == 1 then last else Next(Inferred(uses[..|uses| - 1]), last)
  }

  /** The map of all parameters, as the analysis of a script fills it. */
  class Table {
    var types: map<string, Type>

    constructor ()
      ensures types == map[]
    {
      types := map[];
    }

    /** inferParameter. */
    method Infer(name: string, t: Type)
      modifies this
      ensures types == old(types)[name := if name in old(types) then Next(old(types)[name], t) else t]
    {
      if name !in types {
        types := types[name := t];
        return;
      }
      var previous := types[name];
      var same := CheckEqual(previous, t);
      if same {
        types := types[name := t];
        return;
      }
      if previous.kind == NoKind {
        assert types == types[name := previous];
        return;
      }
      same := CheckEqual(Unwrap(previous), Unwrap(t));
      if same {
        if IsOptional(previous) && !IsOptional(t) {
          types := types[name := t];
        } else {
          assert types == types[name := previous];
        }
        return;
      }
      types := types[name := Conflict()];
    }

    /** All uses in a script: what is known of a parameter comes from its own uses only. */
    method InferAll(uses: seq<(string, Type)>)
      requires types == map[]
      modifies this
      ensures Summarizes(types, uses)
    {
      for i := 0 to |uses|
        invariant Summarizes(types, uses[..i])
      {
        ghost var before := types;
        Infer(uses[i].0, uses[i].1);
        assert Summarizes(types, uses[..i + 1]) by {
          SummaryGrows(before, uses[..i], uses[i].0, uses[i].1);
          assert uses[..i + 1] == uses[..i] + [uses[i]];
        }
      }
      assert uses[..|uses|] == uses;
    }
  }

  /** The uses of one parameter. */
  function UsesOf(uses: seq<(string, Type)>, name: string): seq<Type> {
    if uses == [] then []
    else
      var last := uses[|uses| - 1];
      UsesOf(uses[..|uses| - 1], name) + if last.0 == name then [last.1] else []
  }

  /** A map holds, for exactly the parameters that are used, what their own uses say. */
  ghost predicate Summarizes(types: map<string, Type>, uses: seq<(string, Type)>) {
    && (forall name :: name in types <==> UsesOf(uses, name) != [])
    && (forall name <- types :: types[name] == Inferred(UsesOf(uses, name)))
  }

  lemma SummaryGrows(types: map<string, Type>, uses: seq<(string, Type)>, name: string, t: Type)
    requires Summarizes(types, uses)
    ensures Summarizes(types[name := if name in types then Next(types[name], t) else t], uses + [(name, t)])
  {
    hide Next, Inferred, UsesOf;
    var more := uses + [(name, t)];
    var next := types[name := if name in types then Next(types[name], t) else t];
    forall other
      ensures other in next <==> UsesOf(more, other) != []
      ensures other in next ==> next[other] == Inferred(UsesOf(more, other))
    {
      OneMoreUse(uses, name, t, other);
      if other == name { InferOneMore(UsesOf(uses, name), t); }
    }
  }

  lemma OneMoreUse(uses: seq<(string, Type)>, name: string, t: Type, other: string)
    ensures UsesOf(uses + [(name, t)], other) == if other == name then UsesOf(uses, other) + [t] else UsesOf(uses, other)
  {
    assert (uses + [(name, t)])[..|uses|] == uses;
  }

  lemma InferOneMore(uses: seq<Type>, t: Type)
    ensures Inferred(uses + [t]) == if uses == [] then t else Next(Inferred(uses), t)
  {
    hide Next;
    assert (uses + [t])[..|uses|] == uses;
  }

  // ---------------------------------------------------------------- what is inferred

  predicate AllUsable(uses: seq<Type>) {
    forall t <- uses :: Usable(t)
  }

  /** Two uses ask for types that differ in more than nullability. */
  predicate Disagree(uses: seq<Type>) {
    exists t, u | t in uses && u in uses :: !Equal(Unwrap(t), Unwrap(u))
  }

  lemma UnwrapIsDistinct(t: Type)
    requires Distinct(t)
    ensures Distinct(Unwrap(t))
  {
  }

  lemma EqualUnwraps(t: Type, u: Type)
    requires Usable(t) && Equal(t, u)
    ensures Equal(Unwrap(t), Unwrap(u)) && IsOptional(t) == IsOptional(u)
  {
  }

  lemma EqualFromUnwraps(t: Type, u: Type)
    requires Usable(t) && Usable(u) && IsOptional(t) == IsOptional(u) && Equal(Unwrap(t), Unwrap(u))
    ensures Equal(t, u)
  {
  }

  /**
   * The uses disagree exactly when the marker is inferred.  Otherwise the inferred type is one of the types asked for,
   * it agrees with all of them, and it is Optional only when all of them are.
   */
  lemma {:induction false} InferredIsDetermined(uses: seq<Type>)
    requires uses != [] && AllUsable(uses)
    ensures var t := Inferred(uses);
            if Disagree(uses) then t == Conflict()
            else
              && Usable(t) && t in uses
              && (forall u <- uses :: Equal(Unwrap(t), Unwrap(u)))
              && (IsOptional(t) <==> forall u <- uses :: IsOptional(u))
    decreases |uses|
  {
    hide Equal, Distinct, ShapeOf;
    var n := |uses| - 1;
    var before, last := uses[..n], uses[n];
    assert uses == before + [last];
    Reflexive(last);
    if n > 0 {
      InferredIsDetermined(before);
      var previous := Inferred(before);
      if Disagree(before) {
        DisagreeGrows(before, last);
        assert !Equal(Conflict(), last) by { DifferentKinds(Conflict(), last); }
      } else {
        AddUse(before, last, previous);
      }
    }
  }

  lemma DifferentKinds(t: Type, u: Type)
    requires t.kind != u.kind
    ensures !Equal(t, u)
  {
  }

  lemma Reflexive(t: Type)
    requires Usable(t)
    ensures Equal(Unwrap(t), Unwrap(t))
  {
    hide Equal, ShapeOf;
    UnwrapIsDistinct(t);
    EqualIsEquivalence(Unwrap(t), Unwrap(t), Unwrap(t));
  }

  lemma DisagreeGrows(before: seq<Type>, last: Type)
    requires Disagree(before)
    ensures Disagree(before + [last])
  {
    hide Equal;
    var t, u :| t in before && u in before && !Equal(Unwrap(t), Unwrap(u));
    assert t in before + [last] && u in before + [last];
  }

  lemma Agreement(before: seq<Type>, last: Type, previous: Type)
    requires Usable(last) && previous in before && AllUsable(before)
    requires forall u <- before :: Equal(Unwrap(previous), Unwrap(u))
    requires Equal(Unwrap(previous), Unwrap(last))
    ensures forall u <- before + [last] :: Equal(Unwrap(previous), Unwrap(u)) && Equal(Unwrap(last), Unwrap(u))
    ensures !Disagree(before + [last])
  {
    hide Equal, Distinct, Usable, ShapeOf;
    var uses := before + [last];
    forall t, u | t in uses && u in uses ensures Equal(Unwrap(t), Unwrap(u)) {
      assert Usable(t) && Usable(u) && Usable(previous);
      UsableUnwraps(t);
      UsableUnwraps(u);
      UsableUnwraps(previous);
      EqualIsEquivalence(Unwrap(previous), Unwrap(t), Unwrap(u));
      EqualIsEquivalence(Unwrap(t), Unwrap(previous), Unwrap(u));
    }
    assert last in uses && previous in uses;
  }

  lemma UsableUnwraps(t: Type)
    requires Usable(t)
    ensures Distinct(Unwrap(t))
  {
    UnwrapIsDistinct(t);
  }

  lemma AddUse(before: seq<Type>, last: Type, previous: Type)
    requires AllUsable(before) && Usable(last) && previous in before
    requires forall u <- before :: Equal(Unwrap(previous), Unwrap(u))
    requires IsOptional(previous) <==> forall u <- before :: IsOptional(u)
    ensures var t := Next(previous, last);
            if Disagree(before + [last]) then t == Conflict()
            else
              && Usable(t) && t in before + [last]
              && (forall u <- before + [last] :: Equal(Unwrap(t), Unwrap(u)))
              && (IsOptional(t) <==> forall u <- before + [last] :: IsOptional(u))
  {
    hide Equal, Distinct, ShapeOf;
    assert Usable(previous);
    if Equal(previous, last) {
      EqualUnwraps(previous, last);
    }
    if Equal(Unwrap(previous), Unwrap(last)) {
      Agreement(before, last, previous);
    } else {
      assert previous in before + [last] && last in before + [last];
      assert Disagree(before + [last]);
    }
  }

  // ---------------------------------------------------------------- consequences

  /** Every use of the one list is matched by a use of the other. */
  predicate CoveredBy(uses: seq<Type>, others: seq<Type>) {
    forall t <- uses :: exists u <- others :: Equal(t, u)
  }

  lemma CoveredDisagrees(uses: seq<Type>, others: seq<Type>)
    requires AllUsable(uses) && AllUsable(others) && CoveredBy(uses, others) && Disagree(uses)
    ensures Disagree(others)
  {
    hide Equal, Distinct, ShapeOf;
    var t, u :| t in uses && u in uses && !Equal(Unwrap(t), Unwrap(u));
    var t2 :| t2 in others && Equal(t, t2);
    var u2 :| u2 in others && Equal(u, u2);
    EqualUnwraps(t, t2);
    EqualUnwraps(u, u2);
    UnwrapIsDistinct(t); UnwrapIsDistinct(u); UnwrapIsDistinct(t2); UnwrapIsDistinct(u2);
    if Equal(Unwrap(t2), Unwrap(u2)) {
      EqualIsEquivalence(Unwrap(t), Unwrap(t2), Unwrap(u2));
      EqualIsEquivalence(Unwrap(u), Unwrap(u2), Unwrap(u2));
      EqualIsEquivalence(Unwrap(t), Unwrap(u2), Unwrap(u));
    }
  }

  lemma CoveredOptional(uses: seq<Type>, others: seq<Type>)
    requires AllUsable(uses) && CoveredBy(uses, others) && (forall u <- others :: IsOptional(u))
    ensures forall t <- uses :: IsOptional(t)
  {
    hide Equal, Distinct, ShapeOf;
    forall t | t in uses ensures IsOptional(t) {
      var u :| u in others && Equal(t, u);
      EqualUnwraps(t, u);
    }
  }

  /**
   * Only the set of uses matters, up to Equal: not their order, not how often each occurs, and not whether a pass over
   * the script is repeated.
   */
  lemma {:induction false} InferredDependsOnSetOnly(uses: seq<Type>, others: seq<Type>)
    requires uses != [] && others != [] && AllUsable(uses) && AllUsable(others)
    requires CoveredBy(uses, others) && CoveredBy(others, uses)
    ensures Equal(Inferred(uses), Inferred(others))
  {
    hide Equal, Distinct, ShapeOf, Inferred, Disagree, Usable, AllUsable, Conflict, Unwrap, CoveredBy, IsOptional;
    InferredIsDetermined(uses);
    InferredIsDetermined(others);
    var t, u := Inferred(uses), Inferred(others);
    if Disagree(uses) {
      CoveredDisagrees(uses, others);
      ConflictEqualsItself();
    } else {
      if Disagree(others) { CoveredDisagrees(others, uses); }
      if IsOptional(u) { CoveredOptional(uses, others); }
      if IsOptional(t) { CoveredOptional(others, uses); }
      CoveredMember(uses, others, t);
      MatchedVerdict(others, t, u);
    }
  }

  lemma CoveredMember(uses: seq<Type>, others: seq<Type>, t: Type)
    requires CoveredBy(uses, others) && t in uses
    ensures exists u <- others :: Equal(t, u)
  {
    hide Equal;
  }

  lemma MatchedVerdict(others: seq<Type>, t: Type, u: Type)
    requires Usable(t) && Usable(u) && AllUsable(others) && IsOptional(t) == IsOptional(u)
    requires exists u2 <- others :: Equal(t, u2)
    requires forall u2 <- others :: Equal(Unwrap(u), Unwrap(u2))
    ensures Equal(t, u)
  {
    hide Equal, Distinct, ShapeOf;
    var u2 :| u2 in others && Equal(t, u2);
    EqualUnwraps(t, u2);
    UnwrapIsDistinct(t);
    UnwrapIsDistinct(u);
    UnwrapIsDistinct(u2);
    EqualIsEquivalence(Unwrap(u), Unwrap(u2), Unwrap(u2));
    EqualIsEquivalence(Unwrap(t), Unwrap(u2), Unwrap(u));
    EqualFromUnwraps(t, u);
  }

  lemma ConflictEqualsItself()
    ensures Equal(Conflict(), Conflict())
  {
  }

  lemma SubsetIsCovered(uses: seq<Type>, others: seq<Type>)
    requires AllUsable(uses) && forall t <- uses :: t in others
    ensures CoveredBy(uses, others)
  {
    hide Equal, Distinct, ShapeOf;
    forall t | t in uses ensures exists u <- others :: Equal(t, u) {
      EqualIsEquivalence(t, t, t);
    }
  }

  /** A second pass over the same uses, in whatever order, changes nothing; and a disagreement stays one. */
  lemma RepeatedPassChangesNothing(uses: seq<Type>, again: seq<Type>)
    requires uses != [] && AllUsable(uses) && forall t <- again :: t in uses
    ensures Equal(Inferred(uses + again), Inferred(uses))
    ensures Disagree(uses) ==> Inferred(uses + again) == Conflict()
  {
    hide Equal, Distinct, ShapeOf, Inferred, Disagree, CoveredBy, Usable;
    assert AllUsable(uses + again);
    SubsetIsCovered(uses + again, uses);
    SubsetIsCovered(uses, uses + again);
    InferredDependsOnSetOnly(uses + again, uses);
    InferredIsDetermined(uses + again);
    if Disagree(uses) {
      CoveredDisagrees(uses, uses + again);
    }
  }
}
