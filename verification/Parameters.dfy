/** The external parameters of a query: which bind occurrences are listed, in which order, with which types. */
module Parameters {
  import opened Wrappers
  import opened Types
  import opened Sorting
  import opened Inference

  /** An occurrence of $name in the query text. */
  datatype Bind = Bind(position: int, name: string)

  /** What is known when the parameters of a script are listed. */
  datatype Knowledge = Knowledge(
    declared: map<string, Type>,
    inferred: map<string, Type>,
    nullable: set<string>, // arguments written with sqlc.narg
    declarationPositions: set<int>,
    localPositions: set<int>,
    localNames: set<string>)

  predicate IsExternal(b: Bind, k: Knowledge) {
    b.position !in k.localPositions && (b.name !in k.localNames || b.position in k.declarationPositions)
  }

  /** compatibleTypes: a non-Optional value is accepted where an Optional one is asked for. */
  predicate Compatible(left: Type, right: Type) {
    Equal(left, right) || (IsOptional(right) && Equal(left, Unwrap(right)))
  }

  /** An argument written with sqlc.narg becomes Optional. */
  function ListedAs(found: Type, nullable: bool): Type {
    if nullable && !IsOptional(found) then OptionalOf(found) else found
  }

  /** The type a parameter is listed with. */
  function ParameterType(name: string, k: Knowledge): Result<Type> {
    if name !in k.declared && name !in k.inferred then Err
    else
      var found := if name in k.declared then k.declared[name] else k.inferred[name];
      var t := ListedAs(found, name in k.nullable);
      if found.kind == NoKind then Err
      else if name in k.inferred && !Accepts(t, k.inferred[name], name in k.nullable) then Err
      else Ok(t)
  }

  predicate Accepts(t: Type, inferred: Type, nullable: bool) {
    if nullable then Equal(Unwrap(t), Unwrap(inferred)) else Compatible(t, inferred)
  }

  predicate AtMost(a: Bind, b: Bind) {
    a.position <= b.position
  }

  /** The names of the external occurrences, each where it occurs first. */
  function FirstNames(binds: seq<Bind>, k: Knowledge): seq<string> {
    if binds == [] then []
    else
      var before, last := FirstNames(binds[..|binds| - 1], k), binds[|binds| - 1];
      if IsExternal(last, k) && last.name !in before then before + [last.name] else before
  }

  function ListedTypes(names: seq<string>, k: Knowledge): Result<seq<Field>> {
    if names == [] then Ok([])
    else
      var n := |names| - 1;
      match (ListedTypes(names[..n], k), ParameterType(names[n], k))
      case (Ok(before), Ok(t)) => Ok(before + [Field(names[n], t)])
      case _ => Err
  }

  /** externalParameters: a diagnostic anywhere means that the query has no parameters. */
  method ExternalParameters(occurrences: seq<Bind>, k: Knowledge) returns (r: Result<seq<Field>>)
    ensures r == ListedTypes(FirstNames(Sort(AtMost, occurrences), k), k)
  {
    hide ParameterType, IsExternal, Sort;
    var binds := Sort(AtMost, occurrences);
    var seen: set<string> := {};
    var parameters: seq<Field> := [];
    var failed := false;
    for i := 0 to |binds|
      invariant forall name :: name in seen <==> name in FirstNames(binds[..i], k)
      invariant ListedTypes(FirstNames(binds[..i], k), k) == if failed then Err else Ok(parameters)
    {
      assert binds[..i + 1][..i] == binds[..i];
      var name := binds[i].name;
      if !IsExternal(binds[i], k) || name in seen { continue; }
      seen := seen + {name};
      ghost var before := FirstNames(binds[..i], k);
      assert (before + [name])[..|before|] == before;
      var t := ParameterType(name, k);
      if t.Err? {
        failed := true;
      } else {
        parameters := parameters + [Field(name, t.value)];
      }
    }
    assert binds[..|binds|] == binds;
    r := if failed then Err else Ok(parameters);
  }

  // ---------------------------------------------------------------- which parameters, in which order

  lemma {:induction false} FirstNamesAreExternal(binds: seq<Bind>, k: Knowledge, name: string)
    ensures name in FirstNames(binds, k) <==> exists b <- binds :: IsExternal(b, k) && b.name == name
    decreases |binds|
  {
    hide IsExternal;
    if binds != [] {
      var n := |binds| - 1;
      FirstNamesAreExternal(binds[..n], k, name);
      assert binds == binds[..n] + [binds[n]];
      if exists b <- binds :: IsExternal(b, k) && b.name == name {
        var b :| b in binds && IsExternal(b, k) && b.name == name;
        assert b in binds[..n] || b == binds[n];
      }
      if exists b <- binds[..n] :: IsExternal(b, k) && b.name == name {
        var b :| b in binds[..n] && IsExternal(b, k) && b.name == name;
        assert b in binds;
      }
    }
  }

  /** No name is listed twice, and an earlier name has an occurrence before all occurrences of a later one. */
  predicate InFirstOrder(names: seq<string>, binds: seq<Bind>, k: Knowledge) {
    forall i, j | 0 <= i < j < |names| :: names[i] != names[j] && Precedes(names[i], names[j], binds, k)
  }

  predicate Precedes(name: string, later: string, binds: seq<Bind>, k: Knowledge) {
    exists b <- binds :: b.name == name && IsExternal(b, k) && Before(b, later, binds, k)
  }

  predicate Before(b: Bind, name: string, binds: seq<Bind>, k: Knowledge) {
    forall c <- binds :: IsExternal(c, k) && c.name == name ==> b.position <= c.position
  }

  lemma LastIsLast(binds: seq<Bind>, b: Bind)
    requires binds != [] && Ascending(AtMost, binds) && b in binds
    ensures b.position <= binds[|binds| - 1].position
  {
    var i :| 0 <= i < |binds| && binds[i] == b;
    if i < |binds| - 1 {
      AscendingPairs(AtMost, binds, i, |binds| - 1);
    }
  }

  lemma {:induction false} AscendingFront(binds: seq<Bind>)
    requires binds != [] && Ascending(AtMost, binds)
    ensures Ascending(AtMost, binds[..|binds| - 1])
    decreases |binds|
  {
    if |binds| > 1 {
      var front := binds[..|binds| - 1];
      assert front[1..] == binds[1..][..|binds| - 2];
      AscendingFront(binds[1..]);
      forall c | c in front[1..] ensures AtMost(front[0], c) {
        assert c in binds[1..];
      }
    }
  }

  lemma {:induction false} FirstNamesInOrder(binds: seq<Bind>, k: Knowledge)
    requires Ascending(AtMost, binds)
    ensures InFirstOrder(FirstNames(binds, k), binds, k)
    decreases |binds|
  {
    hide IsExternal, Ascending;
    if binds != [] {
      var n := |binds| - 1;
      var before, last := binds[..n], binds[n];
      assert binds == before + [last];
      AscendingFront(binds);
      FirstNamesInOrder(before, k);
      var names, all := FirstNames(before, k), FirstNames(binds, k);
      forall i, j | 0 <= i < j < |all|
        ensures all[i] != all[j] && Precedes(all[i], all[j], binds, k)
      {
        var b := FirstOf(before, names, k, all[i], if j < |names| then Some(all[j]) else None);
        LastIsLast(binds, b);
        assert b in binds;
        if j == |names| {
          forall c | c in binds && IsExternal(c, k) && c.name == all[j] ensures c == last {
            FirstNamesAreExternal(before, k, all[j]);
          }
        }
        assert Before(b, all[j], binds, k);
      }
    }
  }

  /** An external occurrence of a listed name, before all occurrences of another one listed later. */
  lemma FirstOf(binds: seq<Bind>, names: seq<string>, k: Knowledge, name: string, later: Option<string>) returns (b: Bind)
    requires names == FirstNames(binds, k) && InFirstOrder(names, binds, k) && name in names
    requires later.Some? ==> exists i, j :: 0 <= i < j < |names| && names[i] == name && names[j] == later.value
    ensures b in binds && b.name == name && IsExternal(b, k)
    ensures later.Some? ==> Before(b, later.value, binds, k)
  {
    hide IsExternal, Before;
    if later.Some? {
      var i, j :| 0 <= i < j < |names| && names[i] == name && names[j] == later.value;
      assert Precedes(names[i], names[j], binds, k);
      b :| b in binds && b.name == names[i] && IsExternal(b, k) && Before(b, names[j], binds, k);
    } else {
      FirstNamesAreExternal(binds, k, name);
      b :| b in binds && b.name == name && IsExternal(b, k);
    }
  }

  lemma ByPosition()
    ensures TotalPreorder(AtMost)
  {
  }

  lemma {:induction false} ListedNames(names: seq<string>, k: Knowledge)
    ensures ListedTypes(names, k).Ok? <==> forall name <- names :: ParameterType(name, k).Ok?
    ensures ListedTypes(names, k).Ok? ==>
              var fields := ListedTypes(names, k).value;
              |fields| == |names|
              && forall i | 0 <= i < |names| :: ParameterType(names[i], k) == Ok(fields[i].typ) && fields[i].name == names[i]
    decreases |names|
  {
    hide ParameterType;
    if names != [] {
      var n := |names| - 1;
      ListedNames(names[..n], k);
      assert names == names[..n] + [names[n]];
    }
  }

  /** On success the external names are listed once each, in the order of their first occurrences, and no other. */
  lemma ParametersAreTheExternalNames(occurrences: seq<Bind>, k: Knowledge)
    ensures var names := FirstNames(Sort(AtMost, occurrences), k);
            && InFirstOrder(names, occurrences, k)
            && (forall name :: name in names <==> exists b <- occurrences :: IsExternal(b, k) && b.name == name)
            && (ListedTypes(names, k).Ok? <==>
                forall b <- occurrences :: IsExternal(b, k) ==> ParameterType(b.name, k).Ok?)
  {
    hide IsExternal, ParameterType, FirstNames, ListedTypes, Sort;
    var binds := Sort(AtMost, occurrences);
    var names := FirstNames(binds, k);
    ByPosition();
    SortIsAscending(AtMost, occurrences);
    SortIsPermutation(AtMost, occurrences);
    FirstNamesInOrder(binds, k);
    forall b ensures b in binds <==> b in occurrences { SameElements(binds, occurrences, b); }
    forall name ensures name in names <==> exists b <- occurrences :: IsExternal(b, k) && b.name == name {
      FirstNamesAreExternal(binds, k, name);
    }
    SameOccurrences(names, binds, occurrences, k);
    ListedNames(names, k);
  }

  lemma SameOccurrences(names: seq<string>, binds: seq<Bind>, occurrences: seq<Bind>, k: Knowledge)
    requires forall b :: b in binds <==> b in occurrences
    requires InFirstOrder(names, binds, k)
    ensures InFirstOrder(names, occurrences, k)
  {
    hide IsExternal;
    forall i, j | 0 <= i < j < |names|
      ensures Precedes(names[i], names[j], occurrences, k)
    {
      assert Precedes(names[i], names[j], binds, k);
      var b :| b in binds && b.name == names[i] && IsExternal(b, k) && Before(b, names[j], binds, k);
      assert Before(b, names[j], occurrences, k);
    }
  }

  // ---------------------------------------------------------------- with which types

  /** A known type that agrees with what was inferred is accepted at every use. */
  lemma FitsEveryUse(t: Type, uses: seq<Type>)
    requires Usable(t) && uses != [] && AllUsable(uses)
    ensures Compatible(t, Inferred(uses)) <==> !Disagree(uses) && forall u <- uses :: Compatible(t, u)
  {
    hide Equal, Distinct, ShapeOf, Inferred, Disagree, Usable;
    InferredIsDetermined(uses);
    var inferred := Inferred(uses);
    if Disagree(uses) {
      NothingFitsConflict(t);
    } else if Compatible(t, inferred) {
      forall u | u in uses ensures Compatible(t, u) {
        FitsUse(t, inferred, u, uses);
      }
    }
  }

  lemma NothingFitsConflict(t: Type)
    requires Usable(t)
    ensures !Compatible(t, Conflict())
  {
  }

  lemma FitsUse(t: Type, inferred: Type, u: Type, uses: seq<Type>)
    requires Usable(t) && Usable(inferred) && Usable(u) && Compatible(t, inferred)
    requires Equal(Unwrap(inferred), Unwrap(u)) && (IsOptional(inferred) ==> IsOptional(u))
    ensures Compatible(t, u)
  {
    hide Equal, Distinct, ShapeOf;
    UnwrapIsDistinct(t);
    UnwrapIsDistinct(inferred);
    UnwrapIsDistinct(u);
    if Equal(t, inferred) {
      EqualUnwraps(t, inferred);
      EqualIsEquivalence(Unwrap(t), Unwrap(inferred), Unwrap(u));
      if IsOptional(t) == IsOptional(u) {
        EqualFromUnwraps(t, u);
      }
    } else {
      EqualIsEquivalence(t, Unwrap(inferred), Unwrap(u));
    }
  }

  /** The same for an argument written with sqlc.narg, where nullability is set aside. */
  lemma NullableFitsEveryUse(t: Type, uses: seq<Type>)
    requires Usable(t) && uses != [] && AllUsable(uses) && (Disagree(uses) ==> Unwrap(t).kind != NoKind)
    ensures Accepts(t, Inferred(uses), true) <==> !Disagree(uses) && forall u <- uses :: Accepts(t, u, true)
  {
    hide Equal, Distinct, ShapeOf, Inferred, Usable;
    InferredIsDetermined(uses);
    if Disagree(uses) {
      NoPlainConflict(Unwrap(t));
    } else {
      UsableIsDistinct(t);
      UsableIsDistinct(Inferred(uses));
      forall u | u in uses ensures Accepts(t, u, true) <==> Accepts(t, Inferred(uses), true) {
        UsableIsDistinct(u);
        EqualIsEquivalence(Unwrap(t), Unwrap(Inferred(uses)), Unwrap(u));
        EqualIsEquivalence(Unwrap(t), Unwrap(u), Unwrap(Inferred(uses)));
        EqualIsEquivalence(Unwrap(Inferred(uses)), Unwrap(u), Unwrap(t));
      }
      assert uses[0] in uses;
    }
  }

  lemma NoPlainConflict(t: Type)
    requires t.kind != NoKind
    ensures !Equal(t, Conflict())
  {
  }

  lemma UsableIsDistinct(t: Type)
    requires Usable(t)
    ensures Distinct(Unwrap(t))
  {
  }

  /** The Optional that sqlc.narg adds changes nothing where nullability is set aside. */
  lemma ListedAcceptsAlike(t: Type, u: Type, nullable: bool)
    requires Usable(t)
    ensures Accepts(ListedAs(t, nullable), u, nullable) == Accepts(t, u, nullable)
  {
    hide Equal;
  }

  lemma ListedFitsEveryUse(found: Type, uses: seq<Type>, nullable: bool)
    requires Usable(found) && uses != [] && AllUsable(uses)
    requires nullable && Disagree(uses) ==> Unwrap(found).kind != NoKind
    ensures Accepts(ListedAs(found, nullable), Inferred(uses), nullable) <==>
            !Disagree(uses) && forall u <- uses :: Accepts(found, u, nullable)
    ensures forall u <- uses :: Accepts(ListedAs(found, nullable), u, nullable) == Accepts(found, u, nullable)
  {
    hide Equal, Usable, Inferred, Disagree, ListedAs;
    if nullable {
      NullableFitsEveryUse(found, uses);
    } else {
      FitsEveryUse(found, uses);
    }
    ListedAcceptsAlike(found, Inferred(uses), nullable);
    forall u | u in uses ensures Accepts(ListedAs(found, nullable), u, nullable) == Accepts(found, u, nullable) {
      ListedAcceptsAlike(found, u, nullable);
    }
  }

  /** The type itself, or its Optional for an argument written with sqlc.narg. */
  predicate IsListed(known: Type, nullable: bool, t: Type) {
    t == known || (nullable && !IsOptional(known) && t == OptionalOf(known))
  }

  /**
   * A parameter is listed exactly when its uses agree and its declared type, if it has one, is accepted at each of
   * them; it is then accepted at every use.  Its type is the declared one, or else the inferred one; an argument written
   * with sqlc.narg is compared without regard to nullability and listed as Optional.
   */
  lemma ParameterFitsEveryUse(name: string, uses: seq<(string, Type)>, k: Knowledge)
    requires Summarizes(k.inferred, uses) && AllUsable(UsesOf(uses, name))
    requires name in k.declared ==> Usable(k.declared[name])
    requires name in k.declared && name in k.nullable ==> Unwrap(k.declared[name]).kind != NoKind
    requires name in k.declared || UsesOf(uses, name) != []
    ensures ParameterType(name, k).Ok? <==>
            && !Disagree(UsesOf(uses, name))
            && (name in k.declared ==> forall u <- UsesOf(uses, name) :: Accepts(k.declared[name], u, name in k.nullable))
    ensures ParameterType(name, k).Ok? ==>
              && (forall u <- UsesOf(uses, name) :: Accepts(ParameterType(name, k).value, u, name in k.nullable))
              && (name in k.nullable ==> IsOptional(ParameterType(name, k).value))
    ensures ParameterType(name, k).Ok? ==>
              && (name in k.declared ==> IsListed(k.declared[name], name in k.nullable, ParameterType(name, k).value))
              && (name !in k.declared ==> IsListed(Inferred(UsesOf(uses, name)), name in k.nullable, ParameterType(name, k).value))
  {
    hide Equal, Distinct, ShapeOf, Inferred, Disagree, Accepts;
    var mine, nullable := UsesOf(uses, name), name in k.nullable;
    if mine == [] {
      NoUsesAgree(mine);
    } else {
      InferredIsDetermined(mine);
      if name in k.declared {
        ListedFitsEveryUse(k.declared[name], mine, nullable);
      } else if !Disagree(mine) {
        FitsItself(Inferred(mine), nullable);
        ListedAcceptsAlike(Inferred(mine), Inferred(mine), nullable);
        ListedFitsEveryUse(Inferred(mine), mine, nullable);
      }
    }
  }

  lemma NoUsesAgree(uses: seq<Type>)
    requires uses == []
    ensures !Disagree(uses)
  {
  }

  lemma FitsItself(t: Type, nullable: bool)
    requires Usable(t)
    ensures Accepts(t, t, nullable)
  {
    hide Equal, Distinct, ShapeOf;
    UnwrapIsDistinct(t);
    EqualIsEquivalence(t, t, t);
    EqualIsEquivalence(Unwrap(t), Unwrap(t), Unwrap(t));
  }
}
