/** The columns of a UNION (reconcileUnionColumns in internal/analyzer/select_semantic.go). */
module Union {
  import opened Wrappers
  import opened Types
  import opened CommonTypes
  import opened ResultColumns

  type Arm = seq<ResultColumn>

  // ---------------------------------------------------------------- columns by result name

  /** The first column of that result name. */
  function Find(columns: seq<ResultColumn>, name: string): Option<ResultColumn> {
    if columns == [] then None
    else if ResultName(columns[0]) == name then Some(columns[0])
    else Find(columns[1..], name)
  }

  predicate Repeats(arm: Arm) {
    exists i, j | 0 <= i < j < |arm| :: ResultName(arm[i]) == ResultName(arm[j])
  }

  function Flatten(arms: seq<Arm>): seq<ResultColumn> {
    if arms == [] then [] else Flatten(arms[..|arms| - 1]) + arms[|arms| - 1]
  }

  /** Result names in the order of their first columns. */
  function NamesOf(columns: seq<ResultColumn>): seq<string> {
    if columns == [] then []
    else
      var before, name := NamesOf(columns[..|columns| - 1]), ResultName(columns[|columns| - 1]);
      if name in before then before else before + [name]
  }

  function TypesOf(arms: seq<Arm>, name: string): seq<Type> {
    if arms == [] then []
    else
      var before, found := TypesOf(arms[..|arms| - 1], name), Find(arms[|arms| - 1], name);
      if found.Some? then before + [found.value.typ] else before
  }

  predicate IsMissing(arms: seq<Arm>, name: string) {
    exists arm <- arms :: Find(arm, name).None?
  }

  /** The common type of the arms that have the column, Optional when some arm has not. */
  function UnionType(arms: seq<Arm>, name: string): Result<Type> {
    match CommonType(TypesOf(arms, name))
    case Err => Err
    case Ok(t) => Ok(WithOptional(t, IsMissing(arms, name)))
  }

  /** How many of the result names are written with the same column name by their first columns. */
  function SharedBy(columns: seq<ResultColumn>, names: seq<string>, api: string): nat {
    if names == [] then 0
    else
      var first := Find(columns, names[|names| - 1]);
      SharedBy(columns, names[..|names| - 1], api) + if first.Some? && first.value.name == api then 1 else 0
  }

  /** strings.ReplaceAll(name, ".", "_"). */
  function Underscored(name: string): string {
    seq(|name|, i requires 0 <= i < |name| => if name[i] == '.' then '_' else name[i])
  }

  function UnionColumn(arms: seq<Arm>, name: string): Result<ResultColumn> {
    var columns := Flatten(arms);
    match (Find(columns, name), UnionType(arms, name))
    case (Some(first), Ok(t)) =>
      if SharedBy(columns, NamesOf(columns), first.name) > 1 then Ok(ResultColumn(Underscored(name), name, t))
      else if first.name != name then Ok(ResultColumn(first.name, name, t))
      else Ok(ResultColumn(first.name, "", t))
    case _ => Err
  }

  predicate HasColumn(columns: seq<ResultColumn>, name: string) {
    exists c <- columns :: c.name == name
  }

  /** The columns of the first names, or an error if one has no type or repeats a column name. */
  function UnionColumns(arms: seq<Arm>, names: seq<string>): Result<seq<ResultColumn>> {
    if names == [] then Ok([])
    else
      match (UnionColumns(arms, names[..|names| - 1]), UnionColumn(arms, names[|names| - 1]))
      case (Ok(before), Ok(c)) => if HasColumn(before, c.name) then Err else Ok(before + [c])
      case _ => Err
  }

  function Reconciled(arms: seq<Arm>): Result<seq<ResultColumn>> {
    if |arms| == 1 then Ok(arms[0])
    else if exists arm <- arms :: Repeats(arm) then Err
    else UnionColumns(arms, NamesOf(Flatten(arms)))
  }

  // ---------------------------------------------------------------- the loops

  /** A map from result names to the first columns of these names. */
  ghost predicate Indexes(table: map<string, ResultColumn>, columns: seq<ResultColumn>) {
    forall name :: Find(columns, name) == if name in table then Some(table[name]) else None
  }

  lemma {:induction false} FindInBoth(columns: seq<ResultColumn>, c: ResultColumn, name: string)
    ensures Find(columns + [c], name) ==
            if Find(columns, name).Some? then Find(columns, name) else if ResultName(c) == name then Some(c) else None
    decreases |columns|
  {
    hide ResultName;
    if columns == [] {
      assert columns + [c] == [c] && [c][1..] == [];
    } else {
      assert (columns + [c])[1..] == columns[1..] + [c];
      FindInBoth(columns[1..], c, name);
    }
  }

  lemma IndexesMore(table: map<string, ResultColumn>, columns: seq<ResultColumn>, c: ResultColumn)
    requires Indexes(table, columns)
    ensures Indexes(if ResultName(c) in table then table else table[ResultName(c) := c], columns + [c])
  {
    hide ResultName, Find;
    forall name ensures Find(columns + [c], name) ==
                        if Find(columns, name).Some? then Find(columns, name) else if ResultName(c) == name then Some(c) else None
    {
      FindInBoth(columns, c, name);
    }
  }

  lemma {:induction false} NamesAreFound(columns: seq<ResultColumn>, name: string)
    ensures name in NamesOf(columns) <==> Find(columns, name).Some?
    decreases |columns|
  {
    hide ResultName;
    if columns != [] {
      var n := |columns| - 1;
      NamesAreFound(columns[..n], name);
      FindInBoth(columns[..n], columns[n], name);
      assert columns == columns[..n] + [columns[n]];
    }
  }

  /** What the first loop knows after some of the columns of all arms. */
  ghost predicate Collected(columns: seq<ResultColumn>, names: seq<string>, first: map<string, ResultColumn>) {
    names == NamesOf(columns) && Indexes(first, columns)
  }

  lemma CollectMore(columns: seq<ResultColumn>, names: seq<string>, first: map<string, ResultColumn>, c: ResultColumn)
    requires Collected(columns, names, first)
    ensures var name := ResultName(c);
            Collected(columns + [c],
                      if name in first then names else names + [name],
                      if name in first then first else first[name := c])
  {
    hide Find, ResultName;
    IndexesMore(first, columns, c);
    NamesAreFound(columns, ResultName(c));
    assert (columns + [c])[..|columns|] == columns;
  }

  /** One arm of the first loop: its own table, and the names it adds. */
  method CollectArm(arm: Arm, names: seq<string>, first: map<string, ResultColumn>, ghost before: seq<ResultColumn>)
    returns (table: map<string, ResultColumn>, names': seq<string>, first': map<string, ResultColumn>, repeats: bool)
    requires Collected(before, names, first)
    ensures Indexes(table, arm) && repeats == Repeats(arm)
    ensures Collected(before + arm, names', first')
  {
    hide Find, ResultName, Indexes, Collected;
    table, names', first', repeats := map[], names, first, false;
    assert before + arm[..0] == before;
    EmptyIndex();
    assert arm[..0] == [];
    for j := 0 to |arm|
      invariant Indexes(table, arm[..j]) && Collected(before + arm[..j], names', first')
      invariant table.Keys == set i | 0 <= i < j :: ResultName(arm[i])
      invariant repeats == Repeats(arm[..j])
    {
      var c := arm[j];
      var name := ResultName(c);
      assert arm[..j + 1] == arm[..j] + [c] && before + arm[..j + 1] == before + arm[..j] + [c];
      RepeatsMore(arm, j, table.Keys);
      IndexesMore(table, arm[..j], c);
      CollectMore(before + arm[..j], names', first', c);
      if name in table {
        repeats := true;
        SeenInArm(arm, j, table, before, names', first');
        continue;
      }
      table := table[name := c];
      if name !in first' {
        names' := names' + [name];
        first' := first'[name := c];
      }
    }
    assert arm[..|arm|] == arm;
  }

  lemma EmptyIndex()
    ensures Indexes(map[], [])
  {
  }

  lemma RepeatsMore(arm: Arm, j: nat, seen: set<string>)
    requires j < |arm| && seen == set i | 0 <= i < j :: ResultName(arm[i])
    ensures Repeats(arm[..j + 1]) <==> Repeats(arm[..j]) || ResultName(arm[j]) in seen
  {
    hide ResultName;
    var more := arm[..j + 1];
    if Repeats(arm[..j]) {
      var a, b :| 0 <= a < b < j && ResultName(arm[..j][a]) == ResultName(arm[..j][b]);
      assert ResultName(more[a]) == ResultName(more[b]);
    }
    if ResultName(arm[j]) in seen {
      var i :| 0 <= i < j && ResultName(arm[i]) == ResultName(arm[j]);
      assert ResultName(more[i]) == ResultName(more[j]);
    }
    if Repeats(more) {
      var a, b :| 0 <= a < b <= j && ResultName(more[a]) == ResultName(more[b]);
      if b < j {
        assert ResultName(arm[..j][a]) == ResultName(arm[..j][b]);
      } else {
        assert ResultName(arm[a]) == ResultName(arm[j]);
      }
    }
  }

  /** A name that the arm has already shown has also been collected. */
  lemma SeenInArm(arm: Arm, j: nat, table: map<string, ResultColumn>, before: seq<ResultColumn>, names: seq<string>,
                  first: map<string, ResultColumn>)
    requires j < |arm| && Indexes(table, arm[..j]) && ResultName(arm[j]) in table
    requires Collected(before + arm[..j], names, first)
    ensures ResultName(arm[j]) in first
  {
    hide ResultName;
    var name := ResultName(arm[j]);
    assert Find(arm[..j], name).Some?;
    FoundBehind(before, arm[..j], name);
  }

  lemma {:induction false} FoundBehind(before: seq<ResultColumn>, columns: seq<ResultColumn>, name: string)
    requires Find(columns, name).Some?
    ensures Find(before + columns, name).Some?
    decreases |before|
  {
    hide ResultName;
    if before == [] {
      assert before + columns == columns;
    } else {
      assert (before + columns)[1..] == before[1..] + columns;
      FoundBehind(before[1..], columns, name);
    }
  }

  /** The types of one name, through the tables of the arms. */
  method CollectTypes(arms: seq<Arm>, tables: seq<map<string, ResultColumn>>, name: string)
    returns (types: seq<Type>, missing: bool)
    requires |tables| == |arms| && forall i | 0 <= i < |arms| :: Indexes(tables[i], arms[i])
    ensures types == TypesOf(arms, name) && missing == IsMissing(arms, name)
  {
    hide Find;
    types, missing := [], false;
    for i := 0 to |arms|
      invariant types == TypesOf(arms[..i], name) && missing == IsMissing(arms[..i], name)
    {
      assert arms[..i + 1][..i] == arms[..i] && arms[..i + 1] == arms[..i] + [arms[i]];
      assert Find(arms[i], name) == if name in tables[i] then Some(tables[i][name]) else None;
      if name in tables[i] {
        types := types + [tables[i][name].typ];
      } else {
        missing := true;
      }
    }
    assert arms[..|arms|] == arms;
  }

  method CountShared(names: seq<string>, first: map<string, ResultColumn>, ghost columns: seq<ResultColumn>)
    returns (counts: map<string, nat>)
    requires Indexes(first, columns) && forall name <- names :: name in first
    ensures forall api :: SharedBy(columns, names, api) == if api in counts then counts[api] else 0
  {
    hide Find;
    counts := map[];
    for i := 0 to |names|
      invariant forall api :: SharedBy(columns, names[..i], api) == if api in counts then counts[api] else 0
    {
      assert names[..i + 1][..i] == names[..i] && names[i] in names;
      assert Find(columns, names[i]) == Some(first[names[i]]);
      var api := first[names[i]].name;
      counts := counts[api := (if api in counts then counts[api] else 0) + 1];
    }
    assert names[..|names|] == names;
  }

  /** reconcileUnionColumns. */
  method ReconcileUnionColumns(arms: seq<Arm>) returns (r: Result<seq<ResultColumn>>)
    ensures r == Reconciled(arms)
  {
    hide Find, Indexes, Repeats, UnionColumn, NamesOf;
    if |arms| == 1 { return Ok(arms[0]); }
    var tables: seq<map<string, ResultColumn>> := [];
    var names: seq<string> := [];
    var first: map<string, ResultColumn> := map[];
    var failed := false;
    NothingCollected();
    for i := 0 to |arms|
      invariant |tables| == i && forall k | 0 <= k < i :: Indexes(tables[k], arms[k])
      invariant Collected(Flatten(arms[..i]), names, first)
      invariant failed == exists arm <- arms[..i] :: Repeats(arm)
    {
      assert arms[..i + 1][..i] == arms[..i] && arms[..i + 1] == arms[..i] + [arms[i]];
      var table, repeats;
      table, names, first, repeats := CollectArm(arms[i], names, first, Flatten(arms[..i]));
      tables := tables + [table];
      failed := failed || repeats;
    }
    assert arms[..|arms|] == arms;
    if failed { return Err; }
    r := BuildColumns(arms, tables, names, first);
  }

  lemma NothingCollected()
    ensures Collected(Flatten([]), [], map[])
  {
  }

  /** The last loop, with the column names that are already taken. */
  method BuildColumns(arms: seq<Arm>, tables: seq<map<string, ResultColumn>>, names: seq<string>, first: map<string, ResultColumn>)
    returns (r: Result<seq<ResultColumn>>)
    requires |tables| == |arms| && forall i | 0 <= i < |arms| :: Indexes(tables[i], arms[i])
    requires Collected(Flatten(arms), names, first)
    ensures r == UnionColumns(arms, names)
  {
    hide Find, Repeats, NamesOf, CommonType, WithOptional, Underscored, SharedBy, TypesOf, IsMissing, HasColumn;
    ghost var all := Flatten(arms);
    forall name | name in names ensures name in first { NamesAreFound(all, name); }
    var counts := CountShared(names, first, all);
    var columns: seq<ResultColumn> := [];
    var taken: set<string> := {};
    var failed := false;
    NoColumns();
    for i := 0 to |names|
      invariant UnionColumns(arms, names[..i]) == if failed then Err else Ok(columns)
      invariant forall name :: name in taken <==> HasColumn(columns, name)
    {
      assert names[..i + 1][..i] == names[..i] && names[i] in names;
      var name := names[i];
      var types, missing := CollectTypes(arms, tables, name);
      var common := ComputeCommonType(types);
      assert Find(all, name) == Some(first[name]);
      if common.Err? {
        failed := true;
        continue;
      }
      var t := WithOptional(common.value, missing);
      var written := first[name].name;
      var shared := written in counts && counts[written] > 1;
      var c := if shared then ResultColumn(Underscored(name), name, t)
               else ResultColumn(written, if written != name then name else "", t);
      assert UnionColumn(arms, name) == Ok(c);
      if c.name in taken {
        failed := true;
        continue;
      }
      taken := taken + {c.name};
      AddedColumn(columns, c);
      columns := columns + [c];
    }
    assert names[..|names|] == names;
    r := if failed then Err else Ok(columns);
  }

  lemma NoColumns()
    ensures forall name :: !HasColumn([], name)
  {
  }

  lemma AddedColumn(columns: seq<ResultColumn>, c: ResultColumn)
    ensures forall name :: HasColumn(columns + [c], name) <==> HasColumn(columns, name) || name == c.name
  {
    var all := columns + [c];
    forall name ensures HasColumn(all, name) <==> HasColumn(columns, name) || name == c.name {
      if HasColumn(columns, name) {
        var d :| d in columns && d.name == name;
        assert d in all;
      }
      assert c in all;
    }
  }

  // ---------------------------------------------------------------- what a UNION promises

  lemma {:induction false} FoundHasName(columns: seq<ResultColumn>, name: string)
    requires Find(columns, name).Some?
    ensures Find(columns, name).value in columns && ResultName(Find(columns, name).value) == name
  {
    hide ResultName;
    if ResultName(columns[0]) != name {
      FoundHasName(columns[1..], name);
    }
  }

  lemma {:induction false} FoundInArms(arms: seq<Arm>, name: string)
    ensures Find(Flatten(arms), name).Some? <==> exists arm <- arms :: Find(arm, name).Some?
    decreases |arms|
  {
    hide ResultName;
    if arms != [] {
      var n := |arms| - 1;
      FoundInArms(arms[..n], name);
      FoundInEither(Flatten(arms[..n]), arms[n], name);
      assert arms == arms[..n] + [arms[n]];
    }
  }

  lemma {:induction false} FoundInEither(columns: seq<ResultColumn>, others: seq<ResultColumn>, name: string)
    ensures Find(columns + others, name).Some? <==> Find(columns, name).Some? || Find(others, name).Some?
    decreases |columns|
  {
    hide ResultName;
    if columns == [] {
      assert columns + others == others;
    } else {
      assert (columns + others)[1..] == columns[1..] + others;
      FoundInEither(columns[1..], others, name);
    }
  }

  predicate Offers(arm: Arm, name: string, t: Type) {
    Find(arm, name).Some? && Find(arm, name).value.typ == t
  }

  lemma {:induction false} TypesAreOfArms(arms: seq<Arm>, name: string, t: Type)
    ensures t in TypesOf(arms, name) <==> exists arm <- arms :: Offers(arm, name, t)
    decreases |arms|
  {
    hide Find;
    if arms != [] {
      var n := |arms| - 1;
      TypesAreOfArms(arms[..n], name, t);
      assert arms == arms[..n] + [arms[n]];
      if arm :| arm in arms && Offers(arm, name, t) {
        assert arm in arms[..n] || arm == arms[n];
      }
      if arm :| arm in arms[..n] && Offers(arm, name, t) {
        assert arm in arms;
      }
      assert arms[n] in arms;
    }
  }

  lemma OptionalOfEqual(a: Type, b: Type, nullable: bool)
    requires Equal(a, b)
    ensures Equal(WithOptional(a, nullable), WithOptional(b, nullable))
  {
  }

  /** The type under a result name does not depend on the order of the arms, nor on how often an arm is written. */
  lemma TypeIgnoresArmOrder(arms: seq<Arm>, others: seq<Arm>, name: string)
    requires forall arm :: arm in arms <==> arm in others
    ensures SameAnswer(UnionType(arms, name), UnionType(others, name))
  {
    hide Find, CommonType, Equal, TypesOf;
    forall t ensures t in TypesOf(arms, name) <==> t in TypesOf(others, name) {
      TypesAreOfArms(arms, name, t);
      TypesAreOfArms(others, name, t);
    }
    CommonTypeDependsOnMembersOnly(TypesOf(arms, name), TypesOf(others, name));
    if UnionType(arms, name).Ok? {
      OptionalOfEqual(CommonType(TypesOf(arms, name)).value, CommonType(TypesOf(others, name)).value, IsMissing(arms, name));
    }
  }

  /** Neither does the set of result names. */
  lemma NamesIgnoreArmOrder(arms: seq<Arm>, others: seq<Arm>, name: string)
    requires forall arm :: arm in arms <==> arm in others
    ensures name in NamesOf(Flatten(arms)) <==> name in NamesOf(Flatten(others))
  {
    hide Find, NamesOf, Flatten;
    NamesAreFound(Flatten(arms), name);
    NamesAreFound(Flatten(others), name);
    FoundInArms(arms, name);
    FoundInArms(others, name);
  }

  /** A value of any arm fits the union's column, and a row of an arm without the column is NULL there. */
  lemma UnionTypeCoversArms(arms: seq<Arm>, name: string)
    requires UnionType(arms, name).Ok?
    ensures var t := UnionType(arms, name).value;
            && IsOptional(t) ==
               (IsMissing(arms, name)
                || exists arm <- arms :: Find(arm, name).Some? && Nullable(Find(arm, name).value.typ))
            && forall arm <- arms :: Find(arm, name).Some? && Concrete(Find(arm, name).value.typ) ==>
                 Below(Core(Find(arm, name).value.typ), Unwrap(t))
  {
    hide Find, CommonType, TypesOf, Nullable, Core, Below, Accepted;
    var types := TypesOf(arms, name);
    CommonTypeIsJoin(types);
    JoinIsNotOptional(types);
    forall u ensures u in types <==> exists arm <- arms :: Offers(arm, name, u) {
      TypesAreOfArms(arms, name, u);
    }
    if u :| u in types && Nullable(u) {
      var arm :| arm in arms && Offers(arm, name, u);
    }
    if arm :| arm in arms && Find(arm, name).Some? && Nullable(Find(arm, name).value.typ) {
      assert Offers(arm, name, Find(arm, name).value.typ);
    }
    forall arm | arm in arms && Find(arm, name).Some? && Concrete(Find(arm, name).value.typ)
      ensures Below(Core(Find(arm, name).value.typ), Unwrap(UnionType(arms, name).value))
    {
      var u := Find(arm, name).value.typ;
      assert Offers(arm, name, u);
      assert u in types && Core(u) in Cores(types);
    }
  }

  lemma UnionColumnKeepsName(arms: seq<Arm>, name: string)
    requires UnionColumn(arms, name).Ok?
    ensures ResultName(UnionColumn(arms, name).value) == name
  {
    hide Find, UnionType, SharedBy, NamesOf, Flatten;
    if name == "" {
      FoundHasName(Flatten(arms), name);
      assert Underscored(name) == "";
    }
  }

  predicate NamesDiffer(columns: seq<ResultColumn>) {
    forall i, j | 0 <= i < j < |columns| :: columns[i].name != columns[j].name
  }

  lemma {:induction false} ColumnsByName(arms: seq<Arm>, names: seq<string>)
    requires UnionColumns(arms, names).Ok?
    ensures var columns := UnionColumns(arms, names).value;
            && |columns| == |names| && NamesDiffer(columns)
            && forall i | 0 <= i < |names| :: UnionColumn(arms, names[i]) == Ok(columns[i])
    decreases |names|
  {
    hide UnionColumn;
    if names != [] {
      var n := |names| - 1;
      ColumnsByName(arms, names[..n]);
      var before := UnionColumns(arms, names[..n]).value;
      forall i | 0 <= i < n ensures before[i].name != UnionColumn(arms, names[n]).value.name {
        assert before[i] in before;
      }
    }
  }

  /**
   * The columns of a UNION are, in the order of first occurrence, those result names that some arm has, each once, each
   * with the type that is common to the arms; and no two have the same column name.
   */
  lemma UnionIsByName(arms: seq<Arm>)
    requires |arms| > 1 && Reconciled(arms).Ok?
    ensures var columns := Reconciled(arms).value;
            && NamesDiffer(columns) && |columns| == |NamesOf(Flatten(arms))|
            && (forall i | 0 <= i < |columns| ::
                  ResultName(columns[i]) == NamesOf(Flatten(arms))[i] && UnionType(arms, ResultName(columns[i])) == Ok(columns[i].typ))
            && (forall name :: name in NamesOf(Flatten(arms)) <==> exists arm <- arms :: Find(arm, name).Some?)
  {
    hide Find, UnionType, SharedBy, NamesOf, Flatten, UnionColumn, Underscored, ResultName, Repeats;
    var names := NamesOf(Flatten(arms));
    ColumnsByName(arms, names);
    var columns := Reconciled(arms).value;
    forall i | 0 <= i < |columns| ensures ResultName(columns[i]) == names[i] && UnionType(arms, names[i]) == Ok(columns[i].typ) {
      UnionColumnKeepsName(arms, names[i]);
      UnionColumnHasType(arms, names[i]);
    }
    forall name ensures name in names <==> exists arm <- arms :: Find(arm, name).Some? {
      NamesAreFound(Flatten(arms), name);
      FoundInArms(arms, name);
    }
  }

  /** The first column of that result name is written with the column name. */
  predicate StartsAs(columns: seq<ResultColumn>, name: string, api: string) {
    Find(columns, name).Some? && Find(columns, name).value.name == api
  }

  /** Another result name of the UNION starts with the same column name. */
  predicate Shares(columns: seq<ResultColumn>, name: string, api: string) {
    exists other <- NamesOf(columns) :: other != name && StartsAs(columns, other, api)
  }

  lemma {:induction false} SharedByNobody(columns: seq<ResultColumn>, names: seq<string>, api: string)
    ensures SharedBy(columns, names, api) > 0 <==> exists name <- names :: StartsAs(columns, name, api)
    decreases |names|
  {
    hide Find, StartsAs;
    if names != [] {
      var n := |names| - 1;
      assert names == names[..n] + [names[n]];
      SharedStep(columns, names, api);
      SharedByNobody(columns, names[..n], api);
    }
  }

  lemma {:induction false} SharedByOthers(columns: seq<ResultColumn>, names: seq<string>, name: string, api: string)
    requires name in names && StartsAs(columns, name, api)
    requires forall i, j | 0 <= i < j < |names| :: names[i] != names[j]
    ensures SharedBy(columns, names, api) > 1 <==> exists other <- names :: other != name && StartsAs(columns, other, api)
    decreases |names|
  {
    hide Find, StartsAs;
    var n := |names| - 1;
    var front := names[..n];
    assert names == front + [names[n]];
    SharedStep(columns, names, api);
    SharedByNobody(columns, front, api);
    if names[n] != name {
      SharedByOthers(columns, front, name, api);
    }
  }

  lemma SharedStep(columns: seq<ResultColumn>, names: seq<string>, api: string)
    requires names != []
    ensures SharedBy(columns, names, api) ==
            SharedBy(columns, names[..|names| - 1], api) + if StartsAs(columns, names[|names| - 1], api) then 1 else 0
  {
  }

  lemma {:induction false} NamesAreDistinct(columns: seq<ResultColumn>)
    ensures forall i, j | 0 <= i < j < |NamesOf(columns)| :: NamesOf(columns)[i] != NamesOf(columns)[j]
    decreases |columns|
  {
    hide ResultName;
    if columns != [] {
      NamesAreDistinct(columns[..|columns| - 1]);
    }
  }

  lemma UnionColumnName(arms: seq<Arm>, name: string)
    requires UnionColumn(arms, name).Ok? && name in NamesOf(Flatten(arms))
    ensures var columns, c := Flatten(arms), UnionColumn(arms, name).value;
            && Find(columns, name).Some?
            && var api := Find(columns, name).value.name;
               && c.name == (if Shares(columns, name, api) then Underscored(name) else api)
               && (c.wireName == "" ==> c.name == name || name == "")
  {
    hide Find, UnionType, SharedBy, NamesOf, Flatten, Underscored;
    var columns := Flatten(arms);
    NamesAreDistinct(columns);
    SharedByOthers(columns, NamesOf(columns), name, Find(columns, name).value.name);
  }

  /**
   * A column is named as the first column of its result name is, unless another result name starts with that name too:
   * then it is named after the result name, with underscores for dots.
   */
  lemma UnionNamesColumns(arms: seq<Arm>)
    requires |arms| > 1 && Reconciled(arms).Ok?
    ensures var columns, all := Reconciled(arms).value, Flatten(arms);
            |columns| == |NamesOf(all)| && forall i | 0 <= i < |columns| ::
              var name := NamesOf(all)[i];
              && Find(all, name).Some?
              && var api := Find(all, name).value.name;
                 columns[i].name == if Shares(all, name, api) then Underscored(name) else api
  {
    hide Find, UnionType, SharedBy, NamesOf, Flatten, UnionColumn, Underscored, ResultName, Repeats, Shares;
    var names := NamesOf(Flatten(arms));
    ColumnsByName(arms, names);
    forall i | 0 <= i < |names| ensures UnionColumn(arms, names[i]).Ok? {
    }
    forall name | name in names ensures Find(Flatten(arms), name).Some? {
      NamesAreFound(Flatten(arms), name);
    }
    forall i | 0 <= i < |names|
      ensures var name := names[i];
              var api := Find(Flatten(arms), name).value.name;
              Reconciled(arms).value[i].name == if Shares(Flatten(arms), name, api) then Underscored(name) else api
    {
      UnionColumnName(arms, names[i]);
    }
  }

  /** The name that the column of a result name gets. */
  ghost function ColumnName(columns: seq<ResultColumn>, name: string): string
    requires Find(columns, name).Some?
  {
    var api := Find(columns, name).value.name;
    if Shares(columns, name, api) then Underscored(name) else api
  }

  lemma UnionColumnSucceeds(arms: seq<Arm>, name: string)
    requires name in NamesOf(Flatten(arms))
    ensures Find(Flatten(arms), name).Some?
    ensures UnionColumn(arms, name).Ok? <==> UnionType(arms, name).Ok?
    ensures UnionColumn(arms, name).Ok? ==> UnionColumn(arms, name).value.name == ColumnName(Flatten(arms), name)
  {
    hide Find, UnionType, SharedBy, NamesOf, Flatten, Underscored, Shares;
    NamesAreFound(Flatten(arms), name);
    if UnionColumn(arms, name).Ok? { UnionColumnName(arms, name); }
  }

  lemma {:induction false} UnionColumnsSucceed(arms: seq<Arm>, names: seq<string>)
    requires forall name <- names :: name in NamesOf(Flatten(arms)) && Find(Flatten(arms), name).Some?
    ensures UnionColumns(arms, names).Ok? <==>
            && (forall name <- names :: UnionType(arms, name).Ok?)
            && forall i, j | 0 <= i < j < |names| ::
                 ColumnName(Flatten(arms), names[i]) != ColumnName(Flatten(arms), names[j])
    decreases |names|
  {
    hide UnionColumn, Find, UnionType, NamesOf, Flatten, ColumnName;
    if names != [] {
      var n := |names| - 1;
      var front := names[..n];
      assert names == front + [names[n]];
      UnionColumnsSucceed(arms, front);
      UnionColumnSucceeds(arms, names[n]);
      if UnionColumns(arms, front).Ok? {
        ColumnsByName(arms, front);
        var before := UnionColumns(arms, front).value;
        forall i | 0 <= i < n ensures before[i].name == ColumnName(Flatten(arms), names[i]) && before[i] in before {
          UnionColumnSucceeds(arms, names[i]);
        }
      }
    }
  }

  /** A UNION fails exactly when an arm repeats a result name, the arms disagree on a type, or two columns get one name. */
  lemma UnionSucceeds(arms: seq<Arm>)
    requires |arms| > 1
    ensures forall name <- NamesOf(Flatten(arms)) :: Find(Flatten(arms), name).Some?
    ensures Reconciled(arms).Ok? <==>
            && (forall arm <- arms :: !Repeats(arm))
            && (forall name <- NamesOf(Flatten(arms)) :: UnionType(arms, name).Ok?)
            && forall i, j | 0 <= i < j < |NamesOf(Flatten(arms))| ::
                 ColumnName(Flatten(arms), NamesOf(Flatten(arms))[i]) != ColumnName(Flatten(arms), NamesOf(Flatten(arms))[j])
  {
    hide Find, UnionType, NamesOf, Flatten, ColumnName, Repeats, UnionColumns;
    forall name | name in NamesOf(Flatten(arms)) ensures Find(Flatten(arms), name).Some? {
      NamesAreFound(Flatten(arms), name);
    }
    UnionColumnsSucceed(arms, NamesOf(Flatten(arms)));
  }

  lemma UnionColumnHasType(arms: seq<Arm>, name: string)
    requires UnionColumn(arms, name).Ok?
    ensures UnionType(arms, name) == Ok(UnionColumn(arms, name).value.typ)
  {
    hide Find, UnionType, SharedBy, NamesOf, Flatten;
  }

  /** The same result name with the same type up to Equal. */
  predicate SameResult(c: ResultColumn, d: ResultColumn) {
    ResultName(c) == ResultName(d) && Equal(c.typ, d.typ)
  }

  predicate HasResults(columns: seq<ResultColumn>, others: seq<ResultColumn>) {
    forall c <- others :: exists d <- columns :: SameResult(c, d)
  }

  /** Two UNIONs of the same arms, in any order and repetition, have the same result names with the same types. */
  lemma UnionIgnoresArmOrder(arms: seq<Arm>, others: seq<Arm>)
    requires |arms| > 1 && |others| > 1 && forall arm :: arm in arms <==> arm in others
    requires Reconciled(arms).Ok? && Reconciled(others).Ok?
    ensures var columns, columns' := Reconciled(arms).value, Reconciled(others).value;
            |columns| == |columns'| && HasResults(columns, columns') && HasResults(columns', columns)
  {
    hide Find, UnionType, NamesOf, Flatten, Reconciled, ResultName, Equal, HasResults;
    UnionIsByName(arms);
    UnionIsByName(others);
    ResultsOfSameArms(arms, others);
    ResultsOfSameArms(others, arms);
    var names, names' := NamesOf(Flatten(arms)), NamesOf(Flatten(others));
    forall name ensures name in names <==> name in names' { NamesIgnoreArmOrder(arms, others, name); }
    NamesOccurOnce(Flatten(arms));
    NamesOccurOnce(Flatten(others));
    assert (set name | name in names) == (set name | name in names');
  }

  lemma ResultsOfSameArms(arms: seq<Arm>, others: seq<Arm>)
    requires |arms| > 1 && |others| > 1 && forall arm :: arm in arms <==> arm in others
    requires Reconciled(arms).Ok? && Reconciled(others).Ok?
    ensures HasResults(Reconciled(others).value, Reconciled(arms).value)
  {
    hide Find, UnionType, NamesOf, Flatten, Reconciled, ResultName, Equal;
    UnionIsByName(arms);
    UnionIsByName(others);
    var columns, columns' := Reconciled(arms).value, Reconciled(others).value;
    var names' := NamesOf(Flatten(others));
    forall c | c in columns ensures exists d <- columns' :: SameResult(c, d) {
      var i :| 0 <= i < |columns| && columns[i] == c;
      NamesIgnoreArmOrder(arms, others, ResultName(c));
      var j :| 0 <= j < |names'| && names'[j] == ResultName(c);
      TypeIgnoresArmOrder(arms, others, ResultName(c));
      assert ResultName(columns'[j]) == names'[j];
      assert SameResult(c, columns'[j]);
    }
  }

  lemma {:induction false} NamesOccurOnce(columns: seq<ResultColumn>)
    ensures |NamesOf(columns)| == |set name | name in NamesOf(columns)|
    decreases |columns|
  {
    hide ResultName;
    if columns != [] {
      var before, last := NamesOf(columns[..|columns| - 1]), ResultName(columns[|columns| - 1]);
      NamesOccurOnce(columns[..|columns| - 1]);
      if last !in before {
        assert (set name | name in before + [last]) == (set name | name in before) + {last};
      }
    }
  }
}
