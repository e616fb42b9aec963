/** SELECT lists: wildcards, WITHOUT, and the expanded list that replaces them (selectProjectionMode, wildcard.go). */
module Wildcards {
  import opened Wrappers
  import opened Types
  import opened CommonTypes
  import opened TypingRules
  import opened Expressions
  import opened Resolver
  import opened ResultColumns
  import opened ImplicitNames

  /** An entry of a SELECT list; an alias "" is none. */
  datatype Item =
    | Star(prefix: string)
    | Reference(qualifier: string, name: string, alias: string)
    | Computed(value: Expr, alias: string)

  /** A source column that SELECT WITHOUT can remove. */
  datatype Key = Key(alias: string, column: string)

  // ---------------------------------------------------------------- the projection

  function SourceColumns(source: Relation, columns: seq<ColumnType>, excluded: set<Key>): seq<ResultColumn> {
    if columns == [] then []
    else
      var before, last := SourceColumns(source, columns[..|columns| - 1], excluded), columns[|columns| - 1];
      if Key(source.alias, last.name) in excluded then before
      else before + [ResultColumn(last.name, "", WithOptional(last.typ, source.optional))]
  }

  function StarColumns(sources: seq<Relation>, prefix: string, excluded: set<Key>): seq<ResultColumn> {
    if sources == [] then []
    else
      var before, last := StarColumns(sources[..|sources| - 1], prefix, excluded), sources[|sources| - 1];
      if Qualifies(last, prefix) then before + SourceColumns(last, last.columns, excluded) else before
  }

  /** The result key of an unaliased column of a join is written with its qualifier. */
  function WireName(sources: seq<Relation>, item: Item): string
    requires item.Reference?
  {
    if item.alias == "" && |sources| > 1 && item.qualifier != "" then item.qualifier + "." + item.name else ""
  }

  function ItemColumns(item: Item, scope: Scope, excluded: set<Key>): Result<seq<ResultColumn>> {
    match item
    case Star(prefix) =>
      if exists source <- scope.relations :: Qualifies(source, prefix)
      then Ok(StarColumns(scope.relations, prefix, excluded)) else Err
    case Reference(qualifier, name, alias) =>
      (match ResolveColumn(scope.relations, qualifier, name)
       case Err => Err
       case Ok(t) => Ok([ResultColumn(if alias != "" then alias else name, WireName(scope.relations, item), t)]))
    case Computed(value, alias) =>
      (match Resolve(value, scope)
       case Err => Err
       case Ok(t) => Ok([ResultColumn(alias, "", t)]))
  }

  function Columns(items: seq<Item>, scope: Scope, excluded: set<Key>): Result<seq<ResultColumn>> {
    if items == [] then Ok([])
    else
      var n := |items| - 1;
      match (Columns(items[..n], scope, excluded), ItemColumns(items[n], scope, excluded))
      case (Ok(before), Ok(more)) => Ok(before + more)
      case _ => Err
  }

  predicate IsUnnamed(item: Item) {
    item.Computed? && item.alias == ""
  }

  function UnnamedOf(items: seq<Item>, scope: Scope, excluded: set<Key>): (unnamed: seq<Unnamed>)
    requires Columns(items, scope, excluded).Ok?
    ensures forall u <- unnamed :: u.column < |Columns(items, scope, excluded).value|
  {
    if items == [] then []
    else
      var n := |items| - 1;
      var before := UnnamedOf(items[..n], scope, excluded);
      if IsUnnamed(items[n]) then before + [Unnamed(|Columns(items[..n], scope, excluded).value|, n)] else before
  }

  /** A wildcard whose columns are all excluded; its entry is removed from the list, which is done once at most. */
  predicate IsEmptied(item: Item, scope: Scope, excluded: set<Key>) {
    item.Star? && StarColumns(scope.relations, item.prefix, excluded) == []
  }

  function CountEmptied(items: seq<Item>, scope: Scope, excluded: set<Key>): nat {
    if items == [] then 0
    else
      var n := |items| - 1;
      CountEmptied(items[..n], scope, excluded) + if IsEmptied(items[n], scope, excluded) then 1 else 0
  }

  /** selectProjectionMode for a named result; `without` says that the list has a WITHOUT clause. */
  function Select(items: seq<Item>, scope: Scope, without: bool, excluded: set<Key>): Result<seq<ResultColumn>> {
    match Columns(items, scope, excluded)
    case Err => Err
    case Ok(columns) =>
      if (without && columns == []) || CountEmptied(items, scope, excluded) > 1 then Err
      else Ok(NamedColumns(columns, UnnamedOf(items, scope, excluded)))
  }

  /** The loop over the entries, which appends to the columns and records the unnamed ones on the way. */
  method SelectList(items: seq<Item>, scope: Scope, without: bool, excluded: set<Key>) returns (r: Result<array<ResultColumn>>)
    ensures r.Ok? == Select(items, scope, without, excluded).Ok?
    ensures r.Ok? ==> fresh(r.value) && r.value[..] == Select(items, scope, without, excluded).value
  {
    var columns: seq<ResultColumn> := [];
    var unnamed: seq<Unnamed> := [];
    var emptied := 0;
    for ordinal := 0 to |items|
      invariant Columns(items[..ordinal], scope, excluded) == Ok(columns)
      invariant UnnamedOf(items[..ordinal], scope, excluded) == unnamed
      invariant CountEmptied(items[..ordinal], scope, excluded) == emptied
    {
      var item := items[ordinal];
      assert items[..ordinal + 1][..ordinal] == items[..ordinal];
      var more := ItemColumns(item, scope, excluded);
      if more.Err? {
        FailsAt(items, ordinal, scope, excluded);
        return Err;
      }
      if IsUnnamed(item) {
        unnamed := unnamed + [Unnamed(|columns|, ordinal)];
      }
      if IsEmptied(item, scope, excluded) {
        emptied := emptied + 1;
      }
      columns := columns + more.value;
    }
    assert items[..|items|] == items;
    if (without && columns == []) || emptied > 1 { return Err; }
    var list := new ResultColumn[|columns|](i requires 0 <= i < |columns| => columns[i]);
    assert list[..] == columns;
    NameImplicitProjections(list, unnamed);
    r := Ok(list);
  }

  lemma {:induction false} FailsAt(items: seq<Item>, i: nat, scope: Scope, excluded: set<Key>)
    requires i < |items| && ItemColumns(items[i], scope, excluded).Err?
    ensures Columns(items, scope, excluded).Err?
    decreases |items|
  {
    hide ItemColumns;
    if i < |items| - 1 {
      FailsAt(items[..|items| - 1], i, scope, excluded);
    }
  }

  // ---------------------------------------------------------------- WITHOUT

  datatype WithoutName = WithoutName(qualifier: string, column: string)

  function KeysOf(source: Relation): set<Key> {
    set c | c in source.columns :: Key(source.alias, c.name)
  }

  function Available(sources: seq<Relation>): set<Key> {
    set source, key | source in sources && key in KeysOf(source) :: key
  }

  /** The columns that the wildcards of the list stand for. */
  function Candidates(items: seq<Item>, sources: seq<Relation>): set<Key> {
    set item, source, key |
      item in items && item.Star? && source in sources && Qualifies(source, item.prefix) && key in KeysOf(source) :: key
  }

  /** What a name in the clause means; without a qualifier it means a column of the only source. */
  function KeyOf(name: WithoutName, sources: seq<Relation>): Key {
    Key(if name.qualifier != "" || sources == [] then name.qualifier else sources[0].alias, name.column)
  }

  predicate NeedsQualifier(name: WithoutName, sources: seq<Relation>) {
    name.qualifier == "" && |sources| > 1
  }

  predicate Known(name: WithoutName, sources: seq<Relation>) {
    name.column != "" && KeyOf(name, sources) in Available(sources)
  }

  /** A name that is reported: ambiguous, or unknown or repeated unless IF EXISTS is written. */
  predicate Reported(names: seq<WithoutName>, i: nat, sources: seq<Relation>, ifExists: bool)
    requires i < |names|
  {
    NeedsQualifier(names[i], sources)
    || (!ifExists && (!Known(names[i], sources) || exists j | 0 <= j < i :: KeyOf(names[j], sources) == KeyOf(names[i], sources)))
  }

  /** selectWithoutColumns; the map of available columns is searched in no particular order. */
  method SelectWithoutColumns(items: seq<Item>, sources: seq<Relation>, names: seq<WithoutName>, ifExists: bool)
    returns (r: Result<set<Key>>)
    ensures Candidates(items, sources) == {} ==> r == Ok({})
    ensures Candidates(items, sources) != {} ==>
              (r.Err? <==> exists i | 0 <= i < |names| :: Reported(names, i, sources, ifExists))
    ensures r.Ok? && Candidates(items, sources) != {} ==>
              r.value == KnownKeys(names, sources) * Candidates(items, sources)
  {
    hide Candidates, Available, KeyOf;
    var candidates, available := Candidates(items, sources), Available(sources);
    if candidates == {} { return Ok({}); }
    CandidatesNeedSources(items, sources);
    var seen: set<Key>, excluded: set<Key> := {}, {};
    var failed := false;
    for i := 0 to |names|
      invariant failed <==> exists j | 0 <= j < i :: Reported(names, j, sources, ifExists)
      invariant !failed ==> seen == KnownKeys(names[..i], sources)
      invariant excluded == seen * candidates
    {
      var name := names[i];
      ghost var before := failed;
      assert names[..i + 1] == names[..i] + [name];
      if NeedsQualifier(name, sources) {
        failed := true;
        assert Reported(names, i, sources, ifExists);
        continue;
      }
      var matches := set key | key in available && key.column == name.column
                                && (name.qualifier == "" || name.qualifier == key.alias);
      MatchIsUnique(name, sources, matches);
      if !before {
        ReportedWhen(names, i, sources, ifExists);
      }
      if matches == {} || name.column == "" {
        failed := failed || !ifExists;
      } else {
        var found :| found in matches;
        if found in seen {
          failed := failed || !ifExists;
        } else {
          seen := seen + {found};
          if found in candidates {
            excluded := excluded + {found};
          }
        }
      }
      assert !before ==> (failed <==> Reported(names, i, sources, ifExists));
    }
    assert names[..|names|] == names;
    if failed { return Err; }
    r := Ok(excluded);
  }

  /** The columns that the names mean. */
  function KnownKeys(names: seq<WithoutName>, sources: seq<Relation>): set<Key> {
    set name | name in names && Known(name, sources) :: KeyOf(name, sources)
  }

  lemma ReportedWhen(names: seq<WithoutName>, i: nat, sources: seq<Relation>, ifExists: bool)
    requires i < |names| && !NeedsQualifier(names[i], sources)
    ensures Reported(names, i, sources, ifExists) <==>
            !ifExists && (!Known(names[i], sources) || KeyOf(names[i], sources) in KnownKeys(names[..i], sources))
  {
    hide Available;
    var key := KeyOf(names[i], sources);
    if Known(names[i], sources) {
      forall j | 0 <= j < i && KeyOf(names[j], sources) == key ensures key in KnownKeys(names[..i], sources) {
        assert names[j] in names[..i];
      }
    }
  }

  lemma CandidatesNeedSources(items: seq<Item>, sources: seq<Relation>)
    requires Candidates(items, sources) != {}
    ensures sources != []
  {
  }

  /** However the available columns are searched, at most one of them is found. */
  lemma MatchIsUnique(name: WithoutName, sources: seq<Relation>, matches: set<Key>)
    requires sources != [] && !NeedsQualifier(name, sources)
    requires matches == set key | key in Available(sources) && key.column == name.column
                                   && (name.qualifier == "" || name.qualifier == key.alias)
    ensures matches == if KeyOf(name, sources) in Available(sources) then {KeyOf(name, sources)} else {}
  {
    forall key | key in matches ensures key == KeyOf(name, sources) {
      assert key in Available(sources);
    }
  }

  // ---------------------------------------------------------------- where the columns of an entry are

  /** The columns of the first entries stay where they are when more entries follow. */
  lemma {:induction false} ColumnsOfPrefix(items: seq<Item>, i: nat, scope: Scope, excluded: set<Key>)
    requires Columns(items, scope, excluded).Ok? && i <= |items|
    ensures Columns(items[..i], scope, excluded).Ok?
    ensures Columns(items[..i], scope, excluded).value <= Columns(items, scope, excluded).value
    decreases |items|
  {
    hide ItemColumns;
    if i < |items| {
      var n := |items| - 1;
      ColumnsOfPrefix(items[..n], i, scope, excluded);
      assert items[..n][..i] == items[..i];
    } else {
      assert items[..i] == items;
    }
  }

  /** Where the columns of entry i begin. */
  function Offset(items: seq<Item>, i: nat, scope: Scope, excluded: set<Key>): nat
    requires Columns(items, scope, excluded).Ok? && i <= |items|
  {
    ColumnsOfPrefix(items, i, scope, excluded);
    |Columns(items[..i], scope, excluded).value|
  }

  lemma ColumnsOfEntry(items: seq<Item>, i: nat, scope: Scope, excluded: set<Key>)
    requires Columns(items, scope, excluded).Ok? && i < |items|
    ensures ItemColumns(items[i], scope, excluded).Ok?
    ensures var at, columns := Offset(items, i, scope, excluded), ItemColumns(items[i], scope, excluded).value;
            && at + |columns| <= |Columns(items, scope, excluded).value|
            && Columns(items, scope, excluded).value[at..at + |columns|] == columns
  {
    hide ItemColumns;
    ColumnsOfPrefix(items, i + 1, scope, excluded);
    ColumnsOfPrefix(items, i, scope, excluded);
    assert items[..i + 1][..i] == items[..i];
  }

  /**
   * A reference is named by its alias or its own name.  In a row it goes by that name, but an unaliased, qualified column
   * of a join goes by qualifier, dot, name.
   */
  predicate IsColumnOf(item: Item, scope: Scope, c: ResultColumn)
    requires item.Reference?
  {
    && c.name == (if item.alias != "" then item.alias else item.name)
    && ResultName(c) == (if item.alias == "" && item.qualifier != "" && |scope.relations| > 1
                         then item.qualifier + "." + item.name else c.name)
    && ResolveColumn(scope.relations, item.qualifier, item.name) == Ok(c.typ)
  }

  lemma ReferenceIsOneColumn(item: Item, scope: Scope, excluded: set<Key>)
    requires item.Reference? && ItemColumns(item, scope, excluded).Ok?
    ensures |ItemColumns(item, scope, excluded).value| == 1 && IsColumnOf(item, scope, ItemColumns(item, scope, excluded).value[0])
  {
    hide ResolveColumn;
  }

  /** A column reference in the list gives one such column. */
  lemma ReferenceColumn(items: seq<Item>, i: nat, scope: Scope, excluded: set<Key>)
    requires Columns(items, scope, excluded).Ok? && i < |items| && items[i].Reference?
    ensures var at := Offset(items, i, scope, excluded);
            at < |Columns(items, scope, excluded).value| && IsColumnOf(items[i], scope, Columns(items, scope, excluded).value[at])
  {
    hide ItemColumns, IsColumnOf, Columns;
    ColumnsOfEntry(items, i, scope, excluded);
    ReferenceIsOneColumn(items[i], scope, excluded);
  }

  /** An entry is recorded as unnamed exactly if it is a computed one without an alias, with its own place in the list. */
  lemma {:induction false} UnnamedAreListed(items: seq<Item>, scope: Scope, excluded: set<Key>, u: Unnamed)
    requires Columns(items, scope, excluded).Ok?
    ensures u in UnnamedOf(items, scope, excluded) <==>
            u.ordinal < |items| && IsUnnamed(items[u.ordinal]) && u.column == Offset(items, u.ordinal, scope, excluded)
    decreases |items|
  {
    hide ItemColumns;
    if items != [] {
      var n := |items| - 1;
      UnnamedAreListed(items[..n], scope, excluded, u);
      if u.ordinal < n {
        assert items[..n][..u.ordinal] == items[..u.ordinal];
      }
    }
  }

  /** Where no author wrote such a name, the computed entry at place i of the list is called column i. */
  lemma ImplicitNameIsPlace(items: seq<Item>, i: nat, scope: Scope, without: bool, excluded: set<Key>)
    requires Select(items, scope, without, excluded).Ok? && i < |items| && IsUnnamed(items[i])
    requires forall k | 0 <= k < |items| && IsUnnamed(items[k]) ::
               ColumnName(k) !in Authored(Columns(items, scope, excluded).value)
    ensures var at, columns := Offset(items, i, scope, excluded), Select(items, scope, without, excluded).value;
            at < |columns| && columns[at].name == ColumnName(i)
  {
    hide ItemColumns, ColumnName, Columns, UnnamedOf;
    var columns, unnamed := Columns(items, scope, excluded).value, UnnamedOf(items, scope, excluded);
    var u := Unnamed(Offset(items, i, scope, excluded), i);
    UnnamedAreListed(items, scope, excluded, u);
    forall v | v in unnamed ensures ColumnName(v.ordinal) !in Authored(columns) {
      UnnamedAreListed(items, scope, excluded, v);
    }
    UnnamedDiffer(items, scope, excluded);
    var k :| 0 <= k < |unnamed| && unnamed[k] == u;
    forall j | 0 <= j < |unnamed| ensures Allocated(Authored(columns), unnamed)[j] == unnamed[j].ordinal {
      OwnOrdinals(Authored(columns), unnamed, j);
    }
    WithNamesAt(columns, unnamed, Allocated(Authored(columns), unnamed), k);
  }

  lemma {:induction false} UnnamedDiffer(items: seq<Item>, scope: Scope, excluded: set<Key>)
    requires Columns(items, scope, excluded).Ok?
    ensures OrdinalsDiffer(UnnamedOf(items, scope, excluded))
    ensures var unnamed := UnnamedOf(items, scope, excluded);
            forall j, k | 0 <= j < k < |unnamed| :: unnamed[j].column != unnamed[k].column
    decreases |items|
  {
    hide ItemColumns;
    if items != [] {
      var n := |items| - 1;
      var before := UnnamedOf(items[..n], scope, excluded);
      UnnamedDiffer(items[..n], scope, excluded);
      forall k | 0 <= k < |before| ensures before[k].ordinal < n && before[k].column < |Columns(items[..n], scope, excluded).value| {
        UnnamedAreListed(items[..n], scope, excluded, before[k]);
        assert before[k] in before;
      }
    }
  }

  /** A wildcard shows column j of source i. */
  predicate Shown(sources: seq<Relation>, prefix: string, excluded: set<Key>, i: nat, j: nat) {
    && i < |sources| && Qualifies(sources[i], prefix) && j < |sources[i].columns|
    && Key(sources[i].alias, sources[i].columns[j].name) !in excluded
  }

  /** It keeps its name, and is Optional if it was or its source is. */
  predicate ShownAs(sources: seq<Relation>, i: nat, j: nat, c: ResultColumn)
    requires i < |sources| && j < |sources[i].columns|
  {
    && c.name == sources[i].columns[j].name && c.wireName == ""
    && Unwrap(c.typ) == Unwrap(sources[i].columns[j].typ)
    && (IsOptional(c.typ) <==> sources[i].optional || IsOptional(sources[i].columns[j].typ))
  }

  predicate Before(p: (nat, nat), q: (nat, nat)) {
    p.0 < q.0 || (p.0 == q.0 && p.1 < q.1)
  }

  /** The columns are those at these places, which ascend and leave none out. */
  ghost predicate Shows(sources: seq<Relation>, prefix: string, excluded: set<Key>, columns: seq<ResultColumn>, at: seq<(nat, nat)>) {
    && |columns| == |at|
    && (forall k | 0 <= k < |at| ::
          Shown(sources, prefix, excluded, at[k].0, at[k].1) && ShownAs(sources, at[k].0, at[k].1, columns[k]))
    && (forall k, l | 0 <= k < l < |at| :: Before(at[k], at[l]))
    && forall i: nat, j: nat | Shown(sources, prefix, excluded, i, j) :: (i, j) in at
  }

  /** The places of one source, up to its column n. */
  ghost predicate ShowsSource(source: Relation, n: nat, excluded: set<Key>, columns: seq<ResultColumn>, at: seq<nat>)
    requires n <= |source.columns|
  {
    && |columns| == |at|
    && (forall k | 0 <= k < |at| :: at[k] < n && Key(source.alias, source.columns[at[k]].name) !in excluded)
    && (forall k | 0 <= k < |at| :: ShownAs([source], 0, at[k], columns[k]))
    && (forall k, l | 0 <= k < l < |at| :: at[k] < at[l])
    && forall j | 0 <= j < n && Key(source.alias, source.columns[j].name) !in excluded :: j in at
  }

  lemma {:induction false} SourceShowsColumns(source: Relation, n: nat, excluded: set<Key>) returns (at: seq<nat>)
    requires n <= |source.columns|
    ensures ShowsSource(source, n, excluded, SourceColumns(source, source.columns[..n], excluded), at)
    decreases n
  {
    hide ShowsSource, ShownAs;
    if n == 0 {
      at := [];
      NothingShown(source, excluded);
    } else {
      var before := SourceShowsColumns(source, n - 1, excluded);
      assert source.columns[..n][..n - 1] == source.columns[..n - 1];
      at := if Key(source.alias, source.columns[n - 1].name) in excluded then before else before + [n - 1];
      OneMoreColumn(source, n, excluded, SourceColumns(source, source.columns[..n - 1], excluded), before);
    }
  }

  lemma NothingShown(source: Relation, excluded: set<Key>)
    ensures ShowsSource(source, 0, excluded, [], [])
  {
  }

  lemma OneMoreColumn(source: Relation, n: nat, excluded: set<Key>, columns: seq<ResultColumn>, before: seq<nat>)
    requires 0 < n <= |source.columns| && ShowsSource(source, n - 1, excluded, columns, before)
    ensures var last := source.columns[n - 1];
            if Key(source.alias, last.name) in excluded then ShowsSource(source, n, excluded, columns, before)
            else ShowsSource(source, n, excluded, columns + [ResultColumn(last.name, "", WithOptional(last.typ, source.optional))],
                             before + [n - 1])
  {
  }

  /** A wildcard shows the columns of the sources it covers that are not excluded, in their order, and no other. */
  lemma {:induction false} StarShowsColumns(sources: seq<Relation>, prefix: string, excluded: set<Key>) returns (at: seq<(nat, nat)>)
    ensures Shows(sources, prefix, excluded, StarColumns(sources, prefix, excluded), at)
    decreases |sources|
  {
    hide SourceColumns, Shows, ShowsSource, Qualifies;
    if sources == [] {
      at := [];
      NoSourceShown(prefix, excluded);
    } else {
      var n := |sources| - 1;
      var front, last := sources[..n], sources[n];
      var before := StarShowsColumns(front, prefix, excluded);
      assert sources == front + [last];
      if Qualifies(last, prefix) {
        var more := SourceShowsColumns(last, |last.columns|, excluded);
        assert last.columns[..|last.columns|] == last.columns;
        at := before + Placed(n, more);
        OneMoreSource(front, last, prefix, excluded, StarColumns(front, prefix, excluded), before,
                      SourceColumns(last, last.columns, excluded), more);
      } else {
        at := before;
        SkippedSource(front, last, prefix, excluded, StarColumns(front, prefix, excluded), before);
      }
    }
  }

  function Placed(i: nat, at: seq<nat>): (places: seq<(nat, nat)>)
    ensures |places| == |at|
  {
    seq(|at|, k requires 0 <= k < |at| => (i, at[k]))
  }

  lemma NoSourceShown(prefix: string, excluded: set<Key>)
    ensures Shows([], prefix, excluded, [], [])
  {
  }

  lemma SkippedSource(front: seq<Relation>, last: Relation, prefix: string, excluded: set<Key>, columns: seq<ResultColumn>,
                      before: seq<(nat, nat)>)
    requires Shows(front, prefix, excluded, columns, before) && !Qualifies(last, prefix)
    ensures Shows(front + [last], prefix, excluded, columns, before)
  {
    hide Qualifies;
    ShownInFront(front, last, prefix, excluded);
  }

  lemma ShownInFront(front: seq<Relation>, last: Relation, prefix: string, excluded: set<Key>)
    ensures forall i: nat, j: nat | i < |front| ::
              Shown(front + [last], prefix, excluded, i, j) <==> Shown(front, prefix, excluded, i, j)
    ensures forall i: nat, j: nat, c | i < |front| && j < |front[i].columns| ::
              ShownAs(front + [last], i, j, c) <==> ShownAs(front, i, j, c)
    ensures forall i: nat, j: nat | Shown(front + [last], prefix, excluded, i, j) :: i <= |front|
  {
  }

  lemma OneMoreSource(front: seq<Relation>, last: Relation, prefix: string, excluded: set<Key>, columns: seq<ResultColumn>,
                      before: seq<(nat, nat)>, more: seq<ResultColumn>, at: seq<nat>)
    requires Shows(front, prefix, excluded, columns, before) && Qualifies(last, prefix)
    requires ShowsSource(last, |last.columns|, excluded, more, at)
    ensures Shows(front + [last], prefix, excluded, columns + more, before + Placed(|front|, at))
  {
    hide Qualifies, ShownAs;
    var sources, n, all := front + [last], |front|, before + Placed(|front|, at);
    ShownInFront(front, last, prefix, excluded);
    forall k | 0 <= k < |all|
      ensures Shown(sources, prefix, excluded, all[k].0, all[k].1)
      ensures ShownAs(sources, all[k].0, all[k].1, (columns + more)[k])
    {
      if k >= |before| {
        assert all[k] == (n, at[k - |before|]) && (columns + more)[k] == more[k - |before|];
        LastShownAs(front, last, at[k - |before|], more[k - |before|]);
      }
    }
    forall k, l | 0 <= k < l < |all| ensures Before(all[k], all[l]) {
      if k < |before| && l >= |before| {
        assert Shown(front, prefix, excluded, before[k].0, before[k].1);
      }
    }
    forall i: nat, j: nat | Shown(sources, prefix, excluded, i, j) ensures (i, j) in all {
      if i < n {
        assert (i, j) in before;
      } else {
        var k :| 0 <= k < |at| && at[k] == j;
        assert all[|before| + k] == (n, j);
      }
    }
  }

  lemma LastShownAs(front: seq<Relation>, last: Relation, j: nat, c: ResultColumn)
    requires j < |last.columns| && ShownAs([last], 0, j, c)
    ensures ShownAs(front + [last], |front|, j, c)
  {
  }
}
