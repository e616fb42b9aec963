/** A wildcard means what the explicit list written in its place means. */
module WildcardExpansion {
  import opened Wrappers
  import opened Types
  import opened CommonTypes
  import opened TypingRules
  import opened Expressions
  import opened Resolver
  import opened Sorting
  import opened ResultColumns
  import opened ImplicitNames
  import opened Wildcards

  // ---------------------------------------------------------------- the expanded list

  /** One column of a wildcard, qualified and aliased where the wildcard is qualified or there is a join. */
  function ExpandedReference(sources: nat, prefix: string, source: Relation, name: string): Item {
    Reference(
      if prefix == "" && sources <= 1 then "" else source.alias,
      name,
      if prefix == "" && sources <= 1 then "" else name)
  }

  function ExpandedSource(sources: nat, prefix: string, source: Relation, columns: seq<ColumnType>, excluded: set<Key>)
    : seq<Item>
  {
    if columns == [] then []
    else
      var n := |columns| - 1;
      var before := ExpandedSource(sources, prefix, source, columns[..n], excluded);
      if Key(source.alias, columns[n].name) in excluded then before
      else before + [ExpandedReference(sources, prefix, source, columns[n].name)]
  }

  function ExpandedStar(count: nat, sources: seq<Relation>, prefix: string, excluded: set<Key>): seq<Item> {
    if sources == [] then []
    else
      var n := |sources| - 1;
      var before := ExpandedStar(count, sources[..n], prefix, excluded);
      if Qualifies(sources[n], prefix)
      then before + ExpandedSource(count, prefix, sources[n], sources[n].columns, excluded) else before
  }

  function CountUnnamed(items: seq<Item>): nat {
    if items == [] then 0 else CountUnnamed(items[..|items| - 1]) + if IsUnnamed(items[|items| - 1]) then 1 else 0
  }

  /** The entries that replace one entry; `name` is for an entry without one. */
  function ExpandedEntry(item: Item, relations: seq<Relation>, excluded: set<Key>, name: string): seq<Item> {
    match item
    case Star(prefix) => ExpandedStar(|relations|, relations, prefix, excluded)
    case Reference(_, _, _) => [item]
    case Computed(value, alias) => [if alias == "" then Computed(value, name) else item]
  }

  /** The list that is executed: wildcards written out, and every implicit name pinned by an alias. */
  function Expanded(items: seq<Item>, relations: seq<Relation>, excluded: set<Key>, names: seq<string>): seq<Item>
    requires |names| >= CountUnnamed(items)
  {
    if items == [] then []
    else
      var n := |items| - 1;
      var name := if IsUnnamed(items[n]) then names[CountUnnamed(items[..n])] else "";
      Expanded(items[..n], relations, excluded, names) + ExpandedEntry(items[n], relations, excluded, name)
  }

  // ---------------------------------------------------------------- columns by name

  predicate ColumnsDiffer(columns: seq<ColumnType>) {
    forall i, j | 0 <= i < j < |columns| :: columns[i].name != columns[j].name
  }

  /** Sources have distinct aliases, and columns with distinct names. */
  predicate WellSourced(relations: seq<Relation>) {
    && (forall i, j | 0 <= i < j < |relations| :: relations[i].alias != relations[j].alias)
    && forall relation <- relations ::
         relation.alias != "" && !relation.grouping && ColumnsDiffer(relation.columns)
         && forall c <- relation.columns :: c.name != ""
  }

  lemma {:induction false} NotCounted(columns: seq<ColumnType>, name: string)
    requires forall c <- columns :: c.name != name
    ensures CountNamed(columns, name) == 0
  {
    if columns != [] {
      NotCounted(columns[..|columns| - 1], name);
    }
  }

  lemma {:induction false} CountedOnce(columns: seq<ColumnType>, j: nat)
    requires j < |columns| && ColumnsDiffer(columns)
    ensures CountNamed(columns, columns[j].name) == 1
    decreases |columns|
  {
    var n := |columns| - 1;
    if j == n {
      NotCounted(columns[..n], columns[n].name);
    } else {
      CountedOnce(columns[..n], j);
    }
  }

  lemma {:induction false} FoundByName(columns: seq<ColumnType>, j: nat)
    requires j < |columns| && ColumnsDiffer(columns)
    ensures ColumnNamed(columns, columns[j].name) == Some(columns[j].typ)
  {
    if j > 0 {
      FoundByName(columns[1..], j - 1);
    }
  }

  /** Only relation i answers to the qualifier. */
  predicate OnlyOne(relations: seq<Relation>, qualifier: string, i: nat)
    requires i < |relations|
  {
    forall k | 0 <= k < |relations| :: Qualifies(relations[k], qualifier) <==> k == i
  }

  lemma {:induction false} MatchedNowhere(relations: seq<Relation>, qualifier: string, name: string)
    requires forall k | 0 <= k < |relations| :: !Qualifies(relations[k], qualifier)
    ensures MatchCount(relations, qualifier, name) == 0
    decreases |relations|
  {
    if relations != [] {
      MatchedNowhere(relations[..|relations| - 1], qualifier, name);
    }
  }

  lemma {:induction false} MatchedOnce(relations: seq<Relation>, qualifier: string, name: string, i: nat)
    requires i < |relations| && OnlyOne(relations, qualifier, i) && CountNamed(relations[i].columns, name) == 1
    ensures MatchCount(relations, qualifier, name) == 1
    decreases |relations|
  {
    var n := |relations| - 1;
    if i == n {
      MatchedNowhere(relations[..n], qualifier, name);
    } else {
      MatchedOnce(relations[..n], qualifier, name, i);
    }
  }

  lemma {:induction false} MatchedFirst(relations: seq<Relation>, qualifier: string, name: string, i: nat)
    requires i < |relations| && OnlyOne(relations, qualifier, i) && ColumnNamed(relations[i].columns, name).Some?
    ensures FirstMatch(relations, qualifier, name) == i
  {
    if i > 0 {
      MatchedFirst(relations[1..], qualifier, name, i - 1);
    }
  }

  lemma {:induction false} NoGrouping(relations: seq<Relation>, name: string)
    requires forall relation <- relations :: !relation.grouping
    ensures FirstGrouping(relations, name) == |relations|
  {
    if relations != [] {
      NoGrouping(relations[1..], name);
    }
  }

  /** A column written with a qualifier that only its source answers to is that column. */
  lemma ResolvesToColumn(relations: seq<Relation>, qualifier: string, i: nat, j: nat)
    requires WellSourced(relations) && i < |relations| && OnlyOne(relations, qualifier, i) && j < |relations[i].columns|
    ensures ResolveColumn(relations, qualifier, relations[i].columns[j].name) ==
            Ok(WithOptional(relations[i].columns[j].typ, relations[i].optional))
  {
    hide WithOptional;
    var name := relations[i].columns[j].name;
    assert relations[i] in relations;
    CountedOnce(relations[i].columns, j);
    FoundByName(relations[i].columns, j);
    MatchedOnce(relations, qualifier, name, i);
    MatchedFirst(relations, qualifier, name, i);
    NoGrouping(relations, name);
  }

  lemma ExpandedItem(scope: Scope, prefix: string, i: nat, j: nat)
    requires WellSourced(scope.relations) && i < |scope.relations| && j < |scope.relations[i].columns|
    requires Qualifies(scope.relations[i], prefix)
    ensures var source := scope.relations[i];
            var c := source.columns[j];
            ItemColumns(ExpandedReference(|scope.relations|, prefix, source, c.name), scope, {}) ==
            Ok([ResultColumn(c.name, "", WithOptional(c.typ, source.optional))])
  {
    hide WithOptional, ResolveColumn;
    var relations := scope.relations;
    assert relations[i] in relations && relations[i].columns[j] in relations[i].columns;
    var qualifier := if prefix == "" && |relations| <= 1 then "" else relations[i].alias;
    assert OnlyOne(relations, qualifier, i) by {
      forall k | 0 <= k < |relations| ensures Qualifies(relations[k], qualifier) <==> k == i {
        assert relations[k] in relations;
      }
    }
    ResolvesToColumn(relations, qualifier, i, j);
  }

  // ---------------------------------------------------------------- the columns of the expanded list

  lemma {:induction false} ColumnsOfBoth(items: seq<Item>, others: seq<Item>, scope: Scope)
    requires Columns(items, scope, {}).Ok? && Columns(others, scope, {}).Ok?
    ensures Columns(items + others, scope, {}) == Ok(Columns(items, scope, {}).value + Columns(others, scope, {}).value)
    decreases |others|
  {
    hide ItemColumns;
    if others == [] {
      assert items + others == items;
      assert Columns(items, scope, {}).value + [] == Columns(items, scope, {}).value;
    } else {
      var n := |others| - 1;
      ColumnsOfBoth(items, others[..n], scope);
      var all := items + others;
      assert all[..|all| - 1] == items + others[..n] && all[|all| - 1] == others[n];
      var a, b, c := Columns(items, scope, {}).value, Columns(others[..n], scope, {}).value,
                     ItemColumns(others[n], scope, {}).value;
      assert (a + b) + c == a + (b + c);
    }
  }

  lemma ColumnsOfOne(item: Item, scope: Scope)
    requires ItemColumns(item, scope, {}).Ok?
    ensures Columns([item], scope, {}) == ItemColumns(item, scope, {})
  {
    hide ItemColumns;
    assert [item][..0] == [];
    assert Columns([], scope, {}) == Ok([]);
    assert [] + ItemColumns(item, scope, {}).value == ItemColumns(item, scope, {}).value;
  }

  lemma {:induction false} ExpandedSourceColumns(scope: Scope, prefix: string, i: nat, k: nat, excluded: set<Key>)
    requires WellSourced(scope.relations) && i < |scope.relations| && k <= |scope.relations[i].columns|
    requires Qualifies(scope.relations[i], prefix)
    ensures var source := scope.relations[i];
            Columns(ExpandedSource(|scope.relations|, prefix, source, source.columns[..k], excluded), scope, {}) ==
            Ok(SourceColumns(source, source.columns[..k], excluded))
    decreases k
  {
    hide ItemColumns, WithOptional, WellSourced, Qualifies, ExpandedReference, Columns;
    var source := scope.relations[i];
    if k == 0 {
      assert source.columns[..0] == [];
      NoColumns(scope);
    } else {
      ExpandedSourceColumns(scope, prefix, i, k - 1, excluded);
      assert source.columns[..k][..k - 1] == source.columns[..k - 1];
      var item := ExpandedReference(|scope.relations|, prefix, source, source.columns[k - 1].name);
      ExpandedItem(scope, prefix, i, k - 1);
      ColumnsOfOne(item, scope);
      ColumnsOfBoth(ExpandedSource(|scope.relations|, prefix, source, source.columns[..k - 1], excluded), [item], scope);
    }
  }

  lemma NoColumns(scope: Scope)
    ensures Columns([], scope, {}) == Ok([])
  {
  }

  lemma {:induction false} ExpandedStarColumns(scope: Scope, prefix: string, k: nat, excluded: set<Key>)
    requires WellSourced(scope.relations) && k <= |scope.relations|
    ensures Columns(ExpandedStar(|scope.relations|, scope.relations[..k], prefix, excluded), scope, {}) ==
            Ok(StarColumns(scope.relations[..k], prefix, excluded))
    decreases k
  {
    hide ItemColumns, WellSourced, Qualifies, ExpandedSource, SourceColumns;
    if k > 0 {
      var source := scope.relations[k - 1];
      ExpandedStarColumns(scope, prefix, k - 1, excluded);
      assert scope.relations[..k][..k - 1] == scope.relations[..k - 1];
      if Qualifies(source, prefix) {
        ExpandedSourceColumns(scope, prefix, k - 1, |source.columns|, excluded);
        assert source.columns[..|source.columns|] == source.columns;
        ColumnsOfBoth(ExpandedStar(|scope.relations|, scope.relations[..k - 1], prefix, excluded),
                      ExpandedSource(|scope.relations|, prefix, source, source.columns, excluded), scope);
      }
    }
  }

  /** The same columns, with the given names for those that have none. */
  predicate NamedBy(columns: seq<ResultColumn>, unnamed: seq<Unnamed>, names: seq<string>, named: seq<ResultColumn>) {
    && |named| == |columns| && |names| >= |unnamed|
    && (forall i | 0 <= i < |unnamed| ::
          unnamed[i].column < |columns| && named[unnamed[i].column] == columns[unnamed[i].column].(name := names[i]))
    && (forall c | 0 <= c < |columns| :: (forall u <- unnamed :: u.column != c) ==> named[c] == columns[c])
  }

  lemma {:induction false} UnnamedCount(items: seq<Item>, scope: Scope, excluded: set<Key>)
    requires Columns(items, scope, excluded).Ok?
    ensures |UnnamedOf(items, scope, excluded)| == CountUnnamed(items)
  {
    hide ItemColumns;
    if items != [] {
      UnnamedCount(items[..|items| - 1], scope, excluded);
    }
  }

  lemma {:induction false} ExpandedColumns(items: seq<Item>, scope: Scope, excluded: set<Key>, names: seq<string>)
    requires WellSourced(scope.relations) && Columns(items, scope, excluded).Ok? && |names| >= CountUnnamed(items)
    ensures var expanded := Columns(Expanded(items, scope.relations, excluded, names), scope, {});
            && expanded.Ok?
            && NamedBy(Columns(items, scope, excluded).value, UnnamedOf(items, scope, excluded), names, expanded.value)
    decreases |items|
  {
    hide ItemColumns, WellSourced, NamedBy, ExpandedEntry, IsUnnamed;
    if items == [] {
      NothingNamed(names);
    } else {
      var n := |items| - 1;
      var front, item := items[..n], items[n];
      ExpandedColumns(front, scope, excluded, names);
      UnnamedCount(front, scope, excluded);
      var before := Expanded(front, scope.relations, excluded, names);
      var name := if IsUnnamed(item) then names[CountUnnamed(front)] else "";
      var last := ExpandedEntry(item, scope.relations, excluded, name);
      ExpandedEntryColumns(item, scope, excluded, name);
      ColumnsOfBoth(before, last, scope);
      var more, moreNamed := ItemColumns(item, scope, excluded).value, Columns(last, scope, {}).value;
      NamedFurther(Columns(front, scope, excluded).value, UnnamedOf(front, scope, excluded), names,
                   Columns(before, scope, {}).value, more, moreNamed, n, IsUnnamed(item));
    }
  }

  lemma NothingNamed(names: seq<string>)
    ensures NamedBy([], [], names, [])
  {
  }

  lemma ExpandedEntryColumns(item: Item, scope: Scope, excluded: set<Key>, name: string)
    requires WellSourced(scope.relations) && ItemColumns(item, scope, excluded).Ok?
    ensures var columns := ItemColumns(item, scope, excluded).value;
            var named := Columns(ExpandedEntry(item, scope.relations, excluded, name), scope, {});
            && named.Ok?
            && if IsUnnamed(item) then |columns| == 1 && named.value == [columns[0].(name := name)] else named.value == columns
  {
    hide WellSourced, ExpandedStar, Resolve, ResolveColumn, StarColumns;
    match item {
      case Star(prefix) =>
        ExpandedStarColumns(scope, prefix, |scope.relations|, excluded);
        assert scope.relations[..|scope.relations|] == scope.relations;
      case Reference(_, _, _) =>
        ColumnsOfOne(item, scope);
      case Computed(value, alias) =>
        ColumnsOfOne(if alias == "" then Computed(value, name) else item, scope);
    }
  }

  lemma NamedFurther(columns: seq<ResultColumn>, unnamed: seq<Unnamed>, names: seq<string>, named: seq<ResultColumn>,
                     more: seq<ResultColumn>, moreNamed: seq<ResultColumn>, ordinal: nat, last: bool)
    requires NamedBy(columns, unnamed, names, named)
    requires if last then |names| > |unnamed| && |more| == 1 && moreNamed == [more[0].(name := names[|unnamed|])]
             else moreNamed == more
    ensures NamedBy(columns + more, if last then unnamed + [Unnamed(|columns|, ordinal)] else unnamed, names, named + moreNamed)
  {
  }

  // ---------------------------------------------------------------- the meaning is kept

  lemma {:induction false} UnnamedAreListed(items: seq<Item>, scope: Scope, excluded: set<Key>)
    requires WellSourced(scope.relations) && Columns(items, scope, excluded).Ok?
    ensures Lists(UnnamedOf(items, scope, excluded), Columns(items, scope, excluded).value)
    ensures forall u <- UnnamedOf(items, scope, excluded) :: u.ordinal < |items|
    ensures OrdinalsDiffer(UnnamedOf(items, scope, excluded))
    decreases |items|
  {
    hide ItemColumns, WellSourced, IsUnnamed;
    if items != [] {
      var n := |items| - 1;
      UnnamedAreListed(items[..n], scope, excluded);
      ItemNames(items[n], scope, excluded);
    }
  }

  /** Only a computed entry without an alias has no name. */
  lemma ItemNames(item: Item, scope: Scope, excluded: set<Key>)
    requires WellSourced(scope.relations) && ItemColumns(item, scope, excluded).Ok?
    ensures var columns := ItemColumns(item, scope, excluded).value;
            if IsUnnamed(item) then |columns| == 1 && columns[0].name == "" && columns[0].wireName == ""
            else forall c <- columns :: c.name != ""
  {
    hide WellSourced, Resolve, ResolveColumn, StarColumns;
    match item {
      case Star(prefix) => StarNames(scope.relations, prefix, excluded);
      case Reference(qualifier, name, alias) => ResolvedName(scope.relations, qualifier, name);
      case Computed(_, _) =>
    }
  }

  lemma {:induction false} SourceNames(source: Relation, columns: seq<ColumnType>, excluded: set<Key>)
    requires forall c <- columns :: c.name != ""
    ensures forall c <- SourceColumns(source, columns, excluded) :: c.name != ""
  {
    hide WithOptional;
    if columns != [] {
      SourceNames(source, columns[..|columns| - 1], excluded);
    }
  }

  lemma {:induction false} StarNames(sources: seq<Relation>, prefix: string, excluded: set<Key>)
    requires WellSourced(sources)
    ensures forall c <- StarColumns(sources, prefix, excluded) :: c.name != ""
  {
    if sources != [] {
      var n := |sources| - 1;
      assert WellSourced(sources[..n]) by { assert forall source <- sources[..n] :: source in sources; }
      StarNames(sources[..n], prefix, excluded);
      assert sources[n] in sources;
      SourceNames(sources[n], sources[n].columns, excluded);
    }
  }

  lemma ResolvedName(relations: seq<Relation>, qualifier: string, name: string)
    requires WellSourced(relations) && ResolveColumn(relations, qualifier, name).Ok?
    ensures name != ""
  {
    var i := ColumnSource(relations, qualifier, name).value;
    assert relations[i] in relations;
    if name == "" {
      NamelessIsNotFound(relations[i].columns);
    }
  }

  lemma {:induction false} NamelessIsNotFound(columns: seq<ColumnType>)
    requires forall c <- columns :: c.name != ""
    ensures ColumnNamed(columns, "").None?
  {
    if columns != [] {
      assert columns[0] in columns;
      NamelessIsNotFound(columns[1..]);
    }
  }

  lemma {:induction false} ExpandedSourceShape(count: nat, prefix: string, source: Relation,
                                                   columns: seq<ColumnType>, excluded: set<Key>)
    ensures forall item <- ExpandedSource(count, prefix, source, columns, excluded) :: item.Reference?
  {
    if columns != [] {
      ExpandedSourceShape(count, prefix, source, columns[..|columns| - 1], excluded);
    }
  }

  lemma {:induction false} ExpandedStarShape(count: nat, sources: seq<Relation>, prefix: string, excluded: set<Key>)
    ensures forall item <- ExpandedStar(count, sources, prefix, excluded) :: item.Reference?
  {
    if sources != [] {
      var n := |sources| - 1;
      ExpandedStarShape(count, sources[..n], prefix, excluded);
      ExpandedSourceShape(count, prefix, sources[n], sources[n].columns, excluded);
    }
  }

  predicate Explicit(item: Item) {
    !item.Star? && !IsUnnamed(item)
  }

  lemma {:induction false} ExpandedIsExplicit(items: seq<Item>, relations: seq<Relation>, excluded: set<Key>, names: seq<string>)
    requires |names| >= CountUnnamed(items) && forall name <- names :: name != ""
    ensures forall item <- Expanded(items, relations, excluded, names) :: Explicit(item)
  {
    hide ExpandedStar;
    if items != [] {
      var n := |items| - 1;
      ExpandedIsExplicit(items[..n], relations, excluded, names);
      if IsUnnamed(items[n]) {
        assert names[CountUnnamed(items[..n])] in names;
      }
      if items[n].Star? {
        ExpandedStarShape(|relations|, relations, items[n].prefix, excluded);
      }
    }
  }

  lemma {:induction false} ExplicitNeedsNothing(items: seq<Item>, scope: Scope)
    requires (forall item <- items :: Explicit(item)) && Columns(items, scope, {}).Ok?
    ensures UnnamedOf(items, scope, {}) == [] && CountEmptied(items, scope, {}) == 0
  {
    hide ItemColumns;
    if items != [] {
      var n := |items| - 1;
      assert items[n] in items && forall item <- items[..n] :: item in items;
      ExplicitNeedsNothing(items[..n], scope);
    }
  }

  function AllocatedNames(columns: seq<ResultColumn>, unnamed: seq<Unnamed>): (names: seq<string>)
    ensures |names| == |unnamed|
  {
    var ordinals := Allocated(Authored(columns), unnamed);
    seq(|unnamed|, i requires 0 <= i < |unnamed| => ColumnName(ordinals[i]))
  }

  /** analyzeExecutableQuery replaces a list with wildcards by its expansion. */
  function Executable(items: seq<Item>, scope: Scope, excluded: set<Key>): seq<Item>
    requires Columns(items, scope, excluded).Ok?
  {
    UnnamedCount(items, scope, excluded);
    Expanded(items, scope.relations, excluded,
             AllocatedNames(Columns(items, scope, excluded).value, UnnamedOf(items, scope, excluded)))
  }

  lemma NamedByIsWithNames(columns: seq<ResultColumn>, unnamed: seq<Unnamed>, named: seq<ResultColumn>)
    requires Lists(unnamed, columns) && NamedBy(columns, unnamed, AllocatedNames(columns, unnamed), named)
    ensures named == WithNames(columns, unnamed, Allocated(Authored(columns), unnamed))
  {
    hide ColumnName, WithNames, Allocated, Authored;
    var ordinals := Allocated(Authored(columns), unnamed);
    var expected := WithNames(columns, unnamed, ordinals);
    forall c | 0 <= c < |columns| ensures named[c] == expected[c] {
      if u :| u in unnamed && u.column == c {
        var i :| 0 <= i < |unnamed| && unnamed[i] == u;
        WithNamesAt(columns, unnamed, ordinals, i);
      } else {
        WithNamesElsewhere(columns, unnamed, ordinals, c);
      }
    }
  }

  lemma NamesAreWritten(columns: seq<ResultColumn>, unnamed: seq<Unnamed>)
    ensures forall name <- AllocatedNames(columns, unnamed) :: name != ""
  {
    hide Allocated, Authored;
  }

  lemma NothingToName(columns: seq<ResultColumn>)
    ensures NamedColumns(columns, []) == columns
  {
  }

  /**
   * The executed list has the same columns as the authored one: same result names, same types.  Their order is the
   * authored one too, unless the author wrote a name that an implicit name had to avoid; then the authored list was
   * sorted by name.
   */
  lemma ExpansionKeepsMeaning(items: seq<Item>, scope: Scope, without: bool, excluded: set<Key>)
    requires WellSourced(scope.relations) && Select(items, scope, without, excluded).Ok?
    ensures var columns := Columns(items, scope, excluded).value;
            var unnamed := UnnamedOf(items, scope, excluded);
            var authored := Select(items, scope, without, excluded).value;
            var executed := Select(Executable(items, scope, excluded), scope, false, {});
            && executed.Ok?
            && if exists u <- unnamed :: ColumnName(u.ordinal) in Authored(columns)
               then Ascending(NamedAtMost, authored) && multiset(authored) == multiset(executed.value)
               else authored == executed.value
  {
    hide ItemColumns, WellSourced, Columns, UnnamedOf, Expanded, NamedColumns, CountEmptied, ColumnName, Authored, Allocated,
         WithNames, Lists, NamedBy, OrdinalsDiffer;
    var columns, unnamed := Columns(items, scope, excluded).value, UnnamedOf(items, scope, excluded);
    var names := AllocatedNames(columns, unnamed);
    UnnamedCount(items, scope, excluded);
    UnnamedAreListed(items, scope, excluded);
    ExpandedColumns(items, scope, excluded, names);
    NamesAreWritten(columns, unnamed);
    var executable := Executable(items, scope, excluded);
    ExpandedIsExplicit(items, scope.relations, excluded, names);
    ExplicitNeedsNothing(executable, scope);
    NamedByIsWithNames(columns, unnamed, Columns(executable, scope, {}).value);
    NothingToName(Columns(executable, scope, {}).value);
    OrderIsKeptUnlessNamesCollide(columns, unnamed);
  }
}
