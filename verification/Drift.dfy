/** The comparison of a schema table with the table the database reports (internal/analyzer/database.go). */
module Drift {
  import opened Wrappers
  import opened Types
  import opened TypeText
  import opened Sorting
  import opened Catalog
  import opened CatalogRuns
  import opened CatalogHeap

  // ---------------------------------------------------------------- the loops

  function Sorted(names: seq<string>): seq<string> {
    Sort(NameAtMost, names)
  }

  /** tableColumn: the first column of that name. */
  function ColumnOf(columns: seq<Column>, name: string): Column
    requires name in ColumnNames(columns)
  {
    PositionIsFirst(ColumnNames(columns), name);
    columns[Position(ColumnNames(columns), name).value]
  }

  function IndexOf(indexes: seq<Index>, name: string): Index
    requires name in IndexNames(indexes)
  {
    PositionIsFirst(IndexNames(indexes), name);
    indexes[Position(IndexNames(indexes), name).value]
  }

  predicate SameColumn(c: Column, other: Column) {
    Equal(c.typ, other.typ) && c.sequence == other.sequence
  }

  predicate SameIndex(index: Index, other: Index) {
    index.kind == other.kind && index.columns == other.columns && Sorted(index.covering) == Sorted(other.covering)
  }

  predicate ColumnAgrees(c: Column, remote: Table) {
    c.name in ColumnNames(remote.columns) && SameColumn(c, ColumnOf(remote.columns, c.name))
  }

  predicate IndexAgrees(index: Index, remote: Table) {
    index.name in IndexNames(remote.indexes) && SameIndex(index, IndexOf(remote.indexes, index.name))
  }

  /** compareDatabaseTable reports nothing. */
  predicate InStep(local: Table, remote: Table) {
    && (forall c <- local.columns :: ColumnAgrees(c, remote))
    && (forall c <- remote.columns :: c.name in ColumnNames(local.columns))
    && local.key == remote.key
    && (forall index <- local.indexes :: IndexAgrees(index, remote))
    && (forall index <- remote.indexes :: index.name in IndexNames(local.indexes))
  }

  method FindName(names: seq<string>, name: string) returns (at: Option<nat>)
    ensures at == Position(names, name)
    ensures at.Some? ==> at.value < |names|
  {
    for i := 0 to |names|
      invariant name !in names[..i]
    {
      if names[i] == name {
        PositionAt(names, name, i);
        return Some(i);
      }
    }
    PositionNowhere(names, name);
    at := None;
  }

  /** compareDatabaseTable, which returns at the first difference. */
  method CompareTables(local: Table, remote: Table) returns (inStep: bool)
    ensures inStep == InStep(local, remote)
  {
    for i := 0 to |local.columns|
      invariant forall c <- local.columns[..i] :: ColumnAgrees(c, remote)
    {
      var c := local.columns[i];
      assert c in local.columns;
      var at := FindName(ColumnNames(remote.columns), c.name);
      PositionIsFirst(ColumnNames(remote.columns), c.name);
      if at.None? { return false; }
      var same := CheckEqual(c.typ, remote.columns[at.value].typ);
      if !same || c.sequence != remote.columns[at.value].sequence { return false; }
      assert local.columns[..i + 1] == local.columns[..i] + [c];
    }
    assert local.columns[..|local.columns|] == local.columns;
    for i := 0 to |remote.columns|
      invariant forall c <- remote.columns[..i] :: c.name in ColumnNames(local.columns)
    {
      assert remote.columns[i] in remote.columns;
      var at := FindName(ColumnNames(local.columns), remote.columns[i].name);
      PositionIsFirst(ColumnNames(local.columns), remote.columns[i].name);
      if at.None? { return false; }
      assert remote.columns[..i + 1] == remote.columns[..i] + [remote.columns[i]];
    }
    assert remote.columns[..|remote.columns|] == remote.columns;
    if local.key != remote.key { return false; }
    inStep := CompareIndexes(local, remote);
  }

  method CompareIndexes(local: Table, remote: Table) returns (inStep: bool)
    ensures inStep == ((forall index <- local.indexes :: IndexAgrees(index, remote))
                       && forall index <- remote.indexes :: index.name in IndexNames(local.indexes))
  {
    for i := 0 to |local.indexes|
      invariant forall index <- local.indexes[..i] :: IndexAgrees(index, remote)
    {
      var index := local.indexes[i];
      assert index in local.indexes;
      var at := FindName(IndexNames(remote.indexes), index.name);
      PositionIsFirst(IndexNames(remote.indexes), index.name);
      if at.None? { return false; }
      var other := remote.indexes[at.value];
      if index.kind != other.kind || index.columns != other.columns { return false; }
      if Sorted(index.covering) != Sorted(other.covering) { return false; }
      assert local.indexes[..i + 1] == local.indexes[..i] + [index];
    }
    assert local.indexes[..|local.indexes|] == local.indexes;
    for i := 0 to |remote.indexes|
      invariant forall index <- remote.indexes[..i] :: index.name in IndexNames(local.indexes)
    {
      assert remote.indexes[i] in remote.indexes;
      var at := FindName(IndexNames(local.indexes), remote.indexes[i].name);
      PositionIsFirst(IndexNames(local.indexes), remote.indexes[i].name);
      if at.None? { return false; }
      assert remote.indexes[..i + 1] == remote.indexes[..i] + [remote.indexes[i]];
    }
    assert remote.indexes[..|remote.indexes|] == remote.indexes;
    inStep := true;
  }

  // ---------------------------------------------------------------- what is compared

  datatype ColumnFacts = ColumnFacts(shape: Shape, sequence: bool)

  datatype IndexFacts = IndexFacts(kind: IndexKind, columns: seq<string>, covering: multiset<string>)

  /** A table without the order of its columns, its indexes and the covering columns of each index. */
  datatype Layout = Layout(columns: map<string, ColumnFacts>, key: seq<string>, indexes: map<string, IndexFacts>)

  ghost function FactsOf(c: Column): ColumnFacts {
    ColumnFacts(ShapeOf(c.typ), c.sequence)
  }

  ghost function IndexFactsOf(index: Index): IndexFacts {
    IndexFacts(index.kind, index.columns, multiset(index.covering))
  }

  ghost function ColumnLayout(columns: seq<Column>): map<string, ColumnFacts> {
    map name | name in ColumnNames(columns) :: FactsOf(ColumnOf(columns, name))
  }

  ghost function IndexLayout(indexes: seq<Index>): map<string, IndexFacts> {
    map name | name in IndexNames(indexes) :: IndexFactsOf(IndexOf(indexes, name))
  }

  ghost function LayoutOf(t: Table): Layout {
    Layout(ColumnLayout(t.columns), t.key, IndexLayout(t.indexes))
  }

  predicate Comparable(t: Table) {
    && NoRepeats(ColumnNames(t.columns)) && NoRepeats(IndexNames(t.indexes))
    && forall c <- t.columns :: Distinct(c.typ)
  }

  lemma SortedIsMultiset(a: seq<string>, b: seq<string>)
    ensures Sorted(a) == Sorted(b) <==> multiset(a) == multiset(b)
  {
    NamesAreOrdered();
    SortIsPermutation(NameAtMost, a);
    SortIsPermutation(NameAtMost, b);
    SortIsAscending(NameAtMost, a);
    SortIsAscending(NameAtMost, b);
    if multiset(a) == multiset(b) {
      AscendingIsUnique(NameAtMost, Sorted(a), Sorted(b));
    }
  }

  lemma ColumnOfMember(columns: seq<Column>, c: Column)
    requires c in columns
    ensures c.name in ColumnNames(columns)
    ensures NoRepeats(ColumnNames(columns)) ==> ColumnOf(columns, c.name) == c
  {
    var i :| 0 <= i < |columns| && columns[i] == c;
    var names := ColumnNames(columns);
    assert names[i] == c.name;
    PositionIsFirst(names, c.name);
  }

  lemma IndexOfMember(indexes: seq<Index>, index: Index)
    requires index in indexes
    ensures index.name in IndexNames(indexes)
    ensures NoRepeats(IndexNames(indexes)) ==> IndexOf(indexes, index.name) == index
  {
    var i :| 0 <= i < |indexes| && indexes[i] == index;
    var names := IndexNames(indexes);
    assert names[i] == index.name;
    PositionIsFirst(names, index.name);
  }

  lemma ColumnOfName(columns: seq<Column>, name: string)
    requires name in ColumnNames(columns)
    ensures ColumnOf(columns, name) in columns && ColumnOf(columns, name).name == name
  {
    PositionIsFirst(ColumnNames(columns), name);
  }

  lemma IndexOfName(indexes: seq<Index>, name: string)
    requires name in IndexNames(indexes)
    ensures IndexOf(indexes, name) in indexes && IndexOf(indexes, name).name == name
  {
    PositionIsFirst(IndexNames(indexes), name);
  }

  lemma SameColumnFacts(c: Column, other: Column)
    requires Distinct(c.typ) && Distinct(other.typ)
    ensures SameColumn(c, other) <==> FactsOf(c) == FactsOf(other)
  {
    EqualIsSameShape(c.typ, other.typ);
  }

  lemma SameIndexFacts(index: Index, other: Index)
    ensures SameIndex(index, other) <==> IndexFactsOf(index) == IndexFactsOf(other)
  {
    SortedIsMultiset(index.covering, other.covering);
  }

  lemma ColumnsInStep(local: seq<Column>, remote: seq<Column>)
    requires NoRepeats(ColumnNames(local)) && NoRepeats(ColumnNames(remote))
    requires (forall c <- local :: Distinct(c.typ)) && (forall c <- remote :: Distinct(c.typ))
    ensures (forall c <- local :: c.name in ColumnNames(remote) && SameColumn(c, ColumnOf(remote, c.name)))
            && (forall c <- remote :: c.name in ColumnNames(local))
            <==> ColumnLayout(local) == ColumnLayout(remote)
  {
    hide NoRepeats, ColumnOf, SameColumn, FactsOf, ColumnNames, Distinct;
    forall c | c in local && c.name in ColumnNames(remote)
      ensures SameColumn(c, ColumnOf(remote, c.name)) <==> FactsOf(c) == FactsOf(ColumnOf(remote, c.name))
    {
      ColumnOfName(remote, c.name);
      SameColumnFacts(c, ColumnOf(remote, c.name));
    }
    forall c | c in local ensures c.name in ColumnNames(local) && ColumnOf(local, c.name) == c { ColumnOfMember(local, c); }
    forall c | c in remote ensures c.name in ColumnNames(remote) { ColumnOfMember(remote, c); }
    forall name | name in ColumnNames(local) ensures ColumnOf(local, name) in local && ColumnOf(local, name).name == name {
      ColumnOfName(local, name);
    }
    forall name | name in ColumnNames(remote) ensures ColumnOf(remote, name) in remote && ColumnOf(remote, name).name == name {
      ColumnOfName(remote, name);
    }
    if ColumnLayout(local) == ColumnLayout(remote) {
      assert forall name :: name in ColumnNames(local) <==> name in ColumnLayout(local);
      assert forall name :: name in ColumnNames(remote) <==> name in ColumnLayout(remote);
    }
  }

  lemma IndexesInStep(local: seq<Index>, remote: seq<Index>)
    requires NoRepeats(IndexNames(local)) && NoRepeats(IndexNames(remote))
    ensures (forall index <- local :: index.name in IndexNames(remote) && SameIndex(index, IndexOf(remote, index.name)))
            && (forall index <- remote :: index.name in IndexNames(local))
            <==> IndexLayout(local) == IndexLayout(remote)
  {
    hide NoRepeats, IndexOf, SameIndex, IndexFactsOf, IndexNames;
    forall index | index in local && index.name in IndexNames(remote)
      ensures SameIndex(index, IndexOf(remote, index.name))
              <==> IndexFactsOf(index) == IndexFactsOf(IndexOf(remote, index.name))
    {
      SameIndexFacts(index, IndexOf(remote, index.name));
    }
    forall index | index in local ensures index.name in IndexNames(local) && IndexOf(local, index.name) == index {
      IndexOfMember(local, index);
    }
    forall index | index in remote ensures index.name in IndexNames(remote) { IndexOfMember(remote, index); }
    forall name | name in IndexNames(local) ensures IndexOf(local, name) in local && IndexOf(local, name).name == name {
      IndexOfName(local, name);
    }
    forall name | name in IndexNames(remote) ensures IndexOf(remote, name) in remote && IndexOf(remote, name).name == name {
      IndexOfName(remote, name);
    }
    if IndexLayout(local) == IndexLayout(remote) {
      assert forall name :: name in IndexNames(local) <==> name in IndexLayout(local);
      assert forall name :: name in IndexNames(remote) <==> name in IndexLayout(remote);
    }
  }

  /** The comparison reports nothing exactly when the tables differ at most in what a Layout forgets. */
  lemma InStepIsSameLayout(local: Table, remote: Table)
    requires Comparable(local) && Comparable(remote)
    ensures InStep(local, remote) <==> LayoutOf(local) == LayoutOf(remote)
  {
    hide ColumnLayout, IndexLayout, NoRepeats, SameColumn, SameIndex, ColumnOf, IndexOf, Distinct, ColumnNames, IndexNames;
    ColumnsInStep(local.columns, remote.columns);
    IndexesInStep(local.indexes, remote.indexes);
  }

  // ---------------------------------------------------------------- the tables that are compared

  /** normalizeDatabaseTable: what the database reports is accepted under the name it was asked for. */
  function Normalized(name: string, t: Table, quote: string -> string): Result<Table> {
    if "" in ColumnNames(t.columns) || !NoRepeats(ColumnNames(t.columns))
       || (exists c <- t.columns :: !Guard(c.typ, quote))
       || (exists key <- t.key :: key !in ColumnNames(t.columns))
    then Err
    else Ok(t.(name := name, columns := Moved(t.columns, name)))
  }

  predicate ColumnNormal(t: Table, i: nat, quote: string -> string)
    requires i < |t.columns|
  {
    t.columns[i].name != "" && t.columns[i].name !in ColumnNames(t.columns)[..i] && Guard(t.columns[i].typ, quote)
  }

  lemma NormalizedByColumn(t: Table, quote: string -> string)
    ensures (forall i | 0 <= i < |t.columns| :: ColumnNormal(t, i, quote)) <==>
            "" !in ColumnNames(t.columns) && NoRepeats(ColumnNames(t.columns))
            && forall c <- t.columns :: Guard(c.typ, quote)
  {
    hide Guard;
    var names := ColumnNames(t.columns);
    if forall i | 0 <= i < |t.columns| :: ColumnNormal(t, i, quote) {
      forall i, j | 0 <= i < j < |names| ensures names[i] != names[j] {
        assert ColumnNormal(t, j, quote) && names[..j][i] == names[i];
      }
      forall c | c in t.columns ensures Guard(c.typ, quote) {
        var i :| 0 <= i < |t.columns| && t.columns[i] == c;
        assert ColumnNormal(t, i, quote);
      }
      forall i | 0 <= i < |names| ensures names[i] != "" { assert ColumnNormal(t, i, quote); }
    }
    if "" !in names && NoRepeats(names) && (forall c <- t.columns :: Guard(c.typ, quote)) {
      forall i | 0 <= i < |t.columns| ensures ColumnNormal(t, i, quote) {
        assert names[i] in names && t.columns[i] in t.columns;
      }
    }
  }

  /** The first loop of normalizeDatabaseTable, on a copy of the reported columns. */
  method NormalizeColumns(name: string, t: Table, quote: string -> string)
    returns (ok: bool, columns: seq<Column>, seen: set<string>)
    ensures ok == forall i | 0 <= i < |t.columns| :: ColumnNormal(t, i, quote)
    ensures ok ==> columns == Moved(t.columns, name) && forall n :: n in seen <==> n in ColumnNames(t.columns)
  {
    hide Guard;
    ghost var names := ColumnNames(t.columns);
    columns, seen := t.columns, {};
    for i := 0 to |t.columns|
      invariant |columns| == |t.columns|
      invariant forall j | 0 <= j < i :: columns[j] == t.columns[j].(table := name) && ColumnNormal(t, j, quote)
      invariant forall j | i <= j < |columns| :: columns[j] == t.columns[j]
      invariant forall n :: n in seen <==> n in names[..i]
    {
      var c := columns[i];
      assert c.name == names[i] && names[..i + 1] == names[..i] + [c.name];
      if c.name == "" || c.name in seen || !Guard(c.typ, quote) {
        assert !ColumnNormal(t, i, quote);
        return false, columns, seen;
      }
      seen := seen + {c.name};
      columns := columns[i := c.(table := name)];
    }
    assert names[..|names|] == names;
    ok := true;
  }

  /** normalizeDatabaseTable. */
  method Normalize(name: string, t: Table, quote: string -> string) returns (r: Result<Table>)
    ensures r == Normalized(name, t, quote)
  {
    hide Guard, NoRepeats, ColumnNormal;
    NormalizedByColumn(t, quote);
    var ok, columns, seen := NormalizeColumns(name, t, quote);
    if !ok { return Err; }
    for i := 0 to |t.key|
      invariant forall key <- t.key[..i] :: key in ColumnNames(t.columns)
    {
      if t.key[i] !in seen {
        assert t.key[i] in t.key;
        return Err;
      }
    }
    assert t.key[..|t.key|] == t.key;
    r := Ok(t.(name := name, columns := columns));
  }

  lemma NormalizedIsComparable(name: string, t: Table, quote: string -> string)
    requires Normalized(name, t, quote).Ok? && NoRepeats(IndexNames(t.indexes))
    ensures Comparable(Normalized(name, t, quote).value)
  {
    hide NoRepeats, Guard, Distinct, Readable;
    var normalized := Normalized(name, t, quote).value;
    MovedNames(t.columns, name);
    forall c | c in normalized.columns ensures Distinct(c.typ) {
      var i :| 0 <= i < |t.columns| && c == t.columns[i].(table := name);
      assert t.columns[i] in t.columns;
      GuardIsExact(c.typ, quote);
      ReadableIsDistinct(c.typ);
    }
  }

  lemma SoundIsComparable(t: Table)
    requires TableSound(t)
    ensures Comparable(t)
  {
    hide NoRepeats, Distinct, Readable;
    forall c | c in t.columns ensures Distinct(c.typ) {
      assert ColumnSound(t, c);
      ReadableIsDistinct(c.typ);
    }
  }

  /** Whatever schema statements were replayed, the check against an accepted database table is exact. */
  lemma DriftIsExact(statements: seq<Statement>, local: Table, name: string, reported: Table, quote: string -> string)
    requires local in Replay([], statements)
    requires Normalized(name, reported, quote).Ok? && NoRepeats(IndexNames(reported.indexes))
    ensures var remote := Normalized(name, reported, quote).value;
            InStep(local, remote) <==> LayoutOf(local) == LayoutOf(remote)
  {
    hide TableSound, InStep, LayoutOf, Normalized, Comparable, Replay, NoRepeats;
    EveryCatalogIsSound(statements);
    SoundIsComparable(local);
    NormalizedIsComparable(name, reported, quote);
    InStepIsSameLayout(local, Normalized(name, reported, quote).value);
  }
}
