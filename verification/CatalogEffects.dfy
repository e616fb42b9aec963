/** What schema statements make of a catalog, seen from the statement text and from the tables they do not name. */
module CatalogEffects {
  import opened Slices
  import opened Wrappers
  import opened Text
  import opened Types
  import opened TypeText
  import opened Catalog
  import opened CatalogRuns

  // ---------------------------------------------------------------- columns

  /** The integer kind of a serial spelling. */
  predicate IsSerialSpelling(lower: string, kind: Kind) {
    || (lower in {"smallserial", "serial2"} && kind == Int16)
    || (lower in {"serial", "serial4"} && kind == Int32)
    || (lower in {"serial8", "bigserial"} && kind == Int64)
  }

  predicate IsSerial(lower: string) {
    lower in {"smallserial", "serial2", "serial", "serial4", "serial8", "bigserial"}
  }

  /**
   * The column that a definition declares: a serial type is its integer kind and never Optional; any other type is what its
   * text says, and Optional exactly when NOT NULL is absent or the text itself is Optional.
   */
  predicate Declared(schema: ColumnSchema, table: string, c: Column) {
    && schema.literal && c.name == schema.name && c.table == table
    && if c.sequence then IsSerialSpelling(Lower(schema.typeText), c.typ.kind) && c.typ == Plain(c.typ.kind)
       else
         && !IsSerial(Lower(schema.typeText))
         && ParseType(schema.typeText).Ok?
         && Unwrap(c.typ) == Unwrap(ParseType(schema.typeText).value)
         && (IsOptional(c.typ) <==> !schema.notNull || IsOptional(ParseType(schema.typeText).value))
         && (IsOptional(c.typ) ==> c.typ == OptionalOf(Unwrap(c.typ)))
  }

  lemma SerialSpellings(lower: string, kind: Kind)
    ensures SerialKind(lower) == Some(kind) <==> IsSerialSpelling(lower, kind)
    ensures SerialKind(lower).Some? <==> IsSerial(lower)
  {
  }

  lemma OptionalIsReadable(t: Type)
    requires Readable(t) && IsOptional(t)
    ensures t == OptionalOf(Unwrap(t)) && t.elem.Some?
  {
  }

  /** The analyzer stores exactly the declared column, or rejects the definition. */
  lemma ColumnIsDeclared(table: string, schema: ColumnSchema, c: Column)
    ensures CatalogColumn(table, schema) == Ok(c) <==> Declared(schema, table, c)
  {
    hide Lower, ReadType, Readable, SerialKind, IsSerialSpelling, IsSerial;
    var lower := Lower(schema.typeText);
    SerialSpellings(lower, c.typ.kind);
    if SerialKind(lower).Some? { SerialSpellings(lower, SerialKind(lower).value); }
    if ParseType(schema.typeText).Ok? {
      var parsed := ParseType(schema.typeText).value;
      ParsedIsReadable(schema.typeText);
      if IsOptional(parsed) { OptionalIsReadable(parsed); }
    }
  }

  // ---------------------------------------------------------------- CREATE TABLE

  function ColumnSchemas(entries: seq<Entry>): seq<ColumnSchema> {
    if entries == [] then []
    else if entries[0].ColumnEntry? then [entries[0].column] + ColumnSchemas(entries[1..])
    else ColumnSchemas(entries[1..])
  }

  function KeyLists(entries: seq<Entry>): seq<seq<string>> {
    if entries == [] then []
    else if entries[0].KeyEntry? then [[entries[0].first] + entries[0].others] + KeyLists(entries[1..])
    else KeyLists(entries[1..])
  }

  function IndexSchemas(entries: seq<Entry>): seq<IndexSchema> {
    if entries == [] then []
    else if entries[0].IndexEntry? then [entries[0].index] + IndexSchemas(entries[1..])
    else IndexSchemas(entries[1..])
  }

  /**
   * The table that the entries declare: the columns and the indexes in written order, and the one list of key columns; an
   * entry of another kind declares nothing.
   */
  predicate Declares(name: string, entries: seq<Entry>, t: Table) {
    && (forall e <- entries :: !e.OtherEntry?)
    && t.name == name
    && ColumnsDeclared(name, ColumnSchemas(entries), t.columns)
    && KeyLists(entries) == [t.key]
    && IndexesDeclared(IndexSchemas(entries), t.indexes)
  }

  predicate ColumnsDeclared(table: string, schemas: seq<ColumnSchema>, columns: seq<Column>) {
    |columns| == |schemas| && forall i | 0 <= i < |columns| :: Declared(schemas[i], table, columns[i])
  }

  predicate IndexesDeclared(schemas: seq<IndexSchema>, indexes: seq<Index>) {
    |indexes| == |schemas| && forall i | 0 <= i < |indexes| :: schemas[i].supported && schemas[i].index == indexes[i]
  }

  function Concatenated(lists: seq<seq<string>>): seq<string> {
    if lists == [] then [] else lists[0] + Concatenated(lists[1..])
  }

  lemma {:induction false} KeysFail(d: Draft, names: seq<string>)
    requires d.failed
    ensures AddKeys(d, names).failed
    decreases |names|
  {
    if names != [] { KeysFail(AddKey(d, names[0]), names[1..]); }
  }

  lemma {:induction false} EntriesFail(table: string, d: Draft, entries: seq<Entry>)
    requires d.failed
    ensures AddEntries(table, d, entries).failed
    decreases |entries|
  {
    hide CatalogColumn;
    if entries != [] {
      if entries[0].KeyEntry? {
        KeysFail(d.(declarations := d.declarations + 1), [entries[0].first] + entries[0].others);
      }
      EntriesFail(table, AddEntry(table, d, entries[0]), entries[1..]);
    }
  }

  /** A list of key columns is appended as it is, or fails. */
  lemma {:induction false} KeysAdded(d: Draft, names: seq<string>)
    requires !d.failed && NoRepeats(d.key)
    ensures !AddKeys(d, names).failed <==> NoRepeats(d.key + names)
    ensures !AddKeys(d, names).failed ==> AddKeys(d, names) == d.(key := d.key + names)
    decreases |names|
  {
    if names == [] {
      assert d.key + names == d.key;
    } else {
      assert d.key + names == d.key + [names[0]] + names[1..];
      if names[0] in d.key {
        KeysFail(AddKey(d, names[0]), names[1..]);
        RepeatedName(d.key, names);
      } else {
        AppendedName(d.key, names[0]);
        KeysAdded(AddKey(d, names[0]), names[1..]);
      }
    }
  }

  lemma RepeatedName(key: seq<string>, names: seq<string>)
    requires names != [] && names[0] in key
    ensures !NoRepeats(key + names)
  {
    var i :| 0 <= i < |key| && key[i] == names[0];
    assert (key + names)[i] == (key + names)[|key|];
  }

  lemma {:induction false} Prefixes(a: seq<string>, b: seq<string>)
    requires NoRepeats(a + b)
    ensures NoRepeats(a) && NoRepeats(b)
  {
    forall i, j | 0 <= i < j < |a| ensures a[i] != a[j] {
      assert (a + b)[i] != (a + b)[j];
    }
    forall i, j | 0 <= i < j < |b| ensures b[i] != b[j] {
      assert (a + b)[|a| + i] != (a + b)[|a| + j];
    }
  }

  /** What the first loop has collected once it has passed all entries without a diagnostic. */
  predicate Collects(table: string, d: Draft, entries: seq<Entry>, r: Draft) {
    && (forall e <- entries :: !e.OtherEntry?)
    && d.columns <= r.columns && ColumnsDeclared(table, ColumnSchemas(entries), r.columns[|d.columns|..])
    && r.key == d.key + Concatenated(KeyLists(entries))
    && r.declarations == d.declarations + |KeyLists(entries)|
    && NoRepeats(ColumnNames(r.columns)) && NoRepeats(r.key)
    && !r.failed
  }

  lemma {:induction false} EntriesCollected(table: string, d: Draft, entries: seq<Entry>, r: Draft)
    requires !d.failed && NoRepeats(ColumnNames(d.columns)) && NoRepeats(d.key)
    ensures AddEntries(table, d, entries) == r && !r.failed <==> Collects(table, d, entries, r)
    decreases |entries|
  {
    hide CatalogColumn, Declared, AddEntries, NoRepeats, Collects;
    AddEntriesStep(table, d, entries);
    if entries == [] {
      NothingCollected(table, d, r);
    } else {
      var next := AddEntry(table, d, entries[0]);
      if next.failed {
        EntriesFail(table, next, entries[1..]);
        FailedEntry(table, d, entries, r);
      } else {
        EntryKeeps(table, d, entries[0]);
        EntriesCollected(table, next, entries[1..], r);
        CollectsStep(table, d, entries, next, r);
      }
    }
  }

  lemma AddEntriesStep(table: string, d: Draft, entries: seq<Entry>)
    ensures AddEntries(table, d, entries) ==
            if entries == [] then d else AddEntries(table, AddEntry(table, d, entries[0]), entries[1..])
  {
  }

  lemma NothingCollected(table: string, d: Draft, r: Draft)
    requires !d.failed && NoRepeats(ColumnNames(d.columns)) && NoRepeats(d.key)
    ensures Collects(table, d, [], r) <==> d == r
  {
    hide Declared, NoRepeats;
    assert d.key + [] == d.key;
    if Collects(table, d, [], r) {
      assert r.columns == d.columns + r.columns[|d.columns|..];
    }
  }

  lemma EntryKeeps(table: string, d: Draft, e: Entry)
    requires !d.failed && NoRepeats(ColumnNames(d.columns)) && NoRepeats(d.key) && !AddEntry(table, d, e).failed
    ensures NoRepeats(ColumnNames(AddEntry(table, d, e).columns)) && NoRepeats(AddEntry(table, d, e).key)
  {
    hide CatalogColumn, NoRepeats;
    match e {
      case ColumnEntry(schema) =>
        var c := CatalogColumn(table, schema).value;
        AppendedColumnNames(d.columns, c);
        AppendedName(ColumnNames(d.columns), c.name);
      case KeyEntry(first, others) =>
        KeysAdded(d.(declarations := d.declarations + 1), [first] + others);
      case _ =>
    }
  }

  /** An entry that fails is one that nothing sound can be declared with. */
  lemma FailedEntry(table: string, d: Draft, entries: seq<Entry>, r: Draft)
    requires entries != [] && !d.failed && NoRepeats(ColumnNames(d.columns)) && NoRepeats(d.key)
    requires AddEntry(table, d, entries[0]).failed
    ensures !Collects(table, d, entries, r)
  {
    hide CatalogColumn, NoRepeats, Declared;
    var e := entries[0];
    if Collects(table, d, entries, r) {
      assert e in entries;
      match e {
        case ColumnEntry(schema) =>
          FailedColumn(table, d, schema, entries, r);
        case KeyEntry(first, others) =>
          var names := [first] + others;
          KeysAdded(d.(declarations := d.declarations + 1), names);
          assert KeyLists(entries)[0] == names && KeyLists(entries)[1..] == KeyLists(entries[1..]);
          assert r.key == (d.key + names) + Concatenated(KeyLists(entries[1..]));
          Prefixes(d.key + names, Concatenated(KeyLists(entries[1..])));
        case _ =>
      }
    }
  }

  lemma FailedColumn(table: string, d: Draft, schema: ColumnSchema, entries: seq<Entry>, r: Draft)
    requires entries != [] && entries[0] == ColumnEntry(schema) && !d.failed && AddColumnTo(table, d, schema).failed
    ensures !Collects(table, d, entries, r)
  {
    hide CatalogColumn, Declared, NoRepeats;
    if Collects(table, d, entries, r) {
      var c := r.columns[|d.columns|..][0];
      assert c == r.columns[|d.columns|];
      ColumnIsDeclared(table, schema, c);
      if CatalogColumn(table, schema) == Ok(c) {
        RepeatedColumn(d.columns, r.columns);
      }
    }
  }

  lemma RepeatedColumn(front: seq<Column>, all: seq<Column>)
    requires front <= all && |front| < |all| && all[|front|].name in ColumnNames(front)
    ensures !NoRepeats(ColumnNames(all))
  {
    var i :| 0 <= i < |front| && ColumnNames(front)[i] == all[|front|].name;
    assert ColumnNames(all)[i] == ColumnNames(all)[|front|];
  }

  lemma CollectsStep(table: string, d: Draft, entries: seq<Entry>, next: Draft, r: Draft)
    requires entries != [] && !d.failed && next == AddEntry(table, d, entries[0]) && !next.failed
    requires NoRepeats(ColumnNames(d.columns)) && NoRepeats(d.key)
    ensures Collects(table, next, entries[1..], r) <==> Collects(table, d, entries, r)
  {
    hide CatalogColumn, Declared, NoRepeats, ColumnsDeclared;
    var e := entries[0];
    assert entries == [e] + entries[1..];
    match e {
      case ColumnEntry(schema) =>
        ColumnStep(table, d, ColumnSchemas(entries[1..]), schema, r.columns);
      case KeyEntry(first, others) =>
        var names := [first] + others;
        KeysAdded(d.(declarations := d.declarations + 1), names);
        assert KeyLists(entries)[1..] == KeyLists(entries[1..]);
        assert d.key + (names + Concatenated(KeyLists(entries[1..]))) == (d.key + names) + Concatenated(KeyLists(entries[1..]));
      case _ =>
    }
  }

  lemma ColumnStep(table: string, d: Draft, rest: seq<ColumnSchema>, schema: ColumnSchema, columns: seq<Column>)
    requires CatalogColumn(table, schema).Ok?
    ensures var before := d.columns + [CatalogColumn(table, schema).value];
            (before <= columns && ColumnsDeclared(table, rest, columns[|before|..])) <==>
            (d.columns <= columns && ColumnsDeclared(table, [schema] + rest, columns[|d.columns|..]))
  {
    hide CatalogColumn, Declared;
    var c, n := CatalogColumn(table, schema).value, |d.columns|;
    ColumnIsDeclared(table, schema, c);
    if n < |columns| {
      ColumnIsDeclared(table, schema, columns[n]);
      assert columns[n..] == [columns[n]] + columns[n + 1..];
    }
  }

  /** What the second loop makes of a table: its indexes follow in written order, if the table takes each of them. */
  predicate Grows(t: Table, schemas: seq<IndexSchema>, r: Table) {
    && r == t.(indexes := r.indexes)
    && t.indexes <= r.indexes && IndexesDeclared(schemas, r.indexes[|t.indexes|..])
    && NoRepeats(IndexNames(r.indexes))
    && forall i | |t.indexes| <= i < |r.indexes| :: IndexAccepted(t, r.indexes[i])
  }

  lemma {:induction false} IndexesCollected(t: Table, entries: seq<Entry>, r: Table)
    requires NoRepeats(IndexNames(t.indexes))
    ensures AddIndexes(t, entries) == Ok(r) <==> Grows(t, IndexSchemas(entries), r)
    decreases |entries|
  {
    hide AddIndexTo, Grows, NoRepeats;
    if entries == [] {
      NoIndexes(t, r);
    } else if !entries[0].IndexEntry? {
      IndexesCollected(t, entries[1..], r);
    } else {
      var schema := entries[0].index;
      IndexStep(t, schema, IndexSchemas(entries[1..]), r);
      if AddIndexTo(t, schema).Ok? {
        AddedIndexIsNew(t, schema);
        IndexesCollected(AddIndexTo(t, schema).value, entries[1..], r);
      }
    }
  }

  lemma NoIndexes(t: Table, r: Table)
    requires NoRepeats(IndexNames(t.indexes))
    ensures Grows(t, [], r) <==> r == t
  {
    if Grows(t, [], r) {
      assert r.indexes == t.indexes + r.indexes[|t.indexes|..];
    }
  }

  lemma AddedIndexIsNew(t: Table, schema: IndexSchema)
    requires NoRepeats(IndexNames(t.indexes)) && AddIndexTo(t, schema).Ok?
    ensures NoRepeats(IndexNames(AddIndexTo(t, schema).value.indexes))
  {
    hide NoRepeats, IndexAccepted;
    AppendedIndexNames(t.indexes, schema.index);
    AppendedName(IndexNames(t.indexes), schema.index.name);
  }

  lemma NothingDeclared(schemas: seq<IndexSchema>)
    ensures IndexesDeclared(schemas, []) <==> schemas == []
  {
  }

  lemma DeclaredTail(schema: IndexSchema, rest: seq<IndexSchema>, index: Index, others: seq<Index>)
    ensures IndexesDeclared([schema] + rest, [index] + others) <==>
            schema.supported && schema.index == index && IndexesDeclared(rest, others)
  {
    var schemas, indexes := [schema] + rest, [index] + others;
    if IndexesDeclared(schemas, indexes) {
      assert schemas[0] == schema && indexes[0] == index;
      forall i | 0 <= i < |others| ensures rest[i].supported && rest[i].index == others[i] {
        assert schemas[i + 1] == rest[i] && indexes[i + 1] == others[i];
      }
    }
  }

  lemma IndexStep(t: Table, schema: IndexSchema, rest: seq<IndexSchema>, r: Table)
    requires NoRepeats(IndexNames(t.indexes))
    ensures Grows(t, [schema] + rest, r) <==>
            match AddIndexTo(t, schema) case Err => false case Ok(next) => Grows(next, rest, r)
  {
    hide NoRepeats, GroupAccepted, IndexesDeclared;
    var n := |t.indexes|;
    if n < |r.indexes| {
      assert r.indexes[n..] == [r.indexes[n]] + r.indexes[n + 1..];
      DeclaredTail(schema, rest, r.indexes[n], r.indexes[n + 1..]);
    } else if n == |r.indexes| {
      assert r.indexes[n..] == [];
      NothingDeclared([schema] + rest);
    }
    forall i | 0 <= i < |r.indexes|
      ensures AddIndexTo(t, schema).Ok? ==> IndexAccepted(AddIndexTo(t, schema).value, r.indexes[i]) == IndexAccepted(t, r.indexes[i])
    {
      if AddIndexTo(t, schema).Ok? { AcceptedAlike(t, AddIndexTo(t, schema).value, r.indexes[i]); }
    }
    if Grows(t, [schema] + rest, r) {
      if schema.index.name in IndexNames(t.indexes) {
        RepeatedIndex(t.indexes, r.indexes);
      }
    }
  }

  lemma RepeatedIndex(front: seq<Index>, all: seq<Index>)
    requires front <= all && |front| < |all| && all[|front|].name in IndexNames(front)
    ensures !NoRepeats(IndexNames(all))
  {
    var i :| 0 <= i < |front| && IndexNames(front)[i] == all[|front|].name;
    assert IndexNames(all)[i] == IndexNames(all)[|front|];
  }

  lemma OneList(lists: seq<seq<string>>)
    ensures |lists| == 1 ==> Concatenated(lists) == lists[0] && lists == [lists[0]]
    ensures forall key :: lists == [key] ==> Concatenated(lists) == key
  {
    if |lists| == 1 {
      assert lists[1..] == [] && lists[0] + [] == lists[0];
    }
  }

  const NOTHING := Draft([], [], 0, false)

  /** CREATE TABLE gives exactly the table that its entries declare, and is accepted exactly when that table is sound. */
  lemma CreateIsExact(name: string, entries: seq<Entry>, t: Table)
    ensures CatalogTable(name, entries) == Ok(t) <==> Declares(name, entries, t) && TableSound(t)
  {
    hide AddEntries, AddIndexes, TableSound, Declares, Collects, Grows, IndexAccepted;
    if CatalogTable(name, entries) == Ok(t) {
      CatalogTableIsSound(name, entries);
      CreatedIsDeclared(name, entries, t);
    }
    if Declares(name, entries, t) && TableSound(t) {
      DeclaredIsCreated(name, entries, t);
    }
  }

  lemma CreatedIsDeclared(name: string, entries: seq<Entry>, t: Table)
    requires CatalogTable(name, entries) == Ok(t)
    ensures Declares(name, entries, t)
  {
    hide AddEntries, AddIndexes, ColumnsDeclared, IndexesDeclared, NoRepeats, IndexAccepted;
    var d := AddEntries(name, NOTHING, entries);
    NothingRepeats();
    assert ColumnNames([]) == [] && IndexNames([]) == [];
    EntriesCollected(name, NOTHING, entries, d);
    assert Collects(name, NOTHING, entries, d);
    assert d.columns[0..] == d.columns;
    OneList(KeyLists(entries));
    IndexesCollected(Table(name, d.columns, d.key, []), entries, t);
    assert t.indexes[0..] == t.indexes;
    assert Grows(Table(name, d.columns, d.key, []), IndexSchemas(entries), t);
    assert [] + Concatenated(KeyLists(entries)) == Concatenated(KeyLists(entries));
  }

  lemma DeclaredIsCreated(name: string, entries: seq<Entry>, t: Table)
    requires Declares(name, entries, t) && TableSound(t)
    ensures CatalogTable(name, entries) == Ok(t)
  {
    hide AddEntries, AddIndexes, ColumnsDeclared, IndexesDeclared, NoRepeats, IndexAccepted, Readable;
    var d := Draft(t.columns, t.key, 1, false);
    NothingRepeats();
    assert ColumnNames([]) == [] && IndexNames([]) == [];
    assert t.columns[0..] == t.columns && t.indexes[0..] == t.indexes;
    OneList(KeyLists(entries));
    assert [] + Concatenated(KeyLists(entries)) == t.key;
    assert Collects(name, NOTHING, entries, d);
    EntriesCollected(name, NOTHING, entries, d);
    var base := Table(name, t.columns, t.key, []);
    forall i | 0 <= i < |t.indexes| ensures IndexAccepted(base, t.indexes[i]) {
      assert t.indexes[i] in t.indexes;
      AcceptedAlike(t, base, t.indexes[i]);
    }
    IndexesCollected(base, entries, t);
  }

  lemma AcceptedAlike(t: Table, base: Table, index: Index)
    requires t.columns == base.columns && t.key == base.key
    ensures IndexAccepted(base, index) == IndexAccepted(t, index)
  {
    hide GroupAccepted;
    SameGroup(t, base, index.columns, []);
    SameGroup(t, base, index.covering, index.columns + t.key);
  }

  lemma SameGroup(t: Table, base: Table, group: seq<string>, excluded: seq<string>)
    requires t.columns == base.columns
    ensures GroupAccepted(t, group, excluded) == GroupAccepted(base, group, excluded)
  {
  }

  // ---------------------------------------------------------------- ALTER TABLE

  /** The same column, Optional now. */
  predicate IsRelaxed(c: Column, relaxed: Column) {
    relaxed == c.(typ := relaxed.typ) && relaxed.typ == OptionalOf(Unwrap(c.typ))
  }

  /** What an action declares about the table after it; `at` is the place of the table in the catalog. */
  predicate Changes(tables: seq<Table>, at: nat, t: Table, action: Action, next: Table) {
    match action
    case AddColumn(schema) =>
      && |next.columns| == |t.columns| + 1 && next == t.(columns := t.columns + [next.columns[|t.columns|]])
      && Declared(schema, t.name, next.columns[|t.columns|]) && !next.columns[|t.columns|].sequence
    case DropColumn(name) =>
      exists i | 0 <= i < |t.columns| :: t.columns[i].name == name && next == t.(columns := Without(t.columns, i))
    case DropNotNull(name) =>
      exists i | 0 <= i < |t.columns| ::
        && t.columns[i].name == name && |next.columns| == |t.columns| && IsRelaxed(t.columns[i], next.columns[i])
        && next == t.(columns := t.columns[i := next.columns[i]])
    case AddIndex(schema) => schema.supported && next == t.(indexes := t.indexes + [schema.index])
    case DropIndex(name) =>
      exists i | 0 <= i < |t.indexes| :: t.indexes[i].name == name && next == t.(indexes := Without(t.indexes, i))
    case Rename(name) =>
      && (forall j | 0 <= j < |tables| && tables[j].name == name :: j == at || exists k | 0 <= k < j :: tables[k].name == name)
      && next == t.(name := name, columns := next.columns) && |next.columns| == |t.columns|
      && forall i | 0 <= i < |t.columns| :: next.columns[i] == t.columns[i].(table := name)
    case OtherAction => false
  }

  lemma FirstOfDistinct(names: seq<string>, i: nat)
    requires NoRepeats(names) && i < |names|
    ensures Position(names, names[i]) == Some(i)
  {
    PositionIsFirst(names, names[i]);
  }

  lemma ReadableOptional(t: Type)
    requires Readable(t)
    ensures (if IsOptional(t) then t else OptionalOf(t)) == OptionalOf(Unwrap(t))
  {
    if IsOptional(t) { OptionalIsReadable(t); }
  }

  lemma AddColumnIsExact(t: Table, schema: ColumnSchema, next: Table)
    requires TableSound(t)
    ensures ApplyAddColumn(t, schema) == Ok(next) <==> Changes([], 0, t, AddColumn(schema), next) && TableSound(next)
  {
    hide CatalogColumn, Declared, TableSound, NoRepeats;
    if ApplyAddColumn(t, schema) == Ok(next) {
      var c := CatalogColumn(t.name, schema).value;
      ColumnIsDeclared(t.name, schema, c);
      assert next.columns[|t.columns|] == c;
      AddColumnIsSound(t, schema);
    }
    if Changes([], 0, t, AddColumn(schema), next) && TableSound(next) {
      var c := next.columns[|t.columns|];
      ColumnIsDeclared(t.name, schema, c);
      if c.name in ColumnNames(t.columns) {
        assert t.columns <= next.columns;
        RepeatedColumn(t.columns, next.columns);
        SoundNames(next);
      }
    }
  }

  lemma SoundNames(t: Table)
    requires TableSound(t)
    ensures NoRepeats(ColumnNames(t.columns)) && NoRepeats(IndexNames(t.indexes))
  {
    hide Readable, IndexAccepted;
  }

  lemma DropColumnIsExact(t: Table, name: string, next: Table)
    requires TableSound(t)
    ensures ApplyDropColumn(t, name) == Ok(next) <==> Changes([], 0, t, DropColumn(name), next) && TableSound(next)
  {
    hide TableSound, NoRepeats, IsFree, Position;
    SoundNames(t);
    PositionIsFirst(ColumnNames(t.columns), name);
    if ApplyDropColumn(t, name) == Ok(next) {
      var i := Position(ColumnNames(t.columns), name).value;
      assert t.columns[i].name == ColumnNames(t.columns)[i] == name;
      DropColumnIsSound(t, name);
    }
    if Changes([], 0, t, DropColumn(name), next) && TableSound(next) {
      var i :| 0 <= i < |t.columns| && t.columns[i].name == name && next == t.(columns := Without(t.columns, i));
      assert ColumnNames(t.columns)[i] == name;
      FirstOfDistinct(ColumnNames(t.columns), i);
      DroppedWasFree(t, i, next);
    }
  }

  lemma DroppedWasFree(t: Table, i: nat, next: Table)
    requires TableSound(t) && i < |t.columns| && next == t.(columns := Without(t.columns, i)) && TableSound(next)
    ensures IsFree(t, t.columns[i].name)
  {
    hide Readable;
    var name, left := t.columns[i].name, ColumnNames(next.columns);
    SoundNames(t);
    forall k | 0 <= k < |left| ensures left[k] != name {
      var j := if k < i then k else k + 1;
      assert next.columns[k] == t.columns[j];
      assert ColumnNames(t.columns)[j] != ColumnNames(t.columns)[i];
    }
    forall index | index in t.indexes ensures !UsesColumn(index, name) {
      assert IndexAccepted(next, index);
      assert GroupAccepted(next, index.columns, []) && GroupAccepted(next, index.covering, index.columns + next.key);
    }
  }

  lemma DropNotNullIsExact(t: Table, name: string, next: Table)
    requires TableSound(t)
    ensures ApplyDropNotNull(t, name) == Ok(next) <==> Changes([], 0, t, DropNotNull(name), next)
  {
    hide NoRepeats, Position, Readable, KeySound, IndexesSound;
    PositionIsFirst(ColumnNames(t.columns), name);
    if ApplyDropNotNull(t, name) == Ok(next) {
      var i := Position(ColumnNames(t.columns), name).value;
      assert t.columns[i].name == ColumnNames(t.columns)[i] == name;
      assert ColumnSound(t, t.columns[i]);
      ReadableOptional(t.columns[i].typ);
      assert next.columns[i] == Relaxed(t.columns[i]);
    }
    if Changes([], 0, t, DropNotNull(name), next) {
      var i :| 0 <= i < |t.columns| && t.columns[i].name == name && |next.columns| == |t.columns|
               && IsRelaxed(t.columns[i], next.columns[i]) && next == t.(columns := t.columns[i := next.columns[i]]);
      assert ColumnNames(t.columns)[i] == name;
      FirstOfDistinct(ColumnNames(t.columns), i);
      assert ColumnSound(t, t.columns[i]);
      ReadableOptional(t.columns[i].typ);
    }
  }

  lemma AddIndexIsExact(t: Table, schema: IndexSchema, next: Table)
    requires TableSound(t)
    ensures AddIndexTo(t, schema) == Ok(next) <==> Changes([], 0, t, AddIndex(schema), next) && TableSound(next)
  {
    hide NoRepeats, IndexAccepted, ColumnSound;
    if AddIndexTo(t, schema) == Ok(next) {
      AddIndexToIsSound(t, schema);
    }
    if Changes([], 0, t, AddIndex(schema), next) && TableSound(next) {
      assert next.indexes[|t.indexes|] == schema.index && schema.index in next.indexes;
      AcceptedAlike(next, t, schema.index);
      if schema.index.name in IndexNames(t.indexes) {
        RepeatedIndex(t.indexes, next.indexes);
      }
    }
  }

  lemma DropIndexIsExact(t: Table, name: string, next: Table)
    requires TableSound(t)
    ensures ApplyDropIndex(t, name) == Ok(next) <==> Changes([], 0, t, DropIndex(name), next)
  {
    hide NoRepeats, Position, TableSound;
    SoundNames(t);
    PositionIsFirst(IndexNames(t.indexes), name);
    if ApplyDropIndex(t, name) == Ok(next) {
      var i := Position(IndexNames(t.indexes), name).value;
      assert t.indexes[i].name == IndexNames(t.indexes)[i] == name;
    }
    if Changes([], 0, t, DropIndex(name), next) {
      var i :| 0 <= i < |t.indexes| && t.indexes[i].name == name && next == t.(indexes := Without(t.indexes, i));
      assert IndexNames(t.indexes)[i] == name;
      FirstOfDistinct(IndexNames(t.indexes), i);
    }
  }

  lemma RenameIsExact(tables: seq<Table>, at: nat, t: Table, name: string, next: Table)
    ensures ApplyRename(tables, at, t, name) == Ok(next) <==> Changes(tables, at, t, Rename(name), next)
  {
    hide Position;
    var names := TableNames(tables);
    PositionIsFirst(names, name);
    assert forall j | 0 <= j < |tables| :: names[j] == tables[j].name;
    if Changes(tables, at, t, Rename(name), next) {
      assert next.columns == Moved(t.columns, name);
    }
  }

  /**
   * An action gives exactly the table that it declares, with everything else as it was, and is accepted exactly when there
   * is such a table and it is sound.
   */
  lemma ActionIsExact(tables: seq<Table>, at: nat, t: Table, action: Action, next: Table)
    requires TableSound(t)
    ensures ApplyAction(tables, at, t, action) == Ok(next) <==> Changes(tables, at, t, action, next) && TableSound(next)
  {
    hide TableSound, Changes, ApplyAddColumn, ApplyDropColumn, ApplyDropNotNull, AddIndexTo, ApplyDropIndex, ApplyRename;
    if ApplyAction(tables, at, t, action) == Ok(next) {
      ActionIsSound(tables, at, t, action);
    }
    match action {
      case AddIndex(schema) => AddIndexIsExact(t, schema, next);
      case DropIndex(name) => DropIndexIsExact(t, name, next);
      case AddColumn(schema) => AddColumnIsExact(t, schema, next);
      case DropColumn(name) => DropColumnIsExact(t, name, next);
      case DropNotNull(name) => DropNotNullIsExact(t, name, next);
      case Rename(name) => RenameIsExact(tables, at, t, name, next);
      case OtherAction => NothingElseChanges(tables, at, t, next);
    }
    ChangesAlone(tables, at, t, action, next);
  }

  lemma NothingElseChanges(tables: seq<Table>, at: nat, t: Table, next: Table)
    ensures !Changes(tables, at, t, OtherAction, next)
  {
  }

  lemma ChangesAlone(tables: seq<Table>, at: nat, t: Table, action: Action, next: Table)
    ensures !action.Rename? ==> Changes(tables, at, t, action, next) == Changes([], 0, t, action, next)
  {
    hide Declared, IsRelaxed, Without;
  }

  // ---------------------------------------------------------------- statements

  /** Each action changes what the one before has made. */
  ghost predicate Leads(tables: seq<Table>, at: nat, t: Table, actions: seq<Action>, next: Table)
    decreases |actions|
  {
    if actions == [] then next == t
    else
      exists step ::
        && Changes(tables, at, t, actions[0], step) && TableSound(step)
        && Leads(tables, at, step, actions[1..], next)
  }

  /** What a statement declares about the catalog after it: one table comes, goes or changes, and the others stay. */
  ghost predicate Makes(tables: seq<Table>, s: Statement, next: seq<Table>) {
    match s
    case CreateTable(supported, resolvable, ifNotExists, name, entries) =>
      && supported
      && if name != "" && name in TableNames(tables) then ifNotExists && next == tables
         else
           && resolvable && |next| == |tables| + 1 && next[..|tables|] == tables
           && Declares(name, entries, next[|tables|]) && TableSound(next[|tables|])
    case DropTable(supported, ifExists, name) =>
      && supported && name != ""
      && if name in TableNames(tables) then exists i | 0 <= i < |tables| :: tables[i].name == name && next == Without(tables, i)
         else ifExists && next == tables
    case AlterTable(name, actions) =>
      && name != "" && (|actions| > 1 ==> forall a <- actions :: !a.Rename?)
      && exists i | 0 <= i < |tables| ::
           && tables[i].name == name && |next| == |tables| && Leads(tables, i, tables[i], actions, next[i])
           && forall j | 0 <= j < |tables| && j != i :: next[j] == tables[j]
    case OtherStatement => false
  }

  lemma {:induction false} ActionsAreExact(tables: seq<Table>, at: nat, t: Table, actions: seq<Action>, next: Table)
    requires TableSound(t)
    ensures ApplyActions(tables, at, t, actions) == Ok(next) <==> Leads(tables, at, t, actions, next)
    decreases |actions|
  {
    hide TableSound, Changes, ApplyAction;
    if actions != [] {
      var first := ApplyAction(tables, at, t, actions[0]);
      if first.Ok? {
        ActionIsExact(tables, at, t, actions[0], first.value);
        ActionsAreExact(tables, at, first.value, actions[1..], next);
      }
      if Leads(tables, at, t, actions, next) {
        var step :| Changes(tables, at, t, actions[0], step) && TableSound(step) && Leads(tables, at, step, actions[1..], next);
        ActionIsExact(tables, at, t, actions[0], step);
      }
    }
  }

  lemma NamedOnce(tables: seq<Table>, i: nat)
    requires UniqueNames(TableNames(tables)) && i < |tables| && tables[i].name != ""
    ensures Position(TableNames(tables), tables[i].name) == Some(i)
  {
    var names := TableNames(tables);
    PositionIsFirst(names, names[i]);
  }

  lemma CreateMakes(tables: seq<Table>, s: Statement, next: seq<Table>)
    requires s.CreateTable?
    ensures Apply(tables, s) == Ok(next) <==> Makes(tables, s, next)
  {
    hide CatalogTable, Declares, TableSound;
    if |next| == |tables| + 1 {
      CreateIsExact(s.name, s.entries, next[|tables|]);
      assert next == next[..|tables|] + [next[|tables|]];
    }
    if CatalogTable(s.name, s.entries).Ok? {
      CreateIsExact(s.name, s.entries, CatalogTable(s.name, s.entries).value);
    }
  }

  lemma DropMakes(tables: seq<Table>, s: Statement, next: seq<Table>)
    requires s.DropTable? && UniqueNames(TableNames(tables))
    ensures Apply(tables, s) == Ok(next) <==> Makes(tables, s, next)
  {
    hide Position;
    var names := TableNames(tables);
    PositionIsFirst(names, s.name);
    if s.name != "" {
      forall i | 0 <= i < |tables| && tables[i].name == s.name ensures Position(names, s.name) == Some(i) {
        NamedOnce(tables, i);
      }
      if Position(names, s.name).Some? {
        assert tables[Position(names, s.name).value].name == s.name;
      }
    }
  }

  lemma AlterMakes(tables: seq<Table>, s: Statement, next: seq<Table>)
    requires s.AlterTable? && CatalogSound(tables)
    ensures Apply(tables, s) == Ok(next) <==> Makes(tables, s, next)
  {
    hide Position, ApplyActions, Leads, TableSound;
    var names := TableNames(tables);
    PositionIsFirst(names, s.name);
    if s.name != "" && Position(names, s.name).Some? {
      var i := Position(names, s.name).value;
      assert tables[i].name == s.name && tables[i] in tables;
      forall j | 0 <= j < |tables| && tables[j].name == s.name ensures j == i { NamedOnce(tables, j); }
      if |next| == |tables| {
        ActionsAreExact(tables, i, tables[i], s.actions, next[i]);
      }
      if ApplyActions(tables, i, tables[i], s.actions).Ok? {
        ActionsAreExact(tables, i, tables[i], s.actions, ApplyActions(tables, i, tables[i], s.actions).value);
      }
      if Makes(tables, s, next) {
        var k :| 0 <= k < |tables| && tables[k].name == s.name && |next| == |tables|
                 && Leads(tables, k, tables[k], s.actions, next[k]) && forall j | 0 <= j < |tables| && j != k :: next[j] == tables[j];
        assert next == tables[i := next[i]];
      }
      if Apply(tables, s) == Ok(next) {
        assert Leads(tables, i, tables[i], s.actions, next[i]);
      }
    } else {
      forall i | 0 <= i < |tables| ensures tables[i].name == s.name ==> s.name == "" {
        assert names[i] in names;
      }
    }
  }

  /** On a sound catalog, a statement makes exactly what it declares, and fails exactly when nothing sound is declared. */
  lemma StatementIsExact(tables: seq<Table>, s: Statement, next: seq<Table>)
    requires CatalogSound(tables)
    ensures Apply(tables, s) == Ok(next) <==> Makes(tables, s, next)
  {
    hide Makes, ApplyCreate, ApplyAlter, ApplyDrop, TableSound;
    match s {
      case CreateTable(_, _, _, _, _) => CreateMakes(tables, s, next);
      case DropTable(_, _, _) => DropMakes(tables, s, next);
      case AlterTable(_, _) => AlterMakes(tables, s, next);
      case OtherStatement => NothingElseMakes(tables, next);
    }
  }

  lemma NothingElseMakes(tables: seq<Table>, next: seq<Table>)
    ensures !Makes(tables, OtherStatement, next)
  {
  }
}
