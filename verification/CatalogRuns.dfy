/** What every run of schema statements keeps, and what undoes what. */
module CatalogRuns {
  import opened Slices
  import opened Wrappers
  import opened Text
  import opened Types
  import opened TypeText
  import opened Catalog

  // ---------------------------------------------------------------- CREATE TABLE

  lemma CatalogColumnIsReadable(table: string, c: ColumnSchema)
    requires CatalogColumn(table, c).Ok?
    ensures var column := CatalogColumn(table, c).value;
            column.name == c.name && column.table == table && Readable(column.typ)
  {
    hide Lower, ReadType;
    match SerialKind(Lower(c.typeText)) {
      case Some(kind) => assert kind.Int16? || kind.Int32? || kind.Int64?;
      case None => ParsedIsReadable(c.typeText);
    }
  }

  /** What the first loop keeps, whatever it has rejected so far. */
  predicate DraftSound(table: string, d: Draft) {
    && NoRepeats(ColumnNames(d.columns)) && NoRepeats(d.key) && (d.declarations > 0 ==> d.key != [])
    && forall c <- d.columns :: c.table == table && Readable(c.typ)
  }

  lemma AppendedName(names: seq<string>, name: string)
    requires NoRepeats(names) && name !in names
    ensures NoRepeats(names + [name])
  {
  }

  lemma AppendedColumnNames(columns: seq<Column>, c: Column)
    ensures ColumnNames(columns + [c]) == ColumnNames(columns) + [c.name]
  {
  }

  lemma {:induction false} AddKeysIsSound(table: string, d: Draft, names: seq<string>)
    requires NoRepeats(d.key) && (names == [] ==> d.key != [])
    ensures var r := AddKeys(d, names);
            NoRepeats(r.key) && r.key != [] && r.columns == d.columns && r.declarations == d.declarations
    decreases |names|
  {
    if names != [] {
      var next := AddKey(d, names[0]);
      if names[0] !in d.key {
        AppendedName(d.key, names[0]);
      } else {
        assert d.key != [];
      }
      AddKeysIsSound(table, next, names[1..]);
    }
  }

  lemma AddEntryIsSound(table: string, d: Draft, e: Entry)
    requires DraftSound(table, d)
    ensures DraftSound(table, AddEntry(table, d, e))
  {
    hide NoRepeats, CatalogColumn, Readable;
    match e {
      case ColumnEntry(schema) =>
        var column := CatalogColumn(table, schema);
        if column.Ok? && column.value.name !in ColumnNames(d.columns) {
          CatalogColumnIsReadable(table, schema);
          AppendedName(ColumnNames(d.columns), column.value.name);
          AppendedColumnNames(d.columns, column.value);
        }
      case KeyEntry(first, others) =>
        AddKeysIsSound(table, d.(declarations := d.declarations + 1), [first] + others);
      case _ =>
    }
  }

  lemma {:induction false} AddEntriesIsSound(table: string, d: Draft, entries: seq<Entry>)
    requires DraftSound(table, d)
    ensures DraftSound(table, AddEntries(table, d, entries))
    decreases |entries|
  {
    hide DraftSound, AddEntry;
    if entries != [] {
      AddEntryIsSound(table, d, entries[0]);
      AddEntriesIsSound(table, AddEntry(table, d, entries[0]), entries[1..]);
    }
  }

  lemma AppendedIndexNames(indexes: seq<Index>, index: Index)
    ensures IndexNames(indexes + [index]) == IndexNames(indexes) + [index.name]
  {
  }

  lemma AddIndexToIsSound(t: Table, schema: IndexSchema)
    requires TableSound(t) && AddIndexTo(t, schema).Ok?
    ensures TableSound(AddIndexTo(t, schema).value)
  {
    hide NoRepeats, Readable;
    AppendedIndexNames(t.indexes, schema.index);
    AppendedName(IndexNames(t.indexes), schema.index.name);
  }

  lemma {:induction false} AddIndexesIsSound(t: Table, entries: seq<Entry>)
    requires TableSound(t) && AddIndexes(t, entries).Ok?
    ensures TableSound(AddIndexes(t, entries).value) && AddIndexes(t, entries).value.name == t.name
    decreases |entries|
  {
    hide TableSound, AddIndexTo;
    if entries != [] {
      if entries[0].IndexEntry? {
        AddIndexToIsSound(t, entries[0].index);
        AddIndexToKeepsName(t, entries[0].index);
        AddIndexesIsSound(AddIndexTo(t, entries[0].index).value, entries[1..]);
      } else {
        AddIndexesIsSound(t, entries[1..]);
      }
    }
  }

  lemma AddIndexToKeepsName(t: Table, schema: IndexSchema)
    requires AddIndexTo(t, schema).Ok?
    ensures AddIndexTo(t, schema).value.name == t.name
  {
  }

  lemma CatalogTableIsSound(name: string, entries: seq<Entry>)
    requires CatalogTable(name, entries).Ok?
    ensures TableSound(CatalogTable(name, entries).value) && CatalogTable(name, entries).value.name == name
  {
    hide NoRepeats, Readable, AddEntries, AddIndexes;
    var empty := Draft([], [], 0, false);
    assert DraftSound(name, empty) by { assert NoRepeats([]) by { NothingRepeats(); } }
    AddEntriesIsSound(name, empty, entries);
    var d := AddEntries(name, empty, entries);
    NothingRepeats();
    var t := Table(name, d.columns, d.key, []);
    assert IndexNames(t.indexes) == [];
    AddIndexesIsSound(t, entries);
  }

  lemma NothingRepeats()
    ensures NoRepeats([])
  {
  }

  // ---------------------------------------------------------------- ALTER TABLE

  lemma WithoutNames(columns: seq<Column>, i: nat)
    requires i < |columns|
    ensures ColumnNames(Without(columns, i)) == Without(ColumnNames(columns), i)
  {
  }

  lemma WithoutIndexNames(indexes: seq<Index>, i: nat)
    requires i < |indexes|
    ensures IndexNames(Without(indexes, i)) == Without(IndexNames(indexes), i)
  {
  }

  lemma WithoutMembers<T>(items: seq<T>, i: nat)
    requires i < |items|
    ensures forall x :: x in Without(items, i) ==> x in items
    ensures forall x :: x in items && x != items[i] ==> x in Without(items, i)
  {
    var rest := Without(items, i);
    forall x | x in items && x != items[i] ensures x in rest {
      var j :| 0 <= j < |items| && items[j] == x;
      assert rest[if j < i then j else j - 1] == x;
    }
  }

  lemma WithoutRepeats(names: seq<string>, i: nat)
    requires i < |names| && NoRepeats(names)
    ensures NoRepeats(Without(names, i)) && names[i] !in Without(names, i)
  {
    var rest := Without(names, i);
    forall j | 0 <= j < |rest| ensures rest[j] == names[if j < i then j else j + 1] {}
  }

  lemma AddColumnIsSound(t: Table, schema: ColumnSchema)
    requires TableSound(t) && ApplyAddColumn(t, schema).Ok?
    ensures TableSound(ApplyAddColumn(t, schema).value)
  {
    hide NoRepeats, Readable, CatalogColumn;
    var c := CatalogColumn(t.name, schema).value;
    CatalogColumnIsReadable(t.name, schema);
    AppendedColumnNames(t.columns, c);
    AppendedName(ColumnNames(t.columns), c.name);
    assert forall index <- t.indexes :: IndexAccepted(t, index);
  }

  lemma DropColumnIsSound(t: Table, name: string)
    requires TableSound(t) && ApplyDropColumn(t, name).Ok?
    ensures TableSound(ApplyDropColumn(t, name).value)
  {
    hide NoRepeats, Readable;
    var names := ColumnNames(t.columns);
    PositionIsFirst(names, name);
    var i := Position(names, name).value;
    var dropped := ApplyDropColumn(t, name).value;
    WithoutNames(t.columns, i);
    WithoutMembers(t.columns, i);
    WithoutMembers(names, i);
    WithoutRepeats(names, i);
    // A key column stays, so the last column of a table is never dropped.
    assert t.key[0] in t.key && t.key[0] in ColumnNames(dropped.columns);
    assert ColumnsSound(dropped);
    forall index | index in t.indexes ensures IndexAccepted(dropped, index) {
      assert IndexAccepted(t, index) && !UsesColumn(index, name);
    }
  }

  lemma DropIndexIsSound(t: Table, name: string)
    requires TableSound(t) && ApplyDropIndex(t, name).Ok?
    ensures TableSound(ApplyDropIndex(t, name).value)
  {
    hide NoRepeats, Readable;
    PositionIsFirst(IndexNames(t.indexes), name);
    var i := Position(IndexNames(t.indexes), name).value;
    WithoutIndexNames(t.indexes, i);
    WithoutMembers(t.indexes, i);
    WithoutRepeats(IndexNames(t.indexes), i);
  }

  lemma DropNotNullIsSound(t: Table, name: string)
    requires TableSound(t) && ApplyDropNotNull(t, name).Ok?
    ensures TableSound(ApplyDropNotNull(t, name).value)
  {
    hide NoRepeats, Readable;
    PositionIsFirst(ColumnNames(t.columns), name);
    var i := Position(ColumnNames(t.columns), name).value;
    var c := t.columns[i];
    var relaxed := ApplyDropNotNull(t, name).value;
    assert ColumnNames(relaxed.columns) == ColumnNames(t.columns);
    assert c in t.columns && ColumnSound(t, c);
    OptionalIsReadable(c.typ);
    forall other | other in relaxed.columns ensures ColumnSound(relaxed, other) {
      var j :| 0 <= j < |relaxed.columns| && relaxed.columns[j] == other;
      assert t.columns[j] in t.columns && ColumnSound(t, t.columns[j]);
    }
    forall index | index in t.indexes ensures IndexAccepted(relaxed, index) {
      assert IndexAccepted(t, index);
    }
  }

  lemma OptionalIsReadable(t: Type)
    requires Readable(t)
    ensures Readable(OptionalOf(t))
  {
  }

  lemma MovedNames(columns: seq<Column>, table: string)
    ensures ColumnNames(Moved(columns, table)) == ColumnNames(columns)
  {
  }

  lemma RenameIsSound(tables: seq<Table>, at: nat, t: Table, name: string)
    requires TableSound(t) && ApplyRename(tables, at, t, name).Ok?
    ensures TableSound(ApplyRename(tables, at, t, name).value)
  {
    hide NoRepeats, Readable, Position;
    MovedNames(t.columns, name);
    var renamed := ApplyRename(tables, at, t, name).value;
    forall c | c in renamed.columns ensures ColumnSound(renamed, c) {
      var i :| 0 <= i < |renamed.columns| && renamed.columns[i] == c;
      assert t.columns[i] in t.columns && ColumnSound(t, t.columns[i]);
    }
    forall index | index in t.indexes ensures IndexAccepted(renamed, index) {
      assert IndexAccepted(t, index);
    }
  }

  lemma ActionIsSound(tables: seq<Table>, at: nat, t: Table, action: Action)
    requires TableSound(t) && ApplyAction(tables, at, t, action).Ok?
    ensures TableSound(ApplyAction(tables, at, t, action).value)
  {
    hide TableSound, ApplyDropColumn, ApplyAddColumn, ApplyDropIndex, ApplyDropNotNull, ApplyRename, AddIndexTo;
    match action {
      case AddIndex(schema) => AddIndexToIsSound(t, schema);
      case DropIndex(name) => DropIndexIsSound(t, name);
      case AddColumn(schema) => AddColumnIsSound(t, schema);
      case DropColumn(name) => DropColumnIsSound(t, name);
      case DropNotNull(name) => DropNotNullIsSound(t, name);
      case Rename(name) => RenameIsSound(tables, at, t, name);
      case OtherAction =>
    }
  }

  /** A table keeps its name unless it is renamed, and then the new name is free or its own. */
  lemma ActionNames(tables: seq<Table>, at: nat, t: Table, action: Action)
    requires ApplyAction(tables, at, t, action).Ok?
    ensures var name := ApplyAction(tables, at, t, action).value.name;
            if action.Rename? then
              && name == action.name
              && (Position(TableNames(tables), name).None? || Position(TableNames(tables), name).value == at)
            else name == t.name
  {
    hide Position, CatalogColumn, IndexAccepted, IsFree;
  }

  lemma {:induction false} ActionsAreSound(tables: seq<Table>, at: nat, t: Table, actions: seq<Action>)
    requires TableSound(t) && ApplyActions(tables, at, t, actions).Ok?
    requires |actions| > 1 ==> !HasRename(actions)
    ensures var r := ApplyActions(tables, at, t, actions).value;
            && TableSound(r)
            && (r.name == t.name || Position(TableNames(tables), r.name).None?
                || Position(TableNames(tables), r.name).value == at)
    ensures !HasRename(actions) ==> ApplyActions(tables, at, t, actions).value.name == t.name
    decreases |actions|
  {
    hide TableSound, ApplyAction, Position;
    if actions != [] {
      var next := ApplyAction(tables, at, t, actions[0]).value;
      ActionIsSound(tables, at, t, actions[0]);
      ActionNames(tables, at, t, actions[0]);
      assert actions[0] in actions;
      if |actions| == 1 {
        assert actions[1..] == [];
      } else {
        assert forall a <- actions[1..] :: a in actions;
        ActionsAreSound(tables, at, next, actions[1..]);
      }
    }
  }

  // ---------------------------------------------------------------- every run

  lemma CreateIsSound(tables: seq<Table>, s: Statement)
    requires s.CreateTable? && CatalogSound(tables) && ApplyCreate(tables, s).Ok?
    ensures CatalogSound(ApplyCreate(tables, s).value)
  {
    hide TableSound, CatalogTable;
    if s.name == "" || s.name !in TableNames(tables) {
      CatalogTableIsSound(s.name, s.entries);
      var names := TableNames(tables);
      var t := CatalogTable(s.name, s.entries).value;
      assert TableNames(tables + [t]) == names + [s.name];
    }
  }

  lemma DropIsSound(tables: seq<Table>, s: Statement)
    requires s.DropTable? && CatalogSound(tables) && ApplyDrop(tables, s).Ok?
    ensures CatalogSound(ApplyDrop(tables, s).value)
  {
    hide TableSound;
    PositionIsFirst(TableNames(tables), s.name);
    if Position(TableNames(tables), s.name).Some? {
      var i := Position(TableNames(tables), s.name).value;
      var rest := Without(tables, i);
      forall j | 0 <= j < |rest| ensures TableNames(rest)[j] == TableNames(tables)[if j < i then j else j + 1] {}
      WithoutMembers(tables, i);
    }
  }

  lemma AlterIsSound(tables: seq<Table>, s: Statement)
    requires s.AlterTable? && CatalogSound(tables) && ApplyAlter(tables, s).Ok?
    ensures CatalogSound(ApplyAlter(tables, s).value)
  {
    hide TableSound, ApplyActions, HasRename;
    var names := TableNames(tables);
    PositionIsFirst(names, s.name);
    var i := Position(names, s.name).value;
    assert tables[i] in tables;
    ActionsAreSound(tables, i, tables[i], s.actions);
    var t := ApplyActions(tables, i, tables[i], s.actions).value;
    PositionIsFirst(names, t.name);
    RenamedIsUnique(names, i, t.name);
    assert TableNames(tables[i := t]) == names[i := t.name];
  }

  lemma RenamedIsUnique(names: seq<string>, at: nat, name: string)
    requires at < |names| && UniqueNames(names)
    requires name == names[at] || Position(names, name).None? || Position(names, name).value == at
    ensures UniqueNames(names[at := name])
  {
    PositionIsFirst(names, name);
  }

  lemma ApplyIsSound(tables: seq<Table>, s: Statement)
    requires CatalogSound(tables) && Apply(tables, s).Ok?
    ensures CatalogSound(Apply(tables, s).value)
  {
    hide CatalogSound, ApplyCreate, ApplyDrop, ApplyAlter;
    match s {
      case CreateTable(_, _, _, _, _) => CreateIsSound(tables, s);
      case AlterTable(_, _) => AlterIsSound(tables, s);
      case DropTable(_, _, _) => DropIsSound(tables, s);
      case OtherStatement =>
    }
  }

  /** Every run from the empty catalog, with whatever mistakes in its statements, ends in a sound catalog. */
  lemma {:induction false} ReplayIsSound(tables: seq<Table>, statements: seq<Statement>)
    requires CatalogSound(tables)
    ensures CatalogSound(Replay(tables, statements))
    decreases |statements|
  {
    hide CatalogSound, Apply;
    if statements != [] {
      if Apply(tables, statements[0]).Ok? {
        ApplyIsSound(tables, statements[0]);
        ReplayIsSound(Apply(tables, statements[0]).value, statements[1..]);
      } else {
        ReplayIsSound(tables, statements[1..]);
      }
    }
  }

  lemma EveryCatalogIsSound(statements: seq<Statement>)
    ensures CatalogSound(Replay([], statements))
  {
    ReplayIsSound([], statements);
  }
}
