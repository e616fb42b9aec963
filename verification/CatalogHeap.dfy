/** The catalog as the analyzer keeps it: tables whose column, key and index slices are edited in place. */
module CatalogHeap {
  import opened Slices
  import opened Wrappers
  import opened Types
  import opened TypeText
  import opened Catalog
  import CatalogRuns

  datatype StoredTable = StoredTable(name: string, columns: Slice<Column>, key: Slice<string>, indexes: Slice<Index>) {
    ghost predicate Valid() {
      columns.Valid() && key.Valid() && indexes.Valid()
    }

    ghost function Arrays(): set<object> {
      {columns.backing as object, key.backing as object, indexes.backing as object}
    }

    ghost function Value(): Table
      requires Valid()
      reads Arrays()
    {
      Table(name, columns.Contents(), key.Contents(), indexes.Contents())
    }
  }

  ghost predicate AllValid(tables: seq<StoredTable>) {
    forall t <- tables :: t.Valid()
  }

  ghost function ArraysOf(tables: seq<StoredTable>): set<object> {
    set t, o | t in tables && o in t.Arrays() :: o
  }

  ghost function ValuesOf(tables: seq<StoredTable>): (values: seq<Table>)
    requires AllValid(tables)
    reads ArraysOf(tables)
    ensures |values| == |tables|
  {
    seq(|tables|, i requires 0 <= i < |tables| reads ArraysOf(tables) => tables[i].Value())
  }

  // ---------------------------------------------------------------- searches

  lemma {:induction false} PositionAt(names: seq<string>, name: string, i: nat)
    requires i < |names| && names[i] == name && name !in names[..i]
    ensures Position(names, name) == Some(i)
  {
    if i > 0 {
      assert names[..i] == [names[0]] + names[1..][..i - 1];
      PositionAt(names[1..], name, i - 1);
    }
  }

  lemma PositionNowhere(names: seq<string>, name: string)
    requires name !in names
    ensures Position(names, name) == None
  {
    PositionIsFirst(names, name);
  }

  method FindColumn(columns: Slice<Column>, name: string) returns (at: Option<nat>)
    requires columns.Valid()
    ensures at == Position(ColumnNames(columns.Contents()), name)
    ensures at.Some? ==> at.value < columns.length
  {
    ghost var names := ColumnNames(columns.Contents());
    for i := 0 to columns.length
      invariant name !in names[..i]
    {
      assert names[..i + 1] == names[..i] + [columns.backing[i].name];
      if columns.backing[i].name == name {
        PositionAt(names, name, i);
        return Some(i);
      }
    }
    assert names[..columns.length] == names;
    PositionNowhere(names, name);
    return None;
  }

  method FindIndex(indexes: Slice<Index>, name: string) returns (at: Option<nat>)
    requires indexes.Valid()
    ensures at == Position(IndexNames(indexes.Contents()), name)
    ensures at.Some? ==> at.value < indexes.length
  {
    ghost var names := IndexNames(indexes.Contents());
    for i := 0 to indexes.length
      invariant name !in names[..i]
    {
      assert names[..i + 1] == names[..i] + [indexes.backing[i].name];
      if indexes.backing[i].name == name {
        PositionAt(names, name, i);
        return Some(i);
      }
    }
    assert names[..indexes.length] == names;
    PositionNowhere(names, name);
    return None;
  }

  method FindTable(tables: Slice<StoredTable>, name: string) returns (at: Option<nat>)
    requires tables.Valid() && AllValid(tables.Contents())
    ensures at == Position(TableNames(ValuesOf(tables.Contents())), name)
    ensures at.Some? ==> at.value < tables.length
  {
    ghost var names := TableNames(ValuesOf(tables.Contents()));
    for i := 0 to tables.length
      invariant name !in names[..i]
    {
      assert names[i] == tables.backing[i].name;
      assert names[..i + 1] == names[..i] + [tables.backing[i].name];
      if tables.backing[i].name == name {
        PositionAt(names, name, i);
        return Some(i);
      }
    }
    assert names[..tables.length] == names;
    PositionNowhere(names, name);
    return None;
  }

  method Contains(names: Slice<string>, name: string) returns (found: bool)
    requires names.Valid()
    ensures found == (name in names.Contents())
  {
    for i := 0 to names.length
      invariant name !in names.backing[..i]
    {
      if names.backing[i] == name { return true; }
    }
    found := false;
  }

  // ---------------------------------------------------------------- index validation

  /** One round of validateTableIndex, with the set of names it has seen. */
  method ValidateGroup(t: StoredTable, group: seq<string>, excluded: seq<string>) returns (accepted: bool)
    requires t.Valid()
    ensures accepted == GroupAccepted(t.Value(), group, excluded)
  {
    var seen: set<string> := {};
    for i := 0 to |group|
      invariant forall name :: name in seen <==> name in group[..i]
      invariant GroupAccepted(t.Value(), group[..i], excluded)
    {
      var name := group[i];
      assert group[..i + 1] == group[..i] + [name] && name in group;
      var column := FindColumn(t.columns, name);
      PositionIsFirst(ColumnNames(t.Value().columns), name);
      if column.None? || name in excluded { return false; }
      if name in seen {
        var j :| 0 <= j < i && group[..i][j] == name;
        assert group[j] == group[i];
        return false;
      }
      seen := seen + {name};
    }
    assert group[..|group|] == group;
    accepted := true;
  }

  method KeyOf(t: StoredTable) returns (key: seq<string>)
    requires t.Valid()
    ensures key == t.Value().key
  {
    key := t.key.backing[..t.key.length];
  }

  method ValidateIndex(t: StoredTable, index: Index) returns (accepted: bool)
    requires t.Valid()
    ensures accepted == IndexAccepted(t.Value(), index)
  {
    if index.name == "" { return false; }
    var columns := ValidateGroup(t, index.columns, []);
    if !columns { return false; }
    var key := KeyOf(t);
    accepted := ValidateGroup(t, index.covering, index.columns + key);
  }

  // ---------------------------------------------------------------- actions on the working copy

  /** Arrays an action may leave in its result: those of the table it worked on, and new ones. */
  twostate predicate OwnOrNew(t: StoredTable, new next: StoredTable) {
    && (next.columns.backing == t.columns.backing || fresh(next.columns.backing))
    && next.key == t.key
    && (next.indexes.backing == t.indexes.backing || fresh(next.indexes.backing))
  }

  /** What an action reports and leaves behind is what the function on values says. */
  twostate predicate Matches(t: StoredTable, new next: StoredTable, ok: bool, new expected: Result<Table>)
    reads next.Arrays()
  {
    && next.Valid() && OwnOrNew(t, next)
    && ok == expected.Ok?
    && (ok ==> next.Value() == expected.value)
  }

  method DoAddIndex(t: StoredTable, schema: IndexSchema) returns (next: StoredTable, ok: bool)
    requires t.Valid()
    modifies t.indexes.backing
    ensures Matches(t, next, ok, AddIndexTo(old(t.Value()), schema))
  {
    next, ok := t, false;
    if !schema.supported { return; }
    var accepted := ValidateIndex(t, schema.index);
    if !accepted { return; }
    var at := FindIndex(t.indexes, schema.index.name);
    PositionIsFirst(IndexNames(t.indexes.Contents()), schema.index.name);
    if at.Some? { return; }
    var indexes := Append(t.indexes, schema.index);
    next, ok := t.(indexes := indexes), true;
  }

  method DoDropIndex(t: StoredTable, name: string) returns (next: StoredTable, ok: bool)
    requires t.Valid()
    modifies t.indexes.backing
    ensures Matches(t, next, ok, ApplyDropIndex(old(t.Value()), name))
  {
    next, ok := t, false;
    var at := FindIndex(t.indexes, name);
    if at.None? { return; }
    var indexes := RemoveAt(t.indexes, at.value);
    next, ok := t.(indexes := indexes), true;
  }

  method DoAddColumn(t: StoredTable, schema: ColumnSchema) returns (next: StoredTable, ok: bool)
    requires t.Valid()
    modifies t.columns.backing
    ensures Matches(t, next, ok, ApplyAddColumn(old(t.Value()), schema))
  {
    next, ok := t, false;
    var column := CatalogColumn(t.name, schema);
    if column.Err? { return; }
    var at := FindColumn(t.columns, column.value.name);
    PositionIsFirst(ColumnNames(t.columns.Contents()), column.value.name);
    if at.Some? || column.value.sequence { return; }
    var columns := Append(t.columns, column.value);
    next, ok := t.(columns := columns), true;
  }

  method Free(t: StoredTable, name: string) returns (free: bool)
    requires t.Valid()
    ensures free == IsFree(t.Value(), name)
  {
    var inKey := Contains(t.key, name);
    if inKey { return false; }
    for i := 0 to t.indexes.length
      invariant forall index <- t.indexes.backing[..i] :: !UsesColumn(index, name)
    {
      assert t.indexes.backing[i] in t.Value().indexes;
      if UsesColumn(t.indexes.backing[i], name) { return false; }
    }
    free := true;
  }

  method DoDropColumn(t: StoredTable, name: string) returns (next: StoredTable, ok: bool)
    requires t.Valid()
    modifies t.columns.backing
    ensures Matches(t, next, ok, ApplyDropColumn(old(t.Value()), name))
  {
    next, ok := t, false;
    var at := FindColumn(t.columns, name);
    if at.None? { return; }
    var free := Free(t, name);
    if !free { return; }
    var columns := RemoveAt(t.columns, at.value);
    next, ok := t.(columns := columns), true;
  }

  method DoDropNotNull(t: StoredTable, name: string) returns (next: StoredTable, ok: bool)
    requires t.Valid()
    modifies t.columns.backing
    ensures Matches(t, next, ok, ApplyDropNotNull(old(t.Value()), name))
  {
    next, ok := t, false;
    var at := FindColumn(t.columns, name);
    if at.None? { return; }
    t.columns.backing[at.value] := Relaxed(t.columns.backing[at.value]);
    ok := true;
  }

  method DoRename(tables: Slice<StoredTable>, at: nat, t: StoredTable, name: string) returns (next: StoredTable, ok: bool)
    requires tables.Valid() && AllValid(tables.Contents()) && t.Valid()
    requires t.columns.backing !in ArraysOf(tables.Contents())
    modifies t.columns.backing
    ensures Matches(t, next, ok, ApplyRename(old(ValuesOf(tables.Contents())), at, old(t.Value()), name))
  {
    next, ok := t, false;
    var taken := FindTable(tables, name);
    if taken.Some? && taken.value != at { return; }
    for i := 0 to t.columns.length
      invariant forall j | 0 <= j < i :: t.columns.backing[j] == old(t.columns.backing[j]).(table := name)
      invariant forall j | i <= j < t.columns.length :: t.columns.backing[j] == old(t.columns.backing[j])
    {
      t.columns.backing[i] := t.columns.backing[i].(table := name);
    }
    next, ok := t.(name := name), true;
    assert next.columns.Contents() == Moved(old(t.columns.Contents()), name);
  }

  /** applyAlterTableAction. */
  method DoAction(tables: Slice<StoredTable>, at: nat, t: StoredTable, action: Action) returns (next: StoredTable, ok: bool)
    requires tables.Valid() && AllValid(tables.Contents()) && t.Valid()
    requires t.columns.backing !in ArraysOf(tables.Contents())
    modifies t.columns.backing, t.indexes.backing
    ensures Matches(t, next, ok, ApplyAction(old(ValuesOf(tables.Contents())), at, old(t.Value()), action))
  {
    match action {
      case AddIndex(schema) => next, ok := DoAddIndex(t, schema);
      case DropIndex(name) => next, ok := DoDropIndex(t, name);
      case AddColumn(schema) => next, ok := DoAddColumn(t, schema);
      case DropColumn(name) => next, ok := DoDropColumn(t, name);
      case DropNotNull(name) => next, ok := DoDropNotNull(t, name);
      case Rename(name) => next, ok := DoRename(tables, at, t, name);
      case OtherAction => next, ok := t, false;
    }
  }

  /** cloneTable. */
  method CloneTable(t: StoredTable) returns (copy: StoredTable)
    requires t.Valid()
    ensures copy.Valid() && copy.Value() == t.Value() && fresh(copy.Arrays())
  {
    var columns := Clone(t.columns);
    var key := Clone(t.key);
    var indexes := Clone(t.indexes);
    copy := StoredTable(t.name, columns, key, indexes);
  }

  // ---------------------------------------------------------------- CREATE TABLE

  /** The columns and the key that the first loop of catalogTable collects. */
  method CollectEntries(name: string, entries: seq<Entry>)
    returns (columns: Slice<Column>, key: Slice<string>, declarations: nat, failed: bool)
    ensures columns.Valid() && key.Valid() && fresh(columns.backing) && fresh(key.backing)
    ensures Draft(columns.Contents(), key.Contents(), declarations, failed) ==
            AddEntries(name, Draft([], [], 0, false), entries)
  {
    columns := Empty();
    key := Empty();
    declarations, failed := 0, false;
    for i := 0 to |entries|
      invariant columns.Valid() && key.Valid() && fresh(columns.backing) && fresh(key.backing)
      invariant AddEntries(name, Draft([], [], 0, false), entries) ==
                AddEntries(name, Draft(columns.Contents(), key.Contents(), declarations, failed), entries[i..])
    {
      assert entries[i..][1..] == entries[i + 1..];
      match entries[i] {
        case IndexEntry(_) =>
        case ColumnEntry(schema) =>
          var column := CatalogColumn(name, schema);
          if column.Err? {
            failed := true;
          } else {
            var at := FindColumn(columns, column.value.name);
            PositionIsFirst(ColumnNames(columns.Contents()), column.value.name);
            if at.Some? {
              failed := true;
            } else {
              columns := Append(columns, column.value);
            }
          }
        case KeyEntry(first, others) =>
          declarations := declarations + 1;
          ghost var d := Draft(columns.Contents(), key.Contents(), declarations, failed);
          var repeated;
          key, repeated := CollectKey(key, [first] + others, d);
          failed := failed || repeated;
        case OtherEntry =>
          failed := true;
      }
    }
  }

  method CollectKey(before: Slice<string>, names: seq<string>, ghost d: Draft) returns (key: Slice<string>, repeated: bool)
    requires before.Valid() && d.key == before.Contents()
    modifies before.backing
    ensures key.Valid() && (key.backing == before.backing || fresh(key.backing))
    ensures AddKeys(d, names) == d.(key := key.Contents(), failed := d.failed || repeated)
  {
    key, repeated := before, false;
    for i := 0 to |names|
      invariant key.Valid() && (key.backing == before.backing || fresh(key.backing))
      invariant AddKeys(d, names) == AddKeys(d.(key := key.Contents(), failed := d.failed || repeated), names[i..])
    {
      assert names[i..][1..] == names[i + 1..];
      var seen := Contains(key, names[i]);
      if seen {
        repeated := true;
      } else {
        key := Append(key, names[i]);
      }
    }
  }

  /** The checks between the two loops of catalogTable. */
  method CheckDraft(columns: Slice<Column>, key: Slice<string>, declarations: nat, failed: bool) returns (accepted: bool)
    requires columns.Valid() && key.Valid()
    ensures accepted == DraftAccepted(Draft(columns.Contents(), key.Contents(), declarations, failed))
  {
    accepted := !failed && columns.length != 0 && declarations == 1;
    for i := 0 to key.length
      invariant accepted == (!failed && columns.length != 0 && declarations == 1
                             && forall name <- key.backing[..i] :: name in ColumnNames(columns.Contents()))
    {
      var at := FindColumn(columns, key.backing[i]);
      PositionIsFirst(ColumnNames(columns.Contents()), key.backing[i]);
      assert key.backing[..i + 1] == key.backing[..i] + [key.backing[i]];
      accepted := accepted && at.Some?;
    }
    ghost var soFar := accepted;
    for i := 0 to columns.length
      invariant accepted == (soFar && forall c <- columns.backing[..i] :: c.sequence ==> c.name in key.Contents())
    {
      var c := columns.backing[i];
      assert columns.backing[..i + 1] == columns.backing[..i] + [c];
      var inKey := Contains(key, c.name);
      accepted := accepted && (c.sequence ==> inKey);
    }
  }

  /** The second loop of catalogTable. */
  method CollectIndexes(t: StoredTable, entries: seq<Entry>) returns (next: StoredTable, ok: bool)
    requires t.Valid()
    modifies t.indexes.backing
    ensures Matches(t, next, ok, AddIndexes(old(t.Value()), entries))
  {
    next, ok := t, true;
    for i := 0 to |entries|
      invariant ok && next.Valid() && OwnOrNew(t, next)
      invariant AddIndexes(old(t.Value()), entries) == AddIndexes(next.Value(), entries[i..])
    {
      assert entries[i..][1..] == entries[i + 1..];
      if entries[i].IndexEntry? {
        next, ok := DoAddIndex(next, entries[i].index);
        if !ok { return; }
      }
    }
  }

  method BuildTable(name: string, entries: seq<Entry>) returns (t: StoredTable, ok: bool)
    ensures t.Valid() && fresh(t.Arrays())
    ensures ok == CatalogTable(name, entries).Ok? && (ok ==> t.Value() == CatalogTable(name, entries).value)
  {
    var columns, key, declarations, failed := CollectEntries(name, entries);
    var indexes := Empty();
    t := StoredTable(name, columns, key, indexes);
    ok := CheckDraft(columns, key, declarations, failed);
    if ok {
      t, ok := CollectIndexes(t, entries);
    }
  }

  // ---------------------------------------------------------------- the store

  lemma WithoutIsSubset(tables: seq<StoredTable>, i: nat)
    requires i < |tables|
    ensures ArraysOf(Without(tables, i)) <= ArraysOf(tables)
  {
  }

  lemma AlterRefused(tables: seq<Table>, s: Statement)
    requires s.AlterTable?
    requires s.name == "" || Position(TableNames(tables), s.name).None? || (|s.actions| > 1 && HasRename(s.actions))
    ensures ApplyAlter(tables, s) == Err
  {
    hide ApplyActions, Position;
  }

  lemma AlterFound(tables: seq<Table>, s: Statement, at: nat)
    requires s.AlterTable? && s.name != "" && !(|s.actions| > 1 && HasRename(s.actions))
    requires at < |tables| && Position(TableNames(tables), s.name).Some? && Position(TableNames(tables), s.name).value == at
    ensures ApplyAlter(tables, s) ==
            match ApplyActions(tables, at, tables[at], s.actions) case Err => Err case Ok(t) => Ok(tables[at := t])
  {
    hide ApplyActions;
  }

  /** RENAME TO must be the only action. */
  method MixesRename(actions: seq<Action>) returns (mixed: bool)
    ensures mixed == (|actions| > 1 && HasRename(actions))
  {
    if |actions| <= 1 { return false; }
    for i := 0 to |actions|
      invariant forall a <- actions[..i] :: !a.Rename?
    {
      if actions[i].Rename? {
        assert actions[i] in actions;
        return true;
      }
    }
    assert actions[..|actions|] == actions;
    mixed := false;
  }

  class Store {
    var tables: Slice<StoredTable>

    ghost predicate Valid()
      reads this, tables.backing
    {
      tables.Valid() && AllValid(tables.Contents())
    }

    /** The catalog that the arrays stand for. */
    ghost function Value(): seq<Table>
      requires Valid()
      reads this, tables.backing, if tables.Valid() then ArraysOf(tables.Contents()) else {}
    {
      ValuesOf(tables.Contents())
    }

    constructor ()
      ensures Valid() && Value() == [] && fresh(tables.backing)
    {
      var none := Empty();
      tables := none;
    }

    /**
     * applyAlterTable.  Only the array of tables is written, and only when every action has succeeded: the arrays of
     * the tables themselves are never touched, although drops shift elements in place.
     */
    method Alter(s: Statement) returns (ok: bool)
      requires Valid() && s.AlterTable?
      modifies tables.backing
      ensures Valid() && tables == old(tables)
      ensures ok == ApplyAlter(old(Value()), s).Ok?
      ensures Value() == if ok then ApplyAlter(old(Value()), s).value else old(Value())
      ensures !ok ==> tables.backing[..] == old(tables.backing[..])
      ensures forall t | t in old(tables.Contents()) :: t.Value() == old(t.Value())
    {
      hide ApplyActions, HasRename, Position, ApplyAlter;
      ghost var values := Value();
      var at := FindTable(tables, s.name);
      assert Value() == values && Position(TableNames(values), s.name) == at;
      var mixed := MixesRename(s.actions);
      assert Value() == values;
      if s.name == "" || at.None? || mixed {
        AlterRefused(values, s);
        ok := false;
      } else {
        AlterFound(values, s, at.value);
        ok := AlterAt(at.value, s.actions);
      }
    }

    /** All actions on a working copy, and the single write that commits it. */
    method AlterAt(at: nat, actions: seq<Action>) returns (ok: bool)
      requires Valid() && at < tables.length
      modifies tables.backing
      ensures Valid() && tables == old(tables)
      ensures var r := ApplyActions(old(Value()), at, old(Value())[at], actions);
              ok == r.Ok? && Value() == if ok then old(Value())[at := r.value] else old(Value())
      ensures !ok ==> tables.backing[..] == old(tables.backing[..])
      ensures forall t | t in old(tables.Contents()) :: t.Value() == old(t.Value())
    {
      hide ApplyActions;
      ghost var values := Value();
      var working := CloneTable(tables.backing[at]);
      assert working.Value() == values[at] && Value() == values;
      working, ok := Work(tables, at, working, actions);
      assert Value() == values;
      if ok {
        Commit(at, working);
      }
    }

    /** applyCreateTable. */
    method Create(s: Statement) returns (ok: bool)
      requires Valid() && s.CreateTable?
      modifies this, tables.backing
      ensures Valid() && (tables.backing == old(tables.backing) || fresh(tables.backing))
      ensures ok == ApplyCreate(old(Value()), s).Ok?
      ensures Value() == if ok then ApplyCreate(old(Value()), s).value else old(Value())
    {
      hide CatalogTable, Position;
      if !s.supported { return false; }
      if s.name != "" {
        var at := FindTable(tables, s.name);
        PositionIsFirst(TableNames(Value()), s.name);
        assert Value() == old(Value());
        if at.Some? { return s.ifNotExists; }
      }
      if !s.resolvable { return false; }
      var t;
      t, ok := BuildTable(s.name, s.entries);
      if ok {
        Extend(t);
      }
    }

    method Extend(t: StoredTable)
      requires Valid() && t.Valid()
      modifies this, tables.backing
      ensures Valid() && (tables.backing == old(tables.backing) || fresh(tables.backing))
      ensures Value() == old(Value()) + [t.Value()]
    {
      var longer := Append(tables, t);
      tables := longer;
    }

    /** applyDropTable: the tables behind the dropped one move one place down in the same array. */
    method Drop(s: Statement) returns (ok: bool)
      requires Valid() && s.DropTable?
      modifies this, tables.backing
      ensures Valid() && tables.backing == old(tables.backing)
      ensures ok == ApplyDrop(old(Value()), s).Ok?
      ensures Value() == if ok then ApplyDrop(old(Value()), s).value else old(Value())
    {
      if !s.supported || s.name == "" { return false; }
      var at := FindTable(tables, s.name);
      assert Value() == old(Value());
      if at.None? { return s.ifExists; }
      Shrink(at.value);
      ok := true;
    }

    method Shrink(at: nat)
      requires Valid() && at < tables.length
      modifies this, tables.backing
      ensures Valid() && tables.backing == old(tables.backing)
      ensures Value() == Without(old(Value()), at)
    {
      WithoutIsSubset(tables.Contents(), at);
      var shorter := RemoveAt(tables, at);
      tables := shorter;
    }

    /** buildCatalog: one statement after another, whether or not the one before was accepted. */
    method Run(statements: seq<Statement>) returns (failures: nat)
      requires Valid()
      modifies this, tables.backing
      ensures Valid() && Value() == Replay(old(Value()), statements)
    {
      failures := 0;
      for i := 0 to |statements|
        invariant Valid() && (tables.backing == old(tables.backing) || fresh(tables.backing))
        invariant Replay(Value(), statements[i..]) == Replay(old(Value()), statements)
      {
        assert statements[i..][1..] == statements[i + 1..];
        var ok := Step(statements[i]);
        if !ok { failures := failures + 1; }
      }
    }

    method Step(s: Statement) returns (ok: bool)
      requires Valid()
      modifies this, tables.backing
      ensures Valid() && (tables.backing == old(tables.backing) || fresh(tables.backing))
      ensures ok == Apply(old(Value()), s).Ok?
      ensures Value() == if ok then Apply(old(Value()), s).value else old(Value())
    {
      match s {
        case CreateTable(_, _, _, _, _) => ok := Create(s);
        case AlterTable(_, _) => ok := Alter(s);
        case DropTable(_, _, _) => ok := Drop(s);
        case OtherStatement => ok := false;
      }
    }

    method Commit(at: nat, working: StoredTable)
      requires Valid() && at < tables.length && working.Valid()
      modifies tables.backing
      ensures Valid() && tables == old(tables)
      ensures Value() == old(Value())[at := working.Value()]
    {
      tables.backing[at] := working;
      assert tables.Contents() == old(tables.Contents())[at := working];
    }
  }

  /** All actions on the working copy, whose arrays are not those of any table of the catalog. */
  method Work(tables: Slice<StoredTable>, at: nat, t: StoredTable, actions: seq<Action>) returns (next: StoredTable, ok: bool)
    requires tables.Valid() && AllValid(tables.Contents()) && t.Valid()
    requires t.Arrays() !! ArraysOf(tables.Contents())
    modifies t.columns.backing, t.indexes.backing
    ensures Matches(t, next, ok, ApplyActions(old(ValuesOf(tables.Contents())), at, old(t.Value()), actions))
  {
    hide ApplyAction;
    next, ok := t, true;
    ghost var values := ValuesOf(tables.Contents());
    for i := 0 to |actions|
      invariant ok && next.Valid() && OwnOrNew(t, next)
      invariant next.Arrays() !! ArraysOf(tables.Contents())
      invariant tables.Contents() == old(tables.Contents()) && ValuesOf(tables.Contents()) == values
      invariant ApplyActions(values, at, old(t.Value()), actions) == ApplyActions(values, at, next.Value(), actions[i..])
    {
      assert actions[i..][1..] == actions[i + 1..];
      next, ok := DoAction(tables, at, next, actions[i]);
      if !ok { return; }
    }
  }

  /** The catalog built from a run of statements is the one of the functions on values, and it is sound. */
  method BuildCatalog(statements: seq<Statement>) returns (store: Store, failures: nat)
    ensures store.Valid() && store.Value() == Replay([], statements)
    ensures CatalogSound(store.Value())
  {
    store := new Store();
    failures := store.Run(statements);
    CatalogRuns.EveryCatalogIsSound(statements);
  }
}
