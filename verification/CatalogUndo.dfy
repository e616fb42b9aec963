/** Schema statements that undo each other, and multi-action ALTER as a run of single ones. */
module CatalogUndo {
  import opened Slices
  import opened Wrappers
  import opened Text
  import opened Types
  import opened TypeText
  import opened Catalog
  import opened CatalogRuns

  function Alter(name: string, action: Action): Statement {
    AlterTable(name, [action])
  }

  /** A single action is applied to the first table of that name. */
  lemma SingleAction(tables: seq<Table>, name: string, action: Action)
    ensures name == "" || Position(TableNames(tables), name).None? ==> Apply(tables, Alter(name, action)) == Err
    ensures name != "" && Position(TableNames(tables), name).Some? ==>
              var at := Position(TableNames(tables), name).value;
              && at < |tables|
              && Apply(tables, Alter(name, action)) ==
                 match ApplyAction(tables, at, tables[at], action)
                 case Err => Err
                 case Ok(t) => Ok(tables[at := t])
  {
    hide ApplyAction, Position, TableNames;
    PositionIsFirst(TableNames(tables), name);
    if Position(TableNames(tables), name).Some? {
      var at := Position(TableNames(tables), name).value;
      OneAction(tables, at, tables[at], action);
    }
  }

  lemma OneAction(tables: seq<Table>, at: nat, t: Table, action: Action)
    ensures ApplyActions(tables, at, t, [action]) == ApplyAction(tables, at, t, action)
  {
    hide ApplyAction;
    assert [action][1..] == [];
  }

  lemma TwoActions(tables: seq<Table>, at: nat, t: Table, first: Action, second: Action)
    ensures ApplyActions(tables, at, t, [first, second]) ==
            match ApplyAction(tables, at, t, first)
            case Err => Err
            case Ok(next) => ApplyAction(tables, at, next, second)
  {
    hide ApplyAction;
    assert [first, second][1..] == [second];
    if ApplyAction(tables, at, t, first).Ok? {
      OneAction(tables, at, ApplyAction(tables, at, t, first).value, second);
    }
  }

  lemma {:induction false} PositionOfLast(names: seq<string>, name: string)
    requires name !in names
    ensures Position(names + [name], name) == Some(|names|)
  {
    if names == [] {
      assert names + [name] == [name];
    } else {
      assert (names + [name])[1..] == names[1..] + [name];
      PositionOfLast(names[1..], name);
    }
  }

  // ---------------------------------------------------------------- ADD and DROP

  lemma AddedColumnIsFree(t: Table, schema: ColumnSchema)
    requires TableSound(t) && ApplyAddColumn(t, schema).Ok?
    ensures ApplyDropColumn(ApplyAddColumn(t, schema).value, schema.name) == Ok(t)
  {
    hide NoRepeats, Readable, CatalogColumn, Position;
    CatalogColumnIsReadable(t.name, schema);
    var c := CatalogColumn(t.name, schema).value;
    AppendedColumnNames(t.columns, c);
    PositionOfLast(ColumnNames(t.columns), c.name);
    forall index | index in t.indexes ensures !UsesColumn(index, c.name) {
      assert IndexAccepted(t, index);
    }
    assert Without(t.columns + [c], |t.columns|) == t.columns;
    assert t.(columns := t.columns + [c]).(columns := t.columns) == t;
  }

  lemma AddedIndexIsFree(t: Table, schema: IndexSchema)
    requires AddIndexTo(t, schema).Ok?
    ensures ApplyDropIndex(AddIndexTo(t, schema).value, schema.index.name) == Ok(t)
  {
    hide IndexAccepted, Position;
    var index := schema.index;
    AppendedIndexNames(t.indexes, index);
    PositionOfLast(IndexNames(t.indexes), index.name);
    assert Without(t.indexes + [index], |t.indexes|) == t.indexes;
    assert t.(indexes := t.indexes + [index]).(indexes := t.indexes) == t;
  }

  /** The inverse of an addition. */
  function DropOf(action: Action): Action
    requires action.AddColumn? || action.AddIndex?
  {
    if action.AddColumn? then DropColumn(action.column.name) else DropIndex(action.index.index.name)
  }

  lemma AddThenDropAction(tables: seq<Table>, at: nat, t: Table, add: Action)
    requires TableSound(t) && (add.AddColumn? || add.AddIndex?) && ApplyAction(tables, at, t, add).Ok?
    ensures ApplyAction(tables, at, ApplyAction(tables, at, t, add).value, DropOf(add)) == Ok(t)
  {
    hide TableSound, ApplyAddColumn, ApplyDropColumn, AddIndexTo, ApplyDropIndex;
    if add.AddColumn? {
      AddedColumnIsFree(t, add.column);
    } else {
      AddedIndexIsFree(t, add.index);
    }
  }

  /** Dropping what was just added restores the catalog exactly, in one statement or in two. */
  lemma AddThenDrop(tables: seq<Table>, name: string, add: Action)
    requires CatalogSound(tables) && (add.AddColumn? || add.AddIndex?)
    requires Apply(tables, Alter(name, add)).Ok?
    ensures Apply(Apply(tables, Alter(name, add)).value, Alter(name, DropOf(add))) == Ok(tables)
    ensures Apply(tables, AlterTable(name, [add, DropOf(add)])) == Ok(tables)
  {
    hide TableSound, ApplyAction, Position;
    var names := TableNames(tables);
    PositionIsFirst(names, name);
    SingleAction(tables, name, add);
    var i := Position(names, name).value;
    assert tables[i] in tables;
    var t := ApplyAction(tables, i, tables[i], add).value;
    var added := tables[i := t];
    AddThenDropAction(tables, i, tables[i], add);
    TwoActions(tables, i, tables[i], add, DropOf(add));
    assert tables[i := tables[i]] == tables;
    ActionNames(tables, i, tables[i], add);
    assert TableNames(added) == names;
    SingleAction(added, name, DropOf(add));
    NoRenameIgnoresCatalog(tables, added, i, t, DropOf(add));
    assert added[i := tables[i]] == tables;
    assert !HasRename([add, DropOf(add)]);
  }

  lemma NoRenameIgnoresCatalog(tables: seq<Table>, others: seq<Table>, at: nat, t: Table, action: Action)
    requires !action.Rename?
    ensures ApplyAction(tables, at, t, action) == ApplyAction(others, at, t, action)
  {
  }

  // ---------------------------------------------------------------- RENAME and back, CREATE and DROP

  lemma RenameActionBack(tables: seq<Table>, at: nat, t: Table, name: string)
    requires TableSound(t) && at < |tables| && tables[at] == t && UniqueNames(TableNames(tables)) && t.name != ""
    requires ApplyRename(tables, at, t, name).Ok?
    ensures ApplyRename(tables[at := ApplyRename(tables, at, t, name).value], at, ApplyRename(tables, at, t, name).value, t.name)
            == Ok(t)
  {
    hide NoRepeats, Readable, Position, KeySound, IndexesSound;
    var renamed := ApplyRename(tables, at, t, name).value;
    var after := tables[at := renamed];
    PositionIsFirst(TableNames(after), t.name);
    forall i | 0 <= i < |after| && i != at ensures TableNames(after)[i] != t.name {
      assert TableNames(tables)[i] != TableNames(tables)[at];
    }
    forall i | 0 <= i < |t.columns| ensures Moved(Moved(t.columns, name), t.name)[i] == t.columns[i] {
      assert t.columns[i] in t.columns && ColumnSound(t, t.columns[i]);
    }
    assert Moved(Moved(t.columns, name), t.name) == t.columns;
    assert renamed.(name := t.name, columns := t.columns) == t;
  }

  lemma PositionOfUnique(names: seq<string>, i: nat)
    requires i < |names| && forall j | 0 <= j < |names| && j != i :: names[j] != names[i]
    ensures Position(names, names[i]) == Some(i)
  {
    PositionIsFirst(names, names[i]);
  }

  /** A renamed table can be renamed back, which restores the catalog, exactly when its new name can be referred to. */
  lemma RenameBack(tables: seq<Table>, name: string, newName: string)
    requires CatalogSound(tables) && Apply(tables, Alter(name, Rename(newName))).Ok?
    ensures Apply(Apply(tables, Alter(name, Rename(newName))).value, Alter(newName, Rename(name))) == Ok(tables)
            <==> newName != ""
  {
    hide TableSound, ApplyRename, Position;
    var names := TableNames(tables);
    SingleAction(tables, name, Rename(newName));
    PositionIsFirst(names, name);
    var i := Position(names, name).value;
    assert tables[i] in tables && tables[i].name == names[i] == name;
    var renamed := ApplyRename(tables, i, tables[i], newName).value;
    var after := tables[i := renamed];
    SingleAction(after, newName, Rename(name));
    if newName != "" {
      ActionNames(tables, i, tables[i], Rename(newName));
      RenameActionBack(tables, i, tables[i], newName);
      assert TableNames(after) == names[i := newName];
      PositionIsFirst(names, newName);
      forall j | 0 <= j < |after| && j != i ensures TableNames(after)[j] != newName {
        assert names[j] == TableNames(after)[j];
      }
      PositionOfUnique(TableNames(after), i);
      assert after[i := tables[i]] == tables;
    }
  }

  /** A created table can be dropped, which restores the catalog, exactly when its name can be referred to. */
  lemma CreateThenDrop(tables: seq<Table>, s: Statement, ifExists: bool)
    requires s.CreateTable? && (s.name == "" || s.name !in TableNames(tables)) && Apply(tables, s).Ok?
    ensures Apply(Apply(tables, s).value, DropTable(true, ifExists, s.name)) == Ok(tables) <==> s.name != ""
  {
    hide CatalogTable, Position;
    CatalogTableIsSound(s.name, s.entries);
    var t := CatalogTable(s.name, s.entries).value;
    if s.name != "" {
      assert TableNames(tables + [t]) == TableNames(tables) + [s.name];
      PositionOfLast(TableNames(tables), s.name);
      assert Without(tables + [t], |tables|) == tables;
    }
  }

  /** The empty new name is accepted like any other: only another table of that name stands in its way. */
  lemma EmptyRenameIsAccepted(tables: seq<Table>, name: string)
    requires name != ""
    ensures Apply(tables, Alter(name, Rename(""))).Ok? <==> name in TableNames(tables) && "" !in TableNames(tables)
  {
    hide Position;
    SingleAction(tables, name, Rename(""));
    PositionIsFirst(TableNames(tables), name);
    PositionIsFirst(TableNames(tables), "");
  }

  /** A table with one serial column, which is its key. */
  function SerialTable(name: string): Statement {
    CreateTable(true, true, false, name, [ColumnEntry(ColumnSchema(true, "id", "serial", true)), KeyEntry("id", [])])
  }

  /** Every catalog accepts a CREATE with the empty name. */
  lemma EmptyCreateIsAccepted(tables: seq<Table>)
    ensures Apply(tables, SerialTable("")).Ok?
  {
    var entries := SerialTable("").entries;
    assert entries[1..][1..] == [];
    assert Lower("serial") == "serial";
    var column := Column("id", Plain(Int32), "", true);
    assert CatalogColumn("", entries[0].column) == Ok(column);
    var first := Draft([column], [], 0, false);
    assert AddEntry("", Draft([], [], 0, false), entries[0]) == first;
    var both := Draft([column], ["id"], 1, false);
    assert AddEntry("", first, entries[1]) == both by { OneKey(first, "id"); }
    assert AddEntries("", Draft([], [], 0, false), entries) == both;
    assert ColumnNames([column]) == ["id"];
    assert DraftAccepted(both);
  }

  lemma OneKey(d: Draft, name: string)
    requires d.key == []
    ensures AddKeys(d.(declarations := 1), [name] + []) == d.(declarations := 1, key := [name])
  {
    assert ([name] + [])[1..] == [];
    assert [] + [name] == [name];
  }

  // ---------------------------------------------------------------- batches

  /** Statements one after another, stopping at the first diagnostic. */
  function ApplyAll(tables: seq<Table>, statements: seq<Statement>): Result<seq<Table>>
    decreases |statements|
  {
    if statements == [] then Ok(tables)
    else match Apply(tables, statements[0]) case Err => Err case Ok(next) => ApplyAll(next, statements[1..])
  }

  function Singles(name: string, actions: seq<Action>): seq<Statement> {
    if actions == [] then [] else [Alter(name, actions[0])] + Singles(name, actions[1..])
  }

  lemma {:induction false} BatchIsRun(tables: seq<Table>, at: nat, name: string, actions: seq<Action>)
    requires Position(TableNames(tables), name) == Some(at) && at < |tables| && name != "" && !HasRename(actions)
    ensures ApplyAll(tables, Singles(name, actions)) ==
            match ApplyActions(tables, at, tables[at], actions) case Err => Err case Ok(t) => Ok(tables[at := t])
    decreases |actions|
  {
    hide ApplyAction, Position, Apply, HasRename;
    if actions == [] {
      assert tables[at := tables[at]] == tables;
    } else {
      var first := actions[0];
      NoRenameInTail(actions);
      SingleAction(tables, name, first);
      var rest := Singles(name, actions[1..]);
      assert Singles(name, actions)[0] == Alter(name, first) && Singles(name, actions)[1..] == rest;
      if ApplyAction(tables, at, tables[at], first).Ok? {
        var t := ApplyAction(tables, at, tables[at], first).value;
        var next := tables[at := t];
        ActionNames(tables, at, tables[at], first);
        assert TableNames(next) == TableNames(tables);
        BatchIsRun(next, at, name, actions[1..]);
        ActionsIgnoreCatalog(tables, next, at, t, actions[1..]);
        if ApplyActions(tables, at, t, actions[1..]).Ok? {
          var last := ApplyActions(tables, at, t, actions[1..]).value;
          assert next[at := last] == tables[at := last];
        }
      }
    }
  }

  lemma NoRenameInTail(actions: seq<Action>)
    requires actions != [] && !HasRename(actions)
    ensures !actions[0].Rename? && !HasRename(actions[1..])
  {
    assert actions[0] in actions;
    assert forall a <- actions[1..] :: a in actions;
  }

  lemma {:induction false} ActionsIgnoreCatalog(tables: seq<Table>, others: seq<Table>, at: nat, t: Table, actions: seq<Action>)
    requires !HasRename(actions)
    ensures ApplyActions(tables, at, t, actions) == ApplyActions(others, at, t, actions)
    decreases |actions|
  {
    hide ApplyAction, HasRename;
    if actions != [] {
      NoRenameInTail(actions);
      NoRenameIgnoresCatalog(tables, others, at, t, actions[0]);
      if ApplyAction(tables, at, t, actions[0]).Ok? {
        ActionsIgnoreCatalog(tables, others, at, ApplyAction(tables, at, t, actions[0]).value, actions[1..]);
      }
    }
  }

  /** A multi-action ALTER succeeds exactly when its actions succeed one statement at a time, with the same catalog. */
  lemma AlterIsItsActions(tables: seq<Table>, name: string, actions: seq<Action>)
    requires actions != [] && !HasRename(actions)
    ensures Apply(tables, AlterTable(name, actions)) == ApplyAll(tables, Singles(name, actions))
  {
    hide ApplyAction, Position, HasRename, ApplyActions;
    PositionIsFirst(TableNames(tables), name);
    var at := Position(TableNames(tables), name);
    if name != "" && at.Some? {
      BatchIsRun(tables, at.value, name, actions);
    } else {
      SingleAction(tables, name, actions[0]);
    }
  }
}
