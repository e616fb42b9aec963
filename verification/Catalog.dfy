/** Schema statements replayed on a catalog (internal/analyzer/catalog.go), as functions on values. */
module Catalog {
  import opened Slices
  import opened Wrappers
  import opened Text
  import opened Types
  import opened TypeText

  // ---------------------------------------------------------------- the catalog

  datatype Column = Column(name: string, typ: Type, table: string, sequence: bool)

  datatype IndexKind = GlobalSync | GlobalAsync

  datatype Index = Index(name: string, kind: IndexKind, columns: seq<string>, covering: seq<string>)

  datatype Table = Table(name: string, columns: seq<Column>, key: seq<string>, indexes: seq<Index>)

  function ColumnNames(columns: seq<Column>): (names: seq<string>)
    ensures |names| == |columns|
  {
    seq(|columns|, i requires 0 <= i < |columns| => columns[i].name)
  }

  function IndexNames(indexes: seq<Index>): (names: seq<string>)
    ensures |names| == |indexes|
  {
    seq(|indexes|, i requires 0 <= i < |indexes| => indexes[i].name)
  }

  function TableNames(tables: seq<Table>): (names: seq<string>)
    ensures |names| == |tables|
  {
    seq(|tables|, i requires 0 <= i < |tables| => tables[i].name)
  }

  /** The first place of a name: catalogTableIndex, catalogColumnIndex and catalogIndexPosition. */
  function Position(names: seq<string>, name: string): Option<nat> {
    if names == [] then None
    else if names[0] == name then Some(0)
    else match Position(names[1..], name) case None => None case Some(i) => Some(i + 1)
  }

  lemma {:induction false} PositionIsFirst(names: seq<string>, name: string)
    ensures Position(names, name).None? <==> name !in names
    ensures Position(names, name).Some? ==>
              var i := Position(names, name).value;
              i < |names| && names[i] == name && name !in names[..i]
  {
    if names != [] && names[0] != name {
      PositionIsFirst(names[1..], name);
      assert names == [names[0]] + names[1..];
      if Position(names, name).Some? {
        var i := Position(names, name).value;
        assert names[..i] == [names[0]] + names[1..][..i - 1];
      }
    }
  }

  // ---------------------------------------------------------------- statements

  /** A column definition; `literal` says that it has a literal name and type. */
  datatype ColumnSchema = ColumnSchema(literal: bool, name: string, typeText: string, notNull: bool)

  /** An index definition; `supported` says GLOBAL SYNC or ASYNC without settings. */
  datatype IndexSchema = IndexSchema(supported: bool, index: Index)

  datatype Entry =
    | ColumnEntry(column: ColumnSchema)
    | KeyEntry(first: string, others: seq<string>) // the grammar asks for at least one key column
    | IndexEntry(index: IndexSchema)
    | OtherEntry

  datatype Action =
    | AddIndex(index: IndexSchema)
    | DropIndex(name: string)
    | AddColumn(column: ColumnSchema)
    | DropColumn(name: string)
    | DropNotNull(name: string)
    | Rename(name: string)
    | OtherAction

  /** Table names are resolved paths; "" is a name that could not be resolved. */
  datatype Statement =
    | CreateTable(supported: bool, resolvable: bool, ifNotExists: bool, name: string, entries: seq<Entry>)
    | AlterTable(name: string, actions: seq<Action>)
    | DropTable(supported: bool, ifExists: bool, name: string)
    | OtherStatement

  // ---------------------------------------------------------------- columns and indexes

  /** serialTypes. */
  function SerialKind(lower: string): Option<Kind> {
    match lower
    case "smallserial" => Some(Int16)
    case "serial2" => Some(Int16)
    case "serial" => Some(Int32)
    case "serial4" => Some(Int32)
    case "serial8" => Some(Int64)
    case "bigserial" => Some(Int64)
    case _ => None
  }

  /** catalogColumn: serial types are never Optional, other types are unless NOT NULL is written. */
  function CatalogColumn(table: string, c: ColumnSchema): Result<Column> {
    if !c.literal then Err
    else
      match SerialKind(Lower(c.typeText))
      case Some(kind) => Ok(Column(c.name, Plain(kind), table, true))
      case None =>
        match ParseType(c.typeText)
        case Err => Err
        case Ok(t) => Ok(Column(c.name, if !c.notNull && !IsOptional(t) then OptionalOf(t) else t, table, false))
  }

  /** validateTableIndex, one column group: every name is a column of the table, none is repeated or excluded. */
  predicate GroupAccepted(t: Table, group: seq<string>, excluded: seq<string>) {
    && NoRepeats(group)
    && forall name <- group :: name in ColumnNames(t.columns) && name !in excluded
  }

  predicate NoRepeats(names: seq<string>) {
    forall i, j | 0 <= i < j < |names| :: names[i] != names[j]
  }

  predicate IndexAccepted(t: Table, index: Index) {
    index.name != "" && GroupAccepted(t, index.columns, []) && GroupAccepted(t, index.covering, index.columns + t.key)
  }

  // ---------------------------------------------------------------- CREATE TABLE

  /** What the first loop over the entries has collected; `failed` says that a diagnostic was reported. */
  datatype Draft = Draft(columns: seq<Column>, key: seq<string>, declarations: nat, failed: bool)

  function AddKey(d: Draft, name: string): Draft {
    if name in d.key then d.(failed := true) else d.(key := d.key + [name])
  }

  function AddKeys(d: Draft, names: seq<string>): Draft
    decreases |names|
  {
    if names == [] then d else AddKeys(AddKey(d, names[0]), names[1..])
  }

  function AddColumnTo(table: string, d: Draft, schema: ColumnSchema): Draft {
    match CatalogColumn(table, schema)
    case Err => d.(failed := true)
    case Ok(c) => if c.name in ColumnNames(d.columns) then d.(failed := true) else d.(columns := d.columns + [c])
  }

  function AddEntry(table: string, d: Draft, e: Entry): Draft {
    match e
    case IndexEntry(_) => d
    case ColumnEntry(schema) => AddColumnTo(table, d, schema)
    case KeyEntry(first, others) => AddKeys(d.(declarations := d.declarations + 1), [first] + others)
    case OtherEntry => d.(failed := true)
  }

  function AddEntries(table: string, d: Draft, entries: seq<Entry>): Draft
    decreases |entries|
  {
    if entries == [] then d else AddEntries(table, AddEntry(table, d, entries[0]), entries[1..])
  }

  /** The checks between the two loops. */
  predicate DraftAccepted(d: Draft) {
    && !d.failed && d.columns != [] && d.declarations == 1
    && (forall name <- d.key :: name in ColumnNames(d.columns))
    && (forall c <- d.columns :: c.sequence ==> c.name in d.key)
  }

  function AddIndexTo(t: Table, schema: IndexSchema): Result<Table> {
    if !schema.supported || !IndexAccepted(t, schema.index) || schema.index.name in IndexNames(t.indexes) then Err
    else Ok(t.(indexes := t.indexes + [schema.index]))
  }

  /** The second loop: indexes see all columns, wherever they were declared. */
  function AddIndexes(t: Table, entries: seq<Entry>): Result<Table>
    decreases |entries|
  {
    if entries == [] then Ok(t)
    else if !entries[0].IndexEntry? then AddIndexes(t, entries[1..])
    else
      match AddIndexTo(t, entries[0].index)
      case Err => Err
      case Ok(next) => AddIndexes(next, entries[1..])
  }

  function CatalogTable(name: string, entries: seq<Entry>): Result<Table> {
    var d := AddEntries(name, Draft([], [], 0, false), entries);
    if !DraftAccepted(d) then Err else AddIndexes(Table(name, d.columns, d.key, []), entries)
  }

  // ---------------------------------------------------------------- ALTER TABLE

  predicate UsesColumn(index: Index, name: string) {
    name in index.columns || name in index.covering
  }

  /** No column is left out of an index or of the key by dropping `name`. */
  predicate IsFree(t: Table, name: string) {
    name !in t.key && forall index <- t.indexes :: !UsesColumn(index, name)
  }

  function ApplyAddColumn(t: Table, schema: ColumnSchema): Result<Table> {
    match CatalogColumn(t.name, schema)
    case Err => Err
    case Ok(c) =>
      if c.name in ColumnNames(t.columns) || c.sequence then Err else Ok(t.(columns := t.columns + [c]))
  }

  function ApplyDropColumn(t: Table, name: string): Result<Table> {
    PositionIsFirst(ColumnNames(t.columns), name);
    match Position(ColumnNames(t.columns), name)
    case None => Err
    case Some(i) => if IsFree(t, name) then Ok(t.(columns := Without(t.columns, i))) else Err
  }

  function ApplyDropIndex(t: Table, name: string): Result<Table> {
    PositionIsFirst(IndexNames(t.indexes), name);
    match Position(IndexNames(t.indexes), name)
    case None => Err
    case Some(i) => Ok(t.(indexes := Without(t.indexes, i)))
  }

  function Relaxed(c: Column): Column {
    if IsOptional(c.typ) then c else c.(typ := OptionalOf(c.typ))
  }

  function ApplyDropNotNull(t: Table, name: string): Result<Table> {
    PositionIsFirst(ColumnNames(t.columns), name);
    match Position(ColumnNames(t.columns), name)
    case None => Err
    case Some(i) => Ok(t.(columns := t.columns[i := Relaxed(t.columns[i])]))
  }

  function Moved(columns: seq<Column>, table: string): (moved: seq<Column>)
    ensures |moved| == |columns|
  {
    seq(|columns|, i requires 0 <= i < |columns| => columns[i].(table := table))
  }

  /** The new name may only be taken by the table itself. */
  function ApplyRename(tables: seq<Table>, at: nat, t: Table, name: string): Result<Table> {
    var taken := Position(TableNames(tables), name);
    if taken.Some? && taken.value != at then Err else Ok(t.(name := name, columns := Moved(t.columns, name)))
  }

  /** applyAlterTableAction on the working copy of table `at`. */
  function ApplyAction(tables: seq<Table>, at: nat, t: Table, action: Action): Result<Table> {
    match action
    case AddIndex(schema) => AddIndexTo(t, schema)
    case DropIndex(name) => ApplyDropIndex(t, name)
    case AddColumn(schema) => ApplyAddColumn(t, schema)
    case DropColumn(name) => ApplyDropColumn(t, name)
    case DropNotNull(name) => ApplyDropNotNull(t, name)
    case Rename(name) => ApplyRename(tables, at, t, name)
    case OtherAction => Err
  }

  function ApplyActions(tables: seq<Table>, at: nat, t: Table, actions: seq<Action>): Result<Table>
    decreases |actions|
  {
    if actions == [] then Ok(t)
    else
      match ApplyAction(tables, at, t, actions[0])
      case Err => Err
      case Ok(next) => ApplyActions(tables, at, next, actions[1..])
  }

  predicate HasRename(actions: seq<Action>) {
    exists a <- actions :: a.Rename?
  }

  // ---------------------------------------------------------------- statements

  /** Err is a reported diagnostic. */
  function ApplyCreate(tables: seq<Table>, s: Statement): Result<seq<Table>>
    requires s.CreateTable?
  {
    if !s.supported then Err
    else if s.name != "" && s.name in TableNames(tables) then if s.ifNotExists then Ok(tables) else Err
    else if !s.resolvable then Err
    else match CatalogTable(s.name, s.entries) case Err => Err case Ok(t) => Ok(tables + [t])
  }

  function ApplyDrop(tables: seq<Table>, s: Statement): Result<seq<Table>>
    requires s.DropTable?
  {
    PositionIsFirst(TableNames(tables), s.name);
    if !s.supported || s.name == "" then Err
    else
      match Position(TableNames(tables), s.name)
      case None => if s.ifExists then Ok(tables) else Err
      case Some(i) => Ok(Without(tables, i))
  }

  function ApplyAlter(tables: seq<Table>, s: Statement): Result<seq<Table>>
    requires s.AlterTable?
  {
    PositionIsFirst(TableNames(tables), s.name);
    match Position(TableNames(tables), s.name)
    case None => Err
    case Some(i) =>
      if s.name == "" || (|s.actions| > 1 && HasRename(s.actions)) then Err
      else
        match ApplyActions(tables, i, tables[i], s.actions)
        case Err => Err
        case Ok(t) => Ok(tables[i := t])
  }

  function Apply(tables: seq<Table>, s: Statement): Result<seq<Table>> {
    match s
    case CreateTable(_, _, _, _, _) => ApplyCreate(tables, s)
    case AlterTable(_, _) => ApplyAlter(tables, s)
    case DropTable(_, _, _) => ApplyDrop(tables, s)
    case OtherStatement => Err
  }

  /** buildCatalog goes on with the next statement after a diagnostic. */
  function Replay(tables: seq<Table>, statements: seq<Statement>): seq<Table>
    decreases |statements|
  {
    if statements == [] then tables
    else
      match Apply(tables, statements[0])
      case Err => Replay(tables, statements[1..])
      case Ok(next) => Replay(next, statements[1..])
  }

  // ---------------------------------------------------------------- what every run keeps

  predicate ColumnSound(t: Table, c: Column) {
    && c.table == t.name
    && (c.sequence ==> c.name in t.key)
    && Readable(c.typ)
  }

  predicate IndexesSound(t: Table) {
    NoRepeats(IndexNames(t.indexes)) && forall index <- t.indexes :: IndexAccepted(t, index)
  }

  predicate ColumnsSound(t: Table) {
    && t.columns != []
    && NoRepeats(ColumnNames(t.columns))
    && forall c <- t.columns :: ColumnSound(t, c)
  }

  predicate KeySound(t: Table) {
    && t.key != [] && NoRepeats(t.key)
    && forall name <- t.key :: name in ColumnNames(t.columns)
  }

  /**
   * Column names are distinct, every column knows its table, the key names distinct columns, serial columns are in the
   * key, and every index names distinct columns that cover nothing twice.
   */
  predicate TableSound(t: Table) {
    ColumnsSound(t) && KeySound(t) && IndexesSound(t)
  }

  /** Only resolved names have to be unique. */
  predicate UniqueNames(names: seq<string>) {
    forall i, j | 0 <= i < j < |names| :: names[i] != "" ==> names[i] != names[j]
  }

  predicate CatalogSound(tables: seq<Table>) {
    UniqueNames(TableNames(tables)) && forall t <- tables :: TableSound(t)
  }
}
