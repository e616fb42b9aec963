/** The columns of a result set. */
module ResultColumns {
  import opened Types

  /** A result column; its key in a result row is its wire name where it has one. */
  datatype ResultColumn = ResultColumn(name: string, wireName: string, typ: Type)

  function ResultName(c: ResultColumn): string {
    if c.wireName != "" then c.wireName else c.name
  }
}
