/** The scalar expressions the analyzer types, and the environments lambdas capture. */
module Expressions {
  import opened Wrappers
  import opened Types

  datatype Literal =
    | NullLiteral
    | BoolLiteral(flag: bool)
    | TextLiteral(kind: Kind, text: string)
    | IntegerLiteral(number: nat, suffix: Option<Kind>)
    | RealLiteral(kind: Kind, fraction: real)

  datatype ArithmeticOp = Plus | Minus | Times | UnsupportedOp

  datatype LogicOp = And | Or | Xor | Not

  datatype CompareOp = Equals | NotEquals | Less | AtMost | Greater | AtLeast | DistinctFrom | NotDistinctFrom

  /** An n-ary form lists its operands in written order, as the grammar rules do. */
  datatype Expr =
    | Lit(literal: Literal)
    | Bind(name: string)
    | Column(qualifier: string, name: string)
    | Arithmetic(operands: seq<Expr>, ops: seq<ArithmeticOp>)
    | Logic(op: LogicOp, operands: seq<Expr>)
    | Concat(operands: seq<Expr>)
    | Compare(operands: seq<Expr>, comparisons: seq<CompareOp>)
    | NullCheck(operand: Expr, negated: bool)
    | InValues(left: Expr, values: seq<Expr>)
    | InList(left: Expr, list: Expr)
    | Case(selector: Option<Expr>, conditions: seq<Expr>, results: seq<Expr>, otherwise: Expr)
    | If(arguments: seq<Expr>)
    | Coalesce(arguments: seq<Expr>)
    | AsStruct(names: seq<string>, values: seq<Expr>)
    | AsList(values: seq<Expr>)
    | ListCreate(item: Type)
    | Member(base: Expr, path: seq<string>)
    | ListApply(filter: bool, list: Expr, callback: Callback) // ListMap, ListFilter
    | Invoke(name: string, arguments: seq<Expr>) // $name(...)

  datatype Callback = Inline(lambda: Lambda) | Named(name: string)

  datatype Local = Local(name: string, value: Expr)

  datatype Lambda = Lambda(parameters: seq<string>, locals: seq<Local>, result: Expr)

  // ---------------------------------------------------------------- captured environments

  /** A lambda together with the names visible where it was written; V is Type when typing, Value when evaluating. */
  datatype Captured<V> = Captured(lambda: Lambda, bindings: map<string, V>, lambdas: Lambdas<V>)

  datatype Lambdas<V> = Lambdas(table: map<string, Captured<V>>)

  function Without<V>(lambdas: Lambdas<V>, names: set<string>): Lambdas<V> {
    Lambdas(lambdas.table - names)
  }

  /** How many environments are captured inside one another. */
  ghost function Depth<V>(lambdas: Lambdas<V>): nat
    decreases lambdas, 1
  {
    DepthOver(lambdas, lambdas.table.Keys)
  }

  ghost function DepthOver<V>(lambdas: Lambdas<V>, names: set<string>): nat
    requires names <= lambdas.table.Keys
    decreases lambdas, 0, names
  {
    if names == {} then 0
    else
      var name :| name in names;
      var inner, others := 1 + Depth(lambdas.table[name].lambdas), DepthOver(lambdas, names - {name});
      if inner > others then inner else others
  }

  lemma {:induction false} DepthIsBound<V>(lambdas: Lambdas<V>, names: set<string>, name: string)
    requires names <= lambdas.table.Keys && name in names
    ensures Depth(lambdas.table[name].lambdas) < DepthOver(lambdas, names)
    decreases names
  {
    var first :| first in names && DepthOver(lambdas, names) ==
      var inner, others := 1 + Depth(lambdas.table[first].lambdas), DepthOver(lambdas, names - {first});
      if inner > others then inner else others;
    if name != first {
      DepthIsBound(lambdas, names - {first}, name);
    }
  }

  lemma {:induction false} DepthIsLeast<V>(lambdas: Lambdas<V>, names: set<string>, bound: nat)
    requires names <= lambdas.table.Keys
    requires forall name <- names :: Depth(lambdas.table[name].lambdas) < bound
    ensures DepthOver(lambdas, names) <= bound
    decreases names
  {
    if names != {} {
      var first :| first in names && DepthOver(lambdas, names) ==
        var inner, others := 1 + Depth(lambdas.table[first].lambdas), DepthOver(lambdas, names - {first});
        if inner > others then inner else others;
      DepthIsLeast(lambdas, names - {first}, bound);
    }
  }

  /** Calling a captured lambda moves to a strictly shallower environment. */
  lemma CapturedIsShallower<V>(lambdas: Lambdas<V>, name: string)
    requires name in lambdas.table
    ensures Depth(lambdas.table[name].lambdas) < Depth(lambdas)
  {
    DepthIsBound(lambdas, lambdas.table.Keys, name);
  }

  /** Shadowing names never deepens an environment. */
  lemma ShadowingIsNotDeeper<V>(lambdas: Lambdas<V>, names: set<string>)
    ensures Depth(Without(lambdas, names)) <= Depth(lambdas)
  {
    var rest := Without(lambdas, names);
    forall name | name in rest.table ensures Depth(rest.table[name].lambdas) < Depth(lambdas) {
      CapturedIsShallower(lambdas, name);
    }
    DepthIsLeast(rest, rest.table.Keys, Depth(lambdas));
  }

  // ---------------------------------------------------------------- sources of columns

  datatype ColumnType = ColumnType(name: string, typ: Type)

  datatype Relation = Relation(alias: string, columns: seq<ColumnType>, optional: bool, grouping: bool)
}
