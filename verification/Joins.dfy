/** Which relations of a join chain may be padded with NULLs (selectRelations), against the meaning of the joins. */
module Joins {
  import opened Wrappers
  import opened Types
  import opened Expressions
  import opened Resolver
  import opened Comparisons
  import opened Evaluation
  import opened Conformance
  import opened Soundness

  datatype JoinOp = Inner | Cross | Left | Right | Full

  /** The rows of one relation. */
  type Table = seq<map<string, Value>>

  /** A relation joined to everything on its left; `on` sees the combined row so far and the new row. */
  datatype Join = Join(op: JoinOp, table: Table, on: (Row, map<string, Value>) -> bool)

  // ---------------------------------------------------------------- the flags

  /** The marks after a chain: the loop of selectRelations, one relation per join after the first. */
  function Marks(ops: seq<JoinOp>): (marks: seq<bool>)
    ensures |marks| == |ops| + 1
  {
    if ops == [] then [false]
    else
      var n := |ops| - 1;
      var before := Marks(ops[..n]);
      match ops[n]
      case Left => before + [true]
      case Right => AllTrue(|before|) + [false]
      case Full => AllTrue(|before|) + [true]
      case _ => before + [false]
  }

  function AllTrue(n: nat): (marks: seq<bool>)
    ensures |marks| == n && forall i | 0 <= i < n :: marks[i]
  {
    if n == 0 then [] else AllTrue(n - 1) + [true]
  }

  /** The marks after one more join. */
  lemma MarksNext(ops: seq<JoinOp>, i: nat)
    requires i < |ops|
    ensures Marks(ops[..i + 1]) ==
            match ops[i]
            case Left => Marks(ops[..i]) + [true]
            case Right => AllTrue(i + 1) + [false]
            case Full => AllTrue(i + 1) + [true]
            case _ => Marks(ops[..i]) + [false]
  {
    assert ops[..i + 1][..i] == ops[..i];
  }

  /** The loops of RIGHT and FULL: everything joined so far may be padded. */
  method MarkRange(optional: array<bool>, from: nat, to: nat)
    requires from <= to <= optional.Length
    modifies optional
    ensures forall k | 0 <= k < optional.Length :: optional[k] == (from <= k < to || old(optional[k]))
  {
    for j := from to to
      invariant forall k | 0 <= k < optional.Length :: optional[k] == (from <= k < j || old(optional[k]))
    {
      optional[j] := true;
    }
  }

  /** Marks one join source in place, from `base` on; relations of earlier join sources keep their marks. */
  method MarkOptional(optional: array<bool>, base: nat, ops: seq<JoinOp>)
    requires base + |ops| + 1 == optional.Length
    requires forall i | base <= i < optional.Length :: !optional[i]
    modifies optional
    ensures optional[base..] == Marks(ops)
    ensures optional[..base] == old(optional[..base])
  {
    for i := 0 to |ops|
      invariant forall k | 0 <= k <= i :: optional[base + k] == Marks(ops[..i])[k]
      invariant forall j | base + i < j < optional.Length :: !optional[j]
      invariant forall k | 0 <= k < base :: optional[k] == old(optional[k])
    {
      MarksNext(ops, i);
      var last := base + i + 1;
      match ops[i] {
        case Left => optional[last] := true;
        case Right => MarkRange(optional, base, last);
        case Full => MarkRange(optional, base, last + 1);
        case _ =>
      }
    }
    assert ops[..|ops|] == ops;
  }

  // ---------------------------------------------------------------- the meaning of a join chain

  predicate AllPadded(row: Row) {
    forall i | 0 <= i < |row| :: row[i].None?
  }

  /** The rows a left-deep chain delivers: matched pairs, and the unmatched rows an outer join keeps. */
  ghost predicate Delivers(first: Table, joins: seq<Join>, row: Row)
    decreases |joins|, 0
  {
    if joins == [] then |row| == 1 && row[0].Some? && row[0].value in first
    else
      var n := |joins| - 1;
      |row| == n + 2 && Extends(first, joins[..n], joins[n], row[..n + 1], row[n + 1])
  }

  ghost predicate Extends(first: Table, joins: seq<Join>, join: Join, left: Row, right: Option<map<string, Value>>)
    decreases |joins|, 1
  {
    || (Delivers(first, joins, left) && right.Some? && right.value in join.table && Matches(join, left, right.value))
    || (KeepsLeft(join.op) && Delivers(first, joins, left) && right.None?
        && forall r <- join.table :: !Matches(join, left, r))
    || (KeepsRight(join.op) && |left| == |joins| + 1 && AllPadded(left) && right.Some? && right.value in join.table
        && forall l: Row | Delivers(first, joins, l) :: !Matches(join, l, right.value))
  }

  predicate Matches(join: Join, left: Row, right: map<string, Value>) {
    join.op == Cross || join.on(left, right)
  }

  predicate KeepsLeft(op: JoinOp) {
    op == Left || op == Full
  }

  predicate KeepsRight(op: JoinOp) {
    op == Right || op == Full
  }

  function Ops(joins: seq<Join>): (ops: seq<JoinOp>)
    ensures |ops| == |joins|
  {
    seq(|joins|, i requires 0 <= i < |joins| => joins[i].op)
  }

  /** Sound: a relation that is not marked optional is never padded, in any row of any data. */
  lemma {:induction false} UnmarkedIsNeverPadded(first: Table, joins: seq<Join>, row: Row, i: nat)
    requires Delivers(first, joins, row) && i < |row| && row[i].None?
    ensures i < |Marks(Ops(joins))| && Marks(Ops(joins))[i]
    decreases |joins|
  {
    if joins != [] {
      var n := |joins| - 1;
      assert Ops(joins)[..n] == Ops(joins[..n]);
      if Delivers(first, joins[..n], row[..n + 1]) && i <= n {
        UnmarkedIsNeverPadded(first, joins[..n], row[..n + 1], i);
      }
    }
  }

  // ---------------------------------------------------------------- the marks are exact

  /** One empty row per relation; every condition holds, except those of the k-th join. */
  function Witness(ops: seq<JoinOp>, k: nat): (joins: seq<Join>)
    ensures |joins| == |ops|
  {
    seq(|ops|, i requires 0 <= i < |ops| => Join(ops[i], [map[]], (_, _) => i != k))
  }

  function Present(n: nat): (row: Row)
    ensures |row| == n && forall i | 0 <= i < n :: row[i] == Some(map[])
  {
    seq(n, _ => Some(map[]))
  }

  function Padded(n: nat): (row: Row)
    ensures |row| == n && AllPadded(row)
  {
    seq(n, _ => None)
  }

  /** Exact: a marked relation is padded in some row of some data. */
  lemma MarkedCanBePadded(ops: seq<JoinOp>, i: nat) returns (joins: seq<Join>, row: Row)
    requires i <= |ops| && Marks(ops)[i]
    ensures Ops(joins) == ops && Delivers([map[]], joins, row) && i < |row| && row[i].None?
  {
    var k := MarkingJoin(ops, i);
    joins := Witness(ops, k);
    assert Ops(joins) == ops;
    row := PaddedRow(ops, k, i, |ops|);
    assert joins[..|ops|] == joins;
  }

  /** The join that marked a relation: an outer join that introduces it or one to its right that keeps right rows. */
  lemma {:induction false} MarkingJoin(ops: seq<JoinOp>, i: nat) returns (k: nat)
    requires i <= |ops| && Marks(ops)[i]
    ensures k < |ops| && ((i == k + 1 && KeepsLeft(ops[k])) || (i <= k && KeepsRight(ops[k])))
  {
    var n := |ops| - 1;
    if i <= n && !KeepsRight(ops[n]) {
      k := MarkingJoin(ops[..n], i);
    } else {
      k := n;
    }
  }

  /** Before join k every relation is present; join k pads relation i; later joins keep that row. */
  lemma {:induction false} PaddedRow(ops: seq<JoinOp>, k: nat, i: nat, n: nat) returns (row: Row)
    requires k < n <= |ops| && ((i == k + 1 && KeepsLeft(ops[k])) || (i <= k && KeepsRight(ops[k])))
    ensures Delivers([map[]], Witness(ops, k)[..n], row) && i < |row| && row[i].None?
    decreases n
  {
    var joins := Witness(ops, k);
    assert joins[..n][..n - 1] == joins[..n - 1];
    if n == k + 1 {
      PresentRow(ops, k, k);
      var left := Present(k + 1);
      if i == k + 1 {
        row := left + [None];
        assert row[..k + 1] == left;
      } else {
        row := Padded(k + 1) + [Some(map[])];
        assert row[..k + 1] == Padded(k + 1);
      }
    } else {
      var before := PaddedRow(ops, k, i, n - 1);
      row := before + [Some(map[])];
      assert row[..n] == before;
    }
  }

  lemma {:induction false} PresentRow(ops: seq<JoinOp>, k: nat, n: nat)
    requires n <= k < |ops|
    ensures Delivers([map[]], Witness(ops, k)[..n], Present(n + 1))
  {
    var joins := Witness(ops, k);
    if n > 0 {
      assert joins[..n][..n - 1] == joins[..n - 1];
      PresentRow(ops, k, n - 1);
      assert Present(n + 1)[..n] == Present(n);
    }
  }

  // ---------------------------------------------------------------- expressions over joined rows

  function TableAt(first: Table, joins: seq<Join>, i: nat): Table
    requires i <= |joins|
  {
    if i == 0 then first else joins[i - 1].table
  }

  lemma {:induction false} PresentRowsComeFromTables(first: Table, joins: seq<Join>, row: Row, i: nat)
    requires Delivers(first, joins, row) && i < |row| && row[i].Some?
    ensures |row| == |joins| + 1 && row[i].value in TableAt(first, joins, i)
    decreases |joins|
  {
    if joins != [] {
      var n := |joins| - 1;
      if i <= n {
        assert row[..n + 1][i] == row[i];
        assert Delivers(first, joins[..n], row[..n + 1]);
        PresentRowsComeFromTables(first, joins[..n], row[..n + 1], i);
        assert i > 0 ==> joins[..n][i - 1] == joins[i - 1];
      }
    }
  }

  /** The relations of a chain, marked as selectRelations marks them, over tables that hold what they declare. */
  ghost predicate Describes(relations: seq<Relation>, first: Table, joins: seq<Join>) {
    && |relations| == |joins| + 1
    && forall i | 0 <= i < |relations| ::
         && !relations[i].grouping
         && relations[i].optional == Marks(Ops(joins))[i]
         && forall r <- TableAt(first, joins, i) :: ColumnsConform(relations[i].columns, r)
  }

  lemma JoinedRowsConform(relations: seq<Relation>, first: Table, joins: seq<Join>, row: Row)
    requires Describes(relations, first, joins) && Delivers(first, joins, row)
    ensures RowConforms(relations, row)
  {
    hide ColumnsConform, Marks;
    DeliveredWidth(first, joins, row);
    forall i | 0 <= i < |row|
      ensures if row[i].None? then relations[i].optional && !relations[i].grouping
              else ColumnsConform(relations[i].columns, row[i].value)
    {
      if row[i].None? {
        UnmarkedIsNeverPadded(first, joins, row, i);
      } else {
        PresentRowsComeFromTables(first, joins, row, i);
      }
    }
  }

  lemma DeliveredWidth(first: Table, joins: seq<Join>, row: Row)
    requires Delivers(first, joins, row)
    ensures |row| == |joins| + 1
  {
  }

  // ---------------------------------------------------------------- several join sources, and GROUP BY aliases

  datatype Chain = Chain(first: Table, joins: seq<Join>)

  /** The rows of comma-separated join sources: every combination of their rows. */
  ghost predicate DeliversAll(chains: seq<Chain>, row: Row)
    decreases |chains|
  {
    if chains == [] then row == []
    else
      var n := |chains[0].joins| + 1;
      n <= |row| && Delivers(chains[0].first, chains[0].joins, row[..n]) && DeliversAll(chains[1..], row[n..])
  }

  ghost predicate DescribesAll(relations: seq<Relation>, chains: seq<Chain>)
    decreases |chains|
  {
    if chains == [] then relations == []
    else
      var n := |chains[0].joins| + 1;
      n <= |relations| && Describes(relations[..n], chains[0].first, chains[0].joins) && DescribesAll(relations[n..], chains[1..])
  }

  lemma {:induction false} AllRowsConform(relations: seq<Relation>, chains: seq<Chain>, row: Row)
    requires DescribesAll(relations, chains) && DeliversAll(chains, row)
    ensures RowConforms(relations, row)
    decreases |chains|
  {
    hide Describes, Delivers, ColumnsConform;
    if chains != [] {
      var n := |chains[0].joins| + 1;
      JoinedRowsConform(relations[..n], chains[0].first, chains[0].joins, row[..n]);
      AllRowsConform(relations[n..], chains[1..], row[n..]);
      RowsConformTogether(relations, row, n);
    }
  }

  lemma RowsConformTogether(relations: seq<Relation>, row: Row, n: nat)
    requires n <= |relations| && n <= |row|
    requires RowConforms(relations[..n], row[..n]) && RowConforms(relations[n..], row[n..])
    ensures RowConforms(relations, row)
  {
    hide ColumnsConform;
    assert |relations[n..]| == |row[n..]|;
    forall i | 0 <= i < |row|
      ensures if row[i].None? then relations[i].optional && !relations[i].grouping
              else ColumnsConform(relations[i].columns, row[i].value)
    {
      if i < n {
        assert row[..n][i] == row[i] && relations[..n][i] == relations[i];
      } else {
        assert row[n..][i - n] == row[i] && relations[n..][i - n] == relations[i];
      }
    }
  }

  /** Relations of GROUP BY aliases, which always have a row. */
  ghost predicate AliasesConform(relations: seq<Relation>, row: Row) {
    |row| == |relations|
    && forall i | 0 <= i < |row| ::
         relations[i].grouping && row[i].Some? && ColumnsConform(relations[i].columns, row[i].value)
  }

  /**
   * Over every row that the join sources deliver, with the aliases of GROUP BY behind them, a settled expression typed
   * neither Optional nor Null is not NULL.
   */
  lemma JoinedNullabilitySound(order: Order, e: Expr, scope: Scope, env: Environment, chains: seq<Chain>, sources: nat)
    requires Decided(order) && Settled(e, scope) && Resolve(e, scope).Ok?
    requires sources <= |scope.relations| && sources <= |env.row| && env.relations == scope.relations
    requires DescribesAll(scope.relations[..sources], chains) && DeliversAll(chains, env.row[..sources])
    requires AliasesConform(scope.relations[sources..], env.row[sources..])
    requires BindingsConform(scope.bindings, env.bindings) && LambdasConform(scope.lambdas, env.lambdas)
    ensures Evaluate(order, e, env).Some?
    ensures var t := Resolve(e, scope).value;
            !IsOptional(t) && t.kind != Null ==> Evaluate(order, e, env).value != Missing
  {
    hide Resolve, Evaluate, DeliversAll, DescribesAll, Decided, BindingsConform, LambdasConform, Settled, ColumnsConform;
    AllRowsConform(scope.relations[..sources], chains, env.row[..sources]);
    assert RowConforms(scope.relations[sources..], env.row[sources..]);
    RowsConformTogether(scope.relations, env.row, sources);
    NullabilitySound(order, e, scope, env);
  }
}
