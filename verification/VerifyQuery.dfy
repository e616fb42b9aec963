/** The check that a proposed query keeps the interface of the old one (internal/cli/verify.go). */
module VerifyQuery {
  import opened Wrappers
  import opened ResultColumns
  import opened Types

  datatype ResultSet = ResultSet(name: string, columns: seq<ResultColumn>)

  /** A parameter is a name with a type, like a Struct member. */
  datatype Query = Query(name: string, command: string, parameters: seq<Field>, results: seq<ResultSet>)

  predicate SameResultColumn(c: ResultColumn, other: ResultColumn) {
    ResultName(c) == ResultName(other) && Equal(c.typ, other.typ)
  }

  predicate SameResultSet(set1: ResultSet, set2: ResultSet) {
    && set1.name == set2.name && |set1.columns| == |set2.columns|
    && forall i | 0 <= i < |set1.columns| :: SameResultColumn(set1.columns[i], set2.columns[i])
  }

  /** verifyQuery reports nothing. */
  predicate Accepted(q: Query, next: Query) {
    && q.name == next.name && q.command == next.command
    && |q.parameters| == |next.parameters| && FieldsMatch(q.parameters, FieldTable(next.parameters))
    && |q.results| == |next.results|
    && forall i | 0 <= i < |q.results| :: SameResultSet(q.results[i], next.results[i])
  }

  method CheckResultSet(set1: ResultSet, set2: ResultSet) returns (same: bool)
    ensures same == SameResultSet(set1, set2)
  {
    if set1.name != set2.name || |set1.columns| != |set2.columns| { return false; }
    for j := 0 to |set1.columns|
      invariant forall i | 0 <= i < j :: SameResultColumn(set1.columns[i], set2.columns[i])
    {
      var c, other := set1.columns[j], set2.columns[j];
      same := CheckEqual(c.typ, other.typ);
      if ResultName(c) != ResultName(other) || !same {
        assert !SameResultColumn(c, other);
        return false;
      }
    }
    same := true;
  }

  /** verifyQuery, with the parameters of the new query filled into a map first. */
  method CheckQuery(q: Query, next: Query) returns (accepted: bool)
    ensures accepted == Accepted(q, next)
  {
    if q.name != next.name || q.command != next.command || |q.parameters| != |next.parameters| { return false; }
    var parameters := FillTable(next.parameters);
    accepted := CheckFields(q.parameters, parameters);
    if !accepted || |q.results| != |next.results| { return false; }
    for i := 0 to |q.results|
      invariant forall j | 0 <= j < i :: SameResultSet(q.results[j], next.results[j])
    {
      accepted := CheckResultSet(q.results[i], next.results[i]);
      if !accepted { return; }
    }
    accepted := true;
  }

  // ---------------------------------------------------------------- what is kept

  /** What callers of the generated code see: parameters by name, result columns in order under their row keys. */
  datatype Interface = Interface(
    name: string,
    command: string,
    parameters: map<string, Shape>,
    results: seq<(string, seq<(string, Shape)>)>)

  ghost function ColumnInterface(columns: seq<ResultColumn>): seq<(string, Shape)> {
    seq(|columns|, i requires 0 <= i < |columns| => (ResultName(columns[i]), ShapeOf(columns[i].typ)))
  }

  ghost function ResultInterface(results: seq<ResultSet>): seq<(string, seq<(string, Shape)>)> {
    seq(|results|, i requires 0 <= i < |results| => (results[i].name, ColumnInterface(results[i].columns)))
  }

  ghost function InterfaceOf(q: Query): Interface {
    Interface(q.name, q.command, FieldShapes(q.parameters), ResultInterface(q.results))
  }

  predicate ColumnsDistinct(columns: seq<ResultColumn>) {
    forall i | 0 <= i < |columns| :: Distinct(columns[i].typ)
  }

  /** Parameter names are unique, and so are member names in every type. */
  predicate WellFormed(q: Query) {
    DistinctFields(q.parameters) && forall i | 0 <= i < |q.results| :: ColumnsDistinct(q.results[i].columns)
  }

  lemma SameResultSetIsSameInterface(set1: ResultSet, set2: ResultSet)
    requires ColumnsDistinct(set1.columns) && ColumnsDistinct(set2.columns)
    ensures SameResultSet(set1, set2) <==>
            set1.name == set2.name && ColumnInterface(set1.columns) == ColumnInterface(set2.columns)
  {
    hide Equal, ShapeOf, Distinct;
    var a, b := ColumnInterface(set1.columns), ColumnInterface(set2.columns);
    forall i | 0 <= i < |set1.columns| && |set1.columns| == |set2.columns|
      ensures SameResultColumn(set1.columns[i], set2.columns[i]) <==> a[i] == b[i]
    {
      EqualIsSameShape(set1.columns[i].typ, set2.columns[i].typ);
    }
  }

  lemma SameResults(results: seq<ResultSet>, others: seq<ResultSet>)
    requires |results| == |others|
    requires forall i | 0 <= i < |results| :: ColumnsDistinct(results[i].columns) && ColumnsDistinct(others[i].columns)
    ensures (forall i | 0 <= i < |results| :: SameResultSet(results[i], others[i])) <==>
            ResultInterface(results) == ResultInterface(others)
  {
    hide SameResultSet, ColumnInterface, ColumnsDistinct;
    var a, b := ResultInterface(results), ResultInterface(others);
    forall i | 0 <= i < |results| ensures SameResultSet(results[i], others[i]) <==> a[i] == b[i] {
      SameResultSetIsSameInterface(results[i], others[i]);
    }
  }

  /** A proposal is accepted exactly when no caller can tell the difference. */
  lemma AcceptedIsSameInterface(q: Query, next: Query)
    requires WellFormed(q) && WellFormed(next)
    ensures Accepted(q, next) <==> InterfaceOf(q) == InterfaceOf(next)
  {
    hide FieldsMatch, FieldShapes, SameResultSet, ResultInterface, ColumnsDistinct, DistinctFields;
    SameFields(q.parameters, next.parameters);
    ResultCount(q.results, next.results);
    if |q.results| == |next.results| {
      SameResults(q.results, next.results);
    }
  }

  lemma ResultCount(results: seq<ResultSet>, others: seq<ResultSet>)
    ensures ResultInterface(results) == ResultInterface(others) ==> |results| == |others|
  {
    assert |ResultInterface(results)| == |results| && |ResultInterface(others)| == |others|;
  }

  lemma AcceptedIsEquivalence(a: Query, b: Query, c: Query)
    requires WellFormed(a) && WellFormed(b) && WellFormed(c)
    ensures Accepted(a, a)
    ensures Accepted(a, b) ==> Accepted(b, a)
    ensures Accepted(a, b) && Accepted(b, c) ==> Accepted(a, c)
  {
    hide Accepted, WellFormed, InterfaceOf;
    AcceptedIsSameInterface(a, a);
    AcceptedIsSameInterface(a, b);
    AcceptedIsSameInterface(b, a);
    AcceptedIsSameInterface(b, c);
    AcceptedIsSameInterface(a, c);
  }
}
