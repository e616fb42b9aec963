/** YQL types as the analyzer stores them (internal/model/model.go), with the comparison every check is built on. */
module Types {
  import opened Wrappers

  /** The canonical spelling stored in Type.Kind.  `Other` holds every spelling the analyzer has no rule for. */
  datatype Kind =
    | NoKind // the zero value ""
    | Bool
    | Int8 | Int16 | Int32 | Int64 | Uint8 | Uint16 | Uint32 | Uint64
    | Float | Double
    | String | Utf8 | Yson | Json | JsonDocument | Uuid | DyNumber
    | Date | Datetime | Timestamp | Interval
    | Date32 | Datetime64 | Timestamp64 | Interval64
    | TzDate | TzDatetime | TzTimestamp | TzDate32 | TzDatetime64 | TzTimestamp64
    | Void | Null
    | Decimal
    | Optional | List | Stream | Flow | Set | Dict | Struct | Tuple | Tagged | Callable
    | Resource(name: string) // Resource<...>
    | Lambda
    | Other(name: string)

  datatype Field = Field(name: string, typ: Type)

  datatype Type = Type(
    kind: Kind,
    elem: Option<Type>,
    key: Option<Type>,
    items: seq<Type>,
    fields: seq<Field>,
    tag: string,
    precision: int,
    scale: int)

  /** A type that is nothing but its kind. */
  function Plain(kind: Kind): Type {
    Type(kind, None, None, [], [], "", 0, 0)
  }

  function OptionalOf(t: Type): Type {
    Plain(Optional).(elem := Some(t))
  }

  function ListOf(t: Type): Type {
    Plain(List).(elem := Some(t))
  }

  predicate IsOptional(t: Type) {
    t.kind == Optional
  }

  function Unwrap(t: Type): Type {
    if IsOptional(t) && t.elem.Some? then t.elem.value else t
  }

  // ---------------------------------------------------------------- equality

  /** The name-to-type table that a loop over the fields fills: a repeated name keeps its last type. */
  function FieldTable(fields: seq<Field>): map<string, Type> {
    if fields == [] then map[]
    else
      var last := fields[|fields| - 1];
      FieldTable(fields[..|fields| - 1])[last.name := last.typ]
  }

  /** Type.Equal: members of a Struct are matched by name, everything else by position. */
  predicate Equal(t: Type, o: Type) {
    && t.kind == o.kind && t.tag == o.tag && t.precision == o.precision && t.scale == o.scale
    && t.elem.Some? == o.elem.Some? && t.key.Some? == o.key.Some?
    && |t.items| == |o.items| && |t.fields| == |o.fields|
    && (t.elem.Some? ==> Equal(t.elem.value, o.elem.value))
    && (t.key.Some? ==> Equal(t.key.value, o.key.value))
    && ItemsEqual(t.items, o.items)
    && FieldsMatch(t.fields, FieldTable(o.fields))
  }

  predicate ItemsEqual(items: seq<Type>, others: seq<Type>)
    requires |items| == |others|
  {
    forall i | 0 <= i < |items| :: Equal(items[i], others[i])
  }

  predicate FieldsMatch(fields: seq<Field>, table: map<string, Type>) {
    forall i | 0 <= i < |fields| :: fields[i].name in table && Equal(fields[i].typ, table[fields[i].name])
  }

  /** The loops of Type.Equal, with the field table filled before it is searched. */
  method CheckEqual(t: Type, o: Type) returns (same: bool)
    ensures same == Equal(t, o)
    decreases t, 0
  {
    if t.kind != o.kind || t.tag != o.tag || t.precision != o.precision || t.scale != o.scale {
      return false;
    }
    if t.elem.Some? != o.elem.Some? || t.key.Some? != o.key.Some? || |t.items| != |o.items| || |t.fields| != |o.fields| {
      return false;
    }
    if t.elem.Some? {
      same := CheckEqual(t.elem.value, o.elem.value);
      if !same { return; }
    }
    if t.key.Some? {
      same := CheckEqual(t.key.value, o.key.value);
      if !same { return; }
    }
    same := CheckItems(t.items, o.items);
    if !same { return; }
    var table := FillTable(o.fields);
    same := CheckFields(t.fields, table);
  }

  method CheckItems(items: seq<Type>, others: seq<Type>) returns (same: bool)
    requires |items| == |others|
    ensures same == ItemsEqual(items, others)
    decreases items, 0
  {
    for i := 0 to |items|
      invariant forall j | 0 <= j < i :: Equal(items[j], others[j])
    {
      same := CheckEqual(items[i], others[i]);
      if !same { return; }
    }
    return true;
  }

  method FillTable(fields: seq<Field>) returns (table: map<string, Type>)
    ensures table == FieldTable(fields)
  {
    table := map[];
    for i := 0 to |fields|
      invariant table == FieldTable(fields[..i])
    {
      assert fields[..i + 1][..i] == fields[..i];
      table := table[fields[i].name := fields[i].typ];
    }
    assert fields[..|fields|] == fields;
  }

  method CheckFields(fields: seq<Field>, table: map<string, Type>) returns (same: bool)
    ensures same == FieldsMatch(fields, table)
    decreases fields, 0
  {
    for i := 0 to |fields|
      invariant forall j | 0 <= j < i :: fields[j].name in table && Equal(fields[j].typ, table[fields[j].name])
    {
      if fields[i].name !in table { return false; }
      same := CheckEqual(fields[i].typ, table[fields[i].name]);
      if !same { return; }
    }
    return true;
  }

  // ---------------------------------------------------------------- what Equal means

  predicate DistinctNames(fields: seq<Field>) {
    forall i, j | 0 <= i < j < |fields| :: fields[i].name != fields[j].name
  }

  /** No Struct at any depth repeats a field name. */
  predicate Distinct(t: Type) {
    && (t.elem.Some? ==> Distinct(t.elem.value))
    && (t.key.Some? ==> Distinct(t.key.value))
    && DistinctItems(t.items)
    && DistinctFields(t.fields)
  }

  predicate DistinctItems(items: seq<Type>) {
    forall i | 0 <= i < |items| :: Distinct(items[i])
  }

  predicate DistinctFields(fields: seq<Field>) {
    DistinctNames(fields) && forall i | 0 <= i < |fields| :: Distinct(fields[i].typ)
  }

  /** A type with the order of Struct members forgotten at every depth. */
  datatype Shape = Shape(
    kind: Kind,
    elem: Option<Shape>,
    key: Option<Shape>,
    items: seq<Shape>,
    fields: map<string, Shape>,
    tag: string,
    precision: int,
    scale: int)

  ghost function ShapeOf(t: Type): Shape {
    Shape(
      t.kind,
      if t.elem.Some? then Some(ShapeOf(t.elem.value)) else None,
      if t.key.Some? then Some(ShapeOf(t.key.value)) else None,
      ItemShapes(t.items),
      FieldShapes(t.fields),
      t.tag, t.precision, t.scale)
  }

  ghost function FieldShapes(fields: seq<Field>): (shapes: map<string, Shape>)
    ensures shapes.Keys == FieldTable(fields).Keys
  {
    if fields == [] then map[]
    else
      var last := fields[|fields| - 1];
      FieldShapes(fields[..|fields| - 1])[last.name := ShapeOf(last.typ)]
  }

  lemma {:induction false} ShapeAt(fields: seq<Field>, name: string)
    requires name in FieldTable(fields)
    ensures FieldShapes(fields)[name] == ShapeOf(FieldTable(fields)[name])
  {
    if name != fields[|fields| - 1].name {
      ShapeAt(fields[..|fields| - 1], name);
    }
  }

  ghost function ItemShapes(items: seq<Type>): (shapes: seq<Shape>)
    ensures |shapes| == |items|
  {
    seq(|items|, i requires 0 <= i < |items| => ShapeOf(items[i]))
  }

  /** Every table entry is one of the fields. */
  lemma {:induction false} FieldIndex(fields: seq<Field>, name: string) returns (i: nat)
    requires name in FieldTable(fields)
    ensures i < |fields| && fields[i] == Field(name, FieldTable(fields)[name])
  {
    i := |fields| - 1;
    if fields[i].name != name {
      i := FieldIndex(fields[..i], name);
    }
  }

  /** Every field name has a table entry; without repeats it is the field's own type. */
  lemma {:induction false} FieldEntry(fields: seq<Field>, i: nat)
    requires i < |fields|
    ensures fields[i].name in FieldTable(fields)
    ensures DistinctNames(fields) ==> FieldTable(fields)[fields[i].name] == fields[i].typ
  {
    var n := |fields| - 1;
    if i < n {
      FieldEntry(fields[..n], i);
    }
  }

  lemma {:induction false} TableSize(fields: seq<Field>)
    requires DistinctNames(fields)
    ensures |FieldTable(fields).Keys| == |fields|
  {
    if fields != [] {
      var n := |fields| - 1;
      TableSize(fields[..n]);
      if fields[n].name in FieldTable(fields[..n]) {
        var i := FieldIndex(fields[..n], fields[n].name);
        assert false;
      }
      assert FieldTable(fields).Keys == FieldTable(fields[..n]).Keys + {fields[n].name};
    }
  }

  /** Equal holds exactly between types that differ at most in the order of Struct members, at any depth. */
  lemma {:induction false} EqualIsSameShape(t: Type, o: Type)
    requires Distinct(t) && Distinct(o)
    ensures Equal(t, o) <==> ShapeOf(t) == ShapeOf(o)
    decreases t
  {
    if t.elem.Some? && o.elem.Some? {
      EqualIsSameShape(t.elem.value, o.elem.value);
    }
    if t.key.Some? && o.key.Some? {
      EqualIsSameShape(t.key.value, o.key.value);
    }
    if |t.items| == |o.items| {
      SameItems(t.items, o.items);
    }
    SameFields(t.fields, o.fields);
  }

  lemma {:induction false} SameItems(items: seq<Type>, others: seq<Type>)
    requires |items| == |others| && DistinctItems(items) && DistinctItems(others)
    ensures ItemsEqual(items, others) <==> ItemShapes(items) == ItemShapes(others)
    decreases items
  {
    forall i | 0 <= i < |items| ensures Equal(items[i], others[i]) <==> ItemShapes(items)[i] == ItemShapes(others)[i] {
      EqualIsSameShape(items[i], others[i]);
    }
  }

  lemma {:induction false} SameFields(fields: seq<Field>, others: seq<Field>)
    requires DistinctFields(fields) && DistinctFields(others)
    ensures |fields| == |others| && FieldsMatch(fields, FieldTable(others)) <==> FieldShapes(fields) == FieldShapes(others)
    decreases fields, 2
  {
    if |fields| == |others| && FieldsMatch(fields, FieldTable(others)) {
      MatchedKeys(fields, others);
      forall name | name in FieldShapes(fields) ensures FieldShapes(fields)[name] == FieldShapes(others)[name] {
        var i := FieldIndex(fields, name);
        SameField(fields, others, i);
      }
    }
    if FieldShapes(fields) == FieldShapes(others) {
      TableSize(fields);
      TableSize(others);
      assert FieldTable(fields).Keys == FieldShapes(fields).Keys == FieldTable(others).Keys;
      forall i | 0 <= i < |fields|
        ensures fields[i].name in FieldTable(others) && Equal(fields[i].typ, FieldTable(others)[fields[i].name])
      {
        FieldEntry(fields, i);
        SameField(fields, others, i);
      }
    }
  }

  lemma {:induction false} SameField(fields: seq<Field>, others: seq<Field>, i: nat)
    requires DistinctFields(fields) && DistinctFields(others)
    requires i < |fields| && fields[i].name in FieldTable(others)
    ensures fields[i].name in FieldTable(fields)
    ensures Equal(fields[i].typ, FieldTable(others)[fields[i].name]) <==>
            FieldShapes(fields)[fields[i].name] == FieldShapes(others)[fields[i].name]
    decreases fields, 0
  {
    FieldEntry(fields, i);
    ShapeAt(fields, fields[i].name);
    ShapeAt(others, fields[i].name);
    var j := FieldIndex(others, fields[i].name);
    EqualIsSameShape(fields[i].typ, FieldTable(others)[fields[i].name]);
  }

  /** A table with as many names as there are fields means that no name is repeated. */
  lemma {:induction false} FullTableIsDistinct(fields: seq<Field>)
    ensures |FieldTable(fields).Keys| <= |fields|
    ensures |FieldTable(fields).Keys| == |fields| ==> DistinctNames(fields)
  {
    if fields != [] {
      var n := |fields| - 1;
      FullTableIsDistinct(fields[..n]);
      var keys := FieldTable(fields[..n]).Keys;
      assert FieldTable(fields).Keys == keys + {fields[n].name};
      if |FieldTable(fields).Keys| == |fields| {
        assert fields[n].name !in keys;
        forall i | 0 <= i < n ensures fields[i].name != fields[n].name {
          FieldEntry(fields[..n], i);
          assert fields[..n][i] == fields[i];
        }
        assert DistinctNames(fields[..n]);
        assert forall i | 0 <= i < n :: fields[..n][i] == fields[i];
      }
    }
  }

  lemma SubsetOfSameSize<T>(small: set<T>, large: set<T>)
    requires small <= large && |small| >= |large|
    ensures small == large
  {
    assert |large - small| == |large| - |small|;
  }

  /** Fields with distinct names can only match others with the same distinct names. */
  lemma MatchedKeys(fields: seq<Field>, others: seq<Field>)
    requires DistinctNames(fields) && |fields| == |others| && FieldsMatch(fields, FieldTable(others))
    ensures DistinctNames(others) && FieldTable(fields).Keys == FieldTable(others).Keys
  {
    hide Equal;
    TableSize(fields);
    FullTableIsDistinct(others);
    var keys, otherKeys := FieldTable(fields).Keys, FieldTable(others).Keys;
    forall name | name in keys ensures name in otherKeys {
      var i := FieldIndex(fields, name);
    }
    SubsetOfSameSize(keys, otherKeys);
  }

  lemma EqualIsEquivalence(a: Type, b: Type, c: Type)
    requires Distinct(a) && Distinct(b) && Distinct(c)
    ensures Equal(a, a)
    ensures Equal(a, b) ==> Equal(b, a)
    ensures Equal(a, b) && Equal(b, c) ==> Equal(a, c)
  {
    EqualIsSameShape(a, a);
    EqualIsSameShape(a, b);
    EqualIsSameShape(b, a);
    EqualIsSameShape(b, c);
    EqualIsSameShape(a, c);
  }

  lemma {:induction false} EqualKeepsDistinct(a: Type, b: Type)
    requires Distinct(a) && Equal(a, b)
    ensures Distinct(b)
    decreases a
  {
    if a.elem.Some? {
      EqualKeepsDistinct(a.elem.value, b.elem.value);
    }
    if a.key.Some? {
      EqualKeepsDistinct(a.key.value, b.key.value);
    }
    forall i | 0 <= i < |b.items| ensures Distinct(b.items[i]) {
      EqualKeepsDistinct(a.items[i], b.items[i]);
    }
    MatchedKeys(a.fields, b.fields);
    forall j | 0 <= j < |b.fields| ensures Distinct(b.fields[j].typ) {
      FieldEntry(b.fields, j);
      var i := FieldIndex(a.fields, b.fields[j].name);
      EqualKeepsDistinct(a.fields[i].typ, b.fields[j].typ);
    }
  }

  /** Asked about a type without repeated names, Equal is symmetric exactly as far as the other type repeats none. */
  lemma EqualIsSymmetricExactly(a: Type, b: Type)
    requires Distinct(a)
    ensures Equal(a, b) <==> Equal(b, a) && Distinct(b)
  {
    hide Equal, Distinct, ShapeOf;
    if Equal(a, b) {
      EqualKeepsDistinct(a, b);
    }
    if Distinct(b) {
      EqualIsEquivalence(a, b, a);
      EqualIsEquivalence(b, a, b);
    }
  }

  /** Distinct field names are needed: a repeated name makes Equal one-sided. */
  lemma EqualOneSidedOnRepeatedNames(x: Field, y: Field) returns (a: Type, b: Type)
    requires x.name != y.name && Equal(x.typ, x.typ)
    ensures Equal(a, b) && !Equal(b, a)
  {
    a, b := Plain(Struct).(fields := [x, x]), Plain(Struct).(fields := [x, y]);
    FieldEntry(b.fields, 0);
    assert FieldsMatch(a.fields, FieldTable(b.fields));
    if y.name in FieldTable(a.fields) {
      var i := FieldIndex(a.fields, y.name);
      assert false;
    }
    assert b.fields[1] == y;
  }
}
