/** Which values a type stands for, and how that relation follows the joins of CommonType. */
module Conformance {
  import opened Wrappers
  import opened Types
  import opened CommonTypes
  import opened Expressions
  import opened Comparisons
  import opened Evaluation

  /** Only Optional and Null types have the value NULL; integer widths and text encodings are not distinguished. */
  ghost predicate Conforms(v: Value, t: Type)
    decreases t
  {
    match t.kind
    case NoKind => false
    case Optional => v.Missing? || (t.elem.Some? && Conforms(v, t.elem.value))
    case Null => v.Missing?
    case Bool => v.Flag?
    case Int8 => v.Whole? case Int16 => v.Whole? case Int32 => v.Whole? case Int64 => v.Whole?
    case Uint8 => v.Whole? case Uint16 => v.Whole? case Uint32 => v.Whole? case Uint64 => v.Whole?
    case Float => v.Whole? || v.Fraction?
    case Double => v.Whole? || v.Fraction?
    case String => v.Text?
    case Utf8 => v.Text?
    case List => v.Items? && t.elem.Some? && forall item <- v.items :: Conforms(item, t.elem.value)
    case Struct => v.Record? && v.members.Keys == FieldTable(t.fields).Keys && FieldsConform(v.members, t.fields)
    case Tuple => v.Items? && AllConform(v.items, t.items)
    case _ => v.Opaque? && v.kind == t.kind
  }

  ghost predicate FieldsConform(members: map<string, Value>, fields: seq<Field>)
    decreases fields
  {
    forall i | 0 <= i < |fields| :: fields[i].name in members && Conforms(members[fields[i].name], fields[i].typ)
  }

  /** Values conform one by one. */
  ghost predicate AllConform(vs: seq<Value>, types: seq<Type>)
    decreases types
  {
    |vs| == |types| && forall i | 0 <= i < |vs| :: Conforms(vs[i], types[i])
  }

  lemma PresentUnlessNullable(v: Value, t: Type)
    requires Conforms(v, t) && !IsOptional(t) && t.kind != Null
    ensures !v.Missing?
  {
  }

  lemma ConformsToOptional(v: Value, t: Type, nullable: bool)
    requires Conforms(v, t) || (v.Missing? && nullable)
    ensures Conforms(v, WithOptional(t, nullable))
  {
  }

  lemma EqualParts(a: Type, b: Type)
    requires Equal(a, b)
    ensures a.kind == b.kind && |a.fields| == |b.fields| && FieldsMatch(a.fields, FieldTable(b.fields))
    ensures a.elem.Some? == b.elem.Some? && (a.elem.Some? ==> Equal(a.elem.value, b.elem.value))
    ensures |a.items| == |b.items| && ItemsEqual(a.items, b.items)
  {
  }

  lemma ValidParts(t: Type)
    requires Valid(t)
    ensures t.kind == Optional || t.kind == List ==> t.elem.Some? && Valid(t.elem.value)
    ensures t.kind == Struct ==> ValidFields(t.fields)
    ensures t.kind == Tuple ==> ValidItems(t.items)
  {
  }

  lemma SameKindSameValues(a: Type, b: Type, v: Value)
    requires a.kind == b.kind && !a.kind.Optional? && !a.kind.List? && !a.kind.Struct? && !a.kind.Tuple?
    requires Conforms(v, a)
    ensures Conforms(v, b)
  {
  }

  lemma {:induction false} EqualTypesEqualValues(a: Type, b: Type, v: Value)
    requires Valid(a) && Valid(b) && Equal(a, b) && Conforms(v, a)
    ensures Conforms(v, b)
    decreases a, 1
  {
    hide Valid, Equal, Conforms;
    EqualParts(a, b);
    ValidParts(a);
    ValidParts(b);
    if a.kind.Tuple? {
      EqualItemsEqualValues(a, b, v);
    } else if a.kind.Optional? || a.kind.List? || a.kind.Struct? {
      EqualContainersEqualValues(a, b, v);
    } else {
      SameKindSameValues(a, b, v);
    }
  }

  lemma {:induction false} EqualContainersEqualValues(a: Type, b: Type, v: Value)
    requires a.kind == b.kind && (a.kind.Optional? || a.kind.List? || a.kind.Struct?) && Conforms(v, a)
    requires a.elem.Some? && b.elem.Some? ==> Equal(a.elem.value, b.elem.value)
    requires !a.kind.Struct? ==> a.elem.Some? && b.elem.Some? && Valid(a.elem.value) && Valid(b.elem.value)
    requires |a.fields| == |b.fields| && FieldsMatch(a.fields, FieldTable(b.fields))
    requires a.kind.Struct? ==> ValidFields(a.fields) && ValidFields(b.fields)
    ensures Conforms(v, b)
    decreases a, 0
  {
    hide Valid, Equal;
    if a.kind.Struct? {
      MatchedKeys(a.fields, b.fields);
      EqualFieldsEqualValues(a.fields, b.fields, v.members);
    } else if a.kind.List? {
      forall item | item in v.items ensures Conforms(item, b.elem.value) {
        EqualTypesEqualValues(a.elem.value, b.elem.value, item);
      }
    } else if !v.Missing? {
      EqualTypesEqualValues(a.elem.value, b.elem.value, v);
    }
  }

  lemma {:induction false} EqualItemsEqualValues(a: Type, b: Type, v: Value)
    requires a.kind == b.kind == Tuple && Conforms(v, a) && ValidItems(a.items) && ValidItems(b.items)
    requires |a.items| == |b.items| && ItemsEqual(a.items, b.items)
    ensures Conforms(v, b)
    decreases a, 0
  {
    hide Valid, Equal;
    forall i | 0 <= i < |v.items| ensures Conforms(v.items[i], b.items[i]) {
      EqualTypesEqualValues(a.items[i], b.items[i], v.items[i]);
    }
  }

  lemma {:induction false} EqualFieldsEqualValues(fields: seq<Field>, others: seq<Field>, members: map<string, Value>)
    requires ValidFields(fields) && ValidFields(others)
    requires |fields| == |others| && FieldsMatch(fields, FieldTable(others)) && FieldsConform(members, fields)
    ensures FieldsConform(members, others)
    decreases fields
  {
    hide Valid, Equal;
    MatchedKeys(fields, others);
    forall j | 0 <= j < |others| ensures others[j].name in members && Conforms(members[others[j].name], others[j].typ) {
      FieldEntry(others, j);
      var i := FieldIndex(fields, others[j].name);
      EqualTypesEqualValues(fields[i].typ, others[j].typ, members[others[j].name]);
    }
  }

  lemma NumberConforms(v: Value, a: Kind, b: Kind)
    requires 0 <= Rank(a) <= Rank(b) && Conforms(v, Plain(a))
    ensures Conforms(v, Plain(b))
  {
  }

  /** Going up in the order of concrete types loses no value. */
  lemma BelowKeepsValues(a: Type, b: Type, v: Value)
    requires Valid(a) && Valid(b) && Below(a, b) && Conforms(v, a)
    ensures Conforms(v, b)
  {
    hide Valid, Equal, Conforms, Rank;
    if Equal(a, b) {
      EqualTypesEqualValues(a, b, v);
    } else {
      RankedIsPlain(a);
      RankedIsPlain(b);
      NumberConforms(v, a.kind, b.kind);
    }
  }

  /** A conforming value is NULL, which makes the type nullable, or a value of the concrete type inside. */
  lemma ConformsToCore(v: Value, t: Type)
    requires Accepted(t) && Conforms(v, t)
    ensures v.Missing? ==> Nullable(t)
    ensures !v.Missing? ==> Concrete(t) && Conforms(v, Core(t))
  {
    hide Valid;
  }

  /** Whatever conforms to one input of CommonType conforms to its answer. */
  lemma CommonTypeCovers(types: seq<Type>, t: Type, v: Value)
    requires CommonType(types).Ok? && t in types && Conforms(v, t)
    ensures Conforms(v, CommonType(types).value)
  {
    hide Valid, Below, Conforms, Accepted, Concrete, Nullable, CommonType, Core;
    CommonTypeSucceeds(types);
    CommonTypeIsJoin(types);
    CoresAreLegal(types);
    var r := CommonType(types).value;
    ConformsToCore(v, t);
    if !v.Missing? {
      BelowKeepsValues(Core(t), Unwrap(r), v);
    }
    ConformsToOptional(v, Unwrap(r), AnyNullable(types));
  }

  // ---------------------------------------------------------------- types without NULL inside

  /** No Optional and no Null at any depth, and no kind whose values the model does not look into. */
  predicate SolidType(t: Type) {
    match t.kind
    case List => t.elem.Some? && SolidType(t.elem.value)
    case Struct => SolidFields(t.fields)
    case Tuple => SolidItems(t.items)
    case _ => Atomic(t.kind) && t.kind != Null
  }

  predicate SolidItems(items: seq<Type>) {
    forall i | 0 <= i < |items| :: SolidType(items[i])
  }

  predicate SolidFields(fields: seq<Field>) {
    forall i | 0 <= i < |fields| :: SolidType(fields[i].typ)
  }

  /** Values of such types have no NULL inside. */
  lemma {:induction false} SolidTypeSolidValue(v: Value, t: Type)
    requires Conforms(v, t) && SolidType(t)
    ensures Solid(v)
    decreases t
  {
    match t.kind {
      case List =>
        forall i | 0 <= i < |v.items| ensures Solid(v.items[i]) {
          assert v.items[i] in v.items;
          SolidTypeSolidValue(v.items[i], t.elem.value);
        }
      case Tuple =>
        forall i | 0 <= i < |v.items| ensures Solid(v.items[i]) {
          SolidTypeSolidValue(v.items[i], t.items[i]);
        }
      case Struct =>
        forall name | name in v.members ensures Solid(v.members[name]) {
          var i := FieldIndex(t.fields, name);
          SolidTypeSolidValue(v.members[name], t.fields[i].typ);
        }
      case _ =>
    }
  }

  /** An operand that a comparison can be asked about: Null itself, or a type that is Optional at most at the top. */
  predicate Decidable(t: Type) {
    t.kind == Null || SolidType(Unwrap(t))
  }

  lemma DecidableValue(v: Value, t: Type)
    requires Conforms(v, t) && Decidable(t)
    ensures v.Missing? || Solid(v)
  {
    if !v.Missing? {
      SolidTypeSolidValue(v, Unwrap(t));
    }
  }

  // ---------------------------------------------------------------- the condition is exact

  /** A value of a type, with NULL wherever the type allows it. */
  ghost function Sample(t: Type): Value
    decreases t, 0
  {
    match t.kind
    case Optional => Missing
    case Null => Missing
    case Bool => Flag(true)
    case Int8 => Whole(0) case Int16 => Whole(0) case Int32 => Whole(0) case Int64 => Whole(0)
    case Uint8 => Whole(0) case Uint16 => Whole(0) case Uint32 => Whole(0) case Uint64 => Whole(0)
    case Float => Whole(0)
    case Double => Whole(0)
    case String => Text("")
    case Utf8 => Text("")
    case List => Items(if t.elem.Some? then [Sample(t.elem.value)] else [])
    case Struct => Record(FieldSamples(t.fields))
    case Tuple => Items(ItemSamples(t.items))
    case _ => Opaque(t.kind, "")
  }

  ghost function ItemSamples(items: seq<Type>): (samples: seq<Value>)
    ensures |samples| == |items|
    decreases items, 1
  {
    seq(|items|, i requires 0 <= i < |items| => Sample(items[i]))
  }

  ghost function FieldSamples(fields: seq<Field>): (samples: map<string, Value>)
    ensures samples.Keys == FieldTable(fields).Keys
    decreases fields, 0
  {
    if fields == [] then map[]
    else
      var last := fields[|fields| - 1];
      FieldSamples(fields[..|fields| - 1])[last.name := Sample(last.typ)]
  }

  lemma {:induction false} FieldSampleAt(fields: seq<Field>, i: nat)
    requires i < |fields| && DistinctNames(fields)
    ensures fields[i].name in FieldSamples(fields) && FieldSamples(fields)[fields[i].name] == Sample(fields[i].typ)
    decreases |fields|
  {
    hide Sample;
    var n := |fields| - 1;
    FieldEntry(fields, i);
    if i < n {
      FieldSampleAt(fields[..n], i);
    }
  }

  lemma {:induction false} SampleConforms(t: Type)
    requires Valid(t)
    ensures Conforms(Sample(t), t)
    decreases t
  {
    match t.kind {
      case List => SampleConforms(t.elem.value);
      case Tuple =>
        forall i | 0 <= i < |t.items| ensures Conforms(Sample(t.items[i]), t.items[i]) {
          SampleConforms(t.items[i]);
        }
      case Struct =>
        forall i | 0 <= i < |t.fields|
          ensures t.fields[i].name in FieldSamples(t.fields)
          ensures Conforms(FieldSamples(t.fields)[t.fields[i].name], t.fields[i].typ)
        {
          FieldSampleAt(t.fields, i);
          SampleConforms(t.fields[i].typ);
        }
      case _ =>
    }
  }

  /** An engine that calls all scalars equal and knows nothing else. */
  function Reluctant(op: CompareOp, v: Value, w: Value): Option<bool> {
    if IsScalar(v) && IsScalar(w) then Some(true) else None
  }

  /** Known for the members in `known` only, a comparison of containers is known if these are all. */
  ghost function KnownIf(known: bool): Option<bool> {
    if known then Some(true) else None
  }

  lemma ItemsEqualThemselves(vs: seq<Value>, known: seq<bool>)
    requires |known| == |vs| && forall i | 0 <= i < |vs| :: Equality(Reluctant, vs[i], vs[i]) == KnownIf(known[i])
    ensures Equality(Reluctant, Items(vs), Items(vs)) == KnownIf(forall i | 0 <= i < |vs| :: known[i])
  {
    var v := Items(vs);
    var answers := set i | 0 <= i < |v.items| :: Equality(Reluctant, v.items[i], v.items[i]);
    assert Equality(Reluctant, v, v) == AllOf(answers);
    hide Equality;
    if i :| 0 <= i < |vs| && !known[i] {
      assert Equality(Reluctant, v.items[i], v.items[i]) in answers;
    }
  }

  lemma MembersEqualThemselves(members: map<string, Value>, known: set<string>)
    requires forall name <- members :: Equality(Reluctant, members[name], members[name]) == KnownIf(name in known)
    ensures Equality(Reluctant, Record(members), Record(members)) == KnownIf(members.Keys <= known)
  {
    var v := Record(members);
    var answers := set name | name in v.members :: Equality(Reluctant, v.members[name], v.members[name]);
    assert Equality(Reluctant, v, v) == AllOf(answers);
    hide Equality;
    if name :| name in members && name !in known {
      assert Equality(Reluctant, v.members[name], v.members[name]) in answers;
    }
  }

  lemma AtomEqualsItself(t: Type)
    requires Valid(t) && t.kind != List && t.kind != Struct && t.kind != Tuple
    ensures Equality(Reluctant, Sample(t), Sample(t)) == KnownIf(SolidType(t))
  {
  }

  /** A sample is known to equal itself exactly when its type has no NULL inside. */
  lemma {:induction false} SampleEqualsItself(t: Type)
    requires Valid(t)
    ensures Equality(Reluctant, Sample(t), Sample(t)) == KnownIf(SolidType(t))
    decreases t, 1
  {
    hide Valid, Equality, Sample, SolidType;
    ValidParts(t);
    if t.kind == List {
      ListEqualsItself(t);
    } else if t.kind == Tuple {
      TupleEqualsItself(t);
    } else if t.kind == Struct {
      RecordEqualsItself(t);
    } else {
      AtomEqualsItself(t);
    }
  }

  lemma {:induction false} ListEqualsItself(t: Type)
    requires t.kind == List && t.elem.Some? && Valid(t.elem.value)
    ensures Equality(Reluctant, Sample(t), Sample(t)) == KnownIf(SolidType(t))
    decreases t, 0
  {
    hide Valid, Equality;
    SampleEqualsItself(t.elem.value);
    var known := [SolidType(t.elem.value)];
    ItemsEqualThemselves([Sample(t.elem.value)], known);
    assert (forall i | 0 <= i < 1 :: known[i]) == known[0];
  }

  lemma {:induction false} TupleEqualsItself(t: Type)
    requires t.kind == Tuple && ValidItems(t.items)
    ensures Equality(Reluctant, Sample(t), Sample(t)) == KnownIf(SolidType(t))
    decreases t, 0
  {
    hide Valid, Equality, SolidType;
    var samples, known := ItemSamples(t.items), seq(|t.items|, i requires 0 <= i < |t.items| => SolidType(t.items[i]));
    forall i | 0 <= i < |samples| ensures Equality(Reluctant, samples[i], samples[i]) == KnownIf(known[i]) {
      SampleEqualsItself(t.items[i]);
    }
    ItemsEqualThemselves(samples, known);
    assert (forall i | 0 <= i < |samples| :: known[i]) == SolidItems(t.items) by {
      assert forall i | 0 <= i < |samples| :: known[i] == SolidType(t.items[i]);
    }
    SolidParts(t);
  }

  lemma SolidParts(t: Type)
    ensures t.kind == Tuple ==> SolidType(t) == SolidItems(t.items)
    ensures t.kind == Struct ==> SolidType(t) == SolidFields(t.fields)
  {
  }

  lemma {:induction false} RecordEqualsItself(t: Type)
    requires t.kind == Struct && ValidFields(t.fields)
    ensures Equality(Reluctant, Sample(t), Sample(t)) == KnownIf(SolidType(t))
    decreases t, 0
  {
    hide Valid, Equality, SolidType, Sample;
    var samples := FieldSamples(t.fields);
    var known := set i | 0 <= i < |t.fields| && SolidType(t.fields[i].typ) :: t.fields[i].name;
    forall name | name in samples ensures Equality(Reluctant, samples[name], samples[name]) == KnownIf(name in known) {
      var i := FieldIndex(t.fields, name);
      FieldSampleAt(t.fields, i);
      SampleEqualsItself(t.fields[i].typ);
      KnownField(t.fields, i, known);
    }
    MembersEqualThemselves(samples, known);
    assert Sample(t) == Record(samples) by { SampleOfStruct(t); }
    SolidParts(t);
    forall i | 0 <= i < |t.fields|
      ensures t.fields[i].name in samples && (t.fields[i].name in known <==> SolidType(t.fields[i].typ))
    {
      FieldSampleAt(t.fields, i);
      KnownField(t.fields, i, known);
    }
    forall name | name in samples ensures exists i :: 0 <= i < |t.fields| && t.fields[i].name == name {
      var i := FieldIndex(t.fields, name);
    }
  }

  lemma KnownField(fields: seq<Field>, i: nat, known: set<string>)
    requires i < |fields| && DistinctNames(fields)
    requires known == set j | 0 <= j < |fields| && SolidType(fields[j].typ) :: fields[j].name
    ensures fields[i].name in known <==> SolidType(fields[i].typ)
  {
    hide SolidType;
    if fields[i].name in known {
      var j :| 0 <= j < |fields| && SolidType(fields[j].typ) && fields[j].name == fields[i].name;
      assert j == i;
    }
  }

  lemma SampleOfStruct(t: Type)
    requires t.kind == Struct
    ensures Sample(t) == Record(FieldSamples(t.fields))
  {
  }
}
