/** Values, and how they compare under three-valued logic: containers member by member, scalars as the engine says. */
module Comparisons {
  import opened Wrappers
  import opened Types
  import opened CommonTypes
  import opened Expressions

  datatype Value =
    | Missing // NULL
    | Flag(flag: bool)
    | Whole(n: int)
    | Fraction(r: real)
    | Text(text: string)
    | Opaque(kind: Kind, text: string) // a value whose inside no expression looks at
    | Items(items: seq<Value>) // a list or a tuple
    | Record(members: map<string, Value>)

  /** How the engine compares two values; None is the answer NULL. */
  type Order = (CompareOp, Value, Value) -> Option<bool>

  /** A kind whose values have no parts. */
  predicate Atomic(kind: Kind) {
    ScalarKind(kind) || kind == Decimal
  }

  predicate IsScalar(v: Value) {
    v.Flag? || v.Whole? || v.Fraction? || v.Text? || (v.Opaque? && Atomic(v.kind))
  }

  /** Comparing two scalars that are not NULL never gives NULL; of other values nothing is assumed. */
  ghost predicate Decided(order: Order) {
    forall op: CompareOp, v: Value, w: Value | IsScalar(v) && IsScalar(w) :: order(op, v, w).Some?
  }

  // ---------------------------------------------------------------- equality

  predicate IsContainer(v: Value) {
    v.Items? || v.Record?
  }

  /** Conjunction: FALSE if some answer is FALSE, else NULL if some answer is NULL. */
  ghost function AllOf(answers: set<Option<bool>>): Option<bool> {
    if Some(false) in answers then Some(false) else if None in answers then None else Some(true)
  }

  /** Equality of containers asks their members; values of different shapes are different. */
  ghost function Equality(order: Order, v: Value, w: Value): Option<bool>
    decreases v
  {
    if v.Missing? || w.Missing? then None
    else if v.Items? && w.Items? then
      if |v.items| != |w.items| then Some(false)
      else AllOf(set i | 0 <= i < |v.items| :: Equality(order, v.items[i], w.items[i]))
    else if v.Record? && w.Record? then
      if v.members.Keys != w.members.Keys then Some(false)
      else AllOf(set name | name in v.members :: Equality(order, v.members[name], w.members[name]))
    else if IsContainer(v) || IsContainer(w) then Some(false)
    else order(Equals, v, w)
  }

  /** IS NOT DISTINCT FROM: NULL is the same as NULL and as nothing else, at every depth. */
  ghost predicate Identical(order: Order, v: Value, w: Value)
    decreases v
  {
    if v.Missing? || w.Missing? then v == w
    else if v.Items? && w.Items? then
      |v.items| == |w.items| && forall i | 0 <= i < |v.items| :: Identical(order, v.items[i], w.items[i])
    else if v.Record? && w.Record? then
      && v.members.Keys == w.members.Keys
      && forall name <- v.members :: Identical(order, v.members[name], w.members[name])
    else !IsContainer(v) && !IsContainer(w) && order(NotDistinctFrom, v, w) == Some(true)
  }

  // ---------------------------------------------------------------- order

  /** What `op` answers for two numbers that stand in for what is left of two lists. */
  predicate Holds(op: CompareOp, m: int, n: int) {
    match op
    case Less => m < n
    case AtMost => m <= n
    case Greater => m > n
    case AtLeast => m >= n
    case _ => m == n
  }

  /** Some fixed order of the member names. */
  ghost function Listed(names: set<string>): (list: seq<string>)
    ensures forall name :: name in list <==> name in names
  {
    if names == {} then []
    else
      var name :| name in names;
      [name] + Listed(names - {name})
  }

  /** <, <=, > and >=: the first members that are not equal decide; an unknown equality leaves it unknown. */
  ghost function Ordering(order: Order, op: CompareOp, v: Value, w: Value): Option<bool>
    decreases v, 1, 0
  {
    if v.Missing? || w.Missing? then None
    else if v.Items? && w.Items? then ItemsOrdering(order, op, v, w, 0)
    else if v.Record? && w.Record? && v.members.Keys == w.members.Keys then
      MembersOrdering(order, op, v, w, Listed(v.members.Keys))
    else if IsContainer(v) || IsContainer(w) then Some(false)
    else order(op, v, w)
  }

  ghost function ItemsOrdering(order: Order, op: CompareOp, v: Value, w: Value, i: nat): Option<bool>
    requires v.Items? && w.Items?
    decreases v, 0, |v.items| - i
  {
    if i >= |v.items| || i >= |w.items| then Some(Holds(op, |v.items|, |w.items|))
    else
      match Equality(order, v.items[i], w.items[i])
      case None => None
      case Some(true) => ItemsOrdering(order, op, v, w, i + 1)
      case Some(false) => Ordering(order, op, v.items[i], w.items[i])
  }

  ghost function MembersOrdering(order: Order, op: CompareOp, v: Value, w: Value, names: seq<string>): Option<bool>
    requires v.Record? && w.Record? && forall name <- names :: name in v.members && name in w.members
    decreases v, 0, |names|
  {
    if names == [] then Some(Holds(op, 0, 0))
    else
      match Equality(order, v.members[names[0]], w.members[names[0]])
      case None => None
      case Some(true) => MembersOrdering(order, op, v, w, names[1..])
      case Some(false) => Ordering(order, op, v.members[names[0]], w.members[names[0]])
  }

  ghost function Answer(r: Option<bool>): Value {
    match r case None => Missing case Some(b) => Flag(b)
  }

  /** One comparison of two values. */
  ghost function ComparePair(order: Order, op: CompareOp, v: Value, w: Value): Value {
    match op
    case DistinctFrom => Flag(!Identical(order, v, w))
    case NotDistinctFrom => Flag(Identical(order, v, w))
    case Equals => Answer(Equality(order, v, w))
    case NotEquals => (match Equality(order, v, w) case None => Missing case Some(b) => Flag(!b))
    case _ => Answer(Ordering(order, op, v, w))
  }

  // ---------------------------------------------------------------- values without NULL inside

  /** Not NULL, and nothing inside is; and no value the model cannot look into. */
  ghost predicate Solid(v: Value) {
    match v
    case Missing => false
    case Items(items) => forall i | 0 <= i < |items| :: Solid(items[i])
    case Record(members) => forall name <- members :: Solid(members[name])
    case _ => IsScalar(v)
  }

  lemma {:induction false} SolidEquality(order: Order, v: Value, w: Value)
    requires Decided(order) && Solid(v) && Solid(w)
    ensures Equality(order, v, w).Some?
    decreases v
  {
    if v.Items? && w.Items? && |v.items| == |w.items| {
      forall i | 0 <= i < |v.items| ensures Equality(order, v.items[i], w.items[i]).Some? {
        SolidEquality(order, v.items[i], w.items[i]);
      }
    } else if v.Record? && w.Record? && v.members.Keys == w.members.Keys {
      forall name | name in v.members ensures Equality(order, v.members[name], w.members[name]).Some? {
        SolidEquality(order, v.members[name], w.members[name]);
      }
    }
  }

  lemma {:induction false} SolidOrdering(order: Order, op: CompareOp, v: Value, w: Value)
    requires Decided(order) && Solid(v) && Solid(w)
    ensures Ordering(order, op, v, w).Some?
    decreases v, 1, 0
  {
    hide Equality;
    if v.Items? && w.Items? {
      SolidItemsOrdering(order, op, v, w, 0);
    } else if v.Record? && w.Record? && v.members.Keys == w.members.Keys {
      SolidMembersOrdering(order, op, v, w, Listed(v.members.Keys));
    }
  }

  lemma {:induction false} SolidItemsOrdering(order: Order, op: CompareOp, v: Value, w: Value, i: nat)
    requires Decided(order) && Solid(v) && Solid(w) && v.Items? && w.Items?
    ensures ItemsOrdering(order, op, v, w, i).Some?
    decreases v, 0, |v.items| - i
  {
    hide Equality, Ordering;
    if i < |v.items| && i < |w.items| {
      SolidEquality(order, v.items[i], w.items[i]);
      SolidOrdering(order, op, v.items[i], w.items[i]);
      SolidItemsOrdering(order, op, v, w, i + 1);
    }
  }

  lemma {:induction false} SolidMembersOrdering(order: Order, op: CompareOp, v: Value, w: Value, names: seq<string>)
    requires Decided(order) && Solid(v) && Solid(w)
    requires v.Record? && w.Record? && forall name <- names :: name in v.members && name in w.members
    ensures MembersOrdering(order, op, v, w, names).Some?
    decreases v, 0, |names|
  {
    hide Equality, Ordering;
    if names != [] {
      var name := names[0];
      SolidEquality(order, v.members[name], w.members[name]);
      SolidOrdering(order, op, v.members[name], w.members[name]);
      SolidMembersOrdering(order, op, v, w, names[1..]);
    }
  }

  /** A null-safe comparison is never NULL, and no comparison of values without NULL inside is. */
  lemma ComparisonIsKnown(order: Order, op: CompareOp, v: Value, w: Value)
    requires op == DistinctFrom || op == NotDistinctFrom || (Decided(order) && Solid(v) && Solid(w))
    ensures ComparePair(order, op, v, w).Flag?
  {
    hide Equality, Ordering, Identical, Solid;
    if op != DistinctFrom && op != NotDistinctFrom {
      SolidEquality(order, v, w);
      SolidOrdering(order, op, v, w);
    }
  }
}
