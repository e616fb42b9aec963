/** The names columnN of result columns without a name of their own (internal/analyzer/projection_names.go). */
module ImplicitNames {
  import opened Types
  import opened TypeText
  import opened Sorting
  import opened ResultColumns

  /** An unnamed projection: where its column stands and which of the authored projections it is. */
  datatype Unnamed = Unnamed(column: nat, ordinal: nat)

  function ColumnName(ordinal: nat): string {
    "column" + PrintNat(ordinal)
  }

  lemma ColumnNamesDiffer(m: nat, n: nat)
    requires ColumnName(m) == ColumnName(n)
    ensures m == n
  {
    hide PrintNat;
    assert ColumnName(m)[6..] == PrintNat(m) && ColumnName(n)[6..] == PrintNat(n);
    DigitsOf(m, "");
    DigitsOf(n, "");
  }

  // ---------------------------------------------------------------- the search

  /** The reserved names that a search from `ordinal` can still meet. */
  ghost function Ahead(reserved: set<string>, ordinal: nat): set<string> {
    set name | name in reserved && forall k: nat | k < ordinal :: name != ColumnName(k)
  }

  lemma AheadShrinks(reserved: set<string>, ordinal: nat)
    requires ColumnName(ordinal) in reserved
    ensures |Ahead(reserved, ordinal + 1)| < |Ahead(reserved, ordinal)|
  {
    hide ColumnName;
    var name := ColumnName(ordinal);
    forall k: nat | k < ordinal ensures name != ColumnName(k) {
      if name == ColumnName(k) { ColumnNamesDiffer(ordinal, k); }
    }
    assert name in Ahead(reserved, ordinal) && name !in Ahead(reserved, ordinal + 1);
    SmallerSet(Ahead(reserved, ordinal + 1), Ahead(reserved, ordinal));
  }

  lemma SmallerSet<T>(small: set<T>, large: set<T>)
    requires small < large
    ensures |small| < |large|
  {
    assert |large - small| == |large| - |small|;
  }

  /** The least ordinal from `ordinal` on whose name is free. */
  function FreeOrdinal(reserved: set<string>, ordinal: nat): (free: nat)
    ensures free >= ordinal && ColumnName(free) !in reserved
    decreases |Ahead(reserved, ordinal)|
  {
    if ColumnName(ordinal) !in reserved then ordinal
    else
      AheadShrinks(reserved, ordinal);
      FreeOrdinal(reserved, ordinal + 1)
  }

  /** The search tries one name after another; it always ends, because it meets each reserved name once at most. */
  method FindOrdinal(reserved: set<string>, from: nat) returns (ordinal: nat)
    ensures ordinal == FreeOrdinal(reserved, from)
    ensures forall k | from <= k < ordinal :: ColumnName(k) in reserved
  {
    hide ColumnName;
    ordinal := from;
    while ColumnName(ordinal) in reserved
      invariant from <= ordinal && FreeOrdinal(reserved, ordinal) == FreeOrdinal(reserved, from)
      invariant forall k | from <= k < ordinal :: ColumnName(k) in reserved
      decreases |Ahead(reserved, ordinal)|
    {
      AheadShrinks(reserved, ordinal);
      ordinal := ordinal + 1;
    }
  }

  // ---------------------------------------------------------------- allocation

  /** The ordinals that the unnamed projections get, in order. */
  function Allocated(reserved: set<string>, unnamed: seq<Unnamed>): (ordinals: seq<nat>)
    ensures |ordinals| == |unnamed|
    decreases |unnamed|
  {
    if unnamed == [] then []
    else
      var ordinal := FreeOrdinal(reserved, unnamed[0].ordinal);
      [ordinal] + Allocated(reserved + {ColumnName(ordinal)}, unnamed[1..])
  }

  /** The names that were written, by which columns are looked up in a result row. */
  function Authored(columns: seq<ResultColumn>): set<string> {
    set c | c in columns && c.name != "" :: ResultName(c)
  }

  function WithNames(columns: seq<ResultColumn>, unnamed: seq<Unnamed>, ordinals: seq<nat>): (named: seq<ResultColumn>)
    requires |unnamed| == |ordinals| && forall u <- unnamed :: u.column < |columns|
    ensures |named| == |columns|
    decreases |unnamed|
  {
    if unnamed == [] then columns
    else
      assert unnamed[0] in unnamed;
      var i := unnamed[0].column;
      WithNames(columns[i := columns[i].(name := ColumnName(ordinals[0]))], unnamed[1..], ordinals[1..])
  }

  predicate Shifted(unnamed: seq<Unnamed>, ordinals: seq<nat>)
    requires |unnamed| == |ordinals|
  {
    exists i | 0 <= i < |unnamed| :: ordinals[i] != unnamed[i].ordinal
  }

  predicate NamedAtMost(a: ResultColumn, b: ResultColumn) {
    NameAtMost(ResultName(a), ResultName(b))
  }

  /** The result columns once all have names; a shifted name discards the written order. */
  function NamedColumns(columns: seq<ResultColumn>, unnamed: seq<Unnamed>): seq<ResultColumn>
    requires forall u <- unnamed :: u.column < |columns|
  {
    var ordinals := Allocated(Authored(columns), unnamed);
    var named := WithNames(columns, unnamed, ordinals);
    if Shifted(unnamed, ordinals) then Sort(NamedAtMost, named) else named
  }

  /** nameImplicitProjections, on the array of columns. */
  method NameImplicitProjections(columns: array<ResultColumn>, unnamed: seq<Unnamed>)
    requires forall u <- unnamed :: u.column < columns.Length
    modifies columns
    ensures columns[..] == NamedColumns(old(columns[..]), unnamed)
  {
    if unnamed == [] { return; }
    var reserved := Authored(columns[..]);
    var shifted := false;
    ghost var ordinals := Allocated(reserved, unnamed);
    ghost var named := WithNames(columns[..], unnamed, ordinals);
    for i := 0 to |unnamed|
      invariant Allocated(reserved, unnamed[i..]) == ordinals[i..]
      invariant WithNames(columns[..], unnamed[i..], ordinals[i..]) == named
      invariant shifted == Shifted(unnamed[..i], ordinals[..i])
    {
      assert unnamed[i] in unnamed;
      var ordinal := FindOrdinal(reserved, unnamed[i].ordinal);
      reserved := reserved + {ColumnName(ordinal)};
      columns[unnamed[i].column] := columns[unnamed[i].column].(name := ColumnName(ordinal));
      shifted := shifted || ordinal != unnamed[i].ordinal;
      assert unnamed[i..][1..] == unnamed[i + 1..] && ordinals[i..][1..] == ordinals[i + 1..];
      ShiftedNext(unnamed, ordinals, i);
    }
    assert unnamed[..|unnamed|] == unnamed && ordinals[..|unnamed|] == ordinals;
    if shifted {
      var sorted := Sort(NamedAtMost, columns[..]);
      SortIsPermutation(NamedAtMost, columns[..]);
      assert |sorted| == |multiset(sorted)| == |multiset(columns[..])|;
      forall i | 0 <= i < columns.Length {
        columns[i] := sorted[i];
      }
    }
  }

  lemma ShiftedNext(unnamed: seq<Unnamed>, ordinals: seq<nat>, i: nat)
    requires i < |unnamed| == |ordinals|
    ensures Shifted(unnamed[..i + 1], ordinals[..i + 1]) <==>
            Shifted(unnamed[..i], ordinals[..i]) || ordinals[i] != unnamed[i].ordinal
  {
    if Shifted(unnamed[..i], ordinals[..i]) {
      var j :| 0 <= j < i && ordinals[..i][j] != unnamed[..i][j].ordinal;
      assert ordinals[..i + 1][j] != unnamed[..i + 1][j].ordinal;
    }
    if ordinals[i] != unnamed[i].ordinal {
      assert ordinals[..i + 1][i] != unnamed[..i + 1][i].ordinal;
    }
  }

  // ---------------------------------------------------------------- what is allocated

  lemma {:induction false} FreeOrdinalIsLeast(reserved: set<string>, ordinal: nat, k: nat)
    requires ordinal <= k < FreeOrdinal(reserved, ordinal)
    ensures ColumnName(k) in reserved
    decreases k - ordinal
  {
    hide ColumnName;
    if k > ordinal {
      FreeOrdinalIsLeast(reserved, ordinal + 1, k);
    }
  }

  /** A name that was written or has been allocated to an earlier projection. */
  predicate Taken(reserved: set<string>, ordinals: seq<nat>, k: nat) {
    ColumnName(k) in reserved || k in ordinals
  }

  /** Each projection gets the least ordinal from its own on that is not taken. */
  lemma {:induction false} AllocatedIsLeast(reserved: set<string>, unnamed: seq<Unnamed>, i: nat)
    requires i < |unnamed|
    ensures var ordinals := Allocated(reserved, unnamed);
            && ordinals[i] >= unnamed[i].ordinal && !Taken(reserved, ordinals[..i], ordinals[i])
            && forall k | unnamed[i].ordinal <= k < ordinals[i] :: Taken(reserved, ordinals[..i], k)
    decreases i
  {
    hide ColumnName;
    var ordinals := Allocated(reserved, unnamed);
    var first := ordinals[0];
    if i == 0 {
      forall k | unnamed[0].ordinal <= k < first ensures Taken(reserved, [], k) {
        FreeOrdinalIsLeast(reserved, unnamed[0].ordinal, k);
      }
      assert ordinals[..0] == [];
    } else {
      AllocatedIsLeast(reserved + {ColumnName(first)}, unnamed[1..], i - 1);
      assert ordinals[..i] == [first] + ordinals[1..][..i - 1];
      forall k ensures Taken(reserved, ordinals[..i], k) <==>
                       Taken(reserved + {ColumnName(first)}, ordinals[1..][..i - 1], k)
      {
        TakenByFirst(reserved, first, ordinals[1..][..i - 1], k);
      }
    }
  }

  lemma TakenByFirst(reserved: set<string>, first: nat, others: seq<nat>, k: nat)
    ensures Taken(reserved, [first] + others, k) <==> Taken(reserved + {ColumnName(first)}, others, k)
  {
    hide ColumnName;
    if ColumnName(k) == ColumnName(first) { ColumnNamesDiffer(k, first); }
  }

  lemma AllocatedDiffer(reserved: set<string>, unnamed: seq<Unnamed>, i: nat, j: nat)
    requires i < j < |unnamed|
    ensures var ordinals := Allocated(reserved, unnamed); ColumnName(ordinals[i]) != ColumnName(ordinals[j])
  {
    hide ColumnName;
    var ordinals := Allocated(reserved, unnamed);
    AllocatedIsLeast(reserved, unnamed, j);
    assert ordinals[..j][i] == ordinals[i];
    if ColumnName(ordinals[i]) == ColumnName(ordinals[j]) {
      ColumnNamesDiffer(ordinals[i], ordinals[j]);
    }
  }

  predicate OrdinalsDiffer(unnamed: seq<Unnamed>) {
    forall i, j | 0 <= i < j < |unnamed| :: unnamed[i].ordinal != unnamed[j].ordinal
  }

  /** An ordinal moves exactly when the name that one of the projections would get was written by the author. */
  lemma ShiftedExactly(reserved: set<string>, unnamed: seq<Unnamed>)
    requires OrdinalsDiffer(unnamed)
    ensures Shifted(unnamed, Allocated(reserved, unnamed)) <==> exists u <- unnamed :: ColumnName(u.ordinal) in reserved
  {
    hide ColumnName;
    var ordinals := Allocated(reserved, unnamed);
    if u :| u in unnamed && ColumnName(u.ordinal) in reserved {
      var i :| 0 <= i < |unnamed| && unnamed[i] == u;
      AllocatedIsLeast(reserved, unnamed, i);
    } else {
      forall i | 0 <= i < |unnamed| ensures ordinals[i] == unnamed[i].ordinal {
        OwnOrdinals(reserved, unnamed, i);
      }
    }
  }

  lemma {:induction false} OwnOrdinals(reserved: set<string>, unnamed: seq<Unnamed>, i: nat)
    requires i < |unnamed| && OrdinalsDiffer(unnamed) && forall u <- unnamed :: ColumnName(u.ordinal) !in reserved
    ensures Allocated(reserved, unnamed)[i] == unnamed[i].ordinal
    decreases i
  {
    hide ColumnName;
    var ordinals := Allocated(reserved, unnamed);
    AllocatedIsLeast(reserved, unnamed, i);
    if ordinals[i] != unnamed[i].ordinal {
      assert Taken(reserved, ordinals[..i], unnamed[i].ordinal);
      var j :| 0 <= j < i && ordinals[..i][j] == unnamed[i].ordinal;
      OwnOrdinals(reserved, unnamed, j);
      assert false;
    }
  }

  // ---------------------------------------------------------------- the named columns

  /** Every unnamed column is listed once, and nothing else is. */
  predicate Lists(unnamed: seq<Unnamed>, columns: seq<ResultColumn>) {
    && (forall u <- unnamed :: u.column < |columns|)
    && (forall i, j | 0 <= i < j < |unnamed| :: unnamed[i].column != unnamed[j].column)
    && (forall c | 0 <= c < |columns| :: columns[c].name == "" <==> exists u <- unnamed :: u.column == c)
    && (forall c <- columns :: c.name == "" ==> c.wireName == "")
  }

  lemma {:induction false} WithNamesElsewhere(columns: seq<ResultColumn>, unnamed: seq<Unnamed>, ordinals: seq<nat>, c: nat)
    requires |unnamed| == |ordinals| && (forall u <- unnamed :: u.column < |columns|)
    requires c < |columns| && forall u <- unnamed :: u.column != c
    ensures WithNames(columns, unnamed, ordinals)[c] == columns[c]
    decreases |unnamed|
  {
    hide ColumnName;
    if unnamed != [] {
      assert unnamed[0] in unnamed && forall u <- unnamed[1..] :: u in unnamed;
      var i := unnamed[0].column;
      WithNamesElsewhere(columns[i := columns[i].(name := ColumnName(ordinals[0]))], unnamed[1..], ordinals[1..], c);
    }
  }

  lemma {:induction false} WithNamesAt(columns: seq<ResultColumn>, unnamed: seq<Unnamed>, ordinals: seq<nat>, i: nat)
    requires |unnamed| == |ordinals| && (forall u <- unnamed :: u.column < |columns|)
    requires i < |unnamed| && forall j, k | 0 <= j < k < |unnamed| :: unnamed[j].column != unnamed[k].column
    ensures var c := unnamed[i].column;
            c < |columns| && WithNames(columns, unnamed, ordinals)[c] == columns[c].(name := ColumnName(ordinals[i]))
    decreases |unnamed|
  {
    hide ColumnName;
    assert unnamed[0] in unnamed && unnamed[i] in unnamed && forall u <- unnamed[1..] :: u in unnamed;
    var c := unnamed[0].column;
    var named := columns[c := columns[c].(name := ColumnName(ordinals[0]))];
    if i == 0 {
      WithNamesElsewhere(named, unnamed[1..], ordinals[1..], c);
    } else {
      WithNamesAt(named, unnamed[1..], ordinals[1..], i - 1);
    }
  }

  predicate AuthoredDiffer(columns: seq<ResultColumn>) {
    forall i, j | 0 <= i < j < |columns| && columns[i].name != "" && columns[j].name != "" ::
      ResultName(columns[i]) != ResultName(columns[j])
  }

  predicate ResultNamesDiffer(columns: seq<ResultColumn>) {
    forall i, j | 0 <= i < j < |columns| :: ResultName(columns[i]) != ResultName(columns[j])
  }

  /** What one column is called in the end: its own name, or the name its projection was allocated. */
  lemma NamedColumn(columns: seq<ResultColumn>, unnamed: seq<Unnamed>, c: nat) returns (i: nat)
    requires Lists(unnamed, columns) && c < |columns|
    ensures var ordinals := Allocated(Authored(columns), unnamed);
            var named := WithNames(columns, unnamed, ordinals);
            if columns[c].name != "" then named[c] == columns[c]
            else i < |unnamed| && unnamed[i].column == c && named[c] == columns[c].(name := ColumnName(ordinals[i]))
  {
    hide ColumnName;
    var ordinals := Allocated(Authored(columns), unnamed);
    i := 0;
    if columns[c].name != "" {
      WithNamesElsewhere(columns, unnamed, ordinals, c);
    } else {
      var u :| u in unnamed && u.column == c;
      i :| 0 <= i < |unnamed| && unnamed[i] == u;
      WithNamesAt(columns, unnamed, ordinals, i);
    }
  }

  lemma {:induction false} PairDiffers(columns: seq<ResultColumn>, unnamed: seq<Unnamed>, c: nat, d: nat)
    requires Lists(unnamed, columns) && AuthoredDiffer(columns) && c < |columns| && d < |columns| && c != d
    ensures var named := WithNames(columns, unnamed, Allocated(Authored(columns), unnamed));
            ResultName(named[c]) != ResultName(named[d])
  {
    hide ColumnName, WithNames, Allocated;
    var reserved := Authored(columns);
    var i := NamedColumn(columns, unnamed, c);
    var j := NamedColumn(columns, unnamed, d);
    if columns[c].name == "" {
      AllocatedIsLeast(reserved, unnamed, i);
    }
    if columns[d].name == "" {
      AllocatedIsLeast(reserved, unnamed, j);
    }
    if columns[c].name == "" && columns[d].name == "" {
      if i < j { AllocatedDiffer(reserved, unnamed, i, j); } else { AllocatedDiffer(reserved, unnamed, j, i); }
    } else if columns[c].name != "" {
      assert ResultName(columns[c]) in reserved;
    } else {
      assert ResultName(columns[d]) in reserved;
    }
  }

  lemma {:induction false} OccursTwice<T>(s: seq<T>, x: T) returns (i: nat, j: nat)
    requires multiset(s)[x] >= 2
    ensures i < j < |s| && s[i] == s[j] == x
    decreases |s|
  {
    assert s == [s[0]] + s[1..];
    if s[0] == x {
      assert x in multiset(s[1..]);
      var k :| 0 <= k < |s[1..]| && s[1..][k] == x;
      i, j := 0, k + 1;
    } else {
      i, j := OccursTwice(s[1..], x);
      i, j := i + 1, j + 1;
    }
  }

  lemma DifferInAnyOrder(columns: seq<ResultColumn>, others: seq<ResultColumn>)
    requires multiset(columns) == multiset(others) && ResultNamesDiffer(columns)
    ensures ResultNamesDiffer(others)
  {
    hide ResultName;
    forall i, j | 0 <= i < j < |others| ensures ResultName(others[i]) != ResultName(others[j]) {
      if others[i] == others[j] {
        assert others == others[..j] + others[j..];
        assert others[i] in others[..j] && others[j] in others[j..];
        var m, n := OccursTwice(columns, others[i]);
        assert false;
      } else {
        assert others[i] in multiset(others) && others[j] in multiset(others);
        assert others[i] in columns && others[j] in columns;
        var m :| 0 <= m < |columns| && columns[m] == others[i];
        var n :| 0 <= n < |columns| && columns[n] == others[j];
        assert m < n || n < m;
      }
    }
  }

  /** The result columns have distinct names if and only if the author repeats no name. */
  lemma NamedDiffer(columns: seq<ResultColumn>, unnamed: seq<Unnamed>)
    requires Lists(unnamed, columns)
    ensures ResultNamesDiffer(NamedColumns(columns, unnamed)) <==> AuthoredDiffer(columns)
    ensures multiset(NamedColumns(columns, unnamed)) == multiset(WithNames(columns, unnamed, Allocated(Authored(columns), unnamed)))
  {
    hide ColumnName, WithNames, Allocated, ResultName;
    var named := WithNames(columns, unnamed, Allocated(Authored(columns), unnamed));
    SortIsPermutation(NamedAtMost, named);
    if AuthoredDiffer(columns) {
      forall c, d | 0 <= c < d < |named| ensures ResultName(named[c]) != ResultName(named[d]) {
        PairDiffers(columns, unnamed, c, d);
      }
      DifferInAnyOrder(named, NamedColumns(columns, unnamed));
    }
    if ResultNamesDiffer(NamedColumns(columns, unnamed)) {
      DifferInAnyOrder(NamedColumns(columns, unnamed), named);
      forall c, d | 0 <= c < d < |columns| && columns[c].name != "" && columns[d].name != ""
        ensures ResultName(columns[c]) != ResultName(columns[d])
      {
        var i := NamedColumn(columns, unnamed, c);
        var j := NamedColumn(columns, unnamed, d);
      }
    }
  }

  lemma NamedIsOrdered()
    ensures TotalPreorder(NamedAtMost)
  {
    hide NameAtMost, ResultName;
    NamesAreOrdered();
    forall a, b ensures NamedAtMost(a, b) || NamedAtMost(b, a) {
      assert NameAtMost(ResultName(a), ResultName(b)) || NameAtMost(ResultName(b), ResultName(a));
    }
  }

  /**
   * The written order of the columns is kept, unless an author's name had to be avoided: then the columns are in the
   * order of their names.
   */
  lemma OrderIsKeptUnlessNamesCollide(columns: seq<ResultColumn>, unnamed: seq<Unnamed>)
    requires Lists(unnamed, columns) && OrdinalsDiffer(unnamed)
    ensures var named := WithNames(columns, unnamed, Allocated(Authored(columns), unnamed));
            if exists u <- unnamed :: ColumnName(u.ordinal) in Authored(columns)
            then Ascending(NamedAtMost, NamedColumns(columns, unnamed)) && multiset(NamedColumns(columns, unnamed)) == multiset(named)
            else NamedColumns(columns, unnamed) == named
  {
    hide ColumnName, WithNames, Allocated;
    var named := WithNames(columns, unnamed, Allocated(Authored(columns), unnamed));
    ShiftedExactly(Authored(columns), unnamed);
    NamedIsOrdered();
    SortIsAscending(NamedAtMost, named);
    SortIsPermutation(NamedAtMost, named);
  }
}
