/** Which column a reference means, and when it may be NULL (resolveColumn in internal/analyzer/semantic.go). */
module ColumnResolution {
  import opened Wrappers
  import opened Types
  import opened CommonTypes
  import opened Expressions
  import opened TypingRules
  import opened Resolver
  import opened Comparisons
  import opened Evaluation
  import opened Conformance
  import opened RuleSoundness
  import opened Soundness

  // ---------------------------------------------------------------- the columns a reference could mean

  /** Column j of relation i has the name, in a relation that the qualifier allows. */
  predicate Denotes(relations: seq<Relation>, qualifier: string, name: string, i: nat, j: nat) {
    i < |relations| && Qualifies(relations[i], qualifier) && j < |relations[i].columns| && relations[i].columns[j].name == name
  }

  predicate OnlyDenotes(relations: seq<Relation>, qualifier: string, name: string, i: nat, j: nat) {
    && Denotes(relations, qualifier, name, i, j)
    && forall k, l | 0 <= k < |relations| && 0 <= l < |relations[k].columns| ::
         Denotes(relations, qualifier, name, k, l) ==> k == i && l == j
  }

  /** A relation of GROUP BY aliases has this alias. */
  predicate IsAlias(relations: seq<Relation>, name: string, i: nat) {
    i < |relations| && relations[i].grouping && exists c <- relations[i].columns :: c.name == name
  }

  lemma {:induction false} NamedIsFirst(columns: seq<ColumnType>, name: string) returns (j: nat)
    ensures ColumnNamed(columns, name).Some? <==> exists c <- columns :: c.name == name
    ensures ColumnNamed(columns, name).Some? ==>
              && j < |columns| && columns[j].name == name && ColumnNamed(columns, name) == Some(columns[j].typ)
              && forall l | 0 <= l < j :: columns[l].name != name
  {
    j := 0;
    if columns != [] && columns[0].name != name {
      j := NamedIsFirst(columns[1..], name);
      j := j + 1;
      assert columns == [columns[0]] + columns[1..];
      assert forall l | 0 < l < |columns| :: columns[l] == columns[1..][l - 1];
    }
  }

  lemma {:induction false} CountIsZero(columns: seq<ColumnType>, name: string)
    ensures CountNamed(columns, name) == 0 <==> forall j | 0 <= j < |columns| :: columns[j].name != name
    decreases |columns|
  {
    if columns != [] {
      CountIsZero(columns[..|columns| - 1], name);
    }
  }

  predicate OnlyNamed(columns: seq<ColumnType>, name: string, j: nat) {
    j < |columns| && columns[j].name == name && forall l | 0 <= l < |columns| && l != j :: columns[l].name != name
  }

  lemma {:induction false} CountIsOne(columns: seq<ColumnType>, name: string)
    ensures CountNamed(columns, name) == 1 <==> exists j :: OnlyNamed(columns, name, j)
    decreases |columns|
  {
    if columns != [] {
      var n := |columns| - 1;
      CountIsOne(columns[..n], name);
      CountIsZero(columns[..n], name);
      if columns[n].name == name {
        if CountNamed(columns[..n], name) == 0 {
          assert forall l | 0 <= l < n :: columns[..n][l] == columns[l];
          assert OnlyNamed(columns, name, n);
        }
        if j: nat :| OnlyNamed(columns, name, j) {
          assert forall l | 0 <= l < n :: columns[..n][l] == columns[l];
        }
      } else {
        if j: nat :| OnlyNamed(columns[..n], name, j) {
          assert forall l | 0 <= l < n :: columns[..n][l] == columns[l];
          assert OnlyNamed(columns, name, j);
        }
        if j: nat :| OnlyNamed(columns, name, j) {
          assert forall l | 0 <= l < n :: columns[..n][l] == columns[l];
          assert OnlyNamed(columns[..n], name, j);
        }
      }
    }
  }

  /** How many columns of one relation a reference could mean. */
  function Count(relation: Relation, qualifier: string, name: string): nat {
    if Qualifies(relation, qualifier) then CountNamed(relation.columns, name) else 0
  }

  lemma {:induction false} NoMatch(relations: seq<Relation>, qualifier: string, name: string)
    ensures MatchCount(relations, qualifier, name) == 0 <==>
            forall i | 0 <= i < |relations| :: Count(relations[i], qualifier, name) == 0
    decreases |relations|
  {
    hide CountNamed;
    if relations != [] {
      NoMatch(relations[..|relations| - 1], qualifier, name);
    }
  }

  predicate OnlyCounts(relations: seq<Relation>, qualifier: string, name: string, i: nat) {
    && i < |relations| && Count(relations[i], qualifier, name) == 1
    && forall k | 0 <= k < |relations| && k != i :: Count(relations[k], qualifier, name) == 0
  }

  lemma {:induction false} OneMatch(relations: seq<Relation>, qualifier: string, name: string)
    ensures MatchCount(relations, qualifier, name) == 1 <==> exists i :: OnlyCounts(relations, qualifier, name, i)
    decreases |relations|
  {
    hide CountNamed, Count;
    if relations != [] {
      var n := |relations| - 1;
      var front := relations[..n];
      MatchStep(relations, qualifier, name);
      OneMatch(front, qualifier, name);
      NoMatch(front, qualifier, name);
      assert forall k | 0 <= k < n :: front[k] == relations[k];
      if Count(relations[n], qualifier, name) == 1 && MatchCount(front, qualifier, name) == 0 {
        assert OnlyCounts(relations, qualifier, name, n);
      }
      if i: nat :| OnlyCounts(front, qualifier, name, i) && Count(relations[n], qualifier, name) == 0 {
        assert OnlyCounts(relations, qualifier, name, i);
      }
      if i: nat :| OnlyCounts(relations, qualifier, name, i) {
        assert i < n ==> OnlyCounts(front, qualifier, name, i);
      }
    }
  }

  lemma MatchStep(relations: seq<Relation>, qualifier: string, name: string)
    requires relations != []
    ensures var n := |relations| - 1;
            MatchCount(relations, qualifier, name) ==
            Count(relations[n], qualifier, name) + MatchCount(relations[..n], qualifier, name)
  {
  }

  /** Exactly one column is meant. */
  lemma UniqueMatch(relations: seq<Relation>, qualifier: string, name: string)
    ensures MatchCount(relations, qualifier, name) == 1 <==> exists i, j :: OnlyDenotes(relations, qualifier, name, i, j)
  {
    hide CountNamed, MatchCount, Qualifies;
    OneMatch(relations, qualifier, name);
    if i: nat :| OnlyCounts(relations, qualifier, name, i) {
      CountIsOne(relations[i].columns, name);
      var j: nat :| OnlyNamed(relations[i].columns, name, j);
      forall k, l | 0 <= k < |relations| && 0 <= l < |relations[k].columns|
        ensures Denotes(relations, qualifier, name, k, l) ==> k == i && l == j
      {
        CountIsZero(relations[k].columns, name);
      }
      assert OnlyDenotes(relations, qualifier, name, i, j);
    }
    if i: nat, j: nat :| OnlyDenotes(relations, qualifier, name, i, j) {
      assert Denotes(relations, qualifier, name, i, j);
      forall l | 0 <= l < |relations[i].columns| && l != j ensures relations[i].columns[l].name != name {
        assert !Denotes(relations, qualifier, name, i, l);
      }
      assert OnlyNamed(relations[i].columns, name, j);
      CountIsOne(relations[i].columns, name);
      forall k | 0 <= k < |relations| && k != i ensures Count(relations[k], qualifier, name) == 0 {
        CountIsZero(relations[k].columns, name);
        forall l | 0 <= l < |relations[k].columns|
          ensures Qualifies(relations[k], qualifier) ==> relations[k].columns[l].name != name
        {
          assert !Denotes(relations, qualifier, name, k, l);
        }
      }
      assert OnlyCounts(relations, qualifier, name, i);
    }
  }

  lemma {:induction false} FirstMatchIs(relations: seq<Relation>, qualifier: string, name: string)
    ensures var i := FirstMatch(relations, qualifier, name);
            && (i < |relations| ==> Qualifies(relations[i], qualifier) && ColumnNamed(relations[i].columns, name).Some?)
            && forall k | 0 <= k < i :: !(Qualifies(relations[k], qualifier) && ColumnNamed(relations[k].columns, name).Some?)
  {
    hide Qualifies, ColumnNamed;
    if relations != [] && !(Qualifies(relations[0], qualifier) && ColumnNamed(relations[0].columns, name).Some?) {
      FirstMatchIs(relations[1..], qualifier, name);
      assert forall k | 0 < k < |relations| :: relations[k] == relations[1..][k - 1];
    }
  }

  lemma {:induction false} FirstGroupingIs(relations: seq<Relation>, name: string)
    ensures var i := FirstGrouping(relations, name);
            && (i < |relations| ==> relations[i].grouping && ColumnNamed(relations[i].columns, name).Some?)
            && forall k | 0 <= k < i :: !(relations[k].grouping && ColumnNamed(relations[k].columns, name).Some?)
  {
    hide ColumnNamed;
    if relations != [] && !(relations[0].grouping && ColumnNamed(relations[0].columns, name).Some?) {
      FirstGroupingIs(relations[1..], name);
      assert forall k | 0 < k < |relations| :: relations[k] == relations[1..][k - 1];
    }
  }

  /** A qualified reference, or one that no GROUP BY alias takes, means the one column of that name, or is an error. */
  lemma ReferenceIsUnique(relations: seq<Relation>, qualifier: string, name: string)
    requires qualifier != "" || forall i | 0 <= i < |relations| :: !IsAlias(relations, name, i)
    ensures ResolveColumn(relations, qualifier, name).Ok? <==> exists i, j :: OnlyDenotes(relations, qualifier, name, i, j)
    ensures forall i: nat, j: nat | OnlyDenotes(relations, qualifier, name, i, j) ::
              ResolveColumn(relations, qualifier, name) ==
              Ok(WithOptional(relations[i].columns[j].typ, relations[i].optional && !(qualifier == "" && relations[i].grouping)))
  {
    hide MatchCount, Qualifies, FirstMatch, FirstGrouping, ColumnNamed, OnlyDenotes, WithOptional;
    NoAliasMatches(relations, qualifier, name);
    UniqueMatch(relations, qualifier, name);
    forall i: nat, j: nat | OnlyDenotes(relations, qualifier, name, i, j)
      ensures FirstMatch(relations, qualifier, name) == i && i < |relations| && j < |relations[i].columns|
      ensures ColumnNamed(relations[i].columns, name) == Some(relations[i].columns[j].typ)
    {
      MatchIsFirst(relations, qualifier, name, i, j);
    }
  }

  lemma NoAliasMatches(relations: seq<Relation>, qualifier: string, name: string)
    requires qualifier != "" || forall i | 0 <= i < |relations| :: !IsAlias(relations, name, i)
    ensures ColumnSource(relations, qualifier, name) ==
            if MatchCount(relations, qualifier, name) != 1 then None else Some(FirstMatch(relations, qualifier, name))
  {
    hide MatchCount, FirstMatch, FirstGrouping, ColumnNamed;
    FirstGroupingIs(relations, name);
    var g := FirstGrouping(relations, name);
    if g < |relations| {
      var j := NamedIsFirst(relations[g].columns, name);
      assert IsAlias(relations, name, g);
    }
  }

  lemma MatchIsFirst(relations: seq<Relation>, qualifier: string, name: string, i: nat, j: nat)
    requires OnlyDenotes(relations, qualifier, name, i, j)
    ensures FirstMatch(relations, qualifier, name) == i < |relations| && j < |relations[i].columns|
    ensures ColumnNamed(relations[i].columns, name) == Some(relations[i].columns[j].typ)
  {
    hide Qualifies, FirstMatch, ColumnNamed;
    FirstMatchIs(relations, qualifier, name);
    var first := FirstMatch(relations, qualifier, name);
    var l := NamedIsFirst(relations[i].columns, name);
    assert relations[i].columns[j] in relations[i].columns;
    assert Denotes(relations, qualifier, name, i, l);
    if first < |relations| {
      var l' := NamedIsFirst(relations[first].columns, name);
      assert Denotes(relations, qualifier, name, first, l');
    }
  }

  /** An unqualified reference means the GROUP BY alias of the first relation that has it, with its own type. */
  lemma AliasComesFirst(relations: seq<Relation>, name: string, i: nat, j: nat)
    requires IsAlias(relations, name, i) && forall k | 0 <= k < i :: !IsAlias(relations, name, k)
    requires j < |relations[i].columns| && relations[i].columns[j].name == name
    requires forall l | 0 <= l < j :: relations[i].columns[l].name != name
    ensures ResolveColumn(relations, "", name) == Ok(relations[i].columns[j].typ)
  {
    hide MatchCount, FirstMatch, FirstGrouping, ColumnNamed, Qualifies;
    FirstGroupingIs(relations, name);
    var g := FirstGrouping(relations, name);
    var l := NamedIsFirst(relations[i].columns, name);
    if g < |relations| {
      var l' := NamedIsFirst(relations[g].columns, name);
      assert IsAlias(relations, name, g);
    }
    assert g == i;
  }

  // ---------------------------------------------------------------- nullability is exact

  lemma ChangedRowConforms(relations: seq<Relation>, row: Row, i: nat, changed: Option<map<string, Value>>)
    requires RowConforms(relations, row) && i < |row|
    requires if changed.None? then relations[i].optional && !relations[i].grouping
             else ColumnsConform(relations[i].columns, changed.value)
    ensures RowConforms(relations, row[i := changed])
  {
    hide ColumnsConform;
  }

  /**
   * A column is typed Optional or Null exactly when some row of the sources makes it NULL: a padded one, or one that holds
   * NULL in this column.
   */
  lemma ColumnIsExact(relations: seq<Relation>, qualifier: string, name: string, some: Row, i: nat, j: nat)
    requires RowConforms(relations, some) && i < |relations| && OnlyNamed(relations[i].columns, name, j)
    requires ColumnSource(relations, qualifier, name) == Some(i) && !(relations[i].grouping && relations[i].optional)
    requires some[i].Some?
    ensures ResolveColumn(relations, qualifier, name).Ok?
    ensures NullOrOptional(ResolveColumn(relations, qualifier, name).value) <==>
            exists row :: RowConforms(relations, row) && ColumnValue(relations, row, qualifier, name) == Missing
  {
    hide ColumnSource, ColumnsConform, Conforms, RowConforms;
    var l := NamedIsFirst(relations[i].columns, name);
    assert relations[i].columns[j] in relations[i].columns && l == j;
    var t := relations[i].columns[j].typ;
    var resolved := ResolveColumn(relations, qualifier, name).value;
    if NullOrOptional(resolved) {
      ColumnWitness(relations, some, i, j, name);
    }
    if row: Row :| RowConforms(relations, row) && ColumnValue(relations, row, qualifier, name) == Missing {
      ColumnSound(relations, row, qualifier, name);
      MissingIsNullable(resolved);
    }
    if NullOrOptional(resolved) {
      var row: Row :| RowConforms(relations, row) && NullIn(relations, row, i, name);
      assert ColumnValue(relations, row, qualifier, name) == Missing;
    }
  }

  predicate NullIn(relations: seq<Relation>, row: Row, i: nat, name: string) {
    i < |row| && (row[i].None? || (name in row[i].value && row[i].value[name] == Missing))
  }

  lemma MissingIsNullable(t: Type)
    requires Conforms(Missing, t)
    ensures NullOrOptional(t)
  {
  }

  lemma NullableIsMissing(t: Type)
    requires NullOrOptional(t)
    ensures Conforms(Missing, t)
  {
  }

  lemma ColumnWitness(relations: seq<Relation>, some: Row, i: nat, j: nat, name: string)
    requires RowConforms(relations, some) && i < |relations| && OnlyNamed(relations[i].columns, name, j)
    requires some[i].Some? && !(relations[i].grouping && relations[i].optional)
    requires relations[i].optional || NullOrOptional(relations[i].columns[j].typ)
    ensures exists row :: RowConforms(relations, row) && NullIn(relations, row, i, name)
  {
    hide Conforms;
    if relations[i].optional {
      ChangedRowConforms(relations, some, i, None);
      assert NullIn(relations, some[i := None], i, name);
    } else {
      NullableIsMissing(relations[i].columns[j].typ);
      var changed := some[i].value[name := Missing];
      forall k | 0 <= k < |relations[i].columns|
        ensures relations[i].columns[k].name in changed
        ensures Conforms(changed[relations[i].columns[k].name], relations[i].columns[k].typ)
      {
      }
      ChangedRowConforms(relations, some, i, Some(changed));
      assert NullIn(relations, some[i := Some(changed)], i, name);
    }
  }
}
