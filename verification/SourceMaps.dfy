/**
 * Rewriting a query text and mapping diagnostics back to the authored text
 * (wildcardRewrites.apply, positionInSQL, originalDiagnostics).  Offsets count characters.
 */
module SourceMaps {
  import opened Wrappers
  import opened Sorting

  datatype Replacement = Replacement(start: nat, end: nat, text: string)

  // ---------------------------------------------------------------- applying replacements

  /** Ascending, disjoint and inside a text of length n, from `cursor` on. */
  predicate Fits(replacements: seq<Replacement>, cursor: nat, n: nat) {
    if replacements == [] then cursor <= n
    else
      var r := replacements[0];
      cursor <= r.start <= r.end <= n && Fits(replacements[1..], r.end, n)
  }

  function Splice(source: string, replacements: seq<Replacement>, cursor: nat): string
    requires Fits(replacements, cursor, |source|)
  {
    if replacements == [] then source[cursor..]
    else
      var r := replacements[0];
      source[cursor..r.start] + (r.text + Splice(source, replacements[1..], r.end))
  }

  lemma {:induction false} FitsBounds(replacements: seq<Replacement>, cursor: nat, n: nat)
    requires Fits(replacements, cursor, n)
    ensures cursor <= n && forall r <- replacements :: cursor <= r.start <= r.end <= n
  {
    if replacements != [] {
      FitsBounds(replacements[1..], replacements[0].end, n);
    }
  }

  predicate StartsAtMost(a: Replacement, b: Replacement) {
    a.start <= b.start
  }

  class Rewrites {
    const source: string
    var replacements: seq<Replacement>

    constructor (source: string, replacements: seq<Replacement>)
      ensures this.source == source && this.replacements == replacements
    {
      this.source := source;
      this.replacements := replacements;
    }

    /** Which of two replacements with the same start comes first is not promised. */
    method SortByStart()
      modifies this
      ensures Ascending(StartsAtMost, replacements) && multiset(replacements) == multiset(old(replacements))
    {
      SortIsAscending(StartsAtMost, replacements);
      SortIsPermutation(StartsAtMost, replacements);
      replacements := Sort(StartsAtMost, replacements);
    }

    method Apply() returns (sql: Result<string>)
      modifies this
      ensures Ascending(StartsAtMost, replacements) && multiset(replacements) == multiset(old(replacements))
      ensures sql == if Fits(replacements, 0, |source|) then Ok(Splice(source, replacements, 0)) else Err
    {
      SortByStart();
      sql := WriteSpliced(source, replacements);
    }
  }

  method WriteSpliced(source: string, replacements: seq<Replacement>) returns (sql: Result<string>)
    ensures sql == if Fits(replacements, 0, |source|) then Ok(Splice(source, replacements, 0)) else Err
  {
    var text, cursor := "", 0;
    for i := 0 to |replacements|
      invariant 0 <= cursor <= |source|
      invariant Fits(replacements, 0, |source|) <==> Fits(replacements[i..], cursor, |source|)
      invariant Fits(replacements, 0, |source|) ==>
                  Splice(source, replacements, 0) == text + Splice(source, replacements[i..], cursor)
    {
      var replacement := replacements[i];
      assert replacements[i..][0] == replacement && replacements[i..][1..] == replacements[i + 1..];
      if replacement.start < cursor || replacement.end > |source| || replacement.start > replacement.end {
        return Err;
      }
      if Fits(replacements[i..], cursor, |source|) {
        Regroup(text, source[cursor..replacement.start], replacement.text, Splice(source, replacements[i + 1..], replacement.end));
      }
      text := text + source[cursor..replacement.start];
      text := text + replacement.text;
      cursor := replacement.end;
    }
    text := text + source[cursor..];
    return Ok(text);
  }

  predicate DistinctStarts(replacements: seq<Replacement>) {
    forall i, j | 0 <= i < j < |replacements| :: replacements[i].start < replacements[j].start
  }

  /** Without equal starts the sort has one possible outcome, so a fitting list is applied as it is. */
  lemma {:induction false} SortingIsDetermined(replacements: seq<Replacement>, sorted: seq<Replacement>)
    requires DistinctStarts(replacements)
    requires Ascending(StartsAtMost, sorted) && multiset(sorted) == multiset(replacements)
    ensures sorted == replacements
  {
    assert |sorted| == |multiset(sorted)| == |multiset(replacements)| == |replacements|;
    if replacements != [] {
      LeastStartIsFirst(replacements, sorted);
      SameTails(sorted, replacements);
      assert replacements == [replacements[0]] + replacements[1..] && sorted == [sorted[0]] + sorted[1..];
      SortingIsDetermined(replacements[1..], sorted[1..]);
    }
  }

  lemma LeastStartIsFirst(replacements: seq<Replacement>, sorted: seq<Replacement>)
    requires DistinctStarts(replacements) && replacements != [] && sorted != []
    requires Ascending(StartsAtMost, sorted) && multiset(sorted) == multiset(replacements)
    ensures sorted[0] == replacements[0]
  {
    SameElements(sorted, replacements, sorted[0]);
    SameElements(sorted, replacements, replacements[0]);
    var i :| 0 <= i < |replacements| && replacements[i] == sorted[0];
    var j :| 0 <= j < |sorted| && sorted[j] == replacements[0];
    if j > 0 {
      AscendingPairs(StartsAtMost, sorted, 0, j);
    }
  }

  // ---------------------------------------------------------------- where each character comes from

  /** The provenance of a character: kept from the authored text, or inserted for the span that starts at `at`. */
  datatype Origin = Kept(at: nat) | Inserted(at: nat)

  function Run(start: nat, end: nat): (origins: seq<Origin>)
    requires start <= end
    ensures |origins| == end - start
    ensures forall i | 0 <= i < end - start :: origins[i] == Kept(start + i)
  {
    seq(end - start, i requires 0 <= i => Kept(start + i))
  }

  /** The provenance of every character that Splice writes. */
  function Origins(replacements: seq<Replacement>, cursor: nat, n: nat): seq<Origin>
    requires Fits(replacements, cursor, n)
  {
    if replacements == [] then Run(cursor, n)
    else
      var r := replacements[0];
      Run(cursor, r.start) + (seq(|r.text|, _ => Inserted(r.start)) + Origins(replacements[1..], r.end, n))
  }

  /** The walk of originalDiagnostics over the replacements; `shift` is how far the text has moved so far. */
  function BackFrom(replacements: seq<Replacement>, index: nat, shift: int, original: int): int {
    if replacements == [] then original
    else
      var r := replacements[0];
      var start := r.start + shift;
      if index < start then original
      else if index < start + |r.text| then r.start
      else
        var next := shift + |r.text| - (r.end - r.start);
        BackFrom(replacements[1..], index, next, index - next)
  }

  function Back(replacements: seq<Replacement>, index: nat): int {
    BackFrom(replacements, index, 0, index)
  }

  lemma {:induction false} BackFollowsOrigins(source: string, replacements: seq<Replacement>, cursor: nat, shift: int, i: nat)
    requires Fits(replacements, cursor, |source|) && cursor + shift >= 0
    ensures |Origins(replacements, cursor, |source|)| == |Splice(source, replacements, cursor)|
    ensures var index := cursor + shift + i;
            i < |Splice(source, replacements, cursor)| ==>
              BackFrom(replacements, index, shift, index - shift) == Origins(replacements, cursor, |source|)[i].at
    ensures i == |Splice(source, replacements, cursor)| ==>
              BackFrom(replacements, cursor + shift + i, shift, cursor + i) == |source|
  {
    if replacements != [] {
      var r := replacements[0];
      var done := r.start - cursor + |r.text|;
      var next := shift + |r.text| - (r.end - r.start);
      BackFollowsOrigins(source, replacements[1..], r.end, next, if i >= done then i - done else 0);
    }
  }

  lemma SpliceAt(source: string, replacements: seq<Replacement>, cursor: nat, i: nat)
    requires replacements != [] && Fits(replacements, cursor, |source|) && i < |Splice(source, replacements, cursor)|
    ensures var r := replacements[0];
            var kept, rest := r.start - cursor, Splice(source, replacements[1..], r.end);
            && |Splice(source, replacements, cursor)| == kept + |r.text| + |rest|
            && Splice(source, replacements, cursor)[i] ==
               if i < kept then source[cursor + i] else if i < kept + |r.text| then r.text[i - kept] else rest[i - kept - |r.text|]
  {
  }

  lemma OriginAt(replacements: seq<Replacement>, cursor: nat, n: nat, i: nat)
    requires replacements != [] && Fits(replacements, cursor, n) && i < |Origins(replacements, cursor, n)|
    ensures var r := replacements[0];
            var kept, rest := r.start - cursor, Origins(replacements[1..], r.end, n);
            && |Origins(replacements, cursor, n)| == kept + |r.text| + |rest|
            && Origins(replacements, cursor, n)[i] ==
               if i < kept then Kept(cursor + i) else if i < kept + |r.text| then Inserted(r.start) else rest[i - kept - |r.text|]
  {
  }

  lemma {:induction false} KeptCharacters(source: string, replacements: seq<Replacement>, cursor: nat, i: nat)
    requires Fits(replacements, cursor, |source|) && i < |Splice(source, replacements, cursor)|
    ensures |Origins(replacements, cursor, |source|)| == |Splice(source, replacements, cursor)|
    ensures var origin := Origins(replacements, cursor, |source|)[i];
            && cursor <= origin.at <= |source|
            && (origin.Kept? ==> origin.at < |source| && Splice(source, replacements, cursor)[i] == source[origin.at])
  {
    BackFollowsOrigins(source, replacements, cursor, 0, i);
    if replacements != [] {
      hide Splice, Origins;
      var r := replacements[0];
      var done := r.start - cursor + |r.text|;
      FitsBounds(replacements, cursor, |source|);
      FitsBounds(replacements[1..], r.end, |source|);
      SpliceAt(source, replacements, cursor, i);
      OriginAt(replacements, cursor, |source|, i);
      if i >= done {
        KeptCharacters(source, replacements[1..], r.end, i - done);
      }
    }
  }

  lemma {:induction false} OriginsAscend(source: string, replacements: seq<Replacement>, cursor: nat, i: nat, j: nat)
    requires Fits(replacements, cursor, |source|) && i <= j < |Origins(replacements, cursor, |source|)|
    ensures Origins(replacements, cursor, |source|)[i].at <= Origins(replacements, cursor, |source|)[j].at
  {
    if replacements != [] {
      var r := replacements[0];
      var done := r.start - cursor + |r.text|;
      BackFollowsOrigins(source, replacements, cursor, 0, 0);
      BackFollowsOrigins(source, replacements[1..], r.end, 0, 0);
      if i >= done {
        OriginsAscend(source, replacements[1..], r.end, i - done, j - done);
      } else if j >= done {
        KeptCharacters(source, replacements[1..], r.end, j - done);
      }
    }
  }

  /** A character no replacement covers. */
  predicate Untouched(replacements: seq<Replacement>, k: nat) {
    forall r <- replacements :: !(r.start <= k < r.end)
  }

  /** Where an untouched character ends up: every replacement that ends before it moves it. */
  function Forward(replacements: seq<Replacement>, k: nat): int {
    if replacements == [] || replacements[0].end > k then k
    else |replacements[0].text| - (replacements[0].end - replacements[0].start) + Forward(replacements[1..], k)
  }

  lemma {:induction false} ForwardIsKept(source: string, replacements: seq<Replacement>, cursor: nat, k: nat)
    requires Fits(replacements, cursor, |source|) && Untouched(replacements, k) && cursor <= k < |source|
    ensures var i := Forward(replacements, k) - cursor;
            && 0 <= i < |Origins(replacements, cursor, |source|)|
            && Origins(replacements, cursor, |source|)[i] == Kept(k)
  {
    if replacements != [] {
      var r := replacements[0];
      if r.end <= k {
        ForwardIsKept(source, replacements[1..], r.end, k);
      } else {
        assert r in replacements;
      }
    }
  }

  /**
   * The map is right on every position of the rewritten text: untouched characters go back to themselves, inserted ones
   * to the start of the span they replaced, the end to the end; and it is monotone and in bounds.
   */
  lemma BackIsCorrect(source: string, replacements: seq<Replacement>)
    requires Fits(replacements, 0, |source|)
    ensures var rewritten, origins := Splice(source, replacements, 0), Origins(replacements, 0, |source|);
            && |origins| == |rewritten|
            && Back(replacements, |rewritten|) == |source|
            && (forall i | 0 <= i < |rewritten| ::
                  && Back(replacements, i) == origins[i].at
                  && 0 <= origins[i].at <= |source|
                  && (origins[i].Kept? ==> origins[i].at < |source| && rewritten[i] == source[origins[i].at]))
            && (forall k | 0 <= k < |source| && Untouched(replacements, k) ::
                  0 <= Forward(replacements, k) < |rewritten| && origins[Forward(replacements, k)] == Kept(k))
  {
    var rewritten := Splice(source, replacements, 0);
    BackFollowsOrigins(source, replacements, 0, 0, |rewritten|);
    forall i | 0 <= i < |rewritten|
      ensures Back(replacements, i) == Origins(replacements, 0, |source|)[i].at
      ensures var origin := Origins(replacements, 0, |source|)[i];
              && 0 <= origin.at <= |source|
              && (origin.Kept? ==> origin.at < |source| && rewritten[i] == source[origin.at])
    {
      BackFollowsOrigins(source, replacements, 0, 0, i);
      KeptCharacters(source, replacements, 0, i);
    }
    forall k | 0 <= k < |source| && Untouched(replacements, k)
      ensures 0 <= Forward(replacements, k) < |rewritten| && Origins(replacements, 0, |source|)[Forward(replacements, k)] == Kept(k)
    {
      ForwardIsKept(source, replacements, 0, k);
    }
  }

  lemma BackIsMonotone(source: string, replacements: seq<Replacement>, i: nat, j: nat)
    requires Fits(replacements, 0, |source|) && i <= j <= |Splice(source, replacements, 0)|
    ensures 0 <= Back(replacements, i) <= Back(replacements, j) <= |source|
  {
    BackIsCorrect(source, replacements);
    if j < |Splice(source, replacements, 0)| {
      OriginsAscend(source, replacements, 0, i, j);
    }
  }

  // ---------------------------------------------------------------- lines and columns

  datatype Position = Position(line: int, column: int)

  function Advance(p: Position, c: char): Position {
    if c == '\n' then Position(p.line + 1, 1) else Position(p.line, p.column + 1)
  }

  /** positionInSQL. */
  function PositionIn(startLine: int, sql: string, index: nat): Position
    requires index <= |sql|
  {
    if index == 0 then Position(startLine, 1)
    else Advance(PositionIn(startLine, sql, index - 1), sql[index - 1])
  }

  /**
   * The position as an editor counts it: one line for every newline before the index, and in that line one column for
   * every character since the last newline, both counted from the start.
   */
  predicate IsPlace(startLine: int, sql: string, index: nat, p: Position) {
    && index <= |sql| && 1 <= p.column <= index + 1
    && p.line == startLine + multiset(sql[..index])['\n']
    && var b := index + 1 - p.column;
       '\n' !in sql[b..index] && (b == 0 || sql[b - 1] == '\n')
  }

  lemma NextPlace(startLine: int, sql: string, index: nat, p: Position)
    requires index < |sql| && IsPlace(startLine, sql, index, p)
    ensures IsPlace(startLine, sql, index + 1, Advance(p, sql[index]))
  {
    var b := index + 1 - p.column;
    assert sql[..index + 1] == sql[..index] + [sql[index]];
    if sql[index] == '\n' {
      assert sql[index + 1..index + 1] == "";
    } else {
      assert sql[b..index + 1] == sql[b..index] + [sql[index]];
    }
  }

  lemma PlaceIsUnique(startLine: int, sql: string, index: nat, p: Position, q: Position)
    requires IsPlace(startLine, sql, index, p) && IsPlace(startLine, sql, index, q)
    ensures q.column <= p.column
  {
    var c := index + 1 - q.column;
    forall k | c <= k < index ensures sql[k] != '\n' {
      assert sql[c..index][k - c] == sql[k];
    }
  }

  lemma {:induction false} PositionIsAPlace(startLine: int, sql: string, index: nat)
    requires index <= |sql|
    ensures IsPlace(startLine, sql, index, PositionIn(startLine, sql, index))
    decreases index
  {
    hide IsPlace;
    if index > 0 {
      PositionIsAPlace(startLine, sql, index - 1);
      NextPlace(startLine, sql, index - 1, PositionIn(startLine, sql, index - 1));
    } else {
      StartIsAPlace(startLine, sql);
    }
  }

  lemma StartIsAPlace(startLine: int, sql: string)
    ensures IsPlace(startLine, sql, 0, Position(startLine, 1))
  {
    assert sql[..0] == "" && sql[0..0] == "";
  }

  /** Every index has one place, and positionInSQL finds it. */
  lemma PositionIsPlace(startLine: int, sql: string, index: nat, p: Position)
    requires index <= |sql|
    ensures p == PositionIn(startLine, sql, index) <==> IsPlace(startLine, sql, index, p)
  {
    hide PositionIn;
    var q := PositionIn(startLine, sql, index);
    PositionIsAPlace(startLine, sql, index);
    if IsPlace(startLine, sql, index, p) {
      PlaceIsUnique(startLine, sql, index, p, q);
      PlaceIsUnique(startLine, sql, index, q, p);
    }
  }

  method ComputePosition(startLine: int, sql: string, index: nat) returns (p: Position)
    requires index <= |sql|
    ensures p == PositionIn(startLine, sql, index) && IsPlace(startLine, sql, index, p)
  {
    var line, column := startLine, 1;
    for i := 0 to index
      invariant Position(line, column) == PositionIn(startLine, sql, i)
    {
      if sql[i] == '\n' {
        line := line + 1;
        column := 1;
      } else {
        column := column + 1;
      }
    }
    PositionIsPlace(startLine, sql, index, Position(line, column));
    return Position(line, column);
  }

  predicate Precedes(p: Position, q: Position) {
    p.line < q.line || (p.line == q.line && p.column < q.column)
  }

  /** The index at which the walk of originalDiagnostics stops: the first one not before the position. */
  function IndexAt(startLine: int, sql: string, p: Position, from: nat): (i: nat)
    requires from <= |sql|
    ensures from <= i <= |sql|
    decreases |sql| - from
  {
    if from < |sql| && Precedes(PositionIn(startLine, sql, from), p) then IndexAt(startLine, sql, p, from + 1) else from
  }

  lemma {:induction false} PositionsAscend(startLine: int, sql: string, i: nat, j: nat)
    requires i < j <= |sql|
    ensures Precedes(PositionIn(startLine, sql, i), PositionIn(startLine, sql, j))
    ensures PositionIn(startLine, sql, i).column >= 1
    decreases j
  {
    if i > 0 {
      PositionsAscend(startLine, sql, i - 1, i);
      ColumnsStartAtOne(startLine, sql, i);
    }
    if i + 1 < j {
      PositionsAscend(startLine, sql, i, j - 1);
    }
  }

  lemma {:induction false} ColumnsStartAtOne(startLine: int, sql: string, i: nat)
    requires i <= |sql|
    ensures PositionIn(startLine, sql, i).column >= 1
  {
    if i > 0 {
      ColumnsStartAtOne(startLine, sql, i - 1);
    }
  }

  /** Converting an index to a position and back loses nothing. */
  lemma {:induction false} IndexOfPosition(startLine: int, sql: string, i: nat, from: nat)
    requires from <= i <= |sql|
    ensures IndexAt(startLine, sql, PositionIn(startLine, sql, i), from) == i
    decreases i - from
  {
    if from < i {
      PositionsAscend(startLine, sql, from, i);
      IndexOfPosition(startLine, sql, i, from + 1);
    }
  }

  // ---------------------------------------------------------------- chains of source maps

  datatype SourceMap = SourceMap(original: string, rewritten: string, replacements: seq<Replacement>, parent: Option<SourceMap>)

  /** Every map of the chain describes its rewriting, and each rewrites what its parent wrote. */
  predicate Describes(m: SourceMap) {
    && Fits(m.replacements, 0, |m.original|)
    && m.rewritten == Splice(m.original, m.replacements, 0)
    && (m.parent.Some? ==> m.parent.value.rewritten == m.original && Describes(m.parent.value))
  }

  function Authored(m: SourceMap): string {
    if m.parent.None? then m.original else Authored(m.parent.value)
  }

  function MapPosition(startLine: int, m: SourceMap, p: Position): Position
    requires Describes(m)
  {
    var index := IndexAt(startLine, m.rewritten, p, 0);
    BackIsMonotone(m.original, m.replacements, index, index);
    var back := PositionIn(startLine, m.original, Back(m.replacements, index));
    if m.parent.None? then back else MapPosition(startLine, m.parent.value, back)
  }

  /** originalDiagnostics: every position is overwritten with the authored one. */
  method OriginalPositions(startLine: int, chain: Option<SourceMap>, positions: array<Position>)
    requires chain.Some? ==> Describes(chain.value)
    modifies positions
    ensures forall k | 0 <= k < positions.Length ::
              positions[k] == if chain.None? then old(positions[k]) else MapPosition(startLine, chain.value, old(positions[k]))
  {
    if chain.None? { return; }
    for k := 0 to positions.Length
      invariant forall j | 0 <= j < k :: positions[j] == MapPosition(startLine, chain.value, old(positions[j]))
      invariant forall j | k <= j < positions.Length :: positions[j] == old(positions[j])
    {
      var sourceMap := chain;
      while sourceMap.Some?
        invariant sourceMap.Some? ==> Describes(sourceMap.value)
        invariant MapPosition(startLine, chain.value, old(positions[k])) ==
                  if sourceMap.None? then positions[k] else MapPosition(startLine, sourceMap.value, positions[k])
        invariant forall j | 0 <= j < positions.Length && j != k ::
                    positions[j] ==
                    if j < k then MapPosition(startLine, chain.value, old(positions[j])) else old(positions[j])
        decreases sourceMap
      {
        var m := sourceMap.value;
        var index := WalkTo(startLine, m.rewritten, positions[k]);
        var original := WalkBack(m, index);
        BackIsMonotone(m.original, m.replacements, index, index);
        positions[k] := ComputePosition(startLine, m.original, original);
        sourceMap := m.parent;
      }
    }
  }

  method WalkTo(startLine: int, sql: string, position: Position) returns (index: nat)
    ensures index == IndexAt(startLine, sql, position, 0)
  {
    var line, column := startLine, 1;
    index := 0;
    while index < |sql| && (line < position.line || (line == position.line && column < position.column))
      invariant index <= |sql| && Position(line, column) == PositionIn(startLine, sql, index)
      invariant IndexAt(startLine, sql, position, 0) == IndexAt(startLine, sql, position, index)
    {
      var c := sql[index];
      index := index + 1;
      if c == '\n' {
        line := line + 1;
        column := 1;
      } else {
        column := column + 1;
      }
    }
  }

  method WalkBack(m: SourceMap, index: nat) returns (original: nat)
    requires Describes(m) && index <= |m.rewritten|
    ensures original == Back(m.replacements, index)
  {
    BackIsMonotone(m.original, m.replacements, index, index);
    var shift, back := 0, index as int;
    for i := 0 to |m.replacements|
      invariant back == index - shift
      invariant Back(m.replacements, index) == BackFrom(m.replacements[i..], index, shift, back)
    {
      var replacement := m.replacements[i];
      assert m.replacements[i..][0] == replacement && m.replacements[i..][1..] == m.replacements[i + 1..];
      var start := replacement.start + shift;
      var end := start + |replacement.text|;
      if index < start { break; }
      if index < end {
        back := replacement.start;
        break;
      }
      shift := shift + |replacement.text| - (replacement.end - replacement.start);
      back := index - shift;
    }
    original := back;
  }

  // ---------------------------------------------------------------- chains are right

  /** The authored offset of an offset in the text the chain ends in. */
  function ChainBack(m: SourceMap, index: nat): nat
    requires Describes(m) && index <= |m.rewritten|
  {
    BackIsMonotone(m.original, m.replacements, index, index);
    var back := Back(m.replacements, index);
    if m.parent.None? then back else ChainBack(m.parent.value, back)
  }

  /** Characters that every rewriting of the chain kept. */
  predicate KeptThroughout(m: SourceMap, index: nat)
    requires Describes(m) && index < |m.rewritten|
  {
    BackIsCorrect(m.original, m.replacements);
    var origin := Origins(m.replacements, 0, |m.original|)[index];
    origin.Kept? && (m.parent.Some? ==> KeptThroughout(m.parent.value, origin.at))
  }

  /** A diagnostic at an offset of the executed text is reported at the position of its authored offset. */
  lemma {:induction false} ChainMapsPositions(startLine: int, m: SourceMap, index: nat)
    requires Describes(m) && index <= |m.rewritten|
    ensures ChainBack(m, index) <= |Authored(m)|
    ensures MapPosition(startLine, m, PositionIn(startLine, m.rewritten, index)) ==
            PositionIn(startLine, Authored(m), ChainBack(m, index))
    ensures IsPlace(startLine, Authored(m), ChainBack(m, index), MapPosition(startLine, m, PositionIn(startLine, m.rewritten, index)))
    decreases m
  {
    hide IsPlace;
    IndexOfPosition(startLine, m.rewritten, index, 0);
    BackIsMonotone(m.original, m.replacements, index, index);
    if m.parent.Some? {
      ChainMapsPositions(startLine, m.parent.value, Back(m.replacements, index));
    }
    PositionIsPlace(startLine, Authored(m), ChainBack(m, index), PositionIn(startLine, Authored(m), ChainBack(m, index)));
  }

  /** A character kept throughout is reported at its own authored place. */
  lemma {:induction false} ChainKeepsCharacters(m: SourceMap, index: nat)
    requires Describes(m) && index < |m.rewritten| && KeptThroughout(m, index)
    ensures ChainBack(m, index) < |Authored(m)| && Authored(m)[ChainBack(m, index)] == m.rewritten[index]
    decreases m
  {
    BackIsCorrect(m.original, m.replacements);
    var origin := Origins(m.replacements, 0, |m.original|)[index];
    assert Back(m.replacements, index) == origin.at;
    if m.parent.Some? {
      ChainKeepsCharacters(m.parent.value, origin.at);
    }
  }

  /** Later offsets are never reported before earlier ones. */
  lemma {:induction false} ChainIsMonotone(m: SourceMap, i: nat, j: nat)
    requires Describes(m) && i <= j <= |m.rewritten|
    ensures ChainBack(m, i) <= ChainBack(m, j) <= |Authored(m)|
    decreases m
  {
    BackIsMonotone(m.original, m.replacements, i, j);
    if m.parent.Some? {
      ChainIsMonotone(m.parent.value, Back(m.replacements, i), Back(m.replacements, j));
    }
  }

  // ---------------------------------------------------------------- the inserted pragma

  /** strings.IndexByte(s, '\n'). */
  function FirstNewline(s: string): Option<nat> {
    if s == [] then None
    else if s[0] == '\n' then Some(0)
    else
      match FirstNewline(s[1..])
      case None => None
      case Some(i) => Some(i + 1)
  }

  function PragmaLine(sql: string, first: nat): string
    requires first < |sql|
  {
    "PRAGMA OrderedColumns;" + if first > 0 && sql[first - 1] == '\r' then "\r\n" else "\n"
  }

  datatype Executable = Executable(sql: string, replacements: seq<Replacement>)

  /**
   * The pragma of analyzeExecutableQuery: it goes behind the first line of the rewritten text, and its entry in front
   * of the other replacements.  Err is the diagnostic for a text without a newline.
   */
  function WithPragma(sql: string, replacements: seq<Replacement>): Result<Executable> {
    match FirstNewline(sql)
    case None => Err
    case Some(first) =>
      FirstNewlineIs(sql, first);
      var pragma := PragmaLine(sql, first);
      Ok(Executable(sql[..first + 1] + pragma + sql[first + 1..], [Replacement(first + 1, first + 1, pragma)] + replacements))
  }

  /** The search returns a newline with none in front of it, or nothing where there is none. */
  lemma {:induction false} FirstNewlineIs(s: string, first: nat)
    ensures FirstNewline(s) == Some(first) <==> first < |s| && s[first] == '\n' && '\n' !in s[..first]
    decreases |s|
  {
    if s != [] && s[0] != '\n' && first > 0 {
      FirstNewlineIs(s[1..], first - 1);
      if first < |s| {
        assert s[..first] == [s[0]] + s[1..][..first - 1];
      }
    }
  }

  lemma {:induction false} SpliceAfter(source: string, replacements: seq<Replacement>, cursor: nat, later: nat)
    requires Fits(replacements, cursor, |source|) && cursor <= later
    requires replacements != [] ==> later <= replacements[0].start
    requires later <= |source|
    ensures Fits(replacements, later, |source|)
    ensures Splice(source, replacements, cursor) == source[cursor..later] + Splice(source, replacements, later)
  {
    if replacements == [] {
      assert source[cursor..] == source[cursor..later] + source[later..];
    } else {
      var r := replacements[0];
      var rest := Splice(source, replacements[1..], r.end);
      assert source[cursor..r.start] == source[cursor..later] + source[later..r.start];
      Reassociate(source[cursor..later], source[later..r.start], r.text + rest);
    }
  }

  lemma Reassociate(a: string, b: string, c: string)
    ensures (a + b) + c == a + (b + c)
  {
  }

  lemma Regroup(a: string, b: string, c: string, d: string)
    ensures a + b + c + d == a + (b + (c + d))
  {
  }

  /** No replacement starts in the first line. */
  predicate BehindFirstLine(source: string, replacements: seq<Replacement>) {
    && FirstNewline(source).Some?
    && forall r <- replacements :: r.start > FirstNewline(source).value
  }

  /**
   * The entry is recorded in offsets of the authored text, although the newline is searched in the rewritten one.  The
   * list describes the executed text exactly when no replacement starts in the first line of the authored text, which
   * is the annotation in every query block.  Both texts then have the same first line, and the pragma is inserted.
   */
  lemma PragmaEntryIsRight(source: string, replacements: seq<Replacement>)
    requires Fits(replacements, 0, |source|)
    ensures var sql := Splice(source, replacements, 0);
            && (BehindFirstLine(source, replacements) <==>
                && WithPragma(sql, replacements).Ok?
                && var executable := WithPragma(sql, replacements).value;
                   && Fits(executable.replacements, 0, |source|)
                   && Splice(source, executable.replacements, 0) == executable.sql)
            && (BehindFirstLine(source, replacements) ==>
                  && FirstNewline(sql) == FirstNewline(source)
                  && sql[..FirstNewline(source).value + 1] <= source)
  {
    hide FirstNewline, PragmaLine, Splice;
    var sql := Splice(source, replacements, 0);
    if BehindFirstLine(source, replacements) {
      var first := FirstNewline(source).value;
      FirstNewlineIs(source, first);
      FirstLineIsKept(source, replacements, first);
      FirstNewlineIs(sql, first);
      EntryIsSpliced(source, replacements, first, PragmaLine(sql, first));
    } else if WithPragma(sql, replacements).Ok? {
      var first := FirstNewline(sql).value;
      var all := WithPragma(sql, replacements).value.replacements;
      FirstNewlineIs(sql, first);
      assert all[1..] == replacements;
      if Fits(all, 0, |source|) {
        FitsBounds(replacements, first + 1, |source|);
        FirstLineIsKept(source, replacements, first);
        FirstNewlineIs(source, first);
      }
    }
  }

  lemma FirstLineIsKept(source: string, replacements: seq<Replacement>, first: nat)
    requires Fits(replacements, 0, |source|) && first < |source| && forall r <- replacements :: r.start > first
    ensures var sql := Splice(source, replacements, 0);
            && Fits(replacements, first + 1, |source|)
            && sql == source[..first + 1] + Splice(source, replacements, first + 1)
            && first < |sql| && sql[first] == source[first] && sql[..first] == source[..first]
            && sql[..first + 1] == source[..first + 1]
  {
    if replacements != [] {
      assert replacements[0] in replacements;
    }
    SpliceAfter(source, replacements, 0, first + 1);
    assert source[0..first + 1] == source[..first + 1];
  }

  lemma EntryIsSpliced(source: string, replacements: seq<Replacement>, first: nat, pragma: string)
    requires Fits(replacements, 0, |source|) && first < |source| && forall r <- replacements :: r.start > first
    ensures var all, sql := [Replacement(first + 1, first + 1, pragma)] + replacements, Splice(source, replacements, 0);
            && Fits(all, 0, |source|) && first < |sql|
            && Splice(source, all, 0) == sql[..first + 1] + pragma + sql[first + 1..]
  {
    var all, sql := [Replacement(first + 1, first + 1, pragma)] + replacements, Splice(source, replacements, 0);
    assert all[1..] == replacements;
    FirstLineIsKept(source, replacements, first);
    var rest := Splice(source, replacements, first + 1);
    assert sql[first + 1..] == rest;
    assert source[0..first + 1] == source[..first + 1];
    Reassociate(source[..first + 1], pragma, rest);
  }

  /** So a block that starts with its annotation keeps a right chain of maps over the text that is executed. */
  lemma PragmaKeepsTheChain(m: SourceMap)
    requires Describes(m) && BehindFirstLine(m.original, m.replacements)
    ensures WithPragma(m.rewritten, m.replacements).Ok?
    ensures var executable := WithPragma(m.rewritten, m.replacements).value;
            Describes(SourceMap(m.original, executable.sql, executable.replacements, m.parent))
  {
    PragmaEntryIsRight(m.original, m.replacements);
  }

  /** The text between newlines. */
  function LinesOf(s: string): (lines: seq<string>)
    ensures lines != []
    decreases |s|
  {
    match FirstNewline(s)
    case None => [s]
    case Some(i) =>
      FirstNewlineIs(s, i);
      [s[..i]] + LinesOf(s[i + 1..])
  }

  lemma LinesBehind(line: string, rest: string)
    requires '\n' !in line
    ensures LinesOf(line + "\n" + rest) == [line] + LinesOf(rest)
  {
    var s := line + "\n" + rest;
    assert s[|line|] == '\n' && s[..|line|] == line && s[|line| + 1..] == rest;
    FirstNewlineIs(s, |line|);
  }

  /** The pragma is the second line of the executed text and ends like the first one; all other lines stay. */
  lemma PragmaIsSecondLine(sql: string, replacements: seq<Replacement>)
    ensures WithPragma(sql, replacements).Ok? <==> |LinesOf(sql)| > 1
    ensures WithPragma(sql, replacements).Ok? ==>
              var lines := LinesOf(sql);
              var ending := if lines[0] != "" && lines[0][|lines[0]| - 1] == '\r' then "\r" else "";
              LinesOf(WithPragma(sql, replacements).value.sql) == [lines[0], "PRAGMA OrderedColumns;" + ending] + lines[1..]
  {
    hide FirstNewline, PragmaLine, LinesOf;
    SplitLines(sql);
    if FirstNewline(sql).Some? {
      var first := FirstNewline(sql).value;
      FirstNewlineIs(sql, first);
      PragmaBehindLine(sql, first, sql[..first], sql[first + 1..]);
    }
  }

  lemma SplitLines(sql: string)
    ensures FirstNewline(sql).None? ==> LinesOf(sql) == [sql]
    ensures FirstNewline(sql).Some? ==>
              && FirstNewline(sql).value < |sql|
              && var first := FirstNewline(sql).value; LinesOf(sql) == [sql[..first]] + LinesOf(sql[first + 1..])
  {
    hide FirstNewline;
    if FirstNewline(sql).Some? { FirstNewlineIs(sql, FirstNewline(sql).value); }
  }

  lemma PragmaBehindLine(sql: string, first: nat, line: string, rest: string)
    requires first < |sql| && sql[first] == '\n' && '\n' !in sql[..first] && line == sql[..first] && rest == sql[first + 1..]
    ensures var ending := if line != "" && line[|line| - 1] == '\r' then "\r" else "";
            LinesOf(sql[..first + 1] + PragmaLine(sql, first) + rest) ==
            [line, "PRAGMA OrderedColumns;" + ending] + LinesOf(rest)
  {
    hide PragmaLine, LinesOf;
    var pragma := "PRAGMA OrderedColumns;" + if line != "" && line[|line| - 1] == '\r' then "\r" else "";
    PragmaLineIs(sql, first, pragma);
    var text := pragma + "\n" + rest;
    assert sql[..first + 1] == line + "\n";
    RegroupLines(line, pragma, rest);
    LinesBehind(line, text);
    LinesBehind(pragma, rest);
  }

  lemma RegroupLines(line: string, pragma: string, rest: string)
    ensures (line + "\n") + (pragma + "\n") + rest == line + "\n" + (pragma + "\n" + rest)
  {
  }

  lemma PragmaLineIs(sql: string, first: nat, pragma: string)
    requires first < |sql|
    requires pragma == "PRAGMA OrderedColumns;" + if first > 0 && sql[first - 1] == '\r' then "\r" else ""
    ensures PragmaLine(sql, first) == pragma + "\n" && '\n' !in pragma
  {
  }
}
