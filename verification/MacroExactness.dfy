/** Which macro calls are accepted, and what exactly is written in their place (lowerSQLCArguments). */
module MacroExactness {
  import opened Wrappers
  import opened SourceMaps
  import opened Text
  import opened MacroLowering

  predicate IsHead(tokens: seq<Token>, i: nat) {
    i + 3 < |tokens| && IsMacroHead(tokens, i)
  }

  predicate IsCalled(tokens: seq<Token>, i: nat, macro: string)
    requires i + 3 < |tokens|
  {
    EqualFold(tokens[i + 2].text, macro)
  }

  /** `IN (` before the call and `)` behind it. */
  predicate InParentheses(tokens: seq<Token>, i: nat) {
    && i >= 2 && i + 6 < |tokens| && tokens[i - 2].kind == In && tokens[i - 1].kind == LParen && tokens[i + 6].kind == RParen
  }

  /** One argument with a nonempty name, and a slice stands directly after IN or alone in the parentheses after it. */
  predicate WellWritten(tokens: seq<Token>, i: nat) {
    && i + 5 < |tokens| && tokens[i + 5].kind == RParen
    && ArgumentName(tokens[i + 4]).Some? && ArgumentName(tokens[i + 4]).value != ""
    && (IsCalled(tokens, i, "slice") ==> (i >= 1 && tokens[i - 1].kind == In) || InParentheses(tokens, i))
  }

  /** Two calls for one name agree on being narg, and on being slice. */
  predicate Agree(tokens: seq<Token>, j: nat, k: nat)
    requires j + 3 < |tokens| && k + 3 < |tokens|
  {
    && (IsCalled(tokens, j, "narg") <==> IsCalled(tokens, k, "narg"))
    && (IsCalled(tokens, j, "slice") <==> IsCalled(tokens, k, "slice"))
  }

  ghost predicate AllAgree(tokens: seq<Token>, i: nat) {
    forall j, k, name | 0 <= j < k && i <= k && IsMacroFor(tokens, j, name) && IsMacroFor(tokens, k, name) :: Agree(tokens, j, k)
  }

  predicate AllWellWritten(tokens: seq<Token>, i: nat) {
    forall k | i <= k < |tokens| && IsHead(tokens, k) :: WellWritten(tokens, k)
  }

  /** What the scan asks of one call, given the arguments so far. */
  lemma AcceptedCall(tokens: seq<Token>, i: nat, arguments: map<string, Argument>)
    requires IsHead(tokens, i)
    ensures MacroAt(tokens, i, arguments).Ok? <==>
            && WellWritten(tokens, i)
            && var name := ArgumentName(tokens[i + 4]).value;
               name in arguments ==> SameUse(arguments[name], ArgumentAt(tokens, i))
    ensures MacroAt(tokens, i, arguments).Ok? ==>
              && Some(MacroAt(tokens, i, arguments).value) == ArgumentName(tokens[i + 4])
              && IsMacroFor(tokens, i, MacroAt(tokens, i, arguments).value)
  {
    hide EqualFold, Undoubled;
  }

  /** No call starts inside another one. */
  lemma NoHeadInside(tokens: seq<Token>, i: nat, k: nat)
    requires i + 5 < |tokens| && IsMacroHead(tokens, i) && tokens[i + 5].kind == RParen
    requires i < k < i + (if ParenthesizedSlice(tokens, i) then 7 else 6)
    ensures !IsHead(tokens, k)
  {
    hide EqualFold, ArgumentName;
  }

  lemma {:induction false} ScanSucceeds(tokens: seq<Token>, i: nat, scan: Scan)
    requires !scan.failed && Records(tokens, i, scan.arguments)
    ensures !ScanFrom(tokens, i, scan).failed <==> AllWellWritten(tokens, i) && AllAgree(tokens, i)
    decreases |tokens| - i
  {
    hide IsMacroHead, Record, Records, ArgumentName, EqualFold, WellWritten, AllWellWritten, AllAgree, MacroAt, ParenthesizedSlice;
    if i + 3 >= |tokens| {
      NothingLeft(tokens, i);
    } else if !IsMacroHead(tokens, i) {
      StepRecords(tokens, i, scan.arguments);
      ScanSucceeds(tokens, i + 1, scan);
      NoCallHere(tokens, i, i + 1);
    } else {
      var step := MacroAt(tokens, i, scan.arguments);
      if step.Err? {
        FailureStays(tokens, i + 1, scan.(failed := true));
        RejectedCall(tokens, i, scan.arguments);
      } else {
        AcceptedCall(tokens, i, scan.arguments);
        var next := i + (if ParenthesizedSlice(tokens, i) then 7 else 6);
        RecordRecords(tokens, i, step.value, scan);
        RecordFails(tokens, i, step.value, scan);
        ScanSucceeds(tokens, next, Record(tokens, i, step.value, scan));
        OneCallHere(tokens, i, next, scan.arguments);
      }
    }
  }

  lemma RecordFails(tokens: seq<Token>, i: nat, name: string, scan: Scan)
    requires i + 5 < |tokens|
    ensures Record(tokens, i, name, scan).failed == scan.failed
  {
  }

  lemma NothingLeft(tokens: seq<Token>, i: nat)
    requires i + 3 >= |tokens|
    ensures AllWellWritten(tokens, i) && AllAgree(tokens, i)
  {
    hide IsMacroHead, ArgumentName, EqualFold;
  }

  lemma NoCallHere(tokens: seq<Token>, i: nat, next: nat)
    requires i < next && forall k | i <= k < next :: !IsHead(tokens, k)
    ensures AllWellWritten(tokens, i) <==> AllWellWritten(tokens, next)
    ensures AllAgree(tokens, i) <==> AllAgree(tokens, next)
  {
    hide IsMacroHead, ArgumentName, EqualFold, WellWritten;
    forall k, name | i <= k < next ensures !IsMacroFor(tokens, k, name) {
      assert !IsHead(tokens, k);
    }
  }

  lemma RejectedCall(tokens: seq<Token>, i: nat, arguments: map<string, Argument>)
    requires IsHead(tokens, i) && MacroAt(tokens, i, arguments).Err? && Records(tokens, i, arguments)
    ensures !(AllWellWritten(tokens, i) && AllAgree(tokens, i))
  {
    hide IsMacroHead, ArgumentName, EqualFold, MacroAt;
    AcceptedCall(tokens, i, arguments);
    if WellWritten(tokens, i) {
      var name := ArgumentName(tokens[i + 4]).value;
      var k :| 0 <= k < i && IsFirstMacroFor(tokens, k, name) && arguments[name] == ArgumentAt(tokens, k);
      assert IsMacroFor(tokens, k, name) && IsMacroFor(tokens, i, name) && !Agree(tokens, k, i);
    }
  }

  lemma OneCallHere(tokens: seq<Token>, i: nat, next: nat, arguments: map<string, Argument>)
    requires IsHead(tokens, i) && MacroAt(tokens, i, arguments).Ok? && Records(tokens, i, arguments) && i + 5 < |tokens|
    requires next == i + (if ParenthesizedSlice(tokens, i) then 7 else 6)
    ensures AllWellWritten(tokens, i) <==> AllWellWritten(tokens, next)
    ensures AllAgree(tokens, i) <==> AllAgree(tokens, next)
  {
    hide IsMacroHead, ArgumentName, EqualFold, MacroAt, WellWritten, ParenthesizedSlice;
    AcceptedCall(tokens, i, arguments);
    CallIsClosed(tokens, i);
    forall k | i < k < next ensures !IsHead(tokens, k) { NoHeadInside(tokens, i, k); }
    NoCallHere(tokens, i + 1, next);
    var name := ArgumentName(tokens[i + 4]).value;
    forall j, other | 0 <= j < i && IsMacroFor(tokens, j, other) && IsMacroFor(tokens, i, other) ensures Agree(tokens, j, i) {
      assert other == name;
      assert SameUse(arguments[name], ArgumentAt(tokens, j)) && SameUse(arguments[name], ArgumentAt(tokens, i));
    }
  }

  lemma CallIsClosed(tokens: seq<Token>, i: nat)
    requires WellWritten(tokens, i)
    ensures i + 5 < |tokens| && tokens[i + 5].kind == RParen && ArgumentName(tokens[i + 4]).Some?
  {
    hide EqualFold, ArgumentName;
  }

  lemma NoArguments(tokens: seq<Token>)
    ensures Records(tokens, 0, map[])
  {
    hide IsMacroHead, ArgumentName;
  }

  /** The macros of a query are lowered exactly when each is well written and all for one name agree on its kind. */
  lemma LoweringSucceedsExactly(startLine: int, source: string, tokens: seq<Token>)
    requires Lexed(source, tokens)
    ensures Lowering(startLine, source, tokens).Ok? <==>
            && (forall i | 0 <= i < |tokens| && IsHead(tokens, i) :: WellWritten(tokens, i))
            && (forall j, k, name | 0 <= j < k && IsMacroFor(tokens, j, name) && IsMacroFor(tokens, k, name) :: Agree(tokens, j, k))
  {
    hide ScanFrom, IsMacroHead, WellWritten, Agree, ArgumentName, Splice, Records;
    NoArguments(tokens);
    ScanSucceeds(tokens, 0, EMPTY);
    assert AllWellWritten(tokens, 0) <==> forall i | 0 <= i < |tokens| && IsHead(tokens, i) :: WellWritten(tokens, i);
    assert AllAgree(tokens, 0) <==>
           forall j, k, name | 0 <= j < k && IsMacroFor(tokens, j, name) && IsMacroFor(tokens, k, name) :: Agree(tokens, j, k);
  }

  /** An argument is nullable exactly for sqlc.narg and a slice exactly for sqlc.slice, whichever of its calls is asked. */
  lemma FlagsFollowMacro(startLine: int, source: string, tokens: seq<Token>, i: nat, name: string)
    requires Lexed(source, tokens) && Lowering(startLine, source, tokens).Ok? && IsMacroFor(tokens, i, name)
    ensures var arguments := Lowering(startLine, source, tokens).value.arguments;
            && name in arguments
            && (arguments[name].nullable <==> IsCalled(tokens, i, "narg"))
            && (arguments[name].slice <==> IsCalled(tokens, i, "slice"))
  {
    hide Lowering, IsMacroHead, EqualFold, ArgumentName;
    ArgumentsAreTheMacros(startLine, source, tokens);
    assert SameUse(Lowering(startLine, source, tokens).value.arguments[name], ArgumentAt(tokens, i));
  }

  // ---------------------------------------------------------------- what is written

  /** The parameter that replaces a call: the name as it was written, or quoted where it was a quoted name or a string. */
  function Written(token: Token, name: string): string {
    "$" + (if token.kind == PlainId then name else QuotedIdentifier(name))
  }

  /** The call at token k is replaced by its parameter, and around a slice in parentheses these are removed. */
  predicate Replaces(tokens: seq<Token>, k: nat, name: string, r: Replacement) {
    && IsMacroFor(tokens, k, name)
    && (|| r == Replacement(tokens[k].start, tokens[k + 5].stop + 1, Written(tokens[k + 4], name))
        || (&& IsCalled(tokens, k, "slice") && InParentheses(tokens, k)
            && (|| r == Replacement(tokens[k - 1].start, tokens[k - 1].stop + 1, "")
                || r == Replacement(tokens[k + 6].start, tokens[k + 6].stop + 1, ""))))
  }

  lemma SpansReplace(tokens: seq<Token>, k: nat, name: string, r: Replacement)
    requires IsMacroFor(tokens, k, name)
    ensures r in Spans(tokens, k, name) <==> Replaces(tokens, k, name, r)
    ensures ParenthesizedSlice(tokens, k) <==> IsCalled(tokens, k, "slice") && InParentheses(tokens, k)
  {
    hide QuotedIdentifier, EqualFold, IsMacroHead;
    PlainNames(tokens[k + 4], name);
  }

  lemma PlainNames(token: Token, name: string)
    requires ArgumentName(token) == Some(name)
    ensures Written(token, name) == "$" + ParameterText(token, name)
  {
    hide QuotedIdentifier, Undoubled;
  }

  /** Some call from token i on makes the replacement. */
  ghost predicate IsMade(tokens: seq<Token>, i: nat, r: Replacement) {
    exists k, name :: i <= k && Replaces(tokens, k, name, r)
  }

  lemma {:induction false} ScanReplaces(tokens: seq<Token>, i: nat, scan: Scan, r: Replacement)
    requires !ScanFrom(tokens, i, scan).failed
    ensures r in ScanFrom(tokens, i, scan).replacements <==> r in scan.replacements || IsMade(tokens, i, r)
    decreases |tokens| - i
  {
    hide IsMacroHead, Record, ArgumentName, EqualFold, MacroAt, ParenthesizedSlice, Replaces, IsMade;
    if i + 3 >= |tokens| {
      NothingMade(tokens, i, r);
    } else if !IsMacroHead(tokens, i) {
      ScanReplaces(tokens, i + 1, scan, r);
      NoneMadeHere(tokens, i, i + 1, r);
    } else {
      var step := MacroAt(tokens, i, scan.arguments);
      if step.Err? {
        FailureStays(tokens, i + 1, scan.(failed := true));
      } else {
        AcceptedCall(tokens, i, scan.arguments);
        CallIsClosed(tokens, i);
        var next := i + (if ParenthesizedSlice(tokens, i) then 7 else 6);
        ScanReplaces(tokens, next, Record(tokens, i, step.value, scan), r);
        RecordReplaces(tokens, i, step.value, scan, r);
        MadeHere(tokens, i, next, step.value, r);
      }
    }
  }

  lemma RecordReplaces(tokens: seq<Token>, i: nat, name: string, scan: Scan, r: Replacement)
    requires IsMacroFor(tokens, i, name)
    ensures r in Record(tokens, i, name, scan).replacements <==> r in scan.replacements || Replaces(tokens, i, name, r)
  {
    hide Spans, Replaces, IsMacroHead, ArgumentName;
    SpansReplace(tokens, i, name, r);
  }

  lemma NothingMade(tokens: seq<Token>, i: nat, r: Replacement)
    requires i + 3 >= |tokens|
    ensures !IsMade(tokens, i, r)
  {
    hide IsMacroHead, ArgumentName, EqualFold;
  }

  lemma NoneMadeHere(tokens: seq<Token>, i: nat, next: nat, r: Replacement)
    requires i <= next && forall k | i <= k < next :: !IsHead(tokens, k)
    ensures IsMade(tokens, i, r) <==> IsMade(tokens, next, r)
  {
    hide IsMacroHead, ArgumentName, EqualFold;
    if k: nat, name :| i <= k && Replaces(tokens, k, name, r) {
      assert k < next ==> !IsHead(tokens, k);
    }
  }

  lemma MadeHere(tokens: seq<Token>, i: nat, next: nat, name: string, r: Replacement)
    requires IsMacroFor(tokens, i, name) && tokens[i + 5].kind == RParen
    requires next == i + (if ParenthesizedSlice(tokens, i) then 7 else 6)
    ensures IsMade(tokens, i, r) <==> Replaces(tokens, i, name, r) || IsMade(tokens, next, r)
  {
    forall k | i < k < next ensures !IsHead(tokens, k) { NoHeadInside(tokens, i, k); }
    NoneMadeHere(tokens, i + 1, next, r);
    hide IsMacroHead, ArgumentName, EqualFold, ParenthesizedSlice;
    if k: nat, other :| i <= k && Replaces(tokens, k, other, r) {
      assert k == i ==> other == name;
      assert k > i ==> IsMade(tokens, i + 1, r);
    }
    if k: nat, other :| i + 1 <= k && Replaces(tokens, k, other, r) {
      assert i <= k;
    }
  }

  /** What a successful lowering replaces is exactly that. */
  lemma ReplacementsAreTheCalls(startLine: int, source: string, tokens: seq<Token>, r: Replacement)
    requires Lexed(source, tokens) && Lowering(startLine, source, tokens).Ok?
    ensures var m := Lowering(startLine, source, tokens).value.sourceMap;
            m.Some? && r in m.value.replacements <==> exists i, name :: Replaces(tokens, i, name, r)
  {
    hide ScanFrom, Splice, Replaces;
    ScanReplaces(tokens, 0, EMPTY, r);
    if i: nat, name :| Replaces(tokens, i, name, r) {
      assert 0 <= i && IsMade(tokens, 0, r);
    }
  }

  // ---------------------------------------------------------------- the text around a slice

  /** The text in front of what follows some replacements. */
  function FrontText(source: string, replacements: seq<Replacement>, cursor: nat): string
    requires Fits(replacements, cursor, |source|)
  {
    if replacements == [] then ""
    else
      var r := replacements[0];
      source[cursor..r.start] + (r.text + FrontText(source, replacements[1..], r.end))
  }

  function FrontEnd(replacements: seq<Replacement>, cursor: nat): nat {
    if replacements == [] then cursor else FrontEnd(replacements[1..], replacements[0].end)
  }

  lemma {:induction false} SpliceSplits(source: string, front: seq<Replacement>, rest: seq<Replacement>, cursor: nat)
    requires Fits(front + rest, cursor, |source|)
    ensures Fits(front, cursor, |source|) && Fits(rest, FrontEnd(front, cursor), |source|)
    ensures Splice(source, front + rest, cursor) ==
            FrontText(source, front, cursor) + Splice(source, rest, FrontEnd(front, cursor))
    decreases |front|
  {
    if front == [] {
      assert front + rest == rest;
      FitsBounds(rest, cursor, |source|);
    } else {
      var r := front[0];
      assert (front + rest)[0] == r && (front + rest)[1..] == front[1..] + rest;
      SpliceSplits(source, front[1..], rest, r.end);
      Nested(source[cursor..r.start], r.text, FrontText(source, front[1..], r.end),
             Splice(source, rest, FrontEnd(front[1..], r.end)));
    }
  }

  lemma Nested(a: string, b: string, c: string, d: string)
    ensures a + (b + (c + d)) == a + (b + c) + d
  {
  }

  /** The spans of a call stand next to one another in the list. */
  lemma {:induction false} SpansTogether(tokens: seq<Token>, i: nat, scan: Scan, k: nat, name: string)
    returns (front: seq<Replacement>, behind: seq<Replacement>)
    requires !ScanFrom(tokens, i, scan).failed && i <= k && IsMacroFor(tokens, k, name)
    ensures ScanFrom(tokens, i, scan).replacements == front + Spans(tokens, k, name) + behind
    decreases |tokens| - i
  {
    hide IsMacroHead, ArgumentName, EqualFold, MacroAt, ParenthesizedSlice, Spans;
    front, behind := [], [];
    if !IsMacroHead(tokens, i) {
      front, behind := SpansTogether(tokens, i + 1, scan, k, name);
    } else {
      var step := MacroAt(tokens, i, scan.arguments);
      if step.Err? {
        FailureStays(tokens, i + 1, scan.(failed := true));
      } else {
        AcceptedCall(tokens, i, scan.arguments);
        CallIsClosed(tokens, i);
        var next := i + (if ParenthesizedSlice(tokens, i) then 7 else 6);
        if i == k {
          behind := LaterReplacements(tokens, next, Record(tokens, i, step.value, scan));
          front := scan.replacements;
        } else {
          if k < next { NoHeadInside(tokens, i, k); }
          front, behind := SpansTogether(tokens, next, Record(tokens, i, step.value, scan), k, name);
        }
      }
    }
  }

  lemma {:induction false} LaterReplacements(tokens: seq<Token>, i: nat, scan: Scan) returns (behind: seq<Replacement>)
    requires !ScanFrom(tokens, i, scan).failed
    ensures ScanFrom(tokens, i, scan).replacements == scan.replacements + behind
    decreases |tokens| - i
  {
    hide IsMacroHead, ArgumentName, EqualFold, MacroAt, ParenthesizedSlice, Spans;
    behind := [];
    if i + 3 < |tokens| {
      if !IsMacroHead(tokens, i) {
        behind := LaterReplacements(tokens, i + 1, scan);
      } else {
        var step := MacroAt(tokens, i, scan.arguments);
        if step.Err? {
          FailureStays(tokens, i + 1, scan.(failed := true));
        } else {
          AcceptedCall(tokens, i, scan.arguments);
          CallIsClosed(tokens, i);
          var next := i + (if ParenthesizedSlice(tokens, i) then 7 else 6);
          behind := LaterReplacements(tokens, next, Record(tokens, i, step.value, scan));
          behind := Spans(tokens, i, step.value) + behind;
        }
      }
    }
  }

  /**
   * `IN (sqlc.slice(x))` becomes `IN $x`: the text up to the opening parenthesis is followed by what stood between it and
   * the call, the parameter, what stood between the call and the closing parenthesis, and what followed that.
   */
  lemma SliceLosesParentheses(startLine: int, source: string, tokens: seq<Token>, k: nat, name: string)
    returns (front: seq<Replacement>, behind: seq<Replacement>)
    requires Lexed(source, tokens) && Lowering(startLine, source, tokens).Ok?
    requires IsMacroFor(tokens, k, name) && IsCalled(tokens, k, "slice") && InParentheses(tokens, k)
    ensures var left, right := tokens[k - 1], tokens[k + 6];
            && Fits(front, 0, |source|) && FrontEnd(front, 0) <= left.start && Fits(behind, right.stop + 1, |source|)
            && Lowering(startLine, source, tokens).value.text ==
               FrontText(source, front, 0) + (source[FrontEnd(front, 0)..left.start]
               + (source[left.stop + 1..tokens[k].start]
               + (Written(tokens[k + 4], name)
               + (source[tokens[k + 5].stop + 1..right.start]
               + Splice(source, behind, right.stop + 1)))))
  {
    hide IsMacroHead, ArgumentName, EqualFold, ScanFrom, Fits, Splice, QuotedIdentifier, DistinctStarts, FrontText;
    LoweringIsWellFormed(source, tokens);
    front, behind := SpansTogether(tokens, 0, EMPTY, k, name);
    SpansReplace(tokens, k, name, Replacement(0, 0, ""));
    PlainNames(tokens[k + 4], name);
    var all := ScanFrom(tokens, 0, EMPTY).replacements;
    var left, right := Deletion(tokens[k - 1]), Deletion(tokens[k + 6]);
    var call := Replacement(tokens[k].start, tokens[k + 5].stop + 1, Written(tokens[k + 4], name));
    assert all == front + ([left, call, right] + behind);
    SpliceSplits(source, front, [left, call, right] + behind, 0);
    ThreeSpans(source, left, call, right, behind, FrontEnd(front, 0));
    assert all != [];
  }

  lemma ThreeSpans(source: string, left: Replacement, call: Replacement, right: Replacement, behind: seq<Replacement>, cursor: nat)
    requires Fits([left, call, right] + behind, cursor, |source|) && left.text == "" && right.text == ""
    ensures cursor <= left.start <= left.end <= call.start <= call.end <= right.start <= right.end <= |source|
    ensures Fits(behind, right.end, |source|)
    ensures Splice(source, [left, call, right] + behind, cursor) ==
            source[cursor..left.start]
            + (source[left.end..call.start] + (call.text + (source[call.end..right.start] + Splice(source, behind, right.end))))
  {
    hide Fits, Splice;
    assert [left, call, right] + behind == [left] + ([call] + ([right] + behind));
    SpliceFirst(source, left, [call] + ([right] + behind), cursor);
    SpliceFirst(source, call, [right] + behind, left.end);
    SpliceFirst(source, right, behind, call.end);
    Emptied(Splice(source, behind, right.end));
    Emptied(Splice(source, [call] + ([right] + behind), left.end));
  }

  lemma Emptied(text: string)
    ensures "" + text == text
  {
  }

  lemma SpliceFirst(source: string, r: Replacement, rest: seq<Replacement>, cursor: nat)
    requires Fits([r] + rest, cursor, |source|)
    ensures cursor <= r.start <= r.end <= |source| && Fits(rest, r.end, |source|)
    ensures Splice(source, [r] + rest, cursor) == source[cursor..r.start] + (r.text + Splice(source, rest, r.end))
  {
    assert ([r] + rest)[0] == r && ([r] + rest)[1..] == rest;
  }
}
