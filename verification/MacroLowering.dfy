/** Lowering sqlc.arg, sqlc.narg and sqlc.slice to parameters (lowerSQLCArguments). */
module MacroLowering {
  import opened Wrappers
  import opened Sorting
  import opened SourceMaps
  import opened Text

  datatype TokenKind = PlainId | QuotedId | StringValue | Dot | LParen | RParen | In | OtherToken

  /** A significant token; `stop` is its last character. */
  datatype Token = Token(kind: TokenKind, text: string, start: nat, stop: nat)

  datatype Argument = Argument(nullable: bool, slice: bool, start: nat)

  /** The lexer delivers nonempty tokens in ascending, disjoint spans of the text. */
  predicate Lexed(source: string, tokens: seq<Token>) {
    && (forall i | 0 <= i < |tokens| :: tokens[i].start <= tokens[i].stop < |source|)
    && (forall i, j | 0 <= i < j < |tokens| :: tokens[i].stop < tokens[j].start)
  }

  // ---------------------------------------------------------------- recognizing a macro

  predicate IsMacroHead(tokens: seq<Token>, i: nat)
    requires i + 3 < |tokens|
  {
    && tokens[i].kind == PlainId && EqualFold(tokens[i].text, "sqlc") && tokens[i + 1].kind == Dot
    && tokens[i + 2].kind == PlainId && tokens[i + 3].kind == LParen
    && (EqualFold(tokens[i + 2].text, "narg") || EqualFold(tokens[i + 2].text, "slice") || EqualFold(tokens[i + 2].text, "arg"))
  }

  function ArgumentName(token: Token): Option<string> {
    var text := token.text;
    match token.kind
    case PlainId => Some(text)
    case QuotedId =>
      Some(if |text| >= 2 && text[0] == '`' && text[|text| - 1] == '`' then Undoubled(text[1..|text| - 1], '`') else text)
    case StringValue =>
      if |text| < 2 || text[0] != text[|text| - 1] || (text[0] != '\'' && text[0] != '"') || '\\' in text[1..|text| - 1] then None
      else if text[0] == '\'' then Some(Undoubled(text[1..|text| - 1], '\''))
      else Some(text[1..|text| - 1])
    case _ => None
  }

  /** `IN (sqlc.slice(name))`: the parentheses go, too. */
  predicate ParenthesizedSlice(tokens: seq<Token>, i: nat)
    requires i + 5 < |tokens|
  {
    && EqualFold(tokens[i + 2].text, "slice") && i >= 2 && i + 6 < |tokens|
    && tokens[i - 1].kind == LParen && tokens[i - 2].kind == In && tokens[i + 6].kind == RParen
  }

  function ParameterText(token: Token, name: string): string {
    if token.kind == PlainId then token.text else QuotedIdentifier(name)
  }

  function Deletion(token: Token): Replacement {
    Replacement(token.start, token.stop + 1, "")
  }

  /** The spans one macro at token i gives: its own, and those of the parentheses around a slice. */
  function Spans(tokens: seq<Token>, i: nat, name: string): seq<Replacement>
    requires i + 5 < |tokens|
  {
    var call := Replacement(tokens[i].start, tokens[i + 5].stop + 1, "$" + ParameterText(tokens[i + 4], name));
    if ParenthesizedSlice(tokens, i) then [Deletion(tokens[i - 1]), call, Deletion(tokens[i + 6])] else [call]
  }

  // ---------------------------------------------------------------- the scan

  datatype Scan = Scan(replacements: seq<Replacement>, arguments: map<string, Argument>, failed: bool)

  /** What the scan does at token i: Err is a diagnostic, Ok carries the argument name. */
  function MacroAt(tokens: seq<Token>, i: nat, arguments: map<string, Argument>): Result<string>
    requires i + 3 < |tokens|
  {
    var nullable, slice := EqualFold(tokens[i + 2].text, "narg"), EqualFold(tokens[i + 2].text, "slice");
    if i + 5 >= |tokens| || tokens[i + 4].kind == RParen || tokens[i + 5].kind != RParen then Err
    else
      match ArgumentName(tokens[i + 4])
      case None => Err
      case Some(name) =>
        if name == "" then Err
        else if slice && !ParenthesizedSlice(tokens, i) && (i == 0 || tokens[i - 1].kind != In) then Err
        else if name in arguments && (arguments[name].nullable != nullable || arguments[name].slice != slice) then Err
        else Ok(name)
  }

  function ArgumentAt(tokens: seq<Token>, i: nat): Argument
    requires i + 5 < |tokens|
  {
    Argument(EqualFold(tokens[i + 2].text, "narg"), EqualFold(tokens[i + 2].text, "slice"), tokens[i].start)
  }

  function Record(tokens: seq<Token>, i: nat, name: string, scan: Scan): Scan
    requires i + 5 < |tokens|
  {
    scan.(
      replacements := scan.replacements + Spans(tokens, i, name),
      arguments :=
        if name in scan.arguments then scan.arguments
        else scan.arguments[name := ArgumentAt(tokens, i)])
  }

  function ScanFrom(tokens: seq<Token>, i: nat, scan: Scan): Scan
    decreases |tokens| - i
  {
    if i + 3 >= |tokens| then scan
    else if !IsMacroHead(tokens, i) then ScanFrom(tokens, i + 1, scan)
    else
      match MacroAt(tokens, i, scan.arguments)
      case Err => ScanFrom(tokens, i + 1, scan.(failed := true))
      case Ok(name) =>
        ScanFrom(tokens, i + (if ParenthesizedSlice(tokens, i) then 7 else 6), Record(tokens, i, name, scan))
  }

  const EMPTY := Scan([], map[], false)

  method ScanTokens(tokens: seq<Token>) returns (scan: Scan)
    ensures scan == ScanFrom(tokens, 0, EMPTY)
  {
    hide Spans, ParenthesizedSlice, EqualFold, ArgumentName;
    var replacements: seq<Replacement> := [];
    var arguments: map<string, Argument> := map[];
    var failed := false;
    var i := 0;
    while i + 3 < |tokens|
      invariant ScanFrom(tokens, 0, EMPTY) == ScanFrom(tokens, i, Scan(replacements, arguments, failed))
      decreases |tokens| - i
    {
      if IsMacroHead(tokens, i) {
        var step := MacroAt(tokens, i, arguments);
        match step {
          case Err => failed := true;
          case Ok(name) =>
            if name !in arguments {
              var nullable, slice := EqualFold(tokens[i + 2].text, "narg"), EqualFold(tokens[i + 2].text, "slice");
              arguments := arguments[name := Argument(nullable, slice, tokens[i].start)];
            }
            replacements := replacements + Spans(tokens, i, name);
            i := i + (if ParenthesizedSlice(tokens, i) then 6 else 5);
        }
      }
      i := i + 1;
    }
    return Scan(replacements, arguments, failed);
  }

  // ---------------------------------------------------------------- the spans are well formed

  /** The end of the tokens before the i-th. */
  function EndBefore(tokens: seq<Token>, i: nat): nat
    requires i <= |tokens|
  {
    if i == 0 then 0 else tokens[i - 1].stop + 1
  }

  predicate EndBy(replacements: seq<Replacement>, bound: nat) {
    forall r <- replacements :: r.end <= bound
  }

  predicate Nonempty(replacements: seq<Replacement>) {
    forall r <- replacements :: r.start < r.end
  }

  /** Spans so far fit, start apart, and end before token i; an opening parenthesis just before i is still free. */
  predicate WellFormed(source: string, tokens: seq<Token>, i: nat, scan: Scan)
    requires i <= |tokens|
  {
    && Fits(scan.replacements, 0, |source|) && DistinctStarts(scan.replacements) && Nonempty(scan.replacements)
    && EndBy(scan.replacements, EndBefore(tokens, i))
    && (i > 0 && tokens[i - 1].kind == LParen ==> EndBy(scan.replacements, EndBefore(tokens, i - 1)))
  }

  lemma {:induction false} FitsAppend(replacements: seq<Replacement>, cursor: nat, r: Replacement, n: nat)
    requires Fits(replacements, cursor, n) && EndBy(replacements, r.start) && cursor <= r.start <= r.end <= n
    ensures Fits(replacements + [r], cursor, n)
  {
    if replacements == [] {
      assert [r][1..] == [];
    } else {
      assert (replacements + [r])[1..] == replacements[1..] + [r];
      assert replacements[0] in replacements;
      FitsAppend(replacements[1..], replacements[0].end, r, n);
    }
  }

  lemma AppendSpan(replacements: seq<Replacement>, r: Replacement, n: nat)
    requires Fits(replacements, 0, n) && DistinctStarts(replacements) && EndBy(replacements, r.start)
    requires r.start < r.end <= n && Nonempty(replacements)
    ensures Fits(replacements + [r], 0, n) && DistinctStarts(replacements + [r]) && EndBy(replacements + [r], r.end)
    ensures Nonempty(replacements + [r])
  {
    FitsAppend(replacements, 0, r, n);
    forall i | 0 <= i < |replacements| ensures replacements[i].start < r.start {
      assert replacements[i] in replacements;
    }
  }

  lemma RecordWellFormed(source: string, tokens: seq<Token>, i: nat, name: string, scan: Scan)
    requires Lexed(source, tokens) && i + 5 < |tokens| && tokens[i + 5].kind == RParen
    requires WellFormed(source, tokens, i, scan)
    ensures WellFormed(source, tokens, i + (if ParenthesizedSlice(tokens, i) then 7 else 6), Record(tokens, i, name, scan))
  {
    hide Fits, IsMacroHead, DistinctStarts, Nonempty, EndBy, ParameterText, EqualFold;
    var before := scan.replacements;
    var call := Replacement(tokens[i].start, tokens[i + 5].stop + 1, "$" + ParameterText(tokens[i + 4], name));
    if ParenthesizedSlice(tokens, i) {
      assert tokens[i - 1].kind == LParen && tokens[i + 6].kind == RParen;
      EndByLater(before, EndBefore(tokens, i - 1), tokens[i - 1].start);
      AppendCall(before, Deletion(tokens[i - 1]), call, Deletion(tokens[i + 6]), |source|);
    } else {
      EndByLater(before, EndBefore(tokens, i), call.start);
      AppendSpan(before, call, |source|);
    }
  }

  lemma AppendCall(before: seq<Replacement>, left: Replacement, call: Replacement, right: Replacement, n: nat)
    requires Fits(before, 0, n) && DistinctStarts(before) && EndBy(before, left.start) && Nonempty(before)
    requires left.start < left.end <= call.start < call.end <= right.start < right.end <= n
    ensures var all := before + [left, call, right];
            Fits(all, 0, n) && DistinctStarts(all) && EndBy(all, right.end) && Nonempty(all)
  {
    hide Fits, DistinctStarts, Nonempty, EndBy;
    AppendSpan(before, left, n);
    EndByLater(before + [left], left.end, call.start);
    AppendSpan(before + [left], call, n);
    EndByLater(before + [left] + [call], call.end, right.start);
    AppendSpan(before + [left] + [call], right, n);
    assert before + [left, call, right] == before + [left] + [call] + [right];
  }

  lemma EndByLater(replacements: seq<Replacement>, bound: nat, later: nat)
    requires EndBy(replacements, bound) && bound <= later
    ensures EndBy(replacements, later)
  {
  }

  lemma SkipWellFormed(source: string, tokens: seq<Token>, i: nat, scan: Scan)
    requires Lexed(source, tokens) && i < |tokens| && WellFormed(source, tokens, i, scan)
    ensures WellFormed(source, tokens, i + 1, scan)
  {
    hide Fits, Splice;
  }

  /** For every token list the scan collects ascending, disjoint, nonempty spans inside the text. */
  lemma {:induction false} ScanIsWellFormed(source: string, tokens: seq<Token>, i: nat, scan: Scan)
    requires Lexed(source, tokens) && i <= |tokens| && WellFormed(source, tokens, i, scan)
    ensures var spans := ScanFrom(tokens, i, scan).replacements;
            Fits(spans, 0, |source|) && DistinctStarts(spans) && Nonempty(spans)
    decreases |tokens| - i
  {
    hide Fits, IsMacroHead, Record;
    if i + 3 < |tokens| {
      SkipWellFormed(source, tokens, i, scan);
      if !IsMacroHead(tokens, i) {
        ScanIsWellFormed(source, tokens, i + 1, scan);
      } else {
        match MacroAt(tokens, i, scan.arguments)
        case Err => ScanIsWellFormed(source, tokens, i + 1, scan.(failed := true));
        case Ok(name) =>
          RecordWellFormed(source, tokens, i, name, scan);
          ScanIsWellFormed(source, tokens, i + (if ParenthesizedSlice(tokens, i) then 7 else 6), Record(tokens, i, name, scan));
      }
    }
  }

  // ---------------------------------------------------------------- the arguments

  /** The span writes this argument's parameter: `$name`, or the name in back quotes. */
  predicate Writes(r: Replacement, name: string, argument: Argument) {
    r.start == argument.start && (r.text == "$" + name || r.text == "$" + QuotedIdentifier(name))
  }

  predicate ArgumentsWritten(scan: Scan) {
    forall name <- scan.arguments :: exists r <- scan.replacements :: Writes(r, name, scan.arguments[name])
  }

  lemma RecordWrites(tokens: seq<Token>, i: nat, name: string, scan: Scan)
    requires i + 5 < |tokens| && ArgumentName(tokens[i + 4]) == Some(name) && ArgumentsWritten(scan)
    ensures ArgumentsWritten(Record(tokens, i, name, scan))
  {
    hide QuotedIdentifier, Writes, ParenthesizedSlice, EqualFold, Undoubled;
    var after := Record(tokens, i, name, scan);
    forall n | n in after.arguments ensures exists r <- after.replacements :: Writes(r, n, after.arguments[n]) {
      if n in scan.arguments {
        var r :| r in scan.replacements && Writes(r, n, scan.arguments[n]);
        assert r in after.replacements;
      } else {
        var call := Replacement(tokens[i].start, tokens[i + 5].stop + 1, "$" + ParameterText(tokens[i + 4], name));
        assert call in Spans(tokens, i, name);
        assert call in after.replacements;
        CallWrites(call, tokens[i + 4], name, after.arguments[n]);
      }
    }
  }

  lemma CallWrites(call: Replacement, token: Token, name: string, argument: Argument)
    requires call.start == argument.start && call.text == "$" + ParameterText(token, name) && ArgumentName(token) == Some(name)
    ensures Writes(call, name, argument)
  {
  }

  lemma {:induction false} ScanWritesArguments(tokens: seq<Token>, i: nat, scan: Scan)
    requires ArgumentsWritten(scan)
    ensures ArgumentsWritten(ScanFrom(tokens, i, scan))
    decreases |tokens| - i
  {
    hide IsMacroHead, Record, Writes, ArgumentsWritten;
    if i + 3 < |tokens| {
      if !IsMacroHead(tokens, i) {
        ScanWritesArguments(tokens, i + 1, scan);
      } else {
        match MacroAt(tokens, i, scan.arguments)
        case Err =>
          FailureWrites(scan);
          ScanWritesArguments(tokens, i + 1, scan.(failed := true));
        case Ok(name) =>
          RecordWrites(tokens, i, name, scan);
          ScanWritesArguments(tokens, i + (if ParenthesizedSlice(tokens, i) then 7 else 6), Record(tokens, i, name, scan));
      }
    }
  }

  lemma FailureWrites(scan: Scan)
    requires ArgumentsWritten(scan)
    ensures ArgumentsWritten(scan.(failed := true))
  {
  }

  /** A macro for this name starts at token i. */
  predicate IsMacroFor(tokens: seq<Token>, i: nat, name: string) {
    i + 5 < |tokens| && IsMacroHead(tokens, i) && ArgumentName(tokens[i + 4]) == Some(name)
  }

  predicate SameUse(a: Argument, b: Argument) {
    a.nullable == b.nullable && a.slice == b.slice
  }

  predicate IsFirstMacroFor(tokens: seq<Token>, i: nat, name: string) {
    IsMacroFor(tokens, i, name) && forall k | 0 <= k < i :: !IsMacroFor(tokens, k, name)
  }

  /** The arguments are those of the macros before token i, each as its first macro gives it and as all use it. */
  ghost predicate Records(tokens: seq<Token>, i: nat, arguments: map<string, Argument>) {
    && (forall name <- arguments :: exists k | 0 <= k < i ::
          IsFirstMacroFor(tokens, k, name) && arguments[name] == ArgumentAt(tokens, k))
    && (forall k, name | 0 <= k < i && IsMacroFor(tokens, k, name) ::
          name in arguments && SameUse(arguments[name], ArgumentAt(tokens, k)))
  }

  /** No macro starts inside another one. */
  lemma NoMacroInside(tokens: seq<Token>, i: nat, k: nat, name: string)
    requires i + 5 < |tokens| && IsMacroHead(tokens, i) && tokens[i + 5].kind == RParen
    requires i < k < i + (if ParenthesizedSlice(tokens, i) then 7 else 6)
    ensures !IsMacroFor(tokens, k, name)
  {
    hide EqualFold, ArgumentName;
  }

  function Added(arguments: map<string, Argument>, name: string, argument: Argument): map<string, Argument> {
    if name in arguments then arguments else arguments[name := argument]
  }

  /** What recording a macro makes of the arguments. */
  lemma RecordedArguments(tokens: seq<Token>, i: nat, name: string, scan: Scan)
    requires i + 3 < |tokens| && IsMacroHead(tokens, i) && MacroAt(tokens, i, scan.arguments) == Ok(name)
    ensures i + 5 < |tokens| && tokens[i + 5].kind == RParen && IsMacroFor(tokens, i, name)
    ensures name in scan.arguments ==> SameUse(scan.arguments[name], ArgumentAt(tokens, i))
    ensures Record(tokens, i, name, scan).arguments == Added(scan.arguments, name, ArgumentAt(tokens, i))
  {
    hide EqualFold, ArgumentName, ParenthesizedSlice, IsMacroHead, Spans;
  }

  lemma FirstsRecorded(tokens: seq<Token>, i: nat, next: nat, name: string, before: map<string, Argument>)
    requires Records(tokens, i, before) && IsMacroFor(tokens, i, name) && i < next
    ensures var after := Added(before, name, ArgumentAt(tokens, i));
            forall n <- after :: exists k | 0 <= k < next :: IsFirstMacroFor(tokens, k, n) && after[n] == ArgumentAt(tokens, k)
  {
    hide IsMacroHead, ArgumentAt, ArgumentName;
    var after := Added(before, name, ArgumentAt(tokens, i));
    forall n | n in after
      ensures exists k | 0 <= k < next :: IsFirstMacroFor(tokens, k, n) && after[n] == ArgumentAt(tokens, k)
    {
      if n in before {
        var k :| 0 <= k < i && IsFirstMacroFor(tokens, k, n) && before[n] == ArgumentAt(tokens, k);
        assert 0 <= k < next;
      } else {
        assert IsFirstMacroFor(tokens, i, n);
      }
    }
  }

  lemma UsesRecorded(tokens: seq<Token>, i: nat, next: nat, name: string, before: map<string, Argument>)
    requires Records(tokens, i, before) && IsMacroFor(tokens, i, name)
    requires name in before ==> SameUse(before[name], ArgumentAt(tokens, i))
    requires forall k, n | i < k < next :: !IsMacroFor(tokens, k, n)
    ensures var after := Added(before, name, ArgumentAt(tokens, i));
            forall k, n | 0 <= k < next && IsMacroFor(tokens, k, n) :: n in after && SameUse(after[n], ArgumentAt(tokens, k))
  {
    hide IsMacroHead, ArgumentAt, ArgumentName;
  }

  lemma RecordRecords(tokens: seq<Token>, i: nat, name: string, scan: Scan)
    requires i + 3 < |tokens| && IsMacroHead(tokens, i) && MacroAt(tokens, i, scan.arguments) == Ok(name)
    requires Records(tokens, i, scan.arguments)
    ensures Records(tokens, i + (if ParenthesizedSlice(tokens, i) then 7 else 6), Record(tokens, i, name, scan).arguments)
  {
    hide ParenthesizedSlice, IsMacroHead, ArgumentAt, ArgumentName, EqualFold, Spans;
    var next := i + (if ParenthesizedSlice(tokens, i) then 7 else 6);
    RecordedArguments(tokens, i, name, scan);
    forall k, n | i < k < next ensures !IsMacroFor(tokens, k, n) {
      NoMacroInside(tokens, i, k, n);
    }
    FirstsRecorded(tokens, i, next, name, scan.arguments);
    UsesRecorded(tokens, i, next, name, scan.arguments);
    assert Record(tokens, i, name, scan).arguments == Added(scan.arguments, name, ArgumentAt(tokens, i));
  }

  lemma {:induction false} FailureStays(tokens: seq<Token>, i: nat, scan: Scan)
    requires scan.failed
    ensures ScanFrom(tokens, i, scan).failed
    decreases |tokens| - i
  {
    hide IsMacroHead, ParenthesizedSlice, Spans, ArgumentName, EqualFold;
    if i + 3 < |tokens| {
      if !IsMacroHead(tokens, i) {
        FailureStays(tokens, i + 1, scan);
      } else {
        match MacroAt(tokens, i, scan.arguments)
        case Err => FailureStays(tokens, i + 1, scan);
        case Ok(name) =>
          FailureStays(tokens, i + (if ParenthesizedSlice(tokens, i) then 7 else 6), Record(tokens, i, name, scan));
      }
    }
  }

  lemma {:induction false} ScanRecords(tokens: seq<Token>, i: nat, scan: Scan)
    requires Records(tokens, i, scan.arguments)
    ensures ScanFrom(tokens, i, scan).failed || Records(tokens, |tokens|, ScanFrom(tokens, i, scan).arguments)
    decreases |tokens| - i
  {
    hide IsMacroHead, Record, Records, ArgumentName, EqualFold;
    if i + 3 >= |tokens| {
      EndRecords(tokens, i, scan.arguments);
    } else if !IsMacroHead(tokens, i) {
      StepRecords(tokens, i, scan.arguments);
      ScanRecords(tokens, i + 1, scan);
    } else {
      match MacroAt(tokens, i, scan.arguments)
      case Err => FailureStays(tokens, i + 1, scan.(failed := true));
      case Ok(name) =>
        RecordRecords(tokens, i, name, scan);
        ScanRecords(tokens, i + (if ParenthesizedSlice(tokens, i) then 7 else 6), Record(tokens, i, name, scan));
    }
  }

  lemma EndRecords(tokens: seq<Token>, i: nat, arguments: map<string, Argument>)
    requires i + 3 >= |tokens| && Records(tokens, i, arguments)
    ensures Records(tokens, |tokens|, arguments)
  {
    hide IsMacroHead, ArgumentName, EqualFold;
    forall name | name in arguments
      ensures exists k | 0 <= k < |tokens| :: IsFirstMacroFor(tokens, k, name) && arguments[name] == ArgumentAt(tokens, k)
    {
      var k :| 0 <= k < i && IsFirstMacroFor(tokens, k, name) && arguments[name] == ArgumentAt(tokens, k);
    }
  }

  lemma StepRecords(tokens: seq<Token>, i: nat, arguments: map<string, Argument>)
    requires i + 3 < |tokens| && !IsMacroHead(tokens, i) && Records(tokens, i, arguments)
    ensures Records(tokens, i + 1, arguments)
  {
    hide IsMacroHead, ArgumentName, EqualFold;
    forall name | name in arguments
      ensures exists k | 0 <= k < i + 1 :: IsFirstMacroFor(tokens, k, name) && arguments[name] == ArgumentAt(tokens, k)
    {
      var k :| 0 <= k < i && IsFirstMacroFor(tokens, k, name) && arguments[name] == ArgumentAt(tokens, k);
    }
  }

  /** The shift accumulated over the replacements before an argument. */
  function ShiftBefore(replacements: seq<Replacement>, start: nat): int {
    if replacements == [] || replacements[0].start >= start then 0
    else
      var r := replacements[0];
      |r.text| - (r.end - r.start) + ShiftBefore(replacements[1..], start)
  }

  method ComputeShift(replacements: seq<Replacement>, start: nat) returns (shift: int)
    ensures shift == ShiftBefore(replacements, start)
  {
    shift := 0;
    for i := 0 to |replacements|
      invariant ShiftBefore(replacements, start) == shift + ShiftBefore(replacements[i..], start)
    {
      var replacement := replacements[i];
      assert replacements[i..][0] == replacement && replacements[i..][1..] == replacements[i + 1..];
      if replacement.start >= start { break; }
      shift := shift + |replacement.text| - (replacement.end - replacement.start);
    }
  }

  /** The span's text stands at this place of the rewritten text, inserted for that span. */
  predicate StandsAt(rewritten: string, origins: seq<Origin>, at: int, r: Replacement) {
    && 0 <= at && at + |r.text| <= |rewritten| == |origins|
    && rewritten[at..at + |r.text|] == r.text
    && forall t | at <= t < at + |r.text| :: origins[t] == Inserted(r.start)
  }

  lemma StandsBehind(head: string, headOrigins: seq<Origin>, rest: string, restOrigins: seq<Origin>, at: int, r: Replacement)
    requires |head| == |headOrigins| && StandsAt(rest, restOrigins, at, r)
    ensures StandsAt(head + rest, headOrigins + restOrigins, |head| + at, r)
  {
    assert (head + rest)[|head| + at..|head| + at + |r.text|] == rest[at..at + |r.text|];
  }

  lemma StandsInFront(rest: string, restOrigins: seq<Origin>, r: Replacement)
    requires |rest| == |restOrigins|
    ensures StandsAt(r.text + rest, seq(|r.text|, _ => Inserted(r.start)) + restOrigins, 0, r)
  {
  }

  /** Shifting a span's start gives the place where its text stands in the rewritten text. */
  lemma {:induction false} SpanStandsAtShift(source: string, replacements: seq<Replacement>, cursor: nat, r: Replacement)
    requires Fits(replacements, cursor, |source|) && DistinctStarts(replacements) && r in replacements
    ensures StandsAt(Splice(source, replacements, cursor), Origins(replacements, cursor, |source|),
                     r.start + ShiftBefore(replacements, r.start) - cursor, r)
  {
    hide StandsAt, BackFrom, Fits, Splice, Origins, Run;
    var first := replacements[0];
    SplitAtSpan(source, replacements, cursor);
    var kept, keptOrigins := source[cursor..first.start], Run(cursor, first.start);
    var inserted := seq(|first.text|, _ => Inserted(first.start));
    var rest, restOrigins := Splice(source, replacements[1..], first.end), Origins(replacements[1..], first.end, |source|);
    if r == first {
      StandsInFront(rest, restOrigins, r);
      StandsBehind(kept, keptOrigins, first.text + rest, inserted + restOrigins, 0, r);
    } else {
      var k :| 0 < k < |replacements| && replacements[k] == r;
      assert replacements[1..][k - 1] == r;
      SpanStandsAtShift(source, replacements[1..], first.end, r);
      var at := r.start + ShiftBefore(replacements[1..], r.start) - first.end;
      StandsBehind(first.text, inserted, rest, restOrigins, at, r);
      StandsBehind(kept, keptOrigins, first.text + rest, inserted + restOrigins, |first.text| + at, r);
    }
  }

  lemma SplitAtSpan(source: string, replacements: seq<Replacement>, cursor: nat)
    requires replacements != [] && Fits(replacements, cursor, |source|)
    ensures var first := replacements[0];
            && cursor <= first.start <= first.end <= |source| && Fits(replacements[1..], first.end, |source|)
            && var rest, restOrigins := Splice(source, replacements[1..], first.end), Origins(replacements[1..], first.end, |source|);
               && |rest| == |restOrigins|
               && |Run(cursor, first.start)| == first.start - cursor
               && Splice(source, replacements, cursor) == source[cursor..first.start] + (first.text + rest)
               && Origins(replacements, cursor, |source|) ==
                  Run(cursor, first.start) + (seq(|first.text|, _ => Inserted(first.start)) + restOrigins)
  {
    BackFollowsOrigins(source, replacements[1..], replacements[0].end, 0, 0);
  }

  // ---------------------------------------------------------------- the whole lowering

  datatype Lowered = Lowered(
    text: string,
    sourceMap: Option<SourceMap>,
    arguments: map<string, Argument>,
    positions: map<string, Position>)

  /** Where an argument's parameter starts in the lowered text. */
  function ParameterOffset(replacements: seq<Replacement>, argument: Argument): int {
    argument.start + ShiftBefore(replacements, argument.start)
  }

  function ParameterPositions(startLine: int, text: string, scan: Scan): map<string, Position>
    requires forall name <- scan.arguments :: 0 <= ParameterOffset(scan.replacements, scan.arguments[name]) <= |text|
  {
    map name | name in scan.arguments ::
      PositionIn(startLine, text, ParameterOffset(scan.replacements, scan.arguments[name]))
  }

  /** The lowered query: the text, its source map, and per argument the position of its parameter. */
  function Lowering(startLine: int, source: string, tokens: seq<Token>): Result<Lowered>
    requires Lexed(source, tokens)
  {
    var scan := ScanFrom(tokens, 0, EMPTY);
    if scan.failed then Err
    else if scan.replacements == [] then Ok(Lowered(source, None, map[], map[]))
    else
      LoweringIsWellFormed(source, tokens);
      var text := Splice(source, scan.replacements, 0);
      Ok(Lowered(
           text,
           Some(SourceMap(source, text, scan.replacements, None)),
           scan.arguments,
           ParameterPositions(startLine, text, scan)))
  }

  /** The facts every lowering rests on. */
  lemma LoweringIsWellFormed(source: string, tokens: seq<Token>)
    requires Lexed(source, tokens)
    ensures var scan := ScanFrom(tokens, 0, EMPTY);
            && Fits(scan.replacements, 0, |source|) && DistinctStarts(scan.replacements)
            && forall name <- scan.arguments ::
                 0 <= ParameterOffset(scan.replacements, scan.arguments[name]) <= |Splice(source, scan.replacements, 0)|
  {
    var scan := ScanFrom(tokens, 0, EMPTY);
    ScanIsWellFormed(source, tokens, 0, EMPTY);
    ScanWritesArguments(tokens, 0, EMPTY);
    forall name | name in scan.arguments
      ensures 0 <= ParameterOffset(scan.replacements, scan.arguments[name]) <= |Splice(source, scan.replacements, 0)|
    {
      var r :| r in scan.replacements && Writes(r, name, scan.arguments[name]);
      SpanStandsAtShift(source, scan.replacements, 0, r);
    }
  }

  /** lowerSQLCArguments: the error of apply is discarded there, because it cannot occur. */
  method LowerArguments(startLine: int, source: string, tokens: seq<Token>) returns (lowered: Result<Lowered>)
    requires Lexed(source, tokens)
    ensures lowered == Lowering(startLine, source, tokens)
  {
    LoweringIsWellFormed(source, tokens);
    var scan := ScanTokens(tokens);
    if scan.failed { return Err; }
    if scan.replacements == [] { return Ok(Lowered(source, None, map[], map[])); }
    var rewrites := new Rewrites(source, scan.replacements);
    var applied := rewrites.Apply();
    SortingIsDetermined(scan.replacements, rewrites.replacements);
    assert rewrites.source == source && applied == Ok(Splice(source, scan.replacements, 0));
    var text := applied.value;
    var positions := PositionArguments(startLine, text, scan);
    lowered := Ok(Lowered(text, Some(SourceMap(source, text, scan.replacements, None)), scan.arguments, positions));
  }

  method PositionArguments(startLine: int, text: string, scan: Scan) returns (positions: map<string, Position>)
    requires forall name <- scan.arguments :: 0 <= ParameterOffset(scan.replacements, scan.arguments[name]) <= |text|
    ensures positions == ParameterPositions(startLine, text, scan)
  {
    positions := map[];
    var names := scan.arguments.Keys;
    while names != {}
      invariant names <= scan.arguments.Keys && positions.Keys == scan.arguments.Keys - names
      invariant forall name <- positions ::
                  positions[name] == PositionIn(startLine, text, ParameterOffset(scan.replacements, scan.arguments[name]))
      decreases names
    {
      var name :| name in names;
      var shift := ComputeShift(scan.replacements, scan.arguments[name].start);
      var position := ComputePosition(startLine, text, scan.arguments[name].start + shift);
      positions := positions[name := position];
      names := names - {name};
    }
  }

  /**
   * The arguments of a lowered text are the names its macros give, and all macros for one name agree on its kind: the
   * one the first of them was recorded with.
   */
  lemma ArgumentsAreTheMacros(startLine: int, source: string, tokens: seq<Token>)
    requires Lexed(source, tokens) && Lowering(startLine, source, tokens).Ok?
    ensures var arguments := Lowering(startLine, source, tokens).value.arguments;
            && (forall name :: name in arguments <==> exists i :: IsMacroFor(tokens, i, name))
            && (forall i, name | IsMacroFor(tokens, i, name) :: SameUse(arguments[name], ArgumentAt(tokens, i)))
  {
    hide ScanFrom, Splice, IsMacroHead, EqualFold, ArgumentName;
    ScanRecords(tokens, 0, EMPTY);
    NoSpanNoArgument(tokens);
    var arguments := Lowering(startLine, source, tokens).value.arguments;
    assert arguments == ScanFrom(tokens, 0, EMPTY).arguments;
    assert Records(tokens, |tokens|, arguments);
    forall name, i: nat | IsMacroFor(tokens, i, name) ensures name in arguments {
      assert i < |tokens|;
    }
  }

  lemma NoSpanNoArgument(tokens: seq<Token>)
    ensures ScanFrom(tokens, 0, EMPTY).replacements == [] ==> ScanFrom(tokens, 0, EMPTY).arguments == map[]
  {
    hide ScanFrom, Writes;
    ScanWritesArguments(tokens, 0, EMPTY);
  }

  lemma ArgumentIsItsFirstMacro(startLine: int, source: string, tokens: seq<Token>, name: string)
    returns (macro: nat)
    requires Lexed(source, tokens) && Lowering(startLine, source, tokens).Ok?
    requires name in Lowering(startLine, source, tokens).value.arguments
    ensures IsFirstMacroFor(tokens, macro, name)
    ensures Lowering(startLine, source, tokens).value.arguments[name] == ArgumentAt(tokens, macro)
  {
    hide ScanFrom, Splice, IsMacroHead, ArgumentName, EqualFold;
    ScanRecords(tokens, 0, EMPTY);
    var arguments := ScanFrom(tokens, 0, EMPTY).arguments;
    macro :| 0 <= macro < |tokens| && IsFirstMacroFor(tokens, macro, name) && arguments[name] == ArgumentAt(tokens, macro);
  }

  /** A span's text stands where its place maps back to the start of the span. */
  lemma SpanIsPlaced(startLine: int, source: string, replacements: seq<Replacement>, r: Replacement) returns (at: nat)
    requires Fits(replacements, 0, |source|) && DistinctStarts(replacements) && r in replacements && r.text != ""
    ensures var m := SourceMap(source, Splice(source, replacements, 0), replacements, None);
            && at == r.start + ShiftBefore(replacements, r.start)
            && at + |r.text| <= |m.rewritten| && m.rewritten[at..at + |r.text|] == r.text
            && Describes(m) && Authored(m) == source && r.start <= |source|
            && MapPosition(startLine, m, PositionIn(startLine, m.rewritten, at)) == PositionIn(startLine, source, r.start)
  {
    hide Splice, Fits, Origins, BackFrom, DistinctStarts, PositionIn, IsPlace, MapPosition;
    SpanStandsAtShift(source, replacements, 0, r);
    at := r.start + ShiftBefore(replacements, r.start);
    BackIsCorrect(source, replacements);
    assert Back(replacements, at) == r.start;
    var m := SourceMap(source, Splice(source, replacements, 0), replacements, None);
    ChainMapsPositions(startLine, m, at);
  }

  lemma ParameterIsPlaced(startLine: int, source: string, tokens: seq<Token>, name: string)
    returns (at: nat, written: string)
    requires Lexed(source, tokens) && Lowering(startLine, source, tokens).Ok?
    requires name in Lowering(startLine, source, tokens).value.arguments
    ensures written == "$" + name || written == "$" + QuotedIdentifier(name)
    ensures var l := Lowering(startLine, source, tokens).value;
            && l.sourceMap.Some? && Describes(l.sourceMap.value) && Authored(l.sourceMap.value) == source
            && at + |written| <= |l.text| && l.text[at..at + |written|] == written
            && l.positions[name] == PositionIn(startLine, l.text, at)
            && l.arguments[name].start <= |source|
            && MapPosition(startLine, l.sourceMap.value, l.positions[name]) ==
               PositionIn(startLine, source, l.arguments[name].start)
  {
    hide ScanFrom, Splice, Fits, DistinctStarts, PositionIn, QuotedIdentifier, Describes, Authored, MapPosition;
    var scan := ScanFrom(tokens, 0, EMPTY);
    LoweringIsWellFormed(source, tokens);
    ScanWritesArguments(tokens, 0, EMPTY);
    var r :| r in scan.replacements && Writes(r, name, scan.arguments[name]);
    at := SpanIsPlaced(startLine, source, scan.replacements, r);
    written := r.text;
  }

  /**
   * Each argument is recorded where its parameter begins in the lowered text, and that place maps back to where the
   * first macro for this name was written.
   */
  lemma ArgumentsArePositioned(startLine: int, source: string, tokens: seq<Token>, name: string)
    returns (at: nat, written: string, macro: nat)
    requires Lexed(source, tokens) && Lowering(startLine, source, tokens).Ok?
    requires name in Lowering(startLine, source, tokens).value.arguments
    ensures written == "$" + name || written == "$" + QuotedIdentifier(name)
    ensures IsFirstMacroFor(tokens, macro, name)
    ensures var l := Lowering(startLine, source, tokens).value;
            && l.sourceMap.Some? && Describes(l.sourceMap.value) && Authored(l.sourceMap.value) == source
            && l.arguments[name] == ArgumentAt(tokens, macro)
            && at + |written| <= |l.text| && l.text[at..at + |written|] == written
            && l.positions[name] == PositionIn(startLine, l.text, at)
            && tokens[macro].start <= |source|
            && MapPosition(startLine, l.sourceMap.value, l.positions[name]) ==
               PositionIn(startLine, source, tokens[macro].start)
  {
    hide Lowering, IsFirstMacroFor, PositionIn, MapPosition, QuotedIdentifier;
    macro := ArgumentIsItsFirstMacro(startLine, source, tokens, name);
    at, written := ParameterIsPlaced(startLine, source, tokens, name);
  }
}
