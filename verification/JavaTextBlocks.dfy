/** SQL text written as Java literals (internal/codegen/java/generator.go). */
module JavaTextBlocks {
  // ---------------------------------------------------------------- lines

  /** strings.Split(s, "\n"). */
  function Split(s: string): (lines: seq<string>)
    ensures lines != []
  {
    if s == [] then [""]
    else
      var rest := Split(s[1..]);
      if s[0] == '\n' then [""] + rest else [[s[0]] + rest[0]] + rest[1..]
  }

  /** strings.Join(lines, "\n"). */
  function Join(lines: seq<string>): string
    requires lines != []
  {
    if |lines| == 1 then lines[0] else lines[0] + ("\n" + Join(lines[1..]))
  }

  predicate OneLine(line: string) {
    '\n' !in line
  }

  lemma {:induction false} SplitLines(s: string)
    ensures Join(Split(s)) == s
    ensures forall line <- Split(s) :: OneLine(line) && forall c <- line :: c in s
  {
    if s != [] {
      SplitLines(s[1..]);
      var rest := Split(s[1..]);
      assert s == [s[0]] + s[1..];
      if s[0] == '\n' {
        assert ([""] + rest)[1..] == rest;
      } else {
        assert ([[s[0]] + rest[0]] + rest[1..])[1..] == rest[1..];
        assert rest[0] in rest && forall line <- rest[1..] :: line in rest;
      }
    }
  }

  lemma {:induction false} SplitLine(line: string)
    requires OneLine(line)
    ensures Split(line) == [line]
  {
    if line != [] {
      assert line == [line[0]] + line[1..];
      SplitLine(line[1..]);
    }
  }

  lemma {:induction false} SplitAtNewline(line: string, rest: string)
    requires OneLine(line)
    ensures Split(line + ("\n" + rest)) == [line] + Split(rest)
  {
    var s := line + ("\n" + rest);
    if line == [] {
      assert s[1..] == rest;
    } else {
      assert s[1..] == line[1..] + ("\n" + rest);
      assert line == [line[0]] + line[1..];
      SplitAtNewline(line[1..], rest);
    }
  }

  lemma {:induction false} SplitJoin(lines: seq<string>)
    requires lines != [] && forall line <- lines :: OneLine(line)
    ensures Split(Join(lines)) == lines
  {
    assert lines[0] in lines;
    if |lines| == 1 {
      SplitLine(lines[0]);
      assert lines == [lines[0]];
    } else {
      assert forall line <- lines[1..] :: line in lines;
      SplitJoin(lines[1..]);
      SplitAtNewline(lines[0], Join(lines[1..]));
      assert lines == [lines[0]] + lines[1..];
    }
  }

  // ---------------------------------------------------------------- characters

  function OctalDigit(n: nat): char
    requires n < 8
  {
    '0' + n as char
  }

  /** What quoted writes for one character. */
  function EncodedChar(c: char): string {
    if c == '\\' || c == '"' then ['\\', c]
    else if c == '\n' then ['\\', 'n']
    else if c == '\r' then ['\\', 'r']
    else if c == '\t' then ['\\', 't']
    else if c < ' ' || c == 127 as char then
      var n := c as nat;
      ['\\', OctalDigit(n / 64), OctalDigit(n / 8 % 8), OctalDigit(n % 8)]
    else [c]
  }

  function Encoded(s: string): string {
    if s == [] then [] else EncodedChar(s[0]) + Encoded(s[1..])
  }

  function QuotedLiteral(s: string): string {
    "\"" + Encoded(s) + "\""
  }

  lemma {:induction false} EncodedNext(s: string, c: char)
    ensures Encoded(s + [c]) == Encoded(s) + EncodedChar(c)
  {
    hide EncodedChar;
    if s == [] {
      assert s + [c] == [c] && [c][1..] == [];
      assert EncodedChar(c) + [] == EncodedChar(c);
    } else {
      assert (s + [c])[1..] == s[1..] + [c];
      EncodedNext(s[1..], c);
      assert EncodedChar(s[0]) + (Encoded(s[1..]) + EncodedChar(c)) == EncodedChar(s[0]) + Encoded(s[1..]) + EncodedChar(c);
    }
  }

  /** quoted. */
  method Quote(s: string) returns (literal: string)
    ensures literal == QuotedLiteral(s)
  {
    hide EncodedChar;
    literal := "\"";
    for i := 0 to |s|
      invariant literal == "\"" + Encoded(s[..i])
    {
      assert s[..i + 1] == s[..i] + [s[i]];
      EncodedNext(s[..i], s[i]);
      literal := literal + EncodedChar(s[i]);
    }
    assert s[..|s|] == s;
    literal := literal + "\"";
  }

  // ---------------------------------------------------------------- text blocks

  function Spaces(n: nat): string {
    seq(n, _ => ' ')
  }

  const INDENT := "            "

  /** A line of a text block without its indentation: a trailing space is written so that it is not stripped. */
  function EncodedLine(line: string): string {
    var encoded := Encoded(line);
    if encoded != "" && encoded[|encoded| - 1] == ' ' then encoded[..|encoded| - 1] + "\\s" else encoded
  }

  /** The lines between the delimiters; empty ones stay `blank`, the last one continues on the closing delimiter's line. */
  function TextLines(lines: seq<string>, indent: string, blank: string): (written: seq<string>)
    requires lines != []
    ensures |written| == |lines|
  {
    var encoded := EncodedLine(lines[0]);
    if |lines| == 1 then [indent + encoded + "\\"]
    else [if encoded == "" then blank else indent + encoded] + TextLines(lines[1..], indent, blank)
  }

  /** The lines of a text block with everything behind the first line indented. */
  function BlockLines(s: string, indent: string, blank: string): seq<string> {
    ["\"\"\""] + TextLines(Split(s), indent, blank) + [indent + "\"\"\""]
  }

  function SqlLiteral(s: string): string {
    Join(BlockLines(s, INDENT, ""))
  }

  lemma {:induction false} JoinLast(lines: seq<string>, last: string)
    requires lines != []
    ensures Join(lines + [last]) == Join(lines) + ("\n" + last)
  {
    if |lines| == 1 {
      assert (lines + [last])[1..] == [last];
    } else {
      assert (lines + [last])[1..] == lines[1..] + [last];
      JoinLast(lines[1..], last);
      assert lines[0] + ("\n" + (Join(lines[1..]) + ("\n" + last))) == lines[0] + ("\n" + Join(lines[1..])) + ("\n" + last);
    }
  }

  lemma {:induction false} TextLineAt(lines: seq<string>, indent: string, blank: string, i: nat)
    requires i < |lines|
    ensures TextLines(lines, indent, blank)[i] ==
            var encoded := EncodedLine(lines[i]);
            if i == |lines| - 1 then indent + encoded + "\\" else if encoded == "" then blank else indent + encoded
  {
    hide EncodedLine;
    if i > 0 {
      TextLineAt(lines[1..], indent, blank, i - 1);
    }
  }

  /** The line of the text block for line i, before the continuation is written. */
  function LineText(lines: seq<string>, i: nat): string
    requires i < |lines|
  {
    var encoded := EncodedLine(lines[i]);
    if encoded == "" && i < |lines| - 1 then "" else INDENT + encoded
  }

  lemma LineTextIsWritten(lines: seq<string>, i: nat)
    requires i < |lines|
    ensures TextLines(lines, INDENT, "")[i] == LineText(lines, i) + if i == |lines| - 1 then "\\" else ""
  {
    hide EncodedLine;
    TextLineAt(lines, INDENT, "", i);
    assert LineText(lines, i) + "" == LineText(lines, i);
  }

  lemma BlockPrefix(written: seq<string>, i: nat)
    requires i < |written|
    ensures Join(["\"\"\""] + written[..i + 1]) ==
            (if i == 0 then "\"\"\"" else Join(["\"\"\""] + written[..i])) + ("\n" + written[i])
  {
    var front := ["\"\"\""] + written[..i];
    assert front + [written[i]] == ["\"\"\""] + written[..i + 1];
    JoinLast(front, written[i]);
    if i == 0 {
      assert front == ["\"\"\""];
    }
  }

  /** The encoded text of a line, from the literal that quoted writes. */
  method EncodeLine(line: string) returns (encoded: string)
    ensures encoded == EncodedLine(line)
  {
    hide Encoded;
    var quoted := Quote(line);
    encoded := quoted[1..|quoted| - 1];
    assert encoded == Encoded(line);
    if encoded != "" && encoded[|encoded| - 1] == ' ' {
      encoded := encoded[..|encoded| - 1] + "\\s";
    }
  }

  /** What has been written before line i. */
  ghost predicate Written(literal: string, lines: seq<string>, i: nat)
    requires lines != [] && i <= |lines|
  {
    var quotes, written := "\"\"\"", TextLines(lines, INDENT, "");
    if i == 0 then literal == quotes + "\n"
    else literal + (if i == |lines| then "\\" else "") == Join([quotes] + written[..i])
  }

  lemma WrittenNext(literal: string, lines: seq<string>, i: nat)
    requires i < |lines| && Written(literal, lines, i)
    ensures Written((if i == 0 then literal else literal + "\n") + LineText(lines, i), lines, i + 1)
  {
    hide EncodedLine, TextLines, Join, LineText;
    var written := TextLines(lines, INDENT, "");
    LineTextIsWritten(lines, i);
    BlockPrefix(written, i);
    var before := if i == 0 then "\"\"\"" else Join(["\"\"\""] + written[..i]);
    var line, end := LineText(lines, i), if i == |lines| - 1 then "\\" else "";
    assert before + "\n" == if i == 0 then literal else literal + "\n";
    assert before + "\n" + line + end == before + ("\n" + (line + end));
  }

  /** sqlLiteral. */
  method WriteSqlLiteral(s: string) returns (literal: string)
    ensures literal == SqlLiteral(s)
  {
    hide Split, Written, SqlLiteral, EncodedLine;
    var lines := Split(s);
    literal := "\"\"\"\n";
    Opening(lines);
    for i := 0 to |lines|
      invariant Written(literal, lines, i)
    {
      WrittenNext(literal, lines, i);
      if i > 0 {
        literal := literal + "\n";
      }
      ghost var begun := literal;
      var encoded := EncodeLine(lines[i]);
      if encoded != "" || i == |lines| - 1 {
        literal := literal + (INDENT + encoded);
      }
      assert literal == begun + LineText(lines, i);
    }
    ClosedBlock(s, literal);
    literal := literal + ("\\\n" + (INDENT + "\"\"\""));
  }

  lemma Opening(lines: seq<string>)
    requires lines != []
    ensures Written("\"\"\"\n", lines, 0)
  {
    hide TextLines;
    assert "\"\"\"\n" == "\"\"\"" + "\n";
  }

  lemma ClosedBlock(s: string, literal: string)
    requires Written(literal, Split(s), |Split(s)|)
    ensures literal + ("\\\n" + (INDENT + "\"\"\"")) == SqlLiteral(s)
  {
    hide TextLines, Join, Split;
    var written := TextLines(Split(s), INDENT, "");
    assert written[..|written|] == written;
    JoinLast(["\"\"\""] + TextLines(Split(s), INDENT, ""), INDENT + "\"\"\"");
    assert literal + ("\\\n" + (INDENT + "\"\"\"")) == literal + "\\" + ("\n" + (INDENT + "\"\"\""));
  }

  // ---------------------------------------------------------------- indentation by the generator

  /** One line behind the first, moved to the right; `filled` says that empty lines are moved too. */
  function PaddedLine(line: string, pad: string, filled: bool): string {
    if line == "" && !filled then "" else pad + line
  }

  function Padded(lines: seq<string>, pad: string, filled: bool): (padded: seq<string>)
    requires lines != []
    ensures |padded| == |lines|
  {
    seq(|lines|, i requires 0 <= i < |lines| => if i == 0 then lines[0] else PaddedLine(lines[i], pad, filled))
  }

  /** The expression with its lines behind the first moved to the right. */
  function Indented(s: string, pad: string, filled: bool): string {
    Join(Padded(Split(s), pad, filled))
  }

  /** indentExpression: the lines are changed in place; empty ones stay. */
  method IndentExpression(s: string, pad: string) returns (r: string)
    ensures r == Indented(s, pad, false)
  {
    var parts := Split(s);
    var lines := new string[|parts|](i requires 0 <= i < |parts| => parts[i]);
    assert lines[..] == parts;
    for i := 1 to lines.Length
      invariant lines[..i] == Padded(parts, pad, false)[..i]
      invariant forall j | i <= j < lines.Length :: lines[j] == parts[j]
    {
      if lines[i] != "" {
        lines[i] := pad + lines[i];
      }
      assert Padded(parts, pad, false)[..i + 1] == Padded(parts, pad, false)[..i] + [PaddedLine(parts[i], pad, false)];
    }
    assert lines[..] == Padded(parts, pad, false);
    r := Join(lines[..]);
  }

  /** strings.ReplaceAll(s, "\n", "\n" + pad). */
  function NewlinesPadded(s: string, pad: string): string {
    if s == [] then [] else (if s[0] == '\n' then "\n" + pad else [s[0]]) + NewlinesPadded(s[1..], pad)
  }

  lemma {:induction false} NewlinesPaddedIsIndented(s: string, pad: string)
    ensures NewlinesPadded(s, pad) == Indented(s, pad, true)
  {
    hide Join, Split;
    if s == [] {
      SplitLine(s);
      JoinOne(Padded([""], pad, true));
    } else {
      NewlinesPaddedIsIndented(s[1..], pad);
      PaddedNext(s, pad);
    }
  }

  lemma JoinOne(lines: seq<string>)
    requires |lines| == 1
    ensures Join(lines) == lines[0]
  {
  }

  lemma JoinMore(lines: seq<string>)
    requires |lines| > 1
    ensures Join(lines) == lines[0] + ("\n" + Join(lines[1..]))
  {
  }

  lemma JoinFront(front: string, lines: seq<string>)
    requires lines != []
    ensures Join([front + lines[0]] + lines[1..]) == front + Join(lines)
  {
    var all := [front + lines[0]] + lines[1..];
    assert all[1..] == lines[1..];
    if |lines| > 1 {
      assert front + (lines[0] + ("\n" + Join(lines[1..]))) == front + lines[0] + ("\n" + Join(lines[1..]));
    }
  }

  lemma PaddedNext(s: string, pad: string)
    requires s != []
    ensures Indented(s, pad, true) == (if s[0] == '\n' then "\n" + pad else [s[0]]) + Indented(s[1..], pad, true)
  {
    hide Join;
    var rest := Split(s[1..]);
    var padded, before := Padded(Split(s), pad, true), Padded(rest, pad, true);
    if s[0] == '\n' {
      assert padded[1..] == [pad + before[0]] + before[1..];
      JoinMore(padded);
      JoinFront(pad, before);
      assert "" + ("\n" + (pad + Join(before))) == "\n" + pad + Join(before);
    } else {
      assert padded == [[s[0]] + before[0]] + before[1..];
      JoinFront([s[0]], before);
    }
  }

  // ---------------------------------------------------------------- an indented text block

  lemma {:induction false} EncodedIsOneLine(s: string)
    ensures OneLine(Encoded(s))
  {
    if s != [] {
      EncodedIsOneLine(s[1..]);
      assert '\n' !in EncodedChar(s[0]);
    }
  }

  lemma BlockLineIsOneLine(s: string, i: nat)
    requires i < |BlockLines(s, INDENT, "")|
    ensures OneLine(BlockLines(s, INDENT, "")[i])
  {
    hide Split, TextLines, Encoded;
    var lines := Split(s);
    if 0 < i <= |lines| {
      TextLineAt(lines, INDENT, "", i - 1);
      EncodedIsOneLine(lines[i - 1]);
      assert OneLine(EncodedLine(lines[i - 1]));
    }
  }

  lemma SplitSqlLiteral(s: string)
    ensures Split(SqlLiteral(s)) == BlockLines(s, INDENT, "")
  {
    hide Split, Join, BlockLines, OneLine;
    var lines := BlockLines(s, INDENT, "");
    forall line | line in lines ensures OneLine(line) {
      var i :| 0 <= i < |lines| && lines[i] == line;
      BlockLineIsOneLine(s, i);
    }
    BlockHasLines(s);
    SplitJoin(lines);
  }

  lemma BlockHasLines(s: string)
    ensures BlockLines(s, INDENT, "") != []
  {
    hide Split, TextLines;
  }

  /** An indented text block has the lines of the block with a wider indentation. */
  lemma IndentedSqlLiteral(s: string, pad: string, filled: bool)
    ensures Indented(SqlLiteral(s), pad, filled) == Join(BlockLines(s, pad + INDENT, if filled then pad else ""))
  {
    hide Split, Join, TextLines, EncodedLine;
    SplitSqlLiteral(s);
    var lines := Split(s);
    var blank := if filled then pad else "";
    var narrow, wide := BlockLines(s, INDENT, ""), BlockLines(s, pad + INDENT, blank);
    var padded := Padded(narrow, pad, filled);
    forall i | 0 <= i < |narrow| ensures padded[i] == wide[i] {
      if 0 < i <= |lines| {
        PaddedTextLine(lines, pad, filled, i - 1);
      } else if i > |lines| {
        assert pad + (INDENT + "\"\"\"") == pad + INDENT + "\"\"\"";
      }
    }
    assert padded == wide;
  }

  lemma PaddedTextLine(lines: seq<string>, pad: string, filled: bool, i: nat)
    requires i < |lines|
    ensures PaddedLine(TextLines(lines, INDENT, "")[i], pad, filled) ==
            TextLines(lines, pad + INDENT, if filled then pad else "")[i]
  {
    hide EncodedLine, TextLines;
    TextLineAt(lines, INDENT, "", i);
    TextLineAt(lines, pad + INDENT, if filled then pad else "", i);
    var encoded := EncodedLine(lines[i]);
    assert pad + (INDENT + encoded) == pad + INDENT + encoded;
    assert pad + (INDENT + encoded + "\\") == pad + INDENT + encoded + "\\";
    assert pad + "" == pad;
  }
}
