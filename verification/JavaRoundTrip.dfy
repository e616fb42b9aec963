/** What the generator writes as a Java literal reads as the text it was written for. */
module JavaRoundTrip {
  import opened Wrappers
  import opened JavaTextBlocks
  import opened JavaReader

  // ---------------------------------------------------------------- characters

  lemma OctalDigits(n: nat)
    requires n < 128
    ensures n / 64 * 64 + n / 8 % 8 * 8 + n % 8 == n && n / 64 < 2
  {
  }

  lemma DecodedOctal(n: nat, rest: string)
    requires n < 128
    ensures Decoded(['\\', OctalDigit(n / 64), OctalDigit(n / 8 % 8), OctalDigit(n % 8)] + rest) ==
            Prefixed([n as char], Decoded(rest))
  {
    OctalDigits(n);
    var digits := [OctalDigit(n / 64), OctalDigit(n / 8 % 8), OctalDigit(n % 8)];
    var s := ['\\', OctalDigit(n / 64), OctalDigit(n / 8 % 8), OctalDigit(n % 8)] + rest;
    assert s[1..] == digits + rest;
    assert s[1..][..3] == digits && s[1..][3..] == rest;
    assert OctalLength(s[1..]) == 3;
    assert OctalValue(digits) == n;
  }

  lemma DecodedEscape(c: char, rest: string)
    requires Escape(c).Some?
    ensures Decoded(['\\', c] + rest) == Prefixed(Escape(c).value, Decoded(rest))
  {
    assert (['\\', c] + rest)[2..] == rest;
  }

  lemma DecodedPlain(c: char, rest: string)
    requires c != '\\'
    ensures Decoded([c] + rest) == Prefixed([c], Decoded(rest))
  {
    assert ([c] + rest)[1..] == rest;
  }

  /** Each character is read back from what is written for it, whatever follows. */
  lemma DecodedChar(c: char, rest: string)
    ensures Decoded(EncodedChar(c) + rest) == Prefixed([c], Decoded(rest))
  {
    hide Decoded;
    if c == '\\' || c == '"' {
      DecodedEscape(c, rest);
    } else if c == '\n' {
      DecodedEscape('n', rest);
    } else if c == '\r' {
      DecodedEscape('r', rest);
    } else if c == '\t' {
      DecodedEscape('t', rest);
    } else if c < ' ' || c == 127 as char {
      DecodedOctal(c as nat, rest);
    } else {
      DecodedPlain(c, rest);
    }
  }

  lemma PrefixedTwice(a: string, b: string, r: Result<string>)
    ensures Prefixed(a, Prefixed(b, r)) == Prefixed(a + b, r)
  {
    if r.Ok? {
      assert a + (b + r.value) == a + b + r.value;
    }
  }

  lemma {:induction false} DecodedText(s: string, rest: string)
    ensures Decoded(Encoded(s) + rest) == Prefixed(s, Decoded(rest))
  {
    hide Decoded, EncodedChar;
    if s == [] {
      assert Encoded(s) + rest == rest;
      assert Decoded(rest).Ok? ==> "" + Decoded(rest).value == Decoded(rest).value;
    } else {
      var first, others := EncodedChar(s[0]), Encoded(s[1..]);
      assert Encoded(s) + rest == first + (others + rest);
      DecodedChar(s[0], others + rest);
      DecodedText(s[1..], rest);
      PrefixedTwice([s[0]], s[1..], Decoded(rest));
      assert [s[0]] + s[1..] == s;
    }
  }

  lemma PlainChar(c: char)
    ensures Plain(EncodedChar(c))
  {
    var e := EncodedChar(c);
    if |e| == 4 {
      var tail := [e[2], e[3]];
      assert e[2..] == tail && tail[1..] == [e[3]] && [e[3]][1..] == [];
      assert Plain([e[3]]) && Plain(tail);
    } else if |e| == 2 {
      assert e[2..] == [];
    } else {
      assert e[1..] == [];
    }
  }

  lemma {:induction false} PlainText(s: string)
    ensures Plain(Encoded(s))
  {
    hide Plain, EncodedChar;
    if s == [] {
      PlainNothing();
    } else {
      PlainChar(s[0]);
      PlainText(s[1..]);
      PlainBoth(EncodedChar(s[0]), Encoded(s[1..]));
    }
  }

  lemma PlainNothing()
    ensures Plain("")
  {
  }

  /** A string literal reads as the text that quoted was given, for every text. */
  lemma StringRoundTrip(s: string)
    ensures ReadString(QuotedLiteral(s)) == Ok(s)
  {
    hide Decoded, Encoded, Plain, StringEnd, HasUnicodeEscape;
    var text, body := QuotedLiteral(s), Encoded(s);
    PlainText(s);
    EncodedIsOneLine(s);
    PlainIsString(body);
    assert text[1..] == body + "\"" && text[1..][..|body|] == body;
    NoUnicodeInQuotes(body);
    assert text == "\"" + (body + "\"");
    DecodedText(s, "");
    assert body + "" == body && s + "" == s;
    DecodedNothing();
  }

  lemma DecodedNothing()
    ensures Decoded("") == Ok("")
  {
  }

  lemma NoUnicodeInQuotes(body: string)
    requires Plain(body)
    ensures !HasUnicodeEscape("\"" + (body + "\""))
  {
    PlainHasNoUnicode(body, "\"");
    var s := "\"" + (body + "\"");
    assert s[1..] == body + "\"";
  }

  // ---------------------------------------------------------------- lines

  lemma {:induction false} EncodedLast(s: string)
    requires s != []
    ensures Encoded(s) == Encoded(s[..|s| - 1]) + EncodedChar(s[|s| - 1])
  {
    assert s == s[..|s| - 1] + [s[|s| - 1]];
    EncodedNext(s[..|s| - 1], s[|s| - 1]);
  }

  lemma EncodedCharEnds(c: char)
    ensures EncodedChar(c) != ""
    ensures var e := EncodedChar(c); e[|e| - 1] == ' ' <==> c == ' '
    ensures var e := EncodedChar(c); IsWhite(e[|e| - 1]) ==> c == ' ' || IsWideSpace(c)
    ensures c == ' ' || IsWideSpace(c) ==> EncodedChar(c) == [c] && IsWhite(c)
  {
  }

  /** A trailing space is written as an escape; otherwise a line is written as in a string literal. */
  lemma LineIsEncoded(line: string)
    ensures EncodedLine(line) ==
            if line != "" && line[|line| - 1] == ' ' then Encoded(line[..|line| - 1]) + "\\s" else Encoded(line)
  {
    hide Encoded, EncodedChar;
    if line != "" {
      var c := line[|line| - 1];
      EncodedLast(line);
      EncodedCharEnds(c);
      if c == ' ' {
        assert EncodedChar(' ') == " " by { SpaceIsItself(); }
        assert Encoded(line)[..|Encoded(line)| - 1] == Encoded(line[..|line| - 1]);
      }
    } else {
      NothingEncoded();
    }
  }

  lemma NothingEncoded()
    ensures Encoded("") == ""
  {
  }

  lemma SpaceIsItself()
    ensures EncodedChar(' ') == " "
  {
  }

  lemma DecodedLine(line: string, rest: string)
    ensures Decoded(EncodedLine(line) + rest) == Prefixed(line, Decoded(rest))
  {
    hide Decoded, Encoded, EncodedLine;
    LineIsEncoded(line);
    if line != "" && line[|line| - 1] == ' ' {
      var front := line[..|line| - 1];
      assert EncodedLine(line) + rest == Encoded(front) + ("\\s" + rest);
      DecodedText(front, "\\s" + rest);
      DecodedEscape('s', rest);
      assert "\\s" == ['\\', 's'];
      PrefixedTwice(front, " ", Decoded(rest));
      assert front + " " == line;
    } else {
      DecodedText(line, rest);
    }
  }

  lemma PlainLine(line: string)
    ensures Plain(EncodedLine(line))
  {
    hide Encoded, EncodedLine;
    LineIsEncoded(line);
    if line != "" && line[|line| - 1] == ' ' {
      PlainText(line[..|line| - 1]);
      assert "\\s"[2..] == "";
      PlainBoth(Encoded(line[..|line| - 1]), "\\s");
    } else {
      PlainText(line);
    }
  }

  // ---------------------------------------------------------------- what stripping takes from a line

  predicate EndsWide(line: string) {
    line != "" && IsWideSpace(line[|line| - 1])
  }

  function Trimmed(line: string): (rest: string)
    ensures rest == "" || (rest[|rest| - 1] != ' ' && !EndsWide(rest))
    ensures |rest| <= |line| && rest == line[..|rest|]
    ensures EndsWide(line) ==> |rest| < |line|
  {
    if line == "" || (line[|line| - 1] != ' ' && !EndsWide(line)) then line else Trimmed(line[..|line| - 1])
  }

  /** Spaces at the end are kept by an escape, but not in front of wide white space, which is not escaped. */
  function Surviving(line: string): string {
    if EndsWide(line) then Trimmed(line) else line
  }

  lemma {:induction false} TrimmedEncoded(line: string)
    ensures TrimmedRight(Encoded(line)) == Encoded(Trimmed(line))
    decreases |line|
  {
    hide Encoded, EncodedChar, IsWhite, IsWideSpace;
    if line == "" {
      NothingEncoded();
    } else {
      var c, front := line[|line| - 1], line[..|line| - 1];
      EncodedLast(line);
      EncodedCharEnds(c);
      if c == ' ' || IsWideSpace(c) {
        assert Encoded(line)[..|Encoded(line)| - 1] == Encoded(front);
        TrimmedEncoded(front);
      }
    }
  }

  lemma {:induction false} WhiteTrims(line: string)
    requires AllWhite(line)
    ensures TrimmedRight(line) == ""
    decreases |line|
  {
    if line != "" {
      assert line[|line| - 1] in line;
      assert forall c <- line[..|line| - 1] :: c in line;
      WhiteTrims(line[..|line| - 1]);
    }
  }

  lemma EndTrims(line: string)
    requires line != "" && !IsWhite(line[|line| - 1])
    ensures TrimmedRight(line) == line
  {
  }

  /** Trimmed on the right, a written line is what is written for the part that survives. */
  lemma WrittenTrims(line: string)
    ensures TrimmedRight(EncodedLine(line)) == EncodedLine(Surviving(line))
  {
    hide Encoded, EncodedChar, EncodedLine, IsWhite, IsWideSpace, TrimmedRight, Trimmed;
    LineIsEncoded(line);
    LineIsEncoded(Surviving(line));
    TrimmedEncoded(line);
    if EndsWide(line) {
      SpaceIsNotWide();
    } else if line != "" {
      var c := line[|line| - 1];
      EncodedLast(line);
      EncodedCharEnds(c);
      if c == ' ' {
        EscapeEnds(Encoded(line[..|line| - 1]));
      } else {
        EndTrims(Encoded(line));
      }
    } else {
      NothingEncoded();
      WhiteTrims("");
    }
  }

  lemma SpaceIsNotWide()
    ensures !IsWideSpace(' ')
  {
  }

  lemma EscapeEnds(front: string)
    ensures TrimmedRight(front + "\\s") == front + "\\s"
  {
  }

  // ---------------------------------------------------------------- stripping

  predicate AllSpaces(s: string) {
    forall i | 0 <= i < |s| :: s[i] == ' '
  }

  lemma {:induction false} LeadingSpaces(pad: string, rest: string)
    requires AllSpaces(pad)
    ensures Leading(pad + rest) == |pad| + Leading(rest)
  {
    if pad == [] {
      assert pad + rest == rest;
    } else {
      assert (pad + rest)[1..] == pad[1..] + rest;
      LeadingSpaces(pad[1..], rest);
    }
  }

  lemma SpacesAreWhite(pad: string)
    requires AllSpaces(pad)
    ensures AllWhite(pad) && Leading(pad) == |pad|
  {
    LeadingSpaces(pad, "");
    assert pad + "" == pad;
  }

  lemma StrippedText(pad: string, text: string)
    requires AllSpaces(pad)
    ensures Leading(pad + text) >= |pad| && StrippedLine(pad + text, |pad|) == TrimmedRight(text)
  {
    LeadingSpaces(pad, text);
    var line := pad + text;
    assert line[|pad|..] == text;
    if AllWhite(line) {
      assert forall c <- text :: c in line;
      WhiteTrims(text);
    }
  }

  lemma StrippedBlank(line: string, n: nat)
    requires AllWhite(line)
    ensures StrippedLine(line, n) == ""
  {
  }

  /** The lines of the block as they are after stripping. */
  function Bare(lines: seq<string>): (bare: seq<string>)
    requires lines != []
    ensures bare != []
  {
    if |lines| == 1 then [EncodedLine(lines[0]) + "\\", ""] else [EncodedLine(lines[0])] + Bare(lines[1..])
  }

  /** What is left of the lines: all of the last one, which ends in the line continuation. */
  function Survivors(lines: seq<string>): (left: seq<string>)
    requires lines != []
    ensures |left| == |lines|
  {
    if |lines| == 1 then lines else [Surviving(lines[0])] + Survivors(lines[1..])
  }

  lemma ContinuedEnds(encoded: string)
    ensures TrimmedRight(encoded + "\\") == encoded + "\\" && !AllWhite(encoded + "\\")
  {
    var line := encoded + "\\";
    assert line[|line| - 1] == '\\' && '\\' in line;
  }

  /** One line of the block: blank, or indented by the indentation of the closing delimiter. */
  lemma BlockLine(line: string, indent: string, blank: string)
    requires AllSpaces(indent) && AllSpaces(blank)
    ensures var written := if EncodedLine(line) == "" then blank else indent + EncodedLine(line);
            && (AllWhite(written) || Leading(written) >= |indent|)
            && StrippedLine(written, |indent|) == EncodedLine(Surviving(line))
  {
    hide EncodedLine, StrippedLine, AllWhite, Leading, Surviving;
    WrittenTrims(line);
    if EncodedLine(line) == "" {
      SpacesAreWhite(blank);
      StrippedBlank(blank, |indent|);
    } else {
      StrippedText(indent, EncodedLine(line));
    }
  }

  lemma {:induction false} BlockIndent(lines: seq<string>, indent: string, blank: string)
    requires lines != [] && AllSpaces(indent) && AllSpaces(blank)
    ensures MinIndent(TextLines(lines, indent, blank) + [indent]) == |indent|
  {
    hide EncodedLine, StrippedLine, AllWhite, Leading;
    var all := TextLines(lines, indent, blank) + [indent];
    SpacesAreWhite(indent);
    if |lines| == 1 {
      assert all[1..] == [indent];
      StrippedText(indent, EncodedLine(lines[0]) + "\\");
      assert all[0] == indent + (EncodedLine(lines[0]) + "\\");
    } else {
      assert all[1..] == TextLines(lines[1..], indent, blank) + [indent];
      BlockIndent(lines[1..], indent, blank);
      BlockLine(lines[0], indent, blank);
    }
  }

  function AllStripped(lines: seq<string>, n: nat): seq<string> {
    seq(|lines|, i requires 0 <= i < |lines| => StrippedLine(lines[i], n))
  }

  lemma {:induction false} BlockStripped(lines: seq<string>, indent: string, blank: string)
    requires lines != [] && AllSpaces(indent) && AllSpaces(blank)
    ensures AllStripped(TextLines(lines, indent, blank) + [indent], |indent|) == Bare(Survivors(lines))
  {
    hide EncodedLine, StrippedLine, AllWhite, Leading, Surviving;
    var all := TextLines(lines, indent, blank) + [indent];
    if |lines| == 1 {
      SpacesAreWhite(indent);
      StrippedBlank(indent, |indent|);
      ContinuedEnds(EncodedLine(lines[0]));
      StrippedText(indent, EncodedLine(lines[0]) + "\\");
      assert all[0] == indent + (EncodedLine(lines[0]) + "\\");
      assert AllStripped(all, |indent|) == [StrippedLine(all[0], |indent|), StrippedLine(all[1], |indent|)];
    } else {
      assert all[1..] == TextLines(lines[1..], indent, blank) + [indent];
      BlockStripped(lines[1..], indent, blank);
      BlockLine(lines[0], indent, blank);
      assert AllStripped(all, |indent|) == [StrippedLine(all[0], |indent|)] + AllStripped(all[1..], |indent|);
      assert Survivors(lines)[1..] == Survivors(lines[1..]);
    }
  }

  // ---------------------------------------------------------------- decoding

  lemma {:induction false} DecodedBlock(lines: seq<string>)
    requires lines != []
    ensures Decoded(Join(Bare(lines))) == Ok(Join(lines))
  {
    hide Decoded, EncodedLine;
    var bare := Bare(lines);
    if |lines| == 1 {
      assert bare[1..] == [""];
      var e := EncodedLine(lines[0]);
      assert Join(bare) == e + "\\" + ("\n" + "");
      assert e + "\\" + ("\n" + "") == e + (['\\', '\n'] + "");
      DecodedLine(lines[0], ['\\', '\n'] + "");
      DecodedEscape('\n', "");
      DecodedNothing();
      assert Prefixed("", Ok("")) == Ok("") && Join(lines) == lines[0] && lines[0] + "" == lines[0];
    } else {
      assert bare[1..] == Bare(lines[1..]);
      var rest := Join(Bare(lines[1..]));
      DecodedBlock(lines[1..]);
      DecodedLine(lines[0], "\n" + rest);
      DecodedPlain('\n', rest);
      assert "\n" + rest == ['\n'] + rest;
    }
  }

  // ---------------------------------------------------------------- the block as a whole

  lemma {:induction false} SpacesArePlain(pad: string)
    requires AllSpaces(pad)
    ensures Plain(pad)
  {
    if pad != [] {
      SpacesArePlain(pad[1..]);
    }
  }

  lemma {:induction false} BlockIsPlain(lines: seq<string>, indent: string, blank: string)
    requires lines != [] && AllSpaces(indent) && AllSpaces(blank)
    ensures Plain(Join(TextLines(lines, indent, blank)) + "\n")
  {
    hide EncodedLine, Plain;
    var written := TextLines(lines, indent, blank);
    var e := EncodedLine(lines[0]);
    SpacesArePlain(indent);
    SpacesArePlain(blank);
    PlainLine(lines[0]);
    PlainBoth(indent, e);
    PlainEnds();
    if |lines| == 1 {
      PlainBoth(indent + e, "\\\n");
      assert indent + e + "\\" + "\n" == indent + e + "\\\n";
    } else {
      assert written[1..] == TextLines(lines[1..], indent, blank);
      BlockIsPlain(lines[1..], indent, blank);
      PlainBoth(written[0], "\n");
      PlainBoth(written[0] + "\n", Join(written[1..]) + "\n");
      assert Join(written) + "\n" == written[0] + "\n" + (Join(written[1..]) + "\n");
    }
  }

  lemma PlainEnds()
    ensures Plain("\n") && Plain("\\\n")
  {
    assert "\n"[1..] == "" && "\\\n"[2..] == "";
  }

  lemma {:induction false} TextLinesAreOneLine(lines: seq<string>, indent: string, blank: string)
    requires lines != [] && OneLine(indent) && OneLine(blank)
    ensures forall line <- TextLines(lines, indent, blank) :: OneLine(line)
  {
    hide Encoded;
    EncodedIsOneLine(lines[0]);
    assert OneLine(EncodedLine(lines[0]));
    if |lines| > 1 {
      TextLinesAreOneLine(lines[1..], indent, blank);
    }
  }

  lemma SpacesAreOneLine(pad: string)
    requires AllSpaces(pad)
    ensures OneLine(pad)
  {
  }

  /** Stripping and decoding the text between the delimiters gives what is left of the lines it was written for. */
  lemma ContentReads(lines: seq<string>, indent: string, blank: string)
    requires lines != [] && AllSpaces(indent) && AllSpaces(blank)
    ensures Decoded(StripIndent(Join(TextLines(lines, indent, blank) + [indent]))) == Ok(Join(Survivors(lines)))
  {
    hide Decoded, EncodedLine, TextLines, Split, Join, MinIndent, StrippedLine, Bare, OneLine, Survivors;
    var all := TextLines(lines, indent, blank) + [indent];
    SpacesAreOneLine(indent);
    SpacesAreOneLine(blank);
    TextLinesAreOneLine(lines, indent, blank);
    SplitJoin(all);
    BlockIndent(lines, indent, blank);
    BlockStripped(lines, indent, blank);
    assert StripIndent(Join(all)) == Join(AllStripped(all, |indent|));
    DecodedBlock(Survivors(lines));
  }

  /** The text between the delimiters of a block. */
  function Content(lines: seq<string>, indent: string, blank: string): string
    requires lines != []
  {
    Join(TextLines(lines, indent, blank)) + "\n" + indent
  }

  lemma BlockText(s: string, indent: string, blank: string)
    ensures Join(BlockLines(s, indent, blank)) == "\"\"\"\n" + (Content(Split(s), indent, blank) + "\"\"\"")
  {
    hide Split, TextLines;
    var written := TextLines(Split(s), indent, blank);
    var behind := written + [indent + "\"\"\""];
    assert BlockLines(s, indent, blank)[1..] == behind;
    JoinMore(BlockLines(s, indent, blank));
    JoinLast(written, indent + "\"\"\"");
    assert Join(written) + ("\n" + (indent + "\"\"\"")) == Join(written) + "\n" + indent + "\"\"\"";
    assert "\"\"\"" + ("\n" + (Content(Split(s), indent, blank) + "\"\"\"")) ==
           "\"\"\"\n" + (Content(Split(s), indent, blank) + "\"\"\"");
  }

  lemma ContentIsPlain(lines: seq<string>, indent: string, blank: string)
    requires lines != [] && AllSpaces(indent) && AllSpaces(blank)
    ensures Plain(Content(lines, indent, blank))
  {
    hide Plain, TextLines, Join;
    BlockIsPlain(lines, indent, blank);
    SpacesArePlain(indent);
    PlainBoth(Join(TextLines(lines, indent, blank)) + "\n", indent);
  }

  lemma ReadPlainBlock(content: string)
    requires Plain(content)
    ensures ReadTextBlock("\"\"\"\n" + (content + "\"\"\"")) == Decoded(StripIndent(content))
  {
    hide Decoded, StripIndent, Plain, HasUnicodeEscape, ContentEnd;
    var text := "\"\"\"\n" + (content + "\"\"\"");
    assert text[..4] == "\"\"\"\n" && text[4..] == content + "\"\"\"" && text[4..][..|content|] == content;
    ClosingDelimiter();
    PlainIsContent(content, "\"\"\"");
    PlainHasNoReturn(content);
    PlainHasNoUnicode(content, "\"\"\"");
    OpeningDelimiter(content + "\"\"\"");
  }

  lemma ClosingDelimiter()
    ensures ContentEnd("\"\"\"") == Some(0) && !HasUnicodeEscape("\"\"\"")
  {
    assert "\"\"\""[1..] == "\"\"" && "\"\""[1..] == "\"";
  }

  lemma PlainStep(c: char, rest: string)
    requires c != '\\' && rest != ""
    ensures HasUnicodeEscape([c] + rest) == HasUnicodeEscape(rest)
  {
    assert ([c] + rest)[1..] == rest;
  }

  lemma OpeningDelimiter(rest: string)
    requires rest != ""
    ensures HasUnicodeEscape("\"\"\"\n" + rest) == HasUnicodeEscape(rest)
  {
    hide HasUnicodeEscape;
    PlainStep('\n', rest);
    PlainStep('"', ['\n'] + rest);
    PlainStep('"', ['"'] + (['\n'] + rest));
    PlainStep('"', ['"'] + (['"'] + (['\n'] + rest)));
    assert ['"'] + (['"'] + (['"'] + (['\n'] + rest))) == "\"\"\"\n" + rest;
  }

  /** What a text block reads as, at any indentation. */
  lemma BlockReads(s: string, indent: string, blank: string)
    requires AllSpaces(indent) && AllSpaces(blank)
    ensures ReadTextBlock(Join(BlockLines(s, indent, blank))) == Ok(Join(Survivors(Split(s))))
  {
    hide ReadTextBlock, Decoded, StripIndent, Plain, TextLines, Split, Join, BlockLines, Survivors;
    var lines := Split(s);
    BlockText(s, indent, blank);
    ContentIsPlain(lines, indent, blank);
    ReadPlainBlock(Content(lines, indent, blank));
    ContentReads(lines, indent, blank);
    JoinLast(TextLines(lines, indent, blank), indent);
    assert Join(TextLines(lines, indent, blank)) + ("\n" + indent) == Content(lines, indent, blank);
  }

  /** No line but the last ends in white space that the generator does not escape. */
  predicate KeepsLines(s: string) {
    var lines := Split(s);
    forall i | 0 <= i < |lines| - 1 :: !EndsWide(lines[i])
  }

  lemma {:induction false} AllSurvive(lines: seq<string>)
    requires lines != []
    ensures Survivors(lines) == lines <==> forall i | 0 <= i < |lines| - 1 :: !EndsWide(lines[i])
  {
    hide Trimmed, EndsWide;
    if |lines| > 1 {
      var rest := lines[1..];
      AllSurvive(rest);
      assert lines == [lines[0]] + rest && Survivors(lines)[1..] == Survivors(rest);
      assert Surviving(lines[0]) == lines[0] <==> !EndsWide(lines[0]);
      if forall i | 0 <= i < |lines| - 1 :: !EndsWide(lines[i]) {
        forall i | 0 <= i < |rest| - 1 ensures !EndsWide(rest[i]) {
          assert rest[i] == lines[i + 1];
        }
      }
      if Survivors(lines) == lines {
        assert Survivors(rest) == rest;
        forall i | 0 <= i < |lines| - 1 ensures !EndsWide(lines[i]) {
          assert i > 0 ==> rest[i - 1] == lines[i];
        }
      }
    }
  }

  lemma {:induction false} SurvivorsAreOneLine(lines: seq<string>)
    requires lines != [] && forall line <- lines :: OneLine(line)
    ensures forall line <- Survivors(lines) :: OneLine(line)
  {
    hide Trimmed, EndsWide;
    assert lines[0] in lines;
    if |lines| > 1 {
      assert forall line <- lines[1..] :: line in lines;
      SurvivorsAreOneLine(lines[1..]);
      assert forall c <- Surviving(lines[0]) :: c in lines[0];
    }
  }

  /** A text block reads as the text it was written for, whatever its indentation, exactly when its lines are kept. */
  lemma BlockRoundTrip(s: string, indent: string, blank: string)
    requires AllSpaces(indent) && AllSpaces(blank)
    ensures ReadTextBlock(Join(BlockLines(s, indent, blank))) == Ok(s) <==> KeepsLines(s)
  {
    hide ReadTextBlock, Split, Join, BlockLines, Survivors, EndsWide, OneLine;
    var lines := Split(s);
    BlockReads(s, indent, blank);
    SplitLines(s);
    SurvivorsAreOneLine(lines);
    SplitJoin(Survivors(lines));
    AllSurvive(lines);
  }

  lemma PadIsSpaces(k: nat)
    ensures AllSpaces(Spaces(k)) && AllSpaces(Spaces(k) + INDENT)
  {
  }

  /**
   * The text block reads as the text exactly when its lines are kept: as it is written, and after the generator has
   * moved it to the right, whichever way empty lines are treated.
   */
  lemma TextBlockRoundTrip(s: string, k: nat)
    ensures ReadTextBlock(SqlLiteral(s)) == Ok(s) <==> KeepsLines(s)
    ensures ReadTextBlock(Indented(SqlLiteral(s), Spaces(k), false)) == Ok(s) <==> KeepsLines(s)
    ensures ReadTextBlock(NewlinesPadded(SqlLiteral(s), Spaces(k))) == Ok(s) <==> KeepsLines(s)
  {
    hide ReadTextBlock, Join, BlockLines, KeepsLines, Indented, NewlinesPadded, AllSpaces;
    PadIsSpaces(0);
    PadIsSpaces(k);
    assert Spaces(0) + INDENT == INDENT && Spaces(0) == "";
    BlockRoundTrip(s, INDENT, "");
    IndentedSqlLiteral(s, Spaces(k), false);
    IndentedSqlLiteral(s, Spaces(k), true);
    BlockRoundTrip(s, Spaces(k) + INDENT, "");
    BlockRoundTrip(s, Spaces(k) + INDENT, Spaces(k));
    NewlinesPaddedIsIndented(SqlLiteral(s), Spaces(k));
  }

  /** Text without such white space keeps its lines; an ideographic space before a newline is lost. */
  lemma NarrowTextKeepsLines(s: string)
    ensures (forall c <- s :: !IsWideSpace(c)) ==> KeepsLines(s)
    ensures !KeepsLines(['\U{3000}', '\n'])
  {
    hide IsWideSpace;
    SplitLines(s);
    WideExample();
    if forall c <- s :: !IsWideSpace(c) {
      forall i | 0 <= i < |Split(s)| - 1 ensures !EndsWide(Split(s)[i]) {
        var line := Split(s)[i];
        assert line in Split(s);
        assert line != "" ==> line[|line| - 1] in line;
      }
    }
  }

  lemma WideExample()
    ensures !KeepsLines(['\U{3000}', '\n'])
  {
    var s := ['\U{3000}', '\n'];
    assert s[1..] == "\n" && "\n"[1..] == "";
    assert Split("\n") == ["", ""];
    assert Split(s) == [[s[0]] + ""] + ["", ""][1..];
    assert Split(s)[0] == ['\U{3000}'];
  }
}
