/**
 * Java literals as a compiler reads them: sections 3.3, 3.10.6 and 3.10.7 of the Java Language Specification, Java SE
 * 17, for text blocks whose lines end in LF.
 */
module JavaReader {
  import opened Wrappers
  import opened JavaTextBlocks

  // ---------------------------------------------------------------- the specification

  /** Section 3.3: a backslash before u begins a Unicode escape unless an odd number of backslashes stands before it. */
  predicate HasUnicodeEscape(s: string) {
    if |s| < 2 then false
    else if s[0] == '\\' && s[1] == 'u' then true
    else if s[0] == '\\' && s[1] == '\\' then HasUnicodeEscape(s[2..])
    else HasUnicodeEscape(s[1..])
  }

  /** The white space of Character.isWhitespace outside ASCII: separators of Unicode that do not forbid a break. */
  predicate IsWideSpace(c: char) {
    c == '\U{1680}' || '\U{2000}' <= c <= '\U{2006}' || '\U{2008}' <= c <= '\U{200A}' || c == '\U{2028}' || c == '\U{2029}'
    || c == '\U{205F}' || c == '\U{3000}'
  }

  /** Character.isWhitespace. */
  predicate IsWhite(c: char) {
    '\t' <= c <= '\r' || 28 as char <= c <= ' ' || IsWideSpace(c)
  }

  predicate AllWhite(line: string) {
    forall c <- line :: IsWhite(c)
  }

  function Leading(line: string): (n: nat)
    ensures n <= |line|
  {
    if line == [] || !IsWhite(line[0]) then 0 else 1 + Leading(line[1..])
  }

  function TrimmedRight(line: string): string {
    if line == [] || !IsWhite(line[|line| - 1]) then line else TrimmedRight(line[..|line| - 1])
  }

  /** The least indentation of the lines that are not blank, and of the last line, blank or not. */
  function MinIndent(lines: seq<string>): nat
    requires lines != []
  {
    if |lines| == 1 then Leading(lines[0])
    else
      var rest := MinIndent(lines[1..]);
      if AllWhite(lines[0]) || Leading(lines[0]) > rest then rest else Leading(lines[0])
  }

  function StrippedLine(line: string, n: nat): string {
    if AllWhite(line) || n > |line| then "" else TrimmedRight(line[n..])
  }

  /** String.stripIndent, section 3.10.6. */
  function StripIndent(content: string): string {
    var lines := Split(content);
    var n := MinIndent(lines);
    Join(seq(|lines|, i requires 0 <= i < |lines| => StrippedLine(lines[i], n)))
  }

  predicate IsOctal(c: char) {
    '0' <= c <= '7'
  }

  /** The longest octal escape: three digits from \0 to \377. */
  function OctalLength(s: string): (n: nat)
    requires s != [] && IsOctal(s[0])
    ensures 1 <= n <= 3 && n <= |s| && forall i | 0 <= i < n :: IsOctal(s[i])
    ensures n == 3 ==> s[0] <= '3'
  {
    if |s| >= 2 && IsOctal(s[1]) then if |s| >= 3 && s[0] <= '3' && IsOctal(s[2]) then 3 else 2
    else 1
  }

  function DigitValue(c: char): (n: nat)
    requires IsOctal(c)
    ensures n < 8
  {
    (c - '0') as nat
  }

  function OctalValue(s: string): (n: nat)
    requires 1 <= |s| <= 3 && (forall i | 0 <= i < |s| :: IsOctal(s[i])) && (|s| == 3 ==> s[0] <= '3')
    ensures n < 256
  {
    if |s| == 1 then DigitValue(s[0])
    else if |s| == 2 then DigitValue(s[0]) * 8 + DigitValue(s[1])
    else DigitValue(s[0]) * 64 + DigitValue(s[1]) * 8 + DigitValue(s[2])
  }

  function Escape(c: char): Option<string> {
    match c
    case 'b' => Some([8 as char])
    case 't' => Some("\t")
    case 'n' => Some("\n")
    case 'f' => Some([12 as char])
    case 'r' => Some("\r")
    case 's' => Some(" ")
    case '"' => Some("\"")
    case '\'' => Some("'")
    case '\\' => Some("\\")
    case '\n' => Some("") // the line is continued
    case _ => None
  }

  function Prefixed(front: string, r: Result<string>): Result<string> {
    match r case Err => Err case Ok(tail) => Ok(front + tail)
  }

  /** Section 3.10.7: the escapes of a string literal or text block. */
  function Decoded(s: string): Result<string>
    decreases |s|
  {
    if s == [] then Ok("")
    else if s[0] != '\\' then Prefixed([s[0]], Decoded(s[1..]))
    else if |s| == 1 then Err
    else if IsOctal(s[1]) then
      var n := OctalLength(s[1..]);
      Prefixed([OctalValue(s[1..][..n]) as char], Decoded(s[1..][n..]))
    else
      match Escape(s[1])
      case None => Err
      case Some(text) => Prefixed(text, Decoded(s[2..]))
  }

  /** Where the first closing delimiter stands that is not escaped. */
  function ContentEnd(s: string): (end: Option<nat>)
    ensures end.Some? ==> end.value + 3 <= |s|
    decreases |s|
  {
    if |s| < 3 then None
    else if s[0] == '\\' then Shifted(2, ContentEnd(s[2..]))
    else if s[0] == '"' && s[1] == '"' && s[2] == '"' then Some(0)
    else Shifted(1, ContentEnd(s[1..]))
  }

  function Shifted(n: nat, end: Option<nat>): Option<nat> {
    match end case None => None case Some(i) => Some(i + n)
  }

  /** A whole text block: indentation is stripped first, then escapes are interpreted. */
  function ReadTextBlock(text: string): Result<string> {
    if HasUnicodeEscape(text) || '\r' in text || |text| < 4 || text[..4] != "\"\"\"\n" then Err
    else
      match ContentEnd(text[4..])
      case None => Err
      case Some(end) => if end + 7 != |text| then Err else Decoded(StripIndent(text[4..][..end]))
  }

  /** Where a string literal ends: at the first quote that is not escaped; it has no line terminator. */
  function StringEnd(s: string): (end: Option<nat>)
    ensures end.Some? ==> end.value < |s|
    decreases |s|
  {
    if s == [] || s[0] == '\n' || s[0] == '\r' then None
    else if s[0] == '\\' then if |s| == 1 then None else Shifted(2, StringEnd(s[2..]))
    else if s[0] == '"' then Some(0)
    else Shifted(1, StringEnd(s[1..]))
  }

  /** A whole string literal. */
  function ReadString(text: string): Result<string> {
    if HasUnicodeEscape(text) || text == "" || text[0] != '"' then Err
    else
      match StringEnd(text[1..])
      case None => Err
      case Some(end) => if end + 2 != |text| then Err else Decoded(text[1..][..end])
  }

  // ---------------------------------------------------------------- text without delimiters or Unicode escapes

  /** Plain characters and escapes: no quote is bare, no escape begins with u. */
  predicate Plain(s: string) {
    if s == [] then true
    else if s[0] == '\\' then |s| >= 2 && s[1] != 'u' && s[1] != '\r' && Plain(s[2..])
    else s[0] != '"' && s[0] != '\r' && Plain(s[1..])
  }

  lemma {:induction false} PlainBoth(a: string, b: string)
    requires Plain(a) && Plain(b)
    ensures Plain(a + b)
    decreases |a|
  {
    if a == [] {
      assert a + b == b;
    } else if a[0] == '\\' {
      assert (a + b)[2..] == a[2..] + b;
      PlainBoth(a[2..], b);
    } else {
      assert (a + b)[1..] == a[1..] + b;
      PlainBoth(a[1..], b);
    }
  }

  lemma {:induction false} PlainHasNoUnicode(a: string, rest: string)
    requires Plain(a) && rest != "" && rest[0] != 'u'
    ensures HasUnicodeEscape(a + rest) == HasUnicodeEscape(rest)
    decreases |a|
  {
    var s := a + rest;
    if a == [] {
      assert s == rest;
    } else if a[0] == '\\' {
      assert s[2..] == a[2..] + rest;
      PlainHasNoUnicode(a[2..], rest);
      if a[1] != '\\' {
        assert s[1..][1..] == s[2..];
        assert HasUnicodeEscape(s[1..]) == HasUnicodeEscape(s[2..]);
      }
    } else {
      assert s[1..] == a[1..] + rest;
      PlainHasNoUnicode(a[1..], rest);
    }
  }

  lemma ContentStep(c: char, s: string)
    requires |s| >= 3
    ensures c != '"' && c != '\\' ==> ContentEnd([c] + s) == Shifted(1, ContentEnd(s))
    ensures ContentEnd(['\\', c] + s) == Shifted(2, ContentEnd(s))
  {
    assert ([c] + s)[1..] == s && (['\\', c] + s)[2..] == s;
  }

  lemma {:induction false} PlainIsContent(a: string, rest: string)
    requires Plain(a) && |rest| >= 3 && ContentEnd(rest) == Some(0)
    ensures ContentEnd(a + rest) == Some(|a|)
    decreases |a|
  {
    hide ContentEnd;
    if a == [] {
      assert a + rest == rest;
    } else if a[0] == '\\' {
      PlainIsContent(a[2..], rest);
      assert a + rest == ['\\', a[1]] + (a[2..] + rest);
      ContentStep(a[1], a[2..] + rest);
    } else {
      PlainIsContent(a[1..], rest);
      assert a + rest == [a[0]] + (a[1..] + rest);
      ContentStep(a[0], a[1..] + rest);
    }
  }

  lemma {:induction false} PlainIsString(a: string)
    requires Plain(a) && OneLine(a)
    ensures StringEnd(a + "\"") == Some(|a|)
    decreases |a|
  {
    var s := a + "\"";
    if a == [] {
      assert s == "\"";
    } else if a[0] == '\\' {
      assert s[2..] == a[2..] + "\"";
      PlainIsString(a[2..]);
    } else {
      assert s[0] == a[0] && a[0] in a;
      assert s[1..] == a[1..] + "\"";
      PlainIsString(a[1..]);
    }
  }

  lemma {:induction false} PlainHasNoReturn(a: string)
    requires Plain(a)
    ensures '\r' !in a
    decreases |a|
  {
    if a != [] {
      if a[0] == '\\' {
        assert a == [a[0], a[1]] + a[2..];
        PlainHasNoReturn(a[2..]);
      } else {
        assert a == [a[0]] + a[1..];
        PlainHasNoReturn(a[1..]);
      }
    }
  }
}
