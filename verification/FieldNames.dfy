/** Quoted field names of Struct types: every way of writing a character that strconv.Unquote understands. */
module FieldNames {
  import opened Wrappers
  import opened TypeText

  /** The ways of writing one character between quotes. */
  datatype Spelling =
    | Itself
    | Letter // \n and its like, \\, and the escaped quote
    | Hex(digits: nat) // \xhh, \uhhhh, \Uhhhhhhhh
    | Octal // \ooo

  datatype Spelled = Spelled(c: char, spelling: Spelling)

  function DigitChar(n: nat): char
    requires n < 16
  {
    if n < 10 then '0' + n as char else 'a' + (n - 10) as char
  }

  /** The lowest `digits` hexadecimal digits of n. */
  function HexText(n: nat, digits: nat): (s: string)
    ensures |s| == digits
  {
    if digits == 0 then "" else HexText(n / 16, digits - 1) + [DigitChar(n % 16)]
  }

  function Power(base: nat, e: nat): nat {
    if e == 0 then 1 else base * Power(base, e - 1)
  }

  function EscapeLetter(c: char, quote: char): Option<char> {
    if c == 7 as char then Some('a')
    else if c == 8 as char then Some('b')
    else if c == 9 as char then Some('t')
    else if c == 10 as char then Some('n')
    else if c == 11 as char then Some('v')
    else if c == 12 as char then Some('f')
    else if c == 13 as char then Some('r')
    else if c == '\\' || c == quote then Some(c)
    else None
  }

  function HexMark(digits: nat): Option<char> {
    if digits == 2 then Some('x') else if digits == 4 then Some('u') else if digits == 8 then Some('U') else None
  }

  /** Whether the character can be written that way. */
  predicate CanSpell(s: Spelled, quote: char) {
    match s.spelling
    case Itself => s.c != quote && s.c != '\\'
    case Letter => EscapeLetter(s.c, quote).Some?
    case Hex(digits) => HexMark(digits).Some? && s.c as int < Power(16, digits)
    case Octal => s.c as int < 256
  }

  function TextOf(s: Spelled, quote: char): (text: string)
    requires CanSpell(s, quote)
    ensures text != []
  {
    match s.spelling
    case Itself => [s.c]
    case Letter => ['\\', EscapeLetter(s.c, quote).value]
    case Hex(digits) => ['\\', HexMark(digits).value] + HexText(s.c as nat, digits)
    case Octal =>
      var n := s.c as nat;
      ['\\', DigitChar(n / 64), DigitChar(n / 8 % 8), DigitChar(n % 8)]
  }

  predicate AllSpelled(name: seq<Spelled>, quote: char) {
    forall s <- name :: CanSpell(s, quote)
  }

  function TextOfAll(name: seq<Spelled>, quote: char): string
    requires AllSpelled(name, quote)
  {
    if name == [] then "" else TextOf(name[0], quote) + TextOfAll(name[1..], quote)
  }

  function CharsOf(name: seq<Spelled>): string {
    seq(|name|, i requires 0 <= i < |name| => name[i].c)
  }

  // ---------------------------------------------------------------- one character

  lemma DigitIsRead(n: nat)
    requires n < 16
    ensures HexDigit(DigitChar(n)) == Some(n)
  {
  }

  lemma {:induction false} HexIsRead(n: nat, digits: nat)
    requires n < Power(16, digits)
    ensures HexValue(HexText(n, digits)) == Some(n)
    decreases digits
  {
    hide HexDigit, DigitChar;
    if digits > 0 {
      var high, s := HexText(n / 16, digits - 1), HexText(n, digits);
      assert s[..|s| - 1] == high;
      HexIsRead(n / 16, digits - 1);
      DigitIsRead(n % 16);
    }
  }

  lemma CharIsScalar(c: char)
    ensures IsScalarValue(c as nat)
  {
  }

  lemma HexEscape(c: char, digits: nat, rest: string)
    requires c as int < Power(16, digits)
    ensures ReadHex(HexText(c as nat, digits) + rest, digits) == Ok(Read(c, rest))
  {
    hide HexText, HexValue, Power;
    HexIsRead(c as nat, digits);
    CharIsScalar(c);
    var text := HexText(c as nat, digits);
    assert (text + rest)[..digits] == text && (text + rest)[digits..] == rest;
  }

  lemma OctalEscape(c: char, rest: string)
    requires c as int < 256
    ensures var n := c as nat;
            ReadOctal([DigitChar(n / 64), DigitChar(n / 8 % 8), DigitChar(n % 8)] + rest) == Ok(Read(c, rest))
  {
    var n := c as nat;
    var s := [DigitChar(n / 64), DigitChar(n / 8 % 8), DigitChar(n % 8)] + rest;
    assert s[3..] == rest;
    assert n == n / 64 * 64 + n / 8 % 8 * 8 + n % 8;
  }

  /** A spelled character is read as itself, whatever follows it. */
  lemma SpelledIsRead(s: Spelled, quote: char, rest: string)
    requires CanSpell(s, quote) && (quote == '\'' || quote == '"')
    ensures UnquoteChar(TextOf(s, quote) + rest, quote) == Ok(Read(s.c, rest))
  {
    hide HexText, Power, ReadHex, ReadOctal, DigitChar;
    var text := TextOf(s, quote);
    match s.spelling {
      case Itself =>
        assert (text + rest)[1..] == rest;
      case Letter =>
        assert (text + rest)[2..] == rest;
      case Hex(digits) =>
        assert (text + rest)[2..] == HexText(s.c as nat, digits) + rest;
        HexEscape(s.c, digits, rest);
      case Octal =>
        OctalEscape(s.c, rest);
        OctalStart(s.c as nat / 64);
        assert (text + rest)[1..] == text[1..] + rest;
    }
  }

  lemma OctalStart(n: nat)
    requires n < 4
    ensures '0' <= DigitChar(n) <= '3'
  {
  }

  // ---------------------------------------------------------------- whole names

  lemma UnquotedStep(s: string, quote: char, c: char, rest: string, tail: string)
    requires s != [] && UnquoteChar(s, quote) == Ok(Read(c, rest)) && Unquoted(rest, quote) == Ok(tail)
    ensures Unquoted(s, quote) == Ok([c] + tail)
  {
    hide UnquoteChar;
  }

  lemma {:induction false} SpelledNameIsUnquoted(name: seq<Spelled>, quote: char)
    requires AllSpelled(name, quote) && (quote == '\'' || quote == '"')
    ensures Unquoted(TextOfAll(name, quote), quote) == Ok(CharsOf(name))
    decreases |name|
  {
    hide UnquoteChar, TextOf, CanSpell, Unquoted;
    if name == [] {
      assert Unquoted("", quote) == Ok("") by { NothingUnquoted(quote); }
    } else {
      var text, rest := TextOf(name[0], quote), TextOfAll(name[1..], quote);
      assert name[0] in name && forall s <- name[1..] :: s in name;
      SpelledNameIsUnquoted(name[1..], quote);
      SpelledIsRead(name[0], quote, rest);
      UnquotedStep(text + rest, quote, name[0].c, rest, CharsOf(name[1..]));
      assert CharsOf(name) == [name[0].c] + CharsOf(name[1..]);
    }
  }

  lemma NothingUnquoted(quote: char)
    ensures Unquoted("", quote) == Ok("")
  {
  }

  lemma {:induction false} HexHasNoQuote(n: nat, digits: nat, quote: char)
    requires quote == '\'' || quote == '"'
    ensures forall c <- HexText(n, digits) :: c != quote && c != '\\'
    decreases digits
  {
    if digits > 0 {
      HexHasNoQuote(n / 16, digits - 1, quote);
    }
  }

  /** No quote closes the name in text without quotes and backslashes. */
  lemma {:induction false} PlainIsPassed(s: string, quote: char, i: nat, n: nat)
    requires i + n <= |s| && forall j | i <= j < i + n :: s[j] != quote && s[j] != '\\'
    ensures QuoteEnd(s, quote, i) == QuoteEnd(s, quote, i + n)
    decreases n
  {
    if n > 0 {
      PlainIsPassed(s, quote, i + 1, n - 1);
    }
  }

  /** A spelled character does not close the name. */
  lemma SpelledIsPassed(s: string, spelled: Spelled, quote: char, i: nat)
    requires CanSpell(spelled, quote) && (quote == '\'' || quote == '"')
    requires i + |TextOf(spelled, quote)| <= |s| && s[i..i + |TextOf(spelled, quote)|] == TextOf(spelled, quote)
    ensures QuoteEnd(s, quote, i) == QuoteEnd(s, quote, i + |TextOf(spelled, quote)|)
  {
    hide HexText, Power, QuoteEnd, DigitChar;
    var text := TextOf(spelled, quote);
    assert forall j | 0 <= j < |text| :: s[i + j] == text[j];
    if spelled.spelling == Itself {
      PlainIsPassed(s, quote, i, 1);
    } else {
      EscapePassed(s, quote, i);
      if spelled.spelling.Hex? {
        HexHasNoQuote(spelled.c as nat, spelled.spelling.digits, quote);
        assert forall j | 2 <= j < |text| :: text[j] in HexText(spelled.c as nat, spelled.spelling.digits);
      } else if spelled.spelling.Octal? {
        DigitIsNoQuote(spelled.c as nat / 8 % 8, quote);
        DigitIsNoQuote(spelled.c as nat % 8, quote);
      }
      assert forall j | i + 2 <= j < i + |text| :: s[j] == text[j - i];
      PlainIsPassed(s, quote, i + 2, |text| - 2);
    }
  }

  lemma EscapePassed(s: string, quote: char, i: nat)
    requires i + 1 < |s| && s[i] == '\\'
    ensures QuoteEnd(s, quote, i) == QuoteEnd(s, quote, i + 2)
  {
  }

  lemma DigitIsNoQuote(n: nat, quote: char)
    requires n < 16 && (quote == '\'' || quote == '"')
    ensures DigitChar(n) != quote && DigitChar(n) != '\\'
  {
  }

  lemma {:induction false} SpelledNameEnds(s: string, name: seq<Spelled>, quote: char, i: nat)
    requires AllSpelled(name, quote) && (quote == '\'' || quote == '"')
    requires i + |TextOfAll(name, quote)| < |s| && s[i..i + |TextOfAll(name, quote)|] == TextOfAll(name, quote)
    requires s[i + |TextOfAll(name, quote)|] == quote
    ensures QuoteEnd(s, quote, i) == Ok(i + |TextOfAll(name, quote)| + 1)
    decreases |name|
  {
    hide TextOf, CanSpell;
    if name != [] {
      assert name[0] in name && forall t <- name[1..] :: t in name;
      var first, rest := TextOf(name[0], quote), TextOfAll(name[1..], quote);
      assert s[i..i + |first|] == s[i..i + |first + rest|][..|first|] == first;
      assert s[i + |first|..i + |first| + |rest|] == s[i..i + |first + rest|][|first|..] == rest;
      SpelledIsPassed(s, name[0], quote, i);
      SpelledNameEnds(s, name[1..], quote, i + |first|);
    }
  }

  /** However its characters are written between quotes, the name is read back, and reading stops behind the quote. */
  lemma QuotedNameIsRead(name: seq<Spelled>, quote: char, rest: string)
    requires AllSpelled(name, quote) && (quote == '\'' || quote == '"')
    ensures ReadFieldName([quote] + TextOfAll(name, quote) + [quote] + rest) == Ok(Read(CharsOf(name), rest))
  {
    hide TextOfAll, QuoteEnd, Unquoted, AllSpelled;
    var text := TextOfAll(name, quote);
    var s := [quote] + text + [quote] + rest;
    assert s[1..1 + |text|] == text && s[1 + |text|] == quote && s[|text| + 2..] == rest;
    SpelledNameEnds(s, name, quote, 1);
    SpelledNameIsUnquoted(name, quote);
  }
}
