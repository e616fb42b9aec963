/**
 * How far parseType is from a reader that takes an opening parenthesis only behind Decimal.  parseType consumes one
 * behind every name, so the two differ; they agree on every text whose parentheses balance.
 */
module StrictTypeText {
  import opened Wrappers
  import opened Text
  import opened Types
  import opened TypeText

  // ---------------------------------------------------------------- the strict reader

  function StrictType(s: string): (r: Result<Read<Type>>)
    ensures r.Ok? ==> |r.value.rest| < |s|
    decreases |s|, 1
  {
    var n := NameEnd(s);
    if n == 0 then Err
    else
      match StrictNamed(Lower(s[..n]), s[n..])
      case Err => Err
      case Ok(Read(t, rest)) =>
        OptionalsConsume(t, rest);
        Ok(ReadOptionals(t, rest))
  }

  function StrictNamed(lower: string, s: string): (r: Result<Read<Type>>)
    ensures r.Ok? ==> |r.value.rest| <= |s|
    decreases |s|, 2
  {
    if StartsWith(s, '<') then StrictConstructor(lower, s[1..])
    else if StartsWith(s, '(') && lower == "decimal" then ReadDecimal(s[1..])
    else if StartsWith(s, '(') then Err
    else ReadSimple(lower, s)
  }

  function StrictConstructor(lower: string, s: string): (r: Result<Read<Type>>)
    ensures r.Ok? ==> |r.value.rest| < |s|
    decreases |s|, 3
  {
    if ContainerKind(lower).Some? then
      match StrictType(s)
      case Err => Err
      case Ok(Read(elem, s1)) =>
        if StartsWith(s1, '>') then Ok(Read(Plain(ContainerKind(lower).value).(elem := Some(elem)), s1[1..])) else Err
    else if lower == "dict" then StrictDict(s)
    else if lower == "struct" then
      match StrictFields(s, [])
      case Err => Err
      case Ok(Read(fields, rest)) => Ok(Read(Plain(Struct).(fields := fields), rest))
    else if lower == "tuple" then
      match StrictItems(s, [])
      case Err => Err
      case Ok(Read(items, rest)) => Ok(Read(Plain(Tuple).(items := items), rest))
    else Err
  }

  function StrictDict(s: string): (r: Result<Read<Type>>)
    ensures r.Ok? ==> |r.value.rest| < |s|
    decreases |s|, 2
  {
    match StrictType(s)
    case Err => Err
    case Ok(Read(key, s1)) =>
      if !StartsWith(s1, ',') then Err
      else
        match StrictType(s1[1..])
        case Err => Err
        case Ok(Read(value, s2)) =>
          if StartsWith(s2, '>') then Ok(Read(Plain(Dict).(key := Some(key), elem := Some(value)), s2[1..])) else Err
  }

  function StrictFields(s: string, before: seq<Field>): (r: Result<Read<seq<Field>>>)
    ensures r.Ok? ==> |r.value.rest| < |s|
    decreases |s|, 1
  {
    match ReadFieldName(s)
    case Err => Err
    case Ok(Read(name, s1)) =>
      if name == "" || !StartsWith(s1, ':') || HasName(before, name) then Err
      else
        match StrictType(s1[1..])
        case Err => Err
        case Ok(Read(t, s2)) =>
          var fields := before + [Field(name, t)];
          if StartsWith(s2, '>') then Ok(Read(fields, s2[1..]))
          else if !StartsWith(s2, ',') then Err
          else if StartsWith(s2[1..], '>') then Ok(Read(fields, s2[2..]))
          else StrictFields(s2[1..], fields)
  }

  function StrictItems(s: string, before: seq<Type>): (r: Result<Read<seq<Type>>>)
    ensures r.Ok? ==> |r.value.rest| < |s|
    decreases |s|, 2
  {
    match StrictType(s)
    case Err => Err
    case Ok(Read(t, s1)) =>
      var items := before + [t];
      if StartsWith(s1, '>') then Ok(Read(items, s1[1..]))
      else if !StartsWith(s1, ',') then Err
      else StrictItems(s1[1..], items)
  }

  function StrictParse(text: string): Result<Type> {
    match StrictType(text)
    case Err => Err
    case Ok(Read(t, rest)) => if rest == "" then Ok(t) else Err
  }

  // ---------------------------------------------------------------- parentheses outside quoted names

  predicate IsQuote(c: char) {
    c == '`' || c == '\'' || c == '"'
  }

  /** A quoted field name can only start behind one of these. */
  predicate OpensName(c: char) {
    c == '<' || c == ','
  }

  function Weight(c: char): int {
    if c == '(' then 1 else if c == ')' then -1 else 0
  }

  /** Opening minus closing parentheses outside quoted field names; `naming` says that a name may start here. */
  function Depth(s: string, naming: bool): int
    decreases |s|
  {
    if s == "" then 0
    else if naming && IsQuote(s[0]) then
      match if s[0] == '`' then BackquoteEnd(s, 1) else QuoteEnd(s, s[0], 1)
      case Err => 0
      case Ok(end) => Depth(s[end..], false)
    else Weight(s[0]) + Depth(s[1..], OpensName(s[0]))
  }

  predicate Balanced(text: string) {
    Depth(text, false) == 0
  }

  predicate IsPlain(c: char) {
    Weight(c) == 0 && !OpensName(c)
  }

  lemma {:induction false} PlainKeepsDepth(s: string, n: nat, naming: bool)
    requires 0 < n <= |s| && !IsQuote(s[0])
    requires forall i | 0 <= i < n :: IsPlain(s[i])
    ensures Depth(s, naming) == Depth(s[n..], false)
    decreases n
  {
    if n > 1 {
      PlainTailKeepsDepth(s[1..], n - 1);
      assert s[1..][n - 1..] == s[n..];
    }
  }

  lemma {:induction false} PlainTailKeepsDepth(s: string, n: nat)
    requires n <= |s| && forall i | 0 <= i < n :: IsPlain(s[i])
    ensures Depth(s, false) == Depth(s[n..], false)
    decreases n
  {
    if n == 0 {
      assert s[0..] == s;
    } else {
      PlainTailKeepsDepth(s[1..], n - 1);
      assert s[1..][n - 1..] == s[n..];
    }
  }

  lemma {:induction false} NameCharsBefore(s: string, i: nat)
    requires i < NameEnd(s)
    ensures IsNameChar(s[i])
  {
    if i > 0 {
      NameCharsBefore(s[1..], i - 1);
    }
  }

  lemma NameKeepsDepth(s: string, naming: bool)
    requires NameEnd(s) > 0
    ensures Depth(s, naming) == Depth(s[NameEnd(s)..], false)
  {
    hide Depth, NameEnd;
    forall i | 0 <= i < NameEnd(s) ensures IsPlain(s[i]) && !IsQuote(s[i]) {
      NameCharsBefore(s, i);
    }
    PlainKeepsDepth(s, NameEnd(s), naming);
  }

  lemma NumberKeepsDepth(s: string, naming: bool)
    requires ReadNumber(s).Ok?
    ensures Depth(s, naming) == Depth(ReadNumber(s).value.rest, false)
  {
    hide Depth, NatOf, DigitCount;
    forall i | 0 <= i < DigitCount(s) ensures IsPlain(s[i]) && !IsQuote(s[i]) {
      LeadingDigits(s, i);
    }
    PlainKeepsDepth(s, DigitCount(s), naming);
  }

  lemma FieldNameKeepsDepth(s: string)
    requires ReadFieldName(s).Ok?
    ensures Depth(s, true) == Depth(ReadFieldName(s).value.rest, false)
  {
    if !IsQuote(s[0]) {
      hide Depth;
      var end := PlainNameEnd(s);
      forall i | 0 <= i < end ensures IsPlain(s[i]) {
        assert s[i] in s[..end];
        assert s[i] !in "$<>,?()";
        assert '<' in "$<>,?()" && ',' in "$<>,?()" && '(' in "$<>,?()" && ')' in "$<>,?()";
      }
      PlainKeepsDepth(s, end, true);
    }
  }

  lemma {:induction false} OptionalsKeepDepth(t: Type, s: string)
    ensures Depth(s, false) == Depth(ReadOptionals(t, s).rest, false)
    decreases |s|
  {
    if StartsWith(s, '?') {
      OptionalsKeepDepth(OptionalOf(t), s[1..]);
    }
  }

  lemma DecimalKeepsDepth(s: string)
    requires ReadDecimal(s).Ok?
    ensures Depth(s, false) == Depth(ReadDecimal(s).value.rest, false) - 1
  {
    hide ReadNumber, Depth;
    NumberKeepsDepth(s, false);
    var s1 := ReadNumber(s).value.rest;
    DepthBehind(s1, false);
    NumberKeepsDepth(s1[1..], true);
    var s2 := ReadNumber(s1[1..]).value.rest;
    DepthBehind(s2, false);
  }

  lemma DepthBehind(s: string, naming: bool)
    requires s != "" && !IsQuote(s[0])
    ensures Depth(s, naming) == Weight(s[0]) + Depth(s[1..], OpensName(s[0]))
  {
  }

  // ---------------------------------------------------------------- comparing the readers

  /** The strict reader gives the same answer where no parenthesis is left open, and none where one is. */
  predicate Compared<T(==)>(read: Result<Read<T>>, strict: Result<Read<T>>, depth: int) {
    if read.Err? then strict.Err?
    else
      var open := depth - Depth(read.value.rest, false);
      open >= 0 && strict == if open == 0 then read else Err
  }

  lemma {:induction false} TypesCompared(s: string, naming: bool)
    ensures Compared(ReadType(s), StrictType(s), Depth(s, naming))
    decreases |s|, 1
  {
    hide ReadNamed, StrictNamed, Depth, ReadOptionals, NameEnd, Lower;
    var n := NameEnd(s);
    if n > 0 {
      NameKeepsDepth(s, naming);
      NamedCompared(Lower(s[..n]), s[n..]);
      if ReadNamed(Lower(s[..n]), s[n..]).Ok? {
        var Read(t, rest) := ReadNamed(Lower(s[..n]), s[n..]).value;
        OptionalsKeepDepth(t, rest);
      }
    }
  }

  lemma {:induction false} NamedCompared(lower: string, s: string)
    ensures Compared(ReadNamed(lower, s), StrictNamed(lower, s), Depth(s, false))
    decreases |s|, 2
  {
    hide ReadConstructor, StrictConstructor, Depth, ReadDecimal, SimpleKind;
    if StartsWith(s, '<') || StartsWith(s, '(') {
      DepthBehind(s, false);
    }
    if StartsWith(s, '<') {
      ConstructedCompared(lower, s[1..]);
    } else if StartsWith(s, '(') && lower == "decimal" && ReadDecimal(s[1..]).Ok? {
      DecimalKeepsDepth(s[1..]);
    }
  }

  lemma {:induction false} ConstructedCompared(lower: string, s: string)
    ensures Compared(ReadConstructor(lower, s), StrictConstructor(lower, s), Depth(s, true))
    decreases |s|, 3
  {
    hide ReadType, StrictType, ReadFields, StrictFields, ReadItems, StrictItems, StrictDict, Depth, ContainerKind;
    if ContainerKind(lower).Some? {
      TypesCompared(s, true);
      if ReadType(s).Ok? && StartsWith(ReadType(s).value.rest, '>') {
        DepthBehind(ReadType(s).value.rest, false);
      }
    } else if lower == "dict" {
      DictCompared(s);
    } else if lower == "struct" {
      FieldsCompared(s, []);
    } else if lower == "tuple" {
      ItemsCompared(s, []);
    }
  }

  lemma {:induction false} DictCompared(s: string)
    requires ContainerKind("dict").None?
    ensures Compared(ReadConstructor("dict", s), StrictDict(s), Depth(s, true))
    decreases |s|, 2
  {
    hide ReadType, StrictType, Depth, ContainerKind;
    TypesCompared(s, true);
    if ReadType(s).Ok? && StartsWith(ReadType(s).value.rest, ',') {
      var s1 := ReadType(s).value.rest;
      DepthBehind(s1, false);
      TypesCompared(s1[1..], true);
      if ReadType(s1[1..]).Ok? && StartsWith(ReadType(s1[1..]).value.rest, '>') {
        DepthBehind(ReadType(s1[1..]).value.rest, false);
      }
    }
  }

  lemma {:induction false} FieldsCompared(s: string, before: seq<Field>)
    ensures Compared(ReadFields(s, before), StrictFields(s, before), Depth(s, true))
    decreases |s|, 1
  {
    hide ReadType, StrictType, Depth, ReadFieldName, HasName;
    if ReadFieldName(s).Ok? && StartsWith(ReadFieldName(s).value.rest, ':') {
      var Read(name, s1) := ReadFieldName(s).value;
      FieldNameKeepsDepth(s);
      DepthBehind(s1, false);
      TypesCompared(s1[1..], false);
      if ReadType(s1[1..]).Ok? {
        var Read(t, s2) := ReadType(s1[1..]).value;
        if StartsWith(s2, '>') {
          DepthBehind(s2, false);
        } else if StartsWith(s2, ',') {
          DepthBehind(s2, false);
          if StartsWith(s2[1..], '>') {
            DepthBehind(s2[1..], true);
          } else {
            FieldsCompared(s2[1..], before + [Field(name, t)]);
          }
        }
      }
    }
  }

  lemma {:induction false} ItemsCompared(s: string, before: seq<Type>)
    ensures Compared(ReadItems(s, before), StrictItems(s, before), Depth(s, true))
    decreases |s|, 2
  {
    hide ReadType, StrictType, Depth;
    TypesCompared(s, true);
    if ReadType(s).Ok? {
      var Read(t, s1) := ReadType(s).value;
      if StartsWith(s1, '>') || StartsWith(s1, ',') {
        DepthBehind(s1, false);
        if StartsWith(s1, ',') {
          ItemsCompared(s1[1..], before + [t]);
        }
      }
    }
  }

  /**
   * parseType accepts a text that the strict reader rejects if and only if it leaves a parenthesis open; no accepted
   * text has more closing than opening ones.  On balanced texts the two readers are the same.
   */
  lemma LeftOpenIsAccepted(text: string)
    ensures ParseType(text).Ok? ==> Depth(text, false) >= 0
    ensures ParseType(text) != StrictParse(text) <==> ParseType(text).Ok? && !Balanced(text)
    ensures ParseType(text) != StrictParse(text) ==> StrictParse(text).Err?
  {
    hide ReadType, StrictType;
    TypesCompared(text, false);
  }

  /** Such texts exist for every simple type name. */
  lemma DanglingParenthesisIsAccepted(name: string)
    requires IsName(name) && SimpleKind(Lower(name)).Some?
    ensures ParseType(name + "(") == Ok(Plain(SimpleKind(Lower(name)).value)) && !Balanced(name + "(")
  {
    hide SimpleKind, Lower, ReadType, Depth;
    ReadTypeOf(name, "(");
    NotDecimal();
    NoOptionals(Plain(SimpleKind(Lower(name)).value), "");
    PlainKeepsDepth(name + "(", |name|, false);
    assert (name + "(")[|name|..] == "(";
    DepthBehind("(", false);
    NothingIsOpen(false);
  }

  lemma NotDecimal()
    ensures SimpleKind("decimal").None?
  {
  }

  lemma NothingIsOpen(naming: bool)
    ensures Depth("", naming) == 0
  {
  }
}
