/** The cursor parser of type text as it is written: a fixed text and an index that the reading methods advance. */
module TypeReader {
  import opened Wrappers
  import opened Text
  import opened Types
  import opened TypeText

  class Reader {
    const text: string
    var index: nat

    constructor (text: string)
      ensures this.text == text && index == 0
    {
      this.text := text;
      index := 0;
    }

    ghost function Rest(): string
      reads this
      requires index <= |text|
    {
      text[index..]
    }

    /** The method returned what the function of the text still to be read returns, and stands where that reading ends. */
    ghost predicate Agrees<T>(actual: Result<T>, expected: Result<Read<T>>)
      reads this
    {
      && index <= |text|
      && (expected.Err? ==> actual.Err?)
      && (expected.Ok? ==> actual == Ok(expected.value.value) && text[index..] == expected.value.rest)
    }

    method Consume(c: char) returns (found: bool)
      requires index <= |text|
      modifies this
      ensures index <= |text|
      ensures found == StartsWith(old(Rest()), c)
      ensures index == old(index) + (if found then 1 else 0)
      ensures Rest() == if found then old(Rest())[1..] else old(Rest())
    {
      found := index < |text| && text[index] == c;
      if found {
        index := index + 1;
      }
    }

    method SkipName()
      requires index <= |text|
      modifies this
      ensures index == old(index) + NameEnd(old(Rest())) <= |text|
    {
      while index < |text| && IsNameChar(text[index])
        invariant old(index) <= index <= |text|
        invariant index + NameEnd(text[index..]) == old(index + NameEnd(Rest()))
      {
        assert text[index..][1..] == text[index + 1..];
        index := index + 1;
      }
    }

    method SkipDigits()
      requires index <= |text|
      modifies this
      ensures index == old(index) + DigitCount(old(Rest())) <= |text|
    {
      while index < |text| && IsDigit(text[index])
        invariant old(index) <= index <= |text|
        invariant index + DigitCount(text[index..]) == old(index + DigitCount(Rest()))
      {
        assert text[index..][1..] == text[index + 1..];
        index := index + 1;
      }
    }

    method ReadNumber() returns (r: Result<nat>)
      requires index <= |text|
      modifies this
      ensures Agrees(r, TypeText.ReadNumber(old(Rest())))
    {
      var start := index;
      ghost var s := Rest();
      SkipDigits();
      if start == index { return Err; }
      var digits := text[start..index];
      SuffixParts(text, start, 0, DigitCount(s));
      AllDigits(s);
      r := Ok(NatOf(digits));
    }

    method SkipUntilColon()
      requires index <= |text|
      modifies this
      ensures index == old(index) + PlainNameEnd(old(Rest())) <= |text|
    {
      while index < |text| && text[index] != ':'
        invariant old(index) <= index <= |text|
        invariant index + PlainNameEnd(text[index..]) == old(index + PlainNameEnd(Rest()))
      {
        assert text[index..][1..] == text[index + 1..];
        index := index + 1;
      }
    }

    /** Skips a quoted name from its opening quote; `closed` says that the closing quote was found and consumed. */
    method SkipQuoted(quote: char) returns (closed: bool)
      requires index < |text|
      modifies this
      ensures old(index) < index <= |text|
      ensures quote == '`' ==>
                var end := BackquoteEnd(old(Rest()), 1);
                closed == end.Ok? && (closed ==> index == old(index) + end.value)
      ensures quote != '`' && quote != '\\' ==>
                var end := QuoteEnd(old(Rest()), quote, 1);
                closed == end.Ok? && (closed ==> index == old(index) + end.value)
    {
      var start := index;
      ghost var s := Rest();
      index := index + 1;
      while index < |text|
        invariant start < index <= |text|
        invariant quote == '`' ==> BackquoteEnd(s, index - start) == BackquoteEnd(s, 1)
        invariant quote != '`' && quote != '\\' ==> QuoteEnd(s, quote, index - start) == QuoteEnd(s, quote, 1)
        decreases |text| - index
      {
        var c := text[index];
        assert c == s[index - start];
        index := index + 1;
        if c == '\\' && quote != '`' {
          if index < |text| {
            index := index + 1;
          }
          continue;
        }
        if c != quote { continue; }
        if quote == '`' && index < |text| && text[index] == '`' {
          index := index + 1;
          continue;
        }
        return true;
      }
      closed := false;
    }

    method ReadQuotedName(quote: char) returns (r: Result<string>)
      requires index < |text| && text[index] == quote && (quote == '`' || quote == '\'' || quote == '"')
      modifies this
      ensures Agrees(r, ReadFieldName(old(Rest())))
    {
      hide ReadFieldName, BackquoteEnd, QuoteEnd, Undoubled, Unquoted;
      var start := index;
      ghost var s := Rest();
      QuotedName(s);
      var closed := SkipQuoted(quote);
      if !closed { return Err; }
      var body := text[start + 1..index - 1];
      SuffixParts(text, start, 1, index - start - 1);
      SuffixParts(text, start, 0, index - start);
      if quote == '`' { return Ok(Undoubled(body, '`')); }
      r := Unquote(body, quote);
    }

    method ReadPlainName() returns (r: Result<string>)
      requires index < |text| && text[index] != '`' && text[index] != '\'' && text[index] != '"'
      modifies this
      ensures Agrees(r, ReadFieldName(old(Rest())))
    {
      hide PlainNameEnd, ContainsAny;
      var start := index;
      ghost var s := Rest();
      SkipUntilColon();
      var name := text[start..index];
      SuffixParts(text, start, 0, index - start);
      r := if name == "" || ContainsAny(name, "$<>,?()") then Err else Ok(name);
    }

    /** readStructFieldName. */
    method ReadStructFieldName() returns (r: Result<string>)
      requires index <= |text|
      modifies this
      ensures Agrees(r, ReadFieldName(old(Rest())))
    {
      hide BackquoteEnd, QuoteEnd, Undoubled, Unquoted, PlainNameEnd, ContainsAny;
      if index == |text| { return Err; }
      var quote := text[index];
      if quote == '`' || quote == '\'' || quote == '"' {
        r := ReadQuotedName(quote);
      } else {
        r := ReadPlainName();
      }
    }

    method ReadType() returns (r: Result<Type>)
      requires index <= |text|
      modifies this
      ensures Agrees(r, TypeText.ReadType(old(Rest())))
      decreases |text| - index, 1
    {
      hide Lower, SimpleKind, ReadConstructor, ReadDecimal, NameEnd;
      var start := index;
      ghost var s := Rest();
      SkipName();
      if start == index { return Err; }
      var lower := Lower(text[start..index]);
      SuffixParts(text, start, 0, NameEnd(s));
      var angle := Consume('<');
      if angle {
        r := ReadParameters(lower);
      } else {
        var round := Consume('(');
        if round && lower == "decimal" {
          r := ReadDecimalBounds();
        } else {
          var simple := SimpleKind(lower);
          r := if simple.Some? then Ok(Plain(simple.value)) else Err;
        }
      }
      if r.Err? { return; }
      ghost var named := ReadNamed(lower, s[NameEnd(s)..]);
      assert r == Ok(named.value.value) && Rest() == named.value.rest;
      var out := SkipQuestionMarks(r.value);
      r := Ok(out);
    }

    method SkipQuestionMarks(t: Type) returns (out: Type)
      requires index <= |text|
      modifies this
      ensures old(index) <= index <= |text|
      ensures Read(out, Rest()) == ReadOptionals(t, old(Rest()))
    {
      out := t;
      var more := Consume('?');
      while more
        invariant old(index) <= index <= |text|
        invariant ReadOptionals(t, old(Rest())) == if more then ReadOptionals(OptionalOf(out), Rest()) else Read(out, Rest())
        decreases |text| - index, more
      {
        out := OptionalOf(out);
        more := Consume('?');
      }
    }

    method ReadDecimalBounds() returns (r: Result<Type>)
      requires index <= |text|
      modifies this
      ensures Agrees(r, ReadDecimal(old(Rest())))
    {
      var precision := ReadNumber();
      if precision.Err? { return Err; }
      var comma := Consume(',');
      if !comma { return Err; }
      var scale := ReadNumber();
      if scale.Err? { return Err; }
      var close := Consume(')');
      if !close || precision.value < 1 || precision.value > 35 || scale.value > precision.value { return Err; }
      r := Ok(Plain(Decimal).(precision := precision.value, scale := scale.value));
    }

    method ReadParameters(lower: string) returns (r: Result<Type>)
      requires 0 < index <= |text|
      modifies this
      ensures Agrees(r, ReadConstructor(lower, old(Rest())))
      decreases |text| - index, 3
    {
      var container := ContainerKind(lower);
      if container.Some? {
        var elem := ReadType();
        if elem.Err? { return Err; }
        var close := Consume('>');
        r := if close then Ok(Plain(container.value).(elem := Some(elem.value))) else Err;
      } else if lower == "dict" {
        var key := ReadType();
        if key.Err? { return Err; }
        var comma := Consume(',');
        if !comma { return Err; }
        var value := ReadType();
        if value.Err? { return Err; }
        var close := Consume('>');
        r := if close then Ok(Plain(Dict).(key := Some(key.value), elem := Some(value.value))) else Err;
      } else if lower == "struct" {
        var fields := ReadStructFields();
        r := if fields.Err? then Err else Ok(Plain(Struct).(fields := fields.value));
      } else if lower == "tuple" {
        var items := ReadTupleItems();
        r := if items.Err? then Err else Ok(Plain(Tuple).(items := items.value));
      } else {
        r := Err;
      }
    }

    method ReadStructFields() returns (r: Result<seq<Field>>)
      requires index <= |text|
      modifies this
      ensures Agrees(r, ReadFields(old(Rest()), []))
      decreases |text| - index, 2
    {
      hide Seen, HasName;
      var fields: seq<Field> := [];
      var seen: set<string> := {};
      NothingSeen();
      while true
        invariant old(index) <= index <= |text|
        invariant ReadFields(Rest(), fields) == ReadFields(old(Rest()), [])
        invariant Seen(seen, fields)
        decreases |text| - index
      {
        var name := ReadStructFieldName();
        if name.Err? || name.value == "" { return Err; }
        SeenName(seen, fields, name.value);
        var colon := Consume(':');
        if !colon || name.value in seen { return Err; }
        var t := ReadType();
        if t.Err? { return Err; }
        AddedName(seen, fields, Field(name.value, t.value));
        seen := seen + {name.value};
        fields := fields + [Field(name.value, t.value)];
        var close := Consume('>');
        if close { return Ok(fields); }
        var comma := Consume(',');
        if !comma { return Err; }
        close := Consume('>');
        if close { return Ok(fields); }
      }
    }

    method ReadTupleItems() returns (r: Result<seq<Type>>)
      requires index <= |text|
      modifies this
      ensures Agrees(r, ReadItems(old(Rest()), []))
      decreases |text| - index, 2
    {
      var items: seq<Type> := [];
      while true
        invariant old(index) <= index <= |text|
        invariant ReadItems(Rest(), items) == ReadItems(old(Rest()), [])
        decreases |text| - index
      {
        var item := ReadType();
        if item.Err? { return Err; }
        items := items + [item.value];
        var close := Consume('>');
        if close { return Ok(items); }
        var comma := Consume(',');
        if !comma { return Err; }
      }
    }
  }

  /** Parts of the text still to be read are parts of the whole text. */
  lemma SuffixParts(text: string, start: nat, from: nat, to: nat)
    requires from <= to && start + to <= |text|
    ensures text[start + from..start + to] == text[start..][from..to]
    ensures text[start..start + to] == text[start..][..to]
    ensures text[start + to..] == text[start..][to..]
  {
  }

  lemma QuotedName(s: string)
    requires s != "" && (s[0] == '`' || s[0] == '\'' || s[0] == '"')
    ensures s[0] == '`' ==>
              var end := BackquoteEnd(s, 1);
              ReadFieldName(s) == if end.Err? then Err else Ok(Read(Undoubled(s[1..end.value - 1], '`'), s[end.value..]))
    ensures s[0] != '`' ==>
              var end := QuoteEnd(s, s[0], 1);
              if end.Err? then ReadFieldName(s).Err?
              else
                var name := Unquoted(s[1..end.value - 1], s[0]);
                ReadFieldName(s) == if name.Err? then Err else Ok(Read(name.value, s[end.value..]))
  {
    hide BackquoteEnd, QuoteEnd, Undoubled, Unquoted;
  }

  lemma AllDigits(s: string)
    ensures forall c <- s[..DigitCount(s)] :: IsDigit(c)
  {
    forall i | 0 <= i < DigitCount(s) ensures IsDigit(s[i]) { LeadingDigits(s, i); }
  }

  /** The set of names seen so far, as the loop over the members keeps it. */
  ghost predicate Seen(seen: set<string>, fields: seq<Field>) {
    forall name :: name in seen <==> HasName(fields, name)
  }

  lemma NothingSeen()
    ensures Seen({}, [])
  {
  }

  lemma AddedName(seen: set<string>, fields: seq<Field>, f: Field)
    requires Seen(seen, fields)
    ensures Seen(seen + {f.name}, fields + [f])
  {
    var all := fields + [f];
    forall name ensures name in seen + {f.name} <==> HasName(all, name) {
      if HasName(fields, name) {
        var g :| g in fields && g.name == name;
        assert g in all;
      }
      assert f in all;
    }
  }

  /** A repeated member name is rejected and no other: `seen` decides what HasName asks. */
  lemma SeenName(seen: set<string>, fields: seq<Field>, name: string)
    requires Seen(seen, fields)
    ensures name in seen <==> HasName(fields, name)
  {
  }

  /** parseType: the whole text must be read. */
  method ParseTypeText(text: string) returns (r: Result<Type>)
    ensures r == ParseType(text)
  {
    var reader := new Reader(text);
    assert reader.Rest() == text;
    r := reader.ReadType();
    if r.Ok? && reader.index != |text| {
      r := Err;
    }
  }

  /** The unescaping loop of a quoted field name. */
  method Unquote(quoted: string, quote: char) returns (r: Result<string>)
    ensures r == Unquoted(quoted, quote)
  {
    var body, out := quoted, "";
    ghost var all := Unquoted(quoted, quote);
    assert all.Ok? ==> "" + all.value == all.value;
    while body != ""
      invariant Unquoted(quoted, quote) ==
                match Unquoted(body, quote) case Err => Err case Ok(tail) => Ok(out + tail)
      decreases |body|
    {
      var next := UnquoteChar(body, quote);
      if next.Err? { return Err; }
      UnquoteCharConsumes(body, quote);
      ghost var tail := Unquoted(next.value.rest, quote);
      assert tail.Ok? ==> out + ([next.value.value] + tail.value) == out + [next.value.value] + tail.value;
      out, body := out + [next.value.value], next.value.rest;
    }
    assert out + "" == out;
    r := Ok(out);
  }
}
