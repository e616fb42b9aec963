/** Type text: the printer Type.String and the cursor parser parseType, as functions on the text still to be read. */
module TypeText {
  import opened Wrappers
  import opened Text
  import opened Types

  // ---------------------------------------------------------------- spellings

  function KindName(kind: Kind): string {
    match kind
    case NoKind => ""
    case Bool => "Bool"
    case Int8 => "Int8" case Int16 => "Int16" case Int32 => "Int32" case Int64 => "Int64"
    case Uint8 => "Uint8" case Uint16 => "Uint16" case Uint32 => "Uint32" case Uint64 => "Uint64"
    case Float => "Float" case Double => "Double"
    case String => "String" case Utf8 => "Utf8"
    case Yson => "Yson" case Json => "Json" case JsonDocument => "JsonDocument"
    case Uuid => "Uuid" case DyNumber => "DyNumber"
    case Date => "Date" case Datetime => "Datetime" case Timestamp => "Timestamp" case Interval => "Interval"
    case Date32 => "Date32" case Datetime64 => "Datetime64" case Timestamp64 => "Timestamp64" case Interval64 => "Interval64"
    case TzDate => "TzDate" case TzDatetime => "TzDatetime" case TzTimestamp => "TzTimestamp"
    case TzDate32 => "TzDate32" case TzDatetime64 => "TzDatetime64" case TzTimestamp64 => "TzTimestamp64"
    case Void => "Void" case Null => "Null"
    case Decimal => "Decimal"
    case Optional => "Optional" case List => "List" case Stream => "Stream" case Flow => "Flow" case Set => "Set"
    case Dict => "Dict" case Struct => "Struct" case Tuple => "Tuple" case Tagged => "Tagged" case Callable => "Callable"
    case Resource(name) => "Resource<" + name + ">"
    case Lambda => "Lambda"
    case Other(name) => name
  }

  /** simpleTypes, on the lower-case spelling; grouped by length so that lookups stay small. */
  function SimpleKind(lower: string): Option<Kind> {
    match |lower|
    case 3 => SpelledInThree(lower)
    case 4 => SpelledInFour(lower)
    case 5 => SpelledInFive(lower)
    case 6 => SpelledInSix(lower)
    case 7 => SpelledInSeven(lower)
    case 8 => SpelledInEight(lower)
    case 9 => SpelledInNine(lower)
    case 10 => SpelledInTen(lower)
    case 11 => SpelledInEleven(lower)
    case 12 => SpelledInTwelve(lower)
    case _ => None
  }

  function SpelledInThree(lower: string): Option<Kind> {
    match lower
    case "int" => Some(Int32)
    case _ => None
  }

  function SpelledInFour(lower: string): Option<Kind> {
    match lower
    case "bool" => Some(Bool)
    case "int8" => Some(Int8)
    case "utf8" => Some(Utf8)
    case "text" => Some(Utf8)
    case "yson" => Some(Yson)
    case "json" => Some(Json)
    case "uuid" => Some(Uuid)
    case "date" => Some(Date)
    case "void" => Some(Void)
    case "null" => Some(Null)
    case _ => None
  }

  function SpelledInFive(lower: string): Option<Kind> {
    match lower
    case "int16" => Some(Int16)
    case "int32" => Some(Int32)
    case "int64" => Some(Int64)
    case "uint8" => Some(Uint8)
    case "float" => Some(Float)
    case "bytes" => Some(String)
    case _ => None
  }

  function SpelledInSix(lower: string): Option<Kind> {
    match lower
    case "bigint" => Some(Int64)
    case "uint16" => Some(Uint16)
    case "uint32" => Some(Uint32)
    case "uint64" => Some(Uint64)
    case "double" => Some(Double)
    case "string" => Some(String)
    case "date32" => Some(Date32)
    case "tzdate" => Some(TzDate)
    case _ => None
  }

  function SpelledInSeven(lower: string): Option<Kind> {
    match lower
    case "tinyint" => Some(Int8)
    case "integer" => Some(Int32)
    case _ => None
  }

  function SpelledInEight(lower: string): Option<Kind> {
    match lower
    case "smallint" => Some(Int16)
    case "dynumber" => Some(DyNumber)
    case "datetime" => Some(Datetime)
    case "interval" => Some(Interval)
    case _ => None
  }

  function SpelledInNine(lower: string): Option<Kind> {
    match lower
    case "timestamp" => Some(Timestamp)
    case _ => None
  }

  function SpelledInTen(lower: string): Option<Kind> {
    match lower
    case "datetime64" => Some(Datetime64)
    case "interval64" => Some(Interval64)
    case "tzdatetime" => Some(TzDatetime)
    case _ => None
  }

  function SpelledInEleven(lower: string): Option<Kind> {
    match lower
    case "timestamp64" => Some(Timestamp64)
    case "tztimestamp" => Some(TzTimestamp)
    case _ => None
  }

  function SpelledInTwelve(lower: string): Option<Kind> {
    match lower
    case "jsondocument" => Some(JsonDocument)
    case _ => None
  }

  /** The kinds parseType can produce without parameters. */
  predicate IsSimple(kind: Kind) {
    kind.Bool? || kind.Int8? || kind.Int16? || kind.Int32? || kind.Int64? || kind.Uint8? || kind.Uint16? || kind.Uint32?
    || kind.Uint64? || kind.Float? || kind.Double? || kind.String? || kind.Utf8? || kind.Yson? || kind.Json?
    || kind.JsonDocument? || kind.Uuid? || kind.DyNumber? || kind.Date? || kind.Datetime? || kind.Timestamp?
    || kind.Interval? || kind.Date32? || kind.Datetime64? || kind.Timestamp64? || kind.Interval64? || kind.TzDate?
    || kind.TzDatetime? || kind.TzTimestamp? || kind.Void? || kind.Null?
  }

  /** canonicalConstructor on the lower-case spelling. */
  function ContainerKind(lower: string): Option<Kind> {
    match lower
    case "optional" => Some(Optional)
    case "list" => Some(List)
    case "stream" => Some(Stream)
    case "flow" => Some(Flow)
    case "set" => Some(Set)
    case _ => None
  }

  predicate IsContainer(kind: Kind) {
    kind.Optional? || kind.List? || kind.Stream? || kind.Flow? || kind.Set?
  }

  predicate IsNameChar(c: char) {
    c == '_' || 'a' <= c <= 'z' || 'A' <= c <= 'Z' || '0' <= c <= '9'
  }

  predicate AllNameChars(s: string) {
    forall i | 0 <= i < |s| :: IsNameChar(s[i])
  }

  /** The printed spelling of a kind reads back as that kind. */
  predicate NamesItself(kind: Kind) {
    SimpleKind(Lower(KindName(kind))) == Some(kind)
  }

  lemma NamesOfFour(kind: Kind)
    requires kind.Bool? || kind.Int8? || kind.Utf8? || kind.Yson? || kind.Json? || kind.Uuid? || kind.Date? || kind.Void? || kind.Null?
    ensures NamesItself(kind)
  {
    match kind {
      case Bool => assert Lower("Bool") == "bool";
      case Int8 => assert Lower("Int8") == "int8";
      case Utf8 => assert Lower("Utf8") == "utf8";
      case Yson => assert Lower("Yson") == "yson";
      case Json => assert Lower("Json") == "json";
      case Uuid => assert Lower("Uuid") == "uuid";
      case Date => assert Lower("Date") == "date";
      case Void => assert Lower("Void") == "void";
      case Null => assert Lower("Null") == "null";
    }
  }

  lemma NamesOfFive(kind: Kind)
    requires kind.Int16? || kind.Int32? || kind.Int64? || kind.Uint8? || kind.Float?
    ensures NamesItself(kind)
  {
    match kind {
      case Int16 => assert Lower("Int16") == "int16";
      case Int32 => assert Lower("Int32") == "int32";
      case Int64 => assert Lower("Int64") == "int64";
      case Uint8 => assert Lower("Uint8") == "uint8";
      case Float => assert Lower("Float") == "float";
    }
  }

  lemma NamesOfSix(kind: Kind)
    requires kind.Uint16? || kind.Uint32? || kind.Uint64? || kind.Double? || kind.String? || kind.Date32? || kind.TzDate?
    ensures NamesItself(kind)
  {
    match kind {
      case Uint16 => assert Lower("Uint16") == "uint16";
      case Uint32 => assert Lower("Uint32") == "uint32";
      case Uint64 => assert Lower("Uint64") == "uint64";
      case Double => assert Lower("Double") == "double";
      case String => assert Lower("String") == "string";
      case Date32 => assert Lower("Date32") == "date32";
      case TzDate => assert Lower("TzDate") == "tzdate";
    }
  }

  lemma NamesOfEight(kind: Kind)
    requires kind.DyNumber? || kind.Datetime? || kind.Interval?
    ensures NamesItself(kind)
  {
    match kind {
      case DyNumber => assert Lower("DyNumber") == "dynumber";
      case Datetime => assert Lower("Datetime") == "datetime";
      case Interval => assert Lower("Interval") == "interval";
    }
  }

  lemma NamesOfNine(kind: Kind)
    requires kind.Timestamp?
    ensures NamesItself(kind)
  {
    match kind {
      case Timestamp => assert Lower("Timestamp") == "timestamp";
    }
  }

  lemma NamesOfTen(kind: Kind)
    requires kind.Datetime64? || kind.Interval64? || kind.TzDatetime?
    ensures NamesItself(kind)
  {
    match kind {
      case Datetime64 => assert Lower("Datetime64") == "datetime64";
      case Interval64 => assert Lower("Interval64") == "interval64";
      case TzDatetime => assert Lower("TzDatetime") == "tzdatetime";
    }
  }

  lemma NamesOfEleven(kind: Kind)
    requires kind.Timestamp64? || kind.TzTimestamp?
    ensures NamesItself(kind)
  {
    match kind {
      case Timestamp64 => assert Lower("Timestamp64") == "timestamp64";
      case TzTimestamp => assert Lower("TzTimestamp") == "tztimestamp";
    }
  }

  lemma NamesOfTwelve(kind: Kind)
    requires kind.JsonDocument?
    ensures NamesItself(kind)
  {
    match kind {
      case JsonDocument => assert Lower("JsonDocument") == "jsondocument";
    }
  }

  predicate HasPlainName(kind: Kind) {
    IsSimple(kind) || IsContainer(kind) || kind.Dict? || kind.Struct? || kind.Tuple? || kind.Decimal?
  }

  predicate IsName(s: string) {
    s != "" && AllNameChars(s)
  }

  lemma NamesOfScalars(kind: Kind)
    requires kind.Bool? || kind.Int8? || kind.Int16? || kind.Int32? || kind.Int64? || kind.Uint8? || kind.Uint16?
             || kind.Uint32? || kind.Uint64? || kind.Float? || kind.Double?
    ensures IsName(KindName(kind))
  {
    match kind {
      case Bool => assert IsName("Bool");
      case Int8 => assert IsName("Int8");
      case Int16 => assert IsName("Int16");
      case Int32 => assert IsName("Int32");
      case Int64 => assert IsName("Int64");
      case Uint8 => assert IsName("Uint8");
      case Uint16 => assert IsName("Uint16");
      case Uint32 => assert IsName("Uint32");
      case Uint64 => assert IsName("Uint64");
      case Float => assert IsName("Float");
      case Double => assert IsName("Double");
    }
  }

  lemma NamesOfText(kind: Kind)
    requires kind.String? || kind.Utf8? || kind.Yson? || kind.Json? || kind.Uuid?
    ensures IsName(KindName(kind))
  {
    match kind {
      case String => assert IsName("String");
      case Utf8 => assert IsName("Utf8");
      case Yson => assert IsName("Yson");
      case Json => assert IsName("Json");
      case Uuid => assert IsName("Uuid");
    }
  }

  lemma NamesOfOthers(kind: Kind)
    requires kind.JsonDocument? || kind.DyNumber? || kind.Void? || kind.Null?
    ensures IsName(KindName(kind))
  {
    match kind {
      case JsonDocument => assert IsName("JsonDocument");
      case DyNumber => assert IsName("DyNumber");
      case Void => assert IsName("Void");
      case Null => assert IsName("Null");
    }
  }

  lemma NamesOfDates(kind: Kind)
    requires kind.Date? || kind.Datetime? || kind.Timestamp? || kind.Interval?
    ensures IsName(KindName(kind))
  {
    match kind {
      case Date => assert IsName("Date");
      case Datetime => assert IsName("Datetime");
      case Timestamp => assert IsName("Timestamp");
      case Interval => assert IsName("Interval");
    }
  }

  lemma NamesOfWideDates(kind: Kind)
    requires kind.Date32? || kind.Datetime64? || kind.Timestamp64? || kind.Interval64?
    ensures IsName(KindName(kind))
  {
    match kind {
      case Date32 => assert IsName("Date32");
      case Datetime64 => assert IsName("Datetime64");
      case Timestamp64 => assert IsName("Timestamp64");
      case Interval64 => assert IsName("Interval64");
    }
  }

  lemma NamesOfZonedDates(kind: Kind)
    requires kind.TzDate? || kind.TzDatetime? || kind.TzTimestamp?
    ensures IsName(KindName(kind))
  {
    match kind {
      case TzDate => assert IsName("TzDate");
      case TzDatetime => assert IsName("TzDatetime");
      case TzTimestamp => assert IsName("TzTimestamp");
    }
  }

  lemma NameOfOptional()
    ensures IsName(KindName(Optional))
  {
    assert IsName("Optional");
  }

  lemma NamesOfContainers(kind: Kind)
    requires kind.Optional? || kind.List? || kind.Stream? || kind.Flow? || kind.Set?
    ensures IsName(KindName(kind))
  {
    match kind {
      case Optional => NameOfOptional();
      case List => assert IsName("List");
      case Stream => assert IsName("Stream");
      case Flow => assert IsName("Flow");
      case Set => assert IsName("Set");
    }
  }

  lemma NamesOfConstructors(kind: Kind)
    requires kind.Dict? || kind.Struct? || kind.Tuple? || kind.Decimal?
    ensures IsName(KindName(kind))
  {
    match kind {
      case Dict => assert IsName("Dict");
      case Struct => assert IsName("Struct");
      case Tuple => assert IsName("Tuple");
      case Decimal => assert IsName("Decimal");
    }
  }

  lemma KindNamesAreNames(kind: Kind)
    requires HasPlainName(kind)
    ensures KindName(kind) != "" && AllNameChars(KindName(kind))
  {
    hide AllNameChars, KindName;
    match kind {
      case Bool | Int8 | Int16 | Int32 | Int64 | Uint8 | Uint16 | Uint32 | Uint64 | Float | Double => NamesOfScalars(kind);
      case String | Utf8 | Yson | Json | Uuid => NamesOfText(kind);
      case JsonDocument | DyNumber | Void | Null => NamesOfOthers(kind);
      case Date32 | Datetime64 | Timestamp64 | Interval64 => NamesOfWideDates(kind);
      case TzDate | TzDatetime | TzTimestamp => NamesOfZonedDates(kind);
      case Optional | List | Stream | Flow | Set => NamesOfContainers(kind);
      case Dict | Struct | Tuple | Decimal => NamesOfConstructors(kind);
      case _ => NamesOfDates(kind);
    }
  }

  lemma SimpleKindsRoundTrip(kind: Kind)
    requires IsSimple(kind)
    ensures NamesItself(kind)
  {
    hide NamesItself;
    match |KindName(kind)|
    case 4 => NamesOfFour(kind);
    case 5 => NamesOfFive(kind);
    case 6 => NamesOfSix(kind);
    case 8 => NamesOfEight(kind);
    case 9 => NamesOfNine(kind);
    case 10 => NamesOfTen(kind);
    case 11 => NamesOfEleven(kind);
    case 12 => NamesOfTwelve(kind);
  }

  lemma SimpleKindsAreSimple(lower: string)
    ensures SimpleKind(lower).Some? ==> IsSimple(SimpleKind(lower).value)
    ensures ContainerKind(lower).Some? ==> IsContainer(ContainerKind(lower).value)
  {
  }

  // ---------------------------------------------------------------- numbers

  predicate IsDigit(c: char) {
    '0' <= c <= '9'
  }

  function DigitChar(d: nat): char
    requires d < 10
  {
    '0' + d as char
  }

  function PrintNat(n: nat): string {
    if n < 10 then [DigitChar(n)] else PrintNat(n / 10) + [DigitChar(n % 10)]
  }

  function PrintInt(n: int): string {
    if n < 0 then "-" + PrintNat(-n) else PrintNat(n)
  }

  function DigitCount(s: string): (n: nat)
    ensures n <= |s|
  {
    if s == [] || !IsDigit(s[0]) then 0 else 1 + DigitCount(s[1..])
  }

  function NatOf(s: string): nat
    requires forall c <- s :: IsDigit(c)
  {
    if s == [] then 0
    else
      var last := s[|s| - 1];
      assert last in s && IsDigit(last);
      NatOf(s[..|s| - 1]) * 10 + (last - '0') as nat
  }

  lemma {:induction false} LeadingDigits(s: string, i: nat)
    requires i < DigitCount(s)
    ensures IsDigit(s[i])
  {
    if i > 0 {
      LeadingDigits(s[1..], i - 1);
    }
  }

  datatype Read<+T> = Read(value: T, rest: string)

  /** readNumber; a number too large for a machine integer is an error there and out of every accepted range here. */
  function ReadNumber(s: string): (r: Result<Read<nat>>)
    ensures r.Ok? ==> |r.value.rest| < |s|
  {
    var n := DigitCount(s);
    if n == 0 then Err
    else
      assert forall c <- s[..n] :: IsDigit(c) by {
        forall i | 0 <= i < n ensures IsDigit(s[..n][i]) { LeadingDigits(s, i); }
      }
      Ok(Read(NatOf(s[..n]), s[n..]))
  }

  // ---------------------------------------------------------------- struct field names

  /** Where a back-quoted name that starts at s[0] ends: past the closing quote; a doubled quote does not close. */
  function BackquoteEnd(s: string, i: nat): (r: Result<nat>)
    requires i <= |s|
    ensures r.Ok? ==> i < r.value <= |s|
    decreases |s| - i
  {
    if i == |s| then Err
    else if s[i] != '`' then BackquoteEnd(s, i + 1)
    else if i + 1 < |s| && s[i + 1] == '`' then BackquoteEnd(s, i + 2)
    else Ok(i + 1)
  }

  /** Where a quoted name ends: a backslash takes the next character with it. */
  function QuoteEnd(s: string, quote: char, i: nat): (r: Result<nat>)
    requires i <= |s|
    ensures r.Ok? ==> i < r.value <= |s|
    decreases |s| - i
  {
    if i == |s| then Err
    else if s[i] == '\\' then if i + 1 < |s| then QuoteEnd(s, quote, i + 2) else Err
    else if s[i] == quote then Ok(i + 1)
    else QuoteEnd(s, quote, i + 1)
  }

  function HexDigit(c: char): Option<nat> {
    if '0' <= c <= '9' then Some((c - '0') as nat)
    else if 'a' <= c <= 'f' then Some((c - 'a') as nat + 10)
    else if 'A' <= c <= 'F' then Some((c - 'A') as nat + 10)
    else None
  }

  function HexValue(s: string): Option<nat> {
    if s == [] then Some(0)
    else
      match (HexValue(s[..|s| - 1]), HexDigit(s[|s| - 1]))
      case (Some(high), Some(low)) => Some(high * 16 + low)
      case _ => None
  }

  predicate IsScalarValue(n: nat) {
    n < 0xD800 || 0xE000 <= n <= 0x10FFFF
  }

  /** \\x, \\u and \\U escapes with n digits. */
  function ReadHex(s: string, n: nat): Result<Read<char>> {
    if |s| < n then Err
    else
      match HexValue(s[..n])
      case None => Err
      case Some(v) => if IsScalarValue(v) then Ok(Read(v as char, s[n..])) else Err
  }

  /** \\ooo: three octal digits up to 255. */
  function ReadOctal(s: string): Result<Read<char>> {
    if |s| < 3 || !('0' <= s[0] <= '7' && '0' <= s[1] <= '7' && '0' <= s[2] <= '7') then Err
    else
      var v := (s[0] - '0') as nat * 64 + (s[1] - '0') as nat * 8 + (s[2] - '0') as nat;
      if v > 255 then Err else Ok(Read(v as char, s[3..]))
  }

  /** strconv.UnquoteChar. */
  function UnquoteChar(s: string, quote: char): Result<Read<char>>
    requires s != []
  {
    if s[0] == quote then Err
    else if s[0] != '\\' then Ok(Read(s[0], s[1..]))
    else if |s| <= 1 then Err
    else
      match s[1]
      case 'a' => Ok(Read(7 as char, s[2..]))
      case 'b' => Ok(Read(8 as char, s[2..]))
      case 'f' => Ok(Read(12 as char, s[2..]))
      case 'n' => Ok(Read(10 as char, s[2..]))
      case 'r' => Ok(Read(13 as char, s[2..]))
      case 't' => Ok(Read(9 as char, s[2..]))
      case 'v' => Ok(Read(11 as char, s[2..]))
      case 'x' => ReadHex(s[2..], 2)
      case 'u' => ReadHex(s[2..], 4)
      case 'U' => ReadHex(s[2..], 8)
      case '\\' => Ok(Read('\\', s[2..]))
      case c =>
        if c == '\'' || c == '"' then if c == quote then Ok(Read(c, s[2..])) else Err
        else ReadOctal(s[1..])
  }

  lemma UnquoteCharConsumes(s: string, quote: char)
    requires s != [] && UnquoteChar(s, quote).Ok?
    ensures |UnquoteChar(s, quote).value.rest| < |s|
  {
  }

  function Unquoted(s: string, quote: char): Result<string>
    decreases |s|
  {
    if s == [] then Ok("")
    else
      match UnquoteChar(s, quote)
      case Err => Err
      case Ok(Read(c, rest)) =>
        UnquoteCharConsumes(s, quote);
        match Unquoted(rest, quote)
        case Err => Err
        case Ok(tail) => Ok([c] + tail)
  }

  function PlainNameEnd(s: string): (n: nat)
    ensures n <= |s|
  {
    if s == [] || s[0] == ':' then 0 else 1 + PlainNameEnd(s[1..])
  }

  predicate ContainsAny(s: string, chars: string) {
    exists c <- s :: c in chars
  }

  /** readStructFieldName. */
  function ReadFieldName(s: string): (r: Result<Read<string>>)
    ensures r.Ok? ==> |r.value.rest| < |s|
  {
    if s == [] then Err
    else if s[0] == '`' then
      match BackquoteEnd(s, 1)
      case Err => Err
      case Ok(end) => Ok(Read(Undoubled(s[1..end - 1], '`'), s[end..]))
    else if s[0] == '\'' || s[0] == '"' then
      match QuoteEnd(s, s[0], 1)
      case Err => Err
      case Ok(end) =>
        match Unquoted(s[1..end - 1], s[0])
        case Err => Err
        case Ok(name) => Ok(Read(name, s[end..]))
    else
      var end := PlainNameEnd(s);
      if end == 0 || ContainsAny(s[..end], "$<>,?()") then Err else Ok(Read(s[..end], s[end..]))
  }

  // ---------------------------------------------------------------- types

  function NameEnd(s: string): (n: nat)
    ensures n <= |s|
  {
    if s == [] || !IsNameChar(s[0]) then 0 else 1 + NameEnd(s[1..])
  }

  predicate StartsWith(s: string, c: char) {
    s != [] && s[0] == c
  }

  /** Trailing question marks wrap the type. */
  function ReadOptionals(t: Type, s: string): Read<Type>
    decreases |s|
  {
    if StartsWith(s, '?') then ReadOptionals(OptionalOf(t), s[1..]) else Read(t, s)
  }

  function ReadSimple(lower: string, s: string): Result<Read<Type>> {
    match SimpleKind(lower)
    case None => Err
    case Some(kind) => Ok(Read(Plain(kind), s))
  }

  function ReadDecimal(s: string): (r: Result<Read<Type>>)
    ensures r.Ok? ==> |r.value.rest| < |s|
  {
    match ReadNumber(s)
    case Err => Err
    case Ok(Read(precision, s1)) =>
      if !StartsWith(s1, ',') then Err
      else
        match ReadNumber(s1[1..])
        case Err => Err
        case Ok(Read(scale, s2)) =>
          if !StartsWith(s2, ')') || precision < 1 || precision > 35 || scale > precision then Err
          else Ok(Read(Plain(Decimal).(precision := precision, scale := scale), s2[1..]))
  }

  /** readType: a name, its parameters, and question marks. */
  function ReadType(s: string): (r: Result<Read<Type>>)
    ensures r.Ok? ==> |r.value.rest| < |s|
    decreases |s|, 1
  {
    var n := NameEnd(s);
    if n == 0 then Err
    else
      match ReadNamed(Lower(s[..n]), s[n..])
      case Err => Err
      case Ok(Read(t, rest)) =>
        OptionalsConsume(t, rest);
        Ok(ReadOptionals(t, rest))
  }

  lemma OptionalsConsume(t: Type, s: string)
    ensures |ReadOptionals(t, s).rest| <= |s|
    decreases |s|
  {
    if StartsWith(s, '?') {
      OptionalsConsume(OptionalOf(t), s[1..]);
    }
  }

  /** What follows the name.  An opening parenthesis is consumed even when the name is not Decimal. */
  function ReadNamed(lower: string, s: string): (r: Result<Read<Type>>)
    ensures r.Ok? ==> |r.value.rest| <= |s|
    decreases |s|, 2
  {
    if StartsWith(s, '<') then ReadConstructor(lower, s[1..])
    else if StartsWith(s, '(') then if lower == "decimal" then ReadDecimal(s[1..]) else ReadSimple(lower, s[1..])
    else ReadSimple(lower, s)
  }

  function ReadConstructor(lower: string, s: string): (r: Result<Read<Type>>)
    ensures r.Ok? ==> |r.value.rest| < |s|
    decreases |s|, 3
  {
    if ContainerKind(lower).Some? then
      match ReadType(s)
      case Err => Err
      case Ok(Read(elem, s1)) =>
        if StartsWith(s1, '>') then Ok(Read(Plain(ContainerKind(lower).value).(elem := Some(elem)), s1[1..])) else Err
    else if lower == "dict" then
      match ReadType(s)
      case Err => Err
      case Ok(Read(key, s1)) =>
        if !StartsWith(s1, ',') then Err
        else
          match ReadType(s1[1..])
          case Err => Err
          case Ok(Read(value, s2)) =>
            if StartsWith(s2, '>') then Ok(Read(Plain(Dict).(key := Some(key), elem := Some(value)), s2[1..])) else Err
    else if lower == "struct" then
      match ReadFields(s, [])
      case Err => Err
      case Ok(Read(fields, rest)) => Ok(Read(Plain(Struct).(fields := fields), rest))
    else if lower == "tuple" then
      match ReadItems(s, [])
      case Err => Err
      case Ok(Read(items, rest)) => Ok(Read(Plain(Tuple).(items := items), rest))
    else Err
  }

  predicate HasName(fields: seq<Field>, name: string) {
    exists f <- fields :: f.name == name
  }

  function ReadFields(s: string, before: seq<Field>): (r: Result<Read<seq<Field>>>)
    ensures r.Ok? ==> |r.value.rest| < |s|
    decreases |s|, 1
  {
    match ReadFieldName(s)
    case Err => Err
    case Ok(Read(name, s1)) =>
      if name == "" || !StartsWith(s1, ':') || HasName(before, name) then Err
      else
        match ReadType(s1[1..])
        case Err => Err
        case Ok(Read(t, s2)) =>
          var fields := before + [Field(name, t)];
          if StartsWith(s2, '>') then Ok(Read(fields, s2[1..]))
          else if !StartsWith(s2, ',') then Err
          else if StartsWith(s2[1..], '>') then Ok(Read(fields, s2[2..]))
          else ReadFields(s2[1..], fields)
  }

  function ReadItems(s: string, before: seq<Type>): (r: Result<Read<seq<Type>>>)
    ensures r.Ok? ==> |r.value.rest| < |s|
    decreases |s|, 2
  {
    match ReadType(s)
    case Err => Err
    case Ok(Read(t, s1)) =>
      var items := before + [t];
      if StartsWith(s1, '>') then Ok(Read(items, s1[1..]))
      else if !StartsWith(s1, ',') then Err
      else ReadItems(s1[1..], items)
  }

  /** parseType. */
  function ParseType(text: string): Result<Type> {
    match ReadType(text)
    case Err => Err
    case Ok(Read(t, rest)) => if rest == "" then Ok(t) else Err
  }

  // ---------------------------------------------------------------- printing

  function Joined(parts: seq<string>): string {
    if parts == [] then ""
    else if |parts| == 1 then parts[0]
    else parts[0] + "," + Joined(parts[1..])
  }

  /** Type.String; `quote` is Go's quoting of a tag, of which nothing is assumed. */
  function Print(t: Type, quote: string -> string): string
    decreases t, 0
  {
    var name := KindName(t.kind);
    if IsContainer(t.kind) && t.elem.Some? then name + "<" + Print(t.elem.value, quote) + ">"
    else if t.kind == Dict && t.key.Some? && t.elem.Some? then
      name + "<" + Print(t.key.value, quote) + "," + Print(t.elem.value, quote) + ">"
    else if t.kind == Struct then name + "<" + Joined(PrintFields(t.fields, quote)) + ">"
    else if t.kind == Tuple then name + "<" + Joined(PrintItems(t.items, quote)) + ">"
    else if t.kind == Tagged && t.elem.Some? then name + "<" + Print(t.elem.value, quote) + "," + quote(t.tag) + ">"
    else if t.kind == Callable && t.elem.Some? then
      name + "<(" + Joined(PrintItems(t.items, quote)) + ")->" + Print(t.elem.value, quote) + ">"
    else if t.kind == Decimal then name + "(" + PrintInt(t.precision) + "," + PrintInt(t.scale) + ")"
    else name
  }

  function PrintItems(items: seq<Type>, quote: string -> string): (parts: seq<string>)
    ensures |parts| == |items|
    decreases items, 0
  {
    if items == [] then [] else [Print(items[0], quote)] + PrintItems(items[1..], quote)
  }

  function PrintFields(fields: seq<Field>, quote: string -> string): (parts: seq<string>)
    ensures |parts| == |fields|
    decreases fields, 0
  {
    if fields == [] then []
    else [QuotedIdentifier(fields[0].name) + ":" + Print(fields[0].typ, quote)] + PrintFields(fields[1..], quote)
  }

  // ---------------------------------------------------------------- what the parser can produce

  /** The types parseType produces: supported constructors with nothing but their own parameters. */
  predicate Readable(t: Type)
    decreases t, 0
  {
    if IsSimple(t.kind) then t == Plain(t.kind)
    else if IsContainer(t.kind) then t.elem.Some? && t == Plain(t.kind).(elem := t.elem) && Readable(t.elem.value)
    else if t.kind == Dict then
      && t.key.Some? && t.elem.Some? && t == Plain(Dict).(key := t.key, elem := t.elem)
      && Readable(t.key.value) && Readable(t.elem.value)
    else if t.kind == Struct then t.fields != [] && t == Plain(Struct).(fields := t.fields) && ReadableFields(t.fields)
    else if t.kind == Tuple then t.items != [] && t == Plain(Tuple).(items := t.items) && ReadableItems(t.items)
    else t.kind == Decimal && t == Plain(Decimal).(precision := t.precision, scale := t.scale)
         && 1 <= t.precision <= 35 && 0 <= t.scale <= t.precision
  }

  predicate ReadableItems(items: seq<Type>)
    decreases items, 0
  {
    forall i | 0 <= i < |items| :: Readable(items[i])
  }

  predicate ReadableFields(fields: seq<Field>)
    decreases fields, 0
  {
    DistinctNames(fields) && forall i | 0 <= i < |fields| :: fields[i].name != "" && Readable(fields[i].typ)
  }

  lemma {:induction false} OptionalsAreReadable(t: Type, s: string)
    requires Readable(t)
    ensures Readable(ReadOptionals(t, s).value)
    decreases |s|
  {
    if StartsWith(s, '?') {
      OptionalsAreReadable(OptionalOf(t), s[1..]);
    }
  }

  lemma {:induction false} ParsedIsReadable(s: string)
    requires ReadType(s).Ok?
    ensures Readable(ReadType(s).value.value)
    decreases |s|, 1
  {
    hide Readable, ReadOptionals, ReadNamed;
    var n := NameEnd(s);
    NamedIsReadable(Lower(s[..n]), s[n..]);
    var Read(t, rest) := ReadNamed(Lower(s[..n]), s[n..]).value;
    OptionalsAreReadable(t, rest);
  }

  lemma SimpleIsReadable(lower: string, s: string)
    requires ReadSimple(lower, s).Ok?
    ensures Readable(ReadSimple(lower, s).value.value)
  {
    hide SimpleKind;
    SimpleKindsAreSimple(lower);
  }

  lemma {:induction false} NamedIsReadable(lower: string, s: string)
    requires ReadNamed(lower, s).Ok?
    ensures Readable(ReadNamed(lower, s).value.value)
    decreases |s|, 2
  {
    hide ReadSimple, ReadConstructor, Readable, ReadDecimal;
    if StartsWith(s, '<') {
      ConstructedIsReadable(lower, s[1..]);
    } else if StartsWith(s, '(') {
      if lower == "decimal" {
        DecimalIsReadable(s[1..]);
      } else {
        SimpleIsReadable(lower, s[1..]);
      }
    } else {
      SimpleIsReadable(lower, s);
    }
  }

  lemma DecimalIsReadable(s: string)
    requires ReadDecimal(s).Ok?
    ensures Readable(ReadDecimal(s).value.value)
  {
    hide ReadNumber;
  }

  lemma {:induction false} ConstructedIsReadable(lower: string, s: string)
    requires ReadConstructor(lower, s).Ok?
    ensures Readable(ReadConstructor(lower, s).value.value)
    decreases |s|, 3
  {
    hide ContainerKind, ReadType, ReadFields, ReadItems;
    SimpleKindsAreSimple(lower);
    if ContainerKind(lower).Some? {
      ParsedIsReadable(s);
    } else if lower == "dict" {
      DictIsReadable(s);
    } else if lower == "struct" {
      FieldsAreReadable(s, []);
    } else if lower == "tuple" {
      ItemsAreReadable(s, []);
    }
  }

  lemma {:induction false} DictIsReadable(s: string)
    requires ContainerKind("dict").None? && ReadConstructor("dict", s).Ok?
    ensures Readable(ReadConstructor("dict", s).value.value)
    decreases |s|, 2
  {
    hide ContainerKind, ReadType, ReadFields, ReadItems;
    ParsedIsReadable(s);
    ParsedIsReadable(ReadType(s).value.rest[1..]);
  }

  lemma {:induction false} FieldsAreReadable(s: string, before: seq<Field>)
    requires ReadFields(s, before).Ok? && ReadableFields(before)
    ensures ReadableFields(ReadFields(s, before).value.value) && ReadFields(s, before).value.value != []
    decreases |s|, 1
  {
    hide ReadFieldName, ReadType, Readable;
    var Read(name, s1) := ReadFieldName(s).value;
    ParsedIsReadable(s1[1..]);
    var Read(t, s2) := ReadType(s1[1..]).value;
    var fields := before + [Field(name, t)];
    forall i | 0 <= i < |before| ensures fields[i].name != name {
      assert before[i] in before;
    }
    assert ReadableFields(fields);
    if !StartsWith(s2, '>') && !StartsWith(s2[1..], '>') {
      FieldsAreReadable(s2[1..], fields);
    }
  }

  lemma {:induction false} ItemsAreReadable(s: string, before: seq<Type>)
    requires ReadItems(s, before).Ok? && ReadableItems(before)
    ensures ReadableItems(ReadItems(s, before).value.value) && ReadItems(s, before).value.value != []
    decreases |s|, 2
  {
    hide ReadType, Readable;
    ParsedIsReadable(s);
    var Read(t, s1) := ReadType(s).value;
    if !StartsWith(s1, '>') {
      ItemsAreReadable(s1[1..], before + [t]);
    }
  }

  // ---------------------------------------------------------------- reading back what was printed

  /** What may follow a printed type: the end, or the punctuation of an enclosing type. */
  predicate Stops(rest: string) {
    rest == "" || rest[0] == ',' || rest[0] == '>'
  }

  /** The same, or a question mark. */
  predicate Follows(rest: string) {
    Stops(rest) || rest[0] == '?'
  }

  lemma {:induction false} NameEndOf(name: string, tail: string)
    requires AllNameChars(name) && (tail == "" || !IsNameChar(tail[0]))
    ensures NameEnd(name + tail) == |name|
  {
    if name == "" {
      assert name + tail == tail;
    } else {
      assert (name + tail)[1..] == name[1..] + tail;
      NameEndOf(name[1..], tail);
    }
  }

  /** A read type with the question marks behind it. */
  function Marked(r: Result<Read<Type>>): Result<Read<Type>> {
    if r.Err? then Err else Ok(ReadOptionals(r.value.value, r.value.rest))
  }

  lemma ReadTypeOf(name: string, tail: string)
    requires name != "" && AllNameChars(name) && (tail == "" || !IsNameChar(tail[0]))
    ensures ReadType(name + tail) == Marked(ReadNamed(Lower(name), tail))
  {
    hide ReadNamed, Lower, ReadOptionals, IsNameChar;
    NameEndOf(name, tail);
    assert (name + tail)[..|name|] == name && (name + tail)[|name|..] == tail;
  }

  lemma {:induction false} DigitsOf(n: nat, rest: string)
    requires rest == "" || !IsDigit(rest[0])
    ensures (forall c <- PrintNat(n) :: IsDigit(c)) && PrintNat(n) != "" && NatOf(PrintNat(n)) == n
    ensures DigitCount(PrintNat(n) + rest) == |PrintNat(n)|
    decreases n
  {
    if n >= 10 {
      DigitsOf(n / 10, "");
    }
    assert forall c <- PrintNat(n) :: IsDigit(c);
    CountDigits(PrintNat(n), rest);
  }

  lemma {:induction false} CountDigits(digits: string, rest: string)
    requires (forall c <- digits :: IsDigit(c)) && (rest == "" || !IsDigit(rest[0]))
    ensures DigitCount(digits + rest) == |digits|
  {
    if digits == "" {
      assert digits + rest == rest;
    } else {
      assert (digits + rest)[1..] == digits[1..] + rest;
      assert digits[0] in digits;
      CountDigits(digits[1..], rest);
    }
  }

  lemma ReadNumberOf(n: nat, rest: string)
    requires rest == "" || !IsDigit(rest[0])
    ensures ReadNumber(PrintNat(n) + rest) == Ok(Read(n, rest))
  {
    DigitsOf(n, rest);
    var all := PrintNat(n) + rest;
    assert all[..|PrintNat(n)|] == PrintNat(n) && all[|PrintNat(n)|..] == rest;
  }

  lemma {:induction false} BackquoteEndOf(front: string, name: string, tail: string)
    requires tail == "" || tail[0] != '`'
    ensures var s := front + Doubled(name, '`') + "`" + tail;
            BackquoteEnd(s, |front|) == Ok(|front| + |Doubled(name, '`')| + 1)
    decreases |name|
  {
    var s := front + Doubled(name, '`') + "`" + tail;
    if name == "" {
      assert s[|front|] == '`';
    } else {
      var step := if name[0] == '`' then "``" else [name[0]];
      assert s == (front + step) + Doubled(name[1..], '`') + "`" + tail;
      assert s[|front|] == step[0];
      BackquoteEndOf(front + step, name[1..], tail);
    }
  }

  lemma ReadFieldNameOf(name: string, tail: string)
    requires tail == "" || tail[0] != '`'
    ensures ReadFieldName(QuotedIdentifier(name) + tail) == Ok(Read(name, tail))
  {
    hide Doubled, Undoubled, BackquoteEnd;
    var quoted := Doubled(name, '`');
    var s := QuotedIdentifier(name) + tail;
    assert s == "`" + quoted + "`" + tail;
    BackquoteEndOf("`", name, tail);
    var end := |quoted| + 2;
    assert s[1..end - 1] == quoted && s[end..] == tail;
    UndoubledDoubled(name, '`');
  }

  lemma ContainerNames(kind: Kind)
    requires IsContainer(kind)
    ensures ContainerKind(Lower(KindName(kind))) == Some(kind)
  {
    match kind {
      case Optional => assert Lower("Optional") == "optional";
      case List => assert Lower("List") == "list";
      case Stream => assert Lower("Stream") == "stream";
      case Flow => assert Lower("Flow") == "flow";
      case Set => assert Lower("Set") == "set";
    }
  }

  lemma ParameterNames()
    ensures Lower(KindName(Dict)) == "dict" && Lower(KindName(Struct)) == "struct" && Lower(KindName(Tuple)) == "tuple"
    ensures Lower(KindName(Decimal)) == "decimal"
  {
    assert Lower("Dict") == "dict" && Lower("Struct") == "struct";
    assert Lower("Tuple") == "tuple" && Lower("Decimal") == "decimal";
  }

  lemma NotContainers()
    ensures ContainerKind("dict").None? && ContainerKind("struct").None? && ContainerKind("tuple").None?
  {
  }

  lemma NoOptionals(t: Type, rest: string)
    requires Stops(rest)
    ensures ReadOptionals(t, rest) == Read(t, rest)
  {
  }

  lemma ReadableKinds(t: Type)
    requires Readable(t)
    ensures HasPlainName(t.kind)
  {
  }

  /** The text of a readable type is read back as that type, whatever punctuation follows. */
  lemma {:induction false} ReadPrinted(t: Type, quote: string -> string, rest: string)
    requires Readable(t) && Stops(rest)
    ensures ReadType(Print(t, quote) + rest) == Ok(Read(t, rest))
    decreases t, 2
  {
    hide ReadType, Readable, Print;
    ReadPrintedMarked(t, quote, rest);
    NoOptionals(t, rest);
  }

  /** Each question mark behind the text of a readable type makes it Optional once more. */
  lemma {:induction false} ReadPrintedMarked(t: Type, quote: string -> string, rest: string)
    requires Readable(t) && Follows(rest)
    ensures ReadType(Print(t, quote) + rest) == Ok(ReadOptionals(t, rest))
    decreases t, 1
  {
    hide ReadType, Readable, Print, Follows, ReadOptionals;
    ReadableKinds(t);
    if IsSimple(t.kind) {
      ReadPrintedSimple(t, quote, rest);
    } else if IsContainer(t.kind) {
      ReadPrintedContainer(t, quote, rest);
    } else if t.kind == Dict {
      ReadPrintedDict(t, quote, rest);
    } else if t.kind == Struct {
      ReadPrintedStruct(t, quote, rest);
    } else if t.kind == Tuple {
      ReadPrintedTuple(t, quote, rest);
    } else {
      ReadPrintedDecimal(t, quote, rest);
    }
  }

  lemma ReadPrintedSimple(t: Type, quote: string -> string, rest: string)
    requires IsSimple(t.kind) && Readable(t) && Follows(rest)
    ensures ReadType(Print(t, quote) + rest) == Ok(ReadOptionals(t, rest))
  {
    hide ReadType, KindName, SimpleKind, Lower, AllNameChars;
    KindNamesAreNames(t.kind);
    SimpleKindsRoundTrip(t.kind);
    ReadTypeOf(KindName(t.kind), rest);
  }

  /** A constructor name with its parameters in angle brackets is read by ReadConstructor. */
  lemma ReadAngled(kind: Kind, inner: string, rest: string, t: Type)
    requires HasPlainName(kind) && Follows(rest)
    requires ReadConstructor(Lower(KindName(kind)), inner + ">" + rest) == Ok(Read(t, rest))
    ensures ReadType(KindName(kind) + "<" + inner + ">" + rest) == Ok(ReadOptionals(t, rest))
  {
    hide ReadType, ReadConstructor, KindName, Lower, HasPlainName, AllNameChars;
    KindNamesAreNames(kind);
    var tail := "<" + inner + ">" + rest;
    assert tail[1..] == inner + ">" + rest;
    ReadTypeOf(KindName(kind), tail);
    assert KindName(kind) + "<" + inner + ">" + rest == KindName(kind) + tail;
  }

  lemma ReadOneParameter(kind: Kind, elem: Type, printed: string, rest: string)
    requires IsContainer(kind)
    requires ReadType(printed + (">" + rest)) == Ok(Read(elem, ">" + rest))
    ensures ReadConstructor(Lower(KindName(kind)), printed + ">" + rest) == Ok(Read(Plain(kind).(elem := Some(elem)), rest))
  {
    hide ReadType, KindName, Lower, ContainerKind;
    ContainerNames(kind);
    assert printed + (">" + rest) == printed + ">" + rest;
    assert (">" + rest)[1..] == rest;
  }

  lemma {:induction false} ReadPrintedContainer(t: Type, quote: string -> string, rest: string)
    requires IsContainer(t.kind) && Readable(t) && Follows(rest)
    ensures ReadType(Print(t, quote) + rest) == Ok(ReadOptionals(t, rest))
    decreases t, 0
  {
    hide ReadType, ReadConstructor, KindName, Lower, ContainerKind;
    var inner := Print(t.elem.value, quote);
    ReadPrinted(t.elem.value, quote, ">" + rest);
    ReadOneParameter(t.kind, t.elem.value, inner, rest);
    ReadAngled(t.kind, inner, rest, t);
  }

  lemma ReadTwoParameters(key: Type, elem: Type, first: string, second: string, rest: string)
    requires ReadType(first + ("," + second + ">" + rest)) == Ok(Read(key, "," + second + ">" + rest))
    requires ReadType(second + (">" + rest)) == Ok(Read(elem, ">" + rest))
    ensures ReadConstructor("dict", first + "," + second + ">" + rest) ==
            Ok(Read(Plain(Dict).(key := Some(key), elem := Some(elem)), rest))
  {
    hide ReadType, ContainerKind;
    NotContainers();
    var behind := "," + second + ">" + rest;
    assert behind[1..] == second + (">" + rest) && (">" + rest)[1..] == rest;
    assert first + "," + second + ">" + rest == first + behind;
  }

  lemma {:induction false} ReadPrintedDict(t: Type, quote: string -> string, rest: string)
    requires t.kind == Dict && Readable(t) && Follows(rest)
    ensures ReadType(Print(t, quote) + rest) == Ok(ReadOptionals(t, rest))
    decreases t, 0
  {
    hide ReadType, ReadConstructor, Lower;
    var key, value := Print(t.key.value, quote), Print(t.elem.value, quote);
    ReadPrinted(t.key.value, quote, "," + value + ">" + rest);
    ReadPrinted(t.elem.value, quote, ">" + rest);
    ReadTwoParameters(t.key.value, t.elem.value, key, value, rest);
    ParameterNames();
    var inner := key + "," + value;
    ReadAngled(t.kind, inner, rest, t);
    PrintedDict(t, quote, inner);
  }

  lemma PrintedDict(t: Type, quote: string -> string, inner: string)
    requires t.kind == Dict && t.key.Some? && t.elem.Some?
    requires inner == Print(t.key.value, quote) + "," + Print(t.elem.value, quote)
    ensures Print(t, quote) == KindName(Dict) + "<" + inner + ">"
  {
    hide KindName;
    RegroupPair(KindName(Dict), Print(t.key.value, quote), Print(t.elem.value, quote));
  }

  lemma RegroupPair(name: string, key: string, value: string)
    ensures name + "<" + key + "," + value + ">" == name + "<" + (key + "," + value) + ">"
  {
  }

  lemma {:induction false} ReadPrintedStruct(t: Type, quote: string -> string, rest: string)
    requires t.kind == Struct && Readable(t) && Follows(rest)
    ensures ReadType(Print(t, quote) + rest) == Ok(ReadOptionals(t, rest))
    decreases t, 0
  {
    hide ReadType, KindName, Lower, ContainerKind, ReadFields, ReadableFields, Joined, PrintFields;
    assert [] + t.fields == t.fields;
    ReadPrintedFields(t.fields, [], quote, rest);
    ParameterNames();
    NotContainers();
    ReadAngled(t.kind, Joined(PrintFields(t.fields, quote)), rest, t);
  }

  lemma {:induction false} ReadPrintedTuple(t: Type, quote: string -> string, rest: string)
    requires t.kind == Tuple && Readable(t) && Follows(rest)
    ensures ReadType(Print(t, quote) + rest) == Ok(ReadOptionals(t, rest))
    decreases t, 0
  {
    hide ReadType, KindName, Lower, ContainerKind, ReadItems, ReadableItems, Joined, PrintItems;
    ReadPrintedItems(t.items, [], quote, rest);
    assert [] + t.items == t.items;
    ParameterNames();
    NotContainers();
    ReadAngled(t.kind, Joined(PrintItems(t.items, quote)), rest, t);
  }

  lemma {:induction false} ReadPrintedItems(items: seq<Type>, before: seq<Type>, quote: string -> string, rest: string)
    requires items != [] && ReadableItems(items)
    ensures ReadItems(Joined(PrintItems(items, quote)) + ">" + rest, before) == Ok(Read(before + items, rest))
    decreases items, 1
  {
    hide ReadType, Readable, Print, Joined, PrintItems, ReadItems;
    var item, others := items[0], items[1..];
    var printed := Print(item, quote);
    JoinedItems(items, quote);
    if others == [] {
      assert items == [item];
      ReadPrinted(item, quote, ">" + rest);
      ReadLastItem(item, before, printed, rest);
    } else {
      var behind := Joined(PrintItems(others, quote)) + ">" + rest;
      ReadPrinted(item, quote, "," + behind);
      ReadNextItem(item, before, printed, behind);
      assert (before + [item]) + others == before + items;
      ReadPrintedItems(others, before + [item], quote, rest);
      assert Joined(PrintItems(items, quote)) + ">" + rest == printed + ("," + behind);
    }
  }

  lemma JoinedItems(items: seq<Type>, quote: string -> string)
    requires items != []
    ensures Joined(PrintItems(items, quote)) ==
            if |items| == 1 then Print(items[0], quote)
            else Print(items[0], quote) + "," + Joined(PrintItems(items[1..], quote))
  {
    hide Print;
    assert PrintItems(items, quote)[1..] == PrintItems(items[1..], quote);
  }

  lemma ReadLastItem(item: Type, before: seq<Type>, printed: string, rest: string)
    requires ReadType(printed + (">" + rest)) == Ok(Read(item, ">" + rest))
    ensures ReadItems(printed + ">" + rest, before) == Ok(Read(before + [item], rest))
  {
    hide ReadType;
    assert printed + ">" + rest == printed + (">" + rest) && (">" + rest)[1..] == rest;
  }

  lemma ReadNextItem(item: Type, before: seq<Type>, printed: string, behind: string)
    requires ReadType(printed + ("," + behind)) == Ok(Read(item, "," + behind))
    ensures ReadItems(printed + ("," + behind), before) == ReadItems(behind, before + [item])
  {
    hide ReadType;
    assert ("," + behind)[1..] == behind;
  }

  lemma {:induction false} ReadPrintedFields(fields: seq<Field>, before: seq<Field>, quote: string -> string, rest: string)
    requires fields != [] && ReadableFields(before + fields)
    ensures ReadFields(Joined(PrintFields(fields, quote)) + ">" + rest, before) == Ok(Read(before + fields, rest))
    decreases fields, 1
  {
    hide ReadType, Readable, Print, Joined, PrintFields, ReadFields, ReadableFields, QuotedIdentifier, HasName;
    var f, others := fields[0], fields[1..];
    var printed := Print(f.typ, quote);
    FieldIsFresh(before, fields);
    if others == [] {
      assert fields == [f];
      ReadPrinted(f.typ, quote, ">" + rest);
      ReadLastField(f, before, printed, rest);
      JoinedFields(fields, quote);
    } else {
      var behind := Joined(PrintFields(others, quote)) + ">" + rest;
      ReadPrinted(f.typ, quote, "," + behind);
      FieldsStartWithQuote(others, quote);
      ReadNextField(f, before, printed, behind);
      assert (before + [f]) + others == before + fields;
      ReadPrintedFields(others, before + [f], quote, rest);
      JoinedFields(fields, quote);
      assert Joined(PrintFields(fields, quote)) + ">" + rest == FieldText(f, printed) + ("," + behind);
    }
  }

  function FieldText(f: Field, printed: string): string {
    QuotedIdentifier(f.name) + ":" + printed
  }

  lemma FieldIsFresh(before: seq<Field>, fields: seq<Field>)
    requires fields != [] && ReadableFields(before + fields)
    ensures Readable(fields[0].typ) && fields[0].name != "" && !HasName(before, fields[0].name)
  {
    hide Readable;
    var all := before + fields;
    assert all[|before|] == fields[0];
    forall f | f in before ensures f.name != fields[0].name {
      var i :| 0 <= i < |before| && before[i] == f;
      assert all[i] == f;
    }
  }

  lemma JoinedFields(fields: seq<Field>, quote: string -> string)
    requires fields != []
    ensures Joined(PrintFields(fields, quote)) ==
            if |fields| == 1 then FieldText(fields[0], Print(fields[0].typ, quote))
            else FieldText(fields[0], Print(fields[0].typ, quote)) + "," + Joined(PrintFields(fields[1..], quote))
  {
    hide Print, QuotedIdentifier;
    assert PrintFields(fields, quote)[1..] == PrintFields(fields[1..], quote);
  }

  lemma FieldsStartWithQuote(fields: seq<Field>, quote: string -> string)
    requires fields != []
    ensures Joined(PrintFields(fields, quote)) != "" && Joined(PrintFields(fields, quote))[0] == '`'
  {
    hide Print, Doubled;
    JoinedFields(fields, quote);
  }

  lemma ReadLastField(f: Field, before: seq<Field>, printed: string, rest: string)
    requires f.name != "" && !HasName(before, f.name)
    requires ReadType(printed + (">" + rest)) == Ok(Read(f.typ, ">" + rest))
    ensures ReadFields(FieldText(f, printed) + ">" + rest, before) == Ok(Read(before + [f], rest))
  {
    hide ReadType, ReadFieldName, QuotedIdentifier, HasName;
    var tail := ":" + printed + ">" + rest;
    ReadFieldNameOf(f.name, tail);
    assert FieldText(f, printed) + ">" + rest == QuotedIdentifier(f.name) + tail;
    assert tail[1..] == printed + (">" + rest) && (">" + rest)[1..] == rest;
  }

  lemma ReadNextField(f: Field, before: seq<Field>, printed: string, behind: string)
    requires f.name != "" && !HasName(before, f.name) && behind != "" && behind[0] == '`'
    requires ReadType(printed + ("," + behind)) == Ok(Read(f.typ, "," + behind))
    ensures ReadFields(FieldText(f, printed) + ("," + behind), before) == ReadFields(behind, before + [f])
  {
    hide ReadType, ReadFieldName, QuotedIdentifier, HasName;
    var tail := ":" + printed + ("," + behind);
    ReadFieldNameOf(f.name, tail);
    assert FieldText(f, printed) + ("," + behind) == QuotedIdentifier(f.name) + tail;
    assert tail[1..] == printed + ("," + behind) && ("," + behind)[1..] == behind;
  }

  lemma ReadPrintedDecimal(t: Type, quote: string -> string, rest: string)
    requires t.kind == Decimal && Readable(t) && Follows(rest)
    ensures ReadType(Print(t, quote) + rest) == Ok(ReadOptionals(t, rest))
  {
    hide ReadType, ReadNamed, Print, KindName, PrintNat, AllNameChars, Lower;
    var bounds := PrintNat(t.precision) + "," + PrintNat(t.scale) + ")" + rest;
    PrintedDecimal(t, quote);
    RegroupBounds(KindName(Decimal), PrintNat(t.precision), PrintNat(t.scale), rest);
    KindNamesAreNames(Decimal);
    ReadTypeOf(KindName(Decimal), "(" + bounds);
    ReadBounds(t.precision, t.scale, rest);
    ReadNamedDecimal(bounds);
  }

  lemma RegroupBounds(name: string, precision: string, scale: string, rest: string)
    ensures name + "(" + precision + "," + scale + ")" + rest == name + ("(" + (precision + "," + scale + ")" + rest))
  {
  }

  lemma PrintedDecimal(t: Type, quote: string -> string)
    requires t.kind == Decimal && t.precision >= 0 && t.scale >= 0
    ensures Print(t, quote) == KindName(Decimal) + "(" + PrintNat(t.precision) + "," + PrintNat(t.scale) + ")"
  {
    hide KindName, PrintNat;
  }

  lemma ReadNamedDecimal(s: string)
    ensures ReadNamed(Lower(KindName(Decimal)), "(" + s) == ReadDecimal(s)
  {
    hide ReadDecimal, Lower, KindName;
    ParameterNames();
    assert ("(" + s)[1..] == s;
  }

  lemma ReadBounds(precision: nat, scale: nat, rest: string)
    requires 1 <= precision <= 35 && scale <= precision
    ensures ReadDecimal(PrintNat(precision) + "," + PrintNat(scale) + ")" + rest) ==
            Ok(Read(Plain(Decimal).(precision := precision, scale := scale), rest))
  {
    hide ReadNumber, PrintNat;
    var s2 := ")" + rest;
    var s1 := "," + PrintNat(scale) + s2;
    assert s1[1..] == PrintNat(scale) + s2 && s2[1..] == rest;
    ReadNumberOf(precision, s1);
    ReadNumberOf(scale, s2);
    assert PrintNat(precision) + "," + PrintNat(scale) + ")" + rest == PrintNat(precision) + s1;
  }

  function QuestionMarks(n: nat): string {
    if n == 0 then "" else "?" + QuestionMarks(n - 1)
  }

  /** Optional, n times around. */
  function Wrapped(t: Type, n: nat): Type {
    if n == 0 then t else OptionalOf(Wrapped(t, n - 1))
  }

  lemma {:induction false} WrappedInside(t: Type, n: nat)
    ensures Wrapped(OptionalOf(t), n) == OptionalOf(Wrapped(t, n))
    decreases n
  {
    if n > 0 { WrappedInside(t, n - 1); }
  }

  lemma {:induction false} MarksWrap(t: Type, n: nat)
    ensures ReadOptionals(t, QuestionMarks(n)) == Read(Wrapped(t, n), "")
    decreases n
  {
    if n > 0 {
      assert QuestionMarks(n)[1..] == QuestionMarks(n - 1);
      MarksWrap(OptionalOf(t), n - 1);
      WrappedInside(t, n - 1);
    }
  }

  lemma {:induction false} WrappedIsReadable(t: Type, n: nat)
    requires Readable(t)
    ensures Readable(Wrapped(t, n))
    decreases n
  {
    if n > 0 { WrappedIsReadable(t, n - 1); }
  }

  /** A question mark means the same as Optional<...>, any number of times. */
  lemma QuestionMarksAreOptionals(t: Type, quote: string -> string, n: nat)
    requires Readable(t)
    ensures ParseType(Print(t, quote) + QuestionMarks(n)) == Ok(Wrapped(t, n))
    ensures ParseType(Print(Wrapped(t, n), quote)) == ParseType(Print(t, quote) + QuestionMarks(n))
  {
    hide ReadType, Readable, Print;
    ReadPrintedMarked(t, quote, QuestionMarks(n));
    MarksWrap(t, n);
    WrappedIsReadable(t, n);
    ReadPrinted(Wrapped(t, n), quote, "");
    assert Print(Wrapped(t, n), quote) + "" == Print(Wrapped(t, n), quote);
  }

  // ---------------------------------------------------------------- the guard

  /** Printing what the parser accepted and parsing again gives the same type. */
  lemma ParsePrintIsNormalForm(text: string, quote: string -> string)
    requires ParseType(text).Ok?
    ensures ParseType(Print(ParseType(text).value, quote)) == ParseType(text)
  {
    hide ReadType, Readable, Print;
    var t := ParseType(text).value;
    ParsedIsReadable(text);
    ReadPrinted(t, quote, "");
    assert Print(t, quote) + "" == Print(t, quote);
  }

  /** normalizeDatabaseTable and configuredDeclarations accept a type when its text parses back to an Equal type. */
  predicate Guard(t: Type, quote: string -> string) {
    var parsed := ParseType(Print(t, quote));
    parsed.Ok? && Equal(parsed.value, t)
  }

  lemma {:induction false} ReadableIsDistinct(t: Type)
    requires Readable(t)
    ensures Distinct(t)
    decreases t
  {
    if t.elem.Some? { ReadableIsDistinct(t.elem.value); }
    if t.key.Some? { ReadableIsDistinct(t.key.value); }
    forall i | 0 <= i < |t.items| ensures Distinct(t.items[i]) {
      ReadableIsDistinct(t.items[i]);
    }
    forall i | 0 <= i < |t.fields| ensures Distinct(t.fields[i].typ) {
      ReadableIsDistinct(t.fields[i].typ);
    }
  }

  /** Whatever Equal accepts in place of a readable type is readable: it differs in the order of members only. */
  lemma {:induction false} EqualKeepsReadable(p: Type, t: Type)
    requires Readable(p) && Equal(p, t)
    ensures Readable(t)
    decreases p
  {
    if IsContainer(p.kind) {
      EqualKeepsReadable(p.elem.value, t.elem.value);
    } else if p.kind == Dict {
      EqualKeepsReadable(p.key.value, t.key.value);
      EqualKeepsReadable(p.elem.value, t.elem.value);
    } else if p.kind == Struct {
      EqualKeepsReadableFields(p.fields, t.fields);
    } else if p.kind == Tuple {
      forall i | 0 <= i < |t.items| ensures Readable(t.items[i]) {
        EqualKeepsReadable(p.items[i], t.items[i]);
      }
    }
  }

  lemma {:induction false} EqualKeepsReadableFields(fields: seq<Field>, others: seq<Field>)
    requires ReadableFields(fields) && |fields| == |others| && FieldsMatch(fields, FieldTable(others))
    ensures ReadableFields(others)
    decreases fields, 0
  {
    hide Readable, Equal;
    var table := FieldTable(others);
    MatchedKeys(fields, others);
    forall j | 0 <= j < |others| ensures others[j].name != "" && Readable(others[j].typ) {
      FieldEntry(others, j);
      var i := FieldIndex(fields, others[j].name);
      assert Equal(fields[i].typ, table[fields[i].name]);
      EqualKeepsReadable(fields[i].typ, others[j].typ);
    }
  }

  /** The guard accepts exactly the types that are Equal to something the parser can produce. */
  lemma GuardIsExact(t: Type, quote: string -> string)
    ensures Guard(t, quote) <==> Readable(t)
    ensures Guard(t, quote) <==> exists text :: ParseType(text).Ok? && Equal(ParseType(text).value, t)
  {
    hide Readable, Equal, Print, ReadType, ShapeOf;
    if Readable(t) {
      ReadPrinted(t, quote, "");
      assert Print(t, quote) + "" == Print(t, quote);
      ReadableIsDistinct(t);
      EqualIsSameShape(t, t);
      assert Guard(t, quote);
    }
    forall text | ParseType(text).Ok? && Equal(ParseType(text).value, t) ensures Readable(t) {
      ParsedIsReadable(text);
      EqualKeepsReadable(ParseType(text).value, t);
    }
  }

  // ---------------------------------------------------------------- aliases

  /** The spellings that are read as another type than the one they name. */
  predicate IsAlias(lower: string, kind: Kind) {
    || (lower == "text" && kind == Utf8)
    || (lower == "bytes" && kind == String)
    || (lower in {"int", "integer"} && kind == Int32)
    || (lower == "bigint" && kind == Int64)
    || (lower == "smallint" && kind == Int16)
    || (lower == "tinyint" && kind == Int8)
  }

  lemma AliasKinds(lower: string, kind: Kind)
    requires IsAlias(lower, kind)
    ensures SimpleKind(lower) == Some(kind) && ContainerKind(lower).None?
    ensures lower !in {"dict", "struct", "tuple", "decimal"} && IsSimple(kind)
  {
  }

  lemma OtherSpellings(lower: string, kind: Kind)
    requires SimpleKind(lower) == Some(kind)
    ensures ContainerKind(lower).None? && lower !in {"dict", "struct", "tuple", "decimal"}
  {
  }

  /** In any letter case and any context, an alias is read as the canonical spelling of its kind is. */
  lemma AliasReadsAlike(name: string, kind: Kind, rest: string)
    requires IsName(name) && IsAlias(Lower(name), kind) && (rest == "" || !IsNameChar(rest[0]))
    ensures ReadType(name + rest) == ReadType(KindName(kind) + rest)
    ensures rest == "" ==> ParseType(name + rest) == Ok(Plain(kind))
  {
    hide IsAlias, SimpleKind, ContainerKind, Lower, KindName, ReadType, IsSimple, ReadDecimal;
    AliasKinds(Lower(name), kind);
    SimpleKindsRoundTrip(kind);
    KindNamesAreNames(kind);
    OtherSpellings(Lower(KindName(kind)), kind);
    ReadTypeOf(name, rest);
    ReadTypeOf(KindName(kind), rest);
    if rest == "" {
      NoOptionals(Plain(kind), "");
    }
  }
}
