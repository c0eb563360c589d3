/**
 Names as URIs: the printer, the parser, and their round trip on every name. Text is a sequence of
 bytes, the UTF-8 encoding of the string.
 */
module NameUri {
  import opened Bytes

  datatype Component = Component(typ: nat, value: seq<byte>)
  type Name = seq<Component>
  type Text = seq<byte>

  datatype NameError = BadPercent | BadHex | BadType | IllegalPeriods | NoLeadingSlash
  datatype Result<+T> = Ok(value: T) | Err(error: NameError) {
    predicate IsFailure() { Err? }
    function PropagateFailure<U>(): Result<U> requires Err? { Err(error) }
    function Extract(): T requires Ok? { value }
  }

  const IMPLICIT_SHA256: nat := 0x01
  const PARAMETERS_SHA256: nat := 0x02
  const GENERIC: nat := 0x08
  const KEYWORD: nat := 0x20
  const SEGMENT: nat := 0x32
  const BYTE_OFFSET: nat := 0x34
  const VERSION: nat := 0x36
  const TIMESTAMP: nat := 0x38
  const SEQUENCE_NUM: nat := 0x3A

  const SLASH: byte := 0x2F
  const EQUALS: byte := 0x3D
  const PERCENT: byte := 0x25
  const PERIOD: byte := 0x2E
  const PLUS: byte := 0x2B

  const T_SEG: Text := [0x73, 0x65, 0x67, 0x3D]                       // seg=
  const T_V: Text := [0x76, 0x3D]                                     // v=
  const T_OFF: Text := [0x6F, 0x66, 0x66, 0x3D]                       // off=
  const T_T: Text := [0x74, 0x3D]                                     // t=
  const T_SEQ: Text := [0x73, 0x65, 0x71, 0x3D]                       // seq=
  const T_SHA: Text :=  // sha256digest=
    [0x73, 0x68, 0x61, 0x32, 0x35, 0x36, 0x64, 0x69, 0x67, 0x65, 0x73, 0x74, 0x3D]
  const T_PARAMS: Text :=  // params-sha256=
    [0x70, 0x61, 0x72, 0x61, 0x6D, 0x73, 0x2D, 0x73, 0x68, 0x61, 0x32, 0x35, 0x36, 0x3D]
  const T_KEYWORD: Text := [0x6B, 0x65, 0x79, 0x77, 0x6F, 0x72, 0x64, 0x3D]                                  // keyword=

  predicate IsDigit(b: byte) { 0x30 <= b <= 0x39 }
  predicate IsAlpha(b: byte) { 0x41 <= b <= 0x5A || 0x61 <= b <= 0x7A }

  /** The unreserved set of section 2.3 of RFC 3986. */
  predicate Unreserved(b: byte) {
    IsDigit(b) || IsAlpha(b) || b == 0x2D || b == PERIOD || b == 0x5F || b == 0x7E
  }

  predicate Starts(p: Text, t: Text) {
    |p| <= |t| && t[..|p|] == p
  }

  // ---------------------------------------------------------------------------------------
  // NonNegativeIntegers
  // ---------------------------------------------------------------------------------------

  function EncodeInteger(v: nat): seq<byte> {
    if v <= 0xFF then BE(v, 1) else if v <= 0xFFFF then BE(v, 2) else if v <= 0xFFFF_FFFF then BE(v, 4) else BE(v, 8)
  }

  function DecodeInteger(s: seq<byte>): nat {
    FromBE(s) % U64
  }

  /** The value of a shortest-width integer, `Err` standing for "not canonical". */
  predicate Canonical(s: seq<byte>) {
    (|s| == 1 || |s| == 2 || |s| == 4 || |s| == 8) && EncodeInteger(DecodeInteger(s)) == s
  }

  lemma IntegerRoundTrip(v: nat)
    requires v < U64
    ensures DecodeInteger(EncodeInteger(v)) == v && Canonical(EncodeInteger(v))
  {
    hide BE, FromBE, Pow256;
    PowValues();
    BERoundTrip(v, if v <= 0xFF then 1 else if v <= 0xFFFF then 2 else if v <= 0xFFFF_FFFF then 4 else 8);
  }

  // ---------------------------------------------------------------------------------------
  // Decimal and hexadecimal text
  // ---------------------------------------------------------------------------------------

  function Decimal(n: nat): (t: Text)
    ensures |t| >= 1 && forall i :: 0 <= i < |t| ==> IsDigit(t[i])
  {
    if n < 10 then [0x30 + n] else Decimal(n / 10) + [0x30 + n % 10]
  }

  predicate AllDigits(t: Text) {
    forall i :: 0 <= i < |t| ==> IsDigit(t[i])
  }

  function DigitsValue(t: Text): nat
    requires AllDigits(t)
  {
    if t == [] then 0 else 10 * DigitsValue(t[..|t| - 1]) + (t[|t| - 1] - 0x30)
  }

  lemma {:induction false} DecimalValue(n: nat)
    ensures DigitsValue(Decimal(n)) == n
  {
    var t := Decimal(n);
    if n >= 10 {
      DecimalValue(n / 10);
      assert t[..|t| - 1] == Decimal(n / 10);
    } else {
      assert t[..0] == [];
    }
  }

  /** `str::parse::<u64>`: an optional plus sign, then digits whose value fits 64 bits. */
  function ParseU64(t: Text): (r: Result<nat>)
    ensures r.Ok? ==> r.value < U64
  {
    var d := if t != [] && t[0] == PLUS then t[1..] else t;
    if d == [] || !AllDigits(d) || DigitsValue(d) >= U64 then Err(BadType) else Ok(DigitsValue(d))
  }

  lemma ParsePrinted(n: nat)
    requires n < U64
    ensures ParseU64(Decimal(n)) == Ok(n)
  {
    hide Decimal, DigitsValue;
    DecimalValue(n);
  }

  function HexDigit(n: nat, upper: bool): byte
    requires n < 16
  {
    if n < 10 then 0x30 + n else if upper then 0x41 + n - 10 else 0x61 + n - 10
  }

  function HexValue(b: byte): Result<nat> {
    if IsDigit(b) then Ok(b - 0x30)
    else if 0x41 <= b <= 0x46 then Ok(b - 0x41 + 10)
    else if 0x61 <= b <= 0x66 then Ok(b - 0x61 + 10)
    else Err(BadHex)
  }

  lemma HexRoundTrip(n: nat, upper: bool)
    requires n < 16
    ensures HexValue(HexDigit(n, upper)) == Ok(n) && Unreserved(HexDigit(n, upper))
  {
  }

  function Hex(s: seq<byte>): Text {
    if s == [] then [] else [HexDigit(s[0] / 16, false), HexDigit(s[0] % 16, false)] + Hex(s[1..])
  }

  function ParseHex(t: Text): Result<seq<byte>> {
    if t == [] then Ok([])
    else if |t| == 1 then Err(BadHex)
    else
      var hi :- HexValue(t[0]);
      var lo :- HexValue(t[1]);
      var rest :- ParseHex(t[2..]);
      if hi < 16 && lo < 16 then Ok([(hi * 16 + lo) as byte] + rest) else Err(BadHex)
  }

  lemma {:induction false} HexTextRoundTrip(s: seq<byte>)
    ensures ParseHex(Hex(s)) == Ok(s)
    ensures forall i :: 0 <= i < |Hex(s)| ==> Unreserved(Hex(s)[i])
  {
    if s != [] {
      var t := Hex(s);
      HexRoundTrip(s[0] / 16, false);
      HexRoundTrip(s[0] % 16, false);
      HexTextRoundTrip(s[1..]);
      assert t[2..] == Hex(s[1..]);
      assert s == [s[0]] + s[1..];
    }
  }

  // ---------------------------------------------------------------------------------------
  // Percent-encoding and the periods rule
  // ---------------------------------------------------------------------------------------

  function PercentByte(b: byte): Text {
    if Unreserved(b) then [b] else [PERCENT, HexDigit(b / 16, true), HexDigit(b % 16, true)]
  }

  function PercentEncode(s: seq<byte>): Text {
    if s == [] then [] else PercentByte(s[0]) + PercentEncode(s[1..])
  }

  function PercentDecode(t: Text): Result<seq<byte>> {
    if t == [] then Ok([])
    else if t[0] == PERCENT then
      if |t| < 3 then Err(BadPercent)
      else if HexValue(t[1]).Err? || HexValue(t[2]).Err? then Err(BadPercent)
      else
        var hi, lo := HexValue(t[1]).value, HexValue(t[2]).value;
        var rest :- PercentDecode(t[3..]);
        if hi < 16 && lo < 16 then Ok([(hi * 16 + lo) as byte] + rest) else Err(BadPercent)
    else
      var rest :- PercentDecode(t[1..]);
      Ok([t[0]] + rest)
  }

  /** Characters a printed value consists of. */
  predicate Plain(b: byte) {
    Unreserved(b) || b == PERCENT
  }

  lemma {:induction false} PercentRoundTrip(s: seq<byte>)
    ensures PercentDecode(PercentEncode(s)) == Ok(s)
    ensures forall i :: 0 <= i < |PercentEncode(s)| ==> Plain(PercentEncode(s)[i])
    ensures s != [] ==> PercentEncode(s) != []
  {
    if s != [] {
      var b, rest := s[0], PercentEncode(s[1..]);
      var t := PercentByte(b) + rest;
      HexRoundTrip(b / 16, true);
      HexRoundTrip(b % 16, true);
      PercentRoundTrip(s[1..]);
      assert s == [b] + s[1..];
      if Unreserved(b) {
        assert t[1..] == rest;
      } else {
        assert t[3..] == rest;
      }
    }
  }

  predicate AllPeriods(s: seq<byte>) {
    forall i :: 0 <= i < |s| ==> s[i] == PERIOD
  }

  function Periods(n: nat): (t: Text)
    ensures |t| == n && AllPeriods(t)
  {
    seq(n, _ => PERIOD)
  }

  function UriValue(s: seq<byte>): Text {
    if AllPeriods(s) then Periods(|s| + 3) else PercentEncode(s)
  }

  function DecodeUriValue(t: Text): Result<seq<byte>> {
    var d :- PercentDecode(t);
    if AllPeriods(d) then if |d| < 3 then Err(IllegalPeriods) else Ok(d[3..]) else Ok(d)
  }

  lemma {:induction false} PeriodsDecode(t: Text)
    requires AllPeriods(t)
    ensures PercentDecode(t) == Ok(t)
  {
    if t != [] {
      PeriodsDecode(t[1..]);
      assert t == [t[0]] + t[1..];
    }
  }

  lemma UriValueRoundTrip(s: seq<byte>)
    ensures DecodeUriValue(UriValue(s)) == Ok(s) && UriValue(s) != []
    ensures forall i :: 0 <= i < |UriValue(s)| ==> Plain(UriValue(s)[i])
  {
    hide PercentDecode, PercentEncode;
    PercentRoundTrip(s);
    if AllPeriods(s) {
      var t := Periods(|s| + 3);
      PeriodsDecode(t);
      assert t[3..] == s;
    }
  }

  // ---------------------------------------------------------------------------------------
  // Components
  // ---------------------------------------------------------------------------------------

  predicate IsIntegerType(t: nat) {
    t == SEGMENT || t == BYTE_OFFSET || t == VERSION || t == TIMESTAMP || t == SEQUENCE_NUM
  }

  function IntegerPrefix(t: nat): Text
    requires IsIntegerType(t)
  {
    if t == SEGMENT then T_SEG
    else if t == BYTE_OFFSET then T_OFF
    else if t == VERSION then T_V
    else if t == TIMESTAMP then T_T
    else T_SEQ
  }

  function Print(c: Component): Text {
    if c.typ == IMPLICIT_SHA256 then T_SHA + Hex(c.value)
    else if c.typ == PARAMETERS_SHA256 then T_PARAMS + Hex(c.value)
    else if c.typ == KEYWORD then T_KEYWORD + PercentEncode(c.value)
    else if IsIntegerType(c.typ) && Canonical(c.value) then
      IntegerPrefix(c.typ) + Decimal(DecodeInteger(c.value))
    else if c.typ == GENERIC then UriValue(c.value)
    else Decimal(c.typ) + [EQUALS] + UriValue(c.value)
  }

  /** An integer prefix whose tail is not an integer falls back to a generic component, without the periods rule. */
  function ParseInteger(part: Text, prefix: Text, typ: nat): Result<Component>
    requires Starts(prefix, part)
  {
    match ParseU64(part[|prefix|..])
    case Ok(n) => Ok(Component(typ, EncodeInteger(n)))
    case Err(_) =>
      var d :- PercentDecode(part);
      Ok(Component(GENERIC, d))
  }

  /** Position of the first equals sign. */
  function FindEquals(t: Text): (k: nat)
    ensures k <= |t| && (k < |t| ==> t[k] == EQUALS) && forall i :: 0 <= i < k ==> t[i] != EQUALS
  {
    if t == [] || t[0] == EQUALS then 0 else 1 + FindEquals(t[1..])
  }

  function ParseComponent(part: Text): Result<Component> {
    if Starts(T_SEG, part) then ParseInteger(part, T_SEG, SEGMENT)
    else if Starts(T_V, part) then ParseInteger(part, T_V, VERSION)
    else if Starts(T_OFF, part) then ParseInteger(part, T_OFF, BYTE_OFFSET)
    else if Starts(T_T, part) then ParseInteger(part, T_T, TIMESTAMP)
    else if Starts(T_SEQ, part) then ParseInteger(part, T_SEQ, SEQUENCE_NUM)
    else if Starts(T_SHA, part) then
      var d :- ParseHex(part[|T_SHA|..]);
      Ok(Component(IMPLICIT_SHA256, d))
    else if Starts(T_PARAMS, part) then
      var d :- ParseHex(part[|T_PARAMS|..]);
      Ok(Component(PARAMETERS_SHA256, d))
    else if Starts(T_KEYWORD, part) then
      var d :- PercentDecode(part[|T_KEYWORD|..]);
      Ok(Component(KEYWORD, d))
    else ParsePlain(part)
  }

  /** `<decimal type>=<value>`, or a generic component. */
  function ParsePlain(part: Text): Result<Component> {
    var k := FindEquals(part);
    if 0 < k < |part| && AllDigits(part[..k]) then
      var typ :- ParseU64(part[..k]);
      var d :- DecodeUriValue(part[k + 1..]);
      Ok(Component(typ, d))
    else
      var d :- DecodeUriValue(part);
      Ok(Component(GENERIC, d))
  }

  lemma NotStarts(p: Text, t: Text, i: nat)
    requires i < |p| && (i < |t| ==> p[i] != t[i])
    ensures !Starts(p, t)
  {
    assert i < |t| && |p| <= |t| ==> t[..|p|][i] == t[i];
  }

  lemma StartsOwn(p: Text, rest: Text)
    ensures Starts(p, p + rest) && (p + rest)[|p|..] == rest
  {
    Split2(p, rest);
  }

  /** Text that cannot be taken for one of the alphabetic prefixes. */
  predicate Prefixless(t: Text) {
    t != [] && (IsDigit(t[0]) || forall i :: 0 <= i < |t| ==> t[i] != EQUALS)
  }

  lemma PrefixlessPlain(t: Text)
    requires Prefixless(t)
    ensures ParseComponent(t) == ParsePlain(t)
  {
    hide ParseInteger, ParseHex, PercentDecode, ParsePlain;
    if IsDigit(t[0]) {
      NotStarts(T_SEG, t, 0);
      NotStarts(T_V, t, 0);
      NotStarts(T_OFF, t, 0);
      NotStarts(T_T, t, 0);
      NotStarts(T_SEQ, t, 0);
      NotStarts(T_SHA, t, 0);
      NotStarts(T_PARAMS, t, 0);
      NotStarts(T_KEYWORD, t, 0);
    } else {
      NotStarts(T_SEG, t, 3);
      NotStarts(T_V, t, 1);
      NotStarts(T_OFF, t, 3);
      NotStarts(T_T, t, 1);
      NotStarts(T_SEQ, t, 3);
      NotStarts(T_SHA, t, 12);
      NotStarts(T_PARAMS, t, 13);
      NotStarts(T_KEYWORD, t, 7);
    }
  }

  lemma GenericRoundTrip(v: seq<byte>)
    ensures ParseComponent(UriValue(v)) == Ok(Component(GENERIC, v))
  {
    hide UriValue, DecodeUriValue, ParseComponent;
    var t := UriValue(v);
    UriValueRoundTrip(v);
    PrefixlessPlain(t);
  }

  lemma FindAfter(head: Text, tail: Text)
    requires forall i :: 0 <= i < |head| ==> head[i] != EQUALS
    ensures FindEquals(head + [EQUALS] + tail) == |head|
  {
    var t := head + [EQUALS] + tail;
    assert t[|head|] == EQUALS;
    assert forall i :: 0 <= i < |head| ==> t[i] == head[i];
  }

  lemma TypedRoundTrip(typ: nat, v: seq<byte>)
    requires typ < U64
    ensures ParseComponent(Decimal(typ) + [EQUALS] + UriValue(v)) == Ok(Component(typ, v))
  {
    hide UriValue, DecodeUriValue, ParseComponent, ParseU64, Decimal;
    var head, tail := Decimal(typ), UriValue(v);
    var t := head + [EQUALS] + tail;
    UriValueRoundTrip(v);
    ParsePrinted(typ);
    FindAfter(head, tail);
    assert t[0] == head[0];
    PrefixlessPlain(t);
    assert t[..|head|] == head;
    assert t[|head| + 1..] == tail;
  }

  lemma IntegerComponentRoundTrip(typ: nat, v: seq<byte>)
    requires IsIntegerType(typ) && Canonical(v)
    ensures ParseComponent(IntegerPrefix(typ) + Decimal(DecodeInteger(v))) == Ok(Component(typ, v))
  {
    hide Decimal, ParseU64, PercentDecode, EncodeInteger, ParseHex, ParsePlain, DecodeInteger;
    var p, d := IntegerPrefix(typ), Decimal(DecodeInteger(v));
    var t := p + d;
    IntegerBound(v);
    ParsePrinted(DecodeInteger(v));
    StartsOwn(p, d);
    assert forall i :: 0 <= i < |p| ==> t[i] == p[i];
    if typ != SEGMENT {
      NotStarts(T_SEG, t, if typ == SEQUENCE_NUM then 2 else 0);
      if typ != VERSION {
        NotStarts(T_V, t, 0);
        if typ != BYTE_OFFSET {
          NotStarts(T_OFF, t, 0);
          if typ != TIMESTAMP {
            NotStarts(T_T, t, 0);
          }
        }
      }
    }
  }

  lemma IntegerBound(v: seq<byte>)
    ensures DecodeInteger(v) < U64
  {
  }

  lemma DigestRoundTrip(v: seq<byte>)
    ensures ParseComponent(T_SHA + Hex(v)) == Ok(Component(IMPLICIT_SHA256, v))
    ensures ParseComponent(T_PARAMS + Hex(v)) == Ok(Component(PARAMETERS_SHA256, v))
  {
    hide ParseInteger, ParseHex, Hex, PercentDecode, ParsePlain;
    HexTextRoundTrip(v);
    var t := T_SHA + Hex(v);
    StartsOwn(T_SHA, Hex(v));
    assert t[0] == 0x73 && t[1] == 0x68;
    NotStarts(T_SEG, t, 1);
    NotStarts(T_V, t, 0);
    NotStarts(T_OFF, t, 0);
    NotStarts(T_T, t, 0);
    NotStarts(T_SEQ, t, 1);
    var u := T_PARAMS + Hex(v);
    StartsOwn(T_PARAMS, Hex(v));
    assert u[0] == 0x70;
    NotStarts(T_SEG, u, 0);
    NotStarts(T_V, u, 0);
    NotStarts(T_OFF, u, 0);
    NotStarts(T_T, u, 0);
    NotStarts(T_SEQ, u, 0);
    NotStarts(T_SHA, u, 0);
  }

  lemma KeywordRoundTrip(v: seq<byte>)
    ensures ParseComponent(T_KEYWORD + PercentEncode(v)) == Ok(Component(KEYWORD, v))
  {
    hide ParseInteger, ParseHex, PercentDecode, PercentEncode, ParsePlain;
    PercentRoundTrip(v);
    var t := T_KEYWORD + PercentEncode(v);
    StartsOwn(T_KEYWORD, PercentEncode(v));
    assert t[0] == 0x6B;
    NotStarts(T_SEG, t, 0);
    NotStarts(T_V, t, 0);
    NotStarts(T_OFF, t, 0);
    NotStarts(T_T, t, 0);
    NotStarts(T_SEQ, t, 0);
    NotStarts(T_SHA, t, 0);
    NotStarts(T_PARAMS, t, 0);
  }

  /** Every component, of any type and with any bytes, is read back from its printed form. */
  lemma ComponentRoundTrip(c: Component)
    requires c.typ < U64
    ensures ParseComponent(Print(c)) == Ok(c)
  {
    hide ParseComponent, Hex, PercentEncode, UriValue, Decimal, Canonical, DecodeInteger, IntegerPrefix;
    if c.typ == IMPLICIT_SHA256 || c.typ == PARAMETERS_SHA256 {
      DigestRoundTrip(c.value);
    } else if c.typ == KEYWORD {
      KeywordRoundTrip(c.value);
    } else if IsIntegerType(c.typ) && Canonical(c.value) {
      IntegerComponentRoundTrip(c.typ, c.value);
    } else if c.typ == GENERIC {
      GenericRoundTrip(c.value);
    } else {
      TypedRoundTrip(c.typ, c.value);
    }
  }

  /** Characters printed components consist of: neither slashes nor white space. */
  predicate Printable(b: byte) {
    Plain(b) || b == EQUALS
  }

  predicate AllPrintable(t: Text) {
    forall i :: 0 <= i < |t| ==> Printable(t[i])
  }

  lemma PrintableConcat(a: Text, b: Text)
    requires AllPrintable(a) && AllPrintable(b)
    ensures AllPrintable(a + b)
  {
  }

  lemma PrintedCharacters(c: Component)
    requires c.typ < U64
    ensures Print(c) != [] && AllPrintable(Print(c))
  {
    hide Hex, PercentEncode, UriValue, Decimal, Canonical, DecodeInteger;
    var v := c.value;
    HexTextRoundTrip(v);
    PercentRoundTrip(v);
    UriValueRoundTrip(v);
    if c.typ == IMPLICIT_SHA256 {
      PrintableConcat(T_SHA, Hex(v));
    } else if c.typ == PARAMETERS_SHA256 {
      PrintableConcat(T_PARAMS, Hex(v));
    } else if c.typ == KEYWORD {
      PrintableConcat(T_KEYWORD, PercentEncode(v));
    } else if IsIntegerType(c.typ) && Canonical(v) {
      PrintableConcat(IntegerPrefix(c.typ), Decimal(DecodeInteger(v)));
    } else if c.typ != GENERIC {
      PrintableConcat(Decimal(c.typ), [EQUALS]);
      PrintableConcat(Decimal(c.typ) + [EQUALS], UriValue(v));
    }
  }

  // ---------------------------------------------------------------------------------------
  // Names
  // ---------------------------------------------------------------------------------------

  /** The UTF-8 encodings of the characters with the Unicode property White_Space. */
  predicate IsSpace(c: Text) {
    match |c|
    case 1 => c[0] == 0x20 || 0x09 <= c[0] <= 0x0D
    case 2 => c[0] == 0xC2 && (c[1] == 0x85 || c[1] == 0xA0)
    case 3 =>
      || c == [0xE1, 0x9A, 0x80] || c == [0xE2, 0x81, 0x9F] || c == [0xE3, 0x80, 0x80]
      || (c[0] == 0xE2 && c[1] == 0x80 && (0x80 <= c[2] <= 0x8A || c[2] == 0xA8 || c[2] == 0xA9 || c[2] == 0xAF))
    case _ => false
  }

  /** Length of the white-space character at the front, zero if there is none. */
  function SpaceBefore(t: Text): (n: nat)
    ensures n <= |t|
  {
    if |t| >= 1 && IsSpace(t[..1]) then 1
    else if |t| >= 2 && IsSpace(t[..2]) then 2
    else if |t| >= 3 && IsSpace(t[..3]) then 3
    else 0
  }

  function SpaceAfter(t: Text): (n: nat)
    ensures n <= |t|
  {
    if |t| >= 1 && IsSpace(t[|t| - 1..]) then 1
    else if |t| >= 2 && IsSpace(t[|t| - 2..]) then 2
    else if |t| >= 3 && IsSpace(t[|t| - 3..]) then 3
    else 0
  }

  function Trim(t: Text): Text {
    var a, b := SpaceBefore(t), SpaceAfter(t);
    if a > 0 then Trim(t[a..]) else if b > 0 then Trim(t[..|t| - b]) else t
  }

  /** Neither white space nor part of a character that could be. */
  predicate Solid(b: byte) {
    0x20 < b < 0x80
  }

  /** The pieces between slashes, empty ones included. */
  function Split(t: Text): (parts: seq<Text>)
    ensures parts != []
  {
    if t == [] then [[]]
    else if t[0] == SLASH then [[]] + Split(t[1..])
    else
      var rest := Split(t[1..]);
      [[t[0]] + rest[0]] + rest[1..]
  }

  function ParseParts(parts: seq<Text>): Result<Name> {
    if parts == [] then Ok([])
    else if parts[0] == [] then ParseParts(parts[1..])
    else
      var c :- ParseComponent(parts[0]);
      var rest :- ParseParts(parts[1..]);
      Ok([c] + rest)
  }

  function Parse(text: Text): Result<Name> {
    var t := Trim(text);
    if t == [] || t == [SLASH] then Ok([])
    else if t[0] != SLASH then Err(NoLeadingSlash)
    else ParseParts(Split(t[1..]))
  }

  function PrintRest(n: Name): Text {
    if n == [] then [] else if |n| == 1 then Print(n[0]) else Print(n[0]) + [SLASH] + PrintRest(n[1..])
  }

  function PrintName(n: Name): Text {
    [SLASH] + PrintRest(n)
  }

  function PrintAll(n: Name): seq<Text> {
    if n == [] then [] else [Print(n[0])] + PrintAll(n[1..])
  }

  predicate NoSlash(t: Text) {
    forall i :: 0 <= i < |t| ==> t[i] != SLASH
  }

  lemma {:induction false} SplitPiece(piece: Text, rest: Text)
    requires NoSlash(piece)
    ensures Split(piece) == [piece] && Split(piece + [SLASH] + rest) == [piece] + Split(rest)
  {
    var t := piece + [SLASH] + rest;
    if piece == [] {
      assert t[1..] == rest;
    } else {
      SplitPiece(piece[1..], rest);
      assert t[1..] == piece[1..] + [SLASH] + rest;
      assert [piece[0]] + piece[1..] == piece;
    }
  }

  lemma {:induction false} SplitPrinted(n: Name)
    requires n != [] && forall i :: 0 <= i < |n| ==> n[i].typ < U64
    ensures Split(PrintRest(n)) == PrintAll(n)
  {
    hide Print;
    PrintedCharacters(n[0]);
    if |n| == 1 {
      SplitPiece(Print(n[0]), []);
      assert n[1..] == [];
    } else {
      SplitPrinted(n[1..]);
      SplitPiece(Print(n[0]), PrintRest(n[1..]));
    }
  }

  lemma {:induction false} ParseAll(n: Name)
    requires forall i :: 0 <= i < |n| ==> n[i].typ < U64
    ensures ParseParts(PrintAll(n)) == Ok(n)
  {
    hide Print, ParseComponent;
    if n != [] {
      ComponentRoundTrip(n[0]);
      PrintedCharacters(n[0]);
      ParseAll(n[1..]);
      var parts := PrintAll(n);
      assert parts[1..] == PrintAll(n[1..]);
      assert n == [n[0]] + n[1..];
    }
  }

  lemma {:induction false} PrintRestEnd(n: Name)
    requires n != [] && forall i :: 0 <= i < |n| ==> n[i].typ < U64
    ensures PrintRest(n) != [] && Solid(PrintRest(n)[|PrintRest(n)| - 1])
  {
    hide Print;
    PrintedCharacters(n[0]);
    if |n| > 1 {
      PrintRestEnd(n[1..]);
    }
  }

  lemma SolidNotSpace(c: Text)
    requires c != [] && (Solid(c[0]) || Solid(c[|c| - 1]))
    ensures !IsSpace(c)
  {
  }

  lemma {:induction false} NoSpaceBefore(t: Text)
    requires t != [] && Solid(t[0])
    ensures SpaceBefore(t) == 0
  {
    hide IsSpace;
    SolidNotSpace(t[..1]);
    if |t| >= 2 {
      SolidNotSpace(t[..2]);
    }
    if |t| >= 3 {
      SolidNotSpace(t[..3]);
    }
  }

  lemma {:induction false} NoSpaceAfter(t: Text)
    requires t != [] && Solid(t[|t| - 1])
    ensures SpaceAfter(t) == 0
  {
    hide IsSpace, Solid;
    var n := |t|;
    SolidEnd(t, 1);
    assert !IsSpace(t[n - 1..]);
    if n >= 2 {
      SolidEnd(t, 2);
      assert !IsSpace(t[n - 2..]);
    }
    if n >= 3 {
      SolidEnd(t, 3);
      assert !IsSpace(t[n - 3..]);
    }
    assert SpaceAfter(t) == 0;
  }

  lemma {:induction false} SolidEnd(t: Text, k: nat)
    requires 0 < k <= |t| && Solid(t[|t| - 1])
    ensures !IsSpace(t[|t| - k..])
  {
    hide IsSpace;
    var c := t[|t| - k..];
    assert c[k - 1] == t[|t| - 1];
    SolidNotSpace(c);
  }

  lemma {:induction false} NothingToTrim(t: Text)
    requires t != [] && Solid(t[0]) && Solid(t[|t| - 1])
    ensures Trim(t) == t
  {
    hide SpaceBefore, SpaceAfter;
    NoSpaceBefore(t);
    NoSpaceAfter(t);
  }

  /**
   The URI round trip: for every name, whatever its component types and bytes, parsing the printed
   form returns the name.
   */
  lemma NameRoundTrip(n: Name)
    requires forall i :: 0 <= i < |n| ==> n[i].typ < U64
    ensures Parse(PrintName(n)) == Ok(n)
  {
    hide PrintRest, Split, ParseParts, Trim;
    var t := PrintName(n);
    if n == [] {
      RootText();
      NothingToTrim([SLASH]);
    } else {
      PrintRestEnd(n);
      NothingToTrim(t);
      assert t[1..] == PrintRest(n);
      SplitPrinted(n);
      ParseAll(n);
    }
  }

  lemma RootText()
    ensures PrintName([]) == [SLASH]
  {
  }

  /** Distinct names print differently. */
  lemma PrintingInjective(a: Name, b: Name)
    requires forall i :: 0 <= i < |a| ==> a[i].typ < U64
    requires forall i :: 0 <= i < |b| ==> b[i].typ < U64
    requires PrintName(a) == PrintName(b)
    ensures a == b
  {
    hide PrintName, Parse;
    NameRoundTrip(a);
    NameRoundTrip(b);
  }

  // ---------------------------------------------------------------------------------------
  // The loops
  // ---------------------------------------------------------------------------------------

  /** The 64-bit shift-and-or fold of an integer's bytes. */
  method FoldInteger(s: seq<byte>) returns (v: nat)
    ensures v == DecodeInteger(s)
  {
    v := 0;
    for i := 0 to |s|
      invariant v == DecodeInteger(s[..i])
    {
      assert s[..i + 1][..i] == s[..i];
      FoldStep(FromBE(s[..i]), s[i]);
      v := (v * 256) % U64 + s[i];
    }
    assert s[..|s|] == s;
  }

  lemma FoldStep(n: nat, b: byte)
    ensures (256 * n + b) % U64 == (n % U64 * 256) % U64 + b
  {
    var q, r := n / U64, n % U64;
    var q', r' := r * 256 / U64, (r * 256) % U64;
    assert 256 * n + b == (256 * q + q') * U64 + (r' + b);
    assert r' % 256 == 0 && r' <= U64 - 256;
  }

  /** What is still to be decoded, behind what already was. */
  function After<T>(done: seq<T>, r: Result<seq<T>>): Result<seq<T>> {
    match r
    case Ok(d) => Ok(done + d)
    case Err(e) => Err(e)
  }

  lemma AfterLaws<T>(done: seq<T>, x: T, r: Result<seq<T>>)
    ensures After([], r) == r && After(done, Ok([])) == Ok(done)
    ensures After(done, After([x], r)) == After(done + [x], r)
  {
    if r.Ok? {
      assert [] + r.value == r.value;
      ConcatAssoc(done, [x], r.value);
    }
    assert done + [] == done;
  }

  /** Percent-decoding with a running index. */
  method DecodePercent(t: Text) returns (r: Result<seq<byte>>)
    ensures r == PercentDecode(t)
  {
    var out: seq<byte> := [];
    var i := 0;
    assert t[0..] == t;
    AfterLaws(out, 0, PercentDecode(t));
    while i < |t|
      invariant 0 <= i <= |t|
      invariant PercentDecode(t) == After(out, PercentDecode(t[i..]))
      decreases |t| - i
    {
      hide HexValue;
      if t[i] == PERCENT {
        if i + 2 >= |t| {
          return Err(BadPercent);
        }
        var hi, lo := HexValue(t[i + 1]), HexValue(t[i + 2]);
        if hi.Err? || lo.Err? {
          return Err(BadPercent);
        }
        HexRange(t[i + 1]);
        HexRange(t[i + 2]);
        assert t[i..][3..] == t[i + 3..];
        AfterLaws(out, (hi.value * 16 + lo.value) as byte, PercentDecode(t[i + 3..]));
        out := out + [(hi.value * 16 + lo.value) as byte];
        i := i + 3;
      } else {
        assert t[i..][1..] == t[i + 1..];
        AfterLaws(out, t[i], PercentDecode(t[i + 1..]));
        out := out + [t[i]];
        i := i + 1;
      }
    }
    AfterLaws(out, 0, Ok([]));
    return Ok(out);
  }

  lemma HexRange(b: byte)
    ensures HexValue(b).Ok? ==> HexValue(b).value < 16
  {
  }

  /** Prints a name, component by component. */
  method PrintText(n: Name) returns (t: Text)
    ensures t == PrintName(n)
  {
    hide Print;
    t := [SLASH];
    for i := 0 to |n|
      invariant i == 0 ==> t == [SLASH]
      invariant i > 0 ==> PrintName(n) == t + (if i < |n| then [SLASH] + PrintRest(n[i..]) else [])
    {
      assert n[i..][1..] == n[i + 1..];
      if i > 0 {
        t := t + [SLASH];
      } else {
        assert n[0..] == n;
      }
      t := t + Print(n[i]);
    }
  }
}
