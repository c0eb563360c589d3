/**
 What texts mean as names: the parser and the printer on the bytes of every text, printed by the
 one or not.
 */
module NameText {
  import opened Bytes
  import opened NameUri

  // ---------------------------------------------------------------------------------------
  // The printer's characters
  // ---------------------------------------------------------------------------------------

  function Ascii(s: string): Text
    requires forall i :: 0 <= i < |s| ==> s[i] < 128 as char
  {
    seq(|s|, i requires 0 <= i < |s| => s[i] as int)
  }

  const UPPER: string := "0123456789ABCDEF"

  predicate Raw(c: char) {
    'A' <= c <= 'Z' || 'a' <= c <= 'z' || '0' <= c <= '9' || c == '-' || c == '.' || c == '_' || c == '~'
  }

  /** Letters, digits, hyphens, periods, underscores and tildes print as themselves, all other bytes as `%XX`. */
  lemma PrintedByte(b: byte)
    ensures PercentByte(b) ==
            if Raw(b as char) then [b] else ['%' as int, UPPER[b / 16] as int, UPPER[b % 16] as int]
  {
    UpperDigit(b / 16);
    UpperDigit(b % 16);
  }

  lemma UpperDigit(n: nat)
    requires n < 16
    ensures HexDigit(n, true) == UPPER[n] as int
  {
  }

  /** Bytes are printed one by one. */
  lemma {:induction false} PrintedEach(v: seq<byte>, w: seq<byte>)
    ensures PercentEncode(v + w) == PercentEncode(v) + PercentEncode(w)
  {
    hide PercentByte;
    if v == [] {
      assert v + w == w;
    } else {
      PrintedEach(v[1..], w);
      assert (v + w)[1..] == v[1..] + w;
      ConcatAssoc(PercentByte(v[0]), PercentEncode(v[1..]), PercentEncode(w));
    }
  }

  /** A value of raw characters that are not all periods prints as itself. */
  lemma {:induction false} PrintedRaw(v: seq<byte>)
    requires forall i :: 0 <= i < |v| ==> Raw(v[i] as char)
    ensures PercentEncode(v) == v && (!AllPeriods(v) ==> UriValue(v) == v)
  {
    if v != [] {
      PrintedByte(v[0]);
      PrintedRaw(v[1..]);
      assert [v[0]] + v[1..] == v;
    }
  }

  // ---------------------------------------------------------------------------------------
  // Percent-decoding
  // ---------------------------------------------------------------------------------------

  /** Hexadecimal digits are accepted in both cases, and nothing else is. */
  lemma HexIff(b: byte, n: nat)
    ensures HexValue(b) == Ok(n) <==> n < 16 && (b == HexDigit(n, true) || b == HexDigit(n, false))
  {
  }

  /** Every byte but a percent sign stands for itself, and a percent sign and two digits for what they say. */
  lemma DecodeToken(b: byte, upper: bool, upper': bool)
    ensures b != PERCENT ==> PercentDecode([b]) == Ok([b])
    ensures PercentDecode([PERCENT, HexDigit(b / 16, upper), HexDigit(b % 16, upper')]) == Ok([b])
  {
    var t := [PERCENT, HexDigit(b / 16, upper), HexDigit(b % 16, upper')];
    assert t[3..] == [] && [b][1..] == [] && [b] + [] == [b];
    assert PercentDecode([]) == Ok([]);
    HexIff(t[1], b / 16);
    HexIff(t[2], b % 16);
  }

  /** Decoding goes piece by piece. */
  lemma {:induction false} DecodeConcat(a: Text, b: Text)
    requires PercentDecode(a).Ok?
    ensures PercentDecode(a + b) == After(PercentDecode(a).value, PercentDecode(b))
  {
    hide PercentDecode, After;
    if a == [] {
      assert a + b == b;
      DecodeNothing();
      AfterLaws([], 0, PercentDecode(b));
    } else {
      var x, n := DecodeFirst(a, b);
      DecodeConcat(a[n..], b);
      AfterBoth(x, PercentDecode(a[n..]).value, PercentDecode(b));
    }
  }

  lemma DecodeNothing()
    ensures PercentDecode([]) == Ok([])
  {
  }

  lemma AfterBoth(x: byte, d: seq<byte>, r: Result<seq<byte>>)
    ensures After([x], After(d, r)) == After([x] + d, r)
  {
    if r.Ok? {
      ConcatAssoc([x], d, r.value);
    }
  }

  lemma {:induction false} DecodeFirst(a: Text, b: Text) returns (x: byte, n: nat)
    requires a != [] && PercentDecode(a).Ok?
    ensures 0 < n <= |a| && PercentDecode(a[n..]).Ok?
    ensures PercentDecode(a).value == [x] + PercentDecode(a[n..]).value
    ensures PercentDecode(a + b) == After([x], PercentDecode(a[n..] + b))
  {
    hide HexValue;
    n := if a[0] == PERCENT then 3 else 1;
    x := PercentDecode(a).value[0];
    assert (a + b)[n..] == a[n..] + b;
  }

  /** A percent sign that is read as one and has no two hexadecimal digits behind it. */
  predicate Broken(t: Text, i: nat) {
    && i < |t| && t[i] == PERCENT && PercentDecode(t[..i]).Ok?
    && !(i + 2 < |t| && HexValue(t[i + 1]).Ok? && HexValue(t[i + 2]).Ok?)
  }

  lemma {:induction false} DecodeFails(t: Text)
    ensures PercentDecode(t).Err? <==> exists i: nat :: Broken(t, i)
    ensures PercentDecode(t).Err? ==> PercentDecode(t).error == BadPercent
  {
    if PercentDecode(t).Err? {
      FindBroken(t);
    }
    forall i: nat | Broken(t, i)
      ensures PercentDecode(t).Err?
    {
      BrokenFails(t, i);
    }
  }

  lemma BrokenFails(t: Text, i: nat)
    requires Broken(t, i)
    ensures PercentDecode(t).Err?
  {
    assert t[..i] + t[i..] == t;
    DecodeConcat(t[..i], t[i..]);
  }

  lemma {:induction false} FindBroken(t: Text)
    requires PercentDecode(t).Err?
    ensures PercentDecode(t).error == BadPercent && exists i: nat :: Broken(t, i)
  {
    var n := if t[0] == PERCENT then 3 else 1;
    if t[0] == PERCENT && !(2 < |t| && HexValue(t[1]).Ok? && HexValue(t[2]).Ok?) {
      assert Broken(t, 0);
    } else {
      FindBroken(t[n..]);
      var i: nat :| Broken(t[n..], i);
      assert t[..n] + t[n..][..i] == t[..n + i];
      assert PercentDecode(t[..n]).Ok? by {
        assert t[..n][n..] == [];
      }
      DecodeConcat(t[..n], t[n..][..i]);
      assert Broken(t, n + i);
    }
  }

  lemma {:induction false} DecodePlain(t: Text)
    requires PERCENT !in t
    ensures PercentDecode(t) == Ok(t)
  {
    if t != [] {
      DecodePlain(t[1..]);
      assert [t[0]] + t[1..] == t;
    }
  }

  /** A text is read as the value `v` exactly if it decodes to the same bytes as the printed form of `v`. */
  lemma ValueIff(t: Text, v: seq<byte>)
    ensures DecodeUriValue(t) == Ok(v) <==> PercentDecode(t).Ok? && PercentDecode(t) == PercentDecode(UriValue(v))
    ensures DecodeUriValue(t).Err? <==>
            PercentDecode(t).Err? || PercentDecode(t).value in {[], [PERIOD], [PERIOD, PERIOD]}
  {
    hide PercentDecode, PercentEncode;
    PercentRoundTrip(v);
    PeriodsDecode(Periods(|v| + 3));
    if PercentDecode(t).Ok? {
      var d := PercentDecode(t).value;
      if AllPeriods(d) {
        if |d| < 3 {
          assert d == [] || d == [PERIOD] || d == [PERIOD, PERIOD];
        } else {
          assert AllPeriods(d[3..]) && |d[3..]| + 3 == |d|;
          assert AllPeriods(v) && |v| + 3 == |d| ==> v == d[3..] && Periods(|v| + 3) == d;
        }
      }
    }
  }

  // ---------------------------------------------------------------------------------------
  // Parts
  // ---------------------------------------------------------------------------------------

  /** Digits, a plus sign before them allowed, whose value fits 64 bits. */
  ghost predicate Number(t: Text, n: nat) {
    n < U64 && exists d :: d != [] && AllDigits(d) && DigitsValue(d) == n && (t == d || t == [PLUS] + d)
  }

  lemma NumberIff(t: Text, n: nat)
    ensures ParseU64(t) == Ok(n) <==> Number(t, n)
  {
    var d := if t != [] && t[0] == PLUS then t[1..] else t;
    assert t == d || t == [PLUS] + d;
    if Number(t, n) {
      var e :| e != [] && AllDigits(e) && DigitsValue(e) == n && (t == e || t == [PLUS] + e);
      assert IsDigit(e[0]);
      assert e == d;
    }
  }

  /** The part up to and with its first equals sign; empty if it has none. */
  function Label(part: Text): (r: Text)
    ensures |r| <= |part| && part[..|r|] == r
  {
    var k := FindEquals(part);
    if k < |part| then part[..k + 1] else []
  }

  lemma LabelIff(part: Text, p: Text)
    requires |p| > 0 && p[|p| - 1] == EQUALS && forall i :: 0 <= i < |p| - 1 ==> p[i] != EQUALS
    ensures Starts(p, part) <==> Label(part) == p
  {
    var k, n := FindEquals(part), |p| - 1;
    if Starts(p, part) {
      assert forall i :: 0 <= i <= n ==> part[i] == part[..|p|][i];
      assert k == n;
    }
  }

  /** Testing for the prefixes one after the other is looking at the label. */
  lemma Labels(part: Text)
    ensures Starts(T_SEG, part) <==> Label(part) == T_SEG
    ensures Starts(T_V, part) <==> Label(part) == T_V
    ensures Starts(T_OFF, part) <==> Label(part) == T_OFF
    ensures Starts(T_T, part) <==> Label(part) == T_T
    ensures Starts(T_SEQ, part) <==> Label(part) == T_SEQ
    ensures Starts(T_SHA, part) <==> Label(part) == T_SHA
    ensures Starts(T_PARAMS, part) <==> Label(part) == T_PARAMS
    ensures Starts(T_KEYWORD, part) <==> Label(part) == T_KEYWORD
  {
    hide Starts, Label;
    LabelIff(part, T_SEG);
    LabelIff(part, T_V);
    LabelIff(part, T_OFF);
    LabelIff(part, T_T);
    LabelIff(part, T_SEQ);
    LabelIff(part, T_SHA);
    LabelIff(part, T_PARAMS);
    LabelIff(part, T_KEYWORD);
  }

  lemma Distinct()
    ensures T_SEG !in {T_V, T_OFF, T_T, T_SEQ} && T_V !in {T_OFF, T_T, T_SEQ} && T_OFF !in {T_T, T_SEQ} && T_T != T_SEQ
  {
    assert T_SEG[2] != T_SEQ[2] && T_SEG[0] != T_OFF[0] && T_V[0] != T_T[0] && T_OFF[0] != T_SEQ[0];
  }

  /** The prefixes, spelled out. */
  lemma Spelled()
    ensures T_SEG == Ascii("seg=") && T_V == Ascii("v=") && T_OFF == Ascii("off=") && T_T == Ascii("t=")
    ensures T_SEQ == Ascii("seq=") && T_SHA == Ascii("sha256digest=") && T_PARAMS == Ascii("params-sha256=")
    ensures T_KEYWORD == Ascii("keyword=")
  {
  }

  /** Bytes as a component of a type, or the error there was in them. */
  function Typed(typ: nat, d: Result<seq<byte>>): Result<Component> {
    match d
    case Ok(v) => Ok(Component(typ, v))
    case Err(e) => Err(e)
  }

  /** The typed integer if the tail is one; otherwise the generic component of the whole part's bytes. */
  ghost predicate IntegerPart(r: Result<Component>, typ: nat, part: Text, tail: Text) {
    && (forall n: nat :: Number(tail, n) ==> r == Ok(Component(typ, EncodeInteger(n))))
    && ((forall n: nat :: !Number(tail, n)) ==> r == Typed(GENERIC, PercentDecode(part)))
  }

  /** The bytes written in hexadecimal, in either case and two digits each, and nothing else. */
  ghost predicate DigestPart(r: Result<Component>, typ: nat, tail: Text) {
    && (forall v: seq<byte> :: HexOf(v, tail) ==> r == Ok(Component(typ, v)))
    && ((forall v: seq<byte> :: !HexOf(v, tail)) ==> r == Err(BadHex))
  }

  predicate HexOf(v: seq<byte>, t: Text) {
    |t| == 2 * |v| && forall i :: 0 <= i < |v| ==> HexPair(v[i], t[2 * i], t[2 * i + 1])
  }

  predicate HexPair(b: byte, hi: byte, lo: byte) {
    && (hi == HexDigit(b / 16, true) || hi == HexDigit(b / 16, false))
    && (lo == HexDigit(b % 16, true) || lo == HexDigit(b % 16, false))
  }

  lemma PairIff(b: byte, hi: byte, lo: byte)
    ensures HexPair(b, hi, lo) <==> HexValue(hi) == Ok(b / 16) && HexValue(lo) == Ok(b % 16)
  {
    HexIff(hi, b / 16);
    HexIff(lo, b % 16);
  }

  lemma {:induction false} HexIsUnique(t: Text, v: seq<byte>)
    ensures HexOf(v, t) <==> ParseHex(t) == Ok(v)
    ensures ParseHex(t).Err? ==> ParseHex(t).error == BadHex
  {
    hide HexPair, HexOf, ParseHex;
    if |t| < 2 {
      HexShort(t, v);
    } else if v == [] {
      HexIsUnique(t[2..], []);
      HexFirst(t, [0]);
      HexLong(t);
    } else {
      HexIsUnique(t[2..], v[1..]);
      HexFirst(t, v);
      HexTail(v, t);
    }
  }

  lemma {:induction false} HexShort(t: Text, v: seq<byte>)
    requires |t| < 2
    ensures HexOf(v, t) <==> ParseHex(t) == Ok(v)
    ensures ParseHex(t).Err? ==> ParseHex(t).error == BadHex
  {
  }

  lemma {:induction false} HexLong(t: Text)
    requires |t| >= 2
    ensures !HexOf([], t) && ParseHex(t) != Ok([])
  {
    hide HexValue, HexPair;
  }

  lemma {:induction false} HexFirst(t: Text, v: seq<byte>)
    requires |t| >= 2 && v != []
    requires ParseHex(t[2..]).Err? ==> ParseHex(t[2..]).error == BadHex
    ensures ParseHex(t) == Ok(v) <==> HexPair(v[0], t[0], t[1]) && ParseHex(t[2..]) == Ok(v[1..])
    ensures ParseHex(t).Err? ==> ParseHex(t).error == BadHex
  {
    hide HexValue, HexPair;
    HexRange(t[0]);
    HexRange(t[1]);
    HexError(t[0]);
    HexError(t[1]);
    PairIff(v[0], t[0], t[1]);
    assert v == [v[0]] + v[1..];
  }

  lemma HexError(b: byte)
    ensures HexValue(b).Err? ==> HexValue(b).error == BadHex
  {
  }

  lemma HexTail(v: seq<byte>, t: Text)
    requires v != [] && |t| >= 2
    ensures HexOf(v, t) <==> HexPair(v[0], t[0], t[1]) && HexOf(v[1..], t[2..])
  {
    hide HexPair;
    if HexPair(v[0], t[0], t[1]) && HexOf(v[1..], t[2..]) {
      forall i | 0 <= i < |v|
        ensures HexPair(v[i], t[2 * i], t[2 * i + 1])
      {
        if i > 0 {
          assert HexPair(v[1..][i - 1], t[2..][2 * (i - 1)], t[2..][2 * (i - 1) + 1]);
        }
      }
    }
    if HexOf(v, t) {
      forall i | 0 <= i < |v| - 1
        ensures HexPair(v[1..][i], t[2..][2 * i], t[2..][2 * i + 1])
      {
        assert HexPair(v[i + 1], t[2 * (i + 1)], t[2 * (i + 1) + 1]);
      }
    }
  }

  /** What stands behind the first equals sign. */
  function Tail(part: Text): Text {
    part[|Label(part)|..]
  }

  lemma IntegerMeans(part: Text, typ: nat)
    requires IsIntegerType(typ) && Label(part) == IntegerPrefix(typ)
    ensures IntegerPart(ParseComponent(part), typ, part, Tail(part))
  {
    hide Label, ParseU64, PercentDecode, EncodeInteger, ParseHex, ParsePlain, Number, Starts;
    Labels(part);
    Distinct();
    forall n: nat
      ensures ParseU64(Tail(part)) == Ok(n) <==> Number(Tail(part), n)
    {
      NumberIff(Tail(part), n);
    }
  }

  lemma DigestMeans(part: Text)
    ensures Label(part) == T_SHA ==> DigestPart(ParseComponent(part), IMPLICIT_SHA256, Tail(part))
    ensures Label(part) == T_PARAMS ==> DigestPart(ParseComponent(part), PARAMETERS_SHA256, Tail(part))
  {
    hide Label, ParseInteger, PercentDecode, ParseHex, ParsePlain, HexOf, Starts;
    Labels(part);
    forall v: seq<byte>
      ensures HexOf(v, Tail(part)) <==> ParseHex(Tail(part)) == Ok(v)
    {
      HexIsUnique(Tail(part), v);
    }
    HexIsUnique(Tail(part), []);
  }

  lemma KeywordMeans(part: Text)
    requires Label(part) == T_KEYWORD
    ensures ParseComponent(part) == Typed(KEYWORD, PercentDecode(Tail(part)))
  {
    hide Label, ParseInteger, PercentDecode, ParseHex, ParsePlain, Starts;
    Labels(part);
  }

  predicate IsLabel(l: Text) {
    l in {T_SEG, T_V, T_OFF, T_T, T_SEQ, T_SHA, T_PARAMS, T_KEYWORD}
  }

  /** A decimal number and an equals sign. */
  predicate Numeric(l: Text) {
    |l| > 1 && AllDigits(l[..|l| - 1])
  }

  /** A decimal type, which must fit 64 bits, or a generic component. */
  lemma PlainMeans(part: Text)
    requires !IsLabel(Label(part))
    ensures var l := Label(part);
            ParseComponent(part) ==
            if Numeric(l)
            then
              var n := DigitsValue(l[..|l| - 1]);
              if n < U64 then Typed(n, DecodeUriValue(Tail(part))) else Err(BadType)
            else Typed(GENERIC, DecodeUriValue(part))
  {
    hide ParseInteger, PercentDecode, ParseHex, DecodeUriValue, Starts, DigitsValue;
    Labels(part);
    var k := FindEquals(part);
    if k < |part| {
      assert Label(part)[..k] == part[..k];
      assert k > 0 && AllDigits(part[..k]) ==> part[..k][0] != PLUS;
    }
  }

  // ---------------------------------------------------------------------------------------
  // White space
  // ---------------------------------------------------------------------------------------

  function Utf8(c: nat): Text
    requires c < 0x11_0000
  {
    if c < 0x80 then [c]
    else if c < 0x800 then [0xC0 + c / 0x40, 0x80 + c % 0x40]
    else if c < 0x1_0000 then [0xE0 + c / 0x1000, 0x80 + c / 0x40 % 0x40, 0x80 + c % 0x40]
    else [0xF0 + c / 0x4_0000, 0x80 + c / 0x1000 % 0x40, 0x80 + c / 0x40 % 0x40, 0x80 + c % 0x40]
  }

  /** The code points with the Unicode property White_Space. */
  lemma SpaceIff(c: nat)
    requires c < 0x11_0000
    ensures IsSpace(Utf8(c)) <==>
            || 0x09 <= c <= 0x0D || c == 0x20 || c == 0x85 || c == 0xA0 || c == 0x1680 || 0x2000 <= c <= 0x200A
            || c == 0x2028 || c == 0x2029 || c == 0x202F || c == 0x205F || c == 0x3000
  {
    if c < 0x80 {
      assert Utf8(c) == [c];
    } else if c < 0x800 {
      assert Utf8(c) == [0xC0 + c / 0x40, 0x80 + c % 0x40];
    } else if c < 0x1_0000 {
      hide IsSpace;
      var h, m, l := c / 0x1000, c / 0x40 % 0x40, c % 0x40;
      assert c == 0x1000 * h + 0x40 * m + l;
      ThreeBytes(h, m, l);
    } else {
      assert |Utf8(c)| == 4;
    }
  }

  lemma ThreeBytes(h: nat, m: nat, l: nat)
    requires h < 16 && m < 64 && l < 64
    ensures IsSpace([0xE0 + h, 0x80 + m, 0x80 + l]) <==>
            || (h == 1 && m == 0x1A && l == 0) || (h == 2 && m == 1 && l == 0x1F) || (h == 3 && m == 0 && l == 0)
            || (h == 2 && m == 0 && (l <= 0x0A || l == 0x28 || l == 0x29 || l == 0x2F))
  {
    var c: Text := [0xE0 + h, 0x80 + m, 0x80 + l];
    assert c[0] == 0xE0 + h && c[1] == 0x80 + m && c[2] == 0x80 + l;
  }

  /** Text of white-space characters only. */
  predicate Spaces(t: Text) {
    t == [] || (SpaceBefore(t) > 0 && Spaces(t[SpaceBefore(t)..]))
  }

  lemma SpaceFirst(c: Text, t: Text)
    requires IsSpace(c)
    ensures SpaceBefore(c + t) == |c| > 0 && (c + t)[|c|..] == t
  {
    var u := c + t;
    assert u[..|c|] == c;
    assert |c| >= 2 ==> u[..1] == [c[0]];
    assert |c| == 3 ==> u[..2] == [c[0], c[1]];
  }

  lemma SpaceLast(t: Text, c: Text)
    requires IsSpace(c)
    ensures SpaceAfter(t + c) == |c| > 0 && (t + c)[..|t|] == t
  {
    var u, n := t + c, |t|;
    assert u[n..] == c;
    assert |c| >= 2 ==> u[|u| - 1..] == [c[|c| - 1]];
    assert |c| == 3 ==> u[|u| - 2..] == [c[1], c[2]];
  }

  /** A white-space character begins with a byte that is not inside one. */
  lemma NoSpanning(t: Text, c: Text)
    requires t != [] && IsSpace(c)
    ensures SpaceBefore(t + c) == SpaceBefore(t)
  {
    var u := t + c;
    assert u[..1] == t[..1];
    if |u| >= 2 {
      assert |t| >= 2 ==> u[..2] == t[..2];
      assert |t| == 1 ==> u[1] == c[0];
    }
    if |u| >= 3 {
      assert |t| >= 3 ==> u[..3] == t[..3];
      assert |t| == 2 ==> u[2] == c[0];
    }
  }

  lemma TrimFirst(c: Text, t: Text)
    requires IsSpace(c)
    ensures Trim(c + t) == Trim(t)
  {
    SpaceFirst(c, t);
  }

  lemma {:induction false} TrimLast(t: Text, c: Text)
    requires IsSpace(c)
    ensures Trim(t + c) == Trim(t)
    decreases |t|
  {
    hide SpaceBefore, SpaceAfter, IsSpace;
    if t == [] {
      SpaceFirst(c, []);
      assert t + c == c && c + [] == c;
    } else {
      var a := SpaceBefore(t);
      NoSpanning(t, c);
      SpaceLast(t, c);
      if a > 0 {
        TrimLast(t[a..], c);
        assert (t + c)[a..] == t[a..] + c;
      }
    }
  }

  /** White space around a text changes nothing. */
  lemma {:induction false} TrimSpaces(a: Text, t: Text, b: Text)
    requires Spaces(a) && Spaces(b)
    ensures Trim(a + t + b) == Trim(t)
    decreases |a| + |b|
  {
    hide SpaceBefore, Trim, IsSpace;
    if a != [] {
      var n := SpaceBefore(a);
      SpaceHere(a);
      TrimSpaces(a[n..], t, b);
      TrimFirst(a[..n], a[n..] + t + b);
      assert a + t + b == a[..n] + (a[n..] + t + b);
    } else if b != [] {
      var n := SpaceBefore(b);
      SpaceHere(b);
      TrimSpaces([], t + b[..n], b[n..]);
      TrimLast(t, b[..n]);
      assert a + t + b == [] + (t + b[..n]) + b[n..];
    } else {
      assert a + t + b == t;
    }
  }

  lemma SpaceHere(t: Text)
    requires SpaceBefore(t) > 0
    ensures IsSpace(t[..SpaceBefore(t)])
  {
  }

  /** Nothing but white space is taken away, and all of it. */
  lemma {:induction false} TrimSplit(t: Text) returns (a: Text, b: Text)
    ensures Spaces(a) && Spaces(b) && t == a + Trim(t) + b
    ensures SpaceBefore(Trim(t)) == 0 && SpaceAfter(Trim(t)) == 0
  {
    hide SpaceBefore, SpaceAfter, IsSpace, Trim, Spaces;
    var m, n := SpaceBefore(t), SpaceAfter(t);
    TrimStep(t);
    if m > 0 {
      a, b := TrimSplit(t[m..]);
      SpaceHere(t);
      SpaceMore(t[..m], a);
      Regroup(t[..m], a, Trim(t), b, []);
      a := t[..m] + a;
    } else if n > 0 {
      a, b := TrimSplit(t[..|t| - n]);
      SpaceThere(t);
      SpaceAppended(b, t[|t| - n..]);
      Regroup([], a, Trim(t), b, t[|t| - n..]);
      b := b + t[|t| - n..];
    } else {
      a, b := [], [];
      NoSpaces();
    }
  }

  lemma {:induction false} TrimStep(t: Text)
    ensures var m, n := SpaceBefore(t), SpaceAfter(t);
            Trim(t) == if m > 0 then Trim(t[m..]) else if n > 0 then Trim(t[..|t| - n]) else t
    ensures SpaceBefore(t) > 0 ==> t == t[..SpaceBefore(t)] + t[SpaceBefore(t)..]
    ensures SpaceAfter(t) > 0 ==> t == t[..|t| - SpaceAfter(t)] + t[|t| - SpaceAfter(t)..]
  {
    hide SpaceBefore, SpaceAfter;
  }

  lemma Regroup(c: Text, a: Text, mid: Text, b: Text, d: Text)
    ensures c + (a + mid + b) + d == (c + a) + mid + (b + d)
    ensures [] + (a + mid + b) + d == a + mid + (b + d) && c + (a + mid + b) + [] == (c + a) + mid + b
  {
  }

  lemma NoSpaces()
    ensures Spaces([])
  {
  }

  lemma SpaceThere(t: Text)
    requires SpaceAfter(t) > 0
    ensures IsSpace(t[|t| - SpaceAfter(t)..])
  {
  }

  lemma SpaceMore(c: Text, t: Text)
    requires IsSpace(c) && Spaces(t)
    ensures Spaces(c + t)
  {
    SpaceFirst(c, t);
  }

  lemma {:induction false} SpaceAppended(t: Text, c: Text)
    requires Spaces(t) && IsSpace(c)
    ensures Spaces(t + c)
    decreases |t|
  {
    hide SpaceBefore, IsSpace;
    if t == [] {
      SpaceMore(c, []);
      assert t + c == c + [];
    } else {
      var n := SpaceBefore(t);
      SpaceHere(t);
      SpaceAppended(t[n..], c);
      SpaceMore(t[..n], t[n..] + c);
      assert t + c == t[..n] + (t[n..] + c);
    }
  }

  // ---------------------------------------------------------------------------------------
  // Names
  // ---------------------------------------------------------------------------------------

  /** The pieces with a slash between each two. */
  function Slashed(parts: seq<Text>): Text {
    if parts == [] then [] else if |parts| == 1 then parts[0] else parts[0] + [SLASH] + Slashed(parts[1..])
  }

  predicate Pieces(parts: seq<Text>) {
    parts != [] && forall i :: 0 <= i < |parts| ==> NoSlash(parts[i])
  }

  function NonEmpty(parts: seq<Text>): seq<Text> {
    if parts == [] then [] else (if parts[0] == [] then [] else [parts[0]]) + NonEmpty(parts[1..])
  }

  /** The text between slashes comes apart into its pieces. */
  lemma {:induction false} SplitSlashed(parts: seq<Text>)
    requires Pieces(parts)
    ensures Split(Slashed(parts)) == parts
  {
    hide Split;
    if |parts| == 1 {
      SplitPiece(parts[0], []);
    } else {
      SplitSlashed(parts[1..]);
      SplitPiece(parts[0], Slashed(parts[1..]));
    }
  }

  /** Every text has pieces. */
  lemma {:induction false} SlashedSplit(t: Text)
    ensures Pieces(Split(t)) && Slashed(Split(t)) == t
  {
    if t != [] {
      var parts := Split(t[1..]);
      SlashedSplit(t[1..]);
      if t[0] == SLASH {
        assert ([[]] + parts)[1..] == parts;
        assert [] + [SLASH] + t[1..] == t;
      } else {
        var first := [t[0]] + parts[0];
        assert ([first] + parts[1..])[1..] == parts[1..];
        if |parts| > 1 {
          assert first + [SLASH] + Slashed(parts[1..]) == [t[0]] + (parts[0] + [SLASH] + Slashed(parts[1..]));
        }
        assert [t[0]] + t[1..] == t;
      }
    }
  }

  /** Component `i` is what piece `i` stands for; or some piece is an error and those before it are not. */
  ghost predicate Reads(pieces: seq<Text>, r: Result<Name>) {
    match r
    case Ok(name) => |name| == |pieces| && forall i :: 0 <= i < |name| ==> ParseComponent(pieces[i]) == Ok(name[i])
    case Err(e) => exists k :: FirstError(pieces, k, e)
  }

  ghost predicate FirstError(pieces: seq<Text>, k: nat, e: NameError) {
    && k < |pieces| && ParseComponent(pieces[k]) == Err(e)
    && forall i :: 0 <= i < k ==> ParseComponent(pieces[i]).Ok?
  }

  lemma {:induction false} PartsMean(parts: seq<Text>)
    ensures Reads(NonEmpty(parts), ParseParts(parts))
  {
    hide ParseComponent;
    if parts != [] {
      var rest, r := NonEmpty(parts[1..]), ParseParts(parts[1..]);
      PartsMean(parts[1..]);
      if parts[0] != [] {
        var pieces := [parts[0]] + rest;
        var c := ParseComponent(parts[0]);
        assert NonEmpty(parts) == pieces;
        if c.Err? {
          assert FirstError(pieces, 0, c.error);
        } else if r.Err? {
          var k: nat :| FirstError(rest, k, r.error);
          assert forall i :: 0 < i <= k + 1 ==> pieces[i] == rest[i - 1];
          assert FirstError(pieces, k + 1, r.error);
        }
      } else {
        assert NonEmpty(parts) == rest;
      }
    }
  }

  /**
   A text is white space, and the root; or it does not begin with a slash behind its white space,
   which is an error; or it has one component per non-empty piece between slashes, in order.
   */
  lemma TextMeans(text: Text)
    ensures Trim(text) == [] ==> Parse(text) == Ok([])
    ensures Trim(text) != [] && Trim(text)[0] != SLASH ==> Parse(text) == Err(NoLeadingSlash)
    ensures forall parts :: Pieces(parts) && Trim(text) == [SLASH] + Slashed(parts) ==>
                            Reads(NonEmpty(parts), Parse(text))
  {
    forall parts | Pieces(parts) && Trim(text) == [SLASH] + Slashed(parts)
      ensures Reads(NonEmpty(parts), Parse(text))
    {
      PiecesMean(text, parts);
    }
  }

  lemma PiecesMean(text: Text, parts: seq<Text>)
    requires Pieces(parts) && Trim(text) == [SLASH] + Slashed(parts)
    ensures Reads(NonEmpty(parts), Parse(text))
  {
    hide Trim, Split, Slashed, Reads, NonEmpty, ParseParts;
    var t := Trim(text);
    assert t[1..] == Slashed(parts);
    SplitSlashed(parts);
    PartsMean(parts);
    if t == [SLASH] {
      RootParts(parts);
    }
  }

  lemma RootParts(parts: seq<Text>)
    requires Split([]) == parts
    ensures ParseParts(parts) == Ok([])
  {
  }

  /** Parses a URI, component by component. */
  method ParseText(text: Text) returns (r: Result<Name>)
    ensures r == Parse(text)
    ensures Trim(text) == [] ==> r == Ok([])
    ensures Trim(text) != [] && Trim(text)[0] != SLASH ==> r == Err(NoLeadingSlash)
    ensures forall parts :: Pieces(parts) && Trim(text) == [SLASH] + Slashed(parts) ==> Reads(NonEmpty(parts), r)
  {
    hide ParseComponent, Trim, Split, Reads;
    TextMeans(text);
    var t := Trim(text);
    if t == [] || t == [SLASH] {
      return Ok([]);
    }
    if t[0] != SLASH {
      return Err(NoLeadingSlash);
    }
    var parts := Split(t[1..]);
    var name: Name := [];
    ghost var any := Component(0, []);
    assert parts[0..] == parts;
    AfterLaws(name, any, ParseParts(parts));
    for i := 0 to |parts|
      invariant ParseParts(parts) == After(name, ParseParts(parts[i..]))
    {
      assert parts[i..][1..] == parts[i + 1..];
      if parts[i] != [] {
        var c := ParseComponent(parts[i]);
        if c.Err? {
          return Err(c.error);
        }
        AfterLaws(name, c.value, ParseParts(parts[i + 1..]));
        name := name + [c.value];
      }
    }
    AfterLaws(name, any, Ok([]));
    return Ok(name);
  }
}
