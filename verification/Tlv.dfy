/** The NDN TLV codec: VAR-NUMBERs in shortest form, elements, and their unique readability. */
module Tlv {
  import opened Bytes
  import opened Options

  /** Number of bytes of the shortest form. */
  function VarSize(n: nat): nat {
    if n < 253 then 1 else if n < 0x1_0000 then 3 else if n < U32 then 5 else 9
  }

  function VarNum(n: nat): (s: seq<byte>)
    ensures |s| == VarSize(n)
  {
    if n < 253 then [n]
    else if n < 0x1_0000 then [0xFD] + BE(n, 2)
    else if n < U32 then [0xFE] + BE(n, 4)
    else [0xFF] + BE(n, 8)
  }

  /** Value and length of the VAR-NUMBER at the front; `None` if cut short or not in shortest form. */
  function ReadVar(buf: seq<byte>): (r: Option<(nat, nat)>)
    ensures r.Some? ==> 1 <= r.value.1 <= |buf|
  {
    if buf == [] then None
    else if buf[0] <= 252 then Some((buf[0], 1))
    else
      var w := if buf[0] == 253 then 2 else if buf[0] == 254 then 4 else 8;
      if |buf| < 1 + w then None
      else
        var v := FromBE(buf[1..1 + w]);
        if VarSize(v) < 1 + w then None else Some((v, 1 + w))
  }

  lemma ReadWide(tag: byte, n: nat, w: nat, rest: seq<byte>)
    requires n < Pow256(w)
    ensures var buf := [tag] + BE(n, w) + rest; |buf| >= 1 + w && FromBE(buf[1..1 + w]) == n
  {
    BERoundTrip(n, w);
    Split3([tag], BE(n, w), rest);
  }

  /** Reading back what was written, whatever follows. */
  lemma ReadVarNum(n: nat, rest: seq<byte>)
    requires n < U64
    ensures ReadVar(VarNum(n) + rest) == Some((n, VarSize(n)))
  {
    hide BE, FromBE, Pow256;
    PowValues();
    if n >= 253 {
      if n < 0x1_0000 {
        ReadWide(0xFD, n, 2, rest);
      } else if n < U32 {
        ReadWide(0xFE, n, 4, rest);
      } else {
        ReadWide(0xFF, n, 8, rest);
      }
    }
  }

  /** Shortest form is unique: whatever reads as `n` is the encoding of `n`. */
  lemma ReadVarUnique(buf: seq<byte>)
    requires ReadVar(buf).Some?
    ensures var (n, k) := ReadVar(buf).value; n < U64 && k == VarSize(n) && buf[..k] == VarNum(n)
  {
    hide BE, FromBE, Pow256;
    PowValues();
    if buf[0] > 252 {
      var w := if buf[0] == 253 then 2 else if buf[0] == 254 then 4 else 8;
      FromBERoundTrip(buf[1..1 + w]);
      assert buf[..1 + w] == [buf[0]] + buf[1..1 + w];
    } else {
      assert buf[..1] == [buf[0]];
    }
  }

  /** A complete element. */
  function Element(typ: nat, value: seq<byte>): (s: seq<byte>)
    ensures |s| == VarSize(typ) + VarSize(|value|) + |value|
  {
    VarNum(typ) + VarNum(|value|) + value
  }

  datatype Read = Read(typ: nat, value: seq<byte>, size: nat)

  /** `TlvReader::read_tlv`: types above 32 bits and lengths past the end are refused. */
  function ReadElement(buf: seq<byte>): (r: Option<Read>)
    ensures r.Some? ==> 2 <= r.value.size <= |buf|
  {
    match ReadVar(buf)
    case None => None
    case Some((typ, n)) =>
      if n == 9 || typ > 0xFFFF_FFFF then None
      else
        match ReadVar(buf[n..])
        case None => None
        case Some((len, k)) =>
          if len > |buf| - n - k then None else Some(Read(typ, buf[n + k..n + k + len], n + k + len))
  }

  lemma ReadWritten(typ: nat, value: seq<byte>, rest: seq<byte>)
    requires typ < U32 && |value| < U64
    ensures ReadElement(Element(typ, value) + rest) == Some(Read(typ, value, |Element(typ, value)|))
  {
    hide VarNum, ReadVar;
    var buf := Element(typ, value) + rest;
    var tail := VarNum(|value|) + (value + rest);
    assert buf == VarNum(typ) + tail;
    ReadVarNum(typ, tail);
    ReadVarNum(|value|, value + rest);
    Split2(VarNum(typ), tail);
    var n, k := VarSize(typ), VarSize(|value|);
    assert buf[n + k..n + k + |value|] == value by {
      Split3(VarNum(typ) + VarNum(|value|), value, rest);
    }
  }

  /** Type and value of an element to be written. */
  type Item = (nat, seq<byte>)

  function EncodeItems(items: seq<Item>): seq<byte> {
    if items == [] then [] else Element(items[0].0, items[0].1) + EncodeItems(items[1..])
  }

  lemma {:induction false} EncodeConcat(a: seq<Item>, b: seq<Item>)
    ensures EncodeItems(a + b) == EncodeItems(a) + EncodeItems(b)
  {
    hide Element;
    if a == [] {
      assert a + b == b;
    } else {
      EncodeConcat(a[1..], b);
      assert (a + b)[1..] == a[1..] + b;
      ConcatAssoc(Element(a[0].0, a[0].1), EncodeItems(a[1..]), EncodeItems(b));
    }
  }
}
