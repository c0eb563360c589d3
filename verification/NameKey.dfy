/**
 Names as storage keys: the concatenated component TLVs. Byte order on keys is canonical name
 order, and byte prefix on keys is component prefix on names.
 */
module NameKey {
  import opened Bytes
  import opened ByteOrder
  import opened Tlv
  import opened NameUri

  // ---------------------------------------------------------------------------------------
  // Canonical order
  // ---------------------------------------------------------------------------------------

  /** TLV-TYPE, then length, then bytes. */
  predicate ComponentLt(c: Component, d: Component) {
    if c.typ != d.typ then c.typ < d.typ
    else if |c.value| != |d.value| then |c.value| < |d.value|
    else LexLt(c.value, d.value)
  }

  predicate NameLe(a: Name, b: Name) {
    if a == [] then true
    else if b == [] then false
    else if a[0] == b[0] then NameLe(a[1..], b[1..])
    else ComponentLt(a[0], b[0])
  }

  /** `Name::has_prefix`. */
  predicate HasPrefix(n: Name, p: Name) {
    |p| <= |n| && forall i :: 0 <= i < |p| ==> n[i] == p[i]
  }

  /** Types are 64-bit and values have 64-bit lengths. */
  predicate WellSized(c: Component) {
    c.typ < U64 && |c.value| < U64
  }

  predicate Valid(n: Name) {
    forall i :: 0 <= i < |n| ==> WellSized(n[i])
  }

  function Key(n: Name): seq<byte> {
    if n == [] then [] else Element(n[0].typ, n[0].value) + Key(n[1..])
  }

  /** The writer loop. */
  method NameToKey(n: Name) returns (k: seq<byte>)
    ensures k == Key(n)
  {
    hide Element;
    k := [];
    assert n[0..] == n;
    for i := 0 to |n|
      invariant Key(n) == k + Key(n[i..])
    {
      assert n[i..][1..] == n[i + 1..];
      ConcatAssoc(k, Element(n[i].typ, n[i].value), Key(n[i + 1..]));
      k := k + Element(n[i].typ, n[i].value);
    }
  }

  // ---------------------------------------------------------------------------------------
  // Strings that differ at a position both have
  // ---------------------------------------------------------------------------------------

  /** `a` comes first, decided at position `i`. */
  predicate SplitsAt(a: seq<byte>, b: seq<byte>, i: nat) {
    i < |a| && i < |b| && a[..i] == b[..i] && a[i] < b[i]
  }

  ghost predicate Before(a: seq<byte>, b: seq<byte>) {
    exists i: nat :: SplitsAt(a, b, i)
  }

  lemma BeforeExtends(a: seq<byte>, b: seq<byte>, x: seq<byte>, y: seq<byte>)
    requires Before(a, b)
    ensures Before(a + x, b + y)
  {
    var i: nat :| SplitsAt(a, b, i);
    assert (a + x)[..i] == a[..i] && (b + y)[..i] == b[..i];
    assert SplitsAt(a + x, b + y, i);
  }

  lemma BeforeUnder(p: seq<byte>, a: seq<byte>, b: seq<byte>)
    requires Before(a, b)
    ensures Before(p + a, p + b)
  {
    var i: nat :| SplitsAt(a, b, i);
    assert (p + a)[..|p| + i] == p + a[..i] && (p + b)[..|p| + i] == p + b[..i];
    assert SplitsAt(p + a, p + b, |p| + i);
  }

  lemma {:induction false} BeforeIsLess(a: seq<byte>, b: seq<byte>, i: nat)
    requires SplitsAt(a, b, i)
    ensures LexLe(a, b) && !LexLe(b, a) && !(a <= b) && !(b <= a)
  {
    assert a[i] != b[i];
    if i > 0 {
      assert a[0] == a[..i][0] && b[0] == b[..i][0];
      assert a[1..][..i - 1] == a[..i][1..] && b[1..][..i - 1] == b[..i][1..];
      BeforeIsLess(a[1..], b[1..], i - 1);
    }
  }

  /** Distinct strings of one length differ at some position. */
  lemma {:induction false} SameLengthSplits(a: seq<byte>, b: seq<byte>)
    requires |a| == |b| && LexLt(a, b)
    ensures Before(a, b)
  {
    if a[0] == b[0] {
      assert a == [a[0]] + a[1..] && b == [b[0]] + b[1..];
      SameLengthSplits(a[1..], b[1..]);
      BeforeUnder([a[0]], a[1..], b[1..]);
    } else {
      assert SplitsAt(a, b, 0);
    }
  }

  lemma {:induction false} BigEndianOrder(m: nat, n: nat, w: nat)
    requires m < n < Pow256(w)
    ensures Before(BE(m, w), BE(n, w))
  {
    if w > 0 {
      if m / 256 == n / 256 {
        BeforeLast(BE(m / 256, w - 1), m % 256, n % 256);
      } else {
        BigEndianOrder(m / 256, n / 256, w - 1);
        BeforeExtends(BE(m / 256, w - 1), BE(n / 256, w - 1), [m % 256], [n % 256]);
      }
    }
  }

  lemma BeforeLast(p: seq<byte>, x: byte, y: byte)
    requires x < y
    ensures Before(p + [x], p + [y])
  {
    assert SplitsAt([x], [y], 0);
    BeforeUnder(p, [x], [y]);
  }

  /** Shortest-form VAR-NUMBERs sort as their values and none is a prefix of another. */
  lemma VarNumOrder(m: nat, n: nat)
    requires m < n < U64
    ensures Before(VarNum(m), VarNum(n))
  {
    hide BE, Pow256;
    PowValues();
    var a, b := VarNum(m), VarNum(n);
    if a[0] < b[0] {
      assert SplitsAt(a, b, 0);
    } else {
      var w := VarSize(n) - 1;
      BigEndianOrder(m, n, w);
      BeforeUnder([a[0]], BE(m, w), BE(n, w));
    }
  }

  lemma ElementOrder(c: Component, d: Component)
    requires WellSized(c) && WellSized(d) && ComponentLt(c, d)
    ensures Before(Element(c.typ, c.value), Element(d.typ, d.value))
  {
    hide VarNum, Before, LexLe;
    var tc, td := VarNum(c.typ), VarNum(d.typ);
    var lc, ld := VarNum(|c.value|), VarNum(|d.value|);
    ConcatAssoc(tc, lc, c.value);
    ConcatAssoc(td, ld, d.value);
    if c.typ != d.typ {
      VarNumOrder(c.typ, d.typ);
      BeforeExtends(tc, td, lc + c.value, ld + d.value);
    } else if |c.value| != |d.value| {
      VarNumOrder(|c.value|, |d.value|);
      BeforeExtends(lc, ld, c.value, d.value);
      BeforeUnder(tc, lc + c.value, ld + d.value);
    } else {
      SameLengthSplits(c.value, d.value);
      BeforeUnder(lc, c.value, d.value);
      BeforeUnder(tc, lc + c.value, ld + d.value);
    }
  }

  lemma ComponentTotal(c: Component, d: Component)
    ensures c == d || ComponentLt(c, d) || ComponentLt(d, c)
  {
    hide LexLe;
    LexTotal(c.value, d.value);
  }

  /** Keys whose first components differ: the order and the failure of prefix are decided there. */
  lemma HeadsDecide(a: Name, b: Name)
    requires Valid(a) && Valid(b) && a != [] && b != [] && ComponentLt(a[0], b[0])
    ensures LexLe(Key(a), Key(b)) && !LexLe(Key(b), Key(a)) && !(Key(a) <= Key(b)) && !(Key(b) <= Key(a))
  {
    hide Element, ComponentLt, LexLe;
    ElementOrder(a[0], b[0]);
    BeforeExtends(Element(a[0].typ, a[0].value), Element(b[0].typ, b[0].value), Key(a[1..]), Key(b[1..]));
    var i: nat :| SplitsAt(Key(a), Key(b), i);
    BeforeIsLess(Key(a), Key(b), i);
  }

  lemma {:induction false} StripCommon(p: seq<byte>, a: seq<byte>, b: seq<byte>)
    ensures LexLe(p + a, p + b) <==> LexLe(a, b)
    ensures p + a <= p + b <==> a <= b
  {
    if p == [] {
      assert p + a == a && p + b == b;
    } else {
      StripCommon(p[1..], a, b);
      assert (p + a)[1..] == p[1..] + a && (p + b)[1..] == p[1..] + b;
      assert p + a == [p[0]] + (p[1..] + a) && p + b == [p[0]] + (p[1..] + b);
    }
  }

  /** Byte order on keys is exactly canonical name order. */
  lemma {:induction false} KeyOrder(a: Name, b: Name)
    requires Valid(a) && Valid(b)
    ensures LexLe(Key(a), Key(b)) <==> NameLe(a, b)
  {
    hide Element, ComponentLt;
    if a != [] && b != [] {
      ComponentTotal(a[0], b[0]);
      if a[0] == b[0] {
        KeyOrder(a[1..], b[1..]);
        StripCommon(Element(a[0].typ, a[0].value), Key(a[1..]), Key(b[1..]));
      } else if ComponentLt(a[0], b[0]) {
        HeadsDecide(a, b);
      } else {
        HeadsDecide(b, a);
        NotBoth(a[0], b[0]);
      }
    }
  }

  lemma NotBoth(c: Component, d: Component)
    requires ComponentLt(d, c)
    ensures !ComponentLt(c, d)
  {
    hide LexLe;
    if c.typ == d.typ && |c.value| == |d.value| && LexLe(c.value, d.value) {
      LexAntisymmetric(c.value, d.value);
    }
  }

  /** Byte prefix on keys is exactly component prefix on names. */
  lemma {:induction false} KeyPrefix(p: Name, n: Name)
    requires Valid(p) && Valid(n)
    ensures Key(p) <= Key(n) <==> HasPrefix(n, p)
  {
    hide Element, ComponentLt;
    if p != [] && n != [] {
      ComponentTotal(p[0], n[0]);
      if p[0] == n[0] {
        KeyPrefix(p[1..], n[1..]);
        StripCommon(Element(p[0].typ, p[0].value), Key(p[1..]), Key(n[1..]));
        assert HasPrefix(n, p) <==> HasPrefix(n[1..], p[1..]) by { PrefixTail(n, p); }
      } else if ComponentLt(p[0], n[0]) {
        HeadsDecide(p, n);
      } else {
        HeadsDecide(n, p);
      }
    }
  }

  lemma PrefixTail(n: Name, p: Name)
    requires n != [] && p != [] && n[0] == p[0]
    ensures HasPrefix(n, p) <==> HasPrefix(n[1..], p[1..])
  {
    if HasPrefix(n[1..], p[1..]) {
      forall i | 0 <= i < |p|
        ensures n[i] == p[i]
      {
        if i > 0 {
          assert n[1..][i - 1] == p[1..][i - 1];
        }
      }
    }
  }

  /** Distinct names have distinct keys. */
  lemma KeyInjective(a: Name, b: Name)
    requires Valid(a) && Valid(b) && Key(a) == Key(b)
    ensures a == b
  {
    hide Key;
    KeyPrefix(a, b);
    KeyPrefix(b, a);
  }
}
