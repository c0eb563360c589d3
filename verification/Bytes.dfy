/** Bytes, fixed-width integers and the bit operations the wire and flash formats use. */
module Bytes {

  type byte = x: int | 0 <= x < 256

  const U32: nat := 0x1_0000_0000
  const U64: nat := 0x1_0000_0000_0000_0000

  function Pow256(w: nat): (p: nat)
    ensures p > 0
  {
    if w == 0 then 1 else 256 * Pow256(w - 1)
  }

  lemma PowValues()
    ensures Pow256(1) == 256 && Pow256(2) == 0x1_0000 && Pow256(4) == U32 && Pow256(8) == U64
  {
    assert Pow256(2) == 256 * Pow256(1);
    assert Pow256(3) == 256 * Pow256(2);
    assert Pow256(4) == 256 * Pow256(3);
    assert Pow256(5) == 256 * Pow256(4);
    assert Pow256(6) == 256 * Pow256(5);
    assert Pow256(7) == 256 * Pow256(6);
    assert Pow256(8) == 256 * Pow256(7);
  }

  /** `w` bytes of `n`, least significant first; higher bits are dropped as a cast would. */
  function LE(n: nat, w: nat): (s: seq<byte>)
    ensures |s| == w
  {
    if w == 0 then [] else [n % 256] + LE(n / 256, w - 1)
  }

  function FromLE(s: seq<byte>): nat {
    if s == [] then 0 else s[0] + 256 * FromLE(s[1..])
  }

  lemma {:induction false} FromLEBound(s: seq<byte>)
    ensures FromLE(s) < Pow256(|s|)
  {
    if s != [] {
      FromLEBound(s[1..]);
    }
  }

  lemma {:induction false} LERoundTrip(n: nat, w: nat)
    requires n < Pow256(w)
    ensures FromLE(LE(n, w)) == n
  {
    if w > 0 {
      assert n / 256 < Pow256(w - 1);
      LERoundTrip(n / 256, w - 1);
      assert LE(n, w)[1..] == LE(n / 256, w - 1);
    }
  }

  lemma {:induction false} FromLEInjective(s: seq<byte>, t: seq<byte>)
    requires |s| == |t| && FromLE(s) == FromLE(t)
    ensures s == t
  {
    if s != [] {
      assert s[0] == t[0] && FromLE(s[1..]) == FromLE(t[1..]);
      FromLEInjective(s[1..], t[1..]);
      assert s == [s[0]] + s[1..] && t == [t[0]] + t[1..];
    }
  }

  /** `w` bytes of `n`, most significant first. */
  function BE(n: nat, w: nat): (s: seq<byte>)
    ensures |s| == w
  {
    if w == 0 then [] else BE(n / 256, w - 1) + [n % 256]
  }

  function FromBE(s: seq<byte>): nat {
    if s == [] then 0 else 256 * FromBE(s[..|s| - 1]) + s[|s| - 1]
  }

  lemma {:induction false} FromBEBound(s: seq<byte>)
    ensures FromBE(s) < Pow256(|s|)
  {
    if s != [] {
      FromBEBound(s[..|s| - 1]);
    }
  }

  lemma {:induction false} BERoundTrip(n: nat, w: nat)
    requires n < Pow256(w)
    ensures FromBE(BE(n, w)) == n
  {
    if w > 0 {
      assert n / 256 < Pow256(w - 1);
      BERoundTrip(n / 256, w - 1);
      assert BE(n, w)[..w - 1] == BE(n / 256, w - 1);
    }
  }

  lemma {:induction false} FromBERoundTrip(s: seq<byte>)
    ensures FromBE(s) < Pow256(|s|) && BE(FromBE(s), |s|) == s
  {
    FromBEBound(s);
    if s != [] {
      FromBERoundTrip(s[..|s| - 1]);
      assert s == s[..|s| - 1] + [s[|s| - 1]];
    }
  }

  /** Bitwise AND of two bytes' low `n` bits. */
  function AndBits(a: nat, b: nat, n: nat): (r: nat)
    ensures r <= a
  {
    if n == 0 then 0 else (a % 2) * (b % 2) + 2 * AndBits(a / 2, b / 2, n - 1)
  }

  function And(a: byte, b: byte): byte {
    AndBits(a, b, 8)
  }

  function Pow2(n: nat): nat {
    if n == 0 then 1 else 2 * Pow2(n - 1)
  }

  lemma Pow2Step(n: nat)
    ensures Pow2(n + 8) == 256 * Pow2(n)
  {
    assert Pow2(n + 2) == 4 * Pow2(n);
    assert Pow2(n + 4) == 4 * Pow2(n + 2);
    assert Pow2(n + 6) == 4 * Pow2(n + 4);
    assert Pow2(n + 8) == 4 * Pow2(n + 6);
  }

  lemma Pow2Values()
    ensures Pow2(8) == 256 && Pow2(31) == 0x8000_0000 && Pow2(32) == U32
  {
    Pow2Step(0);
    Pow2Step(8);
    Pow2Step(16);
    Pow2Step(24);
    assert Pow2(32) == 2 * Pow2(31);
  }

  lemma {:induction false} AndAllOnes(b: nat, n: nat)
    requires b < Pow2(n)
    ensures AndBits(Pow2(n) - 1, b, n) == b
  {
    if n > 0 {
      AndAllOnes(b / 2, n - 1);
      assert Pow2(n) - 1 == 2 * (Pow2(n - 1) - 1) + 1;
    }
  }

  /** Programming an erased (all-ones) cell is plain assignment. */
  lemma AndErased(b: byte)
    ensures And(0xFF, b) == b
  {
    Pow2Values();
    AndAllOnes(b, 8);
  }

  /** Bitwise exclusive-or of the low `n` bits. */
  function Xor(a: nat, b: nat, n: nat): nat {
    if n == 0 then 0 else (a + b) % 2 + 2 * Xor(a / 2, b / 2, n - 1)
  }

  /** Bits clear in both operands from position `k` up stay clear in the result. */
  lemma {:induction false} XorBound(a: nat, b: nat, n: nat, k: nat)
    requires a < Pow2(k) && b < Pow2(k)
    ensures Xor(a, b, n) < Pow2(k)
  {
    if n > 0 && k > 0 {
      XorBound(a / 2, b / 2, n - 1, k - 1);
    } else if n > 0 {
      XorBound(0, 0, n - 1, 0);
    }
  }

  predicate Erased(s: seq<byte>) {
    forall i :: 0 <= i < |s| ==> s[i] == 0xFF
  }

  /** `n` erased cells. */
  function Blank(n: nat): (s: seq<byte>)
    ensures |s| == n && Erased(s)
  {
    seq(n, _ => 0xFF)
  }

  /** Divisibility, stated without division; see `MultipleIsMod`. */
  predicate Multiple(x: nat, a: nat)
    requires a > 0
    decreases x
  {
    x == 0 || (x >= a && Multiple(x - a, a))
  }

  /** The least multiple of `a` at or above `n`. */
  function AlignUp(n: nat, a: nat): (r: nat)
    requires a > 0
    ensures n <= r < n + a
    decreases n
  {
    if n == 0 then 0 else if n <= a then a else a + AlignUp(n - a, a)
  }

  /** The greatest multiple of `a` at or below `n`. */
  function AlignDown(n: nat, a: nat): (r: nat)
    requires a > 0
    ensures r <= n < r + a
    decreases n
  {
    if n < a then 0 else a + AlignDown(n - a, a)
  }

  lemma {:induction false} AlignMultiple(n: nat, a: nat)
    requires a > 0
    ensures Multiple(AlignUp(n, a), a) && Multiple(AlignDown(n, a), a)
    decreases n
  {
    if n > a {
      AlignMultiple(n - a, a);
    } else {
      assert Multiple(0, a);
      assert AlignDown(0, a) == 0;
      assert Multiple(a, a);
    }
  }

  lemma {:induction false} MultipleSum(x: nat, y: nat, a: nat)
    requires a > 0 && Multiple(x, a) && Multiple(y, a)
    ensures Multiple(x + y, a)
    decreases x
  {
    if x > 0 {
      MultipleSum(x - a, y, a);
    }
  }

  lemma {:induction false} MultipleTransitive(x: nat, e: nat, w: nat)
    requires w > 0 && e > 0 && Multiple(x, e) && Multiple(e, w)
    ensures Multiple(x, w)
    decreases x
  {
    if x > 0 {
      MultipleTransitive(x - e, e, w);
      MultipleSum(x - e, e, w);
    }
  }

  lemma {:induction false} AlignUpLeast(n: nat, a: nat, m: nat)
    requires a > 0 && Multiple(m, a) && n <= m
    ensures AlignUp(n, a) <= m
    decreases n
  {
    if n > a {
      AlignUpLeast(n - a, a, m - a);
    }
  }

  lemma {:induction false} MultipleIsMod(x: nat, a: nat)
    requires a > 0
    ensures Multiple(x, a) <==> x % a == 0
    decreases x
  {
    if x >= a {
      MultipleIsMod(x - a, a);
      Divided(x - a, a);
      Distribute((x - a) / a + 1, 1, a);
      DivUnique(x, a, (x - a) / a + 1, (x - a) % a);
    } else {
      DivUnique(x, a, 0, x);
    }
  }

  /** The recursive forms are the engine's `n.div_ceil(a) * a` and `(n / a) * a`. */
  lemma {:induction false} AlignIsDivision(n: nat, a: nat)
    requires a > 0
    ensures AlignUp(n, a) == (n + a - 1) / a * a && AlignDown(n, a) == n / a * a
    decreases n
  {
    Divided(n, a);
    Divided(n + a - 1, a);
    AlignMultiple(n, a);
    MultipleIsMod(AlignUp(n, a), a);
    MultipleIsMod(AlignDown(n, a), a);
    SameMultiple(AlignDown(n, a), n / a, n, a);
    SameMultiple(AlignUp(n, a), (n + a - 1) / a, n + a - 1, a);
  }

  lemma SameMultiple(m: nat, q: nat, n: nat, a: nat)
    requires a > 0 && m % a == 0 && m <= n < m + a && q == n / a
    ensures m == q * a
  {
    Divided(m, a);
    DivUnique(n, a, m / a, n - m);
  }

  lemma MulAtLeast(k: int, a: int)
    requires a > 0 && k >= 1
    ensures k * a >= a
  {
  }

  lemma DivUnique(x: int, a: int, q: int, r: int)
    requires a > 0 && 0 <= r < a && x == q * a + r
    ensures x / a == q && x % a == r
  {
    var q', r' := x / a, x % a;
    Divided(x, a);
    Distribute(q, q', a);
    if q > q' {
      MulAtLeast(q - q', a);
    } else if q < q' {
      Distribute(q', q, a);
      MulAtLeast(q' - q, a);
    }
  }

  lemma Divided(x: int, a: int)
    requires a > 0
    ensures x == x / a * a + x % a && 0 <= x % a < a
  {
  }

  lemma Distribute(p: int, q: int, a: int)
    ensures (p - q) * a == p * a - q * a
  {
  }

  // ---------------------------------------------------------------------------------------
  // Slicing a concatenation
  // ---------------------------------------------------------------------------------------

  lemma Split2<T>(a: seq<T>, b: seq<T>)
    ensures (a + b)[..|a|] == a && (a + b)[|a|..] == b
  {
  }

  lemma Split3<T>(a: seq<T>, x: seq<T>, rest: seq<T>)
    ensures (a + x + rest)[..|a|] == a
    ensures (a + x + rest)[|a|..] == x + rest
    ensures (a + x + rest)[|a|..][..|x|] == x
    ensures (a + x + rest)[|a|..][|x|..] == rest
    ensures (a + x + rest)[|a|..|a| + |x|] == x
  {
    assert (a + x + rest)[|a|..] == x + rest;
  }

  lemma ConcatAssoc<T>(a: seq<T>, b: seq<T>, c: seq<T>)
    ensures a + b + c == a + (b + c)
  {
  }

  lemma SliceSlice<T>(x: seq<T>, a: nat, b: nat, c: nat, d: nat)
    requires a + d <= b <= |x| && c <= d
    ensures x[a..b][c..d] == x[a + c..a + d]
  {
    forall i | 0 <= i < d - c
      ensures x[a..b][c..d][i] == x[a + c..a + d][i]
    {
      assert x[a..b][c + i] == x[a + c + i];
    }
  }
}
