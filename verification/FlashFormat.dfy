/**
 The on-flash format of the log store: record framing, payload encoding and the replay of
 one half's record log. Everything here is a function of bytes; `FlashStore` adds the device,
 power cuts and the two halves, and `FlashEngine` is the engine with its mutable state.
 */
module FlashFormat {
  import opened Bytes
  import opened ByteOrder
  import opened Backend

  type Key = seq<byte>
  type Value = seq<byte>
  type Index = map<Key, Value>

  const OP_PUT: byte := 1
  const OP_DEL: byte := 2
  const COMMIT_MAGIC: nat := 0x4E44_4E46
  const ERASED_WORD: nat := 0xFFFF_FFFF

  // ---------------------------------------------------------------------------------------
  // Encoding
  // ---------------------------------------------------------------------------------------

  function EncodeOp(op: WriteOp): seq<byte> {
    match op
    case Put(k, v) => [OP_PUT] + LE(|k|, 4) + k + LE(|v|, 4) + v
    case Delete(k) => [OP_DEL] + LE(|k|, 4) + k
  }

  function EncodeOps(ops: seq<WriteOp>): seq<byte> {
    if ops == [] then [] else EncodeOp(ops[0]) + EncodeOps(ops[1..])
  }

  function Footer(len: nat): nat {
    Xor(len, COMMIT_MAGIC, 32)
  }

  /** `Vec::resize(n, 0xFF)`: pads with erased bytes, or truncates. */
  function Resize(s: seq<byte>, n: nat): (r: seq<byte>)
    ensures |r| == n
  {
    if n <= |s| then s[..n] else s + Blank(n - |s|)
  }

  /** A framed record. Lengths are cast to 32 bits exactly where the engine casts them. */
  function EncodeRecord(ops: seq<WriteOp>, w: nat): seq<byte>
    requires w > 0
  {
    var payload := EncodeOps(ops);
    Pad32(LE(|payload|, 4) + payload + LE(Footer(|payload|), 4), w)
  }

  /** Pads to the write unit; the length is computed in 32 bits. */
  function Pad32(rec: seq<byte>, w: nat): seq<byte>
    requires w > 0
  {
    Resize(rec, AlignUp(|rec| % U32, w) % U32)
  }

  /** The record is small enough that none of the 32-bit casts changes a length. */
  predicate Fits32(ops: seq<WriteOp>, w: nat)
    requires w > 0
  {
    AlignUp(8 + |EncodeOps(ops)|, w) < U32
  }

  /** A record as it is meant to be: length, payload, footer, erased padding. */
  function Frame(ops: seq<WriteOp>, w: nat): (r: seq<byte>)
    requires w > 0
    ensures |r| == AlignUp(8 + |EncodeOps(ops)|, w)
  {
    var payload := EncodeOps(ops);
    LE(|payload|, 4) + payload + LE(Footer(|payload|), 4)
    + Blank(AlignUp(8 + |payload|, w) - 8 - |payload|)
  }

  /** The engine writes a whole record exactly for the groups whose length survives the casts. */
  lemma EncodeRecordIsFrame(ops: seq<WriteOp>, w: nat)
    requires w > 0
    ensures EncodeRecord(ops, w) == Frame(ops, w) <==> Fits32(ops, w)
  {
    var payload := EncodeOps(ops);
    if Fits32(ops, w) {
      Pad32Exact(LE(|payload|, 4) + payload + LE(Footer(|payload|), 4), w);
    }
  }

  lemma Pad32Exact(rec: seq<byte>, w: nat)
    requires w > 0 && AlignUp(|rec|, w) < U32
    ensures Pad32(rec, w) == rec + Blank(AlignUp(|rec|, w) - |rec|)
  {
    hide AlignUp;
    assert |rec| % U32 == |rec|;
  }

  // ---------------------------------------------------------------------------------------
  // Decoding a payload
  // ---------------------------------------------------------------------------------------

  /**
   Applies a payload to an index. Operations before a malformed one have already been applied
   when it is found, as in the engine.
   */
  function ApplyPayload(p: seq<byte>, m: Index): (r: (bool, Index))
    decreases |p|
  {
    if p == [] then (true, m)
    else
      var op, p1 := p[0], p[1..];
      if |p1| < 4 then (false, m)
      else
        var klen, p2 := FromLE(p1[..4]), p1[4..];
        if |p2| < klen then (false, m)
        else
          var key, p3 := p2[..klen], p2[klen..];
          if op == OP_PUT then
            if |p3| < 4 then (false, m)
            else
              var vlen, p4 := FromLE(p3[..4]), p3[4..];
              if |p4| < vlen then (false, m)
              else ApplyPayload(p4[vlen..], m[key := p4[..vlen]])
          else if op == OP_DEL then ApplyPayload(p3, m - {key})
          else (false, m)
  }

  /** Reading back a byte string behind its 32-bit length. */
  lemma LengthPrefixed(p: seq<byte>, x: seq<byte>, rest: seq<byte>)
    requires |x| < U32 && p == LE(|x|, 4) + x + rest
    ensures |p| >= 4 && FromLE(p[..4]) == |x|
    ensures |p[4..]| >= |x| && p[4..][..|x|] == x && p[4..][|x|..] == rest
  {
    PowValues();
    LERoundTrip(|x|, 4);
    Split3(LE(|x|, 4), x, rest);
  }

  lemma ApplyOneEncoded(op: WriteOp, rest: seq<byte>, m: Index)
    requires |EncodeOp(op)| < U32
    ensures ApplyPayload(EncodeOp(op) + rest, m) == ApplyPayload(rest, ApplyOp(m, op))
  {
    match op {
      case Put(k, v) => ApplyPut(k, v, rest, m);
      case Delete(k) => ApplyDelete(k, rest, m);
    }
  }

  lemma ApplyDelete(k: Key, rest: seq<byte>, m: Index)
    requires |k| < U32
    ensures ApplyPayload(EncodeOp(Delete(k)) + rest, m) == ApplyPayload(rest, m - {k})
  {
    var p1 := LE(|k|, 4) + k + rest;
    assert EncodeOp(Delete(k)) + rest == [OP_DEL] + p1;
    LengthPrefixed(p1, k, rest);
    Split2([OP_DEL], p1);
  }

  lemma ApplyPut(k: Key, v: Value, rest: seq<byte>, m: Index)
    requires |k| < U32 && |v| < U32
    ensures ApplyPayload(EncodeOp(Put(k, v)) + rest, m) == ApplyPayload(rest, m[k := v])
  {
    var tail := LE(|v|, 4) + v + rest;
    var p1 := LE(|k|, 4) + k + tail;
    assert EncodeOp(Put(k, v)) + rest == [OP_PUT] + p1;
    LengthPrefixed(p1, k, tail);
    LengthPrefixed(tail, v, rest);
    Split2([OP_PUT], p1);
  }

  /** Decoding an encoded group applies exactly that group. */
  lemma {:induction false} ApplyEncoded(ops: seq<WriteOp>, m: Index)
    requires |EncodeOps(ops)| < U32
    ensures ApplyPayload(EncodeOps(ops), m) == (true, ApplyAll(m, ops))
  {
    if ops != [] {
      ApplyOneEncoded(ops[0], EncodeOps(ops[1..]), m);
      ApplyEncoded(ops[1..], ApplyOp(m, ops[0]));
    }
  }

  // ---------------------------------------------------------------------------------------
  // Replaying a half
  // ---------------------------------------------------------------------------------------

  datatype Replayed = Replayed(index: Index, consumed: nat, dirty: bool)

  /** Replays the cells of a half that follow its superblock. */
  function Replay(body: seq<byte>, w: nat, m: Index): Replayed
    requires w > 0
    decreases |body|
  {
    if |body| < 8 then Replayed(m, 0, false)
    else
      var len := FromLE(body[..4]);
      if len == ERASED_WORD then Replayed(m, 0, false)
      else if 8 + len > |body| then Replayed(m, 0, true)
      else if FromLE(body[4 + len..8 + len]) != Footer(len) then Replayed(m, 0, true)
      else
        var (ok, m') := ApplyPayload(body[4..4 + len], m);
        if !ok then Replayed(m', 0, true)
        else
          var step := AlignUp(8 + len, w);
          if step > |body| then Replayed(m', step, false)
          else
            var r := Replay(body[step..], w, m');
            r.(consumed := step + r.consumed)
  }

  /** A log: the records of consecutive groups. */
  function Log(groups: seq<seq<WriteOp>>, w: nat): seq<byte>
    requires w > 0
  {
    if groups == [] then [] else Frame(groups[0], w) + Log(groups[1..], w)
  }

  function Flatten(groups: seq<seq<WriteOp>>): seq<WriteOp> {
    if groups == [] then [] else groups[0] + Flatten(groups[1..])
  }

  ghost predicate AllFit(groups: seq<seq<WriteOp>>, w: nat)
    requires w > 0
  {
    forall i :: 0 <= i < |groups| ==> Fits32(groups[i], w)
  }

  /** What the replayer reads at the head of a complete record. */
  lemma FrameParts(ops: seq<WriteOp>, w: nat, rest: seq<byte>)
    requires w > 0 && Fits32(ops, w)
    ensures var body := Frame(ops, w) + rest; var n := |EncodeOps(ops)|;
            && 8 + n <= |Frame(ops, w)| <= |body| && n < U32
            && FromLE(body[..4]) == n
            && body[4..4 + n] == EncodeOps(ops)
            && FromLE(body[4 + n..8 + n]) == Footer(n)
            && body[|Frame(ops, w)|..] == rest
  {
    hide LE, FromLE, EncodeOps, Footer, Pow256;
    PowValues();
    var p := EncodeOps(ops);
    var n := |p|;
    LERoundTrip(n, 4);
    FooterBound(n);
    LERoundTrip(Footer(n), 4);
    Quarters(LE(n, 4), p, LE(Footer(n), 4), Blank(AlignUp(8 + n, w) - 8 - n), rest);
  }

  lemma Quarters(a: seq<byte>, p: seq<byte>, b: seq<byte>, pad: seq<byte>, rest: seq<byte>)
    requires |a| == |b| == 4
    ensures var body := a + p + b + pad + rest; var n := |p|;
            && body[..4] == a && body[4..4 + n] == p && body[4 + n..8 + n] == b
            && body[8 + n + |pad|..] == rest
  {
  }

  lemma FooterBound(n: nat)
    ensures Footer(n) < U32
  {
    hide Xor, Pow2;
    Pow2Values();
    XorWidth(n, COMMIT_MAGIC, 32);
  }

  lemma {:induction false} XorWidth(a: nat, b: nat, n: nat)
    ensures Xor(a, b, n) < Pow2(n)
  {
    if n > 0 {
      XorWidth(a / 2, b / 2, n - 1);
    }
  }

  /** A complete record is applied and stepped over. */
  lemma ReplayFrame(ops: seq<WriteOp>, rest: seq<byte>, w: nat, m: Index)
    requires w > 0 && Fits32(ops, w)
    ensures var r := Replay(rest, w, ApplyAll(m, ops));
            Replay(Frame(ops, w) + rest, w, m) == r.(consumed := |Frame(ops, w)| + r.consumed)
  {
    hide FromLE, EncodeOps, Footer, ApplyPayload, ApplyAll, Frame;
    FrameParts(ops, w, rest);
    ApplyEncoded(ops, m);
  }

  /**
   Replaying a log of complete records applies every group in order and then continues with
   whatever cells follow.
   */
  lemma {:induction false} ReplayLog(groups: seq<seq<WriteOp>>, rest: seq<byte>, w: nat, m: Index)
    requires w > 0 && AllFit(groups, w)
    ensures var r := Replay(rest, w, ApplyAll(m, Flatten(groups)));
            Replay(Log(groups, w) + rest, w, m) == r.(consumed := |Log(groups, w)| + r.consumed)
  {
    if groups == [] {
      assert Log(groups, w) + rest == rest;
    } else {
      var g, gs := groups[0], groups[1..];
      assert AllFit(gs, w);
      ReplayFrame(g, Log(gs, w) + rest, w, m);
      ReplayLog(gs, rest, w, ApplyAll(m, g));
      ApplyAllConcat(m, g, Flatten(gs));
      assert Log(groups, w) + rest == Frame(g, w) + (Log(gs, w) + rest);
    }
  }

  lemma {:induction false} LogAppend(groups: seq<seq<WriteOp>>, g: seq<WriteOp>, w: nat)
    requires w > 0
    ensures Log(groups + [g], w) == Log(groups, w) + Frame(g, w)
    ensures Flatten(groups + [g]) == Flatten(groups) + g
  {
    hide Frame, EncodeOps, AlignUp;
    if groups == [] {
      assert groups + [g] == [g];
      assert Log([g], w) == Frame(g, w) + Log([], w);
      assert Flatten([g]) == g + Flatten([]);
    } else {
      assert (groups + [g])[1..] == groups[1..] + [g];
      LogAppend(groups[1..], g, w);
      ConcatAssoc(Frame(groups[0], w), Log(groups[1..], w), Frame(g, w));
      ConcatAssoc(groups[0], Flatten(groups[1..]), g);
    }
  }

  // ---------------------------------------------------------------------------------------
  // Torn records
  // ---------------------------------------------------------------------------------------

  /** Cells at which replay stops at once; the flag is whether the tail reads as torn. */
  ghost predicate Stops(tail: seq<byte>, dirty: bool) {
    if |tail| < 8 then !dirty
    else
      var len := FromLE(tail[..4]);
      if len == ERASED_WORD then !dirty
      else dirty && (8 + len > |tail| || FromLE(tail[4 + len..8 + len]) != Footer(len))
  }

  lemma ReplayStops(tail: seq<byte>, dirty: bool, w: nat, m: Index)
    requires w > 0 && Stops(tail, dirty)
    ensures Replay(tail, w, m) == Replayed(m, 0, dirty)
  {
  }

  lemma TopByte(s: seq<byte>)
    requires |s| == 4
    ensures FromLE(s) == s[0] as int + 256 * (s[1] as int) + 0x1_0000 * (s[2] as int) + 0x100_0000 * (s[3] as int)
  {
    assert s[1..][1..] == s[2..] && s[2..][1..] == s[3..] && s[3..][1..] == [];
    assert FromLE(s[3..]) == s[3];
    assert FromLE(s[2..]) == s[2] + 256 * FromLE(s[3..]);
    assert FromLE(s[1..]) == s[1] + 256 * FromLE(s[2..]);
  }

  lemma ErasedWord(s: seq<byte>)
    requires |s| == 4
    ensures FromLE(s) == ERASED_WORD <==> Erased(s)
  {
    TopByte(s);
  }

  lemma ErasedStops(tail: seq<byte>)
    requires Erased(tail)
    ensures Stops(tail, false)
  {
    if |tail| >= 8 {
      ErasedWord(tail[..4]);
    }
  }

  /** Below 2^31 the footer's top byte has its high bit clear, so it is never an erased byte. */
  lemma FooterTopByte(n: nat)
    requires n < 0x8000_0000
    ensures LE(Footer(n), 4)[3] != 0xFF
  {
    hide Xor, Pow2, LE;
    Pow2Values();
    XorBound(n, COMMIT_MAGIC, 32, 31);
    PowValues();
    LERoundTrip(Footer(n), 4);
    TopByte(LE(Footer(n), 4));
  }

  /** A length word cut after one to three bytes reads as erased or as more than any half holds. */
  lemma TornLengthWord(rec: seq<byte>, k: nat, room: nat)
    requires |rec| >= 4 && k < 4 && room < 0x8000_0000
    ensures var word := rec[..k] + Blank(4 - k);
            if Erased(rec[..k]) then FromLE(word) == ERASED_WORD
            else FromLE(word) != ERASED_WORD && 8 + FromLE(word) > room
  {
    var word := rec[..k] + Blank(4 - k);
    ErasedWord(word);
    TopByte(word);
    assert word[3] == 0xFF;
    if !Erased(rec[..k]) {
      var i :| 0 <= i < k && rec[i] != 0xFF;
      assert word[i] != 0xFF;
    }
  }

  /** A record cut inside its payload or footer: the footer read back is wrong. */
  lemma TornFooter(ops: seq<WriteOp>, w: nat, k: nat, room: nat)
    requires w > 0 && Fits32(ops, w) && |Frame(ops, w)| <= room < 0x8000_0000
    requires 4 <= k < 8 + |EncodeOps(ops)|
    ensures Stops(Frame(ops, w)[..k] + Blank(room - k), true)
  {
    var rec, n := Frame(ops, w), |EncodeOps(ops)|;
    var tail := rec[..k] + Blank(room - k);
    FrameParts(ops, w, []);
    assert rec + [] == rec;
    assert tail[..4] == rec[..4];
    var foot := tail[4 + n..8 + n];
    assert foot[3] == 0xFF;
    FooterTopByte(n);
    FooterBound(n);
    PowValues();
    LERoundTrip(Footer(n), 4);
    if FromLE(foot) == Footer(n) {
      FromLEInjective(foot, LE(Footer(n), 4));
      assert false;
    }
  }

  /** The cells of a record of which only the first `k` bytes landed on erased flash. */
  lemma TornRecord(ops: seq<WriteOp>, w: nat, k: nat, room: nat)
    requires w > 0 && Fits32(ops, w) && |Frame(ops, w)| <= room < 0x8000_0000
    requires k <= |Frame(ops, w)|
    ensures var tail := Frame(ops, w)[..k] + Blank(room - k);
            if k >= 8 + |EncodeOps(ops)| then tail == Frame(ops, w) + Blank(room - |Frame(ops, w)|)
            else Stops(tail, true) || Erased(tail)
  {
    var rec, n := Frame(ops, w), |EncodeOps(ops)|;
    var tail := rec[..k] + Blank(room - k);
    if k >= 8 + n {
      forall i | 0 <= i < room
        ensures tail[i] == (rec + Blank(room - |rec|))[i]
      {
      }
    } else if k >= 4 {
      TornFooter(ops, w, k, room);
    } else {
      TornLengthWord(rec, k, room);
      assert tail[..4] == rec[..k] + Blank(4 - k);
      if Erased(rec[..k]) {
        assert Erased(tail);
      }
    }
  }

  // ---------------------------------------------------------------------------------------
  // The live set is never larger than the log it came from
  // ---------------------------------------------------------------------------------------

  /** The live set as a compaction writes it: one put per key, in key order. */
  function Listing(m: Index): seq<WriteOp> {
    var keys := SortedKeys(m.Keys);
    assert forall i :: 0 <= i < |keys| ==> keys[i] in keys;
    seq(|keys|, i requires 0 <= i < |keys| => Put(keys[i], m[keys[i]]))
  }

  lemma ListingLists(m: Index)
    ensures Consistent(Listing(m), m)
    ensures forall k :: k in m ==> exists i :: 0 <= i < |Listing(m)| && Listing(m)[i].key == k
  {
    var keys, ops := SortedKeys(m.Keys), Listing(m);
    forall k | k in m
      ensures exists i :: 0 <= i < |ops| && ops[i].key == k
    {
      assert k in keys;
      var i :| 0 <= i < |keys| && keys[i] == k;
      assert ops[i].key == k;
    }
  }

  predicate Consistent(ops: seq<WriteOp>, m: Index) {
    && (forall i :: 0 <= i < |ops| ==> ops[i].Put? && ops[i].key in m && m[ops[i].key] == ops[i].value)
    && (forall i, j :: 0 <= i < j < |ops| ==> ops[i].key != ops[j].key)
  }

  function Without(ops: seq<WriteOp>, i: nat): seq<WriteOp>
    requires i < |ops|
  {
    ops[..i] + ops[i + 1..]
  }

  lemma {:induction false} EncodeConcat(a: seq<WriteOp>, b: seq<WriteOp>)
    ensures EncodeOps(a + b) == EncodeOps(a) + EncodeOps(b)
  {
    if a == [] {
      assert a + b == b;
    } else {
      assert (a + b)[1..] == a[1..] + b;
      EncodeConcat(a[1..], b);
    }
  }

  lemma EncodeWithout(ops: seq<WriteOp>, i: nat)
    requires i < |ops|
    ensures |EncodeOps(ops)| == |EncodeOps(Without(ops, i))| + |EncodeOp(ops[i])|
  {
    assert ops == ops[..i] + ([ops[i]] + ops[i + 1..]);
    EncodeConcat(ops[..i], [ops[i]] + ops[i + 1..]);
    EncodeConcat(ops[..i], ops[i + 1..]);
    assert ([ops[i]] + ops[i + 1..])[1..] == ops[i + 1..];
  }

  lemma ConsistentWithout(puts: seq<WriteOp>, i: nat, m: Index, last: WriteOp)
    requires Consistent(puts, ApplyOp(m, last)) && i < |puts| && puts[i].key == last.key
    ensures last == puts[i] && Consistent(Without(puts, i), m)
  {
    var rest := Without(puts, i);
    forall j | 0 <= j < |rest|
      ensures rest[j] == puts[if j < i then j else j + 1] && rest[j].key != last.key
    {
    }
  }

  lemma ConsistentBefore(puts: seq<WriteOp>, m: Index, last: WriteOp)
    requires Consistent(puts, ApplyOp(m, last))
    requires forall i :: 0 <= i < |puts| ==> puts[i].key != last.key
    ensures Consistent(puts, m)
  {
  }

  lemma NothingConsistent(puts: seq<WriteOp>)
    requires Consistent(puts, map[])
    ensures puts == []
  {
    var first := if |puts| > 0 then puts[0] else Delete([]);
    var none: Index := map[];
    assert first.key !in none;
  }

  /** Puts that agree with the outcome of a log take no more bytes than the log's own operations. */
  lemma {:induction false} LiveSetFits(puts: seq<WriteOp>, log: seq<WriteOp>)
    requires Consistent(puts, ApplyAll(map[], log))
    ensures |EncodeOps(puts)| <= |EncodeOps(log)|
    decreases |log|
  {
    if log == [] {
      NothingConsistent(puts);
    } else {
      var init, last := log[..|log| - 1], log[|log| - 1];
      var m := ApplyAll(map[], init);
      assert log == init + [last];
      ApplyAllConcat(map[], init, [last]);
      LastApplied(m, last);
      EncodeConcat(init, [last]);
      if i :| 0 <= i < |puts| && puts[i].key == last.key {
        ConsistentWithout(puts, i, m, last);
        EncodeWithout(puts, i);
        LiveSetFits(Without(puts, i), init);
      } else {
        ConsistentBefore(puts, m, last);
        LiveSetFits(puts, init);
      }
    }
  }

  lemma LastApplied(m: Index, op: WriteOp)
    ensures ApplyAll(m, [op]) == ApplyOp(m, op) && EncodeOps([op]) == EncodeOp(op)
  {
    assert [op][1..] == [];
    assert ApplyAll(ApplyOp(m, op), []) == ApplyOp(m, op);
    assert EncodeOp(op) + EncodeOps([]) == EncodeOp(op);
  }

  /** Replaying a listing from nothing gives the index back. */
  lemma ReplayListing(m: Index)
    ensures ApplyAll(map[], Listing(m)) == m
  {
    ListingLists(m);
    ReplayPuts(Listing(m), m);
  }

  lemma ReplayPuts(ops: seq<WriteOp>, m: Index)
    requires Consistent(ops, m)
    requires forall k :: k in m ==> exists i :: 0 <= i < |ops| && ops[i].key == k
    ensures ApplyAll(map[], ops) == m
  {
    PutsAccumulate(map[], ops, m);
    var r := ApplyAll(map[], ops);
    forall k | k in m
      ensures k in r && r[k] == m[k]
    {
      var i :| 0 <= i < |ops| && ops[i].key == k;
      assert ops[i].key in r;
    }
  }

  lemma {:induction false} PutsAccumulate(acc: Index, ops: seq<WriteOp>, m: Index)
    requires Consistent(ops, m)
    requires forall k :: k in acc ==> k in m && acc[k] == m[k]
    ensures var r := ApplyAll(acc, ops);
            && (forall k :: k in acc ==> k in r)
            && (forall k :: k in r ==> k in m && r[k] == m[k])
            && (forall i :: 0 <= i < |ops| ==> ops[i].key in r)
    decreases |ops|
  {
    if ops != [] {
      assert Consistent(ops[1..], m);
      PutsAccumulate(ApplyOp(acc, ops[0]), ops[1..], m);
      assert forall i :: 1 <= i < |ops| ==> ops[i] == ops[1..][i - 1];
    }
  }

  /** Bytes of a log cover the framing of all its operations in a single record. */
  lemma {:induction false} OneRecordFits(groups: seq<seq<WriteOp>>, w: nat)
    requires w > 0 && groups != []
    ensures OneRecord(Flatten(groups), |Log(groups, w)|, w)
  {
    hide Frame, OneRecord;
    var g, gs := groups[0], groups[1..];
    SingleRecord(g, w);
    if gs == [] {
      assert Flatten(groups) == g;
      assert Log(groups, w) == Frame(g, w);
    } else {
      OneRecordFits(gs, w);
      MergeRecords(g, Flatten(gs), |Frame(g, w)|, |Log(gs, w)|, w);
    }
  }

  lemma SingleRecord(ops: seq<WriteOp>, w: nat)
    requires w > 0
    ensures OneRecord(ops, |Frame(ops, w)|, w)
  {
    AlignMultiple(8 + |EncodeOps(ops)|, w);
  }

  predicate OneRecord(ops: seq<WriteOp>, size: nat, w: nat)
    requires w > 0
  {
    AlignUp(8 + |EncodeOps(ops)|, w) <= size && Multiple(size, w)
  }

  lemma MergeRecords(a: seq<WriteOp>, b: seq<WriteOp>, s: nat, t: nat, w: nat)
    requires w > 0 && OneRecord(a, s, w) && OneRecord(b, t, w)
    ensures OneRecord(a + b, s + t, w)
  {
    EncodeConcat(a, b);
    MultipleSum(s, t, w);
    AlignUpLeast(8 + |EncodeOps(a + b)|, w, s + t);
  }
}
