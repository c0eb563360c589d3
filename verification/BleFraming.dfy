/**
 NDNts one-byte framing over BLE: cutting a packet into frames, reassembling a stream of frames,
 and per-sender reassembly on a shared medium.
 */
module BleFraming {
  import opened Bytes
  import opened Options
  import opened Sets

  const MAX_REASSEMBLY_SIZE: nat := 16384
  const MAX_SENDERS: nat := 256

  // ---------------------------------------------------------------------------------------
  // The declared size of a TLV
  // ---------------------------------------------------------------------------------------

  /** Value and length of a VAR-NUMBER; unlike the packet decoder this accepts longer forms too. */
  function ParseVar(buf: seq<byte>): (r: Option<(nat, nat)>)
    ensures r.Some? ==> 1 <= r.value.1 <= |buf|
  {
    if buf == [] then None
    else if buf[0] <= 252 then Some((buf[0], 1))
    else if buf[0] == 253 then if |buf| >= 3 then Some((FromBE(buf[1..3]), 3)) else None
    else if buf[0] == 254 then if |buf| >= 5 then Some((FromBE(buf[1..5]), 5)) else None
    else if |buf| >= 9 then Some((FromBE(buf[1..9]), 9)) else None
  }

  datatype Declared = Incomplete | Overflowed | Total(size: nat)

  /** Type and length fields of the TLV at the front; sums beyond 64 bits overflow. */
  function Declare(buf: seq<byte>): Declared {
    match ParseVar(buf)
    case None => Incomplete
    case Some((_, t)) =>
      match ParseVar(buf[t..])
      case None => Incomplete
      case Some((len, l)) => if t + l + len < U64 then Total(t + l + len) else Overflowed
  }

  predicate DeclaredExceeds(buf: seq<byte>, max: nat) {
    match Declare(buf)
    case Incomplete => false
    case Overflowed => true
    case Total(n) => n > max
  }

  /** End of the TLV at the front, once all of it is there. */
  function PacketEnd(buf: seq<byte>): (r: Option<nat>)
    ensures r.Some? ==> r.value <= |buf|
  {
    match Declare(buf)
    case Total(n) => if |buf| >= n then Some(n) else None
    case _ => None
  }

  lemma ParsePrefix(buf: seq<byte>, k: nat)
    requires k <= |buf| && ParseVar(buf).Some?
    ensures ParseVar(buf[..k]) == if k < ParseVar(buf).value.1 then None else ParseVar(buf)
  {
    if k >= 1 {
      assert buf[..k][0] == buf[0];
      assert k >= 3 ==> buf[..k][1..3] == buf[1..3];
      assert k >= 5 ==> buf[..k][1..5] == buf[1..5];
      assert k >= 9 ==> buf[..k][1..9] == buf[1..9];
    }
  }

  /** A prefix of a TLV declares the same size, or nothing yet. */
  lemma DeclarePrefix(buf: seq<byte>, k: nat)
    requires k <= |buf| && Declare(buf).Total?
    ensures Declare(buf[..k]) == Incomplete || Declare(buf[..k]) == Declare(buf)
  {
    hide ParseVar;
    ParsePrefix(buf, k);
    var t := ParseVar(buf).value.1;
    if k >= t {
      assert buf[..k][t..] == buf[t..][..k - t];
      ParsePrefix(buf[t..], k - t);
    }
  }

  // ---------------------------------------------------------------------------------------
  // Cutting
  // ---------------------------------------------------------------------------------------

  function FragPayload(maxPayload: nat): (n: nat)
    ensures n >= 1
  {
    if maxPayload >= 2 then maxPayload - 1 else 1
  }

  /** Frames from `rest` on; the header carries a seven-bit counter and the first one the high bit. */
  function FramesFrom(rest: seq<byte>, n: nat, seqno: nat, first: bool): seq<seq<byte>>
    requires n > 0 && seqno < 128
    decreases |rest|
  {
    if rest == [] then []
    else
      var k := if |rest| < n then |rest| else n;
      var header: byte := if first then 0x80 + seqno else seqno;
      [[header] + rest[..k]] + FramesFrom(rest[k..], n, (seqno + 1) % 128, false)
  }

  function FramesOf(pkt: seq<byte>, maxPayload: nat): seq<seq<byte>> {
    if |pkt| <= maxPayload then [pkt] else FramesFrom(pkt, FragPayload(maxPayload), 0, true)
  }

  /** Cuts a packet into frames. */
  method CutFrames(pkt: seq<byte>, maxPayload: nat) returns (out: seq<seq<byte>>)
    ensures out == FramesOf(pkt, maxPayload)
  {
    if |pkt| <= maxPayload {
      return [pkt];
    }
    var n := if maxPayload >= 2 then maxPayload - 1 else 1;
    out := [];
    var offset, seqno, first := 0, 0, true;
    assert pkt[0..] == pkt;
    while offset < |pkt|
      invariant 0 <= offset <= |pkt| && 0 <= seqno < 128
      invariant out + FramesFrom(pkt[offset..], n, seqno, first) == FramesFrom(pkt, n, 0, true)
    {
      hide FramesFrom;
      var end := if offset + n < |pkt| then offset + n else |pkt|;
      var header: byte := if first then 0x80 + seqno else seqno;
      FirstFrame(pkt, offset, n, seqno, first);
      ConcatAssoc(out, [[header] + pkt[offset..end]], FramesFrom(pkt[end..], n, (seqno + 1) % 128, false));
      out := out + [[header] + pkt[offset..end]];
      first, seqno := false, (seqno + 1) % 128;
      offset := end;
    }
  }

  lemma FirstFrame(pkt: seq<byte>, offset: nat, n: nat, seqno: nat, first: bool)
    requires offset < |pkt| && n > 0 && seqno < 128
    ensures var end := if offset + n < |pkt| then offset + n else |pkt|;
            var header: byte := if first then 0x80 + seqno else seqno;
            FramesFrom(pkt[offset..], n, seqno, first)
            == [[header] + pkt[offset..end]] + FramesFrom(pkt[end..], n, (seqno + 1) % 128, false)
  {
    var end := if offset + n < |pkt| then offset + n else |pkt|;
    assert pkt[offset..][..end - offset] == pkt[offset..end];
    assert pkt[offset..][end - offset..] == pkt[end..];
  }

  /** Frames fit the payload limit exactly when it is at least two, or nothing has to be cut. */
  lemma FramesFit(pkt: seq<byte>, maxPayload: nat)
    ensures (forall i :: 0 <= i < |FramesOf(pkt, maxPayload)| ==> |FramesOf(pkt, maxPayload)[i]| <= maxPayload)
            <==> maxPayload >= 2 || |pkt| <= maxPayload
  {
    if |pkt| > maxPayload {
      var n := FragPayload(maxPayload);
      FramesSize(pkt, n, 0, true);
      if maxPayload < 2 {
        var f := FramesFrom(pkt, n, 0, true);
        assert f[0] == [0x80] + pkt[..1];
        assert |FramesOf(pkt, maxPayload)[0]| == 2;
      }
    }
  }

  lemma {:induction false} FramesSize(rest: seq<byte>, n: nat, seqno: nat, first: bool)
    requires n > 0 && seqno < 128
    ensures forall i :: 0 <= i < |FramesFrom(rest, n, seqno, first)| ==> |FramesFrom(rest, n, seqno, first)[i]| <= n + 1
    decreases |rest|
  {
    if rest != [] {
      var k := if |rest| < n then |rest| else n;
      FramesSize(rest[k..], n, (seqno + 1) % 128, false);
    }
  }

  // ---------------------------------------------------------------------------------------
  // Reassembling
  // ---------------------------------------------------------------------------------------

  datatype Stream = Stream(buffer: seq<byte>, active: bool)

  /** After a frame's bytes are in the buffer: abandon, wait, or hand up the TLV at its front. */
  function Settle(buffer: seq<byte>): (Stream, Option<seq<byte>>) {
    if |buffer| > MAX_REASSEMBLY_SIZE || DeclaredExceeds(buffer, MAX_REASSEMBLY_SIZE) then (Stream([], false), None)
    else
      match PacketEnd(buffer)
      case None => (Stream(buffer, true), None)
      case Some(end) => (Stream(buffer[end..], buffer[end..] != []), Some(buffer[..end]))
  }

  function Feed(s: Stream, frame: seq<byte>): (Stream, Option<seq<byte>>) {
    if frame == [] then (s, None)
    else if frame[0] >= 0x80 then Settle(frame[1..])
    else if s.active then Settle(s.buffer + frame[1..])
    else (s, Some(frame))
  }

  function FeedAll(s: Stream, frames: seq<seq<byte>>): (r: (Stream, seq<Option<seq<byte>>>))
    ensures |r.1| == |frames|
    decreases |frames|
  {
    if frames == [] then (s, [])
    else
      var (s1, o) := Feed(s, frames[0]);
      var (s2, os) := FeedAll(s1, frames[1..]);
      (s2, [o] + os)
  }

  /** A complete TLV of acceptable size. */
  predicate Deliverable(pkt: seq<byte>) {
    Declare(pkt) == Total(|pkt|) && |pkt| <= MAX_REASSEMBLY_SIZE
  }

  /** `n` as a VAR-NUMBER of `w` bytes, not necessarily the shortest. */
  function VarForm(n: nat, w: nat): (s: seq<byte>)
    requires IsForm(n, w)
    ensures |s| == w
  {
    if w == 1 then [n] else if w == 3 then [253] + BE(n, 2) else if w == 5 then [254] + BE(n, 4) else [255] + BE(n, 8)
  }

  predicate IsForm(n: nat, w: nat) {
    (w == 1 && n < 253) || (w == 3 && n < 0x1_0000) || (w == 5 && n < U32) || (w == 9 && n < U64)
  }

  lemma ParseIff(buf: seq<byte>, n: nat, w: nat)
    ensures ParseVar(buf) == Some((n, w)) <==> IsForm(n, w) && VarForm(n, w) <= buf
  {
    hide BE, FromBE, Pow256;
    PowValues();
    if IsForm(n, w) && w > 1 {
      BERoundTrip(n, w - 1);
      if VarForm(n, w) <= buf {
        assert buf[1..w] == VarForm(n, w)[1..] == BE(n, w - 1);
        assert buf[0] == VarForm(n, w)[0];
      }
    }
    if ParseVar(buf) == Some((n, w)) && w > 1 {
      FromBERoundTrip(buf[1..w]);
      assert buf[..w] == [buf[0]] + buf[1..w];
    }
  }

  /** Type, length and value, with the two numbers `t` and `l` bytes wide. */
  predicate IsTlv(pkt: seq<byte>, typ: nat, t: nat, l: nat, v: seq<byte>) {
    IsForm(typ, t) && IsForm(|v|, l) && pkt == VarForm(typ, t) + VarForm(|v|, l) + v
  }

  /** What can be delivered is a whole TLV of up to 16 KiB, its numbers in any of the four widths. */
  lemma DeliverableIff(pkt: seq<byte>)
    ensures Deliverable(pkt) <==>
            |pkt| <= MAX_REASSEMBLY_SIZE && exists typ, t, l, v :: IsTlv(pkt, typ, t, l, v)
  {
    hide ParseVar, VarForm, IsForm;
    if Deliverable(pkt) {
      var (typ, t) := ParseVar(pkt).value;
      var (len, l) := ParseVar(pkt[t..]).value;
      ParseIff(pkt, typ, t);
      ParseIff(pkt[t..], len, l);
      assert pkt == pkt[..t] + pkt[t..][..l] + pkt[t + l..];
      assert IsTlv(pkt, typ, t, l, pkt[t + l..]);
    }
    forall typ: nat, t: nat, l: nat, v | IsTlv(pkt, typ, t, l, v) && |pkt| <= MAX_REASSEMBLY_SIZE
      ensures Deliverable(pkt)
    {
      ParseIff(pkt, typ, t);
      Split2(VarForm(typ, t), VarForm(|v|, l) + v);
      assert pkt == VarForm(typ, t) + (VarForm(|v|, l) + v);
      ParseIff(pkt[t..], |v|, l);
    }
  }

  /** Until all of a TLV is buffered nothing is returned; then exactly the TLV is. */
  lemma SettlePrefix(pkt: seq<byte>, k: nat)
    requires Deliverable(pkt) && k <= |pkt|
    ensures Settle(pkt[..k]) == if k < |pkt| then (Stream(pkt[..k], true), None) else (Stream([], false), Some(pkt))
  {
    hide Declare;
    DeclarePrefix(pkt, k);
    if k == |pkt| {
      assert pkt[..k] == pkt;
      assert pkt[k..] == [] && pkt[..|pkt|] == pkt;
    }
  }

  /** All but the last frame yield nothing; the last yields the packet. */
  predicate OnlyLast(outs: seq<Option<seq<byte>>>, pkt: seq<byte>) {
    outs != [] && outs[|outs| - 1] == Some(pkt) && forall i :: 0 <= i < |outs| - 1 ==> outs[i] == None
  }

  lemma {:induction false} FeedRest(pkt: seq<byte>, at: nat, n: nat, seqno: nat, s: Stream, first: bool)
    requires Deliverable(pkt) && at < |pkt| && n > 0 && seqno < 128
    requires if first then at == 0 else s == Stream(pkt[..at], true)
    ensures var frames := FramesFrom(pkt[at..], n, seqno, first);
            var (s', outs) := FeedAll(s, frames);
            s' == Stream([], false) && OnlyLast(outs, pkt)
    decreases |pkt| - at
  {
    hide Settle, Deliverable, FramesFrom, FeedAll;
    var end := if at + n < |pkt| then at + n else |pkt|;
    var header: byte := if first then 0x80 + seqno else seqno;
    var frame := [header] + pkt[at..end];
    var tail := FramesFrom(pkt[end..], n, (seqno + 1) % 128, false);
    FirstFrame(pkt, at, n, seqno, first);
    assert frame[1..] == pkt[at..end];
    assert (if first then frame[1..] else s.buffer + frame[1..]) == pkt[..end];
    SettlePrefix(pkt, end);
    FeedCons(s, frame, tail);
    if end < |pkt| {
      FeedRest(pkt, end, n, (seqno + 1) % 128, Stream(pkt[..end], true), false);
    } else {
      assert pkt[end..] == [];
      NoFrames(n, (seqno + 1) % 128, Stream([], false));
    }
  }

  lemma FeedCons(s: Stream, frame: seq<byte>, tail: seq<seq<byte>>)
    ensures var (s1, o) := Feed(s, frame); var (s2, os) := FeedAll(s1, tail);
            FeedAll(s, [frame] + tail) == (s2, [o] + os)
  {
    hide Feed;
    assert ([frame] + tail)[1..] == tail;
  }

  lemma NoFrames(n: nat, seqno: nat, s: Stream)
    requires n > 0 && seqno < 128
    ensures FramesFrom([], n, seqno, false) == [] && FeedAll(s, []) == (s, [])
  {
  }

  /**
   Round trip from any prior state of the reassembler: the frames of a TLV that has to be cut
   yield nothing until the last one, which yields exactly the packet and leaves the stream idle.
   */
  lemma RoundTrip(pkt: seq<byte>, maxPayload: nat, s: Stream)
    requires Deliverable(pkt) && |pkt| > maxPayload
    ensures var (s', outs) := FeedAll(s, FramesOf(pkt, maxPayload)); s' == Stream([], false) && OnlyLast(outs, pkt)
  {
    assert pkt[0..] == pkt;
    FeedRest(pkt, 0, FragPayload(maxPayload), 0, s, true);
  }

  /** Bytes behind a complete header do not change it. */
  lemma ParseExtends(buf: seq<byte>, rest: seq<byte>)
    requires ParseVar(buf).Some?
    ensures ParseVar(buf + rest) == ParseVar(buf)
  {
    var all, n := buf + rest, |buf|;
    assert all[0] == buf[0];
    assert n >= 3 ==> all[1..3] == buf[1..3];
    assert n >= 5 ==> all[1..5] == buf[1..5];
    assert n >= 9 ==> all[1..9] == buf[1..9];
  }

  lemma DeclareExtends(buf: seq<byte>, rest: seq<byte>)
    requires Declare(buf) != Incomplete
    ensures Declare(buf + rest) == Declare(buf)
  {
    hide ParseVar;
    ParseExtends(buf, rest);
    var t := ParseVar(buf).value.1;
    assert (buf + rest)[t..] == buf[t..] + rest;
    ParseExtends(buf[t..], rest);
  }

  /** The header is part of the size it declares. */
  lemma DeclareWithin(buf: seq<byte>, k: nat)
    requires Declare(buf) == Total(k) && k <= |buf|
    ensures Declare(buf[..k]) == Total(k)
  {
    hide ParseVar;
    var t := ParseVar(buf).value.1;
    ParsePrefix(buf, k);
    assert buf[..k][t..] == buf[t..][..k - t];
    ParsePrefix(buf[t..], k - t);
  }

  /** A buffer yields `pkt` exactly when it starts with it, `pkt` is deliverable and the buffer not too long. */
  lemma SettleYields(buffer: seq<byte>, pkt: seq<byte>)
    ensures Settle(buffer).1 == Some(pkt) <==> Deliverable(pkt) && pkt <= buffer && |buffer| <= MAX_REASSEMBLY_SIZE
  {
    hide Declare;
    if Settle(buffer).1 == Some(pkt) {
      assert buffer[..|pkt|] == pkt;
      DeclareWithin(buffer, |pkt|);
    }
    if Deliverable(pkt) && pkt <= buffer {
      assert buffer == pkt + buffer[|pkt|..];
      DeclareExtends(pkt, buffer[|pkt|..]);
      assert buffer[..|pkt|] == pkt;
    }
  }

  /**
   An uncut packet passes a stream exactly when its first byte is not a first-frame header and the
   stream is idle, or what the stream still buffers happens to complete to the packet itself.
   */
  lemma UncutPasses(pkt: seq<byte>, maxPayload: nat, s: Stream)
    requires |pkt| <= maxPayload
    ensures FeedAll(s, FramesOf(pkt, maxPayload)).1 == [Some(pkt)] <==>
              && pkt != [] && pkt[0] < 0x80
              && (s.active ==>
                    && Deliverable(pkt) && pkt <= s.buffer + pkt[1..]
                    && |s.buffer| + |pkt| - 1 <= MAX_REASSEMBLY_SIZE)
  {
    hide Settle, Deliverable;
    FeedSingle(s, pkt);
    var o := Feed(s, pkt).1;
    assert [o][0] == o && [Some(pkt)][0] == Some(pkt);
    if pkt != [] {
      SettleYields(pkt[1..], pkt);
      SettleYields(s.buffer + pkt[1..], pkt);
    }
  }

  /** After a cut packet lost its last frame, an uncut packet is swallowed. */
  lemma UncutSwallowed()
    ensures var (s, o) := Feed(Stream([], false), [0x80, 0x06, 0x05]);
            && o == None && s == Stream([0x06, 0x05], true)
            && Deliverable([0x05, 0x00]) && FeedAll(s, FramesOf([0x05, 0x00], 20)).1 == [None]
  {
    var frame: seq<byte>, held: seq<byte>, pkt: seq<byte> := [0x80, 0x06, 0x05], [0x06, 0x05], [0x05, 0x00];
    assert frame[1..] == held && held[1..] == [0x05] && pkt[1..] == [0x00];
    assert Declare(held) == Total(7);
    DeclareExtends(held, pkt[1..]);
    FeedSingle(Stream(held, true), pkt);
  }

  lemma FeedSingle(s: Stream, frame: seq<byte>)
    ensures FeedAll(s, [frame]) == (Feed(s, frame).0, [Feed(s, frame).1])
  {
    assert [frame][1..] == [];
    var (s1, o) := Feed(s, frame);
    var none: seq<Option<seq<byte>>> := [];
    assert FeedAll(s1, []) == (s1, none) && [o] + none == [o];
  }

  /** The reassembler object. */
  class NdntsReassembler {
    var buffer: seq<byte>
    var active: bool

    constructor ()
      ensures buffer == [] && !active
    {
      buffer, active := [], false;
    }

    method FeedFrame(frame: seq<byte>) returns (r: Option<seq<byte>>)
      modifies this
      ensures (Stream(buffer, active), r) == Feed(old(Stream(buffer, active)), frame)
      ensures old(|buffer| <= MAX_REASSEMBLY_SIZE) ==> |buffer| <= MAX_REASSEMBLY_SIZE
    {
      hide DeclaredExceeds, Declare;
      if frame == [] {
        return None;
      }
      if frame[0] >= 0x80 {
        buffer := frame[1..];
        active := true;
      } else if active {
        buffer := buffer + frame[1..];
      } else {
        return Some(frame);
      }
      if |buffer| > MAX_REASSEMBLY_SIZE || DeclaredExceeds(buffer, MAX_REASSEMBLY_SIZE) {
        buffer, active := [], false;
        return None;
      }
      var end := PacketEnd(buffer);
      if end.None? {
        return None;
      }
      r := Some(buffer[..end.value]);
      buffer := buffer[end.value..];
      if buffer == [] {
        active := false;
      }
    }
  }

  // ---------------------------------------------------------------------------------------
  // Many senders
  // ---------------------------------------------------------------------------------------

  datatype Heard<K> = Heard(sender: K, frame: seq<byte>)

  function StreamOf<K>(m: map<K, Stream>, k: K): Stream {
    if k in m then m[k] else Stream([], false)
  }

  /** A new sender in a full table displaces `victim`. */
  function FeedFrom<K>(m: map<K, Stream>, h: Heard<K>, victim: K): (map<K, Stream>, Option<seq<byte>>) {
    var m1 := if h.sender !in m && |m| >= MAX_SENDERS then m - {victim} else m;
    var (s, o) := Feed(StreamOf(m1, h.sender), h.frame);
    (m1[h.sender := s], o)
  }

  /** The frames of one sender, in order. */
  function Only<K(==)>(hs: seq<Heard<K>>, k: K): seq<seq<byte>> {
    if hs == [] then []
    else (if hs[0].sender == k then [hs[0].frame] else []) + Only(hs[1..], k)
  }

  /** What a run returned for one sender's frames, in order. */
  function OutputsFor<K(==)>(hs: seq<Heard<K>>, outs: seq<Option<seq<byte>>>, k: K): seq<Option<seq<byte>>>
    requires |hs| == |outs|
  {
    if hs == [] then []
    else (if hs[0].sender == k then [outs[0]] else []) + OutputsFor(hs[1..], outs[1..], k)
  }

  ghost predicate IsRun<K(!new)>(ms: seq<map<K, Stream>>, outs: seq<Option<seq<byte>>>, hs: seq<Heard<K>>) {
    && |ms| == |hs| + 1 && |outs| == |hs|
    && forall i :: 0 <= i < |hs| ==> Fed(ms[i], hs[i], ms[i + 1], outs[i])
  }

  /** One frame fed, whichever stream the table would displace if it were full. */
  ghost predicate Fed<K(!new)>(m: map<K, Stream>, h: Heard<K>, m': map<K, Stream>, o: Option<seq<byte>>) {
    exists victim :: FeedFrom(m, h, victim) == (m', o)
  }

  function Senders<K(==)>(hs: seq<Heard<K>>): set<K> {
    set i | 0 <= i < |hs| :: hs[i].sender
  }

  /** One reassembler per sender, at most 256 of them. */
  class PerSenderReassembler<K(==, !new)> {
    var streams: map<K, Stream>

    constructor ()
      ensures streams == map[]
    {
      streams := map[];
    }

    method FeedFrame(sender: K, frame: seq<byte>) returns (r: Option<seq<byte>>)
      requires |streams| <= MAX_SENDERS
      modifies this
      ensures Fed(old(streams), Heard(sender, frame), streams, r) && |streams| <= MAX_SENDERS
    {
      hide Feed;
      ghost var m, victim := streams, sender;
      if sender !in streams && |streams| >= MAX_SENDERS {
        assert streams.Keys != {};
        var k :| k in streams.Keys;
        streams := streams - {k};
        victim := k;
        assert streams.Keys == m.Keys - {k};
      }
      var fed := Feed(StreamOf(streams, sender), frame);
      assert streams[sender := fed.0].Keys == streams.Keys + {sender};
      streams := streams[sender := fed.0];
      r := fed.1;
      assert FeedFrom(m, Heard(sender, frame), victim) == (streams, r);
    }

    /** Forgets a sender's partial packet. */
    method Forget(sender: K)
      modifies this
      ensures streams == old(streams) - {sender}
    {
      streams := streams - {sender};
    }
  }

  lemma FeedOne<K(!new)>(m: map<K, Stream>, h: Heard<K>, m': map<K, Stream>, o: Option<seq<byte>>, all: set<K>, k: K)
    requires m.Keys <= all && h.sender in all && |all| <= MAX_SENDERS
    requires Fed(m, h, m', o)
    ensures m'.Keys <= all
    ensures if h.sender == k then (StreamOf(m', k), o) == Feed(StreamOf(m, k), h.frame)
            else StreamOf(m', k) == StreamOf(m, k)
  {
    hide Feed;
    if h.sender !in m {
      assert h.sender in all - m.Keys;
      assert m.Keys <= all - {h.sender};
      SubsetSize(m.Keys, all - {h.sender});
      assert |m| == |m.Keys|;
    }
  }

  /**
   Isolation: with at most 256 senders, however their frames interleave, each sender gets exactly
   the outputs its own frames alone would give.
   */
  lemma {:induction false} Isolation<K(!new)>(
    ms: seq<map<K, Stream>>, outs: seq<Option<seq<byte>>>, hs: seq<Heard<K>>, all: set<K>, k: K)
    requires IsRun(ms, outs, hs) && ms[0].Keys + Senders(hs) <= all && |all| <= MAX_SENDERS
    ensures FeedAll(StreamOf(ms[0], k), Only(hs, k)) == (StreamOf(ms[|hs|], k), OutputsFor(hs, outs, k))
    decreases |hs|
  {
    if hs != [] {
      hide Fed, Feed;
      var h := hs[0];
      assert h.sender in Senders(hs);
      FeedOne(ms[0], h, ms[1], outs[0], all, k);
      var ms', outs', hs' := ms[1..], outs[1..], hs[1..];
      assert Senders(hs') <= Senders(hs);
      assert IsRun(ms', outs', hs') by {
        forall i | 0 <= i < |hs'|
          ensures Fed(ms'[i], hs'[i], ms'[i + 1], outs'[i])
        {
          assert Fed(ms[i + 1], hs[i + 1], ms[i + 1 + 1], outs[i + 1]);
        }
      }
      Isolation(ms', outs', hs', all, k);
      if h.sender == k {
        assert ([h.frame] + Only(hs', k))[1..] == Only(hs', k);
      } else {
        assert [] + Only(hs', k) == Only(hs', k);
        assert [] + OutputsFor(hs', outs', k) == OutputsFor(hs', outs', k);
      }
    }
  }
}
