/**
 From the sender's frames to the receiver's packet: raw frames as they come off a link, extracted
 and reassembled, whatever their order, repetitions and the traffic between them.
 */
module ReassemblyWire {
  import opened Bytes
  import opened Fragment
  import NameUri
  import opened Options
  import opened Reassembly
  import opened ReassemblyRuns
  import opened Tlv

  /** A frame from a link-layer sender, or a purge. */
  datatype Wire = Raw(now: nat, endpoint: nat, raw: seq<byte>, victim: Key) | Tick(now: nat)

  /** `try_collect_fragment`: what a frame means to the buffer. */
  function ToEvent(w: Wire): Event {
    match w
    case Tick(now) => Sweep(now)
    case Raw(now, endpoint, raw, victim) =>
      match Collected(raw, endpoint, now)
      case None => Other
      case Some(c) => Arrive(c, victim)
  }

  function ToEvents(ws: seq<Wire>): (evs: seq<Event>)
    ensures |evs| == |ws| && forall i :: 0 <= i < |ws| ==> evs[i] == ToEvent(ws[i])
  {
    if ws == [] then [] else ToEvents(ws[..|ws| - 1]) + [ToEvent(ws[|ws| - 1])]
  }

  /** A packet as one endpoint sends it. */
  datatype Sending = Sending(packet: seq<byte>, cap: nat, baseSeq: nat, endpoint: nat) {
    function Pieces(): seq<seq<byte>> { if cap == 0 then [] else Chunks(packet, cap) }
    function Group(): Key { (endpoint, baseSeq) }

    /** Cut into several fragments, few enough for the receiver. */
    predicate Sendable() {
      baseSeq < U64 && 2 <= |Pieces()| <= MAX_FRAGMENTS
    }
  }

  /** An LpPacket for this piece, with whatever other fields. */
  ghost predicate Carries(raw: seq<byte>, piece: Piece) {
    exists items :: FitsLp(items) && raw == LpOf(items) && PieceOf(items) == Some(piece)
  }

  /** `w` is frame `i` of the packet; sequence numbers are 64-bit sums. */
  ghost predicate IsFrame(w: Wire, p: Sending, i: nat) {
    && w.Raw? && w.endpoint == p.endpoint && i < |p.Pieces()|
    && Carries(w.raw, Piece((p.baseSeq + i) % U64, i, |p.Pieces()|, p.Pieces()[i]))
  }

  /** The frames of `fragment_packet`. */
  lemma PlainFrame(w: Wire, p: Sending, mtu: nat, i: nat)
    requires p.Sendable() && p.cap == PayloadCap(mtu) && |p.packet| + FRAG_OVERHEAD < U64
    requires w.Raw? && w.endpoint == p.endpoint && i < |p.Pieces()|
    requires w.raw == FragmentAt(p.packet, mtu, p.baseSeq, i)
    ensures IsFrame(w, p, i)
  {
    hide Chunks, LpOf, PieceOf, FitsLp, BE, DecodeU64;
    var chunks, s := p.Pieces(), (p.baseSeq + i) % U64;
    ChunksShort(p.packet, p.cap);
    PlainItems(s, i, |chunks|, chunks[i]);
    DecodedU64(s);
    DecodedU64(i);
    DecodedU64(|chunks|);
    FieldsSay(BE(s, 8), BE(i, 8), BE(|chunks|, 8), [], chunks[i]);
  }

  const LP_ACK: nat := 0x0344
  const LP_TX_SEQUENCE: nat := 0x0348

  function AckItems(acks: seq<nat>): (items: seq<Item>)
    ensures |items| == |acks| && forall i :: 0 <= i < |items| ==> items[i] == (LP_ACK, NameUri.EncodeInteger(acks[i]))
  {
    seq(|acks|, i requires 0 <= i < |acks| => (LP_ACK, NameUri.EncodeInteger(acks[i])))
  }

  /** `encode_lp_reliable` for a fragment: the numbers, the acknowledgements, the link sequence number, the chunk. */
  function ReliableItems(sequence: nat, index: nat, count: nat, acks: seq<nat>, tx: nat, chunk: seq<byte>): seq<Item> {
    FieldItems(BE(sequence, 8), NameUri.EncodeInteger(index), NameUri.EncodeInteger(count),
               AckItems(acks) + [(LP_TX_SEQUENCE, NameUri.EncodeInteger(tx))], chunk)
  }

  /** The frames of the reliable sender, which carry acknowledgements and a link sequence number. */
  lemma ReliableFrame(w: Wire, p: Sending, acks: seq<nat>, tx: nat, i: nat)
    requires p.Sendable() && w.Raw? && w.endpoint == p.endpoint && i < |p.Pieces()|
    requires var items := ReliableItems((p.baseSeq + i) % U64, i, |p.Pieces()|, acks, tx, p.Pieces()[i]);
             FitsLp(items) && w.raw == LpOf(items)
    ensures IsFrame(w, p, i)
  {
    hide Chunks, LpOf, PieceOf, FitsLp, BE, DecodeU64, NameUri.EncodeInteger;
    var chunks, s := p.Pieces(), (p.baseSeq + i) % U64;
    var others := AckItems(acks) + [(LP_TX_SEQUENCE, NameUri.EncodeInteger(tx))];
    DecodedU64(s);
    ShortDecoded(i);
    ShortDecoded(|chunks|);
    assert forall x :: 0 <= x < |others| ==> OtherField(others[x]);
    FieldsSay(BE(s, 8), NameUri.EncodeInteger(i), NameUri.EncodeInteger(|chunks|), others, chunks[i]);
  }

  lemma ShortDecoded(n: nat)
    requires n < U64
    ensures DecodeU64(NameUri.EncodeInteger(n)) == n
  {
    hide NameUri.EncodeInteger;
    NameUri.IntegerRoundTrip(n);
  }

  ghost predicate IsAnyFrame(w: Wire, p: Sending) {
    exists i :: 0 <= i < |p.Pieces()| && IsFrame(w, p, i)
  }

  ghost predicate FrameSeen(ws: seq<Wire>, p: Sending, i: nat) {
    exists x :: 0 <= x < |ws| && IsFrame(ws[x], p, i)
  }

  ghost predicate AllSeen(ws: seq<Wire>, p: Sending) {
    forall i :: 0 <= i < |p.Pieces()| ==> FrameSeen(ws, p, i)
  }

  /**
   The sender uses the sequence range for this packet only, and no other frame or purge removes
   the group.
   */
  ghost predicate Honest(states: seq<State>, ws: seq<Wire>, p: Sending) {
    && |states| == |ws| + 1
    && (forall x :: 0 <= x < |ws| && Own(ToEvent(ws[x]), p.Group()) ==> IsAnyFrame(ws[x], p))
    && (forall x :: 0 <= x < |ws| && !Own(ToEvent(ws[x]), p.Group()) && p.Group() in states[x].pending ==>
          p.Group() in states[x + 1].pending)
  }

  /** A frame of the packet is the call for its piece, unless its sequence number wrapped. */
  lemma {:induction false} FrameIsCall(w: Wire, p: Sending, i: nat)
    requires p.Sendable() && IsFrame(w, p, i)
    ensures ToEvent(w) ==
            if p.baseSeq + i < U64
            then Arrive(Call(w.now, p.Group(), i, |p.Pieces()|, p.Pieces()[i]), w.victim)
            else Other
  {
    hide PieceIn, PieceOf, LpOf, FitsLp, Chunks;
    var piece := Piece((p.baseSeq + i) % U64, i, |p.Pieces()|, p.Pieces()[i]);
    var items :| FitsLp(items) && w.raw == LpOf(items) && PieceOf(items) == Some(piece);
    Whole(items);
  }

  lemma {:induction false} HonestUndisturbed(states: seq<State>, ws: seq<Wire>, p: Sending)
    requires p.Sendable() && Honest(states, ws, p)
    ensures Undisturbed(states, ToEvents(ws), p.Group(), p.Pieces())
  {
    hide ToEvent, ToEvents, IsFrame, Chunks;
    var evs := ToEvents(ws);
    forall x | 0 <= x < |evs| && Own(evs[x], p.Group())
      ensures var c := evs[x].call; c.count == |p.Pieces()| && c.index < |p.Pieces()| && c.bytes == p.Pieces()[c.index]
    {
      var i :| 0 <= i < |p.Pieces()| && IsFrame(ws[x], p, i);
      FrameIsCall(ws[x], p, i);
    }
  }

  /** The indices collected are those of the frames seen whose sequence number did not wrap. */
  lemma {:induction false} SeenFrames(states: seq<State>, ws: seq<Wire>, p: Sending, j: nat, i: nat)
    requires p.Sendable() && Honest(states, ws, p) && j <= |ws|
    ensures i in Seen(ToEvents(ws), p.Group(), j) <==>
              i < |p.Pieces()| && p.baseSeq + i < U64 && FrameSeen(ws[..j], p, i)
  {
    hide ToEvent, ToEvents, IsFrame, Chunks;
    var evs := ToEvents(ws);
    if i in Seen(evs, p.Group(), j) {
      var x :| 0 <= x < j && Own(evs[x], p.Group()) && evs[x].call.index == i;
      var i' :| 0 <= i' < |p.Pieces()| && IsFrame(ws[x], p, i');
      FrameIsCall(ws[x], p, i');
      assert ws[..j][x] == ws[x];
    }
    if i < |p.Pieces()| && p.baseSeq + i < U64 && FrameSeen(ws[..j], p, i) {
      var x :| 0 <= x < j && IsFrame(ws[..j][x], p, i);
      FrameIsCall(ws[x], p, i);
    }
  }

  lemma {:induction false} CompleteIff(states: seq<State>, ws: seq<Wire>, p: Sending, j: nat)
    requires p.Sendable() && Honest(states, ws, p) && j <= |ws|
    ensures Seen(ToEvents(ws), p.Group(), j) == Indices(|p.Pieces()|) <==>
              p.baseSeq + |p.Pieces()| <= U64 && AllSeen(ws[..j], p)
  {
    hide ToEvents, FrameSeen, Chunks, Seen;
    forall i: nat
      ensures i in Seen(ToEvents(ws), p.Group(), j) <==>
                i < |p.Pieces()| && p.baseSeq + i < U64 && FrameSeen(ws[..j], p, i)
    {
      SeenFrames(states, ws, p, j, i);
    }
    var n := |p.Pieces()|;
    if Seen(ToEvents(ws), p.Group(), j) == Indices(n) {
      assert n - 1 in Indices(n);
      assert forall i :: 0 <= i < n ==> i in Indices(n);
    }
  }

  lemma FrameIsOwn(w: Wire, p: Sending)
    requires p.Sendable() && p.baseSeq + |p.Pieces()| <= U64 && IsAnyFrame(w, p)
    ensures Own(ToEvent(w), p.Group())
  {
    hide ToEvent, IsFrame, Chunks;
    var i :| 0 <= i < |p.Pieces()| && IsFrame(w, p, i);
    FrameIsCall(w, p, i);
  }

  lemma {:induction false} LengthOfRun(states: seq<State>, outs: seq<Option<seq<byte>>>, evs: seq<Event>, timeout: nat)
    requires IsRun(states, outs, evs, timeout)
    ensures |states| == |evs| + 1 && |outs| == |evs|
  {
  }

  /**
   The link end to end: from any buffer without the group, every frame of the packet gives
   nothing until the last missing one, and that one gives exactly the packet, provided the
   sequence numbers of the packet do not wrap.
   */
  lemma {:induction false} LinkReassembles(
    states: seq<State>, outs: seq<Option<seq<byte>>>, ws: seq<Wire>, timeout: nat, p: Sending)
    requires p.Sendable() && p.baseSeq + |p.Pieces()| <= U64
    requires IsRun(states, outs, ToEvents(ws), timeout) && Honest(states, ws, p) && p.Group() !in states[0].pending
    requires ws != [] && IsAnyFrame(ws[|ws| - 1], p) && !AllSeen(ws[..|ws| - 1], p)
    ensures forall x :: 0 <= x < |ws| - 1 && IsAnyFrame(ws[x], p) ==> outs[x] == None
    ensures outs[|ws| - 1] == if AllSeen(ws, p) then Some(p.packet) else None
  {
    hide ToEvent, ToEvents, IsAnyFrame, Chunks, Step, Seen, Indices, AllSeen, Undisturbed, IsRun, Own;
    var evs := ToEvents(ws);
    HonestUndisturbed(states, ws, p);
    CompleteIff(states, ws, p, |ws| - 1);
    CompleteIff(states, ws, p, |ws|);
    assert ws[..|ws|] == ws;
    forall x | 0 <= x < |ws| && IsAnyFrame(ws[x], p)
      ensures Own(evs[x], p.Group())
    {
      FrameIsOwn(ws[x], p);
    }
    LengthOfRun(states, outs, evs, timeout);
    ReassemblyCorrect(states, outs, evs, timeout, p.Group(), p.packet, p.cap);
  }

  lemma FrameOwnOrOther(w: Wire, p: Sending)
    requires p.Sendable() && IsAnyFrame(w, p)
    ensures Own(ToEvent(w), p.Group()) || ToEvent(w) == Other
  {
    hide ToEvent, IsFrame, Chunks;
    var i :| 0 <= i < |p.Pieces()| && IsFrame(w, p, i);
    FrameIsCall(w, p, i);
  }

  /** A packet whose sequence numbers wrap is never reassembled. */
  lemma {:induction false} WrappedNeverReassembles(
    states: seq<State>, outs: seq<Option<seq<byte>>>, ws: seq<Wire>, timeout: nat, p: Sending)
    requires p.Sendable() && p.baseSeq + |p.Pieces()| > U64
    requires IsRun(states, outs, ToEvents(ws), timeout) && Honest(states, ws, p) && p.Group() !in states[0].pending
    ensures forall x :: 0 <= x < |ws| && IsAnyFrame(ws[x], p) ==> outs[x] == None
  {
    hide ToEvent, ToEvents, IsAnyFrame, Chunks, Step, Seen, Indices, AllSeen, Undisturbed, IsRun, Own;
    var evs := ToEvents(ws);
    HonestUndisturbed(states, ws, p);
    CompleteIff(states, ws, p, |ws|);
    LengthOfRun(states, outs, evs, timeout);
    GroupFollowed(states, outs, evs, timeout, p.Group(), p.Pieces(), |ws|);
    forall x | 0 <= x < |ws| && IsAnyFrame(ws[x], p)
      ensures outs[x] == None
    {
      FrameOwnOrOther(ws[x], p);
      OtherGivesNothing(states, outs, evs, timeout, x);
    }
  }

  lemma OtherGivesNothing(states: seq<State>, outs: seq<Option<seq<byte>>>, evs: seq<Event>, timeout: nat, x: nat)
    requires IsRun(states, outs, evs, timeout) && x < |evs|
    ensures evs[x] == Other ==> outs[x] == None
  {
    hide Process, Purge;
    assert Step(states[x], evs[x], timeout) == (states[x + 1], outs[x]);
  }
}
