/**
 NDNLPv2 fragmentation: cutting a packet into LpPackets, the size bound every fragment keeps, and
 the receiver's field extraction that inverts the encoding.
 */
module Fragment {
  import opened Bytes
  import opened Tlv
  import opened Options

  const FRAG_OVERHEAD: nat := 50
  const LP_PACKET: nat := 0x64
  const LP_FRAGMENT: nat := 0x50
  const LP_SEQUENCE: nat := 0x51
  const LP_FRAG_INDEX: nat := 0x52
  const LP_FRAG_COUNT: nat := 0x53

  // ---------------------------------------------------------------------------------------
  // Cutting
  // ---------------------------------------------------------------------------------------

  function PayloadCap(mtu: nat): (cap: nat)
    ensures cap >= 1
  {
    if mtu > FRAG_OVERHEAD then mtu - FRAG_OVERHEAD else 1
  }

  function Chunks(packet: seq<byte>, cap: nat): seq<seq<byte>>
    requires cap > 0
  {
    if packet == [] then []
    else if |packet| <= cap then [packet]
    else [packet[..cap]] + Chunks(packet[cap..], cap)
  }

  function Join(parts: seq<seq<byte>>): seq<byte> {
    if parts == [] then [] else parts[0] + Join(parts[1..])
  }

  /** The pieces join back to the packet, none is empty, and all but the last are full. */
  lemma {:induction false} ChunksJoin(packet: seq<byte>, cap: nat)
    requires cap > 0
    ensures Join(Chunks(packet, cap)) == packet
    ensures forall i :: 0 <= i < |Chunks(packet, cap)| ==> 1 <= |Chunks(packet, cap)[i]| <= cap
    ensures forall i :: 0 <= i < |Chunks(packet, cap)| - 1 ==> |Chunks(packet, cap)[i]| == cap
  {
    if |packet| > cap {
      ChunksJoin(packet[cap..], cap);
      assert packet == packet[..cap] + packet[cap..];
      var rest := Chunks(packet[cap..], cap);
      assert rest != [];
      assert ([packet[..cap]] + rest)[1..] == rest;
    } else if packet != [] {
      assert [packet][1..] == [];
      assert packet + Join([]) == packet;
    }
  }

  /** `n.div_ceil(cap)`. */
  function DivCeil(n: nat, cap: nat): nat
    requires cap > 0
  {
    (n + cap - 1) / cap
  }

  /** Byte offset of chunk `i`. */
  function Offset(i: nat, cap: nat): nat {
    i * cap
  }

  lemma {:induction false} ChunkCount(packet: seq<byte>, cap: nat)
    requires cap > 0
    ensures |Chunks(packet, cap)| == DivCeil(|packet|, cap)
  {
    var n := |packet| + cap - 1;
    if packet == [] {
      DivUnique(n, cap, 0, n);
    } else if |packet| <= cap {
      DivUnique(n, cap, 1, n - cap);
    } else {
      ChunkCount(packet[cap..], cap);
      var q := (n - cap) / cap;
      Divided(n - cap, cap);
      Distribute(q + 1, 1, cap);
      DivUnique(n, cap, q + 1, (n - cap) % cap);
    }
  }

  // ---------------------------------------------------------------------------------------
  // Encoding
  // ---------------------------------------------------------------------------------------

  function Fields(sequence: nat, index: nat, count: nat, chunk: seq<byte>): seq<byte> {
    Element(LP_SEQUENCE, BE(sequence, 8)) + Element(LP_FRAG_INDEX, BE(index, 8))
    + Element(LP_FRAG_COUNT, BE(count, 8)) + Element(LP_FRAGMENT, chunk)
  }

  function LpPacket(sequence: nat, index: nat, count: nat, chunk: seq<byte>): seq<byte> {
    Element(LP_PACKET, Fields(sequence, index, count, chunk))
  }

  /** Fragment `i` of a packet; the sequence number is a 64-bit sum. */
  function FragmentAt(packet: seq<byte>, mtu: nat, baseSeq: nat, i: nat): seq<byte>
    requires i < |Chunks(packet, PayloadCap(mtu))|
  {
    var chunks := Chunks(packet, PayloadCap(mtu));
    LpPacket((baseSeq + i) % U64, i, |chunks|, chunks[i])
  }

  method FragmentPacket(packet: seq<byte>, mtu: nat, baseSeq: nat) returns (fragments: seq<seq<byte>>)
    ensures |fragments| == |Chunks(packet, PayloadCap(mtu))|
    ensures forall i :: 0 <= i < |fragments| ==> fragments[i] == FragmentAt(packet, mtu, baseSeq, i)
  {
    hide Chunks, LpPacket, Reached, DivCeil, Offset;
    var cap := if mtu > FRAG_OVERHEAD then mtu - FRAG_OVERHEAD else 1;
    var count := DivCeil(|packet|, cap);
    ghost var chunks := Chunks(packet, cap);
    ChunkCount(packet, cap);
    fragments := [];
    FirstChunk(packet, cap);
    for i := 0 to count
      invariant |fragments| == i
      invariant i < count ==> Reached(packet, chunks, i, cap)
      invariant forall k :: 0 <= k < i ==> fragments[k] == FragmentAt(packet, mtu, baseSeq, k)
    {
      NextChunk(packet, chunks, i, cap);
      var start := Offset(i, cap);
      var end := if start + cap < |packet| then start + cap else |packet|;
      var chunk := packet[start..end];
      fragments := fragments + [LpPacket((baseSeq + i) % U64, i, count, chunk)];
    }
  }

  /** The chunks from `i` on are those of the packet from `i * cap` on. */
  ghost predicate Reached(packet: seq<byte>, chunks: seq<seq<byte>>, i: nat, cap: nat)
    requires cap > 0
  {
    i < |chunks| && Offset(i, cap) < |packet| && chunks[i..] == Chunks(packet[Offset(i, cap)..], cap)
  }

  lemma FirstChunk(packet: seq<byte>, cap: nat)
    requires cap > 0
    ensures Chunks(packet, cap) != [] ==> Reached(packet, Chunks(packet, cap), 0, cap)
  {
    assert packet[0..] == packet && Chunks(packet, cap)[0..] == Chunks(packet, cap);
  }

  lemma NextChunk(packet: seq<byte>, chunks: seq<seq<byte>>, i: nat, cap: nat)
    requires cap > 0 && Reached(packet, chunks, i, cap)
    ensures Offset(i, cap) < |packet|
    ensures var start := Offset(i, cap);
            chunks[i] == packet[start..if start + cap < |packet| then start + cap else |packet|]
    ensures i + 1 < |chunks| ==> Reached(packet, chunks, i + 1, cap)
  {
    Distribute(i + 1, 1, cap);
    var start := Offset(i, cap);
    var rest := packet[start..];
    assert chunks[i] == chunks[i..][0];
    if |rest| > cap {
      assert rest[cap..] == packet[start + cap..];
      assert chunks[i + 1..] == chunks[i..][1..];
    } else {
      assert chunks[i..] == [rest];
    }
  }

  /** Chunk `i` is the slice of at most `cap` bytes at `i * cap`; the last one ends the packet. */
  lemma {:induction false} ChunkAt(packet: seq<byte>, cap: nat, i: nat)
    requires cap > 0 && i < |Chunks(packet, cap)|
    ensures Reached(packet, Chunks(packet, cap), i, cap)
    ensures var start := Offset(i, cap);
            start < |packet| &&
            Chunks(packet, cap)[i] == packet[start..if start + cap < |packet| then start + cap else |packet|]
    ensures i == |Chunks(packet, cap)| - 1 <==> Offset(i, cap) + cap >= |packet|
    decreases i
  {
    hide Offset;
    var chunks := Chunks(packet, cap);
    if i == 0 {
      FirstChunk(packet, cap);
    } else {
      ChunkAt(packet, cap, i - 1);
      NextChunk(packet, chunks, i - 1, cap);
    }
    NextChunk(packet, chunks, i, cap);
    var rest := packet[Offset(i, cap)..];
    assert |Chunks(rest, cap)| == |chunks| - i;
    if |rest| > cap {
      assert Chunks(rest[cap..], cap) != [];
    }
  }

  // ---------------------------------------------------------------------------------------
  // Size bound
  // ---------------------------------------------------------------------------------------

  lemma FragmentSize(sequence: nat, index: nat, count: nat, chunk: seq<byte>)
    requires |chunk| < U64
    ensures var n := |chunk|; var inner := 31 + VarSize(n) + n;
            |LpPacket(sequence, index, count, chunk)| == 1 + VarSize(inner) + inner
    ensures |LpPacket(sequence, index, count, chunk)| <= |chunk| + FRAG_OVERHEAD
    ensures |LpPacket(sequence, index, count, chunk)| == |chunk| + FRAG_OVERHEAD <==> |chunk| >= U32
  {
  }

  /**
   Every fragment fits the MTU exactly when the MTU is at least 35 bytes (or there is nothing to
   send); below that each one-byte fragment is 35 bytes long.
   */
  lemma FragmentsFit(packet: seq<byte>, mtu: nat, baseSeq: nat)
    requires |packet| < U64
    ensures (forall i :: 0 <= i < |Chunks(packet, PayloadCap(mtu))| ==> |FragmentAt(packet, mtu, baseSeq, i)| <= mtu)
            <==> mtu >= 35 || packet == []
  {
    hide LpPacket;
    var cap := PayloadCap(mtu);
    var chunks := Chunks(packet, cap);
    ChunksJoin(packet, cap);
    ChunksShort(packet, cap);
    if mtu >= 35 {
      forall i | 0 <= i < |chunks|
        ensures |FragmentAt(packet, mtu, baseSeq, i)| <= mtu
      {
        FragmentSize((baseSeq + i) % U64, i, |chunks|, chunks[i]);
      }
    } else if packet != [] {
      assert chunks != [];
      FragmentSize(baseSeq % U64, 0, |chunks|, chunks[0]);
      assert |FragmentAt(packet, mtu, baseSeq, 0)| == 35;
    }
  }

  lemma {:induction false} ChunksShort(packet: seq<byte>, cap: nat)
    requires cap > 0
    ensures forall i :: 0 <= i < |Chunks(packet, cap)| ==> |Chunks(packet, cap)[i]| <= |packet|
  {
    if |packet| > cap {
      ChunksShort(packet[cap..], cap);
    }
  }

  // ---------------------------------------------------------------------------------------
  // Extraction at the receiver
  // ---------------------------------------------------------------------------------------

  datatype Header = Header(sequence: Option<nat>, index: Option<nat>, count: Option<nat>, start: nat, end: nat)

  /** A big-endian fold in 64-bit arithmetic. */
  function DecodeU64(v: seq<byte>): nat {
    FromBE(v) % U64
  }

  /** Scans the elements of an LpPacket from `pos`; `None` on malformed input or a count below two. */
  function Scan(inner: seq<byte>, pos: nat, headerLen: nat, h: Header): Option<Header>
    requires pos <= |inner|
    decreases |inner| - pos
  {
    if pos >= |inner| then Some(h)
    else
      match ReadVar(inner[pos..])
      case None => None
      case Some((t, tn)) =>
        match ReadVar(inner[pos + tn..])
        case None => None
        case Some((l, ln)) =>
          var from := pos + tn + ln;
          var end := from + l;
          if end > |inner| then None
          else
            var v := inner[from..end];
            if t == LP_FRAG_COUNT && DecodeU64(v) <= 1 then None
            else Scan(inner, end, headerLen, Note(h, t, v, headerLen + from, headerLen + end))
  }

  function Note(h: Header, t: nat, v: seq<byte>, start: nat, end: nat): Header {
    if t == LP_SEQUENCE then h.(sequence := Some(DecodeU64(v)))
    else if t == LP_FRAG_INDEX then h.(index := Some(DecodeU64(v)))
    else if t == LP_FRAG_COUNT then h.(count := Some(DecodeU64(v)))
    else if t == LP_FRAGMENT then h.(start := start, end := end)
    else h
  }

  function Extract(raw: seq<byte>): Option<Header> {
    if raw == [] || raw[0] != LP_PACKET then None
    else
      match ReadVar(raw)
      case None => None
      case Some((_, tn)) =>
        match ReadVar(raw[tn..])
        case None => None
        case Some((len, ln)) =>
          var hl := tn + ln;
          if hl + len > |raw| then None
          else
            match Scan(raw[hl..hl + len], 0, hl, Header(None, None, None, 0, 0))
            case None => None
            case Some(h) => if h.sequence.None? || h.index.None? || h.count.None? then None else Some(h)
  }

  /** The receive loop over an LpPacket's elements. */
  method ExtractFragment(raw: seq<byte>) returns (r: Option<Header>)
    ensures r == Extract(raw)
  {
    hide ReadVar, DecodeU64;
    if raw == [] || raw[0] != LP_PACKET {
      return None;
    }
    var t0 := ReadVar(raw);
    if t0.None? { return None; }
    var l0 := ReadVar(raw[t0.value.1..]);
    if l0.None? { return None; }
    var headerLen := t0.value.1 + l0.value.1;
    if headerLen + l0.value.0 > |raw| { return None; }
    var inner := raw[headerLen..headerLen + l0.value.0];
    var h := Header(None, None, None, 0, 0);
    var pos := 0;
    while pos < |inner|
      invariant 0 <= pos <= |inner|
      invariant Scan(inner, pos, headerLen, h) == Scan(inner, 0, headerLen, Header(None, None, None, 0, 0))
    {
      var t := ReadVar(inner[pos..]);
      if t.None? { return None; }
      var l := ReadVar(inner[pos + t.value.1..]);
      if l.None? { return None; }
      var from := pos + t.value.1 + l.value.1;
      var end := from + l.value.0;
      if end > |inner| { return None; }
      var v := inner[from..end];
      if t.value.0 == LP_FRAG_COUNT && DecodeU64(v) <= 1 { return None; }
      h := Note(h, t.value.0, v, headerLen + from, headerLen + end);
      pos := end;
    }
    if h.sequence.None? || h.index.None? || h.count.None? { return None; }
    return Some(h);
  }

  /** Scanning over one written element; a count below two ends it. */
  lemma ScanElement(inner: seq<byte>, pos: nat, t: nat, v: seq<byte>, rest: seq<byte>, hl: nat, h: Header)
    requires pos <= |inner| && inner[pos..] == Element(t, v) + rest && t < U64 && |v| < U64
    ensures var end := pos + |Element(t, v)|;
            && end <= |inner| && inner[end..] == rest
            && Scan(inner, pos, hl, h) ==
               (if t == LP_FRAG_COUNT && DecodeU64(v) <= 1 then None
                else Scan(inner, end, hl, Note(h, t, v, hl + end - |v|, hl + end)))
            && inner[end - |v|..end] == v
  {
    hide VarNum, ReadVar, DecodeU64, Note;
    var tn, ln := VarSize(t), VarSize(|v|);
    var tail := VarNum(|v|) + (v + rest);
    assert Element(t, v) + rest == VarNum(t) + tail;
    ReadVarNum(t, tail);
    ReadVarNum(|v|, v + rest);
    Split2(VarNum(t), tail);
    Split2(VarNum(|v|), v + rest);
    ScanSlices(inner, pos, tn, ln, v, rest);
  }

  lemma ScanSlices(inner: seq<byte>, pos: nat, tn: nat, ln: nat, v: seq<byte>, rest: seq<byte>)
    requires pos <= |inner| && tn + ln <= |inner[pos..]| && inner[pos..][tn..][ln..] == v + rest
    ensures var from := pos + tn + ln;
            && inner[pos..][tn..] == inner[pos + tn..] && from + |v| <= |inner|
            && inner[from..from + |v|] == v && inner[from + |v|..] == rest
  {
    DropDrop(inner, pos, tn);
    DropDrop(inner, pos + tn, ln);
    var from := pos + tn + ln;
    DropDrop(inner, from, |v|);
    Split2(v, rest);
    assert inner[from..from + |v|] == inner[from..][..|v|];
  }

  lemma DropDrop<T>(x: seq<T>, a: nat, b: nat)
    requires a + b <= |x|
    ensures x[a..][b..] == x[a + b..]
  {
  }

  lemma DecodedU64(n: nat)
    requires n < U64
    ensures DecodeU64(BE(n, 8)) == n
  {
    PowValues();
    BERoundTrip(n, 8);
  }

  // ---------------------------------------------------------------------------------------
  // What an LpPacket's fields say
  // ---------------------------------------------------------------------------------------

  datatype Piece = Piece(sequence: nat, index: nat, count: nat, bytes: seq<byte>)

  function LpOf(items: seq<Item>): seq<byte> {
    Element(LP_PACKET, EncodeItems(items))
  }

  /** What extraction finds in a frame. */
  function PieceIn(raw: seq<byte>): Option<Piece> {
    match Extract(raw)
    case None => None
    case Some(h) =>
      if h.sequence.None? || h.index.None? || h.count.None? || !(h.start <= h.end <= |raw|) then None
      else Some(Piece(h.sequence.value, h.index.value, h.count.value, raw[h.start..h.end]))
  }

  /** Value of the last item of type `t`. */
  function Last(items: seq<Item>, t: nat): Option<seq<byte>> {
    if items == [] then None
    else if items[|items| - 1].0 == t then Some(items[|items| - 1].1)
    else Last(items[..|items| - 1], t)
  }

  predicate Single(item: Item) {
    item.0 == LP_FRAG_COUNT && DecodeU64(item.1) <= 1
  }

  predicate AnySingle(items: seq<Item>) {
    exists i :: 0 <= i < |items| && Single(items[i])
  }

  /** Sequence, index and count must be there and no count below two; of several the last one counts. */
  function PieceOf(items: seq<Item>): Option<Piece> {
    var s, i, c := Last(items, LP_SEQUENCE), Last(items, LP_FRAG_INDEX), Last(items, LP_FRAG_COUNT);
    if AnySingle(items) || s.None? || i.None? || c.None? then None
    else
      var f := Last(items, LP_FRAGMENT);
      Some(Piece(DecodeU64(s.value), DecodeU64(i.value), DecodeU64(c.value), if f.Some? then f.value else []))
  }

  /** Types, values and the whole have 64-bit sizes. */
  predicate FitsLp(items: seq<Item>) {
    |EncodeItems(items)| < U64 && forall i :: 0 <= i < |items| ==> items[i].0 < U64 && |items[i].1| < U64
  }

  function Number(v: Option<seq<byte>>): Option<nat> {
    if v.Some? then Some(DecodeU64(v.value)) else None
  }

  /** The header records the items scanned so far. */
  ghost predicate Agrees(inner: seq<byte>, hl: nat, h: Header, done: seq<Item>) {
    && h.sequence == Number(Last(done, LP_SEQUENCE))
    && h.index == Number(Last(done, LP_FRAG_INDEX))
    && h.count == Number(Last(done, LP_FRAG_COUNT))
    && match Last(done, LP_FRAGMENT)
       case None => h.start == h.end == 0
       case Some(v) => hl <= h.start <= h.end <= hl + |inner| && inner[h.start - hl..h.end - hl] == v
  }

  lemma NoteAgrees(inner: seq<byte>, hl: nat, h: Header, done: seq<Item>, item: Item, end: nat)
    requires Agrees(inner, hl, h, done)
    requires |item.1| <= end <= |inner| && inner[end - |item.1|..end] == item.1
    ensures Agrees(inner, hl, Note(h, item.0, item.1, hl + end - |item.1|, hl + end), done + [item])
  {
    hide DecodeU64;
    assert (done + [item])[..|done|] == done;
  }

  lemma {:induction false} ScanItems(inner: seq<byte>, done: seq<Item>, rest: seq<Item>, hl: nat, h: Header)
    returns (r: Option<Header>)
    requires inner == EncodeItems(done) + EncodeItems(rest) && Agrees(inner, hl, h, done)
    requires forall i :: 0 <= i < |rest| ==> rest[i].0 < U64 && |rest[i].1| < U64
    ensures |EncodeItems(done)| <= |inner| && Scan(inner, |EncodeItems(done)|, hl, h) == r
    ensures r.None? <==> AnySingle(rest)
    ensures r.Some? ==> Agrees(inner, hl, r.value, done + rest)
    decreases |rest|
  {
    hide Scan, Element, Agrees, Note, EncodeItems, Single;
    var pos := |EncodeItems(done)|;
    if rest == [] {
      NoItems();
      assert inner == EncodeItems(done) && done + rest == done;
      ScanEnd(inner, hl, h);
      return Some(h);
    }
    var item, tail := rest[0], rest[1..];
    FirstItem(rest);
    Split2(EncodeItems(done), EncodeItems(rest));
    ScanElement(inner, pos, item.0, item.1, EncodeItems(tail), hl, h);
    SingleFirst(rest);
    if Single(item) {
      IsSingle(item);
      return None;
    }
    IsSingle(item);
    var end := pos + |Element(item.0, item.1)|;
    NoteAgrees(inner, hl, h, done, item, end);
    ItemDone(done, item);
    assert inner == EncodeItems(done + [item]) + EncodeItems(tail) by {
      ConcatAssoc(EncodeItems(done), Element(item.0, item.1), EncodeItems(tail));
    }
    r := ScanItems(inner, done + [item], tail, hl, Note(h, item.0, item.1, hl + end - |item.1|, hl + end));
    assert done + [item] + tail == done + rest;
  }

  lemma NoItems()
    ensures EncodeItems([]) == []
  {
  }

  lemma FirstItem(items: seq<Item>)
    requires items != []
    ensures EncodeItems(items) == Element(items[0].0, items[0].1) + EncodeItems(items[1..])
  {
  }

  lemma ItemDone(done: seq<Item>, item: Item)
    ensures EncodeItems(done + [item]) == EncodeItems(done) + Element(item.0, item.1)
  {
    EncodeConcat(done, [item]);
    FirstItem([item]);
    NoItems();
    assert Element(item.0, item.1) + [] == Element(item.0, item.1);
  }

  lemma SingleFirst(items: seq<Item>)
    requires items != []
    ensures AnySingle(items) <==> Single(items[0]) || AnySingle(items[1..])
  {
    hide Single;
    if AnySingle(items) && !Single(items[0]) {
      var i :| 0 <= i < |items| && Single(items[i]);
      assert Single(items[1..][i - 1]);
    }
  }

  lemma IsSingle(item: Item)
    ensures Single(item) <==> item.0 == LP_FRAG_COUNT && DecodeU64(item.1) <= 1
  {
  }

  lemma ScanEnd(inner: seq<byte>, hl: nat, h: Header)
    ensures Scan(inner, |inner|, hl, h) == Some(h)
  {
  }

  /** From every LpPacket, whatever fields it has and whatever follows it, extraction finds what the fields say. */
  lemma ExtractMeans(items: seq<Item>, tail: seq<byte>)
    requires FitsLp(items)
    ensures PieceIn(LpOf(items) + tail) == PieceOf(items)
  {
    hide VarNum, ReadVar, Scan, EncodeItems, VarSize, Last, AnySingle, DecodeU64;
    var inner, raw := EncodeItems(items), LpOf(items) + tail;
    var rest := VarNum(|inner|) + (inner + tail);
    assert raw == VarNum(LP_PACKET) + rest && raw == VarNum(LP_PACKET) + VarNum(|inner|) + inner + tail;
    OuterType();
    ReadVarNum(LP_PACKET, rest);
    ReadVarNum(|inner|, inner + tail);
    Split2(VarNum(LP_PACKET), rest);
    Split3(VarNum(LP_PACKET) + VarNum(|inner|), inner, tail);
    var hl := 1 + VarSize(|inner|);
    assert raw[hl..hl + |inner|] == inner;
    var r := ScanAll(items, hl);
    if r.Some? && Last(items, LP_FRAGMENT).Some? {
      SliceSlice(raw, hl, hl + |inner|, r.value.start - hl, r.value.end - hl);
    }
  }

  /** What the scan gets through is a sequence of elements. */
  lemma {:induction false} ScanWritten(inner: seq<byte>, pos: nat, hl: nat, h: Header) returns (items: seq<Item>)
    requires pos <= |inner| && Scan(inner, pos, hl, h).Some?
    ensures EncodeItems(items) == inner[pos..]
    ensures forall i :: 0 <= i < |items| ==> items[i].0 < U64 && |items[i].1| < U64
    decreases |inner| - pos
  {
    hide ReadVar, VarNum, Note, DecodeU64, EncodeItems, VarSize;
    if pos == |inner| {
      NoItems();
      return [];
    }
    var (t, tn) := ReadVar(inner[pos..]).value;
    var (l, ln) := ReadVar(inner[pos + tn..]).value;
    ReadVarUnique(inner[pos..]);
    ReadVarUnique(inner[pos + tn..]);
    var from, end := pos + tn + ln, pos + tn + ln + l;
    var v := inner[from..end];
    var rest := ScanWritten(inner, end, hl, Note(h, t, v, hl + from, hl + end));
    items := [(t, v)] + rest;
    FirstItem(items);
    assert items[1..] == rest;
    Apart(inner, pos, tn, ln, l);
  }

  lemma Apart(x: seq<byte>, pos: nat, a: nat, b: nat, c: nat)
    requires pos + a + b + c <= |x|
    ensures x[pos..] == x[pos..][..a] + x[pos + a..][..b] + x[pos + a + b..pos + a + b + c] + x[pos + a + b + c..]
  {
  }

  /**
   Extraction finds a piece in exactly the frames that begin with an LpPacket whose fields say that
   piece.
   */
  lemma ExtractIff(raw: seq<byte>, p: Piece)
    requires |raw| < U64
    ensures PieceIn(raw) == Some(p) <==>
            exists items, tail :: FitsLp(items) && raw == LpOf(items) + tail && PieceOf(items) == Some(p)
  {
    hide Extract, LpOf, PieceOf, FitsLp;
    if PieceIn(raw) == Some(p) {
      var items, tail := ExtractWritten(raw);
      ExtractMeans(items, tail);
    }
    forall items, tail | FitsLp(items) && raw == LpOf(items) + tail && PieceOf(items) == Some(p)
      ensures PieceIn(raw) == Some(p)
    {
      ExtractMeans(items, tail);
    }
  }

  lemma ExtractWritten(raw: seq<byte>) returns (items: seq<Item>, tail: seq<byte>)
    requires |raw| < U64 && Extract(raw).Some?
    ensures FitsLp(items) && raw == LpOf(items) + tail
  {
    hide ReadVar, VarNum, Scan, EncodeItems;
    var (_, tn) := ReadVar(raw).value;
    var (len, ln) := ReadVar(raw[tn..]).value;
    var hl := tn + ln;
    ReadVarUnique(raw);
    ReadVarUnique(raw[tn..]);
    OuterRead(raw);
    items := ScanWritten(raw[hl..hl + len], 0, hl, Header(None, None, None, 0, 0));
    tail := raw[hl + len..];
    assert raw[0..] == raw && raw[hl..hl + len][0..] == raw[hl..hl + len];
    Apart(raw, 0, tn, ln, len);
  }

  lemma OuterRead(raw: seq<byte>)
    requires raw != [] && raw[0] == LP_PACKET
    ensures ReadVar(raw) == Some((LP_PACKET, 1))
  {
  }

  lemma ScanAll(items: seq<Item>, hl: nat) returns (r: Option<Header>)
    requires FitsLp(items)
    ensures Scan(EncodeItems(items), 0, hl, Header(None, None, None, 0, 0)) == r
    ensures r.None? <==> AnySingle(items)
    ensures r.Some? ==> Agrees(EncodeItems(items), hl, r.value, items)
  {
    hide Scan, AnySingle;
    NoItems();
    assert [] + EncodeItems(items) == EncodeItems(items) && [] + items == items;
    r := ScanItems(EncodeItems(items), [], items, hl, Header(None, None, None, 0, 0));
  }

  lemma Whole(items: seq<Item>)
    requires FitsLp(items)
    ensures PieceIn(LpOf(items)) == PieceOf(items)
  {
    hide PieceIn, PieceOf;
    ExtractMeans(items, []);
    assert LpOf(items) + [] == LpOf(items);
  }

  /** A field of any other type, wherever it stands, changes nothing. */
  lemma OtherFieldSkipped(before: seq<Item>, t: nat, v: seq<byte>, after: seq<Item>)
    requires FitsLp(before + [(t, v)] + after) && FitsLp(before + after)
    requires t !in {LP_SEQUENCE, LP_FRAG_INDEX, LP_FRAG_COUNT, LP_FRAGMENT}
    ensures PieceIn(LpOf(before + [(t, v)] + after)) == PieceIn(LpOf(before + after))
  {
    hide FitsLp, PieceIn, LpOf, Last;
    Whole(before + [(t, v)] + after);
    Whole(before + after);
    LastSkips(before, t, v, after, LP_SEQUENCE);
    LastSkips(before, t, v, after, LP_FRAG_INDEX);
    LastSkips(before, t, v, after, LP_FRAG_COUNT);
    LastSkips(before, t, v, after, LP_FRAGMENT);
    SingleSkips(before, (t, v), after);
  }

  lemma {:induction false} LastSkips(before: seq<Item>, t: nat, v: seq<byte>, after: seq<Item>, kind: nat)
    requires t != kind
    ensures Last(before + [(t, v)] + after, kind) == Last(before + after, kind)
    decreases |after|
  {
    var x := before + [(t, v)] + after;
    if after == [] {
      assert x[..|x| - 1] == before && before + after == before;
    } else {
      var n := |after| - 1;
      LastSkips(before, t, v, after[..n], kind);
      assert x[..|x| - 1] == before + [(t, v)] + after[..n];
      assert (before + after)[..|before| + n] == before + after[..n];
    }
  }

  lemma SingleSkips(before: seq<Item>, item: Item, after: seq<Item>)
    requires item.0 != LP_FRAG_COUNT
    ensures AnySingle(before + [item] + after) <==> AnySingle(before + after)
  {
    var x, y := before + [item] + after, before + after;
    if i :| 0 <= i < |x| && Single(x[i]) {
      assert Single(y[if i < |before| then i else i - 1]);
    }
    if i :| 0 <= i < |y| && Single(y[i]) {
      assert Single(x[if i < |before| then i else i + 1]);
    }
  }

  predicate OtherField(item: Item) {
    item.0 !in {LP_SEQUENCE, LP_FRAG_INDEX, LP_FRAG_COUNT, LP_FRAGMENT}
  }

  /** The fields of a fragment as senders write them: the three numbers, other fields, the chunk. */
  function FieldItems(s: seq<byte>, i: seq<byte>, c: seq<byte>, others: seq<Item>, chunk: seq<byte>): seq<Item> {
    [(LP_SEQUENCE, s), (LP_FRAG_INDEX, i), (LP_FRAG_COUNT, c)] + others + [(LP_FRAGMENT, chunk)]
  }

  lemma FieldsSay(s: seq<byte>, i: seq<byte>, c: seq<byte>, others: seq<Item>, chunk: seq<byte>)
    requires DecodeU64(c) >= 2 && forall x :: 0 <= x < |others| ==> OtherField(others[x])
    ensures PieceOf(FieldItems(s, i, c, others, chunk)) ==
            Some(Piece(DecodeU64(s), DecodeU64(i), DecodeU64(c), chunk))
  {
    hide DecodeU64;
    var head: seq<Item> := [(LP_SEQUENCE, s), (LP_FRAG_INDEX, i), (LP_FRAG_COUNT, c)];
    var items := FieldItems(s, i, c, others, chunk);
    assert items[..|items| - 1] == head + others;
    assert items[|items| - 1] == (LP_FRAGMENT, chunk);
    assert forall x :: 3 <= x < |items| - 1 ==> items[x] == others[x - 3];
    LastBefore(head, others, LP_SEQUENCE);
    LastBefore(head, others, LP_FRAG_INDEX);
    LastBefore(head, others, LP_FRAG_COUNT);
    assert head[..2] == [(LP_SEQUENCE, s), (LP_FRAG_INDEX, i)] && head[..2][..1] == [(LP_SEQUENCE, s)];
    assert Last([(LP_SEQUENCE, s)], LP_SEQUENCE) == Some(s);
  }

  lemma {:induction false} LastBefore(head: seq<Item>, others: seq<Item>, kind: nat)
    requires forall x :: 0 <= x < |others| ==> OtherField(others[x])
    requires kind in {LP_SEQUENCE, LP_FRAG_INDEX, LP_FRAG_COUNT}
    ensures Last(head + others, kind) == Last(head, kind)
  {
    if others == [] {
      assert head + others == head;
    } else {
      var n := |others| - 1;
      LastBefore(head, others[..n], kind);
      assert (head + others)[..|head| + n] == head + others[..n];
      assert OtherField(others[n]);
    }
  }

  /** The receiver recovers exactly the sender's header fields and chunk from every multi-fragment LpPacket. */
  lemma ExtractRecovers(sequence: nat, index: nat, count: nat, chunk: seq<byte>)
    requires sequence < U64 && index < U64 && 2 <= count < U64 && |chunk| + FRAG_OVERHEAD < U64
    ensures PieceIn(LpPacket(sequence, index, count, chunk)) == Some(Piece(sequence, index, count, chunk))
  {
    hide PieceIn, PieceOf, DecodeU64, BE, EncodeItems, Element;
    var items := FieldItems(BE(sequence, 8), BE(index, 8), BE(count, 8), [], chunk);
    PlainItems(sequence, index, count, chunk);
    DecodedU64(sequence);
    DecodedU64(index);
    DecodedU64(count);
    FieldsSay(BE(sequence, 8), BE(index, 8), BE(count, 8), [], chunk);
    Whole(items);
  }

  /** `raw` is an LpPacket with the three numbers in eight bytes each and no other field. */
  predicate PlainFields(sequence: nat, index: nat, count: nat, chunk: seq<byte>, raw: seq<byte>) {
    var items := FieldItems(BE(sequence, 8), BE(index, 8), BE(count, 8), [], chunk);
    FitsLp(items) && raw == LpOf(items)
  }

  lemma PlainItems(sequence: nat, index: nat, count: nat, chunk: seq<byte>)
    requires |chunk| + FRAG_OVERHEAD < U64
    ensures PlainFields(sequence, index, count, chunk, LpPacket(sequence, index, count, chunk))
  {
    hide Element;
    var s, i, c, f := (LP_SEQUENCE, BE(sequence, 8)), (LP_FRAG_INDEX, BE(index, 8)),
                      (LP_FRAG_COUNT, BE(count, 8)), (LP_FRAGMENT, chunk);
    var items: seq<Item> := FieldItems(s.1, i.1, c.1, [], chunk);
    assert items == [s] + [i] + [c] + [f];
    ItemDone([], s);
    ItemDone([s], i);
    ItemDone([s] + [i], c);
    ItemDone([s] + [i] + [c], f);
    NoItems();
    assert [] + [s] == [s] && [] + Element(s.0, s.1) == Element(s.0, s.1);
    PlainSize(sequence, index, count, chunk);
  }

  lemma PlainSize(sequence: nat, index: nat, count: nat, chunk: seq<byte>)
    requires |chunk| + FRAG_OVERHEAD < U64
    ensures |Fields(sequence, index, count, chunk)| < U64
  {
  }

  lemma OuterType()
    ensures VarNum(LP_PACKET) == [LP_PACKET]
  {
  }
}
