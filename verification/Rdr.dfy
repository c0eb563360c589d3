/**
 Realtime data retrieval: an object cut into segments and described by a metadata packet, and the
 two ways a consumer puts it back together: joined by index, and written at index times segment
 size.
 */
module Rdr {
  import opened Bytes
  import opened Fragment
  import opened NameKey
  import opened NameUri
  import opened Options
  import opened Tlv
  import NameText

  const NAME: nat := 0x07
  const FINAL_BLOCK_ID: nat := 0x1A
  const SEGMENT_SIZE: nat := 0xF500
  const SIZE: nat := 0xF502
  const SEGMENT_HASHES: nat := 0xF504

  // ---------------------------------------------------------------------------------------
  // Names on the wire
  // ---------------------------------------------------------------------------------------

  /** `Name::decode`. */
  function DecodeName(buf: seq<byte>): Option<Name> {
    if buf == [] then Some([])
    else
      match ReadElement(buf)
      case None => None
      case Some(r) =>
        match DecodeName(buf[r.size..])
        case None => None
        case Some(rest) => Some([Component(r.typ, r.value)] + rest)
  }

  /** The reader takes 32-bit TLV types only. */
  predicate WireTypes(n: Name) {
    forall i :: 0 <= i < |n| ==> n[i].typ < U32
  }

  lemma WideTypeRefused(typ: nat, value: seq<byte>, rest: seq<byte>)
    requires U32 <= typ < U64
    ensures ReadElement(Element(typ, value) + rest) == None
  {
    hide VarNum, ReadVar;
    var tail := VarNum(|value|) + value + rest;
    assert Element(typ, value) + rest == VarNum(typ) + tail;
    ReadVarNum(typ, tail);
  }

  /** A name survives the wire exactly when all its component types are below 2^32. */
  lemma {:induction false} NameOnWire(n: Name)
    requires Valid(n)
    ensures DecodeName(Key(n)) == if WireTypes(n) then Some(n) else None
  {
    hide ReadElement, Element;
    if n != [] {
      var head := Element(n[0].typ, n[0].value);
      Split2(head, Key(n[1..]));
      if n[0].typ < U32 {
        ReadWritten(n[0].typ, n[0].value, Key(n[1..]));
        NameOnWire(n[1..]);
        assert n == [n[0]] + n[1..];
        assert WireTypes(n) <==> WireTypes(n[1..]);
      } else {
        WideTypeRefused(n[0].typ, n[0].value, Key(n[1..]));
      }
    }
  }

  // ---------------------------------------------------------------------------------------
  // Metadata
  // ---------------------------------------------------------------------------------------

  datatype MetaData = MetaData(
    versionedName: Name, finalBlockId: seq<byte>, segmentSize: Option<nat>, size: Option<nat>,
    hashes: Option<seq<seq<byte>>>)

  datatype Reason = BadTlv | BadName | BadInteger(len: nat) | BadHashes(len: nat) | MissingName | MissingFinalBlock

  datatype Decoded = Accepted(meta: MetaData) | Refused(reason: Reason)

  function IntegerItem(typ: nat, v: Option<nat>): seq<Item> {
    match v
    case None => []
    case Some(n) => [(typ, EncodeInteger(n))]
  }

  function HashItem(hashes: Option<seq<seq<byte>>>): seq<Item> {
    match hashes
    case None => []
    case Some(hs) => [(SEGMENT_HASHES, Join(hs))]
  }

  function Items(m: MetaData): seq<Item> {
    [(NAME, Key(m.versionedName)), (FINAL_BLOCK_ID, m.finalBlockId)]
    + (IntegerItem(SEGMENT_SIZE, m.segmentSize) + (IntegerItem(SIZE, m.size) + HashItem(m.hashes)))
  }

  function Encode(m: MetaData): seq<byte> {
    EncodeItems(Items(m))
  }

  /** Fields met so far. */
  datatype Draft = Draft(
    name: Option<Name>, finalBlockId: Option<seq<byte>>, segmentSize: Option<nat>, size: Option<nat>,
    hashes: Option<seq<seq<byte>>>)

  datatype Taken = Keep(draft: Draft) | Drop(reason: Reason)

  const BLANK: Draft := Draft(None, None, None, None, None)

  predicate LegalWidth(len: nat) {
    len == 1 || len == 2 || len == 4 || len == 8
  }

  function Take(d: Draft, typ: nat, value: seq<byte>): Taken {
    if typ == NAME then
      match DecodeName(value)
      case None => Drop(BadName)
      case Some(n) => Keep(d.(name := Some(n)))
    else if typ == FINAL_BLOCK_ID then Keep(d.(finalBlockId := Some(value)))
    else if typ == SEGMENT_SIZE then
      if LegalWidth(|value|) then Keep(d.(segmentSize := Some(DecodeInteger(value)))) else Drop(BadInteger(|value|))
    else if typ == SIZE then
      if LegalWidth(|value|) then Keep(d.(size := Some(DecodeInteger(value)))) else Drop(BadInteger(|value|))
    else if typ == SEGMENT_HASHES then
      if |value| % 32 == 0 then Keep(d.(hashes := Some(Chunks(value, 32)))) else Drop(BadHashes(|value|))
    else Keep(d)
  }

  function Collect(buf: seq<byte>, d: Draft): Taken
    decreases |buf|
  {
    if buf == [] then Keep(d)
    else
      match ReadElement(buf)
      case None => Drop(BadTlv)
      case Some(r) =>
        match Take(d, r.typ, r.value)
        case Drop(reason) => Drop(reason)
        case Keep(d') => Collect(buf[r.size..], d')
  }

  function Finish(t: Taken): Decoded {
    match t
    case Drop(reason) => Refused(reason)
    case Keep(d) =>
      if d.name == None then Refused(MissingName)
      else if d.finalBlockId == None then Refused(MissingFinalBlock)
      else Accepted(MetaData(d.name.value, d.finalBlockId.value, d.segmentSize, d.size, d.hashes))
  }

  function Decode(buf: seq<byte>): Decoded {
    Finish(Collect(buf, BLANK))
  }

  /** The decoder's loop over the elements. */
  method DecodeMetaData(buf: seq<byte>) returns (r: Decoded)
    ensures r == Decode(buf)
  {
    hide ReadElement, Take;
    var d := BLANK;
    var pos := 0;
    assert buf[0..] == buf;
    while pos < |buf|
      invariant pos <= |buf|
      invariant Collect(buf, BLANK) == Collect(buf[pos..], d)
      decreases |buf| - pos
    {
      match ReadElement(buf[pos..])
      case None => return Refused(BadTlv);
      case Some(e) =>
        match Take(d, e.typ, e.value)
        case Drop(reason) => return Refused(reason);
        case Keep(d') =>
          assert buf[pos..][e.size..] == buf[pos + e.size..];
          d, pos := d', pos + e.size;
    }
    assert buf[pos..] == [];
    r := Finish(Keep(d));
  }

  function TakeAll(items: seq<Item>, d: Draft): Taken
    decreases |items|
  {
    if items == [] then Keep(d)
    else
      match Take(d, items[0].0, items[0].1)
      case Drop(reason) => Drop(reason)
      case Keep(d') => TakeAll(items[1..], d')
  }

  predicate Writable(items: seq<Item>) {
    forall i :: 0 <= i < |items| ==> items[i].0 < U32 && |items[i].1| < U64
  }

  lemma {:induction false} CollectItems(items: seq<Item>, d: Draft)
    requires Writable(items)
    ensures Collect(EncodeItems(items), d) == TakeAll(items, d)
    decreases |items|
  {
    hide Take, Element, ReadElement;
    if items != [] {
      var (typ, value) := items[0];
      var rest := EncodeItems(items[1..]);
      ReadWritten(typ, value, rest);
      Split2(Element(typ, value), rest);
      match Take(d, typ, value)
      case Drop(_) =>
      case Keep(d') => CollectItems(items[1..], d');
    }
  }

  lemma {:induction false} TakeConcat(a: seq<Item>, b: seq<Item>, d: Draft)
    ensures TakeAll(a + b, d) ==
            match TakeAll(a, d) { case Drop(reason) => Drop(reason) case Keep(d') => TakeAll(b, d') }
    decreases |a|
  {
    hide Take;
    if a == [] {
      assert a + b == b;
    } else {
      assert (a + b)[1..] == a[1..] + b;
      match Take(d, a[0].0, a[0].1)
      case Drop(_) =>
      case Keep(d') => TakeConcat(a[1..], b, d');
    }
  }

  lemma TakeOne(item: Item, d: Draft)
    ensures TakeAll([item], d) == Take(d, item.0, item.1)
  {
    hide Take;
    assert [item][1..] == [];
    match Take(d, item.0, item.1)
    case Drop(_) =>
    case Keep(d') => assert TakeAll([], d') == Keep(d');
  }

  /** Lengths and numbers the encoder can meet, all 64-bit, and 32-byte hashes. */
  ghost predicate Sized(m: MetaData) {
    && Valid(m.versionedName) && |Key(m.versionedName)| < U64 && |m.finalBlockId| < U64
    && (m.segmentSize.Some? ==> m.segmentSize.value < U64)
    && (m.size.Some? ==> m.size.value < U64)
    && (m.hashes.Some? ==> Digests(m.hashes.value) && |Join(m.hashes.value)| < U64)
  }

  predicate Digests(hs: seq<seq<byte>>) {
    forall i :: 0 <= i < |hs| ==> |hs[i]| == 32
  }

  lemma {:induction false} DigestsSplit(hs: seq<seq<byte>>)
    requires Digests(hs)
    ensures Chunks(Join(hs), 32) == hs && |Join(hs)| % 32 == 0
  {
    if hs != [] {
      var rest := Join(hs[1..]);
      DigestsSplit(hs[1..]);
      Split2(hs[0], rest);
      assert hs == [hs[0]] + hs[1..];
      if rest == [] {
        assert hs[0] + rest == hs[0];
        assert Chunks(rest, 32) == [];
      } else {
        assert |Join(hs)| == 32 + |rest|;
      }
    }
  }

  lemma TakeInteger(typ: nat, v: Option<nat>, d: Draft)
    requires v.Some? ==> v.value < U64
    requires (typ == SEGMENT_SIZE && d.segmentSize == None) || (typ == SIZE && d.size == None)
    ensures TakeAll(IntegerItem(typ, v), d) ==
            Keep(if typ == SIZE then d.(size := v) else d.(segmentSize := v))
  {
    hide DecodeInteger, EncodeInteger, Canonical, DecodeName;
    if v.Some? {
      IntegerRoundTrip(v.value);
      IntegerWidth(v.value);
      TakeOne((typ, EncodeInteger(v.value)), d);
    }
  }

  lemma IntegerWidth(v: nat)
    ensures LegalWidth(|EncodeInteger(v)|)
  {
  }

  lemma TakeHashes(hashes: Option<seq<seq<byte>>>, d: Draft)
    requires hashes.Some? ==> Digests(hashes.value)
    requires d.hashes == None
    ensures TakeAll(HashItem(hashes), d) == Keep(d.(hashes := hashes))
  {
    hide Chunks, Join, Digests, DecodeName;
    if hashes.Some? {
      DigestsSplit(hashes.value);
      TakeOne((SEGMENT_HASHES, Join(hashes.value)), d);
    }
  }

  lemma TakeHead(name: Name, fbi: seq<byte>)
    requires Valid(name)
    ensures TakeAll([(NAME, Key(name)), (FINAL_BLOCK_ID, fbi)], BLANK) ==
            if WireTypes(name) then Keep(BLANK.(name := Some(name), finalBlockId := Some(fbi))) else Drop(BadName)
  {
    hide DecodeName, Key;
    NameOnWire(name);
    var items: seq<Item> := [(NAME, Key(name)), (FINAL_BLOCK_ID, fbi)];
    TakeOne(items[0], BLANK);
    assert items == [items[0]] + [items[1]];
    TakeConcat([items[0]], [items[1]], BLANK);
    if WireTypes(name) {
      TakeOne(items[1], BLANK.(name := Some(name)));
    }
  }

  /** Metadata survives the wire exactly when its name does. */
  lemma MetaDataRoundTrip(m: MetaData)
    requires Sized(m)
    ensures Decode(Encode(m)) == if WireTypes(m.versionedName) then Accepted(m) else Refused(BadName)
  {
    hide Take, TakeAll, EncodeItems, IntegerItem, HashItem, Collect, Key, Valid, Join, Digests;
    WritableItems(m);
    CollectItems(Items(m), BLANK);
    var head: seq<Item> := [(NAME, Key(m.versionedName)), (FINAL_BLOCK_ID, m.finalBlockId)];
    var a, b, c := IntegerItem(SEGMENT_SIZE, m.segmentSize), IntegerItem(SIZE, m.size), HashItem(m.hashes);
    TakeHead(m.versionedName, m.finalBlockId);
    TakeConcat(head, a + (b + c), BLANK);
    if WireTypes(m.versionedName) {
      var d := BLANK.(name := Some(m.versionedName), finalBlockId := Some(m.finalBlockId));
      TakeConcat(a, b + c, d);
      TakeInteger(SEGMENT_SIZE, m.segmentSize, d);
      var d' := d.(segmentSize := m.segmentSize);
      TakeConcat(b, c, d');
      TakeInteger(SIZE, m.size, d');
      TakeHashes(m.hashes, d'.(size := m.size));
    }
  }

  lemma WritableItems(m: MetaData)
    requires Sized(m)
    ensures Writable(Items(m))
  {
    hide Key, Valid, Join, Digests;
    if m.segmentSize.Some? {
      IntegerWidth(m.segmentSize.value);
    }
    if m.size.Some? {
      IntegerWidth(m.size.value);
    }
  }

  /** An element the decoder does not know changes nothing, wherever it stands. */
  lemma UnknownSkipped(before: seq<Item>, typ: nat, value: seq<byte>, after: seq<Item>)
    requires Writable(before + [(typ, value)] + after)
    requires typ !in {NAME, FINAL_BLOCK_ID, SEGMENT_SIZE, SIZE, SEGMENT_HASHES}
    ensures Decode(EncodeItems(before + [(typ, value)] + after)) == Decode(EncodeItems(before + after))
  {
    hide TakeAll, EncodeItems, Collect, Finish;
    var all := before + [(typ, value)] + after;
    assert (typ, value) == all[|before|];
    assert Writable(before + after) by {
      assert forall i :: 0 <= i < |before| ==> (before + after)[i] == all[i];
      assert forall i :: |before| <= i < |before + after| ==> (before + after)[i] == all[i + 1];
    }
    CollectItems(all, BLANK);
    CollectItems(before + after, BLANK);
    TakeConcat(before + [(typ, value)], after, BLANK);
    TakeConcat(before, [(typ, value)], BLANK);
    TakeConcat(before, after, BLANK);
    if TakeAll(before, BLANK).Keep? {
      TakeOne((typ, value), TakeAll(before, BLANK).draft);
    }
  }

  // ---------------------------------------------------------------------------------------
  // FinalBlockID
  // ---------------------------------------------------------------------------------------

  function LastSegment(fbi: seq<byte>): Option<nat> {
    if |fbi| < 2 || |fbi| - 2 < fbi[1] then None
    else
      var len: nat := fbi[1];
      var value := fbi[2..2 + len];
      if fbi[0] == SEGMENT then Some(DecodeInteger(value))
      else if fbi[0] == GENERIC then
        match ParseU64(value)
        case Ok(v) => Some(v)
        case Err(_) => None
      else None
  }

  /** `v` names segment `n`: as a segment component, or in decimal digits as a generic one. */
  ghost predicate NamesNumber(typ: nat, v: seq<byte>, n: nat) {
    (typ == SEGMENT && n == FromBE(v) % U64) || (typ == GENERIC && NameText.Number(v, n))
  }

  /** A FinalBlockID begins with a one-byte type, a one-byte length and that many bytes; more may follow. */
  ghost predicate Announces(fbi: seq<byte>, n: nat) {
    exists typ: byte, v: seq<byte> :: |v| < 256 && [typ, |v|] + v <= fbi && NamesNumber(typ, v, n)
  }

  lemma LastSegmentIff(fbi: seq<byte>, n: nat)
    ensures LastSegment(fbi) == Some(n) <==> Announces(fbi, n)
  {
    hide ParseU64, FromBE, NameText.Number;
    if LastSegment(fbi) == Some(n) {
      var len: nat := fbi[1];
      var v := fbi[2..2 + len];
      NameText.NumberIff(v, n);
      assert [fbi[0], |v|] + v <= fbi && NamesNumber(fbi[0], v, n);
    }
    forall typ: byte, v: seq<byte> | |v| < 256 && [typ, |v|] + v <= fbi && NamesNumber(typ, v, n)
      ensures LastSegment(fbi) == Some(n)
    {
      var t := [typ, |v|] + v;
      assert fbi[0] == t[0] && fbi[1] == t[1] && fbi[2..2 + |v|] == t[2..] == v;
      NameText.NumberIff(v, n);
    }
  }

  function FinalBlockId(last: nat): seq<byte> {
    [SEGMENT, |EncodeInteger(last)|] + EncodeInteger(last)
  }

  /** The built FinalBlockID is the segment's own name component, and reads back as its number. */
  lemma FinalBlockNames(last: nat)
    requires last < U64
    ensures LastSegment(FinalBlockId(last)) == Some(last)
    ensures FinalBlockId(last) == Key([Component(SEGMENT, EncodeInteger(last))])
  {
    hide DecodeInteger, EncodeInteger, Canonical;
    var nni := EncodeInteger(last);
    IntegerRoundTrip(last);
    IntegerWidth(last);
    Split2([SEGMENT, |nni|], nni);
    assert FinalBlockId(last)[2..2 + |nni|] == nni;
    var n := [Component(SEGMENT, nni)];
    assert n[1..] == [];
    assert Key(n) == Element(SEGMENT, nni) + [];
  }

  // ---------------------------------------------------------------------------------------
  // Segments
  // ---------------------------------------------------------------------------------------

  /** Empty content is one empty segment. */
  function Segments(content: seq<byte>, chunk: nat): seq<seq<byte>>
    requires chunk > 0
  {
    if content == [] then [[]] else Chunks(content, chunk)
  }

  lemma SegmentsJoin(content: seq<byte>, chunk: nat)
    requires chunk > 0
    ensures Join(Segments(content, chunk)) == content && Segments(content, chunk) != []
  {
    if content == [] {
      var one: seq<seq<byte>> := [[]];
      assert one[1..] == [];
    } else {
      ChunksJoin(content, chunk);
    }
  }

  function Min(a: nat, b: nat): nat {
    if a < b then a else b
  }

  /** The cutting loop. */
  method CutSegments(content: seq<byte>, chunk: nat) returns (segments: seq<seq<byte>>)
    requires chunk > 0
    ensures segments == Segments(content, chunk)
  {
    if content == [] {
      return [[]];
    }
    segments := [];
    var cursor := 0;
    assert content[0..] == content;
    while cursor < |content|
      invariant cursor <= |content|
      invariant Chunks(content, chunk) == segments + Chunks(content[cursor..], chunk)
    {
      var end := Min(cursor + chunk, |content|);
      var rest := content[cursor..];
      assert rest[..end - cursor] == content[cursor..end];
      if |rest| > chunk {
        assert rest[chunk..] == content[end..];
      } else {
        assert rest == content[cursor..end] && content[end..] == [];
      }
      assert Chunks(rest, chunk) == [content[cursor..end]] + Chunks(content[end..], chunk);
      segments := segments + [content[cursor..end]];
      cursor := end;
    }
    assert content[cursor..] == [];
  }

  /** Number of segments of a file-backed object. */
  function FileCount(size: nat, chunk: nat): nat
    requires chunk > 0
  {
    if size == 0 then 1 else DivCeil(size, chunk)
  }

  /** A positioned read of the file. */
  function FileRead(file: seq<byte>, chunk: nat, index: nat): Option<seq<byte>>
    requires chunk > 0
  {
    if index >= FileCount(|file|, chunk) then None
    else
      var start := Offset(index, chunk);
      if start <= |file| then Some(file[start..start + Min(chunk, |file| - start)]) else None
  }

  /** A file-backed object serves the very segments an in-memory one does. */
  lemma FileServesSegments(file: seq<byte>, chunk: nat, index: nat)
    requires chunk > 0
    ensures FileRead(file, chunk, index) ==
            if index < |Segments(file, chunk)| then Some(Segments(file, chunk)[index]) else None
  {
    hide Chunks, DivCeil;
    ChunkCount(file, chunk);
    if file != [] && index < |Segments(file, chunk)| {
      ChunkAt(file, chunk, index);
    }
  }
}
