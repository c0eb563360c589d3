/**
 Publishing an object and putting it back together. Whatever order the segments arrive in, joining
 them by index and writing each at index times the announced segment size both give the content.
 */
module RdrObject {
  import opened Bytes
  import opened Fragment
  import opened NameKey
  import opened NameUri
  import opened Options
  import opened Rdr
  import Fetch

  // ---------------------------------------------------------------------------------------
  // Publishing
  // ---------------------------------------------------------------------------------------

  const METADATA_KEYWORD: seq<byte> := [0x6D, 0x65, 0x74, 0x61, 0x64, 0x61, 0x74, 0x61]  // metadata

  /** Where segments come from; metadata-only objects know their count but hold no segment. */
  datatype Source = Memory(segments: seq<seq<byte>>) | File(content: seq<byte>, chunk: nat) | Phantom(count: nat) {
    predicate Usable() {
      match this
      case Memory(segments) => segments != []
      case File(_, chunk) => chunk > 0
      case Phantom(count) => count > 0
    }

    function Count(): (n: nat)
      requires Usable()
    {
      match this
      case Memory(segments) => |segments|
      case File(content, chunk) => FileCount(|content|, chunk)
      case Phantom(count) => count
    }

    function Read(i: nat): Option<seq<byte>>
      requires Usable()
    {
      match this
      case Memory(segments) => if i < |segments| then Some(segments[i]) else None
      case File(content, chunk) => FileRead(content, chunk, i)
      case Phantom(_) => None
    }
  }

  /** The source serves exactly these segments. */
  ghost predicate Serves(source: Source, segments: seq<seq<byte>>) {
    && source.Usable() && source.Count() == |segments|
    && forall i: nat :: source.Read(i) == if i < |segments| then Some(segments[i]) else None
  }

  /** In memory or on file, the source serves the segments of its content. */
  lemma SourceServes(content: seq<byte>, chunk: nat)
    requires chunk > 0
    ensures Serves(Memory(Segments(content, chunk)), Segments(content, chunk))
    ensures Serves(File(content, chunk), Segments(content, chunk))
  {
    hide Chunks, Offset, DivCeil;
    SegmentsJoin(content, chunk);
    ChunkCount(content, chunk);
    forall i: nat
      ensures FileRead(content, chunk, i) ==
              if i < |Segments(content, chunk)| then Some(Segments(content, chunk)[i]) else None
    {
      FileServesSegments(content, chunk, i);
    }
  }

  /** The chunk a file-backed object is cut by; its metadata still announces `chunkSize`. */
  function FileChunk(chunkSize: nat): (chunk: nat)
    ensures chunk > 0
  {
    if chunkSize < 1 then 1 else chunkSize
  }

  datatype Prepared = Prepared(
    objectName: Name, versionedName: Name, metadataContent: seq<byte>, lastSeg: nat, source: Source, aggregated: bool)

  function Versioned(name: Name, version: nat): Name {
    name + [Component(VERSION, EncodeInteger(version))]
  }

  function SegmentName(versioned: Name, seg: nat): Name {
    versioned + [Component(SEGMENT, EncodeInteger(seg))]
  }

  function Announce(name: Name, version: nat, count: nat, size: nat, chunk: nat,
                    hashes: Option<seq<seq<byte>>>): MetaData
    requires count > 0
  {
    MetaData(Versioned(name, version), FinalBlockId(count - 1), Some(chunk), Some(size), hashes)
  }

  /** What the metadata of an object must tell a consumer. */
  ghost predicate Describes(meta: seq<byte>, name: Name, version: nat, count: nat, size: nat,
                            chunk: nat, hashes: Option<seq<seq<byte>>>) {
    match Decode(meta)
    case Refused(_) => false
    case Accepted(m) =>
      && m.versionedName == Versioned(name, version) && m.hashes == hashes
      && m.size == Some(size) && m.segmentSize == Some(chunk)
      && count > 0 && LastSegment(m.finalBlockId) == Some(count - 1)
  }

  lemma AnnounceDescribes(name: Name, version: nat, count: nat, size: nat, chunk: nat,
                          hashes: Option<seq<seq<byte>>>)
    requires 0 < count < U64 && version < U64 && WireTypes(name)
    requires Sized(Announce(name, version, count, size, chunk, hashes))
    ensures Describes(Encode(Announce(name, version, count, size, chunk, hashes)),
                      name, version, count, size, chunk, hashes)
  {
    hide Encode, Decode, FinalBlockId, LastSegment, EncodeInteger, Sized, Key;
    MetaDataRoundTrip(Announce(name, version, count, size, chunk, hashes));
    FinalBlockNames(count - 1);
  }

  /** The digests of all segments in order, or nothing if one cannot be read. */
  method HashSegments(source: Source, hash: seq<byte> -> seq<byte>) returns (hashes: Option<seq<seq<byte>>>)
    requires source.Usable()
    ensures hashes.Some? <==> forall i :: 0 <= i < source.Count() ==> source.Read(i).Some?
    ensures hashes.Some? ==> HashesOf(hashes.value, source, hash)
  {
    var out := [];
    for i := 0 to source.Count()
      invariant |out| == i
      invariant forall j :: 0 <= j < i ==> source.Read(j).Some? && out[j] == hash(source.Read(j).value)
    {
      var b := source.Read(i);
      if b.None? {
        return None;
      }
      out := out + [hash(b.value)];
    }
    return Some(out);
  }

  predicate HashesOf(hashes: seq<seq<byte>>, source: Source, hash: seq<byte> -> seq<byte>)
    requires source.Usable()
  {
    && |hashes| == source.Count()
    && forall i :: 0 <= i < |hashes| ==> source.Read(i).Some? && hashes[i] == hash(source.Read(i).value)
  }

  lemma {:induction false} DigestsSize(hs: seq<seq<byte>>)
    requires Digests(hs)
    ensures |Join(hs)| == 32 * |hs|
  {
    if hs != [] {
      DigestsSize(hs[1..]);
    }
  }

  /** What assembling an object promises, for whatever source. */
  ghost predicate Assembled(p: Prepared, name: Name, version: nat, source: Source, size: nat, chunk: nat,
                            aggregate: bool, hash: seq<byte> -> seq<byte>, hashes: Option<seq<seq<byte>>>)
    requires source.Usable()
  {
    && p.objectName == name && p.versionedName == Versioned(name, version) && p.source == source
    && p.lastSeg + 1 == source.Count() && p.aggregated == hashes.Some?
    && (hashes.Some? <==> aggregate && forall i :: 0 <= i < source.Count() ==> source.Read(i).Some?)
    && (hashes.Some? ==> HashesOf(hashes.value, source, hash))
    && if WireTypes(name) then Describes(p.metadataContent, name, version, source.Count(), size, chunk, hashes)
       else Decode(p.metadataContent) == Refused(BadName)
  }

  /** `PreparedObject::assemble`; the clock and SHA-256 are parameters. */
  method Assemble(name: Name, version: nat, source: Source, size: nat, chunk: nat, aggregate: bool,
                  hash: seq<byte> -> seq<byte>)
    returns (p: Prepared, hashes: Option<seq<seq<byte>>>)
    requires Valid(name) && version < U64 && chunk < U64 && size < U64 && source.Usable()
    requires |Key(Versioned(name, version))| < U64 && 32 * source.Count() < U64
    requires forall x :: |hash(x)| == 32
    ensures Assembled(p, name, version, source, size, chunk, aggregate, hash, hashes)
  {
    hide Key, Join, EncodeInteger, Encode, Decode, FinalBlockId, LastSegment, Source.Count, Source.Read;
    var count, digests := source.Count(), None;
    CountPositive(source);
    if aggregate {
      digests := HashSegments(source, hash);
      if digests.Some? {
        DigestsSize(digests.value);
      }
    }
    hashes := digests;
    var meta := Announce(name, version, count, size, chunk, digests);
    AnnouncementSized(name, version, count, size, chunk, digests);
    if WireTypes(name) {
      AnnounceDescribes(name, version, count, size, chunk, digests);
    } else {
      MetaDataRoundTrip(meta);
    }
    p := Prepared(name, meta.versionedName, Encode(meta), count - 1, source, digests.Some?);
  }

  lemma CountPositive(source: Source)
    requires source.Usable()
    ensures source.Count() > 0
  {
    if source.File? && source.content != [] {
      ChunkCount(source.content, source.chunk);
      SegmentsJoin(source.content, source.chunk);
    }
  }

  /** `PreparedObject::build_with`. */
  method Build(name: Name, version: nat, content: seq<byte>, chunk: nat, aggregate: bool, hash: seq<byte> -> seq<byte>)
    returns (p: Prepared, hashes: Option<seq<seq<byte>>>)
    requires Valid(name) && version < U64 && 0 < chunk < U64 && |content| < U64
    requires |Key(Versioned(name, version))| < U64 && 32 * |Segments(content, chunk)| < U64
    requires forall x :: |hash(x)| == 32
    ensures Serves(p.source, Segments(content, chunk))
    ensures Assembled(p, name, version, p.source, |content|, chunk, aggregate, hash, hashes)
    ensures p.aggregated == aggregate
  {
    hide Key, Chunks, Assembled, Serves;
    var segments := CutSegments(content, chunk);
    SegmentsJoin(content, chunk);
    SourceServes(content, chunk);
    var source := Memory(segments);
    p, hashes := Assemble(name, version, source, |content|, chunk, aggregate, hash);
    AggregatedIff(p, name, version, source, segments, |content|, chunk, aggregate, hash, hashes);
  }

  lemma AggregatedIff(p: Prepared, name: Name, version: nat, source: Source, segments: seq<seq<byte>>, size: nat,
                      chunk: nat, aggregate: bool, hash: seq<byte> -> seq<byte>, hashes: Option<seq<seq<byte>>>)
    requires source.Usable() && Assembled(p, name, version, source, size, chunk, aggregate, hash, hashes)
    requires Serves(source, segments)
    ensures p.source == source && p.aggregated == aggregate
  {
  }

  /** `PreparedObject::build_from_file`: cut by `FileChunk`, announced as `chunkSize`. */
  method BuildFromFile(name: Name, version: nat, file: seq<byte>, chunkSize: nat, aggregate: bool,
                       hash: seq<byte> -> seq<byte>)
    returns (p: Prepared, hashes: Option<seq<seq<byte>>>)
    requires Valid(name) && version < U64 && chunkSize < U64 && |file| < U64
    requires |Key(Versioned(name, version))| < U64 && 32 * FileCount(|file|, FileChunk(chunkSize)) < U64
    requires forall x :: |hash(x)| == 32
    ensures Serves(p.source, Segments(file, FileChunk(chunkSize)))
    ensures Assembled(p, name, version, p.source, |file|, chunkSize, aggregate, hash, hashes)
    ensures p.aggregated == aggregate
  {
    hide Key, Chunks, Assembled, FileRead, Serves, DivCeil;
    var source := File(file, FileChunk(chunkSize));
    SourceServes(file, FileChunk(chunkSize));
    p, hashes := Assemble(name, version, source, |file|, chunkSize, aggregate, hash);
    ghost var segments := Segments(file, FileChunk(chunkSize));
    AggregatedIff(p, name, version, source, segments, |file|, chunkSize, aggregate, hash, hashes);
  }

  /** `PreparedObject::build_metadata`: the count an object of that size has, and no segment to serve. */
  method BuildMetadata(name: Name, version: nat, size: nat, chunkSize: nat, hash: seq<byte> -> seq<byte>)
    returns (p: Prepared, hashes: Option<seq<seq<byte>>>)
    requires Valid(name) && version < U64 && chunkSize < U64 && size < U64
    requires |Key(Versioned(name, version))| < U64
    requires 32 * FileCount(size, if chunkSize == 0 then 8192 else chunkSize) < U64
    requires forall x :: |hash(x)| == 32
    ensures p.source == Phantom(FileCount(size, if chunkSize == 0 then 8192 else chunkSize)) && p.source.Usable()
    ensures Assembled(p, name, version, p.source, size, if chunkSize == 0 then 8192 else chunkSize, false, hash, hashes)
    ensures forall i :: p.source.Read(i) == None
  {
    hide Key, Assembled;
    var chunk := if chunkSize == 0 then 8192 else chunkSize;
    CountOfSize(size, chunk);
    p, hashes := Assemble(name, version, Phantom(FileCount(size, chunk)), size, chunk, false, hash);
    AssembledSource(p, name, version, Phantom(FileCount(size, chunk)), size, chunk, hash, hashes);
  }

  lemma AssembledSource(p: Prepared, name: Name, version: nat, source: Source, size: nat, chunk: nat,
                        hash: seq<byte> -> seq<byte>, hashes: Option<seq<seq<byte>>>)
    requires source.Usable() && Assembled(p, name, version, source, size, chunk, false, hash, hashes)
    ensures p.source == source
  {
  }

  lemma CountOfSize(size: nat, chunk: nat)
    requires chunk > 0
    ensures FileCount(size, chunk) > 0
  {
    if size > 0 {
      Divided(size + chunk - 1, chunk);
      if (size + chunk - 1) / chunk <= 0 {
        MulNonPositive((size + chunk - 1) / chunk, chunk);
      }
    }
  }

  lemma MulNonPositive(q: int, a: int)
    requires q <= 0 && a > 0
    ensures q * a <= 0
  {
  }

  lemma AnnouncementSized(name: Name, version: nat, count: nat, size: nat, chunk: nat, hashes: Option<seq<seq<byte>>>)
    requires Valid(name) && 0 < count && size < U64 && chunk < U64 && |Key(Versioned(name, version))| < U64
    requires hashes.Some? ==> Digests(hashes.value) && |Join(hashes.value)| < U64
    ensures Sized(Announce(name, version, count, size, chunk, hashes))
    ensures WireTypes(Versioned(name, version)) <==> WireTypes(name)
  {
    hide Key, Join;
    IntegerWidth(count - 1);
    IntegerWidth(version);
    if WireTypes(Versioned(name, version)) {
      forall i | 0 <= i < |name|
        ensures name[i].typ < U32
      {
        assert Versioned(name, version)[i] == name[i];
      }
    }
  }

  // ---------------------------------------------------------------------------------------
  // Answering
  // ---------------------------------------------------------------------------------------

  datatype Answer = NoAnswer | MetaAnswer | SegmentAnswer(name: Name, payload: seq<byte>, final: bool)

  predicate IsMetadataKeyword(c: Component) {
    c.typ == KEYWORD && c.value == METADATA_KEYWORD
  }

  predicate AsksMetadata(p: Prepared, interest: Name) {
    && HasPrefix(interest, p.objectName)
    && exists i :: |p.objectName| <= i < |interest| && IsMetadataKeyword(interest[i])
  }

  function AskedSegment(p: Prepared, interest: Name): Option<nat> {
    if HasPrefix(interest, p.versionedName) && interest != [] && interest[|interest| - 1].typ == SEGMENT
    then Some(DecodeInteger(interest[|interest| - 1].value))
    else None
  }

  /** The packet for segment `seg`. */
  function SegmentPacket(p: Prepared, seg: nat): Answer
    requires p.source.Usable()
  {
    match p.source.Read(seg)
    case None => NoAnswer
    case Some(payload) => SegmentAnswer(SegmentName(p.versionedName, seg), payload, seg == p.lastSeg)
  }

  /** `answer_interest` up to signing. */
  function AnswerInterest(p: Prepared, interest: Name): Answer
    requires p.source.Usable()
  {
    if AsksMetadata(p, interest) then MetaAnswer
    else
      match AskedSegment(p, interest)
      case None => NoAnswer
      case Some(seg) => SegmentPacket(p, seg)
  }

  /** A metadata keyword stands somewhere behind the object name. */
  predicate NamesMetadata(p: Prepared, interest: Name) {
    p.objectName <= interest && Component(KEYWORD, METADATA_KEYWORD) in interest[|p.objectName|..]
  }

  /** Behind the versioned name, the last component is a segment number, and the source holds that segment. */
  predicate NamesSegment(p: Prepared, interest: Name, seg: nat)
    requires p.source.Usable()
  {
    && p.versionedName <= interest && interest != []
    && interest[|interest| - 1].typ == SEGMENT && FromBE(interest[|interest| - 1].value) % U64 == seg
    && p.source.Read(seg).Some?
  }

  /** Segment `seg` of the source, named by the versioned name and its number, final exactly if it is the last. */
  function TheSegment(p: Prepared, seg: nat): Answer
    requires p.source.Usable() && p.source.Read(seg).Some?
  {
    var name := p.versionedName + [Component(SEGMENT, EncodeInteger(seg))];
    SegmentAnswer(name, p.source.Read(seg).value, seg == p.lastSeg)
  }

  /**
   For every name: the answer is the metadata exactly if the name says so; otherwise it is a segment
   exactly if the name says so, and then that segment, whatever else stands in the name; everything
   else is left alone, so no name outside the object is answered.
   */
  lemma AnswerIff(p: Prepared, interest: Name)
    requires p.source.Usable()
    ensures AnswerInterest(p, interest) == MetaAnswer <==> NamesMetadata(p, interest)
    ensures AnswerInterest(p, interest) == NoAnswer <==>
            !NamesMetadata(p, interest) && !exists seg :: NamesSegment(p, interest, seg)
    ensures forall seg :: !NamesMetadata(p, interest) && NamesSegment(p, interest, seg) ==>
              AnswerInterest(p, interest) == TheSegment(p, seg)
    ensures AnswerInterest(p, interest) != NoAnswer && p.objectName <= p.versionedName ==> p.objectName <= interest
  {
    hide EncodeInteger;
    Beginning(interest, p.objectName);
    Beginning(interest, p.versionedName);
    var n := |p.objectName|;
    if AsksMetadata(p, interest) {
      var i :| n <= i < |interest| && IsMetadataKeyword(interest[i]);
      assert interest[n..][i - n] == Component(KEYWORD, METADATA_KEYWORD);
    }
    if NamesMetadata(p, interest) {
      var i :| 0 <= i < |interest[n..]| && interest[n..][i] == Component(KEYWORD, METADATA_KEYWORD);
      assert IsMetadataKeyword(interest[n + i]);
    }
    var asked := AskedSegment(p, interest);
    if asked.Some? && p.source.Read(asked.value).Some? {
      assert NamesSegment(p, interest, asked.value);
    }
  }

  lemma Beginning(n: Name, p: Name)
    ensures HasPrefix(n, p) <==> p <= n
  {
  }

  /**
   The Interest for segment `seg` is answered by that segment under the name it asked for, flagged
   final exactly for the last; numbers past the end get no answer; and discovery gets the metadata.
   */
  lemma AnswersItsNames(p: Prepared, version: nat, segments: seq<seq<byte>>, seg: nat)
    requires p.versionedName == Versioned(p.objectName, version) && seg < U64
    requires Serves(p.source, segments) && p.lastSeg + 1 == |segments|
    ensures AnswerInterest(p, SegmentName(p.versionedName, seg)) ==
            if seg < |segments|
            then SegmentAnswer(SegmentName(p.versionedName, seg), segments[seg], seg + 1 == |segments|)
            else NoAnswer
    ensures AnswerInterest(p, p.objectName + [Component(KEYWORD, METADATA_KEYWORD)]) == MetaAnswer
  {
    hide EncodeInteger, DecodeInteger, Canonical;
    IntegerRoundTrip(seg);
    var n, d := |p.objectName|, p.objectName + [Component(KEYWORD, METADATA_KEYWORD)];
    assert IsMetadataKeyword(d[n]);
    var interest := SegmentName(p.versionedName, seg);
    assert interest[n] == p.versionedName[n];
    assert forall i :: n <= i < |interest| ==> !IsMetadataKeyword(interest[i]);
    assert interest[|interest| - 1] == Component(SEGMENT, EncodeInteger(seg));
  }

  // ---------------------------------------------------------------------------------------
  // Reassembly
  // ---------------------------------------------------------------------------------------

  type Deliveries = seq<(nat, seq<byte>)>

  /** Every segment handed over exactly once, in any order. */
  ghost predicate AnyOrder(sunk: Deliveries, segments: seq<seq<byte>>) {
    && Right(sunk, segments)
    && forall g :: 0 <= g < |segments| ==> Handed(sunk, g)
  }

  predicate Handed(sunk: Deliveries, g: nat) {
    exists i :: 0 <= i < |sunk| && sunk[i].0 == g
  }

  ghost predicate Right(sunk: Deliveries, segments: seq<seq<byte>>) {
    && (forall i :: 0 <= i < |sunk| ==> sunk[i].0 < |segments| && sunk[i].1 == segments[sunk[i].0])
    && (forall i, j :: 0 <= i < j < |sunk| ==> sunk[i].0 != sunk[j].0)
  }

  /** A completed windowed fetch of correctly verified frames delivers in some order. */
  lemma FetchDelivers(s: Fetch.State, held: seq<bool>, frames: set<(nat, Fetch.Verdict)>, segments: seq<seq<byte>>)
    requires Fetch.Inv(s, held, frames) && |segments| == |held|
    requires forall g :: 0 <= g < |held| ==> !held[g] && s.done[g]
    requires forall x, v :: (x, v) in frames && v.Verified? && x < |segments| ==> Fetch.Content(v) == segments[x]
    ensures AnyOrder(s.sunk, segments)
  {
    forall i | 0 <= i < |s.sunk|
      ensures s.sunk[i].0 < |segments| && s.sunk[i].1 == segments[s.sunk[i].0]
    {
      assert Fetch.FromFrame(s.sunk[i].0, s.sunk[i].1, frames);
    }
    forall g | 0 <= g < |segments|
      ensures Handed(s.sunk, g)
    {
      assert !held[g] && s.done[g];
    }
  }

  /** The in-memory consumer: a slot per segment, filled as they come, then joined in order. */
  method JoinByIndex(sunk: Deliveries, lastSeg: nat, ghost segments: seq<seq<byte>>) returns (out: seq<byte>)
    requires AnyOrder(sunk, segments) && |segments| == lastSeg + 1
    ensures out == Join(segments)
  {
    hide Join;
    var chunks: seq<Option<seq<byte>>> := seq(lastSeg + 1, _ => None);
    for i := 0 to |sunk|
      invariant |chunks| == lastSeg + 1
      invariant forall j :: 0 <= j < i ==> chunks[sunk[j].0] == Some(segments[sunk[j].0])
    {
      chunks := chunks[sunk[i].0 := Some(sunk[i].1)];
    }
    out := [];
    assert segments[0..] == segments;
    for g := 0 to |chunks|
      invariant out + Join(segments[g..]) == Join(segments)
    {
      assert Handed(sunk, g);
      var piece := if chunks[g].Some? then chunks[g].value else [];
      JoinNext(segments, g);
      ConcatAssoc(out, piece, Join(segments[g + 1..]));
      out := out + piece;
    }
    JoinNothing(segments);
  }

  lemma JoinNext(segments: seq<seq<byte>>, g: nat)
    requires g < |segments|
    ensures Join(segments[g..]) == segments[g] + Join(segments[g + 1..])
  {
    assert segments[g..][1..] == segments[g + 1..];
  }

  lemma JoinNothing(segments: seq<seq<byte>>)
    ensures Join(segments[|segments|..]) == []
  {
  }

  function Zeros(n: nat): (z: seq<byte>)
    ensures |z| == n
  {
    if n == 0 then [] else Zeros(n - 1) + [0]
  }

  /** A positioned write: it extends the file when needed and leaves everything else alone. */
  function WriteAt(file: seq<byte>, bytes: seq<byte>, off: nat): seq<byte> {
    if bytes == [] then file
    else
      var padded := if |file| < off then file + Zeros(off - |file|) else file;
      padded[..off] + bytes + if |padded| > off + |bytes| then padded[off + |bytes|..] else []
  }

  lemma WriteAtLaws(file: seq<byte>, bytes: seq<byte>, off: nat)
    requires bytes != []
    ensures var r := WriteAt(file, bytes, off); var end := off + |bytes|;
            && |r| == (if |file| < end then end else |file|) && r[off..end] == bytes
            && (forall x :: 0 <= x < |file| && (x < off || end <= x) ==> r[x] == file[x])
  {
  }

  function WriteAll(file: seq<byte>, sunk: Deliveries, segSize: nat): seq<byte> {
    if sunk == [] then file
    else
      var last := sunk[|sunk| - 1];
      WriteAt(WriteAll(file, sunk[..|sunk| - 1], segSize), last.1, Offset(last.0, segSize))
  }

  function End(content: seq<byte>, chunk: nat, g: nat): nat {
    Min(Offset(g, chunk) + chunk, |content|)
  }

  /** The file holds segment `g` where it belongs. */
  predicate Holds(file: seq<byte>, content: seq<byte>, chunk: nat, g: nat) {
    var start, end := Offset(g, chunk), End(content, chunk, g);
    start <= end <= |file| && file[start..end] == content[start..end]
  }

  /** Nothing past the content was touched. */
  predicate TailKept(file: seq<byte>, was: seq<byte>, content: seq<byte>) {
    && |was| <= |file| && (|file| <= |was| || |file| <= |content|)
    && forall x :: |content| <= x < |file| && x < |was| ==> file[x] == was[x]
  }

  lemma OffsetStep(g: nat, h: nat, chunk: nat)
    requires g < h && chunk > 0
    ensures Offset(g, chunk) + chunk <= Offset(h, chunk)
  {
    Distribute(h, g, chunk);
    MulAtLeast(h - g, chunk);
  }

  lemma Disjoint(file: seq<byte>, bytes: seq<byte>, content: seq<byte>, chunk: nat, g: nat, h: nat)
    requires chunk > 0 && g != h && Holds(file, content, chunk, g)
    requires bytes != [] && Offset(h, chunk) + |bytes| == End(content, chunk, h)
    ensures Holds(WriteAt(file, bytes, Offset(h, chunk)), content, chunk, g)
  {
    hide Offset, WriteAt;
    WriteAtLaws(file, bytes, Offset(h, chunk));
    OffsetStep(if g < h then g else h, if g < h then h else g, chunk);
  }

  lemma {:induction false} WrittenSoFar(file: seq<byte>, sunk: Deliveries, content: seq<byte>, chunk: nat)
    requires chunk > 0 && content != [] && Right(sunk, Chunks(content, chunk))
    ensures var r := WriteAll(file, sunk, chunk);
            && TailKept(r, file, content)
            && forall i :: 0 <= i < |sunk| ==> Holds(r, content, chunk, sunk[i].0)
    decreases |sunk|
  {
    hide Offset, WriteAt, Chunks, Holds;
    if sunk != [] {
      var n := |sunk| - 1;
      var (h, bytes) := sunk[n];
      var before := WriteAll(file, sunk[..n], chunk);
      WrittenSoFar(file, sunk[..n], content, chunk);
      ChunkAt(content, chunk, h);
      WriteAtLaws(before, bytes, Offset(h, chunk));
      var r := WriteAt(before, bytes, Offset(h, chunk));
      WrittenHolds(before, bytes, content, chunk, h);
      forall i | 0 <= i < n
        ensures Holds(r, content, chunk, sunk[i].0)
      {
        assert sunk[..n][i] == sunk[i];
        Disjoint(before, bytes, content, chunk, sunk[i].0, h);
      }
    }
  }

  lemma WrittenHolds(file: seq<byte>, bytes: seq<byte>, content: seq<byte>, chunk: nat, h: nat)
    requires Offset(h, chunk) < End(content, chunk, h)
    requires bytes == content[Offset(h, chunk)..End(content, chunk, h)]
    ensures Holds(WriteAt(file, bytes, Offset(h, chunk)), content, chunk, h)
  {
    hide Offset, WriteAt;
    WriteAtLaws(file, bytes, Offset(h, chunk));
  }

  lemma {:induction false} Covered(file: seq<byte>, content: seq<byte>, chunk: nat, i: nat)
    requires chunk > 0 && content != [] && i < |Chunks(content, chunk)|
    requires forall g :: 0 <= g <= i ==> Holds(file, content, chunk, g)
    ensures var e := End(content, chunk, i); e <= |file| && file[..e] == content[..e]
    decreases i
  {
    hide Offset, Chunks;
    ChunkAt(content, chunk, i);
    var start, end := Offset(i, chunk), End(content, chunk, i);
    assert Holds(file, content, chunk, i);
    if i > 0 {
      Covered(file, content, chunk, i - 1);
      OffsetNext(i, chunk);
      assert file[..end] == file[..start] + file[start..end];
      assert content[..end] == content[..start] + content[start..end];
    } else {
      OffsetZero(chunk);
    }
  }

  lemma OffsetNext(i: nat, chunk: nat)
    requires i > 0
    ensures Offset(i, chunk) == Offset(i - 1, chunk) + chunk
  {
    Distribute(i, 1, chunk);
  }

  lemma OffsetZero(chunk: nat)
    ensures Offset(0, chunk) == 0
  {
  }

  /** Positioned writes in any order leave the content, followed by whatever the file had beyond it. */
  lemma WritesGiveContent(file: seq<byte>, sunk: Deliveries, content: seq<byte>, chunk: nat)
    requires chunk > 0 && AnyOrder(sunk, Segments(content, chunk))
    ensures WriteAll(file, sunk, chunk) == content + if |file| > |content| then file[|content|..] else []
  {
    hide Offset, WriteAt, Chunks, Holds, WriteAll;
    if content == [] {
      OneEmpty(file, sunk, chunk);
    } else {
      var r, last := WriteAll(file, sunk, chunk), |Chunks(content, chunk)| - 1;
      WrittenSoFar(file, sunk, content, chunk);
      SegmentsJoin(content, chunk);
      forall g | 0 <= g <= last
        ensures Holds(r, content, chunk, g)
      {
        assert Handed(sunk, g);
      }
      Covered(r, content, chunk, last);
      ChunkAt(content, chunk, last);
      assert content[..|content|] == content;
      assert r == r[..|content|] + r[|content|..];
    }
  }

  lemma OneEmpty(file: seq<byte>, sunk: Deliveries, chunk: nat)
    requires chunk > 0 && AnyOrder(sunk, [[]])
    ensures WriteAll(file, sunk, chunk) == file
  {
    hide Offset;
    assert Handed(sunk, 0);
    assert |sunk| > 1 ==> sunk[0].0 != sunk[1].0;
    assert sunk[..0] == [];
  }

  // ---------------------------------------------------------------------------------------
  // File-backed objects
  // ---------------------------------------------------------------------------------------

  lemma {:induction false} AllAtZero(sunk: Deliveries)
    requires forall i :: 0 <= i < |sunk| ==> |sunk[i].1| <= 1
    ensures |WriteAll([], sunk, 0)| <= 1
    decreases |sunk|
  {
    if sunk != [] {
      AllAtZero(sunk[..|sunk| - 1]);
    }
  }

  /**
   A file-backed object downloaded to a fresh file at the announced segment size comes back as
   itself if and only if the chunk size is not zero or the file has at most one byte: with chunk
   size zero the object is cut by one byte but announces zero, so every write lands at offset 0.
   */
  lemma FileDownload(file: seq<byte>, sunk: Deliveries, chunkSize: nat)
    requires AnyOrder(sunk, Segments(file, FileChunk(chunkSize)))
    ensures WriteAll([], sunk, chunkSize) == file <==> chunkSize > 0 || |file| <= 1
  {
    hide Chunks, WriteAll;
    var segments := Segments(file, FileChunk(chunkSize));
    if chunkSize > 0 {
      WritesGiveContent([], sunk, file, chunkSize);
    } else {
      ShortSegments(file, sunk);
      AllAtZero(sunk);
      if |file| <= 1 {
        OneSegment(file, sunk);
      }
    }
  }

  lemma ShortSegments(file: seq<byte>, sunk: Deliveries)
    requires Right(sunk, Segments(file, 1))
    ensures forall i :: 0 <= i < |sunk| ==> |sunk[i].1| <= 1
  {
    hide Chunks;
    ChunksJoin(file, 1);
  }

  lemma OneSegment(file: seq<byte>, sunk: Deliveries)
    requires |file| <= 1 && AnyOrder(sunk, Segments(file, 1))
    ensures WriteAll([], sunk, 0) == file
  {
    assert Segments(file, 1) == [file];
    assert Handed(sunk, 0);
    assert |sunk| > 1 ==> sunk[0].0 != sunk[1].0;
    assert sunk[..0] == [];
    assert sunk[0] == (0, file);
  }

  // ---------------------------------------------------------------------------------------
  // From object to object
  // ---------------------------------------------------------------------------------------

  /**
   The whole way: what a consumer reads out of the published metadata is enough to put the object
   back together from the verified frames of a completed fetch, both ways.
   */
  lemma ObjectIdentity(meta: seq<byte>, name: Name, version: nat, content: seq<byte>, chunk: nat,
                       hashes: Option<seq<seq<byte>>>, s: Fetch.State, held: seq<bool>,
                       frames: set<(nat, Fetch.Verdict)>, file: seq<byte>)
    requires chunk > 0 && Describes(meta, name, version, |Segments(content, chunk)|, |content|, chunk, hashes)
    requires LastSegment(Decode(meta).meta.finalBlockId) == Some(|held| - 1)
    requires Fetch.Inv(s, held, frames) && forall g :: 0 <= g < |held| ==> !held[g] && s.done[g]
    requires forall x, v :: (x, v) in frames && v.Verified? && x < |Segments(content, chunk)| ==>
               Fetch.Content(v) == Segments(content, chunk)[x]
    ensures AnyOrder(s.sunk, Segments(content, chunk)) && Join(Segments(content, chunk)) == content
    ensures var m := Decode(meta).meta;
            && m.segmentSize.Some? && m.size == Some(|content|)
            && WriteAll(file, s.sunk, m.segmentSize.value) ==
               content + if |file| > |content| then file[|content|..] else []
  {
    hide Decode, Join, Chunks, WriteAll, LastSegment, Fetch.Inv;
    FetchDelivers(s, held, frames, Segments(content, chunk));
    SegmentsJoin(content, chunk);
    WritesGiveContent(file, s.sunk, content, chunk);
  }
}
