/** What bytes mean as RDR metadata: the decoder on every input, encoded by the encoder or not. */
module RdrWire {
  import opened Bytes
  import opened Fragment
  import opened NameKey
  import opened NameUri
  import opened Options
  import opened Rdr
  import opened Tlv

  // ---------------------------------------------------------------------------------------
  // Elements and names
  // ---------------------------------------------------------------------------------------

  /** Whatever reads as an element is one, with a 32-bit type. */
  lemma ReadOnly(buf: seq<byte>)
    requires ReadElement(buf).Some?
    ensures var r := ReadElement(buf).value;
            r.typ < U32 && |r.value| < U64 && r.size == |Element(r.typ, r.value)|
            && buf == Element(r.typ, r.value) + buf[r.size..]
  {
    hide ReadVar, VarNum, VarSize;
    var (typ, n) := ReadVar(buf).value;
    var (len, k) := ReadVar(buf[n..]).value;
    ReadVarUnique(buf);
    ReadVarUnique(buf[n..]);
    var value := buf[n + k..n + k + len];
    assert buf == buf[..n] + buf[n..][..k] + value + buf[n + k + len..];
  }

  /** Bytes are a name exactly if they are the elements of its components, all types below 2^32. */
  lemma {:induction false} NameIff(buf: seq<byte>, n: Name)
    requires |buf| < U64
    ensures DecodeName(buf) == Some(n) <==> WireTypes(n) && Key(n) == buf
  {
    if DecodeName(buf) == Some(n) {
      NameOnly(buf, n);
    }
    if WireTypes(n) && Key(n) == buf {
      ValidKey(n);
      NameOnWire(n);
    }
  }

  lemma {:induction false} NameOnly(buf: seq<byte>, n: Name)
    requires DecodeName(buf) == Some(n)
    ensures WireTypes(n) && Key(n) == buf
    decreases |buf|
  {
    hide ReadElement, Element;
    if buf != [] {
      var r := ReadElement(buf).value;
      ReadOnly(buf);
      NameOnly(buf[r.size..], n[1..]);
    }
  }

  lemma {:induction false} ValidKey(n: Name)
    requires WireTypes(n) && |Key(n)| < U64
    ensures Valid(n)
  {
    if n != [] {
      ValidKey(n[1..]);
      assert n == [n[0]] + n[1..];
    }
  }

  // ---------------------------------------------------------------------------------------
  // Metadata
  // ---------------------------------------------------------------------------------------

  /** Names are names, integers are 1, 2, 4 or 8 bytes wide, and hashes come in 32 bytes. */
  ghost predicate Good(item: Item) {
    && (item.0 == NAME ==> exists n :: WireTypes(n) && Key(n) == item.1)
    && (item.0 == SEGMENT_SIZE || item.0 == SIZE ==> |item.1| in {1, 2, 4, 8})
    && (item.0 == SEGMENT_HASHES ==> |item.1| % 32 == 0)
  }

  function ReasonFor(item: Item): Reason {
    if item.0 == NAME then BadName
    else if item.0 == SEGMENT_HASHES then BadHashes(|item.1|)
    else BadInteger(|item.1|)
  }

  function IntegerIn(v: Option<seq<byte>>): Option<nat> {
    if v.Some? then Some(FromBE(v.value) % U64) else None
  }

  /** The draft holds the last item of each kind. */
  ghost predicate Holds(d: Draft, items: seq<Item>) {
    && d.name == (match Last(items, NAME) case None => None case Some(v) => DecodeName(v))
    && d.finalBlockId == Last(items, FINAL_BLOCK_ID)
    && d.segmentSize == IntegerIn(Last(items, SEGMENT_SIZE))
    && d.size == IntegerIn(Last(items, SIZE))
    && d.hashes == (match Last(items, SEGMENT_HASHES) case None => None case Some(v) => Some(Chunks(v, 32)))
  }

  lemma TakeIff(d: Draft, item: Item)
    requires |item.1| < U64
    ensures if Good(item) then Take(d, item.0, item.1).Keep?
            else Take(d, item.0, item.1) == Drop(ReasonFor(item))
  {
    hide DecodeName, Key, WireTypes, DecodeInteger, Chunks;
    if item.0 == NAME {
      forall n
        ensures DecodeName(item.1) == Some(n) <==> WireTypes(n) && Key(n) == item.1
      {
        NameIff(item.1, n);
      }
    }
  }

  lemma TakeHolds(d: Draft, items: seq<Item>, item: Item)
    requires Holds(d, items) && Take(d, item.0, item.1).Keep?
    ensures Holds(Take(d, item.0, item.1).draft, items + [item])
  {
    hide DecodeName, Chunks, FromBE;
    assert (items + [item])[..|items|] == items;
  }

  ghost predicate AllGood(items: seq<Item>) {
    forall i :: 0 <= i < |items| ==> Good(items[i])
  }

  /** The first item that is not good decides. */
  ghost predicate FirstBad(items: seq<Item>, k: nat) {
    k < |items| && !Good(items[k]) && forall i :: 0 <= i < k ==> Good(items[i])
  }

  lemma {:induction false} TakeMeans(items: seq<Item>)
    requires Writable(items)
    ensures match TakeAll(items, BLANK)
            case Keep(d) => AllGood(items) && Holds(d, items)
            case Drop(reason) => exists k: nat :: FirstBad(items, k) && reason == ReasonFor(items[k])
  {
    hide Take, Good, Holds, ReasonFor;
    if items == [] {
      BlankHolds();
    } else {
      var n := |items| - 1;
      var init, item := items[..n], items[n];
      TakeMeans(init);
      assert items == init + [item];
      TakeConcat(init, [item], BLANK);
      match TakeAll(init, BLANK)
      case Drop(reason) =>
        var k: nat :| FirstBad(init, k) && reason == ReasonFor(init[k]);
        assert forall i :: 0 <= i <= k ==> items[i] == init[i];
        assert FirstBad(items, k);
      case Keep(d) =>
        TakeOne(item, d);
        TakeIff(d, item);
        if Good(item) {
          TakeHolds(d, init, item);
        } else {
          assert FirstBad(items, n);
        }
    }
  }

  lemma BlankHolds()
    ensures Holds(BLANK, [])
  {
  }

  /** The items say exactly this: all are good, and the last of each kind counts. */
  ghost predicate Says(items: seq<Item>, m: MetaData) {
    && AllGood(items) && WireTypes(m.versionedName)
    && Last(items, NAME) == Some(Key(m.versionedName))
    && Last(items, FINAL_BLOCK_ID) == Some(m.finalBlockId)
    && m.segmentSize == IntegerIn(Last(items, SEGMENT_SIZE))
    && m.size == IntegerIn(Last(items, SIZE))
    && match m.hashes
       case None => Last(items, SEGMENT_HASHES) == None
       case Some(hs) => Digests(hs) && Last(items, SEGMENT_HASHES) == Some(Join(hs))
  }

  lemma {:induction false} LastIn(items: seq<Item>, t: nat)
    ensures Last(items, t).Some? ==> exists i :: 0 <= i < |items| && items[i] == (t, Last(items, t).value)
  {
    if items != [] {
      var n := |items| - 1;
      LastIn(items[..n], t);
      if items[n].0 != t && Last(items, t).Some? {
        var i :| 0 <= i < n && items[..n][i] == (t, Last(items, t).value);
        assert items[i] == (t, Last(items, t).value);
      } else {
        assert items[n] == (items[n].0, items[n].1);
      }
    }
  }

  lemma HashesIff(v: seq<byte>, hs: seq<seq<byte>>)
    requires |v| % 32 == 0
    ensures hs == Chunks(v, 32) <==> Digests(hs) && Join(hs) == v
  {
    if hs == Chunks(v, 32) {
      ChunksJoin(v, 32);
      WholeChunks(v);
    }
    if Digests(hs) && Join(hs) == v {
      DigestsSplit(hs);
    }
  }

  lemma {:induction false} WholeChunks(v: seq<byte>)
    requires |v| % 32 == 0
    ensures Digests(Chunks(v, 32))
  {
    if |v| > 32 {
      WholeChunks(v[32..]);
    }
  }

  lemma HeldSays(items: seq<Item>, d: Draft, m: MetaData)
    requires Writable(items) && AllGood(items) && Holds(d, items)
    ensures Finish(Keep(d)) == Accepted(m) <==> Says(items, m)
  {
    hide DecodeName, Chunks, FromBE, Key, Join, Digests, WireTypes, Last, Good;
    LastIn(items, NAME);
    LastIn(items, SEGMENT_HASHES);
    if Last(items, NAME).Some? {
      NameIff(Last(items, NAME).value, m.versionedName);
      GoodName(items);
    }
    if Last(items, SEGMENT_HASHES).Some? {
      GoodHashes(items);
      if m.hashes.Some? {
        HashesIff(Last(items, SEGMENT_HASHES).value, m.hashes.value);
      }
    }
  }

  lemma GoodName(items: seq<Item>)
    requires Writable(items) && AllGood(items) && Last(items, NAME).Some?
    ensures DecodeName(Last(items, NAME).value).Some?
  {
    hide DecodeName, Key, WireTypes;
    LastIn(items, NAME);
    var v := Last(items, NAME).value;
    var i :| 0 <= i < |items| && items[i] == (NAME, v);
    assert Good(items[i]);
    var n :| WireTypes(n) && Key(n) == v;
    NameIff(v, n);
  }

  lemma GoodHashes(items: seq<Item>)
    requires AllGood(items) && Last(items, SEGMENT_HASHES).Some?
    ensures |Last(items, SEGMENT_HASHES).value| % 32 == 0
  {
    LastIn(items, SEGMENT_HASHES);
    var v := Last(items, SEGMENT_HASHES).value;
    var i :| 0 <= i < |items| && items[i] == (SEGMENT_HASHES, v);
    assert Good(items[i]);
  }

  /** What the decoder makes of a list of elements: the metadata they say, or the reason of the first bad one. */
  lemma DecodeMeans(items: seq<Item>, m: MetaData)
    requires Writable(items)
    ensures Decode(EncodeItems(items)) == Accepted(m) <==> Says(items, m)
    ensures forall k: nat :: FirstBad(items, k) ==> Decode(EncodeItems(items)) == Refused(ReasonFor(items[k]))
    ensures AllGood(items) && Last(items, NAME) == None ==> Decode(EncodeItems(items)) == Refused(MissingName)
    ensures AllGood(items) && Last(items, NAME) != None && Last(items, FINAL_BLOCK_ID) == None ==>
              Decode(EncodeItems(items)) == Refused(MissingFinalBlock)
  {
    hide Collect, TakeAll, EncodeItems, Good, ReasonFor, Last, DecodeName;
    CollectItems(items, BLANK);
    TakeMeans(items);
    match TakeAll(items, BLANK)
    case Keep(d) =>
      HeldSays(items, d, m);
      if Last(items, NAME).Some? {
        GoodName(items);
      }
      assert forall k: nat :: k < |items| ==> Good(items[k]);
    case Drop(reason) =>
      var k: nat :| FirstBad(items, k) && reason == ReasonFor(items[k]);
      forall k': nat | FirstBad(items, k')
        ensures k' == k
      {
        SameFirst(items, k, k');
      }
      assert !AllGood(items);
  }

  lemma SameFirst(items: seq<Item>, k: nat, k': nat)
    requires FirstBad(items, k) && FirstBad(items, k')
    ensures k == k'
  {
    hide Good;
  }

  /** What is accepted at all is a sequence of elements. */
  lemma {:induction false} CollectOnly(buf: seq<byte>, d: Draft) returns (items: seq<Item>)
    requires Collect(buf, d).Keep?
    ensures Writable(items) && buf == EncodeItems(items)
    decreases |buf|
  {
    hide ReadElement, Take, Element;
    if buf == [] {
      return [];
    }
    var r := ReadElement(buf).value;
    ReadOnly(buf);
    var rest := CollectOnly(buf[r.size..], Take(d, r.typ, r.value).draft);
    items := [(r.typ, r.value)] + rest;
    assert items[1..] == rest;
  }

  /** Bytes are accepted as metadata exactly if they are elements that say it. */
  lemma DecodeIff(buf: seq<byte>, m: MetaData)
    ensures Decode(buf) == Accepted(m) <==>
            exists items :: Writable(items) && buf == EncodeItems(items) && Says(items, m)
  {
    hide Collect, EncodeItems, Says, Writable;
    if Decode(buf) == Accepted(m) {
      var items := CollectOnly(buf, BLANK);
      DecodeMeans(items, m);
    }
    forall items | Writable(items) && buf == EncodeItems(items) && Says(items, m)
      ensures Decode(buf) == Accepted(m)
    {
      DecodeMeans(items, m);
    }
  }
}
