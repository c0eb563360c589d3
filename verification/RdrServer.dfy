/**
 Answering Interests for a prepared object, with the caches of signed packets. Signing is a foreign
 call that may give a different packet each time, or fail; it is a function of the packet and of
 how often it was called.
 */
module RdrServer {
  import opened Bytes
  import opened NameUri
  import opened Options
  import opened RdrObject

  type Packet = seq<byte>
  type Signer = (Answer, nat) -> Option<Packet>

  datatype Reply = Sent(wire: Packet) | NotOurs | SignFailed

  /** `wire` is `a` as signed by one of the first `calls` calls. */
  predicate SignedBy(wire: Packet, a: Answer, sign: Signer, calls: nat) {
    exists k :: 0 <= k < calls && sign(a, k) == Some(wire)
  }

  class Server {
    const prepared: Prepared
    const sign: Signer
    var segCache: map<nat, Packet>
    var metaCache: Option<Packet>
    var calls: nat

    /** The caches hold signed packets of the object. */
    ghost predicate Valid()
      reads this
    {
      && prepared.source.Usable()
      && (forall seg :: seg in segCache ==>
            SegmentPacket(prepared, seg) != NoAnswer
            && SignedBy(segCache[seg], SegmentPacket(prepared, seg), sign, calls))
      && (metaCache.Some? ==> SignedBy(metaCache.value, MetaAnswer, sign, calls))
    }

    /** The signed packet that an Interest asks for, if there is one already. */
    ghost function Cached(interest: Name): Option<Packet>
      reads this
    {
      if AsksMetadata(prepared, interest) then metaCache
      else
        match AskedSegment(prepared, interest)
        case None => None
        case Some(seg) => if seg in segCache then Some(segCache[seg]) else None
    }

    constructor (prepared: Prepared, sign: Signer)
      requires prepared.source.Usable()
      ensures Valid() && this.prepared == prepared && this.sign == sign
      ensures segCache == map[] && metaCache == None && calls == 0
    {
      this.prepared, this.sign := prepared, sign;
      segCache, metaCache, calls := map[], None, 0;
    }

    /** One signing; what was signed before stays signed. */
    method Sign(a: Answer) returns (wire: Option<Packet>)
      requires Valid()
      modifies this`calls
      ensures Valid() && calls == old(calls) + 1 && wire == sign(a, old(calls))
      ensures wire.Some? ==> SignedBy(wire.value, a, sign, calls)
    {
      hide SegmentPacket;
      wire := sign(a, calls);
      calls := calls + 1;
      assert forall w, x :: old(SignedBy(w, x, sign, calls)) ==> SignedBy(w, x, sign, calls);
    }

    /** The metadata packet, from the cache if it was signed before. */
    method Metadata() returns (r: Reply)
      requires Valid()
      modifies this`metaCache, this`calls
      ensures Valid() && r != NotOurs && r.Sent? == metaCache.Some?
      ensures r.Sent? ==> metaCache == Some(r.wire)
      ensures old(metaCache).Some? ==> metaCache == old(metaCache) && calls == old(calls)
      ensures r == SignFailed ==> sign(MetaAnswer, old(calls)) == None
    {
      hide SegmentPacket;
      if metaCache.Some? {
        return Sent(metaCache.value);
      }
      var wire := Sign(MetaAnswer);
      if wire.None? {
        return SignFailed;
      }
      metaCache := wire;
      return Sent(wire.value);
    }

    /** A segment packet, from the cache if it was signed before. */
    method Segment(seg: nat) returns (r: Reply)
      requires Valid()
      modifies this`segCache, this`calls
      ensures Valid() && r.Sent? == (seg in segCache)
      ensures r.Sent? ==> segCache == old(segCache)[seg := r.wire]
      ensures seg in old(segCache) ==> segCache == old(segCache) && calls == old(calls)
      ensures r == NotOurs <==> SegmentPacket(prepared, seg) == NoAnswer
      ensures !r.Sent? ==> segCache == old(segCache)
      ensures r == SignFailed ==> sign(SegmentPacket(prepared, seg), old(calls)) == None
    {
      hide SegmentPacket;
      if seg in segCache {
        assert segCache[seg := segCache[seg]] == segCache;
        return Sent(segCache[seg]);
      }
      var packet := SegmentPacket(prepared, seg);
      if packet == NoAnswer {
        return NotOurs;
      }
      var wire := Sign(packet);
      if wire.None? {
        return SignFailed;
      }
      segCache := segCache[seg := wire.value];
      return Sent(wire.value);
    }

    /**
     `answer_interest`: the reply is the answer the object gives, signed; what was signed before is
     sent again without another signing and never replaced; a failed signing changes no cache.
     */
    method Answer(interest: Name) returns (r: Reply)
      requires Valid()
      modifies this
      ensures Valid()
      ensures r == NotOurs <==> AnswerInterest(prepared, interest) == NoAnswer
      ensures r == NotOurs <==>
              !NamesMetadata(prepared, interest) && !exists seg :: NamesSegment(prepared, interest, seg)
      ensures r.Sent? && NamesMetadata(prepared, interest) ==> SignedBy(r.wire, MetaAnswer, sign, calls)
      ensures r.Sent? && !NamesMetadata(prepared, interest) ==>
                exists seg :: NamesSegment(prepared, interest, seg)
                              && SignedBy(r.wire, TheSegment(prepared, seg), sign, calls)
      ensures r.Sent? ==> Cached(interest) == Some(r.wire)
                          && SignedBy(r.wire, AnswerInterest(prepared, interest), sign, calls)
      ensures old(Cached(interest)).Some? ==> r == Sent(old(Cached(interest)).value) && calls == old(calls)
      ensures forall other :: old(Cached(other)).Some? ==> Cached(other) == old(Cached(other))
      ensures !r.Sent? ==> segCache == old(segCache) && metaCache == old(metaCache)
      ensures r == SignFailed ==> sign(AnswerInterest(prepared, interest), old(calls)) == None
    {
      hide SegmentPacket, AsksMetadata, AskedSegment, SignedBy, NamesMetadata, NamesSegment, TheSegment;
      AnswerIff(prepared, interest);
      if AsksMetadata(prepared, interest) {
        r := Metadata();
        return;
      }
      match AskedSegment(prepared, interest)
      case None => return NotOurs;
      case Some(seg) => r := Segment(seg);
    }
  }
}
