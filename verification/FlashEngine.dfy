/**
 The flash engine with its mutable state: a NOR device over a byte array and the store object
 whose methods are proved to compute the functions of `FlashStore`.
 */
module FlashEngine {
  import opened Bytes
  import opened FlashFormat
  import Spec = FlashStore
  import opened FlashAtomicity
  import FlashRuns
  import opened Options
  import opened Backend

  type Geometry = Spec.Geometry
  type Fault = Spec.Fault
  type Outcome = Spec.Outcome

  /** A NOR flash that may lose power during a chosen operation. */
  class NorFlash {
    const g: Geometry
    const data: array<byte>
    var fault: Fault

    constructor (g: Geometry, data: array<byte>, fault: Fault)
      ensures this.g == g && this.data == data && this.fault == fault
    {
      this.g, this.data, this.fault := g, data, fault;
    }

    /** Programs bytes one at a time; each can only clear bits. */
    method Write(off: nat, bytes: seq<byte>) returns (ran: Spec.Ran)
      modifies this`fault, data
      ensures (data[..], ran) == Spec.Execute(old(data[..]), [Spec.Write(off, bytes)], old(fault), g)
      ensures ran == Spec.Done ==> fault == Spec.Later(old(fault), 1)
    {
      ghost var before := data[..];
      if !Spec.Accepts(data.Length, Spec.Write(off, bytes), g) {
        return Spec.Refused;
      }
      var cut := fault.At? && fault.step == 0;
      var n := if cut && fault.bytes < |bytes| then fault.bytes else |bytes|;
      var i := 0;
      while i < n
        invariant 0 <= i <= n
        invariant data[..] == Spec.Program(before, off, bytes[..i])
        invariant fault == old(fault)
      {
        data[off + i] := And(data[off + i], bytes[i]);
        i := i + 1;
      }
      WholeSlice(bytes);
      ExecuteNothing(data[..], Spec.Later(fault, 1), g);
      if cut {
        return Spec.Cut;
      }
      fault := Spec.Later(fault, 1);
      return Spec.Done;
    }

    /** Erases block by block. */
    method Erase(from: nat, to: nat) returns (ran: Spec.Ran)
      modifies this`fault, data
      ensures (data[..], ran) == Spec.Execute(old(data[..]), [Spec.Erase(from, to)], old(fault), g)
      ensures ran == Spec.Done ==> fault == Spec.Later(old(fault), 1)
    {
      ghost var before := data[..];
      if !Spec.Accepts(data.Length, Spec.Erase(from, to), g) {
        return Spec.Refused;
      }
      var cut := fault.At? && fault.step == 0;
      var i := from;
      while i < to
        invariant from <= i <= to
        invariant fault == old(fault)
        invariant data[..] == if cut then Spec.EraseSome(before, from, i, g.e, fault.blocks)
                              else Spec.EraseAll(before, from, i)
      {
        if !cut || (i - from) / g.e in fault.blocks {
          data[i] := 0xFF;
        }
        i := i + 1;
      }
      ExecuteNothing(data[..], Spec.Later(fault, 1), g);
      if cut {
        return Spec.Cut;
      }
      fault := Spec.Later(fault, 1);
      return Spec.Done;
    }
  }

  method EncodePayload(ops: seq<WriteOp>) returns (payload: seq<byte>)
    ensures payload == EncodeOps(ops)
  {
    hide LE, EncodeOps;
    NothingEncoded();
    payload := [];
    for i := 0 to |ops|
      invariant payload == EncodeOps(ops[..i])
    {
      match ops[i] {
        case Put(k, v) =>
          payload := payload + ([OP_PUT] + LE(|k|, 4) + k + LE(|v|, 4) + v);
        case Delete(k) =>
          payload := payload + ([OP_DEL] + LE(|k|, 4) + k);
      }
      assert ops[..i + 1] == ops[..i] + [ops[i]];
      EncodeConcat(ops[..i], [ops[i]]);
      LastApplied(map[], ops[i]);
    }
    assert ops[..|ops|] == ops;
  }

  lemma NothingEncoded()
    ensures EncodeOps([]) == []
  {
  }

  method Encode(ops: seq<WriteOp>, w: nat) returns (rec: seq<byte>)
    requires w > 0
    ensures rec == EncodeRecord(ops, w)
  {
    var payload := EncodePayload(ops);
    rec := LE(|payload|, 4) + payload + LE(Footer(|payload|), 4);
    rec := Resize(rec, AlignUp(|rec| % U32, w) % U32);
  }

  /** Applies a payload to an index, stopping at the first malformed operation. */
  method DecodePayload(payload: seq<byte>, start: Index) returns (ok: bool, index: Index)
    ensures (ok, index) == ApplyPayload(payload, start)
  {
    var p := payload;
    index := start;
    while p != []
      invariant ApplyPayload(payload, start) == ApplyPayload(p, index)
      decreases |p|
    {
      var op := p[0];
      var q := p[1..];
      if |q| < 4 { return false, index; }
      var klen := FromLE(q[..4]);
      q := q[4..];
      if |q| < klen { return false, index; }
      var key := q[..klen];
      q := q[klen..];
      if op == OP_PUT {
        if |q| < 4 { return false, index; }
        var vlen := FromLE(q[..4]);
        q := q[4..];
        if |q| < vlen { return false, index; }
        index := index[key := q[..vlen]];
        q := q[vlen..];
      } else if op == OP_DEL {
        index := index - {key};
      } else {
        return false, index;
      }
      p := q;
    }
    return true, index;
  }

  datatype Record = End(index: Index, torn: bool) | Whole(index: Index, size: nat)

  class FlashState {
    const g: Geometry
    const flash: NorFlash
    var index: Index
    var live: nat
    var gen: nat
    var off: nat
    var dirty: bool

    ghost function View(): Spec.Store
      reads this, flash.data
    {
      Spec.Store(flash.data[..], index, live, gen, off, dirty)
    }

    /** The sizes the engine computes from the device's constants. */
    ghost predicate Wired() {
      flash.g == g && g.Sound() && flash.data.Length == g.cap
    }

    constructor (flash: NorFlash)
      ensures this.flash == flash && this.g == flash.g && index == map[]
      ensures View() == Spec.Store(flash.data[..], map[], 0, 0, 0, false)
    {
      this.flash := flash;
      this.g := flash.g;
      index, live, gen, off, dirty := map[], 0, 0, 0, false;
    }

    method OtherBase() returns (base: nat)
      ensures base == Spec.OtherBase(live, g)
    {
      base := if live == 0 then g.half else 0;
    }

    method ReadSuper(base: nat) returns (r: Option<nat>)
      requires base + 16 <= flash.data.Length
      ensures r == Spec.ReadSuper(flash.data[..], base)
    {
      var hdr := flash.data[base..base + 16];
      assert hdr == flash.data[..][base..base + 16];
      if FromLE(hdr[..8]) != Spec.SUPER_MAGIC || FromLE(hdr[8..12]) != Spec.FORMAT_VERSION {
        return None;
      }
      return Some(FromLE(hdr[12..16]));
    }

    /** Reads the record at `at`, if the log has one there. */
    method ReplayRecord(at: nat, endCap: nat, m: Index) returns (r: Record)
      requires g.w > 0 && at + 8 <= endCap <= flash.data.Length < U32
      ensures var rest := flash.data[..][at..endCap];
              Replay(rest, g.w, m) == match r
                case End(m', torn) => Replayed(m', 0, torn)
                case Whole(m', size) =>
                  if size > |rest| then Replayed(m', size, false)
                  else var t := Replay(rest[size..], g.w, m'); t.(consumed := size + t.consumed)
      ensures r.Whole? ==> r.size > 0
    {
      hide ApplyPayload, Footer, FromLE, AlignUp;
      ghost var rest := flash.data[..][at..endCap];
      var len := FromLE(flash.data[at..at + 4]);
      assert flash.data[at..at + 4] == rest[..4];
      if len == ERASED_WORD {
        return End(m, false);
      }
      if at + 8 + len >= U32 || at + 8 + len > endCap {
        return End(m, true);
      }
      var payload, foot := flash.data[at + 4..at + 4 + len], flash.data[at + 4 + len..at + 8 + len];
      SliceSlice(flash.data[..], at, endCap, 4, 4 + len);
      SliceSlice(flash.data[..], at, endCap, 4 + len, 8 + len);
      assert payload == rest[4..4 + len] && foot == rest[4 + len..8 + len];
      if FromLE(foot) != Footer(len) {
        return End(m, true);
      }
      var ok, m' := DecodePayload(payload, m);
      if !ok {
        return End(m', true);
      }
      return Whole(m', AlignUp(8 + len, g.w));
    }

    /** Replays one half's log into the index. */
    method ReplayHalf(base: nat)
      requires Wired() && g.Ready() && base + g.half <= g.cap && index == map[]
      modifies this`index, this`off, this`dirty
      ensures var r := Replay(flash.data[..][base + g.header..base + g.half], g.w, map[]);
              index == r.index && off == base + g.header + r.consumed && dirty == r.dirty
    {
      hide Replay;
      var endCap := base + g.half;
      ghost var start, w := base + g.header, g.w;
      ghost var cells := flash.data[..];
      ghost var full := Replay(cells[start..endCap], w, map[]);
      off, dirty := base + g.header, false;
      while off + 8 <= endCap
        invariant start <= off && !dirty
        invariant off <= endCap ==>
                    var r := Replay(cells[off..endCap], w, index);
                    full == r.(consumed := off - start + r.consumed)
        invariant off > endCap ==> full == Replayed(index, off - start, false)
        decreases endCap - off
      {
        var r := ReplayRecord(off, endCap, index);
        index := r.index;
        if r.End? {
          dirty := r.torn;
          break;
        }
        if off + r.size <= endCap {
          SliceSlice(cells, off, endCap, r.size, endCap - off);
          assert cells[off..endCap][r.size..] == cells[off + r.size..endCap];
        }
        off := off + r.size;
      }
      if !dirty && endCap - 8 < off <= endCap {
        ReplayShort(cells[off..endCap], w, index);
      }
    }

    /** The half a mount takes, with its generation. */
    method Choose() returns (r: Option<(nat, nat)>)
      requires g.half + 16 <= flash.data.Length
      ensures var a, b := Spec.ReadSuper(flash.data[..], 0), Spec.ReadSuper(flash.data[..], g.half);
              match Spec.Select(a, b)
              case None => r.None?
              case Some(second) =>
                r.Some? && r.value.0 == Spec.Base(second, g) && r.value.1 == if second then b.value else a.value
    {
      hide Spec.ReadSuper, Spec.Newer;
      var a := ReadSuper(0);
      var b := ReadSuper(g.half);
      match (a, b) {
        case (None, None) => return None;
        case (Some(ga), None) => return Some((0, ga));
        case (None, Some(gb)) => return Some((g.half, gb));
        case (Some(ga), Some(gb)) =>
          if Spec.Newer(ga, gb) {
            return Some((0, ga));
          } else {
            return Some((g.half, gb));
          }
      }
    }

    method Mount() returns (o: Outcome)
      requires Wired() && 16 <= g.header && 2 * g.half <= flash.data.Length
      modifies this
      ensures var (o', s') := Spec.Mount(flash.data[..], g);
              o == o' && if o == Spec.Ok then View() == s' else View() == old(View())
    {
      hide Spec.ReadSuper, Spec.Select, Replay, Multiple, AlignUp, AlignDown;
      if g.half < g.header + 8 {
        return Spec.OutOfSpace;
      }
      var choice := Choose();
      if choice.None? {
        return Spec.Unformatted;
      }
      live, gen := choice.value.0, choice.value.1;
      index := map[];
      ReplayHalf(live);
      return Spec.Ok;
    }

    /** Erases a half, writes the operations as one record and the superblock last. */
    method WriteHalf(base: nat, generation: nat, ops: seq<WriteOp>) returns (o: Outcome, end: nat)
      requires Wired() && 16 <= g.header
      modifies flash`fault, flash.data
      ensures var h := Spec.WriteHalf(base, generation, ops, g);
              var (cells, ran) := Spec.Execute(old(flash.data[..]), h.plan, old(flash.fault), g);
              && flash.data[..] == cells
              && o == (match ran case Cut => Spec.PowerLost case Refused => Spec.Io
                       case Done => if h.fits then Spec.Ok else Spec.OutOfSpace)
              && (o == Spec.Ok ==> end == h.end)
              && (ran == Spec.Done ==> flash.fault == Spec.Later(old(flash.fault), |h.plan|))
    {
      hide Spec.Execute, Spec.Superblock, EncodeRecord;
      ghost var f, c := flash.fault, flash.data[..];
      end := base + g.header;
      ghost var erase := Spec.Erase(base, base + g.half);
      ghost var super := Spec.Write(base, Spec.Superblock(generation, g.header));
      var ran := flash.Erase(base, base + g.half);
      ghost var c1, f1 := flash.data[..], flash.fault;
      if ran != Spec.Done {
        ghost var plan := Spec.WriteHalf(base, generation, ops, g).plan;
        assert plan == [erase] + plan[1..];
        Chain(c, erase, plan[1..], f, g);
        return Failed(ran), end;
      }
      if ops != [] {
        var rec := Encode(ops, g.w);
        if (end + |rec|) % U32 > base + g.half {
          return Spec.OutOfSpace, end;
        }
        ran := flash.Write(end, rec);
        ghost var write := Spec.Write(end, rec);
        assert [erase] + [write] + [super] == [erase] + ([write] + [super]);
        Chain(c, erase, [write] + [super], f, g);
        Chain(c1, write, [super], f1, g);
        if ran != Spec.Done {
          return Failed(ran), end;
        }
        end := end + |rec|;
      } else {
        Chain(c, erase, [super], f, g);
      }
      ran := WriteSuper(base, generation);
      return if ran == Spec.Done then Spec.Ok else Failed(ran), end;
    }

    method WriteSuper(base: nat, generation: nat) returns (ran: Spec.Ran)
      requires Wired() && 16 <= g.header
      modifies flash`fault, flash.data
      ensures (flash.data[..], ran)
           == Spec.Execute(old(flash.data[..]), [Spec.Write(base, Spec.Superblock(generation, g.header))],
                           old(flash.fault), g)
      ensures ran == Spec.Done ==> flash.fault == Spec.Later(old(flash.fault), 1)
    {
      hide Spec.Execute, LE;
      var hdr := LE(Spec.SUPER_MAGIC, 8) + LE(Spec.FORMAT_VERSION, 4) + LE(generation, 4) + Blank(g.header - 16);
      ran := flash.Write(base, hdr);
    }

    /** Provisions a newly constructed store: erases half B, then lays down half A as empty. */
    method Format() returns (o: Outcome)
      requires Wired() && 16 <= g.header && View() == Spec.Store(flash.data[..], map[], 0, 0, 0, false)
      modifies this`off, flash`fault, flash.data
      ensures (o, View()) == Spec.Format(old(flash.data[..]), old(flash.fault), g)
      ensures old(flash.fault).Never? && g.Ready() ==> o == Spec.Ok && Inv(View(), g) && index == map[]
    {
      hide Spec.Execute, Spec.WriteHalf, Inv;
      ghost var c, f := flash.data[..], flash.fault;
      if f.Never? && g.Ready() {
        FlashRuns.FormatFresh(c, g);
      }
      if g.half < g.header + 8 {
        return Spec.OutOfSpace;
      }
      Chain(c, Spec.Erase(g.half, 2 * g.half), Spec.WriteHalf(0, 0, [], g).plan, f, g);
      var ran := flash.Erase(g.half, g.half + g.half);
      if ran != Spec.Done {
        return Failed(ran);
      }
      EmptyHalfFits(g);
      var end;
      o, end := WriteHalf(0, 0, []);
      if o == Spec.Ok {
        off := end;
      }
    }

    /** Rewrites the live index into the inactive half and switches to it. */
    method Compact() returns (o: Outcome)
      requires Wired() && 16 <= g.header
      modifies this`live, this`gen, this`off, this`dirty, flash`fault, flash.data
      ensures (o, View()) == Spec.Compact(old(View()), old(flash.fault), g)
      ensures o == Spec.Ok ==> flash.fault == Spec.Later(old(flash.fault), Spec.CompactSteps(old(View()), g))
    {
      hide Spec.Execute, Spec.WriteHalf, Listing;
      var ops := Listing(index);
      var target := OtherBase();
      var newGen := (gen + 1) % U32;
      var end;
      o, end := WriteHalf(target, newGen, ops);
      if o == Spec.Ok {
        live, gen, off, dirty := target, newGen, end, false;
      }
    }

    /** Appends one record, compacting first when the tail is dirty or the half is full. */
    method Append(ops: seq<WriteOp>) returns (o: Outcome)
      requires Wired() && 16 <= g.header
      modifies this`live, this`gen, this`off, this`dirty, flash`fault, flash.data
      ensures var (o', s') := Spec.Commit(old(View()), ops, old(flash.fault), g);
              o == o' && View() == s'.(index := old(index))
      ensures var (o', s') := Spec.Commit(old(View()), ops, old(flash.fault), g);
              s'.index == if o' == Spec.Ok then ApplyAll(old(index), ops) else old(index)
    {
      hide Spec.Execute, Spec.Compact, Spec.CompactSteps, EncodeRecord, ApplyAll, Spec.Later;
      var rec := Encode(ops, g.w);
      var need := |rec|;
      if dirty || (off + need) % U32 > live + g.half {
        o := Compact();
        if o != Spec.Ok {
          return;
        }
        if (off + need) % U32 > live + g.half {
          o := Spec.OutOfSpace;
          return;
        }
      }
      var ran := flash.Write(off, rec);
      if ran != Spec.Done {
        return Failed(ran);
      }
      off := off + need;
      return Spec.Ok;
    }

    /** Appends, then applies the group to the index. */
    method Commit(ops: seq<WriteOp>) returns (o: Outcome)
      requires Wired() && 16 <= g.header
      modifies this, flash`fault, flash.data
      ensures (o, View()) == Spec.Commit(old(View()), ops, old(flash.fault), g)
      ensures (old(Inv(View(), g)) && Fits32(ops, g.w) && g.Tolerates(old(flash.fault)))
              ==> Committed(o, old(View()), View(), ops, g)
    {
      hide Inv, Spec.Commit, Fits32, Committed;
      ghost var s, f := View(), flash.fault;
      ghost var start := index;
      o := Append(ops);
      if o == Spec.Ok {
        for i := 0 to |ops|
          invariant index == ApplyAll(start, ops[..i])
          invariant View() == Spec.Commit(s, ops, f, g).1.(index := index)
        {
          match ops[i] {
            case Put(k, v) => index := index[k := v];
            case Delete(k) => index := index - {k};
          }
          assert ops[..i + 1] == ops[..i] + [ops[i]];
          ApplyAllConcat(start, ops[..i], [ops[i]]);
          LastApplied(ApplyAll(start, ops[..i]), ops[i]);
        }
        assert ops[..|ops|] == ops;
      }
      if Inv(s, g) && Fits32(ops, g.w) && g.Tolerates(f) {
        CommitAtomic(s, ops, f, g);
      }
    }
  }

  lemma EmptyHalfFits(g: Geometry)
    requires g.w > 0 && 16 <= g.header
    ensures Spec.WriteHalf(0, 0, [], g).fits
  {
  }

  lemma ReplayShort(rest: seq<byte>, w: nat, m: Index)
    requires w > 0 && |rest| < 8
    ensures Replay(rest, w, m) == Replayed(m, 0, false)
  {
  }

  /** The error a device failure surfaces as. */
  function Failed(ran: Spec.Ran): Outcome {
    if ran == Spec.Cut then Spec.PowerLost else Spec.Io
  }

  /** Executing a plan is executing its first operation and then the rest. */
  lemma Chain(cells: seq<byte>, op: Spec.DevOp, rest: seq<Spec.DevOp>, f: Fault, g: Geometry)
    ensures var (c1, ran) := Spec.Execute(cells, [op], f, g);
            Spec.Execute(cells, [op] + rest, f, g)
            == if ran == Spec.Done then Spec.Execute(c1, rest, Spec.Later(f, 1), g) else (c1, ran)
  {
    assert ([op] + rest)[1..] == rest;
    assert [op][1..] == [];
    if Spec.Accepts(|cells|, op, g) && !(f.At? && f.step == 0) {
      ExecuteNothing(Spec.Do(cells, op, g), Spec.Later(f, 1), g);
    }
  }
}
