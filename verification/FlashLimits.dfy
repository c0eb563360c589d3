/**
 The exact limits of the flash store's guarantee: which interrupted erases it survives, which
 groups it accepts and what becomes of those too long for its 32-bit lengths, and on which devices
 its room test can wrap around.
 */
module FlashLimits {
  import opened Backend
  import opened Bytes
  import opened FlashAtomicity
  import opened FlashFormat
  import opened FlashRuns
  import opened FlashStore
  import opened Options

  // ---------------------------------------------------------------------------------------
  // States with a stale half, reached by runs
  // ---------------------------------------------------------------------------------------

  ghost predicate RoomFor(ops: seq<WriteOp>, g: Geometry)
    requires g.w > 0
  {
    Fits32(ops, g.w) && g.header + |Frame(ops, g.w)| <= g.half
  }

  /** A half readable at its generation that replays to nothing: its first length word is out of range. */
  ghost predicate Hollow(cells: Cells, base: nat, gen: nat, g: Geometry) {
    && g.Ready() && base + g.half <= |cells|
    && ReadSuper(cells, base) == Some(gen) && cells[base + g.header + 3] == 0xFF
  }

  /** The store after `n` compactions of nothing: an empty live half, and the previous one stale. */
  ghost predicate EmptyAt(s: Store, n: nat, dirty: bool, g: Geometry) {
    && Inv(s, g) && Placed(s, g) && s.index == map[] && s.dirty == dirty && s.gen == n
    && s.live == (if n % 2 == 0 then 0 else g.half) && s.off == s.live + g.header
    && Hollow(s.cells, s.live, n, g)
    && (n > 0 ==> Hollow(s.cells, OtherBase(s.live, g), n - 1, g))
  }

  /** A record of exactly `n` bytes that leaves an empty map empty. */
  function Filler(n: nat): seq<WriteOp>
    requires n >= 13
  {
    [Delete(Blank(n - 13))]
  }

  lemma FillerFits(n: nat, w: nat)
    requires w > 0 && Multiple(n, w) && 17 <= n < U32
    ensures |Frame(Filler(n), w)| == n && Fits32(Filler(n), w) && ApplyAll(map[], Filler(n)) == map[]
  {
    hide LE;
    var op := Delete(Blank(n - 13));
    LastApplied(map[], op);
    AlignUpLeast(n, w, n);
    AlignMultiple(n, w);
    assert |EncodeOp(op)| == n - 8;
  }

  /** A half of a usable device holds at least one put behind the superblock, in whole units. */
  lemma BodyUnits(g: Geometry)
    requires g.Sound() && g.Ready() && (g.half >= 64 || g.half - g.header >= 17)
    ensures Multiple(g.half - g.header, g.w) && 17 <= g.half - g.header
  {
    Layout(g);
    MultipleIsMod(g.half, g.w);
    MultipleIsMod(g.header, g.w);
    MultipleIsMod(g.half - g.header, g.w);
    Divided(g.half, g.w);
    Divided(g.header, g.w);
    Divided(g.half - g.header, g.w);
    Distribute(g.half / g.w, g.header / g.w, g.w);
    DivUnique(g.half - g.header, g.w, g.half / g.w - g.header / g.w, 0);
    AlignMultiple(16, g.w);
  }

  /** One write unit more than a half has room for. */
  function TooBig(g: Geometry): nat {
    if g.header <= g.half then g.half - g.header + g.w else 0
  }

  lemma TooBigFits(g: Geometry)
    requires g.Sound() && g.Ready() && g.half - g.header >= 17
    ensures TooBig(g) >= 17 && TooBig(g) < U32 && Fits32(Filler(TooBig(g)), g.w)
    ensures |EncodeRecord(Filler(TooBig(g)), g.w)| == TooBig(g)
  {
    hide EncodeRecord, Frame, Fits32;
    BodyUnits(g);
    MultipleSum(g.half - g.header, g.w, g.w);
    OneUnit(g.w);
    UnitBound(g);
    FillerFits(TooBig(g), g.w);
    EncodeRecordIsFrame(Filler(TooBig(g)), g.w);
  }

  lemma OneUnit(w: nat)
    requires w > 0
    ensures Multiple(w, w)
  {
    assert Multiple(0, w);
  }

  lemma UnitBound(g: Geometry)
    requires g.Sound() && g.Ready()
    ensures g.w <= g.header
  {
    AlignMultiple(16, g.w);
  }

  /** A compaction of an empty map writes a superblock into the erased other half, and nothing else. */
  lemma EmptyCompaction(s: Store, g: Geometry)
    requires g.Sound() && Inv(s, g) && Placed(s, g) && s.index == map[]
    ensures var t, next := OtherBase(s.live, g), (s.gen + 1) % U32;
            var erased := EraseAll(s.cells, t, t + g.half);
            var cells := Program(erased, t, Superblock(next, g.header));
            && |cells| == g.cap
            && Compact(s, Never, g) == (Ok, Store(cells, map[], t, next, t + g.header, false))
  {
    hide Inv, Superblock, Execute, Frame, Compact, CompactSteps, EraseAll, Program, Listing, Accepts;
    NothingListed();
    CompactResult(s, Never, g);
    TargetAccepts(s, g);
    var t, super := OtherBase(s.live, g), Superblock((s.gen + 1) % U32, g.header);
    var erased := EraseAll(s.cells, t, t + g.half);
    assert [] + [Write(t, super)] == [Write(t, super)] == [Write(t, super)] + [];
    ExecuteWrite(erased, t, super, [], Never, g);
    WholeSlice(super);
    ExecuteNothing(Program(erased, t, super), Never, g);
  }

  lemma NothingListed()
    ensures Listing(map[]) == []
  {
    var m: Index := map[];
    assert m.Keys == {};
  }

  /** The cells after such a compaction: the old half as it was, the new one empty at its generation. */
  lemma EmptyCompactionCells(cells: Cells, live: nat, next: nat, g: Geometry)
    requires g.Ready() && |cells| == g.cap && (live == 0 || live == g.half) && next < U32
    ensures var t := OtherBase(live, g);
            var cells' := Program(EraseAll(cells, t, t + g.half), t, Superblock(next, g.header));
            Hollow(cells', t, next, g) && SameHalf(cells', cells, live, g)
  {
    hide ParseSuper, Superblock, Program, EraseAll, EraseSome, BlankHalf, BlankHead;
    var t, super := OtherBase(live, g), Superblock(next, g.header);
    var erased := EraseAll(cells, t, t + g.half);
    EraseFrame(cells, live, {}, g);
    BlankIsErased(erased, t, g);
    WholeSlice(super);
    SuperRead(erased, t, next, g.header, g);
    ProgramElsewhere(erased, t, super, live, live + g.half);
    ProgramElsewhere(erased, t, super, t + g.header, t + g.half);
    BlankBody(erased, t, g);
    var cells', body := Program(erased, t, super), Body(erased, t, g);
    assert cells'[t + g.header..t + g.half] == body && body[3] == 0xFF;
    assert cells'[t + g.header..t + g.half][3] == cells'[t + g.header + 3];
    assert super[..g.header] == super;
  }

  lemma HollowKept(cells: Cells, cells': Cells, base: nat, gen: nat, g: Geometry)
    requires Hollow(cells, base, gen, g) && SameHalf(cells', cells, base, g)
    ensures Hollow(cells', base, gen, g)
  {
    hide ParseSuper;
    SliceOfSlice(cells', cells, base, base + g.half, base, base + 16);
    assert cells'[base..base + g.half][g.header + 3] == cells[base..base + g.half][g.header + 3];
  }

  lemma StaleKept(cells: Cells, live: nat, off: nat, bytes: seq<byte>, g: Geometry)
    requires g.Ready() && |cells| == g.cap && (live == 0 || live == g.half)
    requires live <= off && off + |bytes| <= live + g.half
    ensures SameHalf(Program(cells, off, bytes), cells, OtherBase(live, g), g)
  {
    hide Program;
    var t := OtherBase(live, g);
    ProgramElsewhere(cells, off, bytes, t, t + g.half);
  }

  lemma EmptyPlaced(s: Store, n: nat, dirty: bool, g: Geometry)
    requires EmptyAt(s, n, dirty, g)
    ensures Inv(s, g) && Placed(s, g) && |s.cells| == g.cap
  {
    hide Inv, Hollow;
  }

  /** The put that the stale half does not have. */
  const NEW_PUT: seq<WriteOp> := [Put([], [])]

  lemma PutSize(w: nat)
    requires w > 0
    ensures |Frame(NEW_PUT, w)| >= 17 && Frame(NEW_PUT, w)[0] == 9
  {
    hide Xor;
    LastApplied(map[], NEW_PUT[0]);
    assert |EncodeOp(NEW_PUT[0])| == 9;
    assert LE(9, 4)[0] == 9;
  }

  lemma PutApplied()
    ensures ApplyAll(map[], NEW_PUT) != map[]
  {
    LastApplied(map[], NEW_PUT[0]);
    assert [] in ApplyOp(map[], NEW_PUT[0]);
  }

  /** Power is lost after one byte of a put. */
  const TORN: Event := Group(NEW_PUT, At(0, 1, {}))

  /** What one byte of a length word leaves: a torn tail behind the same map. */
  lemma OneByteTail(b: byte, room: nat, w: nat, m: Index)
    requires b != 0xFF && w > 0 && 8 <= room < 0x8000_0000
    ensures Replay([b] + Blank(room - 1), w, m) == Replayed(m, 0, true)
  {
    var tail := [b] + Blank(room - 1);
    TopByte(tail[..4]);
    ReplayStops(tail, true, w, m);
  }

  lemma TornBytes(s: Store, n: nat, g: Geometry)
    requires g.Sound() && EmptyAt(s, n, false, g) && RoomFor(NEW_PUT, g)
    ensures s.off < |s.cells|
    ensures Commit(s, NEW_PUT, At(0, 1, {}), g) == (PowerLost, s.(cells := Program(s.cells, s.off, [9])))
  {
    hide Inv, Hollow, Frame, Fits32, EncodeRecord, Program, Compact, Multiple, Execute;
    var rec := Frame(NEW_PUT, g.w);
    EncodeRecordIsFrame(NEW_PUT, g.w);
    PutSize(g.w);
    AlignedRecord(NEW_PUT, g.w);
    OffsetAligned(s, g);
    assert [Write(s.off, rec)] + [] == [Write(s.off, rec)];
    ExecuteWrite(s.cells, s.off, rec, [], At(0, 1, {}), g);
    assert rec[..1] == [9];
  }

  lemma {:induction false} TornState(s: Store, n: nat, g: Geometry)
    requires g.Sound() && EmptyAt(s, n, false, g) && RoomFor(NEW_PUT, g)
    ensures s.off < |s.cells|
    ensures Step(s, TORN, g).1 == Store(Program(s.cells, s.off, [9]), map[], s.live, s.gen, s.off, true)
  {
    hide Inv, Hollow, Frame, Fits32, Program, Commit, Mount, Replay;
    TornBytes(s, n, g);
    AppendedReplays(s, [9], g);
    OneByteTail(9, s.live + g.half - s.off, g.w, map[]);
  }

  lemma {:induction false} TornStep(s: Store, n: nat, g: Geometry)
    requires g.Sound() && EmptyAt(s, n, false, g) && RoomFor(NEW_PUT, g)
    ensures EmptyAt(Step(s, TORN, g).1, n, true, g)
  {
    hide Inv, Hollow, Frame, Fits32, Program, Step, SameHalf;
    var t, cells := OtherBase(s.live, g), Program(s.cells, s.off, [9]);
    TornState(s, n, g);
    StepAtomicTorn(s, g);
    PlacedInv(Step(s, TORN, g).1, g);
    StaleKept(s.cells, s.live, s.off, [9], g);
    if n > 0 {
      HollowKept(s.cells, cells, t, n - 1, g);
    }
    TornHollow(s.cells, s.live, n, g);
  }

  lemma StepAtomicTorn(s: Store, g: Geometry)
    requires g.Sound() && Inv(s, g) && Fits32(NEW_PUT, g.w)
    ensures Inv(Step(s, TORN, g).1, g)
  {
    hide Inv, Fits32, Step;
    PlacedInv(s, g);
    assert Sane(TORN, g) by {
      assert forall i :: !g.Reaches({}, i);
    }
    StepAtomic(s, TORN, g);
  }

  lemma TornHollow(cells: Cells, base: nat, gen: nat, g: Geometry)
    requires Hollow(cells, base, gen, g)
    ensures Hollow(Program(cells, base + g.header, [9]), base, gen, g)
  {
    hide ParseSuper;
    ProgramElsewhere(cells, base + g.header, [9], base, base + 16);
  }

  /** After the torn write, offering a group without room makes the store compact and change halves. */
  lemma RoundStep(s: Store, n: nat, g: Geometry)
    requires g.Sound() && EmptyAt(s, n, true, g) && n + 1 < U32 && g.half - g.header >= 17
    ensures TooBig(g) >= 17
    ensures EmptyAt(Step(s, Group(Filler(TooBig(g)), Never), g).1, n + 1, false, g)
  {
    hide Inv, Recovers, Hollow, Compact, CompactSteps, EncodeRecord, EraseAll, Program, Superblock, ListingSize, Filler,
      Commit, Fits32;
    TooBigFits(g);
    UnitBound(g);
    CompactAtomic(s, Never, g);
    EmptyCompaction(s, g);
    EmptyCompactionCells(s.cells, s.live, n + 1, g);
    var s1 := Compact(s, Never, g).1;
    HollowKept(s.cells, s1.cells, s.live, n, g);
    PlacedInv(s1, g);
    NoRoomAppend(s, s1, Filler(TooBig(g)), g);
  }

  /** The group that does not fit is turned down after the compaction, by the test or by the driver. */
  lemma NoRoomAppend(s: Store, s1: Store, ops: seq<WriteOp>, g: Geometry)
    requires g.Ready() && s.dirty && Placed(s1, g) && Compact(s, Never, g) == (Ok, s1)
    requires s1.off == s1.live + g.header
    requires |EncodeRecord(ops, g.w)| == TooBig(g) && g.w <= g.header
    ensures var (o, s') := Commit(s, ops, Never, g); o != PowerLost && s' == s1
  {
    hide Compact, CompactSteps, EncodeRecord, Execute;
    var rec := EncodeRecord(ops, g.w);
    if !Overflows(s1, |rec|, g) {
      assert s1.off + |rec| == s1.live + g.half + g.w;
      ExecuteRefused(s1.cells, s1.off, rec, Never, g);
    }
  }

  /** The run so far, one event longer. */
  lemma RunSnoc(states: seq<Store>, outs: seq<Outcome>, evs: seq<Event>, ev: Event, g: Geometry)
    requires FromFormat(states, outs, evs, g) && |states[|evs|].cells| == g.cap && Sane(ev, g)
    ensures var (o, s) := Step(states[|evs|], ev, g); FromFormat(states + [s], outs + [o], evs + [ev], g)
  {
    hide Step, Format, Sane;
    var (o, s) := Step(states[|evs|], ev, g);
    var states', outs', evs' := states + [s], outs + [o], evs + [ev];
    forall i | 0 <= i < |evs'|
      ensures |states'[i].cells| == g.cap && Sane(evs'[i], g)
      ensures Step(states'[i], evs'[i], g) == (outs'[i], states'[i + 1])
    {
      if i < |evs| {
        assert Step(states[i], evs[i], g) == (outs[i], states[i + 1]);
      }
    }
  }

  /** A run from a freshly formatted blank device, with power cuts that are survived. */
  ghost predicate FromFormat(states: seq<Store>, outs: seq<Outcome>, evs: seq<Event>, g: Geometry) {
    && IsRun(states, outs, evs, g) && states[0] == Format(Blank(g.cap), Never, g).1
    && forall i :: 0 <= i < |evs| ==> Sane(evs[i], g)
  }

  lemma RunLength(states: seq<Store>, outs: seq<Outcome>, evs: seq<Event>, g: Geometry)
    requires FromFormat(states, outs, evs, g)
    ensures |states| == |evs| + 1
  {
  }

  lemma StartOfRun(g: Geometry)
    requires g.Sound() && g.Ready()
    ensures var s := Format(Blank(g.cap), Never, g).1; EmptyAt(s, 0, false, g) && FromFormat([s], [], [], g)
  {
    hide Format, Inv, Superblock, ParseSuper, Program, EraseAll;
    FormatFresh(Blank(g.cap), g);
    PlacedInv(Format(Blank(g.cap), Never, g).1, g);
    EmptyCompactionCells(EraseAll(Blank(g.cap), g.half, 2 * g.half), g.half, 0, g);
  }

  /** Every number of rounds can be run. */
  lemma {:induction false} Rounds(n: nat, g: Geometry)
    returns (states: seq<Store>, outs: seq<Outcome>, evs: seq<Event>)
    requires g.Sound() && g.Ready() && n < U32 && RoomFor(NEW_PUT, g)
    ensures FromFormat(states, outs, evs, g) && |states| == |evs| + 1 && EmptyAt(states[|evs|], n, false, g)
  {
    hide Format, EmptyAt, Step, Sane, Filler, FromFormat, Fits32, Frame;
    if n == 0 {
      states, outs, evs := [Format(Blank(g.cap), Never, g).1], [], [];
      StartOfRun(g);
    } else {
      PutSize(g.w);
      states, outs, evs := Rounds(n - 1, g);
      TornStep(states[|evs|], n - 1, g);
      states, outs, evs := Extend(states, outs, evs, TORN, n - 1, false, g);
      RoundStep(states[|evs|], n - 1, g);
      TooBigFits(g);
      states, outs, evs := Extend(states, outs, evs, Group(Filler(TooBig(g)), Never), n - 1, true, g);
    }
  }

  lemma Extend(states: seq<Store>, outs: seq<Outcome>, evs: seq<Event>, ev: Event, n: nat, dirty: bool, g: Geometry)
    returns (states': seq<Store>, outs': seq<Outcome>, evs': seq<Event>)
    requires FromFormat(states, outs, evs, g) && |states| == |evs| + 1 && EmptyAt(states[|evs|], n, dirty, g)
    requires ev == TORN || (ev.Group? && ev.fault == Never)
    requires ev.Group? && g.w > 0 && Fits32(ev.ops, g.w)
    ensures FromFormat(states', outs', evs', g) && |states'| == |evs'| + 1
    ensures g.Ready() && |states[|evs|].cells| == g.cap && states'[|evs'|] == Step(states[|evs|], ev, g).1
  {
    hide Format, Step, FromFormat, Fits32, Inv, Hollow;
    EmptyPlaced(states[|evs|], n, dirty, g);
    assert Sane(ev, g) by {
      assert forall i :: !g.Reaches({}, i);
    }
    RunSnoc(states, outs, evs, ev, g);
    var (o, s) := Step(states[|evs|], ev, g);
    states', outs', evs' := states + [s], outs + [o], evs + [ev];
    RunLength(states', outs', evs', g);
  }

  /** One record appended to the empty live half: the stale half is as it was. */
  ghost predicate PlantedAt(s: Store, n: nat, ops: seq<WriteOp>, g: Geometry)
    requires g.w > 0
  {
    && Inv(s, g) && Placed(s, g) && s.index == ApplyAll(map[], ops) && !s.dirty && s.gen == n
    && s.live == (if n % 2 == 0 then 0 else g.half) && s.off == s.live + g.header + |Frame(ops, g.w)|
    && (n > 0 ==> Hollow(s.cells, OtherBase(s.live, g), n - 1, g))
  }

  lemma {:induction false} PlantStep(s: Store, n: nat, ops: seq<WriteOp>, g: Geometry)
    requires g.Sound() && EmptyAt(s, n, false, g) && RoomFor(ops, g)
    ensures PlantedAt(Step(s, Group(ops, Never), g).1, n, ops, g)
  {
    hide Inv, Hollow, Frame, Fits32, Program, ApplyAll, Step, SameHalf;
    var rec, t := Frame(ops, g.w), OtherBase(s.live, g);
    PlantCommit(s, n, ops, g);
    var s' := Step(s, Group(ops, Never), g).1;
    PlacedInv(s', g);
    StaleKept(s.cells, s.live, s.off, rec, g);
    if n > 0 {
      HollowKept(s.cells, s'.cells, t, n - 1, g);
    }
  }

  lemma {:induction false} PlantCommit(s: Store, n: nat, ops: seq<WriteOp>, g: Geometry)
    requires g.Sound() && EmptyAt(s, n, false, g) && RoomFor(ops, g)
    ensures var rec, s' := Frame(ops, g.w), Step(s, Group(ops, Never), g).1;
            && s.off + |rec| <= |s.cells| && Inv(s', g)
            && s' == s.(cells := Program(s.cells, s.off, rec), off := s.off + |rec|, index := ApplyAll(map[], ops))
  {
    hide Inv, Hollow, Recovers, Frame, Fits32, EncodeRecord, Program, ApplyAll, Compact, Multiple, AppendRecord;
    EncodeRecordIsFrame(ops, g.w);
    AppendOutcome(s, ops, Never, g);
    AlignedRecord(ops, g.w);
    AppendAccepts(s, ops, Frame(ops, g.w), g);
  }

  /** A run to a state with any record in the live half of any generation and a hollow stale half. */
  lemma PlantedRun(n: nat, ops: seq<WriteOp>, g: Geometry)
    returns (states: seq<Store>, outs: seq<Outcome>, evs: seq<Event>)
    requires g.Sound() && g.Ready() && n < U32 && RoomFor(NEW_PUT, g) && RoomFor(ops, g)
    ensures FromFormat(states, outs, evs, g) && |states| == |evs| + 1 && PlantedAt(states[|evs|], n, ops, g)
  {
    hide Format, EmptyAt, PlantedAt, Step, Sane, Fits32, Frame, FromFormat;
    states, outs, evs := Rounds(n, g);
    PlantStep(states[|evs|], n, ops, g);
    states, outs, evs := Extend(states, outs, evs, Group(ops, Never), n, false, g);
  }

  // ---------------------------------------------------------------------------------------
  // Interrupted erases
  // ---------------------------------------------------------------------------------------

  /** Erasing blocks in order is survived on every device. */
  lemma InOrderSurvives(blocks: set<nat>, g: Geometry)
    requires g.e > 0 && InOrder(blocks)
    ensures g.Survives(blocks)
  {
    if i :| 12 <= i < 16 && g.Reaches(blocks, i) {
      DivMonotone(0, i, g.e);
      assert g.Reaches(blocks, 0);
    }
  }

  lemma DivMonotone(x: nat, y: nat, e: nat)
    requires e > 0 && x <= y
    ensures 0 <= x / e <= y / e
  {
    Divided(x, e);
    Divided(y, e);
    Distribute(x / e, y / e, e);
    if x / e > y / e {
      MulAtLeast(x / e - y / e, e);
    }
  }

  /** A device survives every interrupted erase exactly when no block holds generation bytes alone. */
  lemma GuardedIff(g: Geometry)
    requires g.e > 0
    ensures g.Guarded() <==> forall blocks :: g.Survives(blocks)
  {
    Divided(15, g.e);
    if g.Guarded() {
      forall blocks
        ensures g.Survives(blocks)
      {
        if i :| 12 <= i < 16 && g.Reaches(blocks, i) {
          SameBlock(i, g.e);
          assert g.Reaches(blocks, 11);
        }
      }
    } else {
      var blocks := {15 / g.e};
      assert g.Reaches(blocks, 15);
      forall j | 0 <= j < 12
        ensures !g.Reaches(blocks, j)
      {
        Divided(j, g.e);
      }
      assert !g.Survives(blocks);
    }
  }

  lemma SameBlock(i: nat, e: nat)
    requires e > 0 && 15 / e * e < 12 <= i < 16
    ensures i / e == 11 / e
  {
    var q := 15 / e;
    Divided(15, e);
    DivUnique(i, e, q, i - q * e);
    DivUnique(11, e, q, 11 - q * e);
  }

  /** A generation field before and after its reached bytes were erased. */
  predicate Raised(before: seq<byte>, after: seq<byte>, blocks: set<nat>, g: Geometry) {
    && |before| == |after| == 4
    && forall i :: 0 <= i < 4 ==> after[i] == if g.Reaches(blocks, 12 + i) then 0xFF else before[i]
  }

  /** What a superblock reads as after an erase that is not survived: readable, generation bytes raised. */
  lemma RaisedSuper(cells: Cells, from: nat, to: nat, blocks: set<nat>, g: Geometry)
    requires g.e > 0 && !g.Survives(blocks) && from + 16 <= to <= |cells| && ReadSuper(cells, from).Some?
    ensures var r := EraseSome(cells, from, to, g.e, blocks);
            && ReadSuper(r, from) == Some(FromLE(r[from + 12..from + 16])) && ReadSuper(r, from).value < U32
            && Raised(cells[from + 12..from + 16], r[from + 12..from + 16], blocks, g)
  {
    hide ParseSuper, LE, FromLE, EraseSome;
    var r := EraseSome(cells, from, to, g.e, blocks);
    var was, now := cells[from..from + 16], r[from..from + 16];
    forall i | 0 <= i < 16
      ensures r[from + i] == if g.Reaches(blocks, i) then 0xFF else cells[from + i]
    {
      ErasedAt(cells, from, to, blocks, g, i);
    }
    forall i | 0 <= i < 12
      ensures now[i] == was[i]
    {
      assert !g.Reaches(blocks, i);
    }
    assert now[..12] == was[..12];
    ReadableSuper(was);
    ReadableSuper(now);
    assert now[12..16] == r[from + 12..from + 16];
    var before, after := cells[from + 12..from + 16], r[from + 12..from + 16];
    forall i | 0 <= i < 4
      ensures after[i] == if g.Reaches(blocks, 12 + i) then 0xFF else before[i]
    {
      assert r[from + (12 + i)] == if g.Reaches(blocks, 12 + i) then 0xFF else cells[from + (12 + i)];
    }
  }

  lemma ErasedAt(cells: Cells, from: nat, to: nat, blocks: set<nat>, g: Geometry, i: nat)
    requires g.e > 0 && from + i < to <= |cells|
    ensures EraseSome(cells, from, to, g.e, blocks)[from + i] == if g.Reaches(blocks, i) then 0xFF else cells[from + i]
  {
  }

  /** The half a mount takes after such an erase, for every state: the live one unless the raised one wins. */
  lemma StaleHalfSelected(s: Store, blocks: set<nat>, g: Geometry)
    requires Inv(s, g) && !g.Survives(blocks) && ReadSuper(s.cells, OtherBase(s.live, g)).Some?
    ensures var t := OtherBase(s.live, g);
            var cells := EraseSome(s.cells, t, t + g.half, g.e, blocks);
            var raised := FromLE(cells[t + 12..t + 16]);
            && Mount(cells, g).0 == Ok
            && (Mount(cells, g).1.live == s.live <==>
                  if s.live == 0 then Newer(s.gen, raised) else !Newer(raised, s.gen))
  {
    hide ParseSuper, LiveLog, EraseSome, Replay, Newer, BlankHalf, BlankHead, FromLE;
    var t := OtherBase(s.live, g);
    RaisedSuper(s.cells, t, t + g.half, blocks, g);
    EraseFrame(s.cells, s.live, blocks, g);
    var cells := EraseSome(s.cells, t, t + g.half, g.e, blocks);
    SliceOfSlice(cells, s.cells, s.live, s.live + g.half, s.live, s.live + 16);
    assert ReadSuper(cells, s.live) == Some(s.gen);
  }

  /** Generations for the witness: the raised value of the first is newer than its successor. */
  function WitnessGeneration(blocks: set<nat>, g: Geometry): nat {
    if g.Reaches(blocks, 15) then 0x7FFF_FFFF else 0
  }

  lemma RaisedWins(blocks: set<nat>, was: seq<byte>, now: seq<byte>, g: Geometry)
    requires g.e > 0 && !g.Survives(blocks) && Raised(was, now, blocks, g)
    requires FromLE(was) == WitnessGeneration(blocks, g)
    ensures var gen, raised := WitnessGeneration(blocks, g), FromLE(now);
            Newer(raised, gen + 1) && !Newer(gen + 1, raised)
  {
    hide FromLE, Newer;
    var i :| 12 <= i < 16 && g.Reaches(blocks, i);
    assert now[i - 12] == 0xFF;
    if g.Reaches(blocks, 15) {
      var top := [0xFF, 0xFF, 0xFF, 0x7F];
      TopByte(top);
      FromLEInjective(was, top);
      RaisedHigh(now);
    } else {
      var zero := [0, 0, 0, 0];
      TopByte(zero);
      FromLEInjective(was, zero);
      RaisedLow(now);
    }
  }

  lemma RaisedHigh(now: seq<byte>)
    requires |now| == 4 && forall i :: 0 <= i < 4 ==> now[i] == 0xFF
    ensures Newer(FromLE(now), 0x8000_0000) && !Newer(0x8000_0000, FromLE(now))
  {
    hide FromLE;
    TopByte(now);
  }

  lemma RaisedLow(now: seq<byte>)
    requires |now| == 4 && now[3] == 0 && (now[0] == 0xFF || now[1] == 0xFF || now[2] == 0xFF)
    ensures Newer(FromLE(now), 1) && !Newer(1, FromLE(now))
  {
    hide FromLE;
    TopByte(now);
  }

  /**
   For every set of blocks that is not survived there is a run from format, with power cuts in
   record writes only, to a state from which cutting the erase after those blocks makes the next
   mount succeed with another map.
   */
  lemma StaleHalfReturns(blocks: set<nat>, g: Geometry)
    returns (states: seq<Store>, outs: seq<Outcome>, evs: seq<Event>)
    requires g.Sound() && g.Ready() && RoomFor(NEW_PUT, g) && !g.Survives(blocks)
    ensures FromFormat(states, outs, evs, g) && |states| == |evs| + 1
    ensures var s := states[|evs|]; Inv(s, g) && Placed(s, g) && !KeepsMap(s, blocks, g)
  {
    hide Inv, Mount, EraseSome, Fits32, Frame, FromFormat, Hollow, WitnessGeneration, ApplyAll;
    var gen := WitnessGeneration(blocks, g);
    WitnessBound(blocks, g);
    states, outs, evs := PlantedRun(gen + 1, NEW_PUT, g);
    StaleSelected(states[|evs|], gen, blocks, g);
    PutApplied();
  }

  lemma WitnessBound(blocks: set<nat>, g: Geometry)
    ensures var gen := WitnessGeneration(blocks, g); gen + 1 < U32
  {
  }

  lemma {:induction false} StaleSelected(s: Store, gen: nat, blocks: set<nat>, g: Geometry)
    requires Inv(s, g) && Placed(s, g) && s.gen == gen + 1 && !g.Survives(blocks)
    requires Hollow(s.cells, OtherBase(s.live, g), gen, g) && gen == WitnessGeneration(blocks, g)
    ensures var t := OtherBase(s.live, g);
            var (o, s') := Mount(EraseSome(s.cells, t, t + g.half, g.e, blocks), g); o == Ok && s'.index == map[]
  {
    hide Inv, ParseSuper, Replay, Newer, EraseSome, FromLE, WitnessGeneration, Raised;
    var t := OtherBase(s.live, g);
    var cells := EraseSome(s.cells, t, t + g.half, g.e, blocks);
    RaisedSuper(s.cells, t, t + g.half, blocks, g);
    GenerationField(s.cells, t);
    RaisedWins(blocks, s.cells[t + 12..t + 16], cells[t + 12..t + 16], g);
    StaleHalfSelected(s, blocks, g);
    ErasedAt(s.cells, t, t + g.half, blocks, g, g.header + 3);
    HollowReplays(cells, t, g);
  }

  lemma GenerationField(cells: Cells, base: nat)
    requires base + 16 <= |cells| && ReadSuper(cells, base).Some?
    ensures ReadSuper(cells, base) == Some(FromLE(cells[base + 12..base + 16]))
  {
    assert cells[base..base + 16][12..16] == cells[base + 12..base + 16];
  }

  lemma HollowReplays(cells: Cells, base: nat, g: Geometry)
    requires g.Ready() && base + g.half <= |cells| && cells[base + g.header + 3] == 0xFF
    ensures Replay(Body(cells, base, g), g.w, map[]).index == map[]
  {
    var body := Body(cells, base, g);
    assert body[3] == cells[base + g.header + 3];
    var dirty := LongWordStops(body);
    ReplayStops(body, dirty, g.w, map[]);
  }

  /** After an erase of the stale half is cut leaving `blocks` erased, a mount gives the same map. */
  ghost predicate KeepsMap(s: Store, blocks: set<nat>, g: Geometry)
    requires Placed(s, g)
  {
    var t := OtherBase(s.live, g);
    var (o, s') := Mount(EraseSome(s.cells, t, t + g.half, g.e, blocks), g);
    o == Ok && s'.index == s.index
  }

  ghost predicate AlwaysKept(blocks: set<nat>, g: Geometry) {
    forall s :: Inv(s, g) ==> Placed(s, g) && KeepsMap(s, blocks, g)
  }

  /** The same for the states that runs from format reach. */
  ghost predicate KeptOnRuns(blocks: set<nat>, g: Geometry) {
    forall states, outs, evs :: FromFormat(states, outs, evs, g) ==>
      |states| == |evs| + 1 && Placed(states[|evs|], g) && KeepsMap(states[|evs|], blocks, g)
  }

  /**
   An erase cut after exactly these blocks is harmless from every state, and already from every
   state a run from format reaches, if and only if reaching the generation field means reaching
   the magic or version as well.
   */
  lemma EraseSurvivedIff(blocks: set<nat>, g: Geometry)
    requires g.Sound() && g.Ready() && RoomFor(NEW_PUT, g)
    ensures AlwaysKept(blocks, g) <==> g.Survives(blocks)
    ensures KeptOnRuns(blocks, g) <==> g.Survives(blocks)
  {
    hide Inv, Fits32, Frame, KeepsMap, Recovers, FromFormat;
    if g.Survives(blocks) {
      forall s | Inv(s, g)
        ensures Placed(s, g) && KeepsMap(s, blocks, g)
      {
        PlacedInv(s, g);
        SurvivedKeeps(s, blocks, g);
      }
      forall states, outs, evs | FromFormat(states, outs, evs, g)
        ensures |states| == |evs| + 1 && Inv(states[|evs|], g)
      {
        ReachedInv(states, outs, evs, g);
      }
    } else {
      var states, outs, evs := StaleHalfReturns(blocks, g);
    }
  }

  lemma ReachedInv(states: seq<Store>, outs: seq<Outcome>, evs: seq<Event>, g: Geometry)
    requires g.Sound() && g.Ready() && FromFormat(states, outs, evs, g)
    ensures |states| == |evs| + 1 && Inv(states[|evs|], g)
  {
    hide Inv, Format, Step, Sane;
    FormatFresh(Blank(g.cap), g);
    var landed := CrashAtomicity(states, outs, evs, g);
  }

  lemma SurvivedKeeps(s: Store, blocks: set<nat>, g: Geometry)
    requires Inv(s, g) && Placed(s, g) && g.Survives(blocks)
    ensures KeepsMap(s, blocks, g)
  {
    hide Inv, Prepared, BlankHalf, EraseSome, EraseAll, Mount, Recovers;
    var t := OtherBase(s.live, g);
    EraseStage(s, At(0, 0, blocks), g);
    RecoversByMount(EraseSome(s.cells, t, t + g.half, g.e, blocks), s.index, g);
  }

  // ---------------------------------------------------------------------------------------
  // Which groups are accepted
  // ---------------------------------------------------------------------------------------

  /**
   The acceptance test, for groups of any size: the record as encoded is a whole number of write
   units, fits behind the compacted live set, and does not wrap the sum of the room test.
   */
  ghost predicate Accepted(s: Store, ops: seq<WriteOp>, g: Geometry)
    requires g.w > 0
  {
    var n := |EncodeRecord(ops, g.w)|;
    && Multiple(n, g.w)
    && g.header + ListingSize(s.index, g.w) + n <= g.half
    && (s.dirty || s.off + n < U32)
  }

  /** Appending raw bytes to a clean log, uninterrupted. */
  lemma AppendAccepts(s: Store, ops: seq<WriteOp>, rec: seq<byte>, g: Geometry)
    requires g.Sound() && Inv(s, g) && !s.dirty && !Overflows(s, |rec|, g) && |rec| < U32
    ensures var (o, s') := AppendRecord(s, ops, rec, Never, g);
            && (o == Ok <==> Multiple(|rec|, g.w) && s.off + |rec| <= s.live + g.half)
            && (o == Ok ==>
                  && s.off + |rec| <= |s.cells|
                  && s' == s.(cells := Program(s.cells, s.off, rec), off := s.off + |rec|,
                              index := ApplyAll(s.index, ops)))
  {
    hide Inv, Program, Execute, ApplyAll, Multiple;
    PlacedInv(s, g);
    OffsetAligned(s, g);
    if Accepts(|s.cells|, Write(s.off, rec), g) {
      assert [Write(s.off, rec)] + [] == [Write(s.off, rec)];
      ExecuteWrite(s.cells, s.off, rec, [], Never, g);
      WholeSlice(rec);
      ExecuteNothing(Program(s.cells, s.off, rec), Never, g);
    } else {
      ExecuteRefused(s.cells, s.off, rec, Never, g);
    }
  }

  lemma RecordBound(ops: seq<WriteOp>, w: nat)
    requires w > 0
    ensures |EncodeRecord(ops, w)| < U32
  {
  }

  /**
   Uninterrupted, a commit reports `Ok` if and only if the group is accepted, whatever its size;
   then the index has the group and the flash has the encoded record behind a clean log of the
   old map.
   */
  lemma CommitAccepts(s: Store, ops: seq<WriteOp>, g: Geometry) returns (base: Store)
    requires g.Sound() && Inv(s, g)
    ensures Commit(s, ops, Never, g).0 == Ok <==> Accepted(s, ops, g)
    ensures Commit(s, ops, Never, g).0 == Ok ==>
              && Inv(base, g) && Placed(base, g) && !base.dirty && base.index == s.index
              && var rec := EncodeRecord(ops, g.w);
              && base.off + |rec| <= base.live + g.half
              && var s' := Commit(s, ops, Never, g).1;
              && s'.index == ApplyAll(s.index, ops) && s'.cells == Program(base.cells, base.off, rec)
  {
    hide Inv, Recovers, EncodeRecord, AppendRecord, Compact, CompactSteps, ListingSize, ApplyAll, Multiple, Program;
    var rec := EncodeRecord(ops, g.w);
    base := s;
    PlacedInv(s, g);
    ListingFits(s, g);
    RecordBound(ops, g.w);
    if s.dirty || Overflows(s, |rec|, g) {
      CompactAtomic(s, Never, g);
      base := Compact(s, Never, g).1;
      PlacedInv(base, g);
      assert Later(Never, CompactSteps(s, g)) == Never;
    }
    if !Overflows(base, |rec|, g) {
      AppendAccepts(base, ops, rec, g);
    }
  }

  // ---------------------------------------------------------------------------------------
  // What becomes of groups too long for 32 bits
  // ---------------------------------------------------------------------------------------

  /** The cells behind a clean log, once written, decide what a mount adds to the map. */
  lemma {:induction false} AppendedReplays(s: Store, bytes: seq<byte>, g: Geometry)
    requires Inv(s, g) && Placed(s, g) && !s.dirty && s.off + |bytes| <= s.live + g.half
    ensures var (o, s') := Mount(Program(s.cells, s.off, bytes), g);
            var r := Replay(bytes + Blank(s.live + g.half - s.off - |bytes|), g.w, s.index);
            var cells := Program(s.cells, s.off, bytes);
            o == Ok && s' == Store(cells, r.index, s.live, s.gen, s.off + r.consumed, r.dirty)
  {
    hide Inv, Replay, Program, Blank, ListingSize;
    ListingFits(s, g);
    SupersKept(s.cells, s.off, bytes, s.live, g);
    MountSame(s, Program(s.cells, s.off, bytes), g);
    AppendedBody(s, bytes, g);
  }

  /** A mount of cells with the same superblocks replays the same half. */
  lemma {:induction false} MountSame(s: Store, cells: Cells, g: Geometry)
    requires Inv(s, g) && Placed(s, g) && |cells| == |s.cells| && Supers(cells, g) == Supers(s.cells, g)
    ensures var r := Replay(Body(cells, s.live, g), g.w, map[]);
            Mount(cells, g) == (Ok, Store(cells, r.index, s.live, s.gen, s.live + g.header + r.consumed, r.dirty))
  {
    hide ParseSuper, Replay, LiveLog, Newer;
  }

  lemma {:induction false} AppendedBody(s: Store, bytes: seq<byte>, g: Geometry)
    requires Inv(s, g) && Placed(s, g) && !s.dirty && s.off + |bytes| <= s.live + g.half
    ensures var r := Replay(bytes + Blank(s.live + g.half - s.off - |bytes|), g.w, s.index);
            Replay(Body(Program(s.cells, s.off, bytes), s.live, g), g.w, map[])
            == r.(consumed := s.off - s.live - g.header + r.consumed)
  {
    hide Supers, Select, Replay, Log, Flatten, ApplyAll, Program, BodyHolds;
    var groups :| LiveLog(s, groups, g);
    AppendedWindow(s.cells, s.live + g.header, s.live + g.half, groups, bytes, g.w);
  }

  lemma {:induction false} AppendedWindow(
    cells: Cells, lo: nat, hi: nat, groups: seq<seq<WriteOp>>, bytes: seq<byte>, w: nat)
    requires w > 0 && lo <= hi <= |cells| && BodyHolds(cells[lo..hi], groups, false, w)
    requires lo + |Log(groups, w)| + |bytes| <= hi
    ensures var n := |Log(groups, w)|;
            var r := Replay(bytes + Blank(hi - lo - n - |bytes|), w, ApplyAll(map[], Flatten(groups)));
            Replay(Program(cells, lo + n, bytes)[lo..hi], w, map[]) == r.(consumed := n + r.consumed)
  {
    hide Replay, Log, Flatten, ApplyAll, Program, Erased;
    var n := |Log(groups, w)|;
    SplicedBody(cells, lo, hi, n, bytes);
    ReplayLog(groups, bytes + Blank(hi - lo - n - |bytes|), w, map[]);
  }

  lemma {:induction false} SplicedBody(cells: Cells, lo: nat, hi: nat, n: nat, bytes: seq<byte>)
    requires lo + n + |bytes| <= hi <= |cells| && Erased(cells[lo..hi][n..])
    ensures Program(cells, lo + n, bytes)[lo..hi] == cells[lo..hi][..n] + (bytes + Blank(hi - lo - n - |bytes|))
  {
    hide Program;
    var win := cells[lo..hi];
    assert win[n..n + |bytes|] == win[n..][..|bytes|];
    SpliceIsProgram(cells, lo, hi, n, bytes);
    ErasedTail(win, n, |bytes|);
    ConcatAssoc(win[..n], bytes, win[n + |bytes|..]);
  }

  /** Does the payload carry, where the truncated length puts the footer, that very footer? */
  predicate LooksWhole(p: seq<byte>) {
    var len := |p| % U32;
    |p| >= U32 && 8 + len < 0x8000_0000 && FromLE(p[len..len + 4]) == Footer(len)
  }

  /** What a mount makes of an oversized group: nothing, or the operations of a prefix that looks whole. */
  function Remnant(ops: seq<WriteOp>, m: Index): Index {
    var p := EncodeOps(ops);
    if LooksWhole(p) then ApplyPayload(p[..|p| % U32], m).1 else m
  }

  /** The length of the record of an oversized group of `n` payload bytes. */
  lemma OversizedLength(n: nat, size: nat, w: nat)
    requires 0 < w < 0x8000_0000 && AlignUp(8 + n, w) >= U32
    requires size == AlignUp((8 + n) % U32, w) % U32 && Multiple(size, w) && size < 0x8000_0000
    ensures var len := n % U32;
            && (8 + len < 0x8000_0000 ==> n >= U32 && 8 + len <= size == AlignUp(8 + len, w))
            && (0x8000_0000 <= 8 + len < U32 ==> size == 0)
            && (size > 0 ==> n >= U32 - 8)
  {
    hide AlignUp, Multiple;
    if size > 0 {
      MultipleAtLeast(size, w);
    }
  }

  lemma MultipleAtLeast(x: nat, w: nat)
    requires w > 0 && x > 0 && Multiple(x, w)
    ensures x >= w
  {
  }

  lemma {:induction false} LETruncates(n: nat, w: nat)
    ensures FromLE(LE(n, w)) == n % Pow256(w)
  {
    if w > 0 {
      LETruncates(n / 256, w - 1);
      LowByte(n, Pow256(w - 1));
    }
  }

  lemma LowByte(n: nat, p: nat)
    requires p > 0
    ensures n % (256 * p) == n % 256 + 256 * (n / 256 % p)
  {
    var q, r := n / 256, n / 256 % p;
    Divided(n, 256);
    Divided(q, p);
    Carried(q, q / p, p, r, n % 256);
    DivUnique(n, 256 * p, q / p, n % 256 + 256 * r);
  }

  lemma Carried(q: nat, k: nat, p: nat, r: nat, b: nat)
    requires q == k * p + r && r < p && b < 256
    ensures q * 256 + b == k * (256 * p) + (b + 256 * r) && b + 256 * r < 256 * p
  {
  }

  /** What is written of an oversized group: the head of its record. */
  lemma OversizedHead(ops: seq<WriteOp>, w: nat)
    requires w > 0 && !Fits32(ops, w) && |EncodeRecord(ops, w)| < 0x8000_0000
    requires |EncodeRecord(ops, w)| > 0 ==> |EncodeOps(ops)| >= U32 - 8
    ensures var p, rec := EncodeOps(ops), EncodeRecord(ops, w);
            && |rec| <= 8 + |p| && rec == (LE(|p|, 4) + p + LE(Footer(|p|), 4))[..|rec|]
            && FromLE(LE(|p|, 4)) == |p| % U32
  {
    hide LE, FromLE, EncodeOps, AlignUp, Footer;
    PowValues();
    LETruncates(|EncodeOps(ops)|, 4);
  }

  /** A length of almost 2^32 is out of range even if cut short. */
  lemma LongWordStops(tail: seq<byte>) returns (dirty: bool)
    requires |tail| < 0x8000_0000 && (|tail| >= 4 ==> tail[3] == 0xFF)
    ensures Stops(tail, dirty)
  {
    dirty := |tail| >= 8 && FromLE(tail[..4]) != ERASED_WORD;
    if |tail| >= 8 {
      TopByte(tail[..4]);
    }
  }

  lemma LongWord(p: seq<byte>, full: seq<byte>, n: nat, room: nat) returns (dirty: bool)
    requires |full| >= 8 && full[..4] == LE(|p|, 4) && FromLE(full[..4]) >= 0xFF00_0000
    requires n <= |full| && n <= room < 0x8000_0000
    ensures Stops(full[..n] + Blank(room - n), dirty)
  {
    hide LE, Stops;
    var tail := full[..n] + Blank(room - n);
    TopByte(full[..4]);
    dirty := LongWordStops(tail);
  }

  /** The replayer at a record whose truncated length is in range. */
  lemma {:induction false} ShortWord(p: seq<byte>, full: seq<byte>, n: nat, room: nat, w: nat, m: Index)
    requires w > 0 && |p| >= U32 && full == LE(|p|, 4) + p + LE(Footer(|p|), 4)
    requires var len := |p| % U32; FromLE(LE(|p|, 4)) == len && 8 + len <= n == AlignUp(8 + len, w)
    requires n <= room < 0x8000_0000
    ensures Replay(full[..n] + Blank(room - n), w, m).index
            == if LooksWhole(p) then ApplyPayload(p[..|p| % U32], m).1 else m
  {
    hide LE, FromLE, Footer, AlignUp, ApplyPayload, Erased;
    var len, tail := |p| % U32, full[..n] + Blank(room - n);
    HeadParts(LE(|p|, 4), p, LE(Footer(|p|), 4), len, n, Blank(room - n));
    if LooksWhole(p) {
      var (ok, m') := ApplyPayload(p[..len], m);
      BlankReplays(room - n, w, m');
      Split2(full[..n], Blank(room - n));
    }
  }

  lemma HeadParts(a: seq<byte>, p: seq<byte>, z: seq<byte>, len: nat, n: nat, rest: seq<byte>)
    requires |a| == 4 && len + 4 <= |p| && 8 + len <= n <= 4 + |p|
    ensures var tail := (a + p + z)[..n] + rest;
            tail[..4] == a && tail[4..4 + len] == p[..len] && tail[4 + len..8 + len] == p[len..len + 4]
  {
    var full := a + p + z;
    assert full[..n] == a + p[..n - 4];
  }

  lemma BlankReplays(n: nat, w: nat, m: Index)
    requires w > 0
    ensures Replay(Blank(n), w, m).index == m
  {
    ErasedStops(Blank(n));
    ReplayStops(Blank(n), false, w, m);
  }

  lemma {:induction false} OversizedReplay(ops: seq<WriteOp>, w: nat, room: nat, m: Index)
    requires 0 < w < 0x8000_0000 && !Fits32(ops, w)
    requires var n := |EncodeRecord(ops, w)|; Multiple(n, w) && n <= room < 0x8000_0000
    ensures var rec := EncodeRecord(ops, w);
            Replay(rec + Blank(room - |rec|), w, m).index == Remnant(ops, m)
  {
    hide Replay, ApplyPayload, AlignUp, Multiple, LE, FromLE, EncodeOps, Footer, Stops, Resize;
    var p, rec := EncodeOps(ops), EncodeRecord(ops, w);
    var n, len := |rec|, |p| % U32;
    var full := LE(|p|, 4) + p + LE(Footer(|p|), 4);
    OversizedLength(|p|, n, w);
    OversizedHead(ops, w);
    if 8 + len < 0x8000_0000 {
      ShortWord(p, full, n, room, w, m);
    } else if 8 + len < U32 {
      assert rec + Blank(room) == Blank(room);
      BlankReplays(room, w, m);
    } else {
      assert full[..4] == LE(|p|, 4);
      var dirty := LongWord(p, full, n, room);
      ReplayStops(full[..n] + Blank(room - n), dirty, w, m);
    }
  }

  /**
   A group too long for 32-bit lengths is reported committed exactly when it is `Accepted`, yet its
   record is not on flash: the next mount returns the map without it, or with the operations of a
   prefix whose next four bytes happen to be the footer.
   */
  lemma OversizedGroup(s: Store, ops: seq<WriteOp>, g: Geometry)
    requires g.Sound() && Inv(s, g) && !Fits32(ops, g.w)
    ensures EncodeRecord(ops, g.w) != Frame(ops, g.w)
    ensures var (o, s') := Commit(s, ops, Never, g);
            && (o == Ok <==> Accepted(s, ops, g))
            && (o == Ok ==> s'.index == ApplyAll(s.index, ops) && |s'.cells| == g.cap && g.Ready()
                            && Mount(s'.cells, g).0 == Ok && Mount(s'.cells, g).1.index == Remnant(ops, s.index))
  {
    hide Inv, Commit, Mount, ApplyAll, EncodeRecord, Frame, Fits32, ListingSize, Remnant, Replay, Program, Multiple;
    EncodeRecordIsFrame(ops, g.w);
    PlacedInv(s, g);
    var base := CommitAccepts(s, ops, g);
    if Accepted(s, ops, g) {
      var rec := EncodeRecord(ops, g.w);
      AppendedReplays(base, rec, g);
      UnitBound(g);
      OffsetAligned(base, g);
      OversizedReplay(ops, g.w, base.live + g.half - base.off, s.index);
    }
  }

  /** One such group: its record length casts to zero, so nothing at all is written. */
  lemma OversizedGroupLost(s: Store, v: Value, g: Geometry)
    requires g.Sound() && Inv(s, g) && !s.dirty && |v| == U32 - 17
    requires [] in s.index ==> s.index[[]] != v
    ensures var ops := [Put([], v)];
            && !Fits32(ops, g.w)
            && var (o, s') := Commit(s, ops, Never, g);
            && o == Ok && s'.index == ApplyAll(s.index, ops) != s.index
            && s'.cells == s.cells && Mount(s'.cells, g) == (Ok, s)
  {
    hide Inv, Commit, Mount, EncodeOp;
    var ops := [Put([], v)];
    LastApplied(s.index, ops[0]);
    OversizedRecord(v, g.w);
    EmptyRecordCommits(s, ops, g);
    PlacedInv(s, g);
    MountRebuilds(s, g);
  }

  lemma EmptyRecordCommits(s: Store, ops: seq<WriteOp>, g: Geometry)
    requires g.Sound() && Inv(s, g) && !s.dirty && EncodeRecord(ops, g.w) == []
    ensures Commit(s, ops, Never, g) == (Ok, s.(index := ApplyAll(s.index, ops)))
  {
    hide Inv, Compact, Execute, EncodeRecord, Multiple, ApplyAll;
    PlacedInv(s, g);
    OffsetAligned(s, g);
    ZeroMultiple(g.w);
    var none: seq<byte> := [];
    assert [Write(s.off, none)] + [] == [Write(s.off, none)];
    ExecuteWrite(s.cells, s.off, none, [], Never, g);
    assert Program(s.cells, s.off, none) == s.cells;
    WholeSlice(none);
    ExecuteNothing(s.cells, Never, g);
  }

  lemma OversizedRecord(v: Value, w: nat)
    requires w > 0 && |v| == U32 - 17
    ensures !Fits32([Put([], v)], w) && EncodeRecord([Put([], v)], w) == []
  {
    hide LE;
    var op := Put([], v);
    LastApplied(map[], op);
    assert |EncodeOp(op)| == U32 - 8;
  }

  // ---------------------------------------------------------------------------------------
  // The room test
  // ---------------------------------------------------------------------------------------

  /** A group with room whose commit fails because the sum of the room test leaves 32 bits. */
  ghost predicate Wraps(s: Store, ops: seq<WriteOp>, g: Geometry) {
    && Inv(s, g) && Placed(s, g) && Fits32(ops, g.w) && Room(s.index, ops, g) && TestWraps(s, ops, g)
    && forall f :: Commit(s, ops, f, g) == (Io, s)
  }

  /** On a large enough device a run leads to a full log of deleted keys for which the test wraps. */
  lemma WrapWitness(g: Geometry) returns (states: seq<Store>, outs: seq<Outcome>, evs: seq<Event>, ops: seq<WriteOp>)
    requires g.Sound() && g.Ready() && 3 * g.half >= U32 + g.header
    ensures FromFormat(states, outs, evs, g) && |states| == |evs| + 1 && Wraps(states[|evs|], ops, g)
  {
    hide Inv, Frame, Fits32, ApplyAll, Commit, FromFormat, Hollow, Multiple, Listing, Filler;
    var n := g.half - g.header;
    BodyUnits(g);
    FillerFits(n, g.w);
    ops := Filler(n);
    PutFits(g);
    states, outs, evs := PlantedRun(1, ops, g);
    var s := states[|evs|];
    NothingListed();
    forall f
      ensures Commit(s, ops, f, g) == (Io, s)
    {
      WrappedCommit(s, ops, f, g);
    }
  }

  lemma PutFits(g: Geometry)
    requires g.Sound() && g.Ready() && g.half - g.header >= 17 && Multiple(g.half - g.header, g.w)
    ensures RoomFor(NEW_PUT, g)
  {
    LastApplied(map[], NEW_PUT[0]);
    assert |EncodeOp(NEW_PUT[0])| == 9;
    AlignUpLeast(17, g.w, g.half - g.header);
  }

  /** When the test wraps the driver refuses the write and nothing changes, whatever the fault. */
  lemma WrappedCommit(s: Store, ops: seq<WriteOp>, f: Fault, g: Geometry)
    requires g.Sound() && Inv(s, g) && Fits32(ops, g.w) && Room(s.index, ops, g) && TestWraps(s, ops, g)
    ensures Commit(s, ops, f, g) == (Io, s)
  {
    hide Inv, Frame, Fits32, EncodeRecord, ListingSize, Execute, Compact;
    PlacedInv(s, g);
    EncodeRecordIsFrame(ops, g.w);
    WrapsUnseen(s, ops, g);
    ListingFits(s, g);
    ExecuteRefused(s.cells, s.off, Frame(ops, g.w), f, g);
  }

  /** The room test can wrap on a device if and only if three of its halves reach 2^32 and a header. */
  lemma WrapIff(g: Geometry)
    requires g.Sound() && g.Ready()
    ensures (exists s, ops :: Wraps(s, ops, g)) <==> 3 * g.half >= U32 + g.header
  {
    hide Inv, Fits32, Room, TestWraps, Commit;
    if 3 * g.half >= U32 + g.header {
      var states, outs, evs, ops := WrapWitness(g);
    } else {
      forall s, ops
        ensures !Wraps(s, ops, g)
      {
        if Wraps(s, ops, g) {
          NoWrapBelow(s, ops, g);
        }
      }
    }
  }
}
