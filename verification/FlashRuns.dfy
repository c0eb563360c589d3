/**
 Whole runs of the flash log store: provisioning, interrupted or not, then any sequence of
 commits, power cuts and reboots.
 */
module FlashRuns {
  import opened Bytes
  import opened FlashFormat
  import opened FlashStore
  import opened FlashAtomicity
  import opened Options
  import opened Backend

  datatype Event = Group(ops: seq<WriteOp>, fault: Fault) | Reboot

  /** A commit that loses power is followed by a mount of what is left on flash. */
  function Step(s: Store, ev: Event, g: Geometry): (Outcome, Store)
    requires g.Ready() && |s.cells| == g.cap
  {
    match ev
    case Reboot => Mount(s.cells, g)
    case Group(ops, f) =>
      var (o, s1) := Commit(s, ops, f, g);
      if o != PowerLost || |s1.cells| != g.cap then (o, s1) else (o, Mount(s1.cells, g).1)
  }

  /** The map after those groups that landed. */
  function Fold(m: Index, evs: seq<Event>, landed: seq<bool>): Index
    requires |evs| == |landed|
    decreases |evs|
  {
    if evs == [] then m
    else
      var m1 := if evs[0].Group? && landed[0] then ApplyAll(m, evs[0].ops) else m;
      Fold(m1, evs[1..], landed[1..])
  }

  /** A reported success landed, a reported failure did not; a power cut may have done either. */
  predicate Agrees(o: Outcome, landed: bool) {
    match o
    case Ok => landed
    case PowerLost => true
    case _ => !landed
  }

  ghost predicate Sane(ev: Event, g: Geometry) {
    ev.Group? ==> g.w > 0 && Fits32(ev.ops, g.w) && g.Tolerates(ev.fault)
  }

  /** `states` is the run of `evs` with the given outcomes. */
  ghost predicate IsRun(states: seq<Store>, outs: seq<Outcome>, evs: seq<Event>, g: Geometry) {
    && g.Ready() && |states| == |evs| + 1 && |outs| == |evs|
    && (forall i :: 0 <= i < |evs| ==> |states[i].cells| == g.cap)
    && forall i :: 0 <= i < |evs| ==> Step(states[i], evs[i], g) == (outs[i], states[i + 1])
  }

  /** One step keeps the invariant, and its effect on the map agrees with what it reported. */
  lemma StepAtomic(s: Store, ev: Event, g: Geometry)
    requires g.Sound() && Inv(s, g) && Sane(ev, g)
    ensures Placed(s, g)
    ensures var (o, s') := Step(s, ev, g);
            && Inv(s', g) && o != Unformatted
            && exists landed :: Agrees(o, landed)
                 && s'.index == (if ev.Group? && landed then ApplyAll(s.index, ev.ops) else s.index)
  {
    hide Inv, Commit, Recovers, Fits32, ApplyAll;
    PlacedInv(s, g);
    var (o, s') := Step(s, ev, g);
    match ev {
      case Reboot =>
        MountRebuilds(s, g);
        assert Agrees(o, true);
      case Group(ops, f) =>
        CommitAtomic(s, ops, f, g);
        var (_, s1) := Commit(s, ops, f, g);
        if o == PowerLost {
          if Recovers(s1.cells, s.index, g) {
            RecoversByMount(s1.cells, s.index, g);
            assert Agrees(o, false);
          } else {
            RecoversByMount(s1.cells, ApplyAll(s.index, ops), g);
            assert Agrees(o, true);
          }
        } else {
          assert Agrees(o, o == Ok);
        }
    }
  }

  /**
   Crash atomicity over whole runs: whatever groups, power cuts and reboots happen, the map is
   the fold of a choice of groups that contains every group reported `Ok`, none reported failed,
   and each interrupted one wholly or not at all.
   */
  lemma {:induction false} CrashAtomicity(states: seq<Store>, outs: seq<Outcome>, evs: seq<Event>, g: Geometry)
    returns (landed: seq<bool>)
    requires g.Sound() && IsRun(states, outs, evs, g) && Inv(states[0], g)
    requires forall i :: 0 <= i < |evs| ==> Sane(evs[i], g)
    ensures Inv(states[|evs|], g) && |landed| == |evs|
    ensures forall i :: 0 <= i < |evs| ==> outs[i] != Unformatted && Agrees(outs[i], landed[i])
    ensures states[|evs|].index == Fold(states[0].index, evs, landed)
    decreases |evs|
  {
    hide Inv, Step, Sane, ApplyAll;
    if evs == [] {
      landed := [];
    } else {
      StepAtomic(states[0], evs[0], g);
      assert Step(states[0], evs[0], g) == (outs[0], states[1]);
      var first :| Agrees(outs[0], first)
        && states[1].index ==
           (if evs[0].Group? && first then ApplyAll(states[0].index, evs[0].ops) else states[0].index);
      var rest := CrashAtomicity(states[1..], outs[1..], evs[1..], g);
      landed := [first] + rest;
      assert landed[1..] == rest;
    }
  }

  // ---------------------------------------------------------------------------------------
  // Provisioning
  // ---------------------------------------------------------------------------------------

  /** Formatting any image gives the empty store; what the region held before does not matter. */
  lemma FormatFresh(cells: Cells, g: Geometry)
    requires g.Sound() && g.Ready() && |cells| == g.cap
    ensures var (o, s) := Format(cells, Never, g);
            var blank := EraseAll(EraseAll(cells, g.half, 2 * g.half), 0, g.half);
            && o == Ok && Inv(s, g)
            && s == Store(Program(blank, 0, Superblock(0, g.header)), map[], 0, 0, g.header, false)
  {
    hide Multiple, Superblock, ParseSuper, EraseAll, Program, BodyHolds;
    Layout(g);
    ZeroMultiple(g.e);
    ZeroMultiple(g.w);
    var h := g.half;
    var super := Superblock(0, g.header);
    var c1 := EraseAll(cells, h, 2 * h);
    var c2 := EraseAll(c1, 0, h);
    var c3 := Program(c2, 0, super);
    var tail := [Write(0, super)];
    ExecuteErase(cells, h, 2 * h, [Erase(0, h)] + tail, Never, g);
    ExecuteErase(c1, 0, h, tail, Never, g);
    assert tail == tail + [];
    ExecuteWrite(c2, 0, super, [], Never, g);
    ExecuteNothing(c3, Never, g);
    WholeSlice(super);
    assert [Erase(h, 2 * h)] + ([Erase(0, 0 + h)] + tail) == [Erase(h, 2 * h)] + WriteHalf(0, 0, [], g).plan;
    var s := Store(c3, map[], 0, 0, g.header, false);
    assert Format(cells, Never, g) == (Ok, s);
    FormatImage(cells, g);
  }

  lemma FormatImage(cells: Cells, g: Geometry)
    requires g.Ready() && |cells| == g.cap
    ensures var c2 := EraseAll(EraseAll(cells, g.half, 2 * g.half), 0, g.half);
            Inv(Store(Program(c2, 0, Superblock(0, g.header)), map[], 0, 0, g.header, false), g)
  {
    hide Superblock, ParseSuper, Program, BodyHolds, EraseAll, BlankHalf, BlankHead;
    var h, super := g.half, Superblock(0, g.header);
    var c1 := EraseAll(cells, h, 2 * h);
    var c2 := EraseAll(c1, 0, h);
    var c3 := Program(c2, 0, super);
    EraseFrame(cells, 0, {}, g);
    EraseFrame(c1, h, {}, g);
    SameHalfBlank(c2, c1, h, g);
    WholeSlice(super);
    BlankIsErased(c2, 0, g);
    SuperRead(c2, 0, 0, g.header, g);
    ProgramElsewhere(c2, 0, super, h, h + h);
    BlankUnreadable(c2, h, g);
    SliceOfSlice(c2, c3, h, h + h, h, h + 16);
    ProgramElsewhere(c2, 0, super, g.header, h);
    BlankBody(c2, 0, g);
    var s := Store(c3, map[], 0, 0, g.header, false);
    assert LiveLog(s, [], g);
  }

  lemma SameHalfBlank(x: Cells, y: Cells, base: nat, g: Geometry)
    requires SameHalf(x, y, base, g) && BlankHalf(y, base, g)
    ensures BlankHalf(x, base, g)
  {
  }

  lemma BlankIsErased(cells: Cells, base: nat, g: Geometry)
    requires g.Ready() && BlankHead(cells, base, g)
    ensures base + g.header <= |cells| && Erased(cells[base..base + g.header])
  {
  }

  lemma BlankUnreadable(cells: Cells, base: nat, g: Geometry)
    requires g.Ready() && BlankHalf(cells, base, g)
    ensures ReadSuper(cells, base) == None
  {
    hide ParseSuper;
    var hdr := cells[base..base + 16];
    assert hdr[0] == cells[base..base + g.half][0];
    ErasedByteHidesSuper(hdr, 0);
  }

  /** What a mount makes of half A alone. */
  function OnlyA(cells: Cells, g: Geometry): (Outcome, Index)
    requires g.Ready() && g.half <= |cells|
  {
    if ReadSuper(cells, 0) == None then (Unformatted, map[])
    else (Ok, Replay(Body(cells, 0, g), g.w, map[]).index)
  }

  lemma OnlyASame(x: Cells, y: Cells, g: Geometry)
    requires g.Ready() && SameHalf(x, y, 0, g)
    ensures OnlyA(x, g) == OnlyA(y, g)
  {
    hide ParseSuper, Replay;
    SliceOfSlice(x, y, 0, g.half, 0, 16);
    SliceOfSlice(x, y, 0, g.half, g.header, g.half);
  }

  lemma MountOnlyA(cells: Cells, g: Geometry)
    requires g.Ready() && |cells| == g.cap && ReadSuper(cells, g.half) == None
    ensures var (o, s) := Mount(cells, g); (o, s.index) == OnlyA(cells, g)
  {
    hide ParseSuper, Replay;
  }

  /** An erase that reached the magic or version of a half leaves it unreadable. */
  lemma ReachedUnreadable(cells: Cells, base: nat, blocks: set<nat>, j: nat, g: Geometry)
    requires g.Ready() && base + g.half <= |cells| && j < 12 && g.Reaches(blocks, j)
    ensures ReadSuper(EraseSome(cells, base, base + g.half, g.e, blocks), base) == None
  {
    hide ParseSuper;
    var r := EraseSome(cells, base, base + g.half, g.e, blocks);
    assert r[base..base + 16][j] == r[base + j];
    ErasedByteHidesSuper(r[base..base + 16], j);
  }

  predicate ReachesMagic(blocks: set<nat>, g: Geometry) {
    exists j :: 0 <= j < 12 && g.Reaches(blocks, j)
  }

  /** The cells a format leaves when it is cut during its step `f.step`. */
  lemma FormatCells(cells: Cells, f: Fault, g: Geometry)
    requires g.Sound() && g.Ready() && |cells| == g.cap && f.At? && f.step < 3
    ensures var (o, s) := Format(cells, f, g); var h, super := g.half, Superblock(0, g.header);
            var noB := EraseAll(cells, h, 2 * h);
            && o == PowerLost
            && s.cells == (if f.step == 0 then EraseSome(cells, h, 2 * h, g.e, f.blocks)
                           else if f.step == 1 then EraseSome(noB, 0, h, g.e, f.blocks)
                           else Program(EraseAll(noB, 0, h), 0,
                                        super[..if f.bytes < g.header then f.bytes else g.header]))
  {
    hide Multiple, Superblock, EraseAll, EraseSome, Program;
    Layout(g);
    ZeroMultiple(g.e);
    ZeroMultiple(g.w);
    var h, super := g.half, Superblock(0, g.header);
    var c1 := EraseAll(cells, h, 2 * h);
    var tail := [Write(0, super)];
    ExecuteErase(cells, h, 2 * h, [Erase(0, h)] + tail, f, g);
    ExecuteErase(c1, 0, h, tail, Later(f, 1), g);
    assert tail == tail + [];
    ExecuteWrite(EraseAll(c1, 0, h), 0, super, [], Later(Later(f, 1), 1), g);
    assert [Erase(h, 2 * h)] + ([Erase(0, 0 + h)] + tail) == [Erase(h, 2 * h)] + WriteHalf(0, 0, [], g).plan;
  }

  /**
   What a mount returns after a format that lost power. While half B is being erased: half A alone
   once B is unreadable. While half A is being erased: what is left of half A alone, and nothing
   once its magic or version is reached. While the superblock is written: nothing below twelve
   bytes, and from there the empty store.
   */
  lemma FormatCut(cells: Cells, f: Fault, g: Geometry)
    requires g.Sound() && g.Ready() && |cells| == g.cap && f.At? && f.step < 3
    ensures var (o, s) := Format(cells, f, g);
            && o == PowerLost && |s.cells| == g.cap
            && var (m, s') := Mount(s.cells, g);
            && (f.step == 0 ==> s.cells == EraseSome(cells, g.half, 2 * g.half, g.e, f.blocks))
            && (f.step == 0 && ReachesMagic(f.blocks, g) ==> (m, s'.index) == OnlyA(cells, g))
            && (f.step == 1 ==> (m, s'.index) == OnlyA(EraseSome(cells, 0, g.half, g.e, f.blocks), g))
            && (f.step == 1 && ReachesMagic(f.blocks, g) ==> m == Unformatted)
            && (f.step == 2 ==> m == (if f.bytes < 12 then Unformatted else Ok) && s'.index == map[])
  {
    hide Format, Mount, EraseSome, EraseAll, Program, Superblock, OnlyA;
    FormatCells(cells, f, g);
    if f.step == 0 {
      CutAtB(cells, f.blocks, g);
    } else if f.step == 1 {
      CutAtA(cells, f.blocks, g);
    } else {
      CutAtSuper(cells, if f.bytes < g.header then f.bytes else g.header, g);
    }
  }

  lemma CutAtB(cells: Cells, blocks: set<nat>, g: Geometry)
    requires g.Ready() && |cells| == g.cap && g.e > 0
    ensures var (m, s) := Mount(EraseSome(cells, g.half, 2 * g.half, g.e, blocks), g);
            ReachesMagic(blocks, g) ==> (m, s.index) == OnlyA(cells, g)
  {
    hide Mount, EraseSome, OnlyA, ReadSuper;
    var r := EraseSome(cells, g.half, 2 * g.half, g.e, blocks);
    if j :| 0 <= j < 12 && g.Reaches(blocks, j) {
      ReachedUnreadable(cells, g.half, blocks, j, g);
      MountOnlyA(r, g);
      EraseElsewhere(cells, g.half, 2 * g.half, g.e, blocks, 0, g.half);
      OnlyASame(r, cells, g);
    }
  }

  lemma CutAtA(cells: Cells, blocks: set<nat>, g: Geometry)
    requires g.Ready() && |cells| == g.cap && g.e > 0
    ensures var (m, s) := Mount(EraseSome(EraseAll(cells, g.half, 2 * g.half), 0, g.half, g.e, blocks), g);
            && (m, s.index) == OnlyA(EraseSome(cells, 0, g.half, g.e, blocks), g)
            && (ReachesMagic(blocks, g) ==> m == Unformatted)
  {
    hide Mount, EraseSome, EraseAll, ReadSuper, BlankHalf, BlankHead, Replay;
    var noB, part := EraseAll(cells, g.half, 2 * g.half), EraseSome(cells, 0, g.half, g.e, blocks);
    var r := EraseSome(noB, 0, g.half, g.e, blocks);
    EraseFrame(cells, 0, {}, g);
    EraseFrame(noB, g.half, blocks, g);
    SameHalfBlank(r, noB, g.half, g);
    BlankUnreadable(r, g.half, g);
    MountOnlyA(r, g);
    EraseAlike(cells, noB, blocks, g);
    OnlyASame(r, part, g);
    if j :| 0 <= j < 12 && g.Reaches(blocks, j) {
      ReachedUnreadable(cells, 0, blocks, j, g);
    }
  }

  lemma EraseAlike(x: Cells, y: Cells, blocks: set<nat>, g: Geometry)
    requires g.Ready() && SameHalf(y, x, 0, g)
    ensures SameHalf(EraseSome(y, 0, g.half, g.e, blocks), EraseSome(x, 0, g.half, g.e, blocks), 0, g)
  {
    forall i | 0 <= i < g.half
      ensures x[i] == y[i]
    {
      assert x[0..g.half][i] == y[0..g.half][i];
    }
  }

  lemma CutAtSuper(cells: Cells, j: nat, g: Geometry)
    requires g.Ready() && |cells| == g.cap && j <= g.header
    ensures var blank := EraseAll(EraseAll(cells, g.half, 2 * g.half), 0, g.half);
            var (m, s) := Mount(Program(blank, 0, Superblock(0, g.header)[..j]), g);
            m == (if j < 12 then Unformatted else Ok) && s.index == map[]
  {
    hide Mount, EraseAll, Superblock, ParseSuper, Program, BlankHalf, BlankHead, Replay;
    var noB, bytes := EraseAll(cells, g.half, 2 * g.half), Superblock(0, g.header)[..j];
    var blank := EraseAll(noB, 0, g.half);
    var r := Program(blank, 0, bytes);
    EraseFrame(cells, 0, {}, g);
    EraseFrame(noB, g.half, {}, g);
    SameHalfBlank(blank, noB, g.half, g);
    BlankUnreadable(blank, g.half, g);
    ProgramElsewhere(blank, 0, bytes, g.half, g.half + 16);
    MountOnlyA(r, g);
    BlankIsErased(blank, 0, g);
    SuperRead(blank, 0, 0, j, g);
    ProgramElsewhere(blank, 0, bytes, g.header, g.half);
    BlankBody(blank, 0, g);
    ReplayBody(Body(r, 0, g), [], false, g.w);
  }

  /** With blocks erased in order, any progress on a half already makes it unreadable. */
  lemma FormatCutInOrder(cells: Cells, f: Fault, g: Geometry)
    requires g.Sound() && g.Ready() && |cells| == g.cap && f.At? && f.step < 2 && InOrder(f.blocks)
    ensures var (m, s) := Mount(Format(cells, f, g).1.cells, g);
            if f.step == 0 && f.blocks == {} then (m, s) == Mount(cells, g)
            else if f.step == 0 || f.blocks == {} then (m, s.index) == OnlyA(cells, g)
            else m == Unformatted
  {
    hide Format, Mount, EraseAll, OnlyA;
    FormatCut(cells, f, g);
    if f.blocks == {} {
      assert EraseSome(cells, 0, g.half, g.e, {}) == cells;
      assert EraseSome(cells, g.half, 2 * g.half, g.e, {}) == cells;
    } else {
      var b :| b in f.blocks;
      assert 0 in f.blocks;
      assert g.Reaches(f.blocks, 0);
    }
  }

  /** The guarantee from first provisioning on, in terms of what a final mount returns. */
  lemma RunFromFormat(cells: Cells, states: seq<Store>, outs: seq<Outcome>, evs: seq<Event>, g: Geometry)
    returns (landed: seq<bool>)
    requires g.Sound() && g.Ready() && |cells| == g.cap
    requires IsRun(states, outs, evs, g) && states[0] == Format(cells, Never, g).1
    requires forall i :: 0 <= i < |evs| ==> Sane(evs[i], g)
    ensures |landed| == |evs| && (forall i :: 0 <= i < |evs| ==> Agrees(outs[i], landed[i]))
    ensures |states[|evs|].cells| == g.cap
    ensures var (o, s) := Mount(states[|evs|].cells, g);
            o == Ok && s == states[|evs|] && s.index == Fold(map[], evs, landed)
  {
    hide Format, Inv, Mount, Step, Fold;
    FormatFresh(cells, g);
    landed := CrashAtomicity(states, outs, evs, g);
    PlacedInv(states[|evs|], g);
    MountRebuilds(states[|evs|], g);
  }

  // ---------------------------------------------------------------------------------------
  // Writes land on erased cells
  // ---------------------------------------------------------------------------------------

  /** An append is aligned, inside the live half, and on erased cells: NOR writes act as assignment. */
  lemma AppendIsAssignment(s: Store, bytes: seq<byte>, g: Geometry)
    requires g.Sound() && Inv(s, g) && !s.dirty && s.off + |bytes| <= s.live + g.half
    ensures Multiple(s.off, g.w) && s.live + g.header <= s.off && s.off + |bytes| <= |s.cells|
    ensures Erased(s.cells[s.off..s.off + |bytes|])
    ensures Program(s.cells, s.off, bytes) == s.cells[..s.off] + bytes + s.cells[s.off + |bytes|..]
  {
    hide Inv, Multiple, Program;
    PlacedInv(s, g);
    OffsetAligned(s, g);
    FreeCellsErased(s, |bytes|, g);
    SpliceWhole(s.cells, s.off, bytes);
  }

  lemma FreeCellsErased(s: Store, n: nat, g: Geometry)
    requires g.Sound() && Inv(s, g) && !s.dirty && s.off + n <= s.live + g.half
    ensures s.off + n <= |s.cells| && Erased(s.cells[s.off..s.off + n])
  {
    hide Supers, Select, ApplyAll, Flatten, Multiple, AlignUp, AlignDown, Log, BodyHolds;
    var groups :| LiveLog(s, groups, g);
    RoomErased(Body(s.cells, s.live, g), groups, g.w, n);
    var k, lo, hi := |Log(groups, g.w)|, s.live + g.header, s.live + g.half;
    SliceSlice(s.cells, lo, hi, k, k + n);
  }

  lemma SpliceWhole(cells: Cells, off: nat, bytes: seq<byte>)
    requires off + |bytes| <= |cells| && Erased(cells[off..off + |bytes|])
    ensures Program(cells, off, bytes) == cells[..off] + bytes + cells[off + |bytes|..]
  {
    hide Program;
    assert cells[0..|cells|] == cells;
    SpliceIsProgram(cells, 0, |cells|, off, bytes);
    WholeSlice(Program(cells, off, bytes));
  }
}
