/**
 Crash atomicity of the flash log store. `Inv` is what holds between calls; every commit keeps
 it, and a power cut anywhere inside one leaves an image that mounts to the map from before the
 interrupted group or to the map from after it.
 */
module FlashAtomicity {
  import opened Bytes
  import opened FlashFormat
  import opened FlashStore
  import opened Options
  import opened Backend

  // ---------------------------------------------------------------------------------------
  // Geometry and device facts
  // ---------------------------------------------------------------------------------------

  /** The sizes the engine computes give a usable layout exactly when `mount` accepts the region. */
  lemma Layout(g: Geometry)
    requires g.Sound()
    ensures g.Ready() <==> g.half >= g.header + 8
    ensures Multiple(g.header, g.w) && Multiple(g.half, g.w)
    ensures Multiple(g.half, g.e) && Multiple(2 * g.half, g.e)
    ensures g.header == (16 + g.w - 1) / g.w * g.w && g.half == g.cap / 2 / g.e * g.e
  {
    AlignIsDivision(16, g.w);
    AlignIsDivision(g.cap / 2, g.e);
    AlignMultiple(16, g.w);
    AlignMultiple(g.cap / 2, g.e);
    MultipleTransitive(g.half, g.e, g.w);
    MultipleSum(g.half, g.half, g.e);
  }

  lemma ProgramElsewhere(cells: Cells, off: nat, bytes: seq<byte>, a: nat, b: nat)
    requires off + |bytes| <= |cells| && a <= b <= |cells|
    requires b <= off || off + |bytes| <= a
    ensures Program(cells, off, bytes)[a..b] == cells[a..b]
  {
  }

  lemma EraseElsewhere(cells: Cells, from: nat, to: nat, e: nat, done: set<nat>, a: nat, b: nat)
    requires e > 0 && a <= b <= |cells| && (b <= from || to <= a)
    ensures EraseSome(cells, from, to, e, done)[a..b] == cells[a..b]
    ensures EraseAll(cells, from, to)[a..b] == cells[a..b]
  {
  }

  lemma EraseAllErases(cells: Cells, from: nat, to: nat, a: nat, b: nat)
    requires from <= a <= b <= to <= |cells|
    ensures Erased(EraseAll(cells, from, to)[a..b])
  {
  }

  lemma SubErased(s: seq<byte>, a: nat, b: nat)
    requires a <= b <= |s| && Erased(s)
    ensures Erased(s[a..b])
  {
  }

  // ---------------------------------------------------------------------------------------
  // Superblocks, whole and torn
  // ---------------------------------------------------------------------------------------

  /** No byte of the magic or the version is an erased byte. */
  lemma MagicBytes()
    ensures LE(SUPER_MAGIC, 8) == [0x47, 0x4F, 0x4C, 0x46, 0x5F, 0x4E, 0x44, 0x4E]
    ensures LE(FORMAT_VERSION, 4) == [2, 0, 0, 0]
    ensures FromLE(LE(SUPER_MAGIC, 8)) == SUPER_MAGIC && FromLE(LE(FORMAT_VERSION, 4)) == FORMAT_VERSION
  {
    hide LE, FromLE;
    PowValues();
    LERoundTrip(SUPER_MAGIC, 8);
    LERoundTrip(FORMAT_VERSION, 4);
    LEStep(0x4E, 0, 0x4E, 0);
    LEStep(0x4E44, 1, 0x44, 0x4E);
    LEStep(0x4E44_4E, 2, 0x4E, 0x4E44);
    LEStep(0x4E44_4E5F, 3, 0x5F, 0x4E44_4E);
    LEStep(0x4E44_4E5F_46, 4, 0x46, 0x4E44_4E5F);
    LEStep(0x4E44_4E5F_464C, 5, 0x4C, 0x4E44_4E5F_46);
    LEStep(0x4E44_4E5F_464C_4F, 6, 0x4F, 0x4E44_4E5F_464C);
    LEStep(SUPER_MAGIC, 7, 0x47, 0x4E44_4E5F_464C_4F);
    LEStep(0, 0, 0, 0);
    LEStep(0, 1, 0, 0);
    LEStep(0, 2, 0, 0);
    LEStep(FORMAT_VERSION, 3, 2, 0);
  }

  lemma LEStep(n: nat, w: nat, low: byte, high: nat)
    requires n == low + 256 * high
    ensures LE(n, w + 1) == [low] + LE(high, w)
    ensures LE(high, 0) == []
  {
    DivUnique(n, 256, high, low);
  }

  /** A superblock is readable exactly when its first twelve bytes are the magic and version. */
  lemma ReadableSuper(hdr: seq<byte>)
    requires |hdr| == 16
    ensures ParseSuper(hdr).Some? <==> hdr[..12] == LE(SUPER_MAGIC, 8) + LE(FORMAT_VERSION, 4)
    ensures ParseSuper(hdr).Some? ==> ParseSuper(hdr).value == FromLE(hdr[12..16]) < U32
  {
    MagicBytes();
    var head := LE(SUPER_MAGIC, 8) + LE(FORMAT_VERSION, 4);
    assert hdr[..12] == hdr[..8] + hdr[8..12];
    if FromLE(hdr[..8]) == SUPER_MAGIC {
      FromLEInjective(hdr[..8], LE(SUPER_MAGIC, 8));
    }
    if FromLE(hdr[8..12]) == FORMAT_VERSION {
      FromLEInjective(hdr[8..12], LE(FORMAT_VERSION, 4));
    }
    if hdr[..12] == head {
      Split2(LE(SUPER_MAGIC, 8), LE(FORMAT_VERSION, 4));
      assert hdr[..8] == hdr[..12][..8] && hdr[8..12] == hdr[..12][8..];
    }
    PowValues();
    FromLEBound(hdr[12..16]);
  }

  /** One erased byte in the magic or version makes a superblock unreadable. */
  lemma ErasedByteHidesSuper(hdr: seq<byte>, i: nat)
    requires |hdr| == 16 && i < 12 && hdr[i] == 0xFF
    ensures ParseSuper(hdr).None?
  {
    ReadableSuper(hdr);
    MagicBytes();
    var head := LE(SUPER_MAGIC, 8) + LE(FORMAT_VERSION, 4);
    assert hdr[..12][i] == 0xFF;
    assert head[i] != 0xFF;
  }

  /** A superblock of which `j` bytes landed: unreadable below twelve, some generation from there. */
  lemma TornSuper(gen: nat, hlen: nat, j: nat, hdr: seq<byte>)
    requires hlen >= 16 && j <= hlen && |hdr| == 16 && gen < U32
    requires forall i :: 0 <= i < 16 ==> hdr[i] == if i < j then Superblock(gen, hlen)[i] else 0xFF
    ensures j < 12 ==> ParseSuper(hdr).None?
    ensures j >= 12 ==> ParseSuper(hdr).Some? && ParseSuper(hdr).value < U32
    ensures j >= 16 ==> ParseSuper(hdr) == Some(gen)
  {
    if j < 12 {
      ErasedByteHidesSuper(hdr, 11);
    } else {
      var head := LE(SUPER_MAGIC, 8) + LE(FORMAT_VERSION, 4);
      assert hdr[..12] == head;
      ReadableSuper(hdr);
      if j >= 16 {
        assert hdr[12..16] == LE(gen, 4);
        PowValues();
        LERoundTrip(gen, 4);
      }
    }
  }

  /** An interrupted erase of such blocks leaves a superblock as it was or unreadable. */
  lemma PartialEraseSuper(cells: Cells, from: nat, to: nat, blocks: set<nat>, g: Geometry)
    requires g.Survives(blocks) && from + 16 <= to <= |cells|
    ensures var s := ReadSuper(EraseSome(cells, from, to, g.e, blocks), from);
            s == None || s == ReadSuper(cells, from)
  {
    var r := EraseSome(cells, from, to, g.e, blocks);
    var was, now := cells[from..from + 16], r[from..from + 16];
    assert forall i :: 0 <= i < 16 ==> now[i] == if g.Reaches(blocks, i) then 0xFF else was[i];
    if j :| 0 <= j < 12 && g.Reaches(blocks, j) {
      ErasedByteHidesSuper(now, j);
    } else {
      assert now == was;
    }
  }

  // ---------------------------------------------------------------------------------------
  // What a half holds
  // ---------------------------------------------------------------------------------------

  function Body(cells: Cells, base: nat, g: Geometry): seq<byte>
    requires g.header <= g.half && base + g.half <= |cells|
  {
    cells[base + g.header..base + g.half]
  }

  /** Records of `groups`, then erased cells, or a torn tail when `dirty`. */
  ghost predicate BodyHolds(body: seq<byte>, groups: seq<seq<WriteOp>>, dirty: bool, w: nat)
    requires w > 0
  {
    var log := Log(groups, w);
    && AllFit(groups, w)
    && |log| <= |body| && body[..|log|] == log
    && if dirty then Stops(body[|log|..], true) else Erased(body[|log|..])
  }

  lemma ReplayBody(body: seq<byte>, groups: seq<seq<WriteOp>>, dirty: bool, w: nat)
    requires w > 0 && BodyHolds(body, groups, dirty, w)
    ensures Replay(body, w, map[]) == Replayed(ApplyAll(map[], Flatten(groups)), |Log(groups, w)|, dirty)
  {
    var log := Log(groups, w);
    var tail := body[|log|..];
    if !dirty {
      ErasedStops(tail);
    }
    var m := ApplyAll(map[], Flatten(groups));
    ReplayStops(tail, dirty, w, m);
    ReplayLog(groups, tail, w, map[]);
    assert body == log + tail;
  }

  ghost predicate LiveLog(s: Store, groups: seq<seq<WriteOp>>, g: Geometry)
    requires g.Ready() && s.live + g.half <= |s.cells|
  {
    && BodyHolds(Body(s.cells, s.live, g), groups, s.dirty, g.w)
    && s.off == s.live + g.header + |Log(groups, g.w)|
    && s.index == ApplyAll(map[], Flatten(groups))
  }

  function Supers(cells: Cells, g: Geometry): (Option<nat>, Option<nat>)
    requires 16 <= g.half && 2 * g.half <= |cells|
  {
    (ReadSuper(cells, 0), ReadSuper(cells, g.half))
  }

  /** The state between calls. */
  ghost predicate Inv(s: Store, g: Geometry) {
    && g.Ready() && |s.cells| == g.cap
    && (s.live == 0 || s.live == g.half)
    && s.gen < U32
    && var (a, b) := Supers(s.cells, g);
    && Select(a, b) == Some(s.live != 0)
    && (if s.live != 0 then b else a) == Some(s.gen)
    && exists groups :: LiveLog(s, groups, g)
  }

  /**
   Between calls the RAM state is exactly what a mount of the flash image would rebuild: same
   half, generation, write offset, tail flag and index.
   */
  lemma MountRebuilds(s: Store, g: Geometry)
    requires Inv(s, g)
    ensures Mount(s.cells, g) == (Ok, s)
  {
    hide ParseSuper, Replay, Log, Flatten, ApplyAll;
    var groups :| LiveLog(s, groups, g);
    ReplayBody(Body(s.cells, s.live, g), groups, s.dirty, g.w);
  }

  // ---------------------------------------------------------------------------------------
  // Changes outside the live half
  // ---------------------------------------------------------------------------------------

  /** The live half stands while its cells are unchanged and a mount still selects it. */
  lemma LiveUntouched(s: Store, cells: Cells, g: Geometry)
    requires Inv(s, g) && |cells| == |s.cells|
    requires cells[s.live..s.live + g.half] == s.cells[s.live..s.live + g.half]
    requires var (a, b) := Supers(cells, g); Select(a, b) == Some(s.live != 0)
    ensures Inv(s.(cells := cells), g)
  {
    hide ParseSuper, Select, Log, Flatten, ApplyAll, BodyHolds;
    var h, n := s.live, g.half;
    SliceOfSlice(s.cells, cells, h, h + n, h, h + 16);
    SliceOfSlice(s.cells, cells, h, h + n, h + g.header, h + n);
    var groups :| LiveLog(s, groups, g);
    assert LiveLog(s.(cells := cells), groups, g);
  }

  /** The other half may become unreadable or keep its generation. */
  lemma OtherHalfStale(s: Store, cells: Cells, g: Geometry)
    requires Inv(s, g) && |cells| == |s.cells|
    requires cells[s.live..s.live + g.half] == s.cells[s.live..s.live + g.half]
    requires var t := OtherBase(s.live, g);
             ReadSuper(cells, t) == None || ReadSuper(cells, t) == ReadSuper(s.cells, t)
    ensures Inv(s.(cells := cells), g)
  {
    hide ParseSuper, LiveLog, Newer;
    SliceOfSlice(s.cells, cells, s.live, s.live + g.half, s.live, s.live + 16);
    LiveUntouched(s, cells, g);
  }

  lemma SliceOfSlice<T>(x: seq<T>, y: seq<T>, a: nat, b: nat, c: nat, d: nat)
    requires a <= c <= d <= b <= |x| && b <= |y| && x[a..b] == y[a..b]
    ensures x[c..d] == y[c..d]
  {
    forall i | c <= i < d
      ensures x[i] == y[i]
    {
      assert x[a..b][i - a] == y[a..b][i - a];
    }
  }

  // ---------------------------------------------------------------------------------------
  // Appending a record
  // ---------------------------------------------------------------------------------------

  lemma AppendBody(body: seq<byte>, groups: seq<seq<WriteOp>>, ops: seq<WriteOp>, w: nat, k: nat, body': seq<byte>)
    returns (groups': seq<seq<WriteOp>>, dirty: bool)
    requires w > 0 && BodyHolds(body, groups, false, w) && Fits32(ops, w) && |body| < 0x8000_0000
    requires var n := |Log(groups, w)|; var rec := Frame(ops, w);
             && n + |rec| <= |body| && k <= |rec|
             && body' == body[..n] + rec[..k] + body[n + k..]
    ensures BodyHolds(body', groups', dirty, w)
    ensures (groups' == groups) || (groups' == groups + [ops] && !dirty)
    ensures k == |Frame(ops, w)| ==> groups' == groups + [ops] && !dirty
  {
    hide Frame, EncodeOps, Log, Stops, Fits32;
    var log, rec := Log(groups, w), Frame(ops, w);
    var n, room := |log|, |body| - |log|;
    TornRecord(ops, w, k, room);
    var tail := rec[..k] + Blank(room - k);
    ErasedTail(body, n, k);
    ConcatAssoc(body[..n], rec[..k], body[n + k..]);
    assert body' == log + tail;
    if k >= 8 + |EncodeOps(ops)| {
      groups', dirty := groups + [ops], false;
      LogAppend(groups, ops, w);
      var rest := Blank(room - |rec|);
      ConcatAssoc(log, rec, rest);
      Split2(log + rec, rest);
    } else {
      groups', dirty := groups, !Erased(tail);
      Split2(log, tail);
    }
  }

  lemma ErasedTail(body: seq<byte>, n: nat, k: nat)
    requires n + k <= |body| && Erased(body[n..])
    ensures body[n + k..] == Blank(|body| - n - k)
  {
    assert body[n + k..] == body[n..][k..];
  }

  /** Programming erased cells at position `n` of the window `[lo, hi)` splices the bytes in. */
  lemma SpliceIsProgram(cells: Cells, lo: nat, hi: nat, n: nat, bytes: seq<byte>)
    requires lo + n + |bytes| <= hi <= |cells| && Erased(cells[lo..hi][n..n + |bytes|])
    ensures var win := cells[lo..hi];
            Program(cells, lo + n, bytes)[lo..hi] == win[..n] + bytes + win[n + |bytes|..]
  {
    var win, r := cells[lo..hi], Program(cells, lo + n, bytes);
    var spliced := win[..n] + bytes + win[n + |bytes|..];
    forall i | 0 <= i < hi - lo
      ensures r[lo..hi][i] == spliced[i]
    {
      assert win[i] == cells[lo + i];
      if n <= i < n + |bytes| {
        assert win[n..n + |bytes|][i - n] == cells[lo + i];
        AndErased(bytes[i - n]);
      }
    }
  }

  ghost predicate Placed(s: Store, g: Geometry) {
    g.Ready() && |s.cells| == g.cap && (s.live == 0 || s.live == g.half)
  }

  lemma AppendWindow(cells: Cells, lo: nat, hi: nat, groups: seq<seq<WriteOp>>, ops: seq<WriteOp>, w: nat, k: nat)
    returns (groups': seq<seq<WriteOp>>, dirty: bool)
    requires w > 0 && lo <= hi <= |cells| && hi - lo < 0x8000_0000 && Fits32(ops, w)
    requires BodyHolds(cells[lo..hi], groups, false, w)
    requires |Log(groups, w)| + |Frame(ops, w)| <= hi - lo && k <= |Frame(ops, w)|
    ensures BodyHolds(Program(cells, lo + |Log(groups, w)|, Frame(ops, w)[..k])[lo..hi], groups', dirty, w)
    ensures groups' == groups || (groups' == groups + [ops] && !dirty)
    ensures k == |Frame(ops, w)| ==> groups' == groups + [ops] && !dirty
  {
    hide BodyHolds, Frame, Program, Log, Fits32, Erased;
    var rec := Frame(ops, w);
    RoomErased(cells[lo..hi], groups, w, k);
    SpliceIsProgram(cells, lo, hi, |Log(groups, w)|, rec[..k]);
    var cells' := Program(cells, lo + |Log(groups, w)|, rec[..k]);
    groups', dirty := AppendBody(cells[lo..hi], groups, ops, w, k, cells'[lo..hi]);
  }

  lemma AppendLog(s: Store, groups: seq<seq<WriteOp>>, ops: seq<WriteOp>, k: nat, g: Geometry)
    returns (groups': seq<seq<WriteOp>>, s': Store)
    requires Placed(s, g) && LiveLog(s, groups, g) && !s.dirty && Fits32(ops, g.w)
    requires s.off + |Frame(ops, g.w)| <= s.live + g.half && k <= |Frame(ops, g.w)|
    ensures s.off + k <= |s.cells| && s'.cells == Program(s.cells, s.off, Frame(ops, g.w)[..k])
    ensures s'.live == s.live && s'.gen == s.gen && LiveLog(s', groups', g)
    ensures groups' == groups || (groups' == groups + [ops] && !s'.dirty)
    ensures k == |Frame(ops, g.w)| ==> groups' == groups + [ops] && !s'.dirty
  {
    hide BodyHolds, Frame, Program, Log, Flatten, ApplyAll, Fits32;
    var lo, hi := s.live + g.header, s.live + g.half;
    var dirty;
    groups', dirty := AppendWindow(s.cells, lo, hi, groups, ops, g.w, k);
    var cells := Program(s.cells, s.off, Frame(ops, g.w)[..k]);
    s' := Store(cells, ApplyAll(map[], Flatten(groups')), s.live, s.gen, lo + |Log(groups', g.w)|, dirty);
  }

  /** Any number of bytes of a record landing at the end of a clean log. */
  lemma AppendLands(s: Store, ops: seq<WriteOp>, k: nat, g: Geometry) returns (s': Store)
    requires Inv(s, g) && !s.dirty && Fits32(ops, g.w)
    requires s.off + |Frame(ops, g.w)| <= s.live + g.half && k <= |Frame(ops, g.w)|
    ensures s.off + k <= |s.cells| && s'.cells == Program(s.cells, s.off, Frame(ops, g.w)[..k])
    ensures Inv(s', g) && s'.live == s.live && s'.gen == s.gen
    ensures s'.index == s.index || s'.index == ApplyAll(s.index, ops)
    ensures k == |Frame(ops, g.w)| ==>
              s'.index == ApplyAll(s.index, ops) && s'.off == s.off + k && !s'.dirty
  {
    hide Supers, Select, BodyHolds, Frame, Program, Log, Flatten, ApplyAll, Fits32;
    var groups :| LiveLog(s, groups, g);
    var groups';
    groups', s' := AppendLog(s, groups, ops, k, g);
    SupersKept(s.cells, s.off, Frame(ops, g.w)[..k], s.live, g);
    LogAppend(groups, ops, g.w);
    ApplyAllConcat(map[], Flatten(groups), ops);
  }

  lemma RoomErased(body: seq<byte>, groups: seq<seq<WriteOp>>, w: nat, k: nat)
    requires w > 0 && BodyHolds(body, groups, false, w) && |Log(groups, w)| + k <= |body|
    ensures var n := |Log(groups, w)|; Erased(body[n..n + k])
  {
    var n := |Log(groups, w)|;
    assert body[n..n + k] == body[n..][..k];
  }

  /** Writing behind the superblock of one half changes neither superblock. */
  lemma SupersKept(cells: Cells, off: nat, bytes: seq<byte>, base: nat, g: Geometry)
    requires g.Ready() && |cells| == g.cap && (base == 0 || base == g.half)
    requires base + g.header <= off && off + |bytes| <= base + g.half
    ensures Supers(Program(cells, off, bytes), g) == Supers(cells, g)
  {
    hide ParseSuper, Program;
    ProgramElsewhere(cells, off, bytes, 0, 16);
    ProgramElsewhere(cells, off, bytes, g.half, g.half + 16);
    var r := Program(cells, off, bytes);
    assert ReadSuper(r, 0) == ReadSuper(cells, 0);
    assert ReadSuper(r, g.half) == ReadSuper(cells, g.half);
  }

  // ---------------------------------------------------------------------------------------
  // Compaction
  // ---------------------------------------------------------------------------------------

  /** Bytes of the record a compaction writes for the live set. */
  function ListingSize(m: Index, w: nat): nat
    requires w > 0
  {
    if Listing(m) == [] then 0 else |Frame(Listing(m), w)|
  }

  /** The live set always fits: it is no larger than the log it was replayed from. */
  lemma ListingFits(s: Store, g: Geometry)
    requires Inv(s, g)
    ensures s.live + g.header + ListingSize(s.index, g.w) <= s.off <= s.live + g.half
    ensures Listing(s.index) != [] ==> Fits32(Listing(s.index), g.w)
  {
    hide Supers, Select, Listing, Log, Flatten, ApplyAll, EncodeOps, AlignUp;
    var groups :| LiveLog(s, groups, g);
    var ops, all := Listing(s.index), Flatten(groups);
    if ops != [] {
      ListingLists(s.index);
      LiveSetFits(ops, all);
      NonEmptyLog(ops, groups);
      OneRecordFits(groups, g.w);
      AlignUpMonotone(8 + |EncodeOps(ops)|, 8 + |EncodeOps(all)|, g.w);
    }
  }

  lemma NonEmptyLog(ops: seq<WriteOp>, groups: seq<seq<WriteOp>>)
    requires ops != [] && Consistent(ops, ApplyAll(map[], Flatten(groups)))
    ensures groups != []
  {
    if groups == [] {
      NothingConsistent(ops);
    }
  }

  lemma AlignUpMonotone(x: nat, y: nat, w: nat)
    requires w > 0 && x <= y
    ensures AlignUp(x, w) <= AlignUp(y, w)
  {
    AlignMultiple(y, w);
    AlignUpLeast(x, w, AlignUp(y, w));
  }

  ghost predicate SameHalf(x: Cells, y: Cells, base: nat, g: Geometry) {
    |x| == |y| && base + g.half <= |x| && x[base..base + g.half] == y[base..base + g.half]
  }

  ghost predicate BlankHalf(cells: Cells, base: nat, g: Geometry) {
    base + g.half <= |cells| && Erased(cells[base..base + g.half])
  }

  ghost predicate BlankHead(cells: Cells, base: nat, g: Geometry) {
    base + g.header <= |cells| && Erased(cells[base..base + g.header])
  }

  /** The live half as it was, and the target half with a blank superblock. */
  ghost predicate Prepared(s: Store, cells: Cells, g: Geometry) {
    Inv(s, g) && SameHalf(cells, s.cells, s.live, g) && BlankHead(cells, OtherBase(s.live, g), g)
  }

  /** Also the target's body holds a complete log of the live set. */
  ghost predicate Written(s: Store, cells: Cells, groups: seq<seq<WriteOp>>, g: Geometry) {
    && Prepared(s, cells, g) && Placed(s, g)
    && BodyHolds(Body(cells, OtherBase(s.live, g), g), groups, false, g.w)
    && ApplyAll(map[], Flatten(groups)) == s.index
  }

  /** Until a readable superblock appears in the target, the live half stands. */
  lemma PreparedStands(s: Store, cells: Cells, g: Geometry)
    requires Prepared(s, cells, g)
    ensures Inv(s.(cells := cells), g) && Recovers(cells, s.index, g)
  {
    hide Select, Supers, ParseSuper, LiveLog;
    var t := OtherBase(s.live, g);
    var hdr := cells[t..t + 16];
    assert hdr[0] == cells[t..t + g.header][0];
    ErasedByteHidesSuper(hdr, 0);
    OtherHalfStale(s, cells, g);
  }

  lemma EraseFrame(cells: Cells, live: nat, blocks: set<nat>, g: Geometry)
    requires g.Ready() && |cells| == g.cap && (live == 0 || live == g.half)
    ensures var t := OtherBase(live, g); var r := EraseAll(cells, t, t + g.half);
            && SameHalf(r, cells, live, g) && BlankHalf(r, t, g) && BlankHead(r, t, g)
            && SameHalf(EraseSome(cells, t, t + g.half, g.e, blocks), cells, live, g)
  {
    hide EraseAll, EraseSome;
    var t := OtherBase(live, g);
    EraseElsewhere(cells, t, t + g.half, g.e, blocks, live, live + g.half);
    EraseAllErases(cells, t, t + g.half, t, t + g.header);
    EraseAllErases(cells, t, t + g.half, t, t + g.half);
  }

  /** Erasing the target, wholly or cut short. */
  lemma EraseStage(s: Store, f: Fault, g: Geometry)
    requires Inv(s, g)
    ensures var t := OtherBase(s.live, g); var r := EraseAll(s.cells, t, t + g.half);
            && g.Ready() && Prepared(s, r, g) && BlankHalf(r, t, g)
            && (f.At? && g.Survives(f.blocks) ==>
                  Recovers(EraseSome(s.cells, t, t + g.half, g.e, f.blocks), s.index, g))
  {
    hide Inv, EraseAll, EraseSome, BlankHalf, BlankHead;
    PlacedInv(s, g);
    var t := OtherBase(s.live, g);
    EraseFrame(s.cells, s.live, if f.At? then f.blocks else {}, g);
    if f.At? && g.Survives(f.blocks) {
      var cells := EraseSome(s.cells, t, t + g.half, g.e, f.blocks);
      PartialEraseSuper(s.cells, t, t + g.half, f.blocks, g);
      OtherHalfStale(s, cells, g);
      assert Inv(s.(cells := cells), g);
    }
  }

  /** Writing inside the body of one half changes neither its superblock nor the other half. */
  lemma BodyWriteFrame(cells: Cells, live: nat, bytes: seq<byte>, g: Geometry)
    requires g.Ready() && |cells| == g.cap && (live == 0 || live == g.half) && g.header + |bytes| <= g.half
    ensures var t := OtherBase(live, g);
            && SameHalf(Program(cells, t + g.header, bytes), cells, live, g)
            && (BlankHead(cells, t, g) ==> BlankHead(Program(cells, t + g.header, bytes), t, g))
  {
    hide Program;
    var t := OtherBase(live, g);
    ProgramElsewhere(cells, t + g.header, bytes, live, live + g.half);
    ProgramElsewhere(cells, t + g.header, bytes, t, t + g.header);
  }

  /** Writing any part of the live set's record into the erased target. */
  lemma RecordStage(s: Store, cells: Cells, k: nat, g: Geometry)
    requires Prepared(s, cells, g) && BlankHalf(cells, OtherBase(s.live, g), g)
    requires Listing(s.index) != [] && k <= |Frame(Listing(s.index), g.w)|
    ensures var rec, t := Frame(Listing(s.index), g.w), OtherBase(s.live, g);
            && g.header + |rec| <= g.half && t + g.half <= |cells|
            && Prepared(s, Program(cells, t + g.header, rec[..k]), g)
            && (k == |rec| ==> Written(s, Program(cells, t + g.header, rec), [Listing(s.index)], g))
  {
    hide Inv, Prepared, Listing, Frame, Program, BodyHolds, Fits32, BlankHalf, Flatten, ApplyAll;
    PreparedPlaced(s, cells, g);
    var rec := Frame(Listing(s.index), g.w);
    ListingFits(s, g);
    PreparedKept(s, cells, rec[..k], g);
    if k == |rec| {
      WholeSlice(rec);
      RecordHolds(s, cells, g);
    }
  }

  lemma PreparedKept(s: Store, cells: Cells, bytes: seq<byte>, g: Geometry)
    requires Prepared(s, cells, g) && Placed(s, g) && |cells| == |s.cells| && g.header + |bytes| <= g.half
    ensures Prepared(s, Program(cells, OtherBase(s.live, g) + g.header, bytes), g)
  {
    hide Inv, Program, BlankHead;
    BodyWriteFrame(cells, s.live, bytes, g);
  }

  lemma RecordHolds(s: Store, cells: Cells, g: Geometry)
    requires Placed(s, g) && BlankHalf(cells, OtherBase(s.live, g), g) && Fits32(Listing(s.index), g.w)
    requires g.header + |Frame(Listing(s.index), g.w)| <= g.half
    ensures var ops, t := Listing(s.index), OtherBase(s.live, g);
            && BodyHolds(Body(Program(cells, t + g.header, Frame(ops, g.w)), t, g), [ops], false, g.w)
            && ApplyAll(map[], Flatten([ops])) == s.index
  {
    hide Listing, Frame, Program, BodyHolds, Fits32, BlankHalf, Flatten, ApplyAll;
    FreshLog(cells, OtherBase(s.live, g), Listing(s.index), g);
    SingleGroup(Listing(s.index));
    ReplayListing(s.index);
  }

  lemma SingleGroup(ops: seq<WriteOp>)
    ensures Flatten([ops]) == ops
  {
    assert [ops][1..] == [];
    assert ops + Flatten([]) == ops;
  }

  lemma FreshLog(cells: Cells, base: nat, ops: seq<WriteOp>, g: Geometry)
    requires g.Ready() && BlankHalf(cells, base, g)
    requires Fits32(ops, g.w) && g.header + |Frame(ops, g.w)| <= g.half
    ensures BodyHolds(Body(Program(cells, base + g.header, Frame(ops, g.w)), base, g), [ops], false, g.w)
  {
    hide Frame, Program, Fits32, BodyHolds;
    var lo, hi, rec := base + g.header, base + g.half, Frame(ops, g.w);
    var body := Body(cells, base, g);
    BlankBody(cells, base, g);
    SubErased(body, 0, |rec|);
    SpliceIsProgram(cells, lo, hi, 0, rec);
    assert body[..0] + rec == rec;
    FreshBody(body, ops, g.w);
  }

  lemma FreshBody(body: seq<byte>, ops: seq<WriteOp>, w: nat)
    requires w > 0 && Erased(body) && Fits32(ops, w) && |Frame(ops, w)| <= |body|
    ensures BodyHolds(Frame(ops, w) + body[|Frame(ops, w)|..], [ops], false, w)
  {
    hide Frame;
    LogOfOne(ops, w);
    Split2(Frame(ops, w), body[|Frame(ops, w)|..]);
  }

  lemma WholeSlice<T>(x: seq<T>)
    ensures x[..|x|] == x
  {
  }

  lemma BlankBody(cells: Cells, base: nat, g: Geometry)
    requires g.Ready() && BlankHalf(cells, base, g)
    ensures Erased(Body(cells, base, g)) && BodyHolds(Body(cells, base, g), [], false, g.w)
    ensures Log([], g.w) == []
  {
    SliceSlice(cells, base, base + g.half, g.header, g.half);
    var body := Body(cells, base, g);
    assert body[0..] == body;
  }

  /** With nothing live the erased target already holds the empty log. */
  lemma EmptyStage(s: Store, cells: Cells, g: Geometry)
    requires Prepared(s, cells, g) && BlankHalf(cells, OtherBase(s.live, g), g)
    requires Listing(s.index) == []
    ensures Written(s, cells, [], g)
  {
    hide Select, Supers, ParseSuper, LiveLog, Listing;
    ReplayListing(s.index);
    BlankBody(cells, OtherBase(s.live, g), g);
  }

  /** Consecutive generations: the new half wins, at either position and across wraparound. */
  lemma NextGenerationWins(gen: nat)
    requires gen < U32
    ensures var next := (gen + 1) % U32; Newer(next, gen) && !Newer(gen, next)
  {
  }

  /**
   A generation is newer exactly if it is reached from the other one by counting up less than half
   the circle. So of two different ones exactly one is newer, unless they are opposite each other.
   */
  lemma NewerIff(x: nat, y: nat)
    requires x < U32 && y < U32
    ensures Newer(x, y) <==> exists k :: 0 < k < 0x8000_0000 && CountedUp(x, y, k)
    ensures x != y && (x - y) % U32 != 0x8000_0000 ==> (Newer(x, y) <==> !Newer(y, x))
    ensures (x - y) % U32 == 0x8000_0000 ==> !Newer(x, y) && !Newer(y, x)
  {
    var k := (x - y) % U32;
    assert CountedUp(x, y, k);
    assert forall j :: 0 < j < 0x8000_0000 && CountedUp(x, y, j) ==> j == k;
  }

  predicate CountedUp(x: nat, y: nat, k: nat) {
    x == (y + k) % U32
  }

  /**
   Writing any part of the superblock. Below twelve bytes the target stays unreadable; from
   there on both halves hold the live set, whatever generation the torn field reads as.
   */
  lemma SuperStage(s: Store, cells: Cells, groups: seq<seq<WriteOp>>, j: nat, g: Geometry) returns (s': Store)
    requires Written(s, cells, groups, g) && j <= g.header
    ensures var t, next := OtherBase(s.live, g), (s.gen + 1) % U32;
            var super := Superblock(next, g.header);
            && Inv(s', g) && s'.index == s.index
            && s'.cells == Program(cells, t, super[..j])
            && (j == g.header ==>
                  s' == Store(s'.cells, s.index, t, next, t + g.header + |Log(groups, g.w)|, false))
  {
    hide Select, Supers, ParseSuper, LiveLog, Superblock, Program, BodyHolds;
    var t, next := OtherBase(s.live, g), (s.gen + 1) % U32;
    var super := Superblock(next, g.header);
    var cells' := Program(cells, t, super[..j]);
    SuperRead(cells, t, next, j, g);
    ProgramElsewhere(cells, t, super[..j], s.live, s.live + g.half);
    ProgramElsewhere(cells, t, super[..j], t + g.header, t + g.half);
    if j < 12 {
      s' := s.(cells := cells');
      OtherHalfStale(s, cells', g);
    } else {
      s' := TwoReadable(s, cells', groups, ReadSuper(cells', t).value, g);
      NextGenerationWins(s.gen);
    }
  }

  lemma SuperRead(cells: Cells, t: nat, gen: nat, j: nat, g: Geometry)
    requires g.Ready() && t + g.half <= |cells| && Erased(cells[t..t + g.header]) && gen < U32 && j <= g.header
    ensures var r := ReadSuper(Program(cells, t, Superblock(gen, g.header)[..j]), t);
            && (j < 12 ==> r.None?)
            && (j >= 12 ==> r.Some? && r.value < U32)
            && (j >= 16 ==> r == Some(gen))
  {
    hide ParseSuper, Superblock, And;
    var bytes := Superblock(gen, g.header)[..j];
    var hdr := Program(cells, t, bytes)[t..t + 16];
    forall i | 0 <= i < 16
      ensures hdr[i] == if i < j then Superblock(gen, g.header)[i] else 0xFF
    {
      assert cells[t + i] == cells[t..t + g.header][i];
      if i < j {
        AndErased(bytes[i]);
      }
    }
    TornSuper(gen, g.header, j, hdr);
  }

  /** Two readable halves with the same content: whichever the generations select is right. */
  lemma TwoReadable(s: Store, cells: Cells, groups: seq<seq<WriteOp>>, gen: nat, g: Geometry) returns (s': Store)
    requires Inv(s, g) && |cells| == |s.cells|
    requires var t := OtherBase(s.live, g);
             && cells[s.live..s.live + g.half] == s.cells[s.live..s.live + g.half]
             && BodyHolds(Body(cells, t, g), groups, false, g.w)
             && ApplyAll(map[], Flatten(groups)) == s.index
             && ReadSuper(cells, t) == Some(gen) && gen < U32
    ensures Inv(s', g) && s'.index == s.index && s'.cells == cells
    ensures Newer(gen, s.gen) && !Newer(s.gen, gen) ==>
              var t := OtherBase(s.live, g);
              s' == Store(cells, s.index, t, gen, t + g.header + |Log(groups, g.w)|, false)
  {
    hide ParseSuper, BodyHolds, Log, Flatten, ApplyAll, Newer;
    var t := OtherBase(s.live, g);
    SliceOfSlice(s.cells, cells, s.live, s.live + g.half, s.live, s.live + 16);
    var (a, b) := Supers(cells, g);
    if Select(a, b) == Some(s.live != 0) {
      s' := s.(cells := cells);
      LiveUntouched(s, cells, g);
    } else {
      s' := Store(cells, s.index, t, gen, t + g.header + |Log(groups, g.w)|, false);
      assert LiveLog(s', groups, g);
    }
  }

  // ---------------------------------------------------------------------------------------
  // Whole operations
  // ---------------------------------------------------------------------------------------

  /** The image mounts to the map `m`, in a state from which the engine continues. */
  ghost predicate Recovers(cells: Cells, m: Index, g: Geometry) {
    exists s :: Inv(s, g) && s.cells == cells && s.index == m
  }

  lemma RecoversByMount(cells: Cells, m: Index, g: Geometry)
    requires Recovers(cells, m, g)
    ensures |cells| == g.cap && g.Ready()
    ensures var (o, s) := Mount(cells, g); o == Ok && Inv(s, g) && s.cells == cells && s.index == m
  {
    var s :| Inv(s, g) && s.cells == cells && s.index == m;
    MountRebuilds(s, g);
  }

  /** A write that is the last of a plan, whole or cut. */
  function Landed(bytes: seq<byte>, f: Fault): (k: nat)
    ensures k <= |bytes|
  {
    if f.At? && f.step == 0 && f.bytes < |bytes| then f.bytes else |bytes|
  }

  lemma ExecuteWrite(cells: Cells, off: nat, bytes: seq<byte>, rest: seq<DevOp>, f: Fault, g: Geometry)
    requires Accepts(|cells|, Write(off, bytes), g)
    ensures var r := Execute(cells, [Write(off, bytes)] + rest, f, g);
            var cells' := Program(cells, off, bytes[..Landed(bytes, f)]);
            if f.At? && f.step == 0 then r == (cells', Cut)
            else r == Execute(cells', rest, Later(f, 1), g)
  {
    hide Accepts, Program;
    assert bytes[..|bytes|] == bytes;
    assert ([Write(off, bytes)] + rest)[1..] == rest;
  }

  lemma AlignedRecord(ops: seq<WriteOp>, w: nat)
    requires w > 0
    ensures Multiple(|Frame(ops, w)|, w)
  {
    AlignMultiple(8 + |EncodeOps(ops)|, w);
  }

  /** The final step of a compaction. */
  lemma SwitchOver(s: Store, cells: Cells, groups: seq<seq<WriteOp>>, f: Fault, g: Geometry)
    requires g.Sound() && Written(s, cells, groups, g)
    ensures var t, next := OtherBase(s.live, g), (s.gen + 1) % U32;
            var (cells', ran) := Execute(cells, [Write(t, Superblock(next, g.header))], f, g);
            && ran != Refused && Recovers(cells', s.index, g)
            && (ran == Cut <==> f.At? && f.step == 0)
            && (ran == Done ==>
                  Inv(Store(cells', s.index, t, next, t + g.header + |Log(groups, g.w)|, false), g))
  {
    hide Inv, BodyHolds, Superblock, Program, Execute, Accepts, Log;
    PlacedInv(s, g);
    TargetAccepts(s, g);
    var t, super := OtherBase(s.live, g), Superblock((s.gen + 1) % U32, g.header);
    assert [Write(t, super)] + [] == [Write(t, super)];
    ExecuteWrite(cells, t, super, [], f, g);
    ExecuteNothing(Program(cells, t, super[..Landed(super, f)]), Later(f, 1), g);
    var s' := SuperStage(s, cells, groups, Landed(super, f), g);
  }

  lemma ExecuteNothing(cells: Cells, f: Fault, g: Geometry)
    ensures Execute(cells, [], f, g) == (cells, Done)
  {
  }

  lemma PlacedInv(s: Store, g: Geometry)
    requires Inv(s, g)
    ensures Placed(s, g) && s.gen < U32
  {
    hide Supers, Select, LiveLog;
  }

  /** Every device operation of a compaction is aligned and inside the target half. */
  lemma TargetAccepts(s: Store, g: Geometry)
    requires g.Sound() && Inv(s, g)
    ensures var t, ops := OtherBase(s.live, g), Listing(s.index);
            && Accepts(g.cap, Erase(t, t + g.half), g)
            && Accepts(g.cap, Write(t, Superblock((s.gen + 1) % U32, g.header)), g)
            && (ops != [] ==> Accepts(g.cap, Write(t + g.header, Frame(ops, g.w)), g))
  {
    hide Inv, Superblock, Listing, Frame, Multiple;
    Layout(g);
    PlacedInv(s, g);
    ListingFits(s, g);
    AlignedRecord(Listing(s.index), g.w);
    ZeroMultiple(g.w);
    ZeroMultiple(g.e);
    MultipleSum(OtherBase(s.live, g), g.header, g.w);
    MultipleSum(OtherBase(s.live, g), g.half, g.e);
  }

  lemma ZeroMultiple(a: nat)
    requires a > 0
    ensures Multiple(0, a)
  {
  }

  lemma PreparedPlaced(s: Store, cells: Cells, g: Geometry)
    requires Prepared(s, cells, g)
    ensures Inv(s, g) && Placed(s, g) && s.gen < U32 && |cells| == |s.cells|
  {
    hide Supers, Select, LiveLog;
  }

  /** The record and superblock of a compaction with a non-empty live set. */
  lemma RecordAndSwitch(s: Store, cells: Cells, f: Fault, g: Geometry)
    requires g.Sound() && Prepared(s, cells, g) && Listing(s.index) != []
    requires BlankHalf(cells, OtherBase(s.live, g), g)
    ensures var t, next, rec := OtherBase(s.live, g), (s.gen + 1) % U32, Frame(Listing(s.index), g.w);
            var super := Superblock(next, g.header);
            var (cells', ran) := Execute(cells, [Write(t + g.header, rec)] + [Write(t, super)], f, g);
            && ran != Refused && Recovers(cells', s.index, g)
            && (ran == Cut <==> f.At? && f.step < 2)
            && (ran == Done ==> Inv(Store(cells', s.index, t, next, t + g.header + |rec|, false), g))
  {
    hide Inv, Prepared, Written, Recovers, BlankHalf, Superblock, Program, Execute, Listing, Frame, Accepts, Log;
    PreparedPlaced(s, cells, g);
    var ops, t := Listing(s.index), OtherBase(s.live, g);
    var rec, super := Frame(ops, g.w), Superblock((s.gen + 1) % U32, g.header);
    TargetAccepts(s, g);
    var k := Landed(rec, f);
    RecordStage(s, cells, k, g);
    ExecuteWrite(cells, t + g.header, rec, [Write(t, super)], f, g);
    if f.At? && f.step == 0 {
      PreparedStands(s, Program(cells, t + g.header, rec[..k]), g);
    } else {
      assert rec[..k] == rec;
      SwitchOver(s, Program(cells, t + g.header, rec), [ops], Later(f, 1), g);
      LogOfOne(ops, g.w);
    }
  }

  lemma LogOfOne(ops: seq<WriteOp>, w: nat)
    requires w > 0
    ensures Log([ops], w) == Frame(ops, w)
  {
    assert [ops][1..] == [];
    assert Frame(ops, w) + Log([], w) == Frame(ops, w);
  }

  /** The plan of a compaction: no size test fails and no length is truncated. */
  lemma CompactPlan(s: Store, g: Geometry)
    requires g.Sound() && Inv(s, g)
    ensures var t, next, ops := OtherBase(s.live, g), (s.gen + 1) % U32, Listing(s.index);
            var h := WriteHalf(t, next, ops, g);
            && h.fits && h.end == t + g.header + ListingSize(s.index, g.w)
            && h.plan == [Erase(t, t + g.half)]
                 + ((if ops == [] then [] else [Write(t + g.header, Frame(ops, g.w))])
                    + [Write(t, Superblock(next, g.header))])
  {
    hide Inv, Superblock, Listing, Frame, EncodeRecord, Fits32;
    PlacedInv(s, g);
    ListingFits(s, g);
    EncodeRecordIsFrame(Listing(s.index), g.w);
  }

  lemma ExecuteErase(cells: Cells, from: nat, to: nat, rest: seq<DevOp>, f: Fault, g: Geometry)
    requires Accepts(|cells|, Erase(from, to), g)
    ensures var r := Execute(cells, [Erase(from, to)] + rest, f, g);
            if f.At? && f.step == 0 then r == (EraseSome(cells, from, to, g.e, f.blocks), Cut)
            else r == Execute(EraseAll(cells, from, to), rest, Later(f, 1), g)
  {
    hide Accepts, EraseAll, EraseSome;
    assert ([Erase(from, to)] + rest)[1..] == rest;
  }

  /** Everything after the erase. */
  lemma CompactRest(s: Store, f: Fault, g: Geometry)
    requires g.Sound() && Inv(s, g)
    ensures var t, next, ops := OtherBase(s.live, g), (s.gen + 1) % U32, Listing(s.index);
            var rest := (if ops == [] then [] else [Write(t + g.header, Frame(ops, g.w))])
                        + [Write(t, Superblock(next, g.header))];
            var (cells, ran) := Execute(EraseAll(s.cells, t, t + g.half), rest, f, g);
            && ran != Refused && Recovers(cells, s.index, g)
            && (ran == Cut <==> f.At? && f.step < |rest|)
            && (ran == Done ==>
                  Inv(Store(cells, s.index, t, next, t + g.header + ListingSize(s.index, g.w), false), g))
  {
    hide Inv, Prepared, Written, Recovers, Superblock, Execute, Listing, Frame, EraseAll, BlankHalf;
    PlacedInv(s, g);
    EraseStage(s, Never, g);
    var t, ops := OtherBase(s.live, g), Listing(s.index);
    var cells := EraseAll(s.cells, t, t + g.half);
    var super := [Write(t, Superblock((s.gen + 1) % U32, g.header))];
    if ops == [] {
      EmptyStage(s, cells, g);
      assert [] + super == super;
      SwitchOver(s, cells, [], f, g);
      assert Log([], g.w) == [];
    } else {
      RecordAndSwitch(s, cells, f, g);
    }
  }

  /** A compaction in terms of what its device operations did. */
  lemma CompactResult(s: Store, f: Fault, g: Geometry)
    requires g.Sound() && Inv(s, g)
    ensures var t, next, ops := OtherBase(s.live, g), (s.gen + 1) % U32, Listing(s.index);
            var rest := (if ops == [] then [] else [Write(t + g.header, Frame(ops, g.w))])
                        + [Write(t, Superblock(next, g.header))];
            var (cells, ran) := if f.At? && f.step == 0
              then (EraseSome(s.cells, t, t + g.half, g.e, f.blocks), Cut)
              else Execute(EraseAll(s.cells, t, t + g.half), rest, Later(f, 1), g);
            && CompactSteps(s, g) == 1 + |rest|
            && (ran == Cut ==> Compact(s, f, g) == (PowerLost, s.(cells := cells)))
            && var s' := Store(cells, s.index, t, next, t + g.header + ListingSize(s.index, g.w), false);
            && (ran == Done ==> Compact(s, f, g) == (Ok, s'))
  {
    hide Inv, Superblock, Execute, Listing, ListingSize, Frame, WriteHalf, Accepts, EraseAll, EraseSome;
    PlacedInv(s, g);
    TargetAccepts(s, g);
    CompactPlan(s, g);
    var t, ops := OtherBase(s.live, g), Listing(s.index);
    var rest := (if ops == [] then [] else [Write(t + g.header, Frame(ops, g.w))])
                + [Write(t, Superblock((s.gen + 1) % U32, g.header))];
    ExecuteErase(s.cells, t, t + g.half, rest, f, g);
  }

  /**
   A compaction never changes the map and never runs out of space; cut anywhere, it leaves an
   image that mounts to the same map.
   */
  lemma CompactAtomic(s: Store, f: Fault, g: Geometry)
    requires g.Sound() && Inv(s, g) && g.Tolerates(f)
    ensures var (o, s') := Compact(s, f, g);
            && (o == Ok || o == PowerLost)
            && (o == PowerLost <==> f.At? && f.step < CompactSteps(s, g))
            && Recovers(s'.cells, s.index, g)
            && (o == Ok ==> Inv(s', g) && s'.index == s.index && !s'.dirty
                            && s'.live == OtherBase(s.live, g)
                            && s'.off == s'.live + g.header + ListingSize(s.index, g.w))
  {
    hide Inv, Recovers, Prepared, BlankHalf, Superblock, Execute, Listing, ListingSize, Frame, EraseAll, EraseSome,
      Compact, CompactSteps;
    CompactResult(s, f, g);
    if f.At? && f.step == 0 {
      EraseStage(s, f, g);
    } else {
      CompactRest(s, Later(f, 1), g);
    }
  }

  /** The write offset is aligned and inside the live half. */
  lemma OffsetAligned(s: Store, g: Geometry)
    requires g.Sound() && Inv(s, g)
    ensures Multiple(s.off, g.w) && s.live + g.header <= s.off <= s.live + g.half
  {
    hide Supers, Select, Log, Flatten, ApplyAll, Multiple, AlignUp;
    Layout(g);
    ZeroMultiple(g.w);
    var groups :| LiveLog(s, groups, g);
    LogAligned(groups, g.w);
    MultipleSum(s.live, g.header, g.w);
    MultipleSum(s.live + g.header, |Log(groups, g.w)|, g.w);
  }

  lemma LogAligned(groups: seq<seq<WriteOp>>, w: nat)
    requires w > 0
    ensures Multiple(|Log(groups, w)|, w)
  {
    if groups != [] {
      OneRecordFits(groups, w);
    }
  }

  /** Appending to a clean log: whole, cut at any byte, or refused by the driver. */
  lemma AppendOutcome(s: Store, ops: seq<WriteOp>, f: Fault, g: Geometry)
    requires g.Sound() && Inv(s, g) && !s.dirty && Fits32(ops, g.w)
    requires !Overflows(s, |Frame(ops, g.w)|, g)
    ensures var (o, s') := AppendRecord(s, ops, Frame(ops, g.w), f, g);
            if s.off + |Frame(ops, g.w)| <= s.live + g.half then
              && (o == PowerLost <==> f.At? && f.step == 0)
              && (o == PowerLost ==> Recovers(s'.cells, s.index, g) || Recovers(s'.cells, ApplyAll(s.index, ops), g))
              && (o != PowerLost ==> o == Ok && Inv(s', g) && s'.index == ApplyAll(s.index, ops))
            else o == Io && s' == s
  {
    hide Inv, Frame, Fits32, Program, Execute, ApplyAll, Multiple;
    var rec := Frame(ops, g.w);
    PlacedInv(s, g);
    OffsetAligned(s, g);
    AlignedRecord(ops, g.w);
    if s.off + |rec| <= s.live + g.half {
      var k := Landed(rec, f);
      WholeSlice(rec);
      assert [Write(s.off, rec)] + [] == [Write(s.off, rec)];
      ExecuteWrite(s.cells, s.off, rec, [], f, g);
      ExecuteNothing(Program(s.cells, s.off, rec[..k]), Later(f, 1), g);
      var s' := AppendLands(s, ops, k, g);
    } else {
      ExecuteRefused(s.cells, s.off, rec, f, g);
    }
  }

  lemma ExecuteRefused(cells: Cells, off: nat, bytes: seq<byte>, f: Fault, g: Geometry)
    requires !Accepts(|cells|, Write(off, bytes), g)
    ensures Execute(cells, [Write(off, bytes)], f, g) == (cells, Refused)
  {
  }

  /** The compacted live set and the group's record fit in one half together. */
  ghost predicate Room(m: Index, ops: seq<WriteOp>, g: Geometry)
    requires g.w > 0
  {
    g.header + ListingSize(m, g.w) + |Frame(ops, g.w)| <= g.half
  }

  /** The sum of the room test leaves 32 bits, so a full log is not recognised as full. */
  ghost predicate TestWraps(s: Store, ops: seq<WriteOp>, g: Geometry)
    requires g.w > 0
  {
    !s.dirty && s.off + |Frame(ops, g.w)| >= U32
  }

  /** The test never wraps for a group with room while three halves stay below 2^32 and a header. */
  lemma NoWrapBelow(s: Store, ops: seq<WriteOp>, g: Geometry)
    requires Inv(s, g) && Room(s.index, ops, g) && 3 * g.half < U32 + g.header
    ensures !TestWraps(s, ops, g)
  {
    hide Inv, Frame, ListingSize;
    PlacedInv(s, g);
    ListingFits(s, g);
  }

  /** What a commit may do to the map, by outcome. */
  ghost predicate Committed(o: Outcome, s: Store, s': Store, ops: seq<WriteOp>, g: Geometry) {
    var after := ApplyAll(s.index, ops);
    match o
    case Ok => Inv(s', g) && s'.index == after
    case PowerLost => Recovers(s'.cells, s.index, g) || Recovers(s'.cells, after, g)
    case _ => Inv(s', g) && s'.index == s.index
  }

  /** The outcome of a commit, and when it is `Ok`. */
  ghost predicate CommitResult(o: Outcome, s: Store, s': Store, ops: seq<WriteOp>, f: Fault, g: Geometry)
    requires g.w > 0
  {
    && Committed(o, s, s', ops, g)
    && (o == PowerLost ==> f.At?) && o != Unformatted
    && (o != PowerLost ==> (o == Ok <==> Room(s.index, ops, g) && !TestWraps(s, ops, g)))
    && (Room(s.index, ops, g) && TestWraps(s, ops, g) ==> o == Io && s' == s)
  }

  lemma CommitAppending(s: Store, ops: seq<WriteOp>, f: Fault, g: Geometry)
    requires g.Sound() && Inv(s, g) && Fits32(ops, g.w)
    requires !s.dirty && !Overflows(s, |Frame(ops, g.w)|, g)
    ensures var (o, s') := AppendRecord(s, ops, Frame(ops, g.w), f, g); CommitResult(o, s, s', ops, f, g)
  {
    hide Inv, Recovers, Frame, Fits32, ApplyAll, AppendRecord, ListingSize, Multiple;
    PlacedInv(s, g);
    ListingFits(s, g);
    AppendOutcome(s, ops, f, g);
  }

  lemma CommitCompacted(s: Store, s1: Store, ops: seq<WriteOp>, f: Fault, g: Geometry)
    requires g.Sound() && Inv(s, g) && Inv(s1, g) && s1.index == s.index && Fits32(ops, g.w)
    requires s.dirty || Overflows(s, |Frame(ops, g.w)|, g)
    requires !s1.dirty && !Overflows(s1, |Frame(ops, g.w)|, g)
    requires s1.off == s1.live + g.header + ListingSize(s.index, g.w)
    ensures var (o, s') := AppendRecord(s1, ops, Frame(ops, g.w), f, g); CommitResult(o, s, s', ops, f, g)
  {
    hide Inv, Recovers, Frame, Fits32, ApplyAll, AppendRecord, ListingSize, Multiple;
    PlacedInv(s, g);
    PlacedInv(s1, g);
    ListingFits(s, g);
    AppendOutcome(s1, ops, f, g);
  }

  /** A wrapping test sees no need to compact. */
  lemma WrapsUnseen(s: Store, ops: seq<WriteOp>, g: Geometry)
    requires Inv(s, g) && Room(s.index, ops, g) && TestWraps(s, ops, g)
    ensures !s.dirty && !Overflows(s, |Frame(ops, g.w)|, g)
  {
    hide Inv, Frame, ListingSize;
    PlacedInv(s, g);
    ListingFits(s, g);
  }

  lemma CommitNoRoom(s: Store, s1: Store, ops: seq<WriteOp>, f: Fault, g: Geometry)
    requires g.Sound() && Inv(s, g) && Inv(s1, g) && s1.index == s.index
    requires s1.off == s1.live + g.header + ListingSize(s.index, g.w)
    requires Overflows(s1, |Frame(ops, g.w)|, g)
    ensures CommitResult(OutOfSpace, s, s1, ops, f, g)
  {
    hide Inv, Recovers, Frame, ApplyAll, ListingSize, Multiple;
    PlacedInv(s1, g);
  }

  /**
   Atomicity of one put, delete or batch. On `Ok` the map is the group applied; on an error it is
   unchanged; cut at any byte of a write or any block of an erase, the image mounts to one or the
   other. Uninterrupted, the group is accepted exactly when the compacted live set and its record
   fit in one half, however full the log is, unless the 32-bit room test wraps around.
   */
  lemma CommitAtomic(s: Store, ops: seq<WriteOp>, f: Fault, g: Geometry)
    requires g.Sound() && Inv(s, g) && Fits32(ops, g.w) && g.Tolerates(f)
    ensures var (o, s') := Commit(s, ops, f, g); CommitResult(o, s, s', ops, f, g)
  {
    hide Inv, Recovers, Frame, Fits32, ApplyAll, EncodeRecord, AppendRecord, Compact, CompactSteps, ListingSize,
      Overflows, Room, TestWraps, Multiple;
    var rec := Frame(ops, g.w);
    EncodeRecordIsFrame(ops, g.w);
    if s.dirty || Overflows(s, |rec|, g) {
      if Room(s.index, ops, g) && TestWraps(s, ops, g) {
        WrapsUnseen(s, ops, g);
      }
      CompactAtomic(s, f, g);
      var (o, s1) := Compact(s, f, g);
      if o == Ok {
        if Overflows(s1, |rec|, g) {
          CommitNoRoom(s, s1, ops, f, g);
        } else {
          var f1 := Later(f, CompactSteps(s, g));
          CommitCompacted(s, s1, ops, f1, g);
        }
      }
    } else {
      CommitAppending(s, ops, f, g);
    }
  }
}
