/**
 The flash log store on values: a NOR device that loses power at any byte of a write or after
 any set of erase blocks, the two halves with their superblocks, and what every commit,
 compaction, power cut and mount does to them.
 */
module FlashStore {
  import opened Bytes
  import opened FlashFormat
  import opened Options
  import opened Backend

  const SUPER_MAGIC: nat := 0x4E44_4E5F_464C_4F47
  const FORMAT_VERSION: nat := 2

  // ---------------------------------------------------------------------------------------
  // Geometry
  // ---------------------------------------------------------------------------------------

  /**
   Write unit, erase unit and capacity of the device in bytes, with the two sizes the engine
   derives from them: the superblock rounded up to the write unit and half the region rounded
   down to the erase unit.
   */
  datatype Geometry = Geometry(w: nat, e: nat, cap: nat, header: nat, half: nat) {
    /** What a NOR driver provides: positive units, blocks of whole write units, 32-bit offsets. */
    predicate Sound() {
      && w > 0 && e > 0 && Multiple(e, w) && cap < U32
      && header == AlignUp(16, w) && half == AlignDown(cap / 2, e)
    }

    /** Every erase block that reaches the generation field also reaches the magic or version. */
    predicate Guarded() {
      e > 0 && 15 / e * e < 12
    }

    /** Byte `i` of a half lies in one of its erase blocks `blocks`. */
    predicate Reaches(blocks: set<nat>, i: nat) {
      e > 0 && i / e in blocks
    }

    /** Blocks that reach the generation field only if they also reach the magic or version. */
    predicate Survives(blocks: set<nat>) {
      && e > 0
      && ((exists i :: 12 <= i < 16 && Reaches(blocks, i)) ==> exists j :: 0 <= j < 12 && Reaches(blocks, j))
    }

    /** Power cuts assumed of the driver: one inside an erase, the first step, erased such blocks. */
    predicate Tolerates(f: Fault) {
      e > 0 && (f.At? && f.step == 0 ==> Survives(f.blocks))
    }

    /** Room for a superblock and one empty record in each half. */
    predicate Ready() {
      && w > 0 && e > 0
      && 16 <= header && header + 8 <= half < 0x8000_0000 && 2 * half <= cap < U32
    }
  }

  // ---------------------------------------------------------------------------------------
  // The device
  // ---------------------------------------------------------------------------------------

  type Cells = seq<byte>

  /** A NOR write can only clear bits. */
  function Program(cells: Cells, off: nat, bytes: seq<byte>): (r: Cells)
    requires off + |bytes| <= |cells|
    ensures |r| == |cells|
  {
    seq(|cells|, i requires 0 <= i < |cells| =>
      if off <= i < off + |bytes| then And(cells[i], bytes[i - off]) else cells[i])
  }

  /** Erases those blocks of `[from, to)` whose number, counted from `from`, is in `done`. */
  function EraseSome(cells: Cells, from: nat, to: nat, e: nat, done: set<nat>): (r: Cells)
    requires e > 0
    ensures |r| == |cells|
  {
    seq(|cells|, i requires 0 <= i < |cells| =>
      if from <= i < to && (i - from) / e in done then 0xFF else cells[i])
  }

  function EraseAll(cells: Cells, from: nat, to: nat): (r: Cells)
    ensures |r| == |cells|
  {
    seq(|cells|, i requires 0 <= i < |cells| => if from <= i < to then 0xFF else cells[i])
  }

  datatype DevOp = Erase(from: nat, to: nat) | Write(off: nat, bytes: seq<byte>)

  /** Power fails during operation `step` of a plan, after `bytes` of a write or `blocks` of an erase. */
  datatype Fault = Never | At(step: nat, bytes: nat, blocks: set<nat>)

  ghost predicate InOrder(blocks: set<nat>) {
    forall b, b' :: b in blocks && 0 <= b' <= b ==> b' in blocks
  }

  /** Operations a driver accepts: aligned and inside the device. */
  predicate Accepts(n: nat, op: DevOp, g: Geometry) {
    match op
    case Erase(from, to) => g.e > 0 && from <= to <= n && Multiple(from, g.e) && Multiple(to, g.e)
    case Write(off, bytes) => g.w > 0 && off + |bytes| <= n && Multiple(off, g.w) && Multiple(|bytes|, g.w)
  }

  function Do(cells: Cells, op: DevOp, g: Geometry): (r: Cells)
    requires Accepts(|cells|, op, g)
    ensures |r| == |cells|
  {
    match op
    case Erase(from, to) => EraseAll(cells, from, to)
    case Write(off, bytes) => Program(cells, off, bytes)
  }

  function DoPartly(cells: Cells, op: DevOp, f: Fault, g: Geometry): (r: Cells)
    requires f.At? && Accepts(|cells|, op, g)
    ensures |r| == |cells|
  {
    match op
    case Erase(from, to) => EraseSome(cells, from, to, g.e, f.blocks)
    case Write(off, bytes) => Program(cells, off, if f.bytes < |bytes| then bytes[..f.bytes] else bytes)
  }

  datatype Ran = Done | Refused | Cut

  function Execute(cells: Cells, plan: seq<DevOp>, f: Fault, g: Geometry): (r: (Cells, Ran))
    ensures |r.0| == |cells|
    decreases |plan|
  {
    if plan == [] then (cells, Done)
    else if !Accepts(|cells|, plan[0], g) then (cells, Refused)
    else if f.At? && f.step == 0 then (DoPartly(cells, plan[0], f, g), Cut)
    else Execute(Do(cells, plan[0], g), plan[1..], Later(f, 1), g)
  }

  /** The fault as seen `n` operations later. */
  function Later(f: Fault, n: nat): Fault {
    if f.At? && f.step >= n then At(f.step - n, f.bytes, f.blocks) else Never
  }

  // ---------------------------------------------------------------------------------------
  // Superblocks
  // ---------------------------------------------------------------------------------------

  function Superblock(gen: nat, hlen: nat): (s: seq<byte>)
    requires hlen >= 16
    ensures |s| == hlen
  {
    LE(SUPER_MAGIC, 8) + LE(FORMAT_VERSION, 4) + LE(gen, 4) + Blank(hlen - 16)
  }

  function ParseSuper(hdr: seq<byte>): Option<nat>
    requires |hdr| == 16
  {
    if FromLE(hdr[..8]) != SUPER_MAGIC || FromLE(hdr[8..12]) != FORMAT_VERSION then None
    else Some(FromLE(hdr[12..16]))
  }

  function ReadSuper(cells: Cells, base: nat): Option<nat>
    requires base + 16 <= |cells|
  {
    ParseSuper(cells[base..base + 16])
  }

  /** Serial-number comparison: `x != y && x.wrapping_sub(y) < 2^31`. */
  predicate Newer(x: nat, y: nat) {
    x != y && (x - y) % U32 < 0x8000_0000
  }

  /** Which half a mount takes: `Some(false)` is half A, `Some(true)` half B. */
  function Select(a: Option<nat>, b: Option<nat>): Option<bool> {
    match (a, b)
    case (None, None) => None
    case (Some(_), None) => Some(false)
    case (None, Some(_)) => Some(true)
    case (Some(ga), Some(gb)) => Some(!Newer(ga, gb))
  }

  // ---------------------------------------------------------------------------------------
  // The store
  // ---------------------------------------------------------------------------------------

  datatype Store = Store(cells: Cells, index: Index, live: nat, gen: nat, off: nat, dirty: bool)

  datatype Outcome = Ok | OutOfSpace | Unformatted | Io | PowerLost

  function Base(second: bool, g: Geometry): nat {
    if second then g.half else 0
  }

  function OtherBase(live: nat, g: Geometry): nat {
    if live == 0 then g.half else 0
  }

  /** Chooses a half and replays it. */
  function Mount(cells: Cells, g: Geometry): (Outcome, Store)
    requires g.w > 0 && 16 <= g.header && 2 * g.half <= |cells|
  {
    var none := Store(cells, map[], 0, 0, 0, false);
    if g.half < g.header + 8 then (OutOfSpace, none)
    else
      var a, b := ReadSuper(cells, 0), ReadSuper(cells, g.half);
      match Select(a, b)
      case None => (Unformatted, none)
      case Some(second) =>
        var base := Base(second, g);
        var gen := if second then b.value else a.value;
        var r := Replay(cells[base + g.header..base + g.half], g.w, map[]);
        (Ok, Store(cells, r.index, base, gen, base + g.header + r.consumed, r.dirty))
  }

  datatype HalfPlan = HalfPlan(plan: seq<DevOp>, fits: bool, end: nat)

  /** Rewriting one half: erase, one record with all operations, superblock last. */
  function WriteHalf(base: nat, gen: nat, ops: seq<WriteOp>, g: Geometry): HalfPlan
    requires g.w > 0 && 16 <= g.header
  {
    var off := base + g.header;
    var erase := [Erase(base, base + g.half)];
    var super := [Write(base, Superblock(gen, g.header))];
    if ops == [] then HalfPlan(erase + super, true, off)
    else
      var rec := EncodeRecord(ops, g.w);
      if (off + |rec|) % U32 > base + g.half then HalfPlan(erase, false, off)
      else HalfPlan(erase + [Write(off, rec)] + super, true, off + |rec|)
  }

  function Compact(s: Store, f: Fault, g: Geometry): (Outcome, Store)
    requires g.w > 0 && 16 <= g.header
  {
    var target := OtherBase(s.live, g);
    var gen := (s.gen + 1) % U32;
    var h := WriteHalf(target, gen, Listing(s.index), g);
    var (cells, ran) := Execute(s.cells, h.plan, f, g);
    match ran
    case Cut => (PowerLost, s.(cells := cells))
    case Refused => (Io, s.(cells := cells))
    case Done =>
      if !h.fits then (OutOfSpace, s.(cells := cells))
      else (Ok, Store(cells, s.index, target, gen, h.end, false))
  }

  /** Number of device operations a compaction performs when nothing interrupts it. */
  function CompactSteps(s: Store, g: Geometry): nat
    requires g.w > 0 && 16 <= g.header
  {
    |WriteHalf(OtherBase(s.live, g), (s.gen + 1) % U32, Listing(s.index), g).plan|
  }

  /** The room test, with the 32-bit sum it is computed in. */
  predicate Overflows(s: Store, need: nat, g: Geometry) {
    (s.off + need) % U32 > s.live + g.half
  }

  function AppendRecord(s: Store, ops: seq<WriteOp>, rec: seq<byte>, f: Fault, g: Geometry): (Outcome, Store) {
    var (cells, ran) := Execute(s.cells, [Write(s.off, rec)], f, g);
    match ran
    case Cut => (PowerLost, s.(cells := cells))
    case Refused => (Io, s.(cells := cells))
    case Done => (Ok, s.(cells := cells, off := s.off + |rec|, index := ApplyAll(s.index, ops)))
  }

  /** One put, delete or batch. */
  function Commit(s: Store, ops: seq<WriteOp>, f: Fault, g: Geometry): (Outcome, Store)
    requires g.w > 0 && 16 <= g.header
  {
    var rec := EncodeRecord(ops, g.w);
    if s.dirty || Overflows(s, |rec|, g) then
      var (o, s1) := Compact(s, f, g);
      if o != Ok then (o, s1)
      else if Overflows(s1, |rec|, g) then (OutOfSpace, s1)
      else AppendRecord(s1, ops, rec, Later(f, CompactSteps(s, g)), g)
    else AppendRecord(s, ops, rec, f, g)
  }

  /** Provisioning: erase half B, then lay down half A empty at generation 0. */
  function Format(cells: Cells, f: Fault, g: Geometry): (Outcome, Store)
    requires g.w > 0 && 16 <= g.header
  {
    var none := Store(cells, map[], 0, 0, 0, false);
    if g.half < g.header + 8 then (OutOfSpace, none)
    else
      var h := WriteHalf(0, 0, [], g);
      var (cells', ran) := Execute(cells, [Erase(g.half, 2 * g.half)] + h.plan, f, g);
      match ran
      case Cut => (PowerLost, none.(cells := cells'))
      case Refused => (Io, none.(cells := cells'))
      case Done => (Ok, Store(cells', map[], 0, 0, h.end, false))
  }
}
