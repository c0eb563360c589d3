/**
 Reassembly over whole runs: a packet's fragments in any order, repeated and interleaved with
 anything else, give back exactly the packet, and the counters balance in every state.
 */
module ReassemblyRuns {
  import opened Bytes
  import opened Fragment
  import opened Reassembly
  import opened Options
  import opened Sets

  // ---------------------------------------------------------------------------------------
  // One group followed through a run
  // ---------------------------------------------------------------------------------------

  function Indices(n: nat): (r: set<nat>)
    ensures |r| == n && forall i: nat :: i in r <==> i < n
  {
    if n == 0 then {} else Indices(n - 1) + {n - 1}
  }

  /** The group of `chunks` under key `k` holds exactly the indices in `seen`, not all of them. */
  ghost predicate Holding(m: Table, k: Key, chunks: seq<seq<byte>>, seen: set<nat>) {
    && seen < Indices(|chunks|)
    && if seen == {} then k !in m
       else
         k in m && Slots(m[k], chunks, seen)
  }

  lemma {:induction false} AssembleJoins(fs: seq<Option<seq<byte>>>, chunks: seq<seq<byte>>)
    requires |fs| == |chunks| && forall i :: 0 <= i < |fs| ==> fs[i] == Some(chunks[i])
    ensures Assemble(fs) == Join(chunks)
  {
    if fs != [] {
      AssembleJoins(fs[1..], chunks[1..]);
    }
  }

  /** A group's slots. */
  ghost predicate Slots(p: Pending, chunks: seq<seq<byte>>, seen: set<nat>) {
    && p.count == |chunks| == |p.fragments| && p.received == |seen|
    && forall i :: 0 <= i < |chunks| ==> p.fragments[i] == if i in seen then Some(chunks[i]) else None
  }

  lemma SlotsUpdate(p: Pending, chunks: seq<seq<byte>>, seen: set<nat>, i: nat)
    requires Slots(p, chunks, seen) && i < |chunks|
    ensures var p' := p.(fragments := p.fragments[i := Some(chunks[i])],
                         received := p.received + if p.fragments[i].None? then 1 else 0);
            Slots(p', chunks, seen + {i})
  {
    if i in seen {
      assert seen + {i} == seen;
    }
  }

  /** Storing one more of the group's own fragments. */
  lemma OwnStored(st: State, c: Call, chunks: seq<seq<byte>>, seen: set<nat>)
    requires Holding(st.pending, c.key, chunks, seen)
    requires c.count == |chunks| && c.index < |chunks| && c.bytes == chunks[c.index]
    ensures var (s', out) := Store(st, c); var now := seen + {c.index};
            if now == Indices(|chunks|) then out == Some(Join(chunks)) && Holding(s'.pending, c.key, chunks, {})
            else out == None && Holding(s'.pending, c.key, chunks, now)
  {
    hide Assemble, Join, Indices;
    var p, now := EntryFor(st.pending, c), seen + {c.index};
    assert Slots(p, chunks, seen);
    SlotsUpdate(p, chunks, seen, c.index);
    if now == Indices(|chunks|) {
      AssembleJoins(p.fragments[c.index := Some(c.bytes)], chunks);
    } else {
      assert now < Indices(|chunks|);
      ProperSubsetSize(now, Indices(|chunks|));
    }
  }

  /** A call for the group's key, room-making included. */
  lemma OwnFragment(st: State, c: Call, timeout: nat, victim: Key, chunks: seq<seq<byte>>, seen: set<nat>)
    requires Holding(st.pending, c.key, chunks, seen) && |chunks| <= MAX_FRAGMENTS
    requires c.count == |chunks| && c.index < |chunks| && c.bytes == chunks[c.index]
    ensures var (s', out) := Process(st, c, timeout, victim); var now := seen + {c.index};
            if now == Indices(|chunks|) then out == Some(Join(chunks)) && Holding(s'.pending, c.key, chunks, {})
            else out == None && Holding(s'.pending, c.key, chunks, now)
  {
    hide Store, Held;
    OwnStored(Admit(st, c.now, timeout, c.key, victim), c, chunks, seen);
  }

  /** A call for another key leaves the group as it was, or drops it. */
  lemma OtherFragment(st: State, c: Call, timeout: nat, victim: Key, k: Key)
    requires c.key != k
    ensures var s' := Process(st, c, timeout, victim).0;
            k in s'.pending ==> k in st.pending && s'.pending[k] == st.pending[k]
  {
    hide Held, Assemble;
  }

  /**
   When another key's call drops a group: only to make room in a full table, and then only if the
   group has expired or is among the oldest of a table full of live groups.
   */
  lemma DroppedOnlyIf(st: State, c: Call, timeout: nat, victim: Key, k: Key)
    requires c.key != k && k in st.pending && k !in Process(st, c, timeout, victim).0.pending
    requires VictimOk(st, c.now, timeout, c.key, victim)
    ensures |st.pending| >= MAX_PENDING_PACKETS && c.key !in st.pending
    ensures timeout == 0 || c.now >= st.pending[k].created + timeout
            || (|Purge(st, c.now, timeout).pending| >= MAX_PENDING_PACKETS
                && Oldest(Purge(st, c.now, timeout).pending, k))
  {
    hide Held, Assemble;
    var s1 := Admit(st, c.now, timeout, c.key, victim);
    assert Acceptable(c) && k !in s1.pending;
  }

  // ---------------------------------------------------------------------------------------
  // Runs
  // ---------------------------------------------------------------------------------------

  /** A fragment, a purge, or a frame that is not collected as a fragment. */
  datatype Event = Arrive(call: Call, victim: Key) | Sweep(now: nat) | Other

  ghost function Step(st: State, ev: Event, timeout: nat): (State, Option<seq<byte>>) {
    match ev
    case Arrive(c, victim) => Process(st, c, timeout, victim)
    case Sweep(now) => (Purge(st, now, timeout), None)
    case Other => (st, None)
  }

  predicate Own(ev: Event, k: Key) {
    ev.Arrive? && ev.call.key == k
  }

  /** Indices of the group that arrived during the first `j` events. */
  function Seen(evs: seq<Event>, k: Key, j: nat): set<nat>
    requires j <= |evs|
  {
    set i | 0 <= i < j && Own(evs[i], k) :: evs[i].call.index
  }

  ghost predicate IsRun(states: seq<State>, outs: seq<Option<seq<byte>>>, evs: seq<Event>, timeout: nat) {
    && |states| == |evs| + 1 && |outs| == |evs|
    && forall i :: 0 <= i < |evs| ==> Step(states[i], evs[i], timeout) == (states[i + 1], outs[i])
  }

  /** Calls for key `k` are fragments of `chunks`, and nothing else purges or evicts the group. */
  ghost predicate Undisturbed(states: seq<State>, evs: seq<Event>, k: Key, chunks: seq<seq<byte>>) {
    && |states| == |evs| + 1
    && (forall i :: 0 <= i < |evs| && Own(evs[i], k) ==>
          var c := evs[i].call; c.count == |chunks| && c.index < |chunks| && c.bytes == chunks[c.index])
    && (forall i :: 0 <= i < |evs| && !Own(evs[i], k) && k in states[i].pending ==> k in states[i + 1].pending)
  }

  lemma SeenNext(evs: seq<Event>, k: Key, j: nat)
    requires j < |evs|
    ensures Seen(evs, k, j + 1) == Seen(evs, k, j) + if Own(evs[j], k) then {evs[j].call.index} else {}
  {
  }

  /** Until all indices have arrived the group holds exactly those that have. */
  lemma {:induction false} GroupFollowed(
    states: seq<State>, outs: seq<Option<seq<byte>>>, evs: seq<Event>, timeout: nat,
    k: Key, chunks: seq<seq<byte>>, j: nat)
    requires IsRun(states, outs, evs, timeout) && Undisturbed(states, evs, k, chunks) && j <= |evs|
    requires 1 <= |chunks| <= MAX_FRAGMENTS && k !in states[0].pending
    requires Seen(evs, k, j) != Indices(|chunks|)
    ensures Holding(states[j].pending, k, chunks, Seen(evs, k, j))
    ensures forall i :: 0 <= i < j && Own(evs[i], k) ==> outs[i] == None
  {
    hide Step, Indices, Holding, Seen;
    if j == 0 {
      HoldingNothing(states[0].pending, k, chunks);
      SeenNothing(evs, k);
    } else {
      SeenWithin(states, evs, k, chunks, j);
      GroupFollowed(states, outs, evs, timeout, k, chunks, j - 1);
      FollowStep(states, outs, evs, timeout, k, chunks, j - 1);
    }
  }

  lemma SeenNothing(evs: seq<Event>, k: Key)
    ensures Seen(evs, k, 0) == {}
  {
  }

  lemma FollowStep(
    states: seq<State>, outs: seq<Option<seq<byte>>>, evs: seq<Event>, timeout: nat,
    k: Key, chunks: seq<seq<byte>>, j: nat)
    requires IsRun(states, outs, evs, timeout) && Undisturbed(states, evs, k, chunks) && j < |evs|
    requires |chunks| <= MAX_FRAGMENTS && Seen(evs, k, j + 1) != Indices(|chunks|)
    requires Holding(states[j].pending, k, chunks, Seen(evs, k, j))
    ensures Holding(states[j + 1].pending, k, chunks, Seen(evs, k, j + 1))
    ensures Own(evs[j], k) ==> outs[j] == None
  {
    hide Process, Purge, Indices, Holding, Seen;
    var ev, st, st' := evs[j], states[j], states[j + 1];
    SeenNext(evs, k, j);
    assert Step(st, ev, timeout) == (st', outs[j]);
    if Own(ev, k) {
      OwnFragment(st, ev.call, timeout, ev.victim, chunks, Seen(evs, k, j));
    } else {
      OtherStep(st, ev, timeout, k);
      assert Seen(evs, k, j) + {} == Seen(evs, k, j);
      HoldingKept(st.pending, st'.pending, k, chunks, Seen(evs, k, j));
    }
  }

  lemma HoldingNothing(m: Table, k: Key, chunks: seq<seq<byte>>)
    requires k !in m && |chunks| >= 1
    ensures Holding(m, k, chunks, {})
  {
    assert 0 in Indices(|chunks|);
  }

  lemma HoldingKept(m: Table, m': Table, k: Key, chunks: seq<seq<byte>>, seen: set<nat>)
    requires Holding(m, k, chunks, seen) && (k in m' <==> k in m) && (k in m ==> m'[k] == m[k])
    ensures Holding(m', k, chunks, seen)
  {
  }

  /** Indices that arrived are indices of the packet; a full set stays full. */
  lemma SeenWithin(states: seq<State>, evs: seq<Event>, k: Key, chunks: seq<seq<byte>>, j: nat)
    requires Undisturbed(states, evs, k, chunks) && 0 < j <= |evs| && Seen(evs, k, j) != Indices(|chunks|)
    ensures Seen(evs, k, j - 1) != Indices(|chunks|)
  {
    SeenNext(evs, k, j - 1);
  }

  lemma OtherStep(st: State, ev: Event, timeout: nat, k: Key)
    requires !Own(ev, k)
    ensures var s' := Step(st, ev, timeout).0;
            k in s'.pending ==> k in st.pending && s'.pending[k] == st.pending[k]
  {
    hide Process, Held;
    if ev.Arrive? {
      OtherFragment(st, ev.call, timeout, ev.victim, k);
    }
  }

  /**
   Reassembly: from any state without the group, whatever the order, repetitions and interleaving,
   every call for the group returns nothing until the last missing index arrives, and that call
   returns exactly the packet.
   */
  lemma ReassemblyCorrect(
    states: seq<State>, outs: seq<Option<seq<byte>>>, evs: seq<Event>, timeout: nat,
    k: Key, packet: seq<byte>, cap: nat)
    requires cap > 0 && IsRun(states, outs, evs, timeout) && Undisturbed(states, evs, k, Chunks(packet, cap))
    requires 1 <= |Chunks(packet, cap)| <= MAX_FRAGMENTS && k !in states[0].pending
    requires evs != [] && Own(evs[|evs| - 1], k)
    requires Seen(evs, k, |evs| - 1) != Indices(|Chunks(packet, cap)|)
    ensures forall i :: 0 <= i < |evs| - 1 && Own(evs[i], k) ==> outs[i] == None
    ensures outs[|evs| - 1] ==
              if Seen(evs, k, |evs|) == Indices(|Chunks(packet, cap)|) then Some(packet) else None
  {
    hide Process, Purge, Indices, Holding, Chunks;
    var j, chunks := |evs| - 1, Chunks(packet, cap);
    ChunksJoin(packet, cap);
    GroupFollowed(states, outs, evs, timeout, k, chunks, j);
    SeenNext(evs, k, j);
    assert Step(states[j], evs[j], timeout) == (states[j + 1], outs[j]);
    OwnFragment(states[j], evs[j].call, timeout, evs[j].victim, chunks, Seen(evs, k, j));
  }

  // ---------------------------------------------------------------------------------------
  // Conservation over runs
  // ---------------------------------------------------------------------------------------

  /** Groups opened by the first `j` events: acceptable fragments for a key not pending. */
  function Opened(states: seq<State>, evs: seq<Event>, j: nat): nat
    requires j <= |evs| <= |states|
  {
    if j == 0 then 0
    else
      var ev := evs[j - 1];
      var opens := ev.Arrive? && Acceptable(ev.call) && ev.call.key !in states[j - 1].pending;
      Opened(states, evs, j - 1) + if opens then 1 else 0
  }

  /** Fragments of the packets handed up by the first `j` events. */
  function HandedUp(outs: seq<Option<seq<byte>>>, evs: seq<Event>, j: nat): nat
    requires j <= |evs| == |outs|
  {
    if j == 0 then 0
    else
      var ev := evs[j - 1];
      HandedUp(outs, evs, j - 1) + if ev.Arrive? && outs[j - 1].Some? then ev.call.count else 0
  }

  ghost predicate VictimsOk(states: seq<State>, evs: seq<Event>, timeout: nat) {
    && |evs| <= |states|
    && forall i :: 0 <= i < |evs| && evs[i].Arrive? ==>
         VictimOk(states[i], evs[i].call.now, timeout, evs[i].call.key, evs[i].victim)
  }

  /**
   In every state of every run from an empty buffer the counters balance: fragments counted in are
   pending, handed up or wasted, and groups opened are completed, timed out, evicted or pending.
   */
  lemma {:induction false} RunConserves(
    states: seq<State>, outs: seq<Option<seq<byte>>>, evs: seq<Event>, timeout: nat, j: nat)
    requires IsRun(states, outs, evs, timeout) && VictimsOk(states, evs, timeout) && j <= |evs|
    requires states[0] == State(map[], Stats(0, 0, 0, 0, 0, 0))
    ensures Conserved(states[j], Ledger(Opened(states, evs, j), HandedUp(outs, evs, j)))
  {
    hide Step, Conserved, VictimOk, Acceptable;
    if j == 0 {
      EmptyConserved();
    } else {
      RunConserves(states, outs, evs, timeout, j - 1);
      assert Step(states[j - 1], evs[j - 1], timeout) == (states[j], outs[j - 1]);
      StepConserves(states[j - 1], evs[j - 1], timeout,
                    Ledger(Opened(states, evs, j - 1), HandedUp(outs, evs, j - 1)));
    }
  }

  lemma StepConserves(st: State, ev: Event, timeout: nat, l: Ledger)
    requires Conserved(st, l) && (ev.Arrive? ==> VictimOk(st, ev.call.now, timeout, ev.call.key, ev.victim))
    ensures var (st', out) := Step(st, ev, timeout);
            var opens := ev.Arrive? && Acceptable(ev.call) && ev.call.key !in st.pending;
            Conserved(st', Ledger(l.started + (if opens then 1 else 0),
                                  l.delivered + if ev.Arrive? && out.Some? then ev.call.count else 0))
  {
    hide Process, Purge, Conserved, VictimOk, Acceptable, Recorded;
    match ev
    case Other =>
    case Sweep(now) => PurgeConserves(st, l, now, timeout);
    case Arrive(c, victim) =>
      ProcessConserves(st, l, c, timeout, victim);
      RecordedIs(st, c, timeout, victim, l);
  }

  lemma EmptyConserved()
    ensures Conserved(State(map[], Stats(0, 0, 0, 0, 0, 0)), Ledger(0, 0))
  {
  }

  lemma RecordedIs(st: State, c: Call, timeout: nat, victim: Key, l: Ledger)
    requires Conserved(st, l) && VictimOk(st, c.now, timeout, c.key, victim)
    ensures Recorded(st, c, timeout, victim, l) ==
            Ledger(l.started + (if Acceptable(c) && c.key !in st.pending then 1 else 0),
                   l.delivered + if Process(st, c, timeout, victim).1.Some? then c.count else 0)
  {
    hide Conserved, Store, Admit, VictimOk;
    if Acceptable(c) {
      AdmitConserves(st, l, c.now, timeout, c.key, victim);
    }
  }

  // ---------------------------------------------------------------------------------------
  // From the wire
  // ---------------------------------------------------------------------------------------

  /** The receive path: extraction, then the group's base sequence; `None` drops or bypasses the frame. */
  function Collected(raw: seq<byte>, endpoint: nat, now: nat): Option<Call> {
    match PieceIn(raw)
    case None => None
    case Some(p) =>
      if p.sequence < p.index then None
      else Some(Call(now, (endpoint, p.sequence - p.index), p.index, p.count, p.bytes))
  }

  /**
   Every fragment of a packet cut in two or more reaches the buffer under the packet's base
   sequence with its own index and chunk, exactly when its 64-bit sequence number does not wrap.
   */
  lemma WireFragment(packet: seq<byte>, mtu: nat, baseSeq: nat, i: nat, endpoint: nat, now: nat)
    requires |packet| + FRAG_OVERHEAD < U64 && baseSeq < U64
    requires i < |Chunks(packet, PayloadCap(mtu))| && 2 <= |Chunks(packet, PayloadCap(mtu))|
    ensures var chunks := Chunks(packet, PayloadCap(mtu));
            Collected(FragmentAt(packet, mtu, baseSeq, i), endpoint, now)
            == if baseSeq + i < U64 then Some(Call(now, (endpoint, baseSeq), i, |chunks|, chunks[i])) else None
  {
    hide PieceIn, LpPacket, Chunks;
    var chunks := Chunks(packet, PayloadCap(mtu));
    ChunksShort(packet, PayloadCap(mtu));
    ChunksNoMore(packet, PayloadCap(mtu));
    ExtractRecovers((baseSeq + i) % U64, i, |chunks|, chunks[i]);
  }

  lemma {:induction false} ChunksNoMore(packet: seq<byte>, cap: nat)
    requires cap > 0
    ensures |Chunks(packet, cap)| <= |packet|
  {
    if |packet| > cap {
      ChunksNoMore(packet[cap..], cap);
    }
  }
}
