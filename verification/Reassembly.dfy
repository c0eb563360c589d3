/**
 The NDNLPv2 reassembly buffer: bounded partial groups keyed by (endpoint, sequence), with
 time-outs, eviction and counters. The clock is a parameter; which of several equally old groups
 is evicted depends on the hash map's order and is a parameter too.
 */
module Reassembly {
  import opened Bytes
  import opened Options

  const MAX_FRAGMENTS: nat := 400
  const MAX_PENDING_PACKETS: nat := 1024

  type Key = (nat, nat)
  datatype Pending = Pending(fragments: seq<Option<seq<byte>>>, count: nat, received: nat, created: nat)
  type Table = map<Key, Pending>

  datatype Stats = Stats(fragmentsIn: nat, completed: nat, timedOut: nat, wasted: nat, rejected: nat, evicted: nat)
  datatype State = State(pending: Table, stats: Stats)

  /** A fragment as handed to the buffer, with the time it arrives at. */
  datatype Call = Call(now: nat, key: Key, index: nat, count: nat, bytes: seq<byte>)

  predicate Live(p: Pending, now: nat, timeout: nat) {
    (if now >= p.created then now - p.created else 0) < timeout
  }

  // ---------------------------------------------------------------------------------------
  // Fragments held by a table
  // ---------------------------------------------------------------------------------------

  ghost function Held(m: Table): nat
    decreases |m|
  {
    if m == map[] then 0
    else
      var k :| k in m;
      m[k].received + Held(m - {k})
  }

  lemma {:induction false} HeldRemove(m: Table, k: Key)
    requires k in m
    ensures Held(m) == m[k].received + Held(m - {k})
    decreases |m|
  {
    var k0 :| k0 in m && Held(m) == m[k0].received + Held(m - {k0});
    if k0 != k {
      HeldRemove(m - {k0}, k);
      HeldRemove(m - {k}, k0);
      assert m - {k0} - {k} == m - {k} - {k0};
    }
  }

  lemma HeldInsert(m: Table, k: Key, p: Pending)
    ensures k !in m ==> Held(m[k := p]) == Held(m) + p.received
    ensures k in m ==> Held(m[k := p]) == Held(m) - m[k].received + p.received
  {
    HeldRemove(m[k := p], k);
    if k in m {
      HeldRemove(m, k);
      assert m[k := p] - {k} == m - {k};
    } else {
      assert m[k := p] - {k} == m;
    }
  }

  function Restrict(m: Table, keys: set<Key>): Table
    requires keys <= m.Keys
  {
    map k | k in keys :: m[k]
  }

  /** Splitting a table by any set of keys. */
  lemma {:induction false} HeldSplit(m: Table, dead: set<Key>)
    requires dead <= m.Keys
    ensures Held(m) == Held(m - dead) + Held(Restrict(m, dead))
    ensures |m| == |m - dead| + |dead|
    decreases |dead|
  {
    hide Held;
    if dead == {} {
      assert m - dead == m;
      HeldNothing(Restrict(m, dead));
    } else {
      var k :| k in dead;
      var rest := dead - {k};
      HeldRemove(m, k);
      RemoveSize(m, k);
      HeldSplit(m - {k}, rest);
      HeldRemove(Restrict(m, dead), k);
      assert m - {k} - rest == m - dead;
      assert Restrict(m, dead) - {k} == Restrict(m - {k}, rest);
    }
  }

  lemma HeldNothing(m: Table)
    requires m.Keys == {}
    ensures Held(m) == 0
  {
    assert m == map[];
  }

  lemma RemoveSize(m: Table, k: Key)
    requires k in m
    ensures |m - {k}| == |m| - 1
  {
    assert (m - {k}).Keys == m.Keys - {k};
    assert |m.Keys| == |m| && |(m - {k}).Keys| == |m - {k}|;
  }

  lemma InsertSize(m: Table, k: Key, p: Pending)
    ensures |m[k := p]| == |m| + if k in m then 0 else 1
  {
    assert m[k := p].Keys == m.Keys + {k};
    assert |m[k := p].Keys| == |m[k := p]| && |m.Keys| == |m|;
  }

  // ---------------------------------------------------------------------------------------
  // Transitions
  // ---------------------------------------------------------------------------------------

  function Expired(m: Table, now: nat, timeout: nat): set<Key> {
    set k | k in m && !Live(m[k], now, timeout)
  }

  ghost function Purge(st: State, now: nat, timeout: nat): State {
    var dead := Expired(st.pending, now, timeout);
    State(st.pending - dead,
          st.stats.(timedOut := st.stats.timedOut + |dead|,
                    wasted := st.stats.wasted + Held(Restrict(st.pending, dead))))
  }

  /** One of the oldest groups. */
  ghost predicate Oldest(m: Table, k: Key) {
    k in m && forall k' :: k' in m ==> m[k].created <= m[k'].created
  }

  /** If an eviction is needed, the victim is one of the oldest groups left. */
  ghost predicate VictimOk(st: State, now: nat, timeout: nat, key: Key, victim: Key) {
    var left := Purge(st, now, timeout).pending;
    key !in st.pending && |st.pending| >= MAX_PENDING_PACKETS && |left| >= MAX_PENDING_PACKETS ==> Oldest(left, victim)
  }

  /** Making room for a new key in a full table. */
  ghost function Admit(st: State, now: nat, timeout: nat, key: Key, victim: Key): State {
    if key in st.pending || |st.pending| < MAX_PENDING_PACKETS then st
    else
      var s1 := Purge(st, now, timeout);
      if |s1.pending| < MAX_PENDING_PACKETS || victim !in s1.pending then s1
      else
        State(s1.pending - {victim},
              s1.stats.(evicted := s1.stats.evicted + 1,
                        wasted := s1.stats.wasted + s1.pending[victim].received))
  }

  function Reject(st: State): State {
    st.(stats := st.stats.(rejected := st.stats.rejected + 1))
  }

  function EntryFor(m: Table, c: Call): Pending {
    if c.key in m then m[c.key] else Pending(seq(c.count, _ => None), c.count, 0, c.now)
  }

  /** Storing a fragment of an accepted call; the last missing one hands the packet up. */
  function Store(st: State, c: Call): (State, Option<seq<byte>>)
    requires c.index < c.count
  {
    var p := EntryFor(st.pending, c);
    if p.count != c.count || c.index >= |p.fragments| then
      (Reject(st.(pending := st.pending[c.key := p])), None)
    else
      var first := p.fragments[c.index].None?;
      var p' := p.(fragments := p.fragments[c.index := Some(c.bytes)],
                   received := p.received + if first then 1 else 0);
      var stats := st.stats.(fragmentsIn := st.stats.fragmentsIn + if first then 1 else 0);
      if p'.received == p'.count then
        (State(st.pending - {c.key}, stats.(completed := stats.completed + 1)), Some(Assemble(p'.fragments)))
      else (State(st.pending[c.key := p'], stats), None)
  }

  function Assemble(fs: seq<Option<seq<byte>>>): seq<byte> {
    if fs == [] then [] else (if fs[0].Some? then fs[0].value else []) + Assemble(fs[1..])
  }

  predicate Acceptable(c: Call) {
    0 < c.count <= MAX_FRAGMENTS && c.index < c.count
  }

  ghost function Process(st: State, c: Call, timeout: nat, victim: Key): (State, Option<seq<byte>>) {
    if !Acceptable(c) then (Reject(st), None)
    else Store(Admit(st, c.now, timeout, c.key, victim), c)
  }

  // ---------------------------------------------------------------------------------------
  // Invariant and conservation
  // ---------------------------------------------------------------------------------------

  function Filled(fs: seq<Option<seq<byte>>>): nat {
    if fs == [] then 0 else Filled(fs[..|fs| - 1]) + if fs[|fs| - 1].Some? then 1 else 0
  }

  predicate Partial(p: Pending) {
    && 1 <= p.received < p.count <= MAX_FRAGMENTS
    && |p.fragments| == p.count && p.received == Filled(p.fragments)
  }

  predicate Tidy(m: Table) {
    |m| <= MAX_PENDING_PACKETS && forall k :: k in m ==> Partial(m[k])
  }

  /** Groups ever opened and fragments of groups handed up, which the counters do not record. */
  datatype Ledger = Ledger(started: nat, delivered: nat)

  /** Every fragment counted in is held, delivered or wasted; every group opened is accounted for. */
  ghost predicate Conserved(st: State, l: Ledger) {
    && Tidy(st.pending)
    && st.stats.fragmentsIn == Held(st.pending) + l.delivered + st.stats.wasted
    && l.started == st.stats.completed + st.stats.timedOut + st.stats.evicted + |st.pending|
  }

  /** What a call adds to the ledger. */
  ghost function Recorded(st: State, c: Call, timeout: nat, victim: Key, l: Ledger): Ledger {
    if !Acceptable(c) then l
    else
      var s1 := Admit(st, c.now, timeout, c.key, victim);
      var (_, out) := Store(s1, c);
      Ledger(l.started + (if c.key in s1.pending then 0 else 1), l.delivered + if out.Some? then c.count else 0)
  }

  /** `left` has exactly the groups of `m` whose age is below the timeout; a time to come is no age. */
  ghost predicate Younger(left: Table, m: Table, now: nat, timeout: nat) {
    && (forall k :: k in left <==> k in m && timeout > 0 && now < m[k].created + timeout)
    && (forall k :: k in left ==> left[k] == m[k])
  }

  /**
   A purge keeps exactly the groups younger than the timeout, as they are; it counts the others and
   the fragments they held, and nothing else.
   */
  lemma PurgeConserves(st: State, l: Ledger, now: nat, timeout: nat)
    requires Conserved(st, l)
    ensures var s' := Purge(st, now, timeout);
            && Conserved(s', l)
            && Younger(s'.pending, st.pending, now, timeout)
            && s'.stats == st.stats.(timedOut := st.stats.timedOut + |st.pending| - |s'.pending|,
                                     wasted := st.stats.wasted + Held(st.pending) - Held(s'.pending))
  {
    hide Held, Partial;
    HeldSplit(st.pending, Expired(st.pending, now, timeout));
  }

  /** What one purge drops every later one would have dropped too, so only the last of several counts. */
  lemma PurgeLater(st: State, now: nat, later: nat, timeout: nat)
    requires now <= later
    ensures Purge(st, later, timeout).pending.Keys <= Purge(st, now, timeout).pending.Keys
    ensures Purge(Purge(st, now, timeout), later, timeout).pending == Purge(st, later, timeout).pending
  {
    hide Held;
  }

  /**
   A group's age counts from the call that opened it: later calls leave its time alone, and with a
   positive timeout a purge at the instant it is opened keeps it.
   */
  lemma OpenedNow(st: State, c: Call, timeout: nat, victim: Key)
    requires c.key in Process(st, c, timeout, victim).0.pending
    ensures var s' := Process(st, c, timeout, victim).0;
            && s'.pending[c.key].created == (if c.key in st.pending then st.pending[c.key].created else c.now)
            && (timeout > 0 && c.key !in st.pending ==> c.key in Purge(s', c.now, timeout).pending)
  {
    hide Held, Assemble;
  }

  lemma AdmitConserves(st: State, l: Ledger, now: nat, timeout: nat, key: Key, victim: Key)
    requires Conserved(st, l)
    requires VictimOk(st, now, timeout, key, victim)
    ensures var s1 := Admit(st, now, timeout, key, victim);
            && Conserved(s1, l)
            && (key in s1.pending || |s1.pending| < MAX_PENDING_PACKETS)
            && (key in s1.pending <==> key in st.pending)
  {
    hide Held, Partial;
    if key !in st.pending && |st.pending| >= MAX_PENDING_PACKETS {
      PurgeConserves(st, l, now, timeout);
      var s1 := Purge(st, now, timeout);
      if |s1.pending| >= MAX_PENDING_PACKETS {
        HeldRemove(s1.pending, victim);
        RemoveSize(s1.pending, victim);
      }
    }
  }

  lemma {:induction false} FilledUpdate(fs: seq<Option<seq<byte>>>, i: nat, b: seq<byte>)
    requires i < |fs|
    ensures Filled(fs[i := Some(b)]) == Filled(fs) + if fs[i].None? then 1 else 0
  {
    var gs := fs[i := Some(b)];
    if i < |fs| - 1 {
      FilledUpdate(fs[..|fs| - 1], i, b);
      assert gs[..|fs| - 1] == fs[..|fs| - 1][i := Some(b)];
    } else {
      assert gs[..|fs| - 1] == fs[..|fs| - 1];
    }
  }

  lemma {:induction false} FilledBound(fs: seq<Option<seq<byte>>>)
    ensures Filled(fs) <= |fs|
    ensures Filled(fs) == |fs| ==> forall i :: 0 <= i < |fs| ==> fs[i].Some?
    ensures (forall i :: 0 <= i < |fs| ==> fs[i].None?) ==> Filled(fs) == 0
  {
    if fs != [] {
      FilledBound(fs[..|fs| - 1]);
    }
  }

  /** The entry a call works on is new and empty, or a well-formed partial group. */
  lemma EntryShape(m: Table, c: Call)
    requires Tidy(m) && Acceptable(c)
    ensures var p := EntryFor(m, c);
            && |p.fragments| == p.count <= MAX_FRAGMENTS && p.received == Filled(p.fragments) && p.received < p.count
            && (c.key !in m ==> p.received == 0 && p.count == c.count)
  {
    FilledBound(EntryFor(m, c).fragments);
  }

  lemma StoreConserves(st: State, l: Ledger, c: Call)
    requires Conserved(st, l) && Acceptable(c) && (c.key in st.pending || |st.pending| < MAX_PENDING_PACKETS)
    ensures var (s', out) := Store(st, c);
            Conserved(s', Ledger(l.started + (if c.key in st.pending then 0 else 1),
                                 l.delivered + if out.Some? then c.count else 0))
  {
    hide Held, Filled, Assemble;
    var m := st.pending;
    var p := EntryFor(m, c);
    EntryShape(m, c);
    if p.count != c.count {
      assert m[c.key := p] == m;
    } else {
      FilledUpdate(p.fragments, c.index, c.bytes);
      var p' := p.(fragments := p.fragments[c.index := Some(c.bytes)],
                   received := p.received + if p.fragments[c.index].None? then 1 else 0);
      SomeFilled(p'.fragments, c.index);
      if p'.received == p'.count {
        if c.key in m {
          HeldRemove(m, c.key);
          RemoveSize(m, c.key);
        } else {
          assert m - {c.key} == m;
        }
      } else {
        FilledBound(p'.fragments);
        HeldInsert(m, c.key, p');
        InsertSize(m, c.key, p');
      }
    }
  }

  lemma {:induction false} SomeFilled(fs: seq<Option<seq<byte>>>, i: nat)
    requires i < |fs| && fs[i].Some?
    ensures Filled(fs) >= 1
  {
    if i < |fs| - 1 {
      SomeFilled(fs[..|fs| - 1], i);
    }
  }

  /** Conservation and the bounds are kept by every call, whatever arrives. */
  lemma ProcessConserves(st: State, l: Ledger, c: Call, timeout: nat, victim: Key)
    requires Conserved(st, l) && VictimOk(st, c.now, timeout, c.key, victim)
    ensures Conserved(Process(st, c, timeout, victim).0, Recorded(st, c, timeout, victim, l))
  {
    hide Held, Partial, VictimOk, Store, Admit;
    if Acceptable(c) {
      AdmitConserves(st, l, c.now, timeout, c.key, victim);
      StoreConserves(Admit(st, c.now, timeout, c.key, victim), l, c);
    }
  }
}
