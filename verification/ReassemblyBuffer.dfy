/** The reassembly buffer object: its methods compute the transitions of `Reassembly`. */
module ReassemblyBuffer {
  import opened Bytes
  import R = Reassembly
  import opened Options

  class ReassemblyBuffer {
    const timeout: nat
    var pending: R.Table
    var stats: R.Stats
    ghost var ledger: R.Ledger

    ghost function View(): R.State
      reads this
    {
      R.State(pending, stats)
    }

    /** Bounds and conservation; kept by every method. */
    ghost predicate Valid()
      reads this
    {
      R.Conserved(View(), ledger)
    }

    constructor (timeout: nat)
      ensures this.timeout == timeout && Valid()
      ensures View() == R.State(map[], R.Stats(0, 0, 0, 0, 0, 0)) && ledger == R.Ledger(0, 0)
    {
      this.timeout := timeout;
      pending, stats, ledger := map[], R.Stats(0, 0, 0, 0, 0, 0), R.Ledger(0, 0);
    }

    /** Drops expired groups, counting what they held. */
    method PurgeExpired(now: nat)
      requires Valid()
      modifies this`pending, this`stats
      ensures Valid() && View() == R.Purge(old(View()), now, timeout)
      ensures R.Younger(pending, old(pending), now, timeout)
      ensures stats.timedOut == old(stats.timedOut) + |old(pending)| - |pending|
    {
      hide R.Held, R.Restrict, R.Expired, R.Conserved, R.Purge, R.Younger, Retained;
      var live, timedOut, wasted := Retain(pending, now, timeout);
      Purged(View(), now, timeout, live, timedOut, wasted);
      R.PurgeConserves(View(), ledger, now, timeout);
      pending := live;
      stats := stats.(timedOut := stats.timedOut + timedOut, wasted := stats.wasted + wasted);
    }

    /** One of the oldest groups, in the map's own order. */
    method FindOldest() returns (k: R.Key)
      requires pending != map[]
      ensures R.Oldest(pending, k)
    {
      var todo := pending.Keys;
      k :| k in todo;
      todo := todo - {k};
      while todo != {}
        invariant todo <= pending.Keys && k in pending
        invariant forall x :: x in pending && x !in todo ==> pending[k].created <= pending[x].created
        decreases |todo|
      {
        var x :| x in todo;
        todo := todo - {x};
        if pending[x].created < pending[k].created {
          k := x;
        }
      }
    }

    method MakeRoom(now: nat, key: R.Key) returns (ghost victim: R.Key)
      requires Valid()
      modifies this`pending, this`stats
      ensures View() == R.Admit(old(View()), now, timeout, key, victim)
      ensures R.VictimOk(old(View()), now, timeout, key, victim)
    {
      hide R.Held, R.Oldest, R.Purge;
      victim := key;
      if key !in pending && |pending| >= R.MAX_PENDING_PACKETS {
        PurgeExpired(now);
        if |pending| >= R.MAX_PENDING_PACKETS {
          var oldest := FindOldest();
          OldestIn(pending, oldest);
          stats := stats.(evicted := stats.evicted + 1, wasted := stats.wasted + pending[oldest].received);
          pending := pending - {oldest};
          victim := oldest;
        }
      }
    }

    /** Accepts one fragment; returns the packet when it was the last one missing. */
    method Process(now: nat, endpoint: nat, sequence: nat, index: nat, count: nat, fragment: seq<byte>)
      returns (r: Option<seq<byte>>, ghost victim: R.Key)
      requires Valid()
      modifies this
      ensures Valid()
      ensures var c := R.Call(now, (endpoint, sequence), index, count, fragment);
              && R.VictimOk(old(View()), now, timeout, c.key, victim)
              && (View(), r) == R.Process(old(View()), c, timeout, victim)
              && ledger == R.Recorded(old(View()), c, timeout, victim, old(ledger))
    {
      hide R.Purge, R.Admit, R.VictimOk, R.Store, R.Conserved;
      var key := (endpoint, sequence);
      var c := R.Call(now, key, index, count, fragment);
      ghost var s0, l0 := View(), ledger;
      if count == 0 || count > R.MAX_FRAGMENTS || index >= count {
        stats := stats.(rejected := stats.rejected + 1);
        victim := AnyVictim(s0, now, timeout, key);
        R.ProcessConserves(s0, l0, c, timeout, victim);
        return None, victim;
      }
      victim := MakeRoom(now, key);
      R.AdmitConserves(s0, l0, now, timeout, key, victim);
      R.ProcessConserves(s0, l0, c, timeout, victim);
      IsTidy(View(), l0);
      r := StoreFragment(c);
      ledger := R.Recorded(s0, c, timeout, victim, l0);
    }

    method StoreFragment(c: R.Call) returns (r: Option<seq<byte>>)
      requires R.Tidy(pending) && R.Acceptable(c)
      modifies this`pending, this`stats
      ensures (View(), r) == R.Store(old(View()), c)
    {
      hide R.Tidy, R.EntryFor, R.Assemble, R.Filled;
      var key, index := c.key, c.index;
      ghost var m := pending;
      R.EntryShape(pending, c);
      var entry := R.EntryFor(pending, c);
      pending := pending[key := entry];
      if entry.count != c.count || index >= entry.count {
        stats := stats.(rejected := stats.rejected + 1);
        return None;
      }
      if entry.fragments[index].None? {
        entry := entry.(received := entry.received + 1);
        stats := stats.(fragmentsIn := stats.fragmentsIn + 1);
      }
      entry := entry.(fragments := entry.fragments[index := Some(c.bytes)]);
      pending := pending[key := entry];
      assert pending == m[key := entry];
      if entry.received == entry.count {
        stats := stats.(completed := stats.completed + 1);
        pending := pending - {key};
        assert pending == m - {key};
        var buf := Concatenate(entry.fragments);
        return Some(buf);
      }
      return None;
    }
  }

  ghost predicate Retained(m: R.Table, now: nat, timeout: nat, live: R.Table, timedOut: nat, wasted: nat) {
    var dead := R.Expired(m, now, timeout);
    live == m - dead && timedOut == |dead| && wasted == R.Held(R.Restrict(m, dead))
  }

  /** The groups still live, how many are not, and how many fragments those held. */
  method Retain(m: R.Table, now: nat, timeout: nat) returns (live: R.Table, timedOut: nat, wasted: nat)
    ensures Retained(m, now, timeout, live, timedOut, wasted)
  {
    hide R.Held, R.Restrict, R.Live;
    ghost var gone: set<R.Key> := {};
    timedOut, wasted := 0, 0;
    live := m;
    var todo := m.Keys;
    PurgeNothing(m);
    while todo != {}
      invariant todo <= m.Keys && gone == R.Expired(m, now, timeout) - todo
      invariant live == m - gone && timedOut == |gone| && wasted == R.Held(R.Restrict(m, gone))
      decreases |todo|
    {
      var k :| k in todo;
      todo := todo - {k};
      if !R.Live(m[k], now, timeout) {
        timedOut := timedOut + 1;
        wasted := wasted + m[k].received;
        live := live - {k};
        PurgeOne(m, gone, k);
        gone := gone + {k};
      }
    }
    assert gone == R.Expired(m, now, timeout);
  }

  lemma Purged(st: R.State, now: nat, timeout: nat, live: R.Table, timedOut: nat, wasted: nat)
    requires Retained(st.pending, now, timeout, live, timedOut, wasted)
    ensures R.Purge(st, now, timeout) ==
            R.State(live, st.stats.(timedOut := st.stats.timedOut + timedOut, wasted := st.stats.wasted + wasted))
  {
  }

  method Concatenate(fs: seq<Option<seq<byte>>>) returns (buf: seq<byte>)
    ensures buf == R.Assemble(fs)
  {
    buf := [];
    for i := 0 to |fs|
      invariant R.Assemble(fs) == buf + R.Assemble(fs[i..])
    {
      assert fs[i..][1..] == fs[i + 1..];
      if fs[i].Some? {
        buf := buf + fs[i].value;
      }
    }
  }

  /** Some victim is always admissible. */
  ghost function AnyVictim(st: R.State, now: nat, timeout: nat, key: R.Key): (k: R.Key)
    ensures R.VictimOk(st, now, timeout, key, k)
  {
    var left := R.Purge(st, now, timeout).pending;
    if left == map[] then key
    else
      assert exists k :: R.Oldest(left, k) by { OldestExists(left); }
      var k :| R.Oldest(left, k);
      k
  }

  lemma {:induction false} OldestExists(m: R.Table)
    requires m != map[]
    ensures exists k :: R.Oldest(m, k)
    decreases |m|
  {
    var x :| x in m;
    if m - {x} == map[] {
      assert forall y :: y in m ==> y == x || y in m - {x};
      assert R.Oldest(m, x);
    } else {
      R.RemoveSize(m, x);
      OldestExists(m - {x});
      var k :| R.Oldest(m - {x}, k);
      var best := if m[x].created < m[k].created then x else k;
      assert forall y :: y in m ==> y == x || y in m - {x};
      assert R.Oldest(m, best);
    }
  }

  lemma IsTidy(st: R.State, l: R.Ledger)
    requires R.Conserved(st, l)
    ensures R.Tidy(st.pending)
  {
  }

  lemma PurgeNothing(m: R.Table)
    ensures m - {} == m && R.Held(R.Restrict(m, {})) == 0
  {
    R.HeldNothing(R.Restrict(m, {}));
  }

  lemma PurgeOne(m: R.Table, gone: set<R.Key>, k: R.Key)
    requires gone <= m.Keys && k in m && k !in gone
    ensures m - (gone + {k}) == m - gone - {k} && |gone + {k}| == |gone| + 1
    ensures R.Held(R.Restrict(m, gone + {k})) == R.Held(R.Restrict(m, gone)) + m[k].received
  {
    hide R.Held;
    R.HeldInsert(R.Restrict(m, gone), k, m[k]);
    assert R.Restrict(m, gone + {k}) == R.Restrict(m, gone)[k := m[k]];
  }

  lemma OldestIn(m: R.Table, k: R.Key)
    requires R.Oldest(m, k)
    ensures k in m
  {
  }
}
