/**
 The windowed segment fetch. One call is one run of the loop; what the network, the verifier tasks
 and the congestion controller do is a script with one entry per turn. The window is any number,
 completions arrive in any order, frames may be lost, repeated, unsolicited or malformed.
 */
module Fetch {
  import opened Bytes
  import opened Options

  const SEG_MAX_STALLS: nat := 45
  const MAX_OUTSTANDING_VERIFY: nat := 256

  /** What verification of a received segment yields. */
  datatype Verdict = Verified(content: Option<seq<byte>>) | Rejected

  /** What one receive yields: a segment Data, something else, end of connection, or a time-out. */
  datatype Recv = Frame(seg: nat, verdict: Verdict) | Ignored | Closed | Elapsed

  /**
   One turn: the verifications whose results are waiting, the congestion window, the receive, which
   verification completes next if the turn has to block on one, and the segments whose Interests
   the connection fails to send or to send again.
   */
  datatype Turn = Turn(ready: seq<nat>, window: nat, recv: Recv, next: nat, unsent: set<nat>, unresent: set<nat>)

  datatype Error = Unverified | SinkFailed | SendFailed | ConnectionClosed | Timeout
  datatype Outcome = Running | Complete | Failed(error: Error)

  datatype State = State(
    done: seq<bool>, received: nat, stalls: nat, totalStalls: nat, nextSend: nat,
    inflight: map<nat, nat>, verifying: set<nat>, outstanding: nat,
    tasks: map<nat, Verdict>,           // verifications spawned and not yet reported
    sunk: seq<(nat, seq<byte>)>,        // calls of the sink, in order
    rounds: seq<seq<nat>>)              // Interests sent, in order; each stall opens a new round

  function Content(v: Verdict): seq<byte> {
    if v.Verified? && v.content.Some? then v.content.value else []
  }

  /** The window, but at least one. */
  function Limit(window: nat): (n: nat)
    ensures n >= 1 && n >= window && (n == 1 || n == window)
  {
    if window < 1 then 1 else window
  }

  function Count(done: seq<bool>): nat {
    if done == [] then 0 else Count(done[..|done| - 1]) + if done[|done| - 1] then 1 else 0
  }

  lemma {:induction false} CountUpdate(done: seq<bool>, i: nat)
    requires i < |done| && !done[i]
    ensures Count(done[i := true]) == Count(done) + 1
  {
    var d := done[i := true];
    if i < |done| - 1 {
      CountUpdate(done[..|done| - 1], i);
      assert d[..|done| - 1] == done[..|done| - 1][i := true];
    } else {
      assert d[..|done| - 1] == done[..|done| - 1];
    }
  }

  lemma {:induction false} CountBound(done: seq<bool>)
    ensures Count(done) <= |done|
    ensures Count(done) == |done| <==> forall i :: 0 <= i < |done| ==> done[i]
  {
    if done != [] {
      CountBound(done[..|done| - 1]);
    }
  }

  lemma CountLess(done: seq<bool>) returns (i: nat)
    requires Count(done) < |done|
    ensures i < |done| && !done[i]
  {
    CountBound(done);
    i :| 0 <= i < |done| && !done[i];
  }

  // ---------------------------------------------------------------------------------------
  // Invariant
  // ---------------------------------------------------------------------------------------

  /** Every segment requested so far is in exactly one of done, verifying and in flight. */
  ghost predicate Partitioned(s: State) {
    && s.nextSend <= |s.done|
    && s.verifying == s.tasks.Keys
    && (forall g :: g in s.verifying ==> g < |s.done| && !s.done[g])
    && (forall g :: g in s.inflight ==> g < s.nextSend && !s.done[g] && g !in s.verifying)
    && (forall g :: 0 <= g < s.nextSend ==> s.done[g] || g in s.verifying || g in s.inflight)
  }

  /** The sink has run once for each segment fetched and never for one already held. */
  ghost predicate Delivered(s: State, held: seq<bool>) {
    && |held| == |s.done|
    && (forall g :: 0 <= g < |held| && held[g] ==> s.done[g])
    && (forall i, j :: 0 <= i < j < |s.sunk| ==> s.sunk[i].0 != s.sunk[j].0)
    && (forall i :: 0 <= i < |s.sunk| ==> s.sunk[i].0 < |held| && s.done[s.sunk[i].0] && !held[s.sunk[i].0])
    && (forall g :: 0 <= g < |held| && s.done[g] && !held[g] ==> exists i :: 0 <= i < |s.sunk| && s.sunk[i].0 == g)
  }

  /** Counters agree with the sets; stalls are bounded by the progress made. */
  ghost predicate Counted(s: State, held: seq<bool>) {
    && s.received == Count(s.done) && Count(held) <= s.received
    && s.outstanding == |s.verifying| <= MAX_OUTSTANDING_VERIFY
    && s.stalls < SEG_MAX_STALLS && (s.received >= |s.done| ==> s.stalls == 0)
    && s.totalStalls <= (SEG_MAX_STALLS - 1) * (s.received - Count(held)) + s.stalls
  }

  /** Whatever is being verified or was sunk came from a frame for that segment. */
  ghost predicate Sourced(s: State, frames: set<(nat, Verdict)>) {
    && (forall g :: g in s.tasks ==> (g, s.tasks[g]) in frames)
    && (forall i :: 0 <= i < |s.sunk| ==> FromFrame(s.sunk[i].0, s.sunk[i].1, frames))
  }

  ghost predicate FromFrame(seg: nat, bytes: seq<byte>, frames: set<(nat, Verdict)>) {
    (seg, Verified(Some(bytes))) in frames || (bytes == [] && (seg, Verified(None)) in frames)
  }

  predicate NoRepeats(round: seq<nat>) {
    forall i, j :: 0 <= i < j < |round| ==> round[i] != round[j]
  }

  /** Each segment once at most, all below `nextSend` and none already held. */
  predicate Requests(round: seq<nat>, nextSend: nat, held: seq<bool>) {
    NoRepeats(round) && forall g :: g in round ==> g < nextSend && g < |held| && !held[g]
  }

  /** Asked for in each of the last `n` rounds and in none before. */
  predicate AskedLast(rounds: seq<seq<nat>>, g: nat, n: nat) {
    0 < n <= |rounds| && forall k :: 0 <= k < |rounds| ==> (g in rounds[k] <==> k >= |rounds| - n)
  }

  /**
   The Interests sent: one round per stall and one before the first. No round asks for a segment
   twice, none asks for one already held, and a segment in flight with `n` attempts was asked for
   in each of the last `n` rounds, so again after each stall since the first time.
   */
  ghost predicate Logged(s: State, held: seq<bool>) {
    && |s.rounds| == s.totalStalls + 1
    && (forall k :: 0 <= k < |s.rounds| ==> Requests(s.rounds[k], s.nextSend, held))
    && (forall g :: g in s.inflight ==> AskedLast(s.rounds, g, s.inflight[g]))
  }

  ghost predicate Inv(s: State, held: seq<bool>, frames: set<(nat, Verdict)>) {
    Partitioned(s) && Delivered(s, held) && Counted(s, held) && Sourced(s, frames) && Logged(s, held)
  }

  /** What is done stays done, and what is being verified stays so until it is done. */
  ghost predicate Forward(s: State, s': State) {
    && |s.done| == |s'.done|
    && (forall g :: 0 <= g < |s.done| && s.done[g] ==> s'.done[g])
    && (forall g :: g in s.verifying && g < |s.done| ==> s'.done[g] || g in s'.verifying)
  }

  /** Nothing was sent from `s` to `s'`. */
  predicate NoneSent(s: State, s': State) {
    && (s'.rounds, s'.totalStalls, s'.nextSend) == (s.rounds, s.totalStalls, s.nextSend)
    && |s'.inflight| <= |s.inflight|
    && forall g :: g in s'.inflight ==> g in s.inflight && s'.inflight[g] == s.inflight[g]
  }

  /** Between `s` and `s'` the sink was only ever called again, and took what it was given. */
  ghost predicate Taken(s: State, s': State, sinkOk: (nat, seq<byte>) -> bool) {
    && s.sunk <= s'.sunk
    && forall i :: |s.sunk| <= i < |s'.sunk| ==> sinkOk(s'.sunk[i].0, s'.sunk[i].1)
  }

  lemma SinkIdle(s: State, s': State, sinkOk: (nat, seq<byte>) -> bool)
    requires s'.sunk == s.sunk
    ensures Taken(s, s', sinkOk)
  {
  }

  lemma TakenOn(s: State, s': State, s'': State, sinkOk: (nat, seq<byte>) -> bool)
    requires Taken(s, s', sinkOk) && Taken(s', s'', sinkOk)
    ensures Taken(s, s'', sinkOk)
  {
    assert forall i :: 0 <= i < |s'.sunk| ==> s''.sunk[i] == s'.sunk[i];
  }

  /** A verification or sink failure has its cause in a frame that was received. */
  ghost predicate Justified(e: Error, frames: set<(nat, Verdict)>, sinkOk: (nat, seq<byte>) -> bool) {
    && (e == Unverified ==> exists g :: (g, Rejected) in frames)
    && (e == SinkFailed ==> exists g, b :: FromFrame(g, b, frames) && !sinkOk(g, b))
  }

  // ---------------------------------------------------------------------------------------
  // Steps
  // ---------------------------------------------------------------------------------------

  /** One completed verification. */
  function Apply(s: State, seg: nat, sinkOk: (nat, seq<byte>) -> bool): (Outcome, State)
    requires seg in s.tasks && seg < |s.done| && s.outstanding > 0
  {
    var v := s.tasks[seg];
    var s1 := s.(outstanding := s.outstanding - 1, verifying := s.verifying - {seg}, tasks := s.tasks - {seg});
    if v.Rejected? then (Failed(Unverified), s1)
    else if s.done[seg] then (Running, s1)
    else if !sinkOk(seg, Content(v)) then (Failed(SinkFailed), s1)
    else
      (Running, s1.(done := s.done[seg := true], received := s.received + 1, stalls := 0,
                    sunk := s.sunk + [(seg, Content(v))]))
  }

  lemma ApplyPartition(s: State, seg: nat, sinkOk: (nat, seq<byte>) -> bool)
    requires Partitioned(s) && seg in s.tasks && s.outstanding > 0
    ensures Apply(s, seg, sinkOk).0 == Running ==> Partitioned(Apply(s, seg, sinkOk).1)
  {
    assert (s.tasks - {seg}).Keys == s.tasks.Keys - {seg};
  }

  lemma ApplyDelivers(s: State, held: seq<bool>, seg: nat, sinkOk: (nat, seq<byte>) -> bool)
    requires Partitioned(s) && Delivered(s, held) && seg in s.tasks && s.outstanding > 0
    ensures Apply(s, seg, sinkOk).0 == Running ==> Delivered(Apply(s, seg, sinkOk).1, held)
  {
    hide Count;
    var (o, s') := Apply(s, seg, sinkOk);
    if o == Running {
      forall g | 0 <= g < |held| && s'.done[g] && !held[g]
        ensures exists i :: 0 <= i < |s'.sunk| && s'.sunk[i].0 == g
      {
        if g == seg {
          assert s'.sunk[|s.sunk|].0 == g;
        } else {
          var i :| 0 <= i < |s.sunk| && s.sunk[i].0 == g;
          assert s'.sunk[i].0 == g;
        }
      }
    }
  }

  lemma ApplyCounts(s: State, held: seq<bool>, seg: nat, sinkOk: (nat, seq<byte>) -> bool)
    requires Partitioned(s) && Counted(s, held) && seg in s.tasks && s.outstanding > 0
    ensures var (o, s') := Apply(s, seg, sinkOk); o == Running ==> Counted(s', held) && s'.outstanding < s.outstanding
    ensures var (o, s') := Apply(s, seg, sinkOk); o == Running ==> s'.received == s.received + 1
  {
    hide Count;
    CountUpdate(s.done, seg);
    assert |s.verifying - {seg}| == |s.verifying| - 1;
  }

  lemma ApplyTaken(s: State, seg: nat, sinkOk: (nat, seq<byte>) -> bool)
    requires seg in s.tasks && seg < |s.done| && s.outstanding > 0
    ensures var (o, s') := Apply(s, seg, sinkOk); NoneSent(s, s') && (o == Running ==> Taken(s, s', sinkOk))
  {
  }

  lemma ApplyKeeps(s: State, held: seq<bool>, frames: set<(nat, Verdict)>, seg: nat, sinkOk: (nat, seq<byte>) -> bool)
    requires Inv(s, held, frames) && seg in s.tasks
    ensures s.outstanding > 0 && seg < |s.done|
    ensures var (o, s') := Apply(s, seg, sinkOk);
            && (o == Running ==> Inv(s', held, frames) && s'.outstanding < MAX_OUTSTANDING_VERIFY
                                 && s'.received == s.received + 1 && seg in s.verifying && Forward(s, s')
                                 && Taken(s, s', sinkOk))
            && (o.Failed? ==> Justified(o.error, frames, sinkOk))
  {
    hide Count, FromFrame, Logged, Delivered, Taken, NoneSent;
    assert s.outstanding > 0;
    ApplyTaken(s, seg, sinkOk);
    ApplyPartition(s, seg, sinkOk);
    ApplyDelivers(s, held, seg, sinkOk);
    ApplyCounts(s, held, seg, sinkOk);
    OutOfFlight(s, Apply(s, seg, sinkOk).1, held);
    if s.tasks[seg].Verified? {
      VerifiedFrame(seg, s.tasks[seg], frames);
    }
  }

  lemma OutOfFlight(s: State, s': State, held: seq<bool>)
    requires Logged(s, held) && NoneSent(s, s')
    ensures Logged(s', held)
  {
  }

  lemma VerifiedFrame(seg: nat, v: Verdict, frames: set<(nat, Verdict)>)
    requires (seg, v) in frames && v.Verified?
    ensures FromFrame(seg, Content(v), frames)
  {
  }

  /** Neither done nor being verified. */
  predicate Wanted(s: State, seg: nat) {
    seg < |s.done| && !s.done[seg] && seg !in s.verifying
  }

  /** One more Interest in the current round. */
  function Ask(rounds: seq<seq<nat>>, g: nat): seq<seq<nat>>
    requires rounds != []
  {
    rounds[|rounds| - 1 := rounds[|rounds| - 1] + [g]]
  }

  /** Requests segment `nextSend` for the first time. */
  function Send(s: State): State
    requires s.rounds != []
  {
    s.(inflight := s.inflight[s.nextSend := 1], nextSend := s.nextSend + 1, rounds := Ask(s.rounds, s.nextSend))
  }

  lemma Advance(s: State, held: seq<bool>, frames: set<(nat, Verdict)>)
    requires Inv(s, held, frames) && s.nextSend < |s.done|
    ensures !Wanted(s, s.nextSend) ==> Inv(s.(nextSend := s.nextSend + 1), held, frames)
    ensures s.rounds != [] && (Wanted(s, s.nextSend) ==> Inv(Send(s), held, frames))
    ensures Wanted(s, s.nextSend) ==> |Send(s).inflight| == |s.inflight| + 1
  {
    hide Count, Logged, Counted, Delivered, Sourced, Partitioned;
    Bookkeeping(s, s.(nextSend := s.nextSend + 1), held, frames);
    SkipLogged(s, held);
    AdvancePartition(s);
    if Wanted(s, s.nextSend) {
      SendLogged(s, held);
      Bookkeeping(s, Send(s), held, frames);
      OneMoreInFlight(s.inflight, s.nextSend);
    }
  }

  lemma AdvancePartition(s: State)
    requires Partitioned(s) && s.nextSend < |s.done| && s.rounds != []
    ensures !Wanted(s, s.nextSend) ==> Partitioned(s.(nextSend := s.nextSend + 1))
    ensures Wanted(s, s.nextSend) ==> Partitioned(Send(s)) && s.nextSend !in s.inflight
  {
    hide Ask;
  }

  lemma OneMoreInFlight(inflight: map<nat, nat>, g: nat)
    requires g !in inflight
    ensures |inflight[g := 1]| == |inflight| + 1
  {
    assert inflight[g := 1].Keys == inflight.Keys + {g};
    assert |inflight[g := 1].Keys| == |inflight[g := 1]|;
    assert |inflight.Keys| == |inflight|;
  }

  lemma Bookkeeping(s: State, s': State, held: seq<bool>, frames: set<(nat, Verdict)>)
    requires Inv(s, held, frames)
    requires s' == s.(nextSend := s'.nextSend, inflight := s'.inflight, rounds := s'.rounds)
    ensures Counted(s', held) && Delivered(s', held) && Sourced(s', frames) && s.rounds != []
  {
  }

  lemma SkipLogged(s: State, held: seq<bool>)
    requires Logged(s, held)
    ensures Logged(s.(nextSend := s.nextSend + 1), held)
  {
    forall k | 0 <= k < |s.rounds|
      ensures Requests(s.rounds[k], s.nextSend + 1, held)
    {
    }
  }

  lemma SendLogged(s: State, held: seq<bool>)
    requires Partitioned(s) && Logged(s, held) && Delivered(s, held) && s.nextSend < |s.done| && Wanted(s, s.nextSend)
    ensures Logged(Send(s), held)
  {
    hide Count;
    var g, n, s' := s.nextSend, |s.rounds|, Send(s);
    forall k | 0 <= k < n
      ensures Requests(s'.rounds[k], s'.nextSend, held)
    {
      assert Requests(s.rounds[k], s.nextSend, held);
      assert k < n - 1 ==> s'.rounds[k] == s.rounds[k];
    }
    forall x | x in s'.inflight
      ensures AskedLast(s'.rounds, x, s'.inflight[x])
    {
      if x == g {
        assert forall k :: 0 <= k < n ==> Requests(s.rounds[k], s.nextSend, held);
      } else {
        assert AskedLast(s.rounds, x, s.inflight[x]);
      }
    }
  }

  /** The segments from `a` up to `b` that are neither done nor being verified, in order. */
  function Missing(s: State, a: nat, b: nat): seq<nat> {
    if b <= a then [] else Missing(s, a, b - 1) + if Wanted(s, b - 1) then [b - 1] else []
  }

  /** The state when exactly the missing segments below `upTo` have been requested, once each, in order. */
  function Requested(s: State, upTo: nat): State
    requires s.rounds != []
  {
    var asked := Missing(s, s.nextSend, upTo);
    s.(nextSend := upTo, inflight := s.inflight + Once(asked), rounds := AskAll(s.rounds, asked))
  }

  function Once(asked: seq<nat>): map<nat, nat> {
    map g | g in asked :: 1
  }

  function AskAll(rounds: seq<seq<nat>>, asked: seq<nat>): (r: seq<seq<nat>>)
    requires rounds != []
    ensures r != []
  {
    rounds[|rounds| - 1 := rounds[|rounds| - 1] + asked]
  }

  lemma OneMore(inflight: map<nat, nat>, rounds: seq<seq<nat>>, asked: seq<nat>, n: nat)
    requires rounds != []
    ensures inflight + Once(asked + [n]) == (inflight + Once(asked))[n := 1]
    ensures AskAll(rounds, asked + [n]) == Ask(AskAll(rounds, asked), n)
  {
    var last := rounds[|rounds| - 1];
    assert last + asked + [n] == last + (asked + [n]);
  }

  lemma RequestedMore(s0: State, n: nat)
    requires s0.rounds != [] && s0.nextSend <= n
    ensures Requested(s0, n + 1) == var s := Requested(s0, n); if Wanted(s0, n) then Send(s) else s.(nextSend := n + 1)
    ensures forall g :: g in Missing(s0, s0.nextSend, n + 1) <==>
                        g in Missing(s0, s0.nextSend, n) || (g == n && Wanted(s0, n))
    ensures |Missing(s0, s0.nextSend, n + 1)| == |Missing(s0, s0.nextSend, n)| + if Wanted(s0, n) then 1 else 0
  {
    hide Ask, AskAll, Once, Wanted;
    var asked := Missing(s0, s0.nextSend, n);
    OneMore(s0.inflight, s0.rounds, asked, n);
    assert asked + [] == asked;
  }

  lemma RequestedNone(s: State)
    requires s.rounds != []
    ensures Requested(s, s.nextSend) == s && Missing(s, s.nextSend, s.nextSend) == []
  {
    var last := s.rounds[|s.rounds| - 1];
    assert last + [] == last;
    assert s.inflight + Once([]) == s.inflight;
  }

  /** The segments the window has room for, of those still to be requested. */
  function ToAsk(s: State, window: nat): seq<nat> {
    var all := Missing(s, s.nextSend, |s.done|);
    var room := if |s.inflight| < Limit(window) then Limit(window) - |s.inflight| else 0;
    if room < |all| then all[..room] else all
  }

  lemma {:induction false} MissingPrefix(s: State, a: nat, k: nat, b: nat)
    requires a <= k <= b
    ensures Missing(s, a, k) <= Missing(s, a, b)
    ensures k < b && Wanted(s, k) ==> Missing(s, a, k) + [k] <= Missing(s, a, b)
    decreases b
  {
    if k < b {
      MissingPrefix(s, a, k, b - 1);
    }
  }

  lemma AskedAll(s: State, window: nat, k: nat)
    requires s.nextSend <= k <= |s.done|
    requires Missing(s, s.nextSend, k) == [] || |s.inflight| + |Missing(s, s.nextSend, k)| <= Limit(window)
    ensures var asked := Missing(s, s.nextSend, k); var n := |s.inflight| + |asked|;
            && (k == |s.done| || n >= Limit(window) ==> asked == ToAsk(s, window))
            && (k < |s.done| && Wanted(s, k) && n < Limit(window) ==> k in ToAsk(s, window))
  {
    hide Missing, Limit, Wanted;
    MissingPrefix(s, s.nextSend, k, |s.done|);
    var all, asked := Missing(s, s.nextSend, |s.done|), Missing(s, s.nextSend, k);
    if k < |s.done| && Wanted(s, k) && |s.inflight| + |asked| < Limit(window) {
      assert ToAsk(s, window)[|asked|] == (asked + [k])[|asked|];
    }
  }

  /** Fills the window with the next segments that are neither done nor being verified. */
  method Refill(s0: State, window: nat, unsent: set<nat>, ghost held: seq<bool>, ghost frames: set<(nat, Verdict)>)
    returns (o: Outcome, s: State)
    requires Inv(s0, held, frames)
    ensures Inv(s, held, frames) && s.nextSend >= s0.nextSend && s0.rounds != [] && s == Requested(s0, s.nextSend)
    ensures o == Running <==> forall g :: g in ToAsk(s0, window) ==> g !in unsent
    ensures o == Running ==> Missing(s0, s0.nextSend, s.nextSend) == ToAsk(s0, window)
    ensures |s.inflight| <= |s0.inflight| || |s.inflight| <= Limit(window)
    ensures o == Running ==> s.nextSend == |s.done| || |s.inflight| >= Limit(window)
    ensures o != Running ==> o == Failed(SendFailed) && |s.inflight| < Limit(window) && Unsent(s, unsent)
  {
    hide Partitioned, Counted, Delivered, Sourced, Logged, Limit, Requested, Missing, ToAsk;
    o, s := Running, s0;
    Bounds(s0, held);
    RequestedNone(s0);
    while s.nextSend < |s.done| && |s.inflight| < Limit(window)
      invariant s.nextSend <= |s.done| && s.done == s0.done && s.verifying == s0.verifying
      invariant Inv(s, held, frames) && s.nextSend >= s0.nextSend && s == Requested(s0, s.nextSend)
      invariant forall g :: g in Missing(s0, s0.nextSend, s.nextSend) ==> g !in unsent
      invariant |s.inflight| == |s0.inflight| + |Missing(s0, s0.nextSend, s.nextSend)|
      invariant |s.inflight| == |s0.inflight| || |s.inflight| <= Limit(window)
      decreases |s.done| - s.nextSend
    {
      Advance(s, held, frames);
      RequestedMore(s0, s.nextSend);
      if s.done[s.nextSend] || s.nextSend in s.verifying {
        s := s.(nextSend := s.nextSend + 1);
      } else {
        if s.nextSend in unsent {
          o := Failed(SendFailed);
          break;
        }
        s := Send(s);
      }
    }
    AskedAll(s0, window, s.nextSend);
  }

  /** The next segment to request is missing and cannot be sent. */
  predicate Unsent(s: State, unsent: set<nat>) {
    Wanted(s, s.nextSend) && s.nextSend in unsent
  }

  lemma Bounds(s: State, held: seq<bool>)
    requires Partitioned(s) && Logged(s, held)
    ensures s.nextSend <= |s.done| && s.rounds != []
  {
  }

  /** When nothing is being verified after a refill and a segment is missing, something is in flight. */
  lemma InflightNotEmpty(s: State, held: seq<bool>, frames: set<(nat, Verdict)>, window: nat)
    requires Inv(s, held, frames) && s.received < |s.done| && s.outstanding == 0
    requires s.nextSend == |s.done| || |s.inflight| >= Limit(window)
    ensures s.inflight != map[]
  {
    hide Count, Delivered, Sourced;
    var g := CountLess(s.done);
    assert s.verifying == {};
    if s.nextSend == |s.done| {
      assert g in s.inflight;
    }
  }

  // ---------------------------------------------------------------------------------------
  // The loop
  // ---------------------------------------------------------------------------------------

  /** A failure of a turn other than giving up or losing the connection. */
  ghost predicate Blamed(o: Outcome, frames: set<(nat, Verdict)>, sinkOk: (nat, seq<byte>) -> bool) {
    o.Failed? && (o.error == Unverified || o.error == SinkFailed) && Justified(o.error, frames, sinkOk)
  }

  /** Applies the results that are waiting. */
  method Drain(s0: State, ready: seq<nat>, sinkOk: (nat, seq<byte>) -> bool,
               ghost held: seq<bool>, ghost frames: set<(nat, Verdict)>) returns (o: Outcome, s: State)
    requires Inv(s0, held, frames)
    ensures o != Complete && (o == Running ==> Inv(s, held, frames))
    ensures s.totalStalls == s0.totalStalls && s.received >= s0.received && |s.done| == |s0.done|
    ensures (s.nextSend, s.inflight, s.rounds) == (s0.nextSend, s0.inflight, s0.rounds)
    ensures o == Running ==> forall g :: g in s.tasks <==> g in s0.tasks && g !in ready
    ensures if o == Running then Forward(s0, s) && Taken(s0, s, sinkOk) else Blamed(o, frames, sinkOk)
  {
    hide Inv, Justified, FromFrame;
    o, s := Running, s0;
    for i := 0 to |ready|
      invariant o == Running && Inv(s, held, frames) && Forward(s0, s) && Taken(s0, s, sinkOk)
      invariant (s.nextSend, s.inflight, s.rounds) == (s0.nextSend, s0.inflight, s0.rounds)
      invariant forall g :: g in s.tasks <==> g in s0.tasks && g !in ready[..i]
      invariant s.totalStalls == s0.totalStalls && s.received >= s0.received && |s.done| == |s0.done|
    {
      if ready[i] in s.tasks {
        ApplyKeeps(s, held, frames, ready[i], sinkOk);
        o, s := Apply(s, ready[i], sinkOk).0, Apply(s, ready[i], sinkOk).1;
        if o != Running {
          return;
        }
      }
    }
  }

  /** Blocks until one verification reports. */
  method Await(s0: State, next: nat, sinkOk: (nat, seq<byte>) -> bool,
               ghost held: seq<bool>, ghost frames: set<(nat, Verdict)>) returns (o: Outcome, s: State, seg: nat)
    requires Inv(s0, held, frames) && s0.outstanding > 0
    ensures o != Complete && (o == Running ==> Inv(s, held, frames) && s.received == s0.received + 1)
    ensures seg in s0.tasks && seg < |s0.done| && (o, s) == Apply(s0, seg, sinkOk)
    ensures o == Running ==> s.outstanding < MAX_OUTSTANDING_VERIFY
    ensures NoneSent(s0, s) && |s.done| == |s0.done| && (next in s0.tasks ==> seg == next)
    ensures if o == Running then Forward(s0, s) && Taken(s0, s, sinkOk) else Blamed(o, frames, sinkOk)
  {
    hide Inv, Forward, Justified, Content, Taken;
    SomeTask(s0, held, frames);
    if next in s0.tasks {
      seg := next;
    } else {
      seg :| seg in s0.tasks.Keys;
    }
    ApplyKeeps(s0, held, frames, seg, sinkOk);
    o, s := Apply(s0, seg, sinkOk).0, Apply(s0, seg, sinkOk).1;
  }

  lemma SomeTask(s: State, held: seq<bool>, frames: set<(nat, Verdict)>)
    requires Inv(s, held, frames) && s.outstanding > 0
    ensures s.tasks.Keys != {}
  {
  }

  /** Takes a received segment out of flight and hands it to verification. */
  function Spawn(s: State, seg: nat, v: Verdict): State {
    s.(inflight := s.inflight - {seg}, verifying := s.verifying + {seg}, tasks := s.tasks[seg := v],
       outstanding := s.outstanding + 1)
  }

  lemma OffTheWire(s: State, held: seq<bool>, frames: set<(nat, Verdict)>, seg: nat, v: Verdict)
    requires Inv(s, held, frames) && Wanted(s, seg) && s.outstanding < MAX_OUTSTANDING_VERIFY && (seg, v) in frames
    ensures var s' := Spawn(s, seg, v); Inv(s', held, frames) && Forward(s, s') && NoneSent(s, s')
  {
    hide Count, Partitioned, Delivered, Sourced, Logged, Forward, NoneSent;
    SpawnPartition(s, seg, v);
    SpawnSilent(s, seg, v);
    OutOfFlight(s, Spawn(s, seg, v), held);
    SpawnDelivered(s, held, seg, v);
    SpawnSourced(s, frames, seg, v);
    assert |s.verifying + {seg}| == |s.verifying| + 1;
  }

  lemma SpawnPartition(s: State, seg: nat, v: Verdict)
    requires Partitioned(s) && Wanted(s, seg)
    ensures Partitioned(Spawn(s, seg, v))
  {
    assert s.tasks[seg := v].Keys == s.tasks.Keys + {seg};
  }

  lemma SpawnSilent(s: State, seg: nat, v: Verdict)
    ensures Forward(s, Spawn(s, seg, v)) && NoneSent(s, Spawn(s, seg, v))
  {
    FewerInFlight(s.inflight, seg);
  }

  lemma SpawnSourced(s: State, frames: set<(nat, Verdict)>, seg: nat, v: Verdict)
    requires Sourced(s, frames) && (seg, v) in frames
    ensures Sourced(Spawn(s, seg, v), frames)
  {
    hide FromFrame;
  }

  lemma SpawnDelivered(s: State, held: seq<bool>, seg: nat, v: Verdict)
    requires Delivered(s, held)
    ensures Delivered(Spawn(s, seg, v), held)
  {
  }

  lemma StandStill(s: State)
    ensures Forward(s, s) && NoneSent(s, s)
  {
  }

  lemma OtherApplied(s: State, seg: nat, x: nat, sinkOk: (nat, seq<byte>) -> bool,
                     held: seq<bool>, frames: set<(nat, Verdict)>)
    requires Inv(s, held, frames) && s.outstanding > 0 && x in s.tasks && Wanted(s, seg)
    requires Apply(s, x, sinkOk).0 == Running
    ensures Wanted(Apply(s, x, sinkOk).1, seg)
  {
  }

  lemma Onward(s: State, s': State, s'': State)
    requires Forward(s, s') && Forward(s', s'') && NoneSent(s, s') && NoneSent(s', s'')
    ensures Forward(s, s'') && NoneSent(s, s'')
  {
  }

  lemma FewerInFlight(inflight: map<nat, nat>, seg: nat)
    ensures |inflight - {seg}| <= |inflight|
  {
    assert (inflight - {seg}).Keys == inflight.Keys - {seg};
    assert |(inflight - {seg}).Keys| == |inflight - {seg}|;
    assert |inflight.Keys - {seg}| <= |inflight.Keys|;
  }

  /** A segment Data arrived: duplicates are dropped, and a full backlog waits for one completion. */
  method Arrive(s0: State, seg: nat, v: Verdict, next: nat, sinkOk: (nat, seq<byte>) -> bool,
                ghost held: seq<bool>, ghost frames: set<(nat, Verdict)>) returns (o: Outcome, s: State)
    requires Inv(s0, held, frames) && (seg, v) in frames
    ensures o != Complete && (o == Running ==> Inv(s, held, frames))
    ensures |s.done| == |s0.done| && NoneSent(s0, s)
    ensures if o == Running then Forward(s0, s) && Taken(s0, s, sinkOk) else Blamed(o, frames, sinkOk)
    ensures o == Running && seg < |s.done| ==> s.done[seg] || seg in s.verifying
    ensures !Wanted(s0, seg) ==> o == Running && s == s0
  {
    hide Partitioned, Delivered, Sourced, Logged, Counted, Justified, Blamed, Content, Forward, NoneSent, Inv;
    o, s := Running, s0;
    StandStill(s0);
    if Wanted(s, seg) {
      // The source takes the segment out of flight before it waits; nothing in between reads `inflight`.
      if s.outstanding >= MAX_OUTSTANDING_VERIFY {
        var x;
        o, s, x := Await(s, next, sinkOk, held, frames);
        if o != Running {
          return;
        }
        OtherApplied(s0, seg, x, sinkOk, held, frames);
      }
      OffTheWire(s, held, frames, seg, v);
      Onward(s0, s, Spawn(s, seg, v));
      s := Spawn(s, seg, v);
    }
  }

  /** Counts the attempt and sends the Interest for `g` again. */
  function Resend(s: State, g: nat): State
    requires g in s.inflight && s.rounds != []
  {
    s.(inflight := s.inflight[g := s.inflight[g] + 1], rounds := Ask(s.rounds, g))
  }

  /** Since `s0`, the Interests sent are one for each segment of `again`, all of which were in flight. */
  ghost predicate Resent(s0: State, s: State, again: set<nat>) {
    && s == s0.(inflight := s.inflight, rounds := s.rounds)
    && again <= s0.inflight.Keys == s.inflight.Keys
    && (forall g :: g in s0.inflight ==> s.inflight[g] == s0.inflight[g] + if g in again then 1 else 0)
    && |s.rounds| == |s0.rounds| > 0
    && s.rounds[..|s0.rounds| - 1] == s0.rounds[..|s0.rounds| - 1]
    && NoRepeats(s.rounds[|s0.rounds| - 1])
    && (forall g :: g in s.rounds[|s0.rounds| - 1] <==> g in again)
  }

  /** The segments of `again` were sent once more, then `g` was tried, which cannot be sent. */
  ghost predicate PartlyResent(s0: State, s: State, again: set<nat>, g: nat, unresent: set<nat>) {
    && g in s0.inflight && g in unresent && again !! unresent
    && g in s.inflight && s.inflight[g] == s0.inflight[g] + 1
    && Resent(s0, s.(inflight := s.inflight[g := s0.inflight[g]]), again)
  }

  lemma ResentNone(s: State)
    requires s.rounds != [] && s.rounds[|s.rounds| - 1] == []
    ensures Resent(s, s, s.inflight.Keys - s.inflight.Keys)
  {
  }

  lemma ResentMore(s0: State, s: State, again: set<nat>, g: nat)
    requires Resent(s0, s, again) && g in s0.inflight && g !in again
    ensures Resent(s0, Resend(s, g), again + {g}) && s.rounds != []
  {
    var n, s' := |s.rounds| - 1, Resend(s, g);
    assert s'.rounds[n] == s.rounds[n] + [g];
    assert g !in s.rounds[n];
    assert s'.rounds[..n] == s.rounds[..n];
  }

  lemma ResentPart(s0: State, s: State, again: set<nat>, g: nat, unresent: set<nat>)
    requires Resent(s0, s, again) && g in s0.inflight && g !in again && g in unresent && again !! unresent
    ensures PartlyResent(s0, s.(inflight := s.inflight[g := s.inflight[g] + 1]), again, g, unresent)
  {
    var s' := s.(inflight := s.inflight[g := s.inflight[g] + 1]);
    assert s'.(inflight := s'.inflight[g := s0.inflight[g]]) == s by {
      assert s'.inflight[g := s0.inflight[g]] == s.inflight;
    }
  }

  /** Re-sends everything in flight, in any order, up to the first Interest that cannot be sent. */
  method Retransmit(s0: State, unresent: set<nat>) returns (o: Outcome, s: State)
    requires s0.rounds != [] && s0.rounds[|s0.rounds| - 1] == []
    ensures s == s0.(inflight := s.inflight, rounds := s.rounds)
    ensures if s0.inflight.Keys !! unresent then o == Running else o == Failed(SendFailed)
    ensures o == Running ==> Resent(s0, s, s0.inflight.Keys)
    ensures o != Running ==> exists again: set<nat>, g :: PartlyResent(s0, s, again, g, unresent)
  {
    hide Resent, PartlyResent;
    var todo := s0.inflight.Keys;
    s := s0;
    ResentNone(s0);
    while todo != {}
      invariant todo <= s0.inflight.Keys == s.inflight.Keys && s.rounds != []
      invariant s == s0.(inflight := s.inflight, rounds := s.rounds)
      invariant Resent(s0, s, s0.inflight.Keys - todo)
      invariant s0.inflight.Keys - todo !! unresent
      decreases |todo|
    {
      var g :| g in todo;
      ghost var again := s0.inflight.Keys - todo;
      todo := todo - {g};
      if g in unresent {
        ghost var was := s;
        // The attempt is counted before the send is tried.
        s := s.(inflight := s.inflight[g := s.inflight[g] + 1]);
        ResentPart(s0, was, again, g, unresent);
        return Failed(SendFailed), s;
      }
      ResentMore(s0, s, again, g);
      s := Resend(s, g);
      assert s0.inflight.Keys - todo == again + {g};
    }
    assert s0.inflight.Keys - todo == s0.inflight.Keys;
    o := Running;
  }

  /** A stall: both counters go up by one and a new round opens. */
  function Stall(s: State): State {
    s.(stalls := s.stalls + 1, totalStalls := s.totalStalls + 1, rounds := s.rounds + [[]])
  }

  /**
   What a stall comes to. It is counted once. At the limit the fetch gives up. Below it every segment in flight is sent
   exactly once more and no other, unless one of them cannot be sent, and then the fetch fails.
   */
  ghost predicate Stalled(s0: State, unresent: set<nat>, o: Outcome, s: State) {
    && s.stalls == s0.stalls + 1 && s.totalStalls == s0.totalStalls + 1
    && if s.stalls >= SEG_MAX_STALLS then o == Failed(Timeout) && s == Stall(s0)
       else if s0.inflight.Keys !! unresent then o == Running && Resent(Stall(s0), s, s0.inflight.Keys)
       else o == Failed(SendFailed) && exists again: set<nat>, g :: PartlyResent(Stall(s0), s, again, g, unresent)
  }

  /** Nothing arrived in the interval. */
  method Elapse(s0: State, t: Turn, sinkOk: (nat, seq<byte>) -> bool,
                ghost held: seq<bool>, ghost frames: set<(nat, Verdict)>) returns (o: Outcome, s: State)
    requires Inv(s0, held, frames) && s0.received < |s0.done|
    requires s0.nextSend == |s0.done| || |s0.inflight| >= Limit(t.window)
    ensures o != Complete && (o == Running ==> Inv(s, held, frames) && Forward(s0, s) && Taken(s0, s, sinkOk))
    ensures s0.outstanding == 0 ==> s0.inflight != map[] && Stalled(s0, t.unresent, o, s)
    ensures s0.outstanding > 0 ==> exists seg :: seg in s0.tasks && seg < |s0.done| && (o, s) == Apply(s0, seg, sinkOk)
    ensures s0.outstanding > 0 ==> o == Running || Blamed(o, frames, sinkOk)
  {
    hide Partitioned, Delivered, Sourced, Logged, Count, Justified, Resent, PartlyResent;
    if s0.outstanding > 0 {
      var x;
      o, s, x := Await(s0, t.next, sinkOk, held, frames);
      return;
    }
    InflightNotEmpty(s0, held, frames, t.window);
    if s0.inflight == map[] {
      assert false;
      return Failed(Timeout), s0;
    }
    s := Stall(s0);
    if s.stalls >= SEG_MAX_STALLS {
      return Failed(Timeout), s;
    }
    o, s := Retransmit(s, t.unresent);
    if o == Running {
      Restalled(s0, s, held, frames);
    }
  }

  lemma Restalled(s0: State, s: State, held: seq<bool>, frames: set<(nat, Verdict)>)
    requires Inv(s0, held, frames) && s0.received < |s0.done| && s0.stalls + 1 < SEG_MAX_STALLS
    requires Resent(Stall(s0), s, s0.inflight.Keys)
    ensures Inv(s, held, frames) && Forward(s0, s)
  {
    hide Count, Logged, Sourced;
    RestalledLog(s0, s, held);
    assert Sourced(s, frames) by {
      RestalledSource(s0, s, frames);
    }
  }

  lemma RestalledSource(s0: State, s: State, frames: set<(nat, Verdict)>)
    requires Sourced(s0, frames) && (s.tasks, s.sunk) == (s0.tasks, s0.sunk)
    ensures Sourced(s, frames)
  {
  }

  lemma RestalledLog(s0: State, s: State, held: seq<bool>)
    requires Partitioned(s0) && Logged(s0, held) && |held| == |s0.done| && Resent(Stall(s0), s, s0.inflight.Keys)
    ensures Logged(s, held)
  {
    hide Count;
    var n := |s0.rounds|;
    assert s.rounds[..n] == s0.rounds;
    forall k | 0 <= k <= n
      ensures Requests(s.rounds[k], s.nextSend, held)
    {
      if k < n {
        assert s.rounds[k] == s.rounds[..n][k];
        assert Requests(s0.rounds[k], s0.nextSend, held);
      } else {
        forall g | g in s.rounds[n]
          ensures g < s.nextSend && g < |held| && !held[g]
        {
          assert AskedLast(s0.rounds, g, s0.inflight[g]) && Requests(s0.rounds[n - 1], s0.nextSend, held);
        }
      }
    }
    forall g | g in s.inflight
      ensures AskedLast(s.rounds, g, s.inflight[g])
    {
      assert AskedLast(s0.rounds, g, s0.inflight[g]);
    }
  }

  /** Frames that occur in a script. */
  function Frames(script: seq<Turn>): set<(nat, Verdict)> {
    set i | 0 <= i < |script| && script[i].recv.Frame? :: (script[i].recv.seg, script[i].recv.verdict)
  }

  function Initial(held: seq<bool>): State {
    State(held, Count(held), 0, 0, 0, map[], {}, 0, map[], [], [[]])
  }

  lemma InitialInv(held: seq<bool>, frames: set<(nat, Verdict)>)
    ensures Inv(Initial(held), held, frames)
  {
  }

  /** A segment whose frame arrived in this turn is done or being verified: it is never lost or asked for again. */
  predicate Kept(t: Turn, s: State) {
    t.recv.Frame? && t.recv.seg < |s.done| ==>
      s.done[t.recv.seg] || t.recv.seg in s.verifying
  }

  /** Every segment is done or being verified. */
  predicate AllIn(s: State) {
    forall g :: 0 <= g < |s.done| ==> s.done[g] || g in s.verifying
  }

  /** Every verification under way reports before the turn receives. */
  predicate NothingVerified(s: State, t: Turn) {
    forall g :: g in s.tasks ==> g in t.ready
  }

  lemma Reported(s0: State, s: State, t: Turn, held: seq<bool>, frames: set<(nat, Verdict)>)
    requires Forward(s0, s) && Inv(s, held, frames)
    requires forall g :: g in s.tasks <==> g in s0.tasks && g !in t.ready
    ensures s.outstanding == 0 <==> NothingVerified(s0, t)
    ensures AllIn(s0) && NothingVerified(s0, t) ==> s.received == |s.done|
  {
    hide Count, Delivered, Sourced, Logged;
    CountBound(s.done);
    assert s.outstanding == 0 <==> s.tasks.Keys == {};
  }

  /** What was asked for in some round was asked for in every later one except, maybe, the last. */
  predicate KeptAsking(rounds: seq<seq<nat>>, inflight: set<nat>) {
    forall g, i, j :: g in inflight && 0 <= i < j < |rounds| - 1 && g in rounds[i] ==> g in rounds[j]
  }

  lemma LoggedKept(s: State, held: seq<bool>, frames: set<(nat, Verdict)>)
    requires Inv(s, held, frames)
    ensures KeptAsking(s.rounds, s.inflight.Keys) && |s.rounds| == s.totalStalls + 1
  {
    forall g, i, j | g in s.inflight && 0 <= i < j < |s.rounds| - 1 && g in s.rounds[i]
      ensures g in s.rounds[j]
    {
      assert AskedLast(s.rounds, g, s.inflight[g]);
    }
  }

  lemma KeptFewer(rounds: seq<seq<nat>>, more: set<nat>, fewer: set<nat>)
    requires KeptAsking(rounds, more) && fewer <= more
    ensures KeptAsking(rounds, fewer)
  {
  }

  /** How a turn ends a fetch other than by a bad segment: closed, a request refused, or out of stalls. */
  predicate Ended(t: Turn, e: Error, s: State) {
    || (e == ConnectionClosed && t.recv.Closed?)
    || (e == SendFailed && (Unsent(s, t.unsent) || (t.recv.Elapsed? && !(s.inflight.Keys !! t.unresent))))
    || (e == Timeout && t.recv.Elapsed? && s.stalls == SEG_MAX_STALLS)
  }

  lemma StalledKept(s0: State, held: seq<bool>, frames: set<(nat, Verdict)>, t: Turn, o: Outcome, s: State)
    requires Inv(s0, held, frames) && s0.received < |s0.done| && Stalled(s0, t.unresent, o, s) && t.recv.Elapsed?
    ensures Exhausted(s, held) && |s.rounds| == s.totalStalls + 1
    ensures o.Failed? ==> Ended(t, o.error, s)
    ensures KeptAsking(s.rounds, s.inflight.Keys) && s.inflight.Keys == s0.inflight.Keys && |s.done| == |s0.done|
    ensures s.totalStalls == s0.totalStalls + 1
  {
    hide Count, Stalled, Partitioned, Delivered, Sourced;
    StalledFrame(s0, t, o, s);
    var n := |s0.rounds|;
    assert forall k :: 0 <= k < n ==> s.rounds[k] == s.rounds[..n][k];
    forall g, i, j | g in s.inflight && 0 <= i < j < |s.rounds| - 1 && g in s.rounds[i]
      ensures g in s.rounds[j]
    {
      assert AskedLast(s0.rounds, g, s0.inflight[g]);
    }
  }

  lemma StalledFrame(s0: State, t: Turn, o: Outcome, s: State)
    requires Stalled(s0, t.unresent, o, s) && t.recv.Elapsed? && s0.stalls < SEG_MAX_STALLS
    ensures o.Failed? ==> Ended(t, o.error, s)
    ensures s == s0.(stalls := s0.stalls + 1, totalStalls := s0.totalStalls + 1, inflight := s.inflight,
                     rounds := s.rounds)
    ensures s.inflight.Keys == s0.inflight.Keys
    ensures |s.rounds| == |s0.rounds| + 1 && s.rounds[..|s0.rounds|] == s0.rounds
  {
    assert Stall(s0).rounds[..|s0.rounds|] == s0.rounds;
  }

  /** Between `s0` and `f` the current round may have grown; nothing went out of flight. */
  predicate SameRound(s0: State, f: State) {
    && f.totalStalls == s0.totalStalls
    && |f.rounds| == |s0.rounds| > 0
    && f.rounds[..|s0.rounds| - 1] == s0.rounds[..|s0.rounds| - 1]
    && s0.rounds[|s0.rounds| - 1] <= f.rounds[|s0.rounds| - 1]
    && forall g :: g in s0.inflight ==> g in f.inflight && f.inflight[g] == s0.inflight[g]
  }

  lemma RefillSameRound(s0: State, s: State, n: nat, held: seq<bool>, frames: set<(nat, Verdict)>)
    requires Inv(s, held, frames)
    requires (s.nextSend, s.inflight, s.rounds, s.totalStalls) == (s0.nextSend, s0.inflight, s0.rounds, s0.totalStalls)
    ensures s.rounds != []
    ensures var f := Requested(s, n);
            SameRound(s0, f) && f == s.(nextSend := n, inflight := f.inflight, rounds := f.rounds)
  {
    MissingFrom(s, s.nextSend, n);
  }

  lemma {:induction false} MissingFrom(s: State, a: nat, b: nat)
    ensures forall g :: g in Missing(s, a, b) <==> a <= g < b && Wanted(s, g)
  {
    if a < b {
      MissingFrom(s, a, b - 1);
    }
  }

  /** A turn stalls when its receive times out with nothing being verified. */
  predicate Stalls(t: Turn, f: State) {
    t.recv.Elapsed? && f.outstanding == 0
  }

  /** The receive of a turn, once the window is filled. */
  method Receive(f: State, t: Turn, sinkOk: (nat, seq<byte>) -> bool,
                 ghost held: seq<bool>, ghost frames: set<(nat, Verdict)>) returns (o: Outcome, s: State)
    requires Inv(f, held, frames) && f.received < |f.done|
    requires f.nextSend == |f.done| || |f.inflight| >= Limit(t.window)
    requires t.recv.Frame? ==> (t.recv.seg, t.recv.verdict) in frames
    ensures o != Complete && (o == Running ==> Inv(s, held, frames) && Forward(f, s) && Taken(f, s, sinkOk))
    ensures o == Running ==> Kept(t, s) && !t.recv.Closed?
    ensures |s.done| == |f.done| && |s.inflight| <= |f.inflight|
    ensures |s.rounds| == s.totalStalls + 1 && KeptAsking(s.rounds, s.inflight.Keys)
    ensures if Stalls(t, f) then Stalled(f, t.unresent, o, s) && Exhausted(s, held) else NoneSent(f, s)
    ensures s.totalStalls == f.totalStalls + if Stalls(t, f) then 1 else 0
    ensures o.Failed? ==> Blamed(o, frames, sinkOk) || Ended(t, o.error, s)
    ensures o == Failed(SendFailed) ==> Stalls(t, f)
  {
    hide Inv, Count, Justified, Stalled, KeptAsking, Forward;
    o, s := Running, f;
    StandStill(f);
    LoggedKept(f, held, frames);
    match t.recv {
      case Frame(seg, v) =>
        o, s := Arrive(s, seg, v, t.next, sinkOk, held, frames);
        KeptFewer(f.rounds, f.inflight.Keys, s.inflight.Keys);
      case Ignored =>
      case Closed => o := Failed(ConnectionClosed);
      case Elapsed =>
        o, s := Elapse(s, t, sinkOk, held, frames);
        if f.outstanding == 0 {
          StalledKept(f, held, frames, t, o, s);
        }
    }
  }

  /** One turn of the loop. */
  method TakeTurn(s0: State, t: Turn, sinkOk: (nat, seq<byte>) -> bool,
                  ghost held: seq<bool>, ghost frames: set<(nat, Verdict)>) returns (o: Outcome, s: State)
    requires Inv(s0, held, frames) && s0.received < |s0.done|
    requires t.recv.Frame? ==> (t.recv.seg, t.recv.verdict) in frames
    ensures !o.Failed? ==> Inv(s, held, frames) && Forward(s0, s) && Taken(s0, s, sinkOk) && Kept(t, s)
    ensures o == Running ==> !t.recv.Closed?
    ensures o == Complete ==> s.received == |s.done|
    ensures !o.Failed? && AllIn(s0) && NothingVerified(s0, t) ==> o == Complete
    ensures |s.done| == |s0.done| && |s.rounds| == s.totalStalls + 1 && KeptAsking(s.rounds, s.inflight.Keys)
    ensures |s.inflight| <= |s0.inflight| || |s.inflight| <= Limit(t.window)
    ensures o == Running ==> (s.totalStalls > s0.totalStalls <==> t.recv.Elapsed? && NothingVerified(s0, t))
    ensures s.totalStalls == s0.totalStalls || (s.totalStalls == s0.totalStalls + 1 && Exhausted(s, held))
    ensures s.totalStalls > s0.totalStalls ==>
              exists f :: SameRound(s0, f) && Stalls(t, f) && Stalled(f, t.unresent, o, s)
    ensures o.Failed? ==> Blamed(o, frames, sinkOk) || Ended(t, o.error, s)
    ensures o == Failed(SendFailed) && s.totalStalls == s0.totalStalls ==> Unsent(s, t.unsent)
  {
    hide Inv, Count, Justified, Stalled, KeptAsking, Requested, Exhausted, SameRound, Forward, NothingVerified, Limit;
    LoggedKept(s0, held, frames);
    o, s := Drain(s0, t.ready, sinkOk, held, frames);
    if o != Running {
      return;
    }
    ReceivedBound(s, held, frames);
    Reported(s0, s, t, held, frames);
    if s.received >= |s.done| {
      return Complete, s;
    }
    ghost var d := s;
    o, s := Refill(s, t.window, t.unsent, held, frames);
    ghost var f := s;
    LoggedKept(f, held, frames);
    RefillSameRound(s0, d, f.nextSend, held, frames);
    if o != Running {
      return;
    }
    o, s := Receive(s, t, sinkOk, held, frames);
    if o == Running {
      Through(s0, d, f, s);
      TakenOn(s0, d, s, sinkOk);
    }
  }

  lemma Through(s0: State, d: State, f: State, s: State)
    requires Forward(s0, d) && (f.done, f.verifying) == (d.done, d.verifying) && Forward(f, s)
    ensures Forward(s0, s)
  {
  }

  /** Stall rounds when the fetch gives up: at most the full budget since the last progress. */
  ghost predicate Exhausted(s: State, held: seq<bool>) {
    && Count(held) <= s.received < |s.done|
    && s.totalStalls <= (SEG_MAX_STALLS - 1) * (s.received - Count(held)) + SEG_MAX_STALLS
  }

  lemma ReceivedBound(s: State, held: seq<bool>, frames: set<(nat, Verdict)>)
    requires Inv(s, held, frames)
    ensures s.received <= |s.done| && (s.received == |s.done| ==> forall g :: 0 <= g < |s.done| ==> s.done[g])
  {
    CountBound(s.done);
  }

  /** A frame for segment `g` arrives before turn `i`. */
  predicate Arrived(script: seq<Turn>, i: nat, g: nat) {
    exists j :: 0 <= j < i && j < |script| && script[j].recv.Frame? && script[j].recv.seg == g
  }

  /** By turn `i` a frame has arrived for every missing segment, and the turn has all results waiting. */
  predicate Finishes(script: seq<Turn>, i: nat, held: seq<bool>) {
    && i < |script|
    && (forall g :: 0 <= g < |held| && !held[g] ==> Arrived(script, i, g))
    && (forall g :: 0 <= g < |held| ==> g in script[i].ready)
  }

  /** No more than some window of the run allows. */
  predicate InWindow(n: nat, window: nat, script: seq<Turn>) {
    n <= Limit(window) || exists i :: 0 <= i < |script| && n <= Limit(script[i].window)
  }

  lemma InWindowGrows(window: nat, script: seq<Turn>, k: nat, before: nat, n: nat)
    requires k < |script| && InWindow(before, window, script[..k])
    requires n <= before || n <= Limit(script[k].window)
    ensures InWindow(n, window, script[..k + 1])
  {
    assert script[..k + 1][k] == script[k];
    assert forall i :: 0 <= i < k ==> script[..k + 1][i] == script[..k][i];
  }

  lemma MoreFrames(s: State, held: seq<bool>, fewer: set<(nat, Verdict)>, more: set<(nat, Verdict)>)
    requires Inv(s, held, fewer) && fewer <= more
    ensures Inv(s, held, more)
  {
    hide Count, Partitioned, Delivered, Counted;
    forall i | 0 <= i < |s.sunk|
      ensures FromFrame(s.sunk[i].0, s.sunk[i].1, more)
    {
      assert FromFrame(s.sunk[i].0, s.sunk[i].1, fewer);
    }
  }

  lemma ArrivedAll(script: seq<Turn>, i: nat, held: seq<bool>, s: State, frames: set<(nat, Verdict)>)
    requires Finishes(script, i, held) && Inv(s, held, frames)
    requires forall k :: 0 <= k < i ==> Kept(script[k], s)
    ensures AllIn(s) && NothingVerified(s, script[i])
  {
    hide Count, Sourced, Counted;
    forall g | 0 <= g < |s.done|
      ensures s.done[g] || g in s.verifying
    {
      if !held[g] {
        assert Arrived(script, i, g);
      }
    }
  }

  lemma StallBound(s: State, held: seq<bool>, frames: set<(nat, Verdict)>)
    requires Inv(s, held, frames)
    ensures |s.done| == |held| && s.totalStalls <= SEG_MAX_STALLS * (|held| - Count(held))
  {
    CountBound(s.done);
  }

  lemma ExhaustedBound(s: State, held: seq<bool>)
    requires Exhausted(s, held) && |s.done| == |held|
    ensures s.totalStalls <= SEG_MAX_STALLS * (|held| - Count(held))
  {
  }

  /** The state after `n` turns. */
  ghost predicate Reached(held: seq<bool>, window: nat, script: seq<Turn>, n: nat, s: State) {
    && n <= |script| && Inv(s, held, Frames(script[..n]))
    && (forall k :: 0 <= k < n ==> Kept(script[k], s))
    && (s.received < |s.done| ==> forall k: nat :: k < n ==> !script[k].recv.Closed? && !Finishes(script, k, held))
    && InWindow(|s.inflight|, window, script[..n])
  }

  lemma Primed(held: seq<bool>, window: nat, script: seq<Turn>, s: State)
    requires Inv(s, held, {}) && |s.inflight| <= Limit(window)
    ensures Reached(held, window, script, 0, s) && Frames(script[..0]) == {}
    ensures |s.rounds| == s.totalStalls + 1 && KeptAsking(s.rounds, s.inflight.Keys)
    ensures InWindow(|s.inflight|, window, script[..0])
  {
    hide Inv, KeptAsking;
    assert Frames(script[..0]) == {};
    LoggedKept(s, held, {});
  }

  lemma NextTurn(held: seq<bool>, window: nat, script: seq<Turn>, n: nat, s: State)
    requires Reached(held, window, script, n, s) && n < |script|
    ensures Inv(s, held, Frames(script[..n + 1])) && s.totalStalls <= SEG_MAX_STALLS * (|held| - Count(held))
    ensures |s.done| == |held|
    ensures script[n].recv.Frame? ==> (script[n].recv.seg, script[n].recv.verdict) in Frames(script[..n + 1])
  {
    hide Inv, Count, Kept, Finishes, InWindow;
    assert script[..n + 1][n] == script[n];
    MoreFrames(s, held, Frames(script[..n]), Frames(script[..n + 1]));
    StallBound(s, held, Frames(script[..n]));
  }

  /** However the turn ends. */
  lemma Bounded(held: seq<bool>, window: nat, script: seq<Turn>, n: nat, s0: State, s: State)
    requires Reached(held, window, script, n, s0) && n < |script| && |s.done| == |s0.done| == |held|
    requires |s.inflight| <= |s0.inflight| || |s.inflight| <= Limit(script[n].window)
    requires s.totalStalls == s0.totalStalls || Exhausted(s, held)
    ensures InWindow(|s.inflight|, window, script[..n + 1])
    ensures s.totalStalls <= SEG_MAX_STALLS * (|held| - Count(held))
  {
    hide Inv, Count, Kept, Finishes, InWindow, Exhausted;
    InWindowGrows(window, script, n, |s0.inflight|, |s.inflight|);
    StallBound(s0, held, Frames(script[..n]));
    if s.totalStalls != s0.totalStalls {
      ExhaustedBound(s, held);
    }
  }

  lemma TurnTaken(held: seq<bool>, window: nat, script: seq<Turn>, n: nat, s0: State, s: State)
    requires Reached(held, window, script, n, s0) && n < |script| && Inv(s, held, Frames(script[..n + 1]))
    requires s0.received < |s0.done| && Forward(s0, s) && Kept(script[n], s)
    requires s.received < |s.done| ==> !script[n].recv.Closed? && !(AllIn(s0) && NothingVerified(s0, script[n]))
    requires InWindow(|s.inflight|, window, script[..n + 1])
    ensures Reached(held, window, script, n + 1, s)
  {
    hide Inv, Count, Finishes, InWindow, AllIn, NothingVerified;
    if Finishes(script, n, held) {
      ArrivedAll(script, n, held, s0, Frames(script[..n]));
    }
  }

  lemma RunResult(held: seq<bool>, window: nat, script: seq<Turn>, n: nat, s: State)
    requires Reached(held, window, script, n, s) && (s.received < |s.done| ==> n == |script|)
    ensures Inv(s, held, Frames(script[..n])) && |s.done| == |held| && InWindow(|s.inflight|, window, script[..n])
    ensures s.totalStalls <= SEG_MAX_STALLS * (|held| - Count(held))
    ensures |s.rounds| == s.totalStalls + 1 && KeptAsking(s.rounds, s.inflight.Keys)
    ensures forall i :: 0 <= i < |script| ==> Kept(script[i], s)
    ensures s.received >= |s.done| ==> forall g :: 0 <= g < |held| ==> s.done[g]
    ensures s.received < |s.done| ==>
              && (forall i: nat :: !Finishes(script, i, held))
              && forall i :: 0 <= i < |script| ==> !script[i].recv.Closed?
  {
    hide Inv, Count, InWindow, KeptAsking, Arrived;
    ReceivedBound(s, held, Frames(script[..n]));
    StallBound(s, held, Frames(script[..n]));
    LoggedKept(s, held, Frames(script[..n]));
  }

  /**
   The whole fetch. Between turns the invariant holds. On completion the sink has run exactly once
   for each segment not already held, never for one that was, each time with the verified content
   of a frame received for that segment by then. However it ends, the number of stall rounds is at
   most `SEG_MAX_STALLS` times the number of missing segments, and a failure has its cause in the
   turns taken. Every stall opens a round of Interests in which each segment in flight is asked for
   again; a segment still missing has been in every round since its first, the last one excepted if
   the fetch fails in it. Never more is in flight than a window of the run allows. Unless it fails,
   it is complete once a frame has arrived for every missing segment and the results are in.
   */
  method FetchSegments(held: seq<bool>, window: nat, unsent: set<nat>, script: seq<Turn>,
                       sinkOk: (nat, seq<byte>) -> bool)
    returns (o: Outcome, s: State, turns: nat)
    ensures turns <= |script| && (o == Running ==> turns == |script|)
    ensures !o.Failed? ==> Inv(s, held, Frames(script[..turns])) && Taken(Initial(held), s, sinkOk)
    ensures o == Failed(SendFailed) && turns == 0 <==> exists g :: g in ToAsk(Initial(held), window) && g in unsent
    ensures o == Complete ==> |s.done| == |held| && forall g :: 0 <= g < |held| ==> s.done[g]
    ensures s.totalStalls <= SEG_MAX_STALLS * (|held| - Count(held))
    ensures !o.Failed? ==> |s.done| == |held| && forall i :: 0 <= i < |script| ==> Kept(script[i], s)
    ensures o == Running ==> s.received < |held| && forall i :: 0 <= i < |script| ==> !script[i].recv.Closed?
    ensures |s.rounds| == s.totalStalls + 1 && KeptAsking(s.rounds, s.inflight.Keys)
    ensures InWindow(|s.inflight|, window, script[..turns])
    ensures !o.Failed? && (exists i: nat :: Finishes(script, i, held)) ==> o == Complete
    ensures o.Failed? ==>
              || Blamed(o, Frames(script[..turns]), sinkOk)
              || (o.error == SendFailed && turns == 0 && Unsent(s, unsent))
              || (turns > 0 && Ended(script[turns - 1], o.error, s))
  {
    hide Inv, Count, Blamed, Finishes, KeptAsking, Ended, Stalled, SameRound, InWindow, Exhausted, Requested, Reached,
         Forward, Kept, AllIn, NothingVerified, Unsent, Stalls, Taken, ToAsk;
    s := Initial(held);
    turns := 0;
    InitialInv(held, {});
    o, s := Refill(s, window, unsent, held, {});
    RefillSameRound(Initial(held), Initial(held), s.nextSend, held, {});
    StallBound(s, held, {});
    Primed(held, window, script, s);
    SinkIdle(Initial(held), s, sinkOk);
    if o != Running {
      return;
    }
    while s.received < |s.done| && turns < |script|
      invariant 0 <= turns <= |script| && Reached(held, window, script, turns, s) && Taken(Initial(held), s, sinkOk)
      decreases |script| - turns
    {
      ghost var s0, frames := s, Frames(script[..turns + 1]);
      NextTurn(held, window, script, turns, s);
      o, s := TakeTurn(s, script[turns], sinkOk, held, frames);
      Bounded(held, window, script, turns, s0, s);
      turns := turns + 1;
      if o.Failed? {
        return;
      }
      TurnTaken(held, window, script, turns - 1, s0, s);
      TakenOn(Initial(held), s0, s, sinkOk);
    }
    RunResult(held, window, script, turns, s);
    o := if s.received < |s.done| then Running else Complete;
  }

  /** The bytes the sink got for a segment. */
  function SunkBytes(sunk: seq<(nat, seq<byte>)>, g: nat): Option<seq<byte>> {
    if sunk == [] then None
    else if sunk[|sunk| - 1].0 == g then Some(sunk[|sunk| - 1].1)
    else SunkBytes(sunk[..|sunk| - 1], g)
  }

  /**
   If every verified frame for a segment number carries that segment of the object, a completed
   fetch has handed exactly the object's segments to the sink.
   */
  lemma SinkGotTheObject(s: State, held: seq<bool>, frames: set<(nat, Verdict)>, segments: seq<seq<byte>>, g: nat)
    requires Inv(s, held, frames) && |segments| == |held| && g < |held| && s.done[g] && !held[g]
    requires forall x, v :: (x, v) in frames && v.Verified? && x < |segments| ==> Content(v) == segments[x]
    ensures SunkBytes(s.sunk, g) == Some(segments[g])
  {
    hide Count, Partitioned;
    var i :| 0 <= i < |s.sunk| && s.sunk[i].0 == g;
    assert FromFrame(g, s.sunk[i].1, frames);
    FoundAt(s.sunk, g, i);
  }

  lemma {:induction false} FoundAt(sunk: seq<(nat, seq<byte>)>, g: nat, i: nat)
    requires i < |sunk| && sunk[i].0 == g
    requires forall j, k :: 0 <= j < k < |sunk| ==> sunk[j].0 != sunk[k].0
    ensures SunkBytes(sunk, g) == Some(sunk[i].1)
  {
    if i < |sunk| - 1 {
      FoundAt(sunk[..|sunk| - 1], g, i);
    }
  }
}
