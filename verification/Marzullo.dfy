/**
 The Marzullo combiner: endpoint edges in a fixed scratch array, an in-place insertion sort and a
 counting sweep. The result is characterised without reference to edges: the largest number of
 considered intervals that share a point, the leftmost such point, and the intersection of the
 intervals that contain it.
 */
module Marzullo {
  import opened Options

  const I64_MIN: int := -0x8000_0000_0000_0000
  const I64_MAX: int := 0x7FFF_FFFF_FFFF_FFFF
  const U64: int := 0x1_0000_0000_0000_0000
  const MAX_MEASUREMENTS: nat := 32

  type i64 = x: int | I64_MIN <= x <= I64_MAX
  type u64 = x: int | 0 <= x < U64

  function SaturatingSub(c: i64, r: u64): i64 {
    if c - r < I64_MIN then I64_MIN else c - r
  }

  function SaturatingAdd(c: i64, r: u64): i64 {
    if c + r > I64_MAX then I64_MAX else c + r
  }

  /** `a.wrapping_sub(b) as u64`. */
  function WrappingDifference(a: i64, b: i64): u64 {
    (a - b) % U64
  }

  datatype TimeInterval = TimeInterval(center: i64, radius: u64) {
    function Lo(): i64 { SaturatingSub(center, radius) }
    function Hi(): i64 { SaturatingAdd(center, radius) }
    predicate Contains(t: int) { Lo() <= t <= Hi() }
  }

  datatype Combined = Combined(interval: TimeInterval, support: nat)

  /** How many intervals contain the point `t`. */
  function Support(xs: seq<TimeInterval>, t: int): nat {
    if xs == [] then 0
    else Support(xs[..|xs| - 1], t) + if xs[|xs| - 1].Contains(t) then 1 else 0
  }

  // ---------------------------------------------------------------------------------------
  // Edges and their order
  // ---------------------------------------------------------------------------------------

  /** `kind` is -1 where an interval begins and 1 where one ends. */
  datatype Edge = Edge(pos: i64, kind: int)

  predicate Le(a: Edge, b: Edge) {
    a.pos < b.pos || (a.pos == b.pos && a.kind <= b.kind)
  }

  function Edges(xs: seq<TimeInterval>): seq<Edge> {
    if xs == [] then []
    else
      var last := xs[|xs| - 1];
      Edges(xs[..|xs| - 1]) + [Edge(last.Lo(), -1), Edge(last.Hi(), 1)]
  }

  /** Insertion from the right, after every element not above `e`. */
  function Insert(s: seq<Edge>, e: Edge): (r: seq<Edge>)
    ensures |r| == |s| + 1
  {
    if s != [] && !Le(s[|s| - 1], e) then Insert(s[..|s| - 1], e) + [s[|s| - 1]] else s + [e]
  }

  function Sorted(s: seq<Edge>): (r: seq<Edge>)
    ensures |r| == |s|
  {
    if s == [] then [] else Insert(Sorted(s[..|s| - 1]), s[|s| - 1])
  }

  predicate Ascending(s: seq<Edge>) {
    forall i, j :: 0 <= i < j < |s| ==> Le(s[i], s[j])
  }

  predicate Proper(s: seq<Edge>) {
    forall i :: 0 <= i < |s| ==> s[i].kind == -1 || s[i].kind == 1
  }

  /** What an edge contributes to the number of intervals containing `p`. */
  function Score(e: Edge, p: int): int {
    if e.kind == -1 then (if e.pos <= p then 1 else 0)
    else if e.pos < p then -1 else 0
  }

  function Total(s: seq<Edge>, p: int): int {
    if s == [] then 0 else Total(s[..|s| - 1], p) + Score(s[|s| - 1], p)
  }

  /** The running count after the first `k` edges. */
  function Running(s: seq<Edge>, k: nat): int
    requires k <= |s|
  {
    if k == 0 then 0 else Running(s, k - 1) - s[k - 1].kind
  }

  predicate OneKind(e: Edge) {
    e.kind == -1 || e.kind == 1
  }

  lemma {:induction false} InsertMembers(s: seq<Edge>, e: Edge)
    ensures multiset(Insert(s, e)) == multiset(s) + multiset{e}
  {
    if s != [] && !Le(s[|s| - 1], e) {
      InsertMembers(s[..|s| - 1], e);
    }
    assert s == [] || s == s[..|s| - 1] + [s[|s| - 1]];
  }

  lemma {:induction false} InsertKeeps(s: seq<Edge>, e: Edge)
    requires Ascending(s)
    ensures Ascending(Insert(s, e))
  {
    if s != [] && !Le(s[|s| - 1], e) {
      var init, last := s[..|s| - 1], s[|s| - 1];
      InsertKeeps(init, e);
      InsertMembers(init, e);
      var front := Insert(init, e);
      forall i | 0 <= i < |front|
        ensures Le(front[i], last)
      {
        assert front[i] in multiset(front);
      }
    }
  }

  lemma {:induction false} InsertTotal(s: seq<Edge>, e: Edge, p: int)
    ensures Total(Insert(s, e), p) == Total(s, p) + Score(e, p)
  {
    var r := Insert(s, e);
    if s != [] && !Le(s[|s| - 1], e) {
      InsertTotal(s[..|s| - 1], e, p);
      assert r[..|r| - 1] == Insert(s[..|s| - 1], e);
    } else {
      assert r[..|r| - 1] == s;
    }
  }

  /** The sort is a sort. */
  lemma {:induction false} SortedSorts(s: seq<Edge>)
    ensures Ascending(Sorted(s)) && multiset(Sorted(s)) == multiset(s)
  {
    if s != [] {
      var init, last := s[..|s| - 1], s[|s| - 1];
      SortedSorts(init);
      InsertKeeps(Sorted(init), last);
      InsertMembers(Sorted(init), last);
      assert s == init + [last];
    }
  }

  lemma {:induction false} SortedTotal(s: seq<Edge>, p: int)
    ensures Total(Sorted(s), p) == Total(s, p)
  {
    if s != [] {
      SortedTotal(s[..|s| - 1], p);
      InsertTotal(Sorted(s[..|s| - 1]), s[|s| - 1], p);
    }
  }

  /** The edges' contributions at a point add up to the number of intervals containing it. */
  lemma {:induction false} EdgesTotal(xs: seq<TimeInterval>, p: int)
    ensures Total(Edges(xs), p) == Support(xs, p)
  {
    if xs != [] {
      var last := xs[|xs| - 1];
      var b, e := Edge(last.Lo(), -1), Edge(last.Hi(), 1);
      var front := Edges(xs[..|xs| - 1]);
      EdgesTotal(xs[..|xs| - 1], p);
      assert Edges(xs) == front + [b] + [e];
      TotalLast(front + [b], e, p);
      TotalLast(front, b, p);
    }
  }

  lemma TotalLast(s: seq<Edge>, e: Edge, p: int)
    ensures Total(s + [e], p) == Total(s, p) + Score(e, p)
  {
    assert (s + [e])[..|s|] == s;
  }

  lemma {:induction false} EdgesShape(xs: seq<TimeInterval>)
    ensures |Edges(xs)| == 2 * |xs|
    ensures forall i :: 0 <= i < |xs| ==>
              Edges(xs)[2 * i] == Edge(xs[i].Lo(), -1) && Edges(xs)[2 * i + 1] == Edge(xs[i].Hi(), 1)
  {
    if xs != [] {
      EdgesShape(xs[..|xs| - 1]);
    }
  }

  /** The sorted edges of some intervals: every edge comes from an interval and every interval's edges are there. */
  lemma FromInterval(xs: seq<TimeInterval>, s: seq<Edge>, i: nat) returns (x: TimeInterval)
    requires s == Sorted(Edges(xs)) && i < |s|
    ensures x in xs && (s[i] == Edge(x.Lo(), -1) || s[i] == Edge(x.Hi(), 1))
  {
    hide Sorted, Edges, Ascending;
    SortedSorts(Edges(xs));
    assert s[i] in multiset(s);
    var k := IndexOf(Edges(xs), s[i]);
    x := EdgeOwner(xs, k);
  }

  lemma EdgeOwner(xs: seq<TimeInterval>, k: nat) returns (x: TimeInterval)
    requires k < |Edges(xs)|
    ensures x in xs && (Edges(xs)[k] == Edge(x.Lo(), -1) || Edges(xs)[k] == Edge(x.Hi(), 1))
  {
    hide Edges;
    EdgesShape(xs);
    x := xs[k / 2];
    assert k == 2 * (k / 2) || k == 2 * (k / 2) + 1;
  }

  lemma IndexOf(es: seq<Edge>, e: Edge) returns (k: nat)
    requires e in multiset(es)
    ensures k < |es| && es[k] == e
  {
    k :| 0 <= k < |es| && es[k] == e;
  }

  lemma FindEdges(xs: seq<TimeInterval>, s: seq<Edge>, x: TimeInterval) returns (b: nat, e: nat)
    requires s == Sorted(Edges(xs)) && x in xs
    ensures b < |s| && s[b] == Edge(x.Lo(), -1) && e < |s| && s[e] == Edge(x.Hi(), 1)
  {
    SortedSorts(Edges(xs));
    EdgesShape(xs);
    var i :| 0 <= i < |xs| && xs[i] == x;
    assert Edges(xs)[2 * i] in multiset(s) && Edges(xs)[2 * i + 1] in multiset(s);
    assert Edge(x.Lo(), -1) in s && Edge(x.Hi(), 1) in s;
    b :| 0 <= b < |s| && s[b] == Edge(x.Lo(), -1);
    e :| 0 <= e < |s| && s[e] == Edge(x.Hi(), 1);
  }

  lemma SortedProper(xs: seq<TimeInterval>)
    ensures Proper(Sorted(Edges(xs))) && Ascending(Sorted(Edges(xs))) && |Sorted(Edges(xs))| == 2 * |xs|
  {
    var s := Sorted(Edges(xs));
    SortedSorts(Edges(xs));
    EdgesShape(xs);
    forall i | 0 <= i < |s|
      ensures OneKind(s[i])
    {
      var x := FromInterval(xs, s, i);
    }
  }

  /** In sorted edges, those that count at `p` form a prefix, and the running count there is the total. */
  lemma {:induction false} PrefixAt(s: seq<Edge>, p: int) returns (j: nat)
    requires Ascending(s) && Proper(s)
    ensures j <= |s| && Running(s, j) == Total(s, p)
    ensures forall i :: 0 <= i < j ==> Score(s[i], p) != 0
    ensures forall i :: j <= i < |s| ==> Score(s[i], p) == 0
  {
    if s == [] {
      j := 0;
    } else {
      var init, last := s[..|s| - 1], s[|s| - 1];
      j := PrefixAt(init, p);
      RunningPrefix(s, |s| - 1, j);
      if Score(last, p) != 0 {
        forall i | 0 <= i < |init|
          ensures Score(init[i], p) != 0
        {
          assert Le(s[i], last);
        }
        j := |s|;
      }
    }
  }

  lemma {:induction false} RunningPrefix(s: seq<Edge>, n: nat, k: nat)
    requires k <= n <= |s|
    ensures Running(s[..n], k) == Running(s, k)
  {
    if k > 0 {
      RunningPrefix(s, n, k - 1);
    }
  }

  /** The number of intervals containing a point is the running count of the prefix it selects. */
  lemma SupportIsRunning(xs: seq<TimeInterval>, p: int) returns (j: nat)
    ensures var s := Sorted(Edges(xs));
            && j <= |s| && Running(s, j) == Support(xs, p)
            && (forall i :: 0 <= i < j ==> Score(s[i], p) != 0)
            && (forall i :: j <= i < |s| ==> Score(s[i], p) == 0)
  {
    hide Sorted, Edges, Support, Total, Running, Score, Ascending, Proper;
    SortedProper(xs);
    EdgesTotal(xs, p);
    SortedTotal(Edges(xs), p);
    j := PrefixAt(Sorted(Edges(xs)), p);
  }

  // ---------------------------------------------------------------------------------------
  // What the combiner returns
  // ---------------------------------------------------------------------------------------

  /** No point lies in more intervals than `support`, and `lo` is the least that lies in as many. */
  ghost predicate LeftmostMaximum(xs: seq<TimeInterval>, support: nat, lo: int) {
    && Support(xs, lo) == support
    && (forall t :: Support(xs, t) <= support)
    && (forall t :: t < lo ==> Support(xs, t) < support)
  }

  /** `[lo, hi]` is the intersection of the intervals that contain `lo`. */
  ghost predicate Intersection(xs: seq<TimeInterval>, lo: int, hi: int) {
    && lo <= hi
    && (forall x :: x in xs && x.Contains(lo) ==> hi <= x.Hi())
    && (exists x :: x in xs && x.Contains(lo) && x.Lo() == lo)
    && (exists x :: x in xs && x.Contains(lo) && x.Hi() == hi)
  }

  /** Every point of the intersection lies in all the intervals its left end lies in. */
  lemma {:induction false} RegionSupport(xs: seq<TimeInterval>, lo: int, hi: int, p: int)
    requires (forall x :: x in xs && x.Contains(lo) ==> hi <= x.Hi()) && lo <= p <= hi
    ensures Support(xs, p) >= Support(xs, lo)
  {
    if xs != [] {
      RegionSupport(xs[..|xs| - 1], lo, hi, p);
      assert xs[|xs| - 1] in xs;
    }
  }

  /** The sweep's state after `k` edges: the first prefix that reached the best count so far. */
  ghost predicate Swept(s: seq<Edge>, k: nat, best: nat, lo: i64, hi: i64, at: nat) {
    && k <= |s|
    && (forall j :: 0 <= j <= k && j < |s| ==> Running(s, j) <= best)
    && (best > 0 ==>
          && at + 1 <= k && at + 1 < |s|
          && Running(s, at + 1) == best && lo == s[at].pos && hi == s[at + 1].pos
          && forall j :: 0 <= j <= at ==> Running(s, j) < best)
  }

  /** All begins are matched by ends. */
  lemma Balanced(xs: seq<TimeInterval>)
    ensures var s := Sorted(Edges(xs)); Running(s, |s|) == 0
  {
    hide Sorted, Edges, Running;
    var s := Sorted(Edges(xs));
    SupportBeyond(xs, I64_MAX + 1);
    SortedProper(xs);
    var j := SupportIsRunning(xs, I64_MAX + 1);
    assert j < |s| ==> Score(s[j], I64_MAX + 1) == 0;
  }

  lemma {:induction false} SupportBeyond(xs: seq<TimeInterval>, t: int)
    requires t > I64_MAX
    ensures Support(xs, t) == 0
  {
    if xs != [] {
      SupportBeyond(xs[..|xs| - 1], t);
    }
  }

  lemma FirstIsBegin(xs: seq<TimeInterval>)
    requires xs != []
    ensures |Sorted(Edges(xs))| >= 2 && Sorted(Edges(xs))[0].kind == -1
  {
    hide Sorted, Edges;
    var s := Sorted(Edges(xs));
    SortedProper(xs);
    var x := FromInterval(xs, s, 0);
    var b, e := FindEdges(xs, s, x);
    assert b > 0 ==> Le(s[0], s[b]);
  }

  /** The best prefix ends with a begin edge and is followed by an end edge. */
  lemma BestShape(xs: seq<TimeInterval>, best: nat, lo: i64, hi: i64, at: nat)
    requires xs != [] && var s := Sorted(Edges(xs)); Swept(s, |s|, best, lo, hi, at)
    ensures var s := Sorted(Edges(xs));
            best > 0 && at + 1 < |s| && s[at] == Edge(lo, -1) && s[at + 1] == Edge(hi, 1)
  {
    hide Sorted, Edges, Running;
    var s := Sorted(Edges(xs));
    SortedProper(xs);
    FirstIsBegin(xs);
    Balanced(xs);
    RunningStep(s, 0);
    RunningStep(s, at);
    RunningStep(s, at + 1);
  }

  lemma RunningStep(s: seq<Edge>, k: nat)
    ensures Running(s, 0) == 0
    ensures k < |s| ==> Running(s, k + 1) == Running(s, k) - s[k].kind
  {
  }

  /** No point is in more intervals than the best count, and none left of `lo` in as many. */
  lemma NoBetterPoint(xs: seq<TimeInterval>, best: nat, lo: i64, hi: i64, at: nat, t: int)
    requires xs != [] && var s := Sorted(Edges(xs)); Swept(s, |s|, best, lo, hi, at)
    ensures Support(xs, t) <= best && (t < lo ==> Support(xs, t) < best)
  {
    hide Sorted, Edges, Running, Support;
    var s := Sorted(Edges(xs));
    BestShape(xs, best, lo, hi, at);
    Balanced(xs);
    var j := SupportIsRunning(xs, t);
    assert t < lo ==> Score(s[at], t) == 0;
  }

  lemma CountAtLeft(xs: seq<TimeInterval>, best: nat, lo: i64, hi: i64, at: nat)
    requires xs != [] && var s := Sorted(Edges(xs)); Swept(s, |s|, best, lo, hi, at)
    ensures Support(xs, lo) == best
  {
    hide Sorted, Edges, Running, Support;
    var s := Sorted(Edges(xs));
    BestShape(xs, best, lo, hi, at);
    SortedProper(xs);
    var j := SupportIsRunning(xs, lo);
    assert Score(s[at], lo) != 0;
    assert Le(s[at], s[at + 1]);
    assert Score(s[at + 1], lo) == 0;
  }

  lemma RegionIsIntersection(xs: seq<TimeInterval>, lo: i64, hi: i64, at: nat)
    requires var s := Sorted(Edges(xs)); at + 1 < |s| && s[at] == Edge(lo, -1) && s[at + 1] == Edge(hi, 1)
    ensures Intersection(xs, lo, hi)
  {
    hide Sorted, Edges;
    var s := Sorted(Edges(xs));
    SortedProper(xs);
    assert Le(s[at], s[at + 1]);
    var b := FromInterval(xs, s, at);
    var e := FromInterval(xs, s, at + 1);
    forall x | x in xs && x.Contains(lo)
      ensures hi <= x.Hi()
    {
      var i, k := FindEdges(xs, s, x);
      NeighbourEnd(s, at, k);
    }
    var i, k := FindEdges(xs, s, e);
    NeighbourBegin(s, at, i);
    assert b.Contains(lo) && e.Contains(lo);
  }

  lemma NeighbourEnd(s: seq<Edge>, at: nat, i: nat)
    requires Ascending(s) && at + 1 < |s| && s[at].kind == -1 && i < |s| && s[i].kind == 1 && s[at].pos <= s[i].pos
    ensures s[at + 1].pos <= s[i].pos
  {
    if i > at + 1 {
      assert Le(s[at + 1], s[i]);
    }
  }

  lemma NeighbourBegin(s: seq<Edge>, at: nat, i: nat)
    requires Ascending(s) && at + 1 < |s| && s[at + 1].kind == 1
    requires i < |s| && s[i].kind == -1 && s[i].pos <= s[at + 1].pos
    ensures s[i].pos <= s[at].pos
  {
    if i < at {
      assert Le(s[i], s[at]);
    }
  }

  /** A completed sweep over the sorted edges finds the leftmost maximum and its intersection. */
  lemma SweepCorrect(xs: seq<TimeInterval>, best: nat, lo: i64, hi: i64, at: nat)
    requires xs != [] && var s := Sorted(Edges(xs)); Swept(s, |s|, best, lo, hi, at)
    ensures best > 0 && LeftmostMaximum(xs, best, lo) && Intersection(xs, lo, hi)
  {
    hide Sorted, Edges, Running, Support, Intersection, Swept;
    BestShape(xs, best, lo, hi, at);
    forall t
      ensures Support(xs, t) <= best && (t < lo ==> Support(xs, t) < best)
    {
      NoBetterPoint(xs, best, lo, hi, at, t);
    }
    CountAtLeft(xs, best, lo, hi, at);
    RegionIsIntersection(xs, lo, hi, at);
  }

  // ---------------------------------------------------------------------------------------
  // The combiner
  // ---------------------------------------------------------------------------------------

  /** One round of insertion: shifts larger edges up by one and drops `a[i]` into the gap. */
  method InsertEdge(a: array<Edge>, i: nat)
    requires i < a.Length
    modifies a
    ensures a[..i + 1] == Insert(old(a[..i]), old(a[i])) && a[i + 1..] == old(a[i + 1..])
  {
    hide Le, Insert, Shifted;
    ghost var front := a[..i];
    var e := a[i];
    var j := i;
    NothingShifted(front, e);
    while j > 0 && !Le(a[j - 1], e)
      invariant 0 <= j <= i && Shifted(front, e, j)
      invariant forall k :: 0 <= k < j ==> a[k] == front[k]
      invariant forall k :: j < k <= i ==> a[k] == front[k - 1]
      invariant forall k :: i < k < a.Length ==> a[k] == old(a[k])
    {
      InsertShift(front, e, j);
      a[j] := a[j - 1];
      j := j - 1;
    }
    a[j] := e;
    InsertHere(front, e, j);
    assert a[..i + 1] == front[..j] + [e] + front[j..];
  }

  /** The larger edges of `front` moved up so far are its tail from `j`. */
  ghost predicate Shifted(front: seq<Edge>, e: Edge, j: nat) {
    j <= |front| && Insert(front, e) == Insert(front[..j], e) + front[j..]
  }

  lemma NothingShifted(front: seq<Edge>, e: Edge)
    ensures Shifted(front, e, |front|)
  {
    assert front[..|front|] == front && front[|front|..] == [];
  }

  lemma InsertHere(front: seq<Edge>, e: Edge, j: nat)
    requires Shifted(front, e, j) && (j > 0 ==> Le(front[j - 1], e))
    ensures Insert(front, e) == front[..j] + [e] + front[j..]
  {
    assert Insert(front[..j], e) == front[..j] + [e];
  }

  lemma InsertShift(front: seq<Edge>, e: Edge, j: nat)
    requires 0 < j && Shifted(front, e, j) && !Le(front[j - 1], e)
    ensures Shifted(front, e, j - 1)
  {
    hide Le;
    assert front[..j][..j - 1] == front[..j - 1];
    assert front[j - 1..] == [front[j - 1]] + front[j..];
    ConcatStep(Insert(front[..j - 1], e), front[j - 1], front[j..]);
  }

  lemma ConcatStep(a: seq<Edge>, x: Edge, b: seq<Edge>)
    ensures a + [x] + b == a + ([x] + b)
  {
  }

  /** In-place insertion sort of the first `m` edges. */
  method SortEdges(a: array<Edge>, m: nat)
    requires m <= a.Length
    modifies a
    ensures a[..m] == Sorted(old(a[..m])) && a[m..] == old(a[m..])
  {
    hide Insert;
    ghost var was := a[..];
    var i := 1;
    SortedOne(a[..]);
    while i < m
      invariant 1 <= i && (m > 0 ==> i <= m) && (m == 0 ==> a[..] == was)
      invariant i <= m ==> a[..i] == Sorted(was[..i]) && a[i..] == was[i..]
    {
      assert a[i] == was[i] by { assert a[i] == a[i..][0] && was[i] == was[i..][0]; }
      assert was[..i + 1][..i] == was[..i];
      InsertEdge(a, i);
      assert was[i + 1..] == was[i..][1..];
      i := i + 1;
    }
  }

  lemma SortedOne(s: seq<Edge>)
    ensures |s| >= 1 ==> Sorted(s[..1]) == s[..1]
    ensures Sorted([]) == []
  {
    if |s| >= 1 {
      assert s[..1][..0] == [];
      assert [] + [s[0]] == s[..1];
    }
  }

  /** Writes the two edges of each interval into the scratch array. */
  method FillEdges(a: array<Edge>, xs: seq<TimeInterval>) returns (m: nat)
    requires 2 * |xs| <= a.Length
    modifies a
    ensures m == 2 * |xs| && a[..m] == Edges(xs)
  {
    m := 0;
    for i := 0 to |xs|
      invariant m == 2 * i && a[..m] == Edges(xs[..i])
    {
      ghost var done := a[..m];
      a[m] := Edge(xs[i].Lo(), -1);
      a[m + 1] := Edge(xs[i].Hi(), 1);
      assert xs[..i + 1][..i] == xs[..i];
      assert a[..m + 2] == done + [a[m], a[m + 1]];
      m := m + 2;
    }
    assert xs[..|xs|] == xs;
  }

  /** The counting sweep over sorted edges. */
  method Sweep(a: array<Edge>, m: nat, lo0: i64, hi0: i64) returns (best: nat, lo: i64, hi: i64)
    requires m <= a.Length
    ensures exists at: nat :: Swept(a[..m], m, best, lo, hi, at)
  {
    ghost var s := a[..m];
    ghost var at := 0;
    best, lo, hi := 0, lo0, hi0;
    var cnt := 0;
    var k := 0;
    while k < m
      invariant 0 <= k <= m && cnt == Running(s, k) && Swept(s, k, best, lo, hi, at)
    {
      cnt := cnt - a[k].kind;
      if cnt > best && k + 1 < m {
        best, lo, hi, at := cnt, a[k].pos, a[k + 1].pos, k;
      }
      k := k + 1;
    }
  }

  /** The result interval rebuilt from its bounds: exact, except that an odd width loses its top point. */
  lemma Rebuilt(lo: i64, hi: i64)
    requires lo <= hi
    ensures var radius := WrappingDifference(hi, lo) / 2;
            var iv := TimeInterval(SaturatingAdd(lo, radius), radius);
            && WrappingDifference(hi, lo) == hi - lo && SaturatingAdd(lo, radius) == lo + radius
            && iv.Lo() == lo && iv.Hi() == hi - (hi - lo) % 2
  {
  }

  function Considered(intervals: seq<TimeInterval>): seq<TimeInterval> {
    if |intervals| < MAX_MEASUREMENTS then intervals else intervals[..MAX_MEASUREMENTS]
  }

  /**
   Exact result: the support is the maximum over all points, the interval starts at the leftmost
   point that attains it, and it is the intersection of the intervals through that point (short of
   its top point when the width is odd).
   */
  ghost predicate Correct(xs: seq<TimeInterval>, c: Combined) {
    var lo: int := c.interval.Lo();
    && c.support > 0 && LeftmostMaximum(xs, c.support, lo)
    && exists hi: int :: Intersection(xs, lo, hi) && c.interval.Hi() == hi - (hi - lo) % 2
  }

  method Combine(intervals: seq<TimeInterval>) returns (r: Option<Combined>)
    ensures r.None? <==> intervals == []
    ensures r.Some? ==> Correct(Considered(intervals), r.value)
  {
    hide Sorted, Edges, Swept, LeftmostMaximum;
    var n := if |intervals| < MAX_MEASUREMENTS then |intervals| else MAX_MEASUREMENTS;
    if n == 0 {
      return None;
    }
    ghost var xs := Considered(intervals);
    assert xs == intervals[..n];
    var edges := new Edge[MAX_MEASUREMENTS * 2](_ => Edge(0, 0));
    var m := FillEdges(edges, intervals[..n]);
    SortEdges(edges, m);
    var best, lo, hi := Sweep(edges, m, intervals[0].Lo(), intervals[0].Hi());
    ghost var at: nat :| Swept(edges[..m], m, best, lo, hi, at);
    SweepCorrect(xs, best, lo, hi, at);
    var radius := WrappingDifference(hi, lo) / 2;
    var center := SaturatingAdd(lo, radius);
    Rebuilt(lo, hi);
    r := Some(Combined(TimeInterval(center, radius), best));
  }

  // ---------------------------------------------------------------------------------------
  // What the result is worth
  // ---------------------------------------------------------------------------------------

  /** Every point of the returned interval lies in exactly `support` of the considered intervals. */
  lemma ReturnedPointsSupported(xs: seq<TimeInterval>, c: Combined, p: int)
    requires Correct(xs, c) && c.interval.Contains(p)
    ensures Support(xs, p) == c.support
  {
    hide Support;
    var lo: int := c.interval.Lo();
    var hi: int :| Intersection(xs, lo, hi) && c.interval.Hi() == hi - (hi - lo) % 2;
    RegionSupport(xs, lo, hi, p);
  }

  /** How many intervals contain both points. */
  function Shared(xs: seq<TimeInterval>, t: int, p: int): nat {
    if xs == [] then 0
    else
      var last := xs[|xs| - 1];
      Shared(xs[..|xs| - 1], t, p) + if last.Contains(t) && last.Contains(p) then 1 else 0
  }

  lemma {:induction false} Pigeonhole(xs: seq<TimeInterval>, t: int, p: int)
    ensures Support(xs, t) + Support(xs, p) <= |xs| + Shared(xs, t, p)
  {
    if xs != [] {
      Pigeonhole(xs[..|xs| - 1], t, p);
    }
  }

  /**
   Fault tolerance: if all but `f` of the considered intervals contain the true time and fewer than
   half are faulty, the support is at least `n - f`, and every returned point lies together with
   the true time in at least `n - 2f > 0` of the truthful intervals.
   */
  lemma FaultTolerance(xs: seq<TimeInterval>, c: Combined, t: int, f: nat, p: int)
    requires Correct(xs, c) && Support(xs, t) >= |xs| - f && |xs| > 2 * f && c.interval.Contains(p)
    ensures c.support >= |xs| - f
    ensures Shared(xs, t, p) >= |xs| - 2 * f > 0
  {
    hide Support, Shared;
    ReturnedPointsSupported(xs, c, p);
    Pigeonhole(xs, t, p);
  }

  /** Ignoring inputs beyond the limit can only lower the support, never fabricate agreement. */
  lemma TruncationOnlyLowers(intervals: seq<TimeInterval>, c: Combined)
    requires Correct(Considered(intervals), c)
    ensures forall p :: c.interval.Contains(p) ==> c.support <= Support(intervals, p)
  {
    hide Support;
    forall p | c.interval.Contains(p)
      ensures c.support <= Support(intervals, p)
    {
      ReturnedPointsSupported(Considered(intervals), c, p);
      SupportPrefix(intervals, if |intervals| < MAX_MEASUREMENTS then |intervals| else MAX_MEASUREMENTS, p);
      assert intervals[..|intervals|] == intervals;
    }
  }

  lemma {:induction false} SupportPrefix(xs: seq<TimeInterval>, n: nat, p: int)
    requires n <= |xs|
    ensures Support(xs[..n], p) <= Support(xs, p)
    decreases |xs|
  {
    if n == |xs| {
      assert xs[..n] == xs;
    } else {
      SupportPrefix(xs[..|xs| - 1], n, p);
      assert xs[..|xs| - 1][..n] == xs[..n];
    }
  }

  // ---------------------------------------------------------------------------------------
  // When the result is the smallest
  // ---------------------------------------------------------------------------------------

  /** `[lo, hi]` is the intersection of the intervals over `t`, of which there are `k`. */
  ghost predicate Region(xs: seq<TimeInterval>, k: nat, t: int, lo: int, hi: int) {
    && Support(xs, t) == k
    && (forall x :: x in xs && x.Contains(t) ==> x.Lo() <= lo && hi <= x.Hi())
    && (exists x :: x in xs && x.Contains(t) && x.Lo() == lo)
    && (exists x :: x in xs && x.Contains(t) && x.Hi() == hi)
  }

  /** No region of support `k` is narrower than `w`. */
  ghost predicate Narrowest(xs: seq<TimeInterval>, k: nat, w: int) {
    forall t, lo, hi :: Region(xs, k, t, lo, hi) ==> hi - lo >= w
  }

  /** A begin and a later end, both points of support `k`. */
  predicate EndsAt(xs: seq<TimeInterval>, k: nat, x: TimeInterval, y: TimeInterval) {
    x.Lo() <= y.Hi() && Support(xs, x.Lo()) == k && Support(xs, y.Hi()) == k
  }

  /** No begin and end of support `k` are closer than `w`: a condition on the inputs' endpoints. */
  predicate NoCloserEnds(xs: seq<TimeInterval>, k: nat, w: int) {
    forall x, y :: x in xs && y in xs && EndsAt(xs, k, x, y) ==> y.Hi() - x.Lo() >= w
  }

  /** If every interval over `t` is over `u`, so are at least as many, and more if another one is. */
  lemma {:induction false} SupportGrows(xs: seq<TimeInterval>, t: int, u: int)
    requires forall x :: x in xs && x.Contains(t) ==> x.Contains(u)
    ensures Support(xs, u) >= Support(xs, t)
    ensures (exists y :: y in xs && y.Contains(u) && !y.Contains(t)) ==> Support(xs, u) > Support(xs, t)
  {
    if xs != [] {
      var init, last := xs[..|xs| - 1], xs[|xs| - 1];
      assert xs == init + [last];
      SupportGrows(init, t, u);
    }
  }

  lemma {:induction false} SomeInterval(xs: seq<TimeInterval>, t: int)
    requires Support(xs, t) > 0
    ensures exists x :: x in xs && x.Contains(t)
  {
    var last := xs[|xs| - 1];
    assert last in xs;
    if !last.Contains(t) {
      SomeInterval(xs[..|xs| - 1], t);
    }
  }

  /** The interval over `t` that ends first. */
  lemma {:induction false} FirstEnd(xs: seq<TimeInterval>, t: int) returns (z: TimeInterval)
    requires exists x :: x in xs && x.Contains(t)
    ensures z in xs && z.Contains(t) && forall x :: x in xs && x.Contains(t) ==> z.Hi() <= x.Hi()
  {
    var init, last := xs[..|xs| - 1], xs[|xs| - 1];
    assert xs == init + [last];
    if x :| x in init && x.Contains(t) {
      z := FirstEnd(init, t);
      if last.Contains(t) && last.Hi() < z.Hi() {
        z := last;
      }
    } else {
      z := last;
    }
  }

  /** Both ends of a region of greatest support are ends of inputs with that support. */
  lemma RegionEnds(xs: seq<TimeInterval>, k: nat, t: int, lo: int, hi: int)
    requires Region(xs, k, t, lo, hi) && forall u :: Support(xs, u) <= k
    ensures exists x, y :: x in xs && y in xs && EndsAt(xs, k, x, y) && x.Lo() == lo && y.Hi() == hi
  {
    hide Support;
    var x :| x in xs && x.Contains(t) && x.Lo() == lo;
    var y :| y in xs && y.Contains(t) && y.Hi() == hi;
    SupportGrows(xs, t, lo);
    SupportGrows(xs, t, hi);
    assert EndsAt(xs, k, x, y);
  }

  /** Between two ends of greatest support lies a whole region. */
  lemma RegionBetween(xs: seq<TimeInterval>, k: nat, x: TimeInterval, y: TimeInterval) returns (hi: int)
    requires x in xs && y in xs && EndsAt(xs, k, x, y) && forall u :: Support(xs, u) <= k
    ensures Region(xs, k, x.Lo(), x.Lo(), hi) && hi <= y.Hi()
  {
    hide Support;
    var lo: int := x.Lo();
    assert x.Contains(lo);
    var z := FirstEnd(xs, lo);
    hi := z.Hi();
    if y.Hi() < hi {
      assert y.Contains(y.Hi());
      SupportGrows(xs, lo, y.Hi());
    }
  }

  /** Among regions of greatest support: none is narrower than `w` exactly when no two ends are closer. */
  lemma NarrowestIff(xs: seq<TimeInterval>, k: nat, w: int)
    requires forall u :: Support(xs, u) <= k
    ensures Narrowest(xs, k, w) <==> NoCloserEnds(xs, k, w)
  {
    hide Support, Region, EndsAt;
    if NoCloserEnds(xs, k, w) {
      forall t, lo, hi | Region(xs, k, t, lo, hi)
        ensures hi - lo >= w
      {
        RegionEnds(xs, k, t, lo, hi);
      }
    }
    if Narrowest(xs, k, w) {
      forall x, y | x in xs && y in xs && EndsAt(xs, k, x, y)
        ensures y.Hi() - x.Lo() >= w
      {
        var hi := RegionBetween(xs, k, x, y);
      }
    }
  }

  /** The region the result was rebuilt from, and that it is one of no greater width than any other. */
  ghost predicate Smallest(xs: seq<TimeInterval>, c: Combined, hi: int) {
    var lo: int := c.interval.Lo();
    && c.interval.Hi() == hi - (hi - lo) % 2
    && Region(xs, c.support, lo, lo, hi) && Narrowest(xs, c.support, hi - lo)
  }

  /**
   The result is a smallest region of greatest support if and only if no begin and end of that
   support, of whichever inputs, are closer together than its own ends.
   */
  lemma SmallestIff(xs: seq<TimeInterval>, c: Combined) returns (hi: int)
    requires Correct(xs, c)
    ensures Intersection(xs, c.interval.Lo(), hi)
    ensures Smallest(xs, c, hi) <==> NoCloserEnds(xs, c.support, hi - c.interval.Lo())
  {
    hide Support, NoCloserEnds, Narrowest;
    var lo: int := c.interval.Lo();
    hi :| Intersection(xs, lo, hi) && c.interval.Hi() == hi - (hi - lo) % 2;
    NarrowestIff(xs, c.support, hi - lo);
  }

  /** `a` begins and `b` ends the leftmost region among the inputs of begin support `k`, the greatest there is. */
  predicate FirstRegion(xs: seq<TimeInterval>, k: nat, a: TimeInterval, b: TimeInterval) {
    && a in xs && b in xs && Support(xs, a.Lo()) == k && b.Contains(a.Lo())
    && (forall z :: z in xs ==> Support(xs, z.Lo()) <= k && (Support(xs, z.Lo()) == k ==> a.Lo() <= z.Lo()))
    && (forall z :: z in xs && z.Contains(a.Lo()) ==> b.Hi() <= z.Hi())
  }

  /** On the inputs alone: no begin and end of greatest support are closer than those of the first region. */
  ghost predicate LeftmostIsNarrowest(xs: seq<TimeInterval>) {
    forall k, a, b :: FirstRegion(xs, k, a, b) ==> NoCloserEnds(xs, k, b.Hi() - a.Lo())
  }

  /** The returned region is the first region. */
  lemma FirstRegionIs(xs: seq<TimeInterval>, c: Combined, hi: int)
    requires Correct(xs, c) && Intersection(xs, c.interval.Lo(), hi)
    ensures exists a, b :: FirstRegion(xs, c.support, a, b)
    ensures forall k, a, b :: FirstRegion(xs, k, a, b) ==> k == c.support && a.Lo() == c.interval.Lo() && b.Hi() == hi
  {
    hide Support;
    var lo: int := c.interval.Lo();
    var a :| a in xs && a.Contains(lo) && a.Lo() == lo;
    var b :| b in xs && b.Contains(lo) && b.Hi() == hi;
    assert FirstRegion(xs, c.support, a, b);
    forall k, a', b' | FirstRegion(xs, k, a', b')
      ensures k == c.support && a'.Lo() == lo && b'.Hi() == hi
    {
      assert Support(xs, a.Lo()) <= k && Support(xs, a'.Lo()) <= c.support;
    }
  }

  /** Whether the result is a smallest region can be told from the inputs alone. */
  lemma SmallestFromInputs(xs: seq<TimeInterval>, c: Combined)
    requires Correct(xs, c)
    ensures (exists hi :: Smallest(xs, c, hi)) <==> LeftmostIsNarrowest(xs)
  {
    hide Support, NoCloserEnds, Narrowest, FirstRegion, Correct;
    var hi := SmallestIff(xs, c);
    FirstRegionIs(xs, c, hi);
    forall hi' | Smallest(xs, c, hi')
      ensures hi' == hi
    {
      RegionUnique(xs, c, hi, hi');
    }
  }

  lemma RegionUnique(xs: seq<TimeInterval>, c: Combined, hi: int, hi': int)
    requires Intersection(xs, c.interval.Lo(), hi) && Smallest(xs, c, hi')
    ensures hi' == hi
  {
    hide Support, Narrowest;
  }

  const TWO_TIES: seq<TimeInterval> :=
    [TimeInterval(50, 50), TimeInterval(50, 50), TimeInterval(200, 0), TimeInterval(200, 0)]

  /**
   The result is the leftmost region of largest support, not the narrowest: here a point shared by
   two intervals is a region by itself at 200, yet the interval returned is [0, 100].
   */
  lemma LeftmostNotNarrowest(c: Combined)
    requires Correct(TWO_TIES, c)
    ensures c.support == 2 && c.interval.Lo() == 0 && c.interval.Hi() == 100
    ensures Region(TWO_TIES, 2, 200, 200, 200)
  {
    hide Support;
    var wide, point := TimeInterval(50, 50), TimeInterval(200, 0);
    var xs := TWO_TIES;
    var lo: int := c.interval.Lo();
    SupportOfFour(wide, wide, point, point, 200);
    SupportOfFour(wide, wide, point, point, 0);
    SupportOfFour(wide, wide, point, point, lo);
    var hi: int :| Intersection(xs, lo, hi) && c.interval.Hi() == hi - (hi - lo) % 2;
    assert point in xs;
  }

  lemma SupportOfFour(a: TimeInterval, b: TimeInterval, c: TimeInterval, d: TimeInterval, t: int)
    ensures Support([a, b, c, d], t)
         == (if a.Contains(t) then 1 else 0) + (if b.Contains(t) then 1 else 0)
          + (if c.Contains(t) then 1 else 0) + (if d.Contains(t) then 1 else 0)
  {
    assert [a, b, c, d][..3] == [a, b, c] && [a, b, c][..2] == [a, b] && [a, b][..1] == [a] && [a][..0] == [];
    assert Support([a], t) == if a.Contains(t) then 1 else 0;
    assert Support([a, b], t) == Support([a], t) + if b.Contains(t) then 1 else 0;
  }
}
