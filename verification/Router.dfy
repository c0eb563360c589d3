/**
 The store router: names go to the store of the longest matching route, or to the fallback. A
 batch is grouped by route and the groups are committed in no particular order. Seen through
 lookups by name, the router with its many stores is one map; seen through prefix scans it is not
 always, and the exact condition is stated.
 */
module Router {
  import opened Backend
  import opened NameKey
  import opened NamedStore
  import opened NameUri
  import opened Options

  datatype Selection = Indexed(route: nat) | Fallback

  /** Routes in the order they were added; `targets` and `fallback` number the stores. */
  datatype Config = Config(prefixes: seq<Name>, targets: seq<nat>, fallback: Option<nat>)

  predicate Sane(g: Config, stores: nat) {
    && |g.prefixes| == |g.targets|
    && (forall i :: 0 <= i < |g.prefixes| ==> Valid(g.prefixes[i]) && g.targets[i] < stores)
    && (g.fallback.Some? ==> g.fallback.value < stores)
  }

  // ---------------------------------------------------------------------------------------
  // Longest prefix
  // ---------------------------------------------------------------------------------------

  /** Route `i` matches `n`, no match is longer, and no earlier match is as long. */
  predicate Longest(prefixes: seq<Name>, n: Name, i: nat) {
    && i < |prefixes| && HasPrefix(n, prefixes[i])
    && forall j :: 0 <= j < |prefixes| && HasPrefix(n, prefixes[j]) ==>
         |prefixes[j]| < |prefixes[i]| || (|prefixes[j]| == |prefixes[i]| && i <= j)
  }

  predicate Matches(prefixes: seq<Name>, n: Name) {
    exists j :: 0 <= j < |prefixes| && HasPrefix(n, prefixes[j])
  }

  lemma {:induction false} LongestExists(prefixes: seq<Name>, n: Name)
    ensures Matches(prefixes, n) <==> exists i: nat :: Longest(prefixes, n, i)
    decreases |prefixes|
  {
    hide HasPrefix;
    if prefixes != [] {
      var last := |prefixes| - 1;
      var init := prefixes[..last];
      LongestExists(init, n);
      assert forall j :: 0 <= j < last ==> init[j] == prefixes[j];
      if Matches(init, n) {
        var i: nat :| Longest(init, n, i);
        if HasPrefix(n, prefixes[last]) && |prefixes[last]| > |prefixes[i]| {
          assert Longest(prefixes, n, last);
        } else {
          assert Longest(prefixes, n, i);
        }
      } else if HasPrefix(n, prefixes[last]) {
        assert Longest(prefixes, n, last);
      }
    }
  }

  lemma LongestUnique(prefixes: seq<Name>, n: Name, i: nat, j: nat)
    requires Longest(prefixes, n, i) && Longest(prefixes, n, j)
    ensures i == j
  {
  }

  ghost function Pick(g: Config, n: Name): Option<Selection> {
    if Matches(g.prefixes, n) then
      LongestExists(g.prefixes, n);
      var i: nat :| Longest(g.prefixes, n, i);
      Some(Indexed(i))
    else if g.fallback.Some? then Some(Fallback)
    else None
  }

  ghost function StoreOf(g: Config, n: Name): Option<nat>
    requires |g.prefixes| == |g.targets|
  {
    match Pick(g, n)
    case None => None
    case Some(Fallback) => g.fallback
    case Some(Indexed(i)) => if i < |g.targets| then Some(g.targets[i]) else None
  }

  lemma StoreInRange(g: Config, stores: nat, n: Name)
    requires Sane(g, stores)
    ensures StoreOf(g, n).Some? ==> StoreOf(g, n).value < stores
    ensures StoreOf(g, n) == None <==> Pick(g, n) == None
  {
    hide Valid, HasPrefix;
    if Matches(g.prefixes, n) {
      LongestExists(g.prefixes, n);
    }
  }

  /** Of two prefixes of one name, the one with more components has the longer key. */
  lemma KeyLengths(n: Name, p: Name, q: Name)
    requires Valid(p) && Valid(q) && HasPrefix(n, p) && HasPrefix(n, q)
    ensures |Key(p)| < |Key(q)| <==> |p| < |q|
  {
    hide Key, Valid;
    if |p| <= |q| {
      assert HasPrefix(q, p);
      KeyPrefix(p, q);
      if |p| < |q| {
        KeyPrefix(q, p);
      } else {
        assert p == q;
      }
    } else {
      assert HasPrefix(p, q);
      KeyPrefix(q, p);
    }
  }

  /** The linear scan over route keys finds the longest matching name prefix. */
  method PickIndex(g: Config, keys: seq<Text>, n: Name, stores: nat) returns (r: Option<Selection>)
    requires Sane(g, stores) && Valid(n)
    requires |keys| == |g.prefixes| && forall i :: 0 <= i < |keys| ==> keys[i] == Key(g.prefixes[i])
    ensures r == Pick(g, n)
  {
    hide Key, Valid, HasPrefix;
    var key := NameToKey(n);
    var best: Option<nat>, bestLen := None, 0;
    for i := 0 to |keys|
      invariant best == None ==> forall j :: 0 <= j < i ==> !HasPrefix(n, g.prefixes[j])
      invariant best.Some? ==> best.value < i && bestLen == |keys[best.value]|
      invariant best.Some? ==> Longest(g.prefixes[..i], n, best.value)
    {
      KeyPrefix(g.prefixes[i], n);
      if best.Some? {
        if keys[i] <= key {
          KeyLengths(n, g.prefixes[best.value], g.prefixes[i]);
        }
      }
      if keys[i] <= key && (best == None || |keys[i]| > bestLen) {
        best, bestLen := Some(i), |keys[i]|;
      }
    }
    assert g.prefixes[..|keys|] == g.prefixes;
    match best
    case Some(i) =>
      r := Some(Indexed(i));
      assert Matches(g.prefixes, n);
      LongestFixes(g, n, i);
    case None =>
      r := if g.fallback.Some? then Some(Fallback) else None;
  }

  lemma LongestFixes(g: Config, n: Name, i: nat)
    requires Longest(g.prefixes, n, i)
    ensures Pick(g, n) == Some(Indexed(i))
  {
    hide HasPrefix;
    assert Matches(g.prefixes, n);
    LongestExists(g.prefixes, n);
    var j: nat :| Pick(g, n) == Some(Indexed(j)) && Longest(g.prefixes, n, j);
    LongestUnique(g.prefixes, n, i, j);
  }

  // ---------------------------------------------------------------------------------------
  // Many stores, one map
  // ---------------------------------------------------------------------------------------

  type Stores = seq<Contents>

  ghost function RouterGet(g: Config, s: Stores, n: Name): Option<Text>
    requires Sane(g, |s|)
  {
    match StoreOf(g, n)
    case None => None
    case Some(at) => if at < |s| then Lookup(s[at], Key(n)) else None
  }

  /** One operation carried to the store its name routes to; dropped when there is none. */
  ghost function Route(g: Config, s: Stores, op: NamedOp): (r: Stores)
    requires Sane(g, |s|)
    ensures |r| == |s|
  {
    match StoreOf(g, op.name)
    case None => s
    case Some(at) => if at < |s| then s[at := ApplyOp(s[at], ToWriteOp(op))] else s
  }

  ghost function RouteAll(g: Config, s: Stores, ops: seq<NamedOp>): (r: Stores)
    requires Sane(g, |s|)
    ensures |r| == |s|
    decreases |ops|
  {
    if ops == [] then s else RouteAll(g, Route(g, s, ops[0]), ops[1..])
  }

  /** Lookups see the map `m` wherever there is a store to look in. */
  ghost predicate Sees(g: Config, s: Stores, m: Named)
    requires Sane(g, |s|)
  {
    forall n :: Valid(n) ==> RouterGet(g, s, n) == if StoreOf(g, n).Some? then Lookup(m, n) else None
  }

  lemma RouteSees(g: Config, s: Stores, m: Named, op: NamedOp)
    requires Sane(g, |s|) && Sees(g, s, m) && Valid(op.name)
    ensures Sees(g, Route(g, s, op), ApplyNamedOp(m, op))
  {
    hide Key, Valid, Pick, StoreOf;
    forall n | Valid(n)
      ensures RouterGet(g, Route(g, s, op), n) ==
              if StoreOf(g, n).Some? then Lookup(ApplyNamedOp(m, op), n) else None
    {
      StoreInRange(g, |s|, n);
      if Key(n) == Key(op.name) {
        KeyInjective(n, op.name);
      }
    }
  }

  /** Whatever the stores held and however they are shared, lookups by name follow one map. */
  lemma {:induction false} LookupsFollowOneMap(g: Config, s: Stores, m: Named, ops: seq<NamedOp>)
    requires Sane(g, |s|) && Sees(g, s, m) && ValidOps(ops)
    ensures Sees(g, RouteAll(g, s, ops), ApplyNamed(m, ops))
    decreases |ops|
  {
    hide Sees, Route, ApplyNamedOp, Valid;
    if ops != [] {
      RouteSees(g, s, m, ops[0]);
      LookupsFollowOneMap(g, Route(g, s, ops[0]), ApplyNamedOp(m, ops[0]), ops[1..]);
    }
  }

  // ---------------------------------------------------------------------------------------
  // Batches by group
  // ---------------------------------------------------------------------------------------

  /** The operations whose selection is in `chosen`, in order. */
  ghost function Filter(g: Config, ops: seq<NamedOp>, chosen: set<Selection>): (r: seq<NamedOp>)
    ensures forall op :: op in r ==> op in ops && Pick(g, op.name).Some? && Pick(g, op.name).value in chosen
  {
    if ops == [] then []
    else
      var rest := Filter(g, ops[1..], chosen);
      var sel := Pick(g, ops[0].name);
      if sel.Some? && sel.value in chosen then [ops[0]] + rest else rest
  }

  /** Operations on different names commute, in one store or in two. */
  lemma Commute(g: Config, s: Stores, a: NamedOp, b: NamedOp)
    requires Sane(g, |s|) && Valid(a.name) && Valid(b.name) && a.name != b.name
    ensures Route(g, Route(g, s, a), b) == Route(g, Route(g, s, b), a)
  {
    hide Key, Valid, Pick, StoreOf;
    if Key(a.name) == Key(b.name) {
      KeyInjective(a.name, b.name);
    }
    var x, y := Route(g, Route(g, s, a), b), Route(g, Route(g, s, b), a);
    forall i | 0 <= i < |s|
      ensures x[i] == y[i]
    {
      CommuteOps(s[i], ToWriteOp(a), ToWriteOp(b));
    }
    assert x == y;
  }

  lemma CommuteOps(c: Contents, a: WriteOp, b: WriteOp)
    requires a.key != b.key
    ensures ApplyOp(ApplyOp(c, a), b) == ApplyOp(ApplyOp(c, b), a)
  {
  }

  lemma {:induction false} CommuteAll(g: Config, s: Stores, ops: seq<NamedOp>, b: NamedOp)
    requires Sane(g, |s|) && ValidOps(ops) && Valid(b.name)
    requires forall op :: op in ops ==> op.name != b.name
    ensures RouteAll(g, Route(g, s, b), ops) == Route(g, RouteAll(g, s, ops), b)
    decreases |ops|
  {
    hide Route, Valid;
    if ops != [] {
      Commute(g, s, ops[0], b);
      CommuteAll(g, Route(g, s, ops[0]), ops[1..], b);
    }
  }

  lemma {:induction false} FilterValid(g: Config, ops: seq<NamedOp>, chosen: set<Selection>)
    requires ValidOps(ops)
    ensures ValidOps(Filter(g, ops, chosen))
  {
    forall i | 0 <= i < |Filter(g, ops, chosen)|
      ensures Valid(Filter(g, ops, chosen)[i].name)
    {
      assert Filter(g, ops, chosen)[i] in ops;
    }
  }

  /** One more group may be committed after all the others. */
  lemma {:induction false} CommitLast(g: Config, s: Stores, ops: seq<NamedOp>, done: set<Selection>, sel: Selection)
    requires Sane(g, |s|) && ValidOps(ops) && sel !in done
    ensures RouteAll(g, s, Filter(g, ops, done + {sel})) ==
            RouteAll(g, RouteAll(g, s, Filter(g, ops, done)), Filter(g, ops, {sel}))
    decreases |ops|
  {
    hide Route, Valid, Pick;
    if ops != [] {
      var op, rest := ops[0], ops[1..];
      var at := Pick(g, op.name);
      if at == Some(sel) {
        CommitLast(g, Route(g, s, op), rest, done, sel);
        FilterValid(g, rest, done);
        CommuteAll(g, s, Filter(g, rest, done), op);
        assert ([op] + Filter(g, rest, {sel}))[1..] == Filter(g, rest, {sel});
        assert ([op] + Filter(g, rest, done + {sel}))[1..] == Filter(g, rest, done + {sel});
      } else if at.Some? && at.value in done {
        CommitLast(g, Route(g, s, op), rest, done, sel);
        assert ([op] + Filter(g, rest, done))[1..] == Filter(g, rest, done);
        assert ([op] + Filter(g, rest, done + {sel}))[1..] == Filter(g, rest, done + {sel});
      } else {
        CommitLast(g, s, rest, done, sel);
      }
    }
  }

  /** Every operation that routes anywhere has its selection in `chosen`. */
  ghost predicate Covers(g: Config, ops: seq<NamedOp>, chosen: set<Selection>) {
    forall i :: 0 <= i < |ops| && Pick(g, ops[i].name).Some? ==> Pick(g, ops[i].name).value in chosen
  }

  lemma {:induction false} FilterAll(g: Config, s: Stores, ops: seq<NamedOp>, chosen: set<Selection>)
    requires Sane(g, |s|) && Covers(g, ops, chosen)
    ensures RouteAll(g, s, Filter(g, ops, chosen)) == RouteAll(g, s, ops)
    decreases |ops|
  {
    hide Pick;
    if ops != [] {
      FilterAll(g, Route(g, s, ops[0]), ops[1..], chosen);
      assert ([ops[0]] + Filter(g, ops[1..], chosen))[1..] == Filter(g, ops[1..], chosen);
    }
  }

  /** A group that shares one selection is one batch on one store. */
  lemma {:induction false} GroupIsBatch(g: Config, s: Stores, group: seq<NamedOp>, at: nat)
    requires Sane(g, |s|) && at < |s|
    requires forall op :: op in group ==> StoreOf(g, op.name) == Some(at)
    ensures RouteAll(g, s, group) == s[at := ApplyAll(s[at], ToWriteOps(group))]
    decreases |group|
  {
    hide StoreOf, ApplyOp, ToWriteOp;
    if group == [] {
      assert s[at := s[at]] == s;
    } else {
      var s' := s[at := ApplyOp(s[at], ToWriteOp(group[0]))];
      assert group[0] in group;
      assert Route(g, s, group[0]) == s';
      GroupIsBatch(g, s', group[1..], at);
      assert ToWriteOps(group)[1..] == ToWriteOps(group[1..]);
    }
  }

  lemma {:induction false} FilterSnoc(g: Config, ops: seq<NamedOp>, op: NamedOp, chosen: set<Selection>)
    ensures var sel := Pick(g, op.name);
            Filter(g, ops + [op], chosen) ==
            Filter(g, ops, chosen) + if sel.Some? && sel.value in chosen then [op] else []
  {
    hide Pick;
    if ops == [] {
      assert ops + [op] == [op];
      assert [op][1..] == [];
    } else {
      assert (ops + [op])[1..] == ops[1..] + [op];
      FilterSnoc(g, ops[1..], op, chosen);
    }
  }

  // ---------------------------------------------------------------------------------------
  // Prefix scans
  // ---------------------------------------------------------------------------------------

  ghost function Restrict(g: Config, m: Named, at: nat): Named
    requires |g.prefixes| == |g.targets|
  {
    map n | n in m && StoreOf(g, n) == Some(at) :: m[n]
  }

  /** Each store holds exactly the names of `m` that route to it. */
  ghost predicate Distributed(g: Config, s: Stores, m: Named)
    requires Sane(g, |s|)
  {
    && (forall n :: n in m ==> Valid(n))
    && forall at :: 0 <= at < |s| ==> Represents(s[at], Restrict(g, m, at))
  }

  lemma RouteDistributes(g: Config, s: Stores, m: Named, op: NamedOp)
    requires Sane(g, |s|) && Distributed(g, s, m) && Valid(op.name)
    ensures Distributed(g, Route(g, s, op), ApplyNamedOp(m, op))
  {
    hide Represents, Key, Valid, Pick, StoreOf, ToWriteOp, ApplyOp;
    StoreInRange(g, |s|, op.name);
    var m' := ApplyNamedOp(m, op);
    forall at | 0 <= at < |s|
      ensures Represents(Route(g, s, op)[at], Restrict(g, m', at))
    {
      if StoreOf(g, op.name) == Some(at) {
        RepresentsOp(s[at], Restrict(g, m, at), op);
        assert Restrict(g, m', at) == ApplyNamedOp(Restrict(g, m, at), op);
      } else {
        assert Restrict(g, m', at) == Restrict(g, m, at);
      }
    }
  }

  lemma {:induction false} RunDistributes(g: Config, s: Stores, m: Named, ops: seq<NamedOp>)
    requires Sane(g, |s|) && Distributed(g, s, m) && ValidOps(ops)
    ensures Distributed(g, RouteAll(g, s, ops), ApplyNamed(m, ops))
    decreases |ops|
  {
    hide Distributed, Route, ApplyNamedOp, Valid;
    if ops != [] {
      RouteDistributes(g, s, m, ops[0]);
      RunDistributes(g, Route(g, s, ops[0]), ApplyNamedOp(m, ops[0]), ops[1..]);
    }
  }

  lemma StartEmpty(g: Config, s: Stores)
    requires Sane(g, |s|) && forall at :: 0 <= at < |s| ==> s[at] == map[]
    ensures Sees(g, s, map[]) && Distributed(g, s, map[])
  {
    hide Key, Valid, Pick;
  }

  /**
   From empty stores, after any operations: lookups give what one map would, and each store holds
   exactly the names of that map that route to it.
   */
  lemma FromEmpty(g: Config, s: Stores, ops: seq<NamedOp>)
    requires Sane(g, |s|) && (forall at :: 0 <= at < |s| ==> s[at] == map[]) && ValidOps(ops)
    ensures Sees(g, RouteAll(g, s, ops), ApplyNamed(map[], ops))
    ensures Distributed(g, RouteAll(g, s, ops), ApplyNamed(map[], ops))
  {
    hide Sees, Distributed, RouteAll, ApplyNamed;
    StartEmpty(g, s);
    LookupsFollowOneMap(g, s, map[], ops);
    RunDistributes(g, s, map[], ops);
  }

  /** A scan asks only the store the prefix itself routes to. */
  ghost predicate RouterScanned(g: Config, s: Stores, p: Name, limit: nat, out: seq<(Text, Text)>)
    requires Sane(g, |s|)
  {
    match StoreOf(g, p)
    case None => out == []
    case Some(at) => at < |s| && Scanned(s[at], Key(p), limit, out)
  }

  /** Every name of `m` under `p` lives in the store the prefix routes to. */
  ghost predicate AllTogether(g: Config, m: Named, p: Name)
    requires |g.prefixes| == |g.targets|
  {
    forall n :: n in m && HasPrefix(n, p) ==> StoreOf(g, n).Some? && StoreOf(g, n) == StoreOf(g, p)
  }

  /**
   What a routed scan lists, and when that is all: an unlimited scan lists every name under the
   prefix if and only if they all live together, and then limited scans are right too.
   */
  lemma ScanCompleteIff(g: Config, s: Stores, m: Named, p: Name, limit: nat, out: seq<(Text, Text)>)
    returns (names: seq<Name>)
    requires Sane(g, |s|) && Distributed(g, s, m) && Valid(p) && RouterScanned(g, s, p, limit, out)
    ensures Entries(m, names, out)
    ensures forall i :: 0 <= i < |names| ==> HasPrefix(names[i], p) && StoreOf(g, names[i]) == StoreOf(g, p)
    ensures AllTogether(g, m, p) ==> ListsUnder(m, p, limit, names)
    ensures limit == 0 && ListsUnder(m, p, limit, names) ==> AllTogether(g, m, p)
  {
    hide Represents, Scanned, Key, Valid, Pick, StoreOf, HasPrefix, NameLe;
    names := [];
    if StoreOf(g, p).Some? {
      var at := StoreOf(g, p).value;
      names := ScanListsNames(s[at], Restrict(g, m, at), p, limit, out);
    }
  }

  /** The condition on the routes alone: nothing below the prefix is routed elsewhere. */
  ghost predicate NothingBelow(g: Config, p: Name)
    requires |g.prefixes| == |g.targets|
  {
    forall i :: 0 <= i < |g.prefixes| && HasPrefix(g.prefixes[i], p) ==>
      StoreOf(g, g.prefixes[i]) == StoreOf(g, p)
  }

  /** The route that wins for `n` also wins for its own prefix, and for `p` unless it is longer. */
  lemma SameRoute(g: Config, n: Name, p: Name, i: nat)
    requires HasPrefix(n, p) && Longest(g.prefixes, n, i)
    ensures |g.prefixes[i]| >= |p| ==>
              HasPrefix(g.prefixes[i], p) && Longest(g.prefixes, g.prefixes[i], i)
    ensures |g.prefixes[i]| < |p| ==> Longest(g.prefixes, p, i)
  {
    var ps := g.prefixes;
    forall j | 0 <= j < |ps|
      ensures HasPrefix(ps[i], ps[j]) ==> HasPrefix(n, ps[j])
      ensures HasPrefix(p, ps[j]) ==> HasPrefix(n, ps[j])
    {
    }
  }

  /**
   Over all names, scanning under `p` meets one store if and only if no route below `p` leads
   elsewhere.
   */
  lemma TogetherIffNothingBelow(g: Config, stores: nat, p: Name)
    requires Sane(g, stores)
    ensures (forall n :: Valid(n) && HasPrefix(n, p) ==> StoreOf(g, n) == StoreOf(g, p)) <==> NothingBelow(g, p)
  {
    hide HasPrefix, Valid, Pick, StoreOf;
    if NothingBelow(g, p) {
      forall n | Valid(n) && HasPrefix(n, p)
        ensures StoreOf(g, n) == StoreOf(g, p)
      {
        TogetherUnder(g, n, p);
      }
    }
  }

  lemma TogetherUnder(g: Config, n: Name, p: Name)
    requires |g.prefixes| == |g.targets| && NothingBelow(g, p) && HasPrefix(n, p)
    ensures StoreOf(g, n) == StoreOf(g, p)
  {
    hide HasPrefix;
    if Matches(g.prefixes, n) {
      LongestExists(g.prefixes, n);
      var i: nat :| Longest(g.prefixes, n, i);
      SameRoute(g, n, p, i);
      LongestFixes(g, n, i);
      if |g.prefixes[i]| >= |p| {
        LongestFixes(g, g.prefixes[i], i);
      } else {
        LongestFixes(g, p, i);
      }
    } else {
      NoMatchAbove(g.prefixes, n, p);
    }
  }

  lemma NoMatchAbove(prefixes: seq<Name>, n: Name, p: Name)
    requires HasPrefix(n, p) && !Matches(prefixes, n)
    ensures !Matches(prefixes, p)
  {
    forall j | 0 <= j < |prefixes|
      ensures !HasPrefix(p, prefixes[j])
    {
      assert !HasPrefix(n, prefixes[j]);
    }
  }

  /** A name stored behind a route is found by name and missed by a scan from above the route. */
  lemma ScanMisses(c: Component, wire: Text)
    requires WellSized(c)
    ensures var g := Config([[c]], [1], Some(0));
            var s := RouteAll(g, [map[], map[]], [Insert([c], wire)]);
            && RouterGet(g, s, [c]) == Some(wire)
            && HasPrefix([c], []) && RouterScanned(g, s, [], 0, [])
  {
    hide Key;
    var g := Config([[c]], [1], Some(0));
    var op := Insert([c], wire);
    var start: Stores := [map[], map[]];
    LongestFixes(g, [c], 0);
    assert !HasPrefix([], g.prefixes[0]);
    assert !Matches(g.prefixes, []);
    assert RouteAll(g, start, [op]) == Route(g, start, op) by {
      assert [op][1..] == [];
    }
  }

  // ---------------------------------------------------------------------------------------
  // The router
  // ---------------------------------------------------------------------------------------

  class StoreRouter {
    var config: Config
    var keys: seq<Text>
    var stores: Stores

    ghost predicate Sound()
      reads this
    {
      && Sane(config, |stores|) && |keys| == |config.prefixes|
      && forall i :: 0 <= i < |keys| ==> keys[i] == Key(config.prefixes[i])
    }

    constructor (stores: Stores)
      ensures Sound() && this.stores == stores && config == Config([], [], None)
    {
      config, keys, this.stores := Config([], [], None), [], stores;
    }

    method AddRoute(prefix: Name, store: nat)
      requires Sound() && Valid(prefix) && store < |stores|
      modifies this
      ensures Sound() && stores == old(stores)
      ensures config.prefixes == old(config.prefixes) + [prefix] && config.targets == old(config.targets) + [store]
      ensures config.fallback == old(config.fallback)
    {
      var k := NameToKey(prefix);
      keys := keys + [k];
      config := config.(prefixes := config.prefixes + [prefix], targets := config.targets + [store]);
    }

    method WithDefault(store: nat)
      requires Sound() && store < |stores|
      modifies this
      ensures Sound() && stores == old(stores) && config == old(config).(fallback := Some(store))
    {
      config := config.(fallback := Some(store));
    }

    method StoreAt(sel: Selection) returns (at: nat)
      requires Sound() && Reachable(config, sel)
      ensures at < |stores|
      ensures forall n :: Pick(config, n) == Some(sel) ==> StoreOf(config, n) == Some(at)
    {
      hide Pick, Valid, Key;
      match sel
      case Indexed(i) => at := config.targets[i];
      case Fallback => at := config.fallback.value;
    }

    method PickStore(n: Name) returns (r: Option<nat>)
      requires Sound() && Valid(n)
      ensures r == StoreOf(config, n) && (r.Some? ==> r.value < |stores|)
    {
      hide Pick, Valid, Key, HasPrefix;
      var sel := PickIndex(config, keys, n, |stores|);
      PickBounds(config, n);
      match sel
      case None => r := None;
      case Some(x) =>
        var at := StoreAt(x);
        r := Some(at);
    }

    method Get(n: Name) returns (r: Option<Text>)
      requires Sound() && Valid(n)
      ensures r == RouterGet(config, stores, n)
    {
      hide Pick, Valid;
      var at := PickStore(n);
      match at
      case None => r := None;
      case Some(i) =>
        var k := NameToKey(n);
        r := if k in stores[i] then Some(stores[i][k]) else None;
    }

    method Write(op: NamedOp)
      requires Sound() && Valid(op.name)
      modifies this`stores
      ensures Sound() && stores == Route(config, old(stores), op)
    {
      hide Pick, Valid;
      var at := PickStore(op.name);
      if at.Some? {
        var k := NameToKey(op.name);
        var c := stores[at.value];
        match op
        case Insert(_, wire) => stores := stores[at.value := c[k := wire]];
        case Remove(_) => stores := stores[at.value := c - {k}];
      }
    }

    method ScanUnder(p: Name, limit: nat) returns (out: seq<(Text, Text)>)
      requires Sound() && Valid(p)
      ensures RouterScanned(config, stores, p, limit, out)
    {
      hide Pick, Valid, Scanned;
      var at := PickStore(p);
      match at
      case None => out := [];
      case Some(i) =>
        var k := NameToKey(p);
        out := ScanPrefix(stores[i], k, limit);
    }

    /** Groups the operations by selection, keeping their order. */
    method GroupOps(ops: seq<NamedOp>) returns (groups: map<Selection, seq<NamedOp>>)
      requires Sound() && ValidOps(ops)
      ensures Grouped(config, ops, groups)
    {
      hide Pick, Valid, Key, Sane, HasPrefix, Grouped;
      groups := map[];
      NoGroups(config);
      for i := 0 to |ops|
        invariant Grouped(config, ops[..i], groups)
      {
        var sel := PickIndex(config, keys, ops[i].name, |stores|);
        assert ops[..i + 1] == ops[..i] + [ops[i]];
        if sel.Some? {
          var group := if sel.value in groups then groups[sel.value] else [];
          GroupStep(config, ops[..i], ops[i], groups);
          groups := groups[sel.value := group + [ops[i]]];
        } else {
          GroupStep(config, ops[..i], ops[i], groups);
        }
      }
      assert ops[..|ops|] == ops;
    }

    /** The groups are committed in an unspecified order; the result is that of the operations in order. */
    method WriteBatch(ops: seq<NamedOp>)
      requires Sound() && ValidOps(ops)
      modifies this`stores
      ensures Sound() && stores == RouteAll(config, old(stores), ops)
    {
      hide Pick, Valid, Key, Sane, ApplyAll, RouteAll, Covers, HasPrefix;
      var groups := GroupOps(ops);
      var pending := groups.Keys;
      ghost var done: set<Selection> := {};
      assert RouteAll(config, stores, Filter(config, ops, done)) == stores by {
        NothingChosen(config, ops);
        RouteNothing(config, stores);
      }
      while pending != {}
        invariant pending + done == groups.Keys && pending !! done
        invariant |stores| == |old(stores)|
        invariant stores == RouteAll(config, old(stores), Filter(config, ops, done))
        decreases pending
      {
        var sel :| sel in pending;
        var at := StoreAt(sel);
        CommitLast(config, old(stores), ops, done, sel);
        GroupIsBatch(config, stores, groups[sel], at);
        var c := ApplyBatch(stores[at], groups[sel]);
        stores := stores[at := c];
        pending, done := pending - {sel}, done + {sel};
      }
      assert done == groups.Keys;
      FilterAll(config, old(stores), ops, done);
    }
  }

  ghost predicate Grouped(g: Config, ops: seq<NamedOp>, groups: map<Selection, seq<NamedOp>>) {
    && Covers(g, ops, groups.Keys)
    && (forall sel :: sel in groups ==> groups[sel] == Filter(g, ops, {sel}) && Reachable(g, sel))
    && (forall sel :: sel !in groups ==> Filter(g, ops, {sel}) == [])
  }

  lemma NoGroups(g: Config)
    ensures Grouped(g, [], map[])
  {
  }

  lemma GroupStep(g: Config, ops: seq<NamedOp>, op: NamedOp, groups: map<Selection, seq<NamedOp>>)
    requires Grouped(g, ops, groups)
    ensures match Pick(g, op.name) {
              case None => Grouped(g, ops + [op], groups)
              case Some(sel) =>
                var group := if sel in groups then groups[sel] else [];
                Grouped(g, ops + [op], groups[sel := group + [op]])
            }
  {
    hide Pick, Filter;
    PickBounds(g, op.name);
    forall x: Selection
      ensures Filter(g, ops + [op], {x}) == Filter(g, ops, {x}) + if Pick(g, op.name) == Some(x) then [op] else []
    {
      FilterSnoc(g, ops, op, {x});
    }
  }

  predicate Reachable(g: Config, sel: Selection) {
    match sel
    case Indexed(i) => i < |g.prefixes|
    case Fallback => g.fallback.Some?
  }

  lemma PickBounds(g: Config, n: Name)
    ensures Pick(g, n).Some? ==> Reachable(g, Pick(g, n).value)
  {
    hide HasPrefix;
    if Matches(g.prefixes, n) {
      LongestExists(g.prefixes, n);
    }
  }

  lemma {:induction false} NothingChosen(g: Config, ops: seq<NamedOp>)
    ensures Filter(g, ops, {}) == []
  {
    if ops != [] {
      NothingChosen(g, ops[1..]);
    }
  }

  lemma RouteNothing(g: Config, s: Stores)
    requires Sane(g, |s|)
    ensures RouteAll(g, s, []) == s
  {
  }
}
