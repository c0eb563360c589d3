/**
 A name-addressed store over an ordered byte-keyed map. The map only knows bytes; every method
 is specified on the names it stands for: lookups by name, and prefix scans that list exactly the
 stored names under a prefix in canonical order.
 */
module NamedStore {
  import opened Backend
  import opened ByteOrder
  import opened NameKey
  import opened NameUri
  import opened Options

  // ---------------------------------------------------------------------------------------
  // Scanning a byte prefix
  // ---------------------------------------------------------------------------------------

  lemma {:induction false} PrefixIsBelow(p: Text, k: Text)
    requires p <= k
    ensures LexLe(p, k)
  {
    if p != [] {
      PrefixIsBelow(p[1..], k[1..]);
    }
  }

  /** Keys with a prefix form one run starting at the first key not below the prefix. */
  lemma {:induction false} Contiguous(p: Text, a: Text, b: Text)
    requires LexLe(p, a) && LexLe(a, b) && p <= b
    ensures p <= a
  {
    if p != [] {
      Contiguous(p[1..], a[1..], b[1..]);
      assert a == [a[0]] + a[1..] && p == [p[0]] + p[1..];
    }
  }

  predicate Lists(out: seq<(Text, Text)>, k: Text) {
    exists i :: 0 <= i < |out| && out[i].0 == k
  }

  /** Every listed key comes before `k`. */
  predicate AllBefore(out: seq<(Text, Text)>, k: Text) {
    forall i :: 0 <= i < |out| ==> LexLt(out[i].0, k)
  }

  /**
   The entries whose key has the prefix, ascending; if a limit cut the list short, what is missing
   comes after everything listed.
   */
  ghost predicate Scanned(c: Contents, prefix: Text, limit: nat, out: seq<(Text, Text)>) {
    && (forall i :: 0 <= i < |out| ==> prefix <= out[i].0 && out[i].0 in c && c[out[i].0] == out[i].1)
    && (forall i, j :: 0 <= i < j < |out| ==> LexLt(out[i].0, out[j].0))
    && (limit != 0 ==> |out| <= limit)
    && (forall k :: k in c && prefix <= k ==> Lists(out, k) || (limit != 0 && |out| == limit && AllBefore(out, k)))
  }

  /** First position of the ordered keys that is not below the prefix. */
  method LowerBound(keys: seq<Text>, prefix: Text) returns (at: nat)
    requires Ascending(keys)
    ensures at <= |keys|
    ensures forall i :: 0 <= i < at ==> !LexLe(prefix, keys[i])
    ensures forall i :: at <= i < |keys| ==> LexLe(prefix, keys[i])
  {
    hide LexLe;
    at := 0;
    while at < |keys| && !LexLe(prefix, keys[at])
      invariant at <= |keys|
      invariant forall i :: 0 <= i < at ==> !LexLe(prefix, keys[i])
    {
      at := at + 1;
    }
    forall i | at <= i < |keys|
      ensures LexLe(prefix, keys[i])
    {
      if i > at {
        LexTransitive(prefix, keys[at], keys[i]);
      }
    }
  }

  /** Keys `from..to` of the ordered keys are what has been listed. */
  ghost predicate Run(c: Contents, keys: seq<Text>, at: nat, out: seq<(Text, Text)>) {
    && at + |out| <= |keys|
    && forall i :: 0 <= i < |out| ==> out[i].0 == keys[at + i] && keys[at + i] in c && c[keys[at + i]] == out[i].1
  }

  method ScanPrefix(c: Contents, prefix: Text, limit: nat) returns (out: seq<(Text, Text)>)
    ensures Scanned(c, prefix, limit, out)
  {
    hide LexLe;
    var keys := SortedKeys(c.Keys);
    var at := LowerBound(keys, prefix);
    out := [];
    var i := at;
    while i < |keys|
      invariant at <= i <= |keys| && i == at + |out|
      invariant Run(c, keys, at, out)
      invariant forall j :: at <= j < i ==> prefix <= keys[j]
      invariant limit != 0 ==> |out| < limit
    {
      if !(prefix <= keys[i]) {
        break;
      }
      assert keys[i] in keys;
      out := out + [(keys[i], c[keys[i]])];
      i := i + 1;
      if limit != 0 && |out| >= limit {
        break;
      }
    }
    RunScanned(c, prefix, limit, keys, at, out);
  }

  lemma RunScanned(c: Contents, prefix: Text, limit: nat, keys: seq<Text>, at: nat, out: seq<(Text, Text)>)
    requires Ascending(keys) && (forall k :: k in keys <==> k in c.Keys) && Run(c, keys, at, out)
    requires forall i :: 0 <= i < at ==> !LexLe(prefix, keys[i])
    requires forall i :: at <= i < |keys| ==> LexLe(prefix, keys[i])
    requires forall j :: at <= j < at + |out| ==> prefix <= keys[j]
    requires limit != 0 ==> |out| <= limit
    requires at + |out| < |keys| && !(limit != 0 && |out| == limit) ==> !(prefix <= keys[at + |out|])
    ensures Scanned(c, prefix, limit, out)
  {
    hide LexLe;
    forall k | k in c && prefix <= k
      ensures Lists(out, k) || (limit != 0 && |out| == limit && AllBefore(out, k))
    {
      var j :| 0 <= j < |keys| && keys[j] == k;
      PrefixIsBelow(prefix, k);
      if j < at + |out| {
        assert out[j - at].0 == k;
      } else if limit != 0 && |out| == limit {
        assert AllBefore(out, k);
      } else {
        assert j == at + |out| || LexLt(keys[at + |out|], keys[j]);
        LexReflexive(k);
        Contiguous(prefix, keys[at + |out|], k);
      }
    }
  }

  // ---------------------------------------------------------------------------------------
  // What the bytes stand for
  // ---------------------------------------------------------------------------------------

  type Named = map<Name, Text>

  datatype NamedOp = Insert(name: Name, wire: Text) | Remove(name: Name)

  ghost predicate Represents(c: Contents, m: Named) {
    && (forall n :: n in m ==> Valid(n) && Key(n) in c && c[Key(n)] == m[n])
    && (forall k :: k in c ==> IsKeyIn(k, m))
  }

  ghost predicate IsKeyIn(k: Text, m: Named) {
    exists n :: n in m && Key(n) == k
  }

  function ApplyNamedOp(m: Named, op: NamedOp): Named {
    match op
    case Insert(n, w) => m[n := w]
    case Remove(n) => m - {n}
  }

  function ApplyNamed(m: Named, ops: seq<NamedOp>): Named
    decreases |ops|
  {
    if ops == [] then m else ApplyNamed(ApplyNamedOp(m, ops[0]), ops[1..])
  }

  function ToWriteOp(op: NamedOp): WriteOp {
    match op
    case Insert(n, w) => Put(Key(n), w)
    case Remove(n) => Delete(Key(n))
  }

  function ToWriteOps(ops: seq<NamedOp>): seq<WriteOp> {
    if ops == [] then [] else [ToWriteOp(ops[0])] + ToWriteOps(ops[1..])
  }

  predicate ValidOps(ops: seq<NamedOp>) {
    forall i :: 0 <= i < |ops| ==> Valid(ops[i].name)
  }

  lemma RepresentsOp(c: Contents, m: Named, op: NamedOp)
    requires Represents(c, m) && Valid(op.name)
    ensures Represents(ApplyOp(c, ToWriteOp(op)), ApplyNamedOp(m, op))
  {
    hide Key, Valid;
    var c', m' := ApplyOp(c, ToWriteOp(op)), ApplyNamedOp(m, op);
    forall n | n in m'
      ensures Valid(n) && Key(n) in c' && c'[Key(n)] == m'[n]
    {
      if n != op.name && Key(n) == Key(op.name) {
        KeyInjective(n, op.name);
      }
    }
    forall k | k in c'
      ensures IsKeyIn(k, m')
    {
      if k == Key(op.name) {
        assert op.name in m';
      } else {
        var n :| n in m && Key(n) == k;
        assert n in m';
      }
    }
  }

  /** A batch of named writes translated to keys does to the names what it says. */
  lemma {:induction false} RepresentsBatch(c: Contents, m: Named, ops: seq<NamedOp>)
    requires Represents(c, m) && ValidOps(ops)
    ensures Represents(ApplyAll(c, ToWriteOps(ops)), ApplyNamed(m, ops))
    decreases |ops|
  {
    hide Represents, ApplyOp, ApplyNamedOp, ToWriteOp, Valid;
    if ops != [] {
      RepresentsOp(c, m, ops[0]);
      RepresentsBatch(ApplyOp(c, ToWriteOp(ops[0])), ApplyNamedOp(m, ops[0]), ops[1..]);
      assert ToWriteOps(ops)[1..] == ToWriteOps(ops[1..]);
    }
  }

  function Lookup<K>(m: map<K, Text>, k: K): Option<Text> {
    if k in m then Some(m[k]) else None
  }

  lemma RepresentsLookup(c: Contents, m: Named, n: Name)
    requires Represents(c, m) && Valid(n)
    ensures Lookup(c, Key(n)) == Lookup(m, n)
  {
    hide Key, Valid;
    if Key(n) in c && n !in m {
      var n' :| n' in m && Key(n') == Key(n);
      KeyInjective(n', n);
    }
  }

  /** Exactly the stored names under `p`, in canonical order, up to `limit` of the smallest. */
  ghost predicate ListsUnder(m: Named, p: Name, limit: nat, names: seq<Name>) {
    && (forall i :: 0 <= i < |names| ==> names[i] in m && HasPrefix(names[i], p))
    && (forall i, j :: 0 <= i < j < |names| ==> names[i] != names[j] && NameLe(names[i], names[j]))
    && (limit != 0 ==> |names| <= limit)
    && (forall n :: n in m && HasPrefix(n, p) ==> n in names || (limit != 0 && |names| == limit && After(names, n)))
  }

  predicate After(names: seq<Name>, n: Name) {
    forall i :: 0 <= i < |names| ==> NameLe(names[i], n)
  }

  predicate Entries(m: Named, names: seq<Name>, out: seq<(Text, Text)>) {
    && |names| == |out|
    && forall i :: 0 <= i < |names| ==> names[i] in m && out[i] == (Key(names[i]), m[names[i]])
  }

  /** The entries of the stored names under `p`. */
  ghost predicate Listing(m: Named, p: Name, limit: nat, out: seq<(Text, Text)>) {
    exists names :: Entries(m, names, out) && ListsUnder(m, p, limit, names)
  }

  lemma NamesOf(c: Contents, m: Named, out: seq<(Text, Text)>) returns (names: seq<Name>)
    requires Represents(c, m)
    requires forall i :: 0 <= i < |out| ==> out[i].0 in c && c[out[i].0] == out[i].1
    ensures Entries(m, names, out)
  {
    hide Key, Valid;
    names := [];
    for i := 0 to |out|
      invariant Entries(m, names, out[..i])
    {
      assert IsKeyIn(out[i].0, m);
      var n :| n in m && Key(n) == out[i].0;
      names := names + [n];
    }
    assert out[..|out|] == out;
  }

  /** A byte-prefix scan of the keys is a component-prefix listing of the names. */
  lemma ScanListsNames(c: Contents, m: Named, p: Name, limit: nat, out: seq<(Text, Text)>) returns (names: seq<Name>)
    requires Represents(c, m) && Valid(p) && Scanned(c, Key(p), limit, out)
    ensures Entries(m, names, out) && ListsUnder(m, p, limit, names)
  {
    hide Key, Valid, HasPrefix, NameLe, LexLe;
    names := NamesOf(c, m, out);
    forall i | 0 <= i < |names|
      ensures HasPrefix(names[i], p)
    {
      KeyPrefix(p, names[i]);
    }
    forall i, j | 0 <= i < j < |names|
      ensures names[i] != names[j] && NameLe(names[i], names[j])
    {
      assert LexLt(out[i].0, out[j].0);
      KeyOrder(names[i], names[j]);
    }
    forall n | n in m && HasPrefix(n, p)
      ensures n in names || (limit != 0 && |names| == limit && After(names, n))
    {
      KeyPrefix(p, n);
      if Lists(out, Key(n)) {
        var i :| 0 <= i < |out| && out[i].0 == Key(n);
        KeyInjective(names[i], n);
      } else {
        AfterNames(m, names, out, n);
      }
    }
  }

  lemma AfterNames(m: Named, names: seq<Name>, out: seq<(Text, Text)>, n: Name)
    requires Entries(m, names, out) && AllBefore(out, Key(n)) && Valid(n)
    requires forall x :: x in m ==> Valid(x)
    ensures After(names, n)
  {
    hide Key, Valid, NameLe, LexLe;
    forall i | 0 <= i < |names|
      ensures NameLe(names[i], n)
    {
      assert LexLt(out[i].0, Key(n));
      KeyOrder(names[i], n);
    }
  }

  // ---------------------------------------------------------------------------------------
  // The store
  // ---------------------------------------------------------------------------------------

  method ApplyBatch(c: Contents, ops: seq<NamedOp>) returns (r: Contents)
    ensures r == ApplyAll(c, ToWriteOps(ops))
  {
    hide Key;
    r := c;
    assert ops[0..] == ops;
    for i := 0 to |ops|
      invariant ApplyAll(c, ToWriteOps(ops)) == ApplyAll(r, ToWriteOps(ops[i..]))
    {
      assert ops[i..][1..] == ops[i + 1..];
      assert ToWriteOps(ops[i..])[1..] == ToWriteOps(ops[i + 1..]);
      var k := NameToKey(ops[i].name);
      match ops[i]
      case Insert(_, wire) => r := r[k := wire];
      case Remove(_) => r := r - {k};
    }
  }

  class Store {
    var entries: Contents
    ghost var names: Named

    ghost predicate Sound()
      reads this
    {
      Represents(entries, names)
    }

    constructor ()
      ensures Sound() && names == map[]
    {
      entries := map[];
      names := map[];
    }

    method Get(n: Name) returns (r: Option<Text>)
      requires Sound() && Valid(n)
      ensures r == Lookup(names, n)
    {
      RepresentsLookup(entries, names, n);
      var k := NameToKey(n);
      r := if k in entries then Some(entries[k]) else None;
    }

    method Put(n: Name, wire: Text)
      requires Sound() && Valid(n)
      modifies this
      ensures Sound() && names == old(names)[n := wire]
    {
      RepresentsOp(entries, names, Insert(n, wire));
      var k := NameToKey(n);
      entries := entries[k := wire];
      names := names[n := wire];
    }

    method Delete(n: Name)
      requires Sound() && Valid(n)
      modifies this
      ensures Sound() && names == old(names) - {n}
    {
      RepresentsOp(entries, names, Remove(n));
      var k := NameToKey(n);
      entries := entries - {k};
      names := names - {n};
    }

    method WriteBatch(ops: seq<NamedOp>)
      requires Sound() && ValidOps(ops)
      modifies this
      ensures Sound() && names == ApplyNamed(old(names), ops)
    {
      hide Represents, Valid, ApplyAll, ApplyNamed;
      RepresentsBatch(entries, names, ops);
      entries := ApplyBatch(entries, ops);
      names := ApplyNamed(names, ops);
    }

    method ScanUnder(p: Name, limit: nat) returns (out: seq<(Text, Text)>)
      requires Sound() && Valid(p)
      ensures Listing(names, p, limit, out)
    {
      hide Scanned, Represents, ListsUnder, Entries;
      var k := NameToKey(p);
      out := ScanPrefix(entries, k, limit);
      ghost var listed := ScanListsNames(entries, names, p, limit, out);
    }

    /** The canonically smallest stored name under the prefix. */
    method FindUnder(p: Name) returns (r: Option<Text>)
      requires Sound() && Valid(p)
      ensures r == None <==> forall n :: n in names ==> !HasPrefix(n, p)
      ensures r.Some? ==> exists n :: IsSmallestUnder(names, p, n) && r.value == names[n]
    {
      hide NameLe, HasPrefix, Valid, Key, Represents;
      var out := ScanUnder(p, 1);
      ghost var listed :| Entries(names, listed, out) && ListsUnder(names, p, 1, listed);
      if out == [] {
        r := None;
      } else {
        r := Some(out[0].1);
        assert IsSmallestUnder(names, p, listed[0]) by {
          NameReflexive(listed[0]);
        }
      }
    }
  }

  ghost predicate IsSmallestUnder(m: Named, p: Name, n: Name) {
    n in m && HasPrefix(n, p) && forall x :: x in m && HasPrefix(x, p) ==> NameLe(n, x)
  }

  lemma {:induction false} NameReflexive(n: Name)
    ensures NameLe(n, n)
  {
    if n != [] {
      NameReflexive(n[1..]);
    }
  }
}
