/** Lexicographic order on byte strings, and the ascending key order of an ordered map. */
module ByteOrder {
  import opened Bytes

  type Text = seq<byte>

  predicate LexLe(a: Text, b: Text) {
    if a == [] then true
    else if b == [] then false
    else a[0] < b[0] || (a[0] == b[0] && LexLe(a[1..], b[1..]))
  }

  predicate LexLt(a: Text, b: Text) {
    LexLe(a, b) && a != b
  }

  lemma {:induction false} LexTotal(a: Text, b: Text)
    ensures LexLe(a, b) || LexLe(b, a)
  {
    if a != [] && b != [] {
      LexTotal(a[1..], b[1..]);
    }
  }

  lemma {:induction false} LexAntisymmetric(a: Text, b: Text)
    requires LexLe(a, b) && LexLe(b, a)
    ensures a == b
  {
    if a != [] && b != [] {
      LexAntisymmetric(a[1..], b[1..]);
      assert a == [a[0]] + a[1..] && b == [b[0]] + b[1..];
    }
  }

  lemma {:induction false} LexTransitive(a: Text, b: Text, c: Text)
    requires LexLe(a, b) && LexLe(b, c)
    ensures LexLe(a, c)
  {
    if a != [] && b != [] && c != [] && a[0] == b[0] == c[0] {
      LexTransitive(a[1..], b[1..], c[1..]);
    }
  }

  lemma {:induction false} LexReflexive(a: Text)
    ensures LexLe(a, a)
  {
    if a != [] {
      LexReflexive(a[1..]);
    }
  }

  predicate IsLeast(k: Text, s: set<Text>) {
    k in s && forall x :: x in s ==> LexLe(k, x)
  }

  lemma {:induction false} LeastExists(s: set<Text>)
    requires s != {}
    ensures exists k :: IsLeast(k, s)
    decreases |s|
  {
    var x :| x in s;
    LexReflexive(x);
    if s == {x} {
      assert IsLeast(x, s);
    } else {
      var rest := s - {x};
      LeastExists(rest);
      var k :| IsLeast(k, rest);
      LexTotal(k, x);
      var least := if LexLe(k, x) then k else x;
      forall y | y in s
        ensures LexLe(least, y)
      {
        if y != x && !LexLe(k, x) {
          LexTransitive(x, k, y);
        }
      }
      assert IsLeast(least, s);
    }
  }

  function Least(s: set<Text>): (k: Text)
    requires s != {}
    ensures IsLeast(k, s)
  {
    LeastExists(s);
    assert forall k, k' :: IsLeast(k, s) && IsLeast(k', s) ==> k == k' by {
      forall k, k' | IsLeast(k, s) && IsLeast(k', s)
        ensures k == k'
      {
        LexAntisymmetric(k, k');
      }
    }
    var k :| IsLeast(k, s);
    k
  }

  predicate Ascending(keys: seq<Text>) {
    forall i, j :: 0 <= i < j < |keys| ==> LexLt(keys[i], keys[j])
  }

  /** The keys of an ordered map in the order its iterator yields them. */
  function SortedKeys(s: set<Text>): (keys: seq<Text>)
    ensures forall k :: k in keys <==> k in s
    ensures Ascending(keys)
    decreases |s|
  {
    if s == {} then []
    else
      var k := Least(s);
      var rest := SortedKeys(s - {k});
      assert forall i :: 0 <= i < |rest| ==> rest[i] in rest;
      [k] + rest
  }
}
