/** Groups of writes against an ordered key-value store, and what they mean. */
module Backend {
  import opened ByteOrder

  type Contents = map<Text, Text>

  datatype WriteOp = Put(key: Text, value: Text) | Delete(key: Text)

  function ApplyOp(m: Contents, op: WriteOp): Contents {
    match op
    case Put(k, v) => m[k := v]
    case Delete(k) => m - {k}
  }

  function ApplyAll(m: Contents, ops: seq<WriteOp>): Contents
    decreases |ops|
  {
    if ops == [] then m else ApplyAll(ApplyOp(m, ops[0]), ops[1..])
  }

  lemma {:induction false} ApplyAllConcat(m: Contents, a: seq<WriteOp>, b: seq<WriteOp>)
    ensures ApplyAll(m, a + b) == ApplyAll(ApplyAll(m, a), b)
    decreases |a|
  {
    if a == [] {
      assert a + b == b;
    } else {
      ApplyAllConcat(ApplyOp(m, a[0]), a[1..], b);
      assert (a + b)[1..] == a[1..] + b;
    }
  }
}
