/**
 The spine of the storage model: a committed history is a list of put/del operations, and the state
 as of Seq n is the fold of the first n of them into a map.
 */
module OpLog {
  import opened Options
  import opened Codec

  type Key = Bytes
  type Value = Bytes
  type Live = map<Key, Value>

  datatype Op = Put(key: Key, value: Value) | Del(key: Key)

  function Apply(m: Live, op: Op): Live {
    match op
    case Put(k, v) => m[k := v]
    case Del(k) => m - {k}
  }

  /** The live keys after the operations, oldest first. */
  function Fold(ops: seq<Op>): Live {
    if ops == [] then map[] else Apply(Fold(ops[..|ops| - 1]), ops[|ops| - 1])
  }

  /** The state as of snapshot Seq `at`: later commits are not visible. */
  function AsOf(ops: seq<Op>, at: nat): Live {
    Fold(ops[..if at <= |ops| then at else |ops|])
  }

  function Get(m: Live, k: Key): Option<Value> {
    if k in m then Some(m[k]) else None
  }

  /** What an operation sequence does to one key. */
  datatype Effect = Untouched | Now(value: Option<Value>)

  function EffectOn(ops: seq<Op>, k: Key): Effect {
    if ops == [] then Untouched
    else
      var op := ops[|ops| - 1];
      if op.key == k then (if op.Put? then Now(Some(op.value)) else Now(None))
      else EffectOn(ops[..|ops| - 1], k)
  }

  /** Folding more operations on top: the last writer of a key decides. */
  lemma {:induction false} FoldConcat(a: seq<Op>, b: seq<Op>, k: Key)
    ensures Get(Fold(a + b), k) == match EffectOn(b, k) case Now(v) => v case Untouched => Get(Fold(a), k)
    decreases |b|
  {
    if b == [] {
      assert a + b == a;
    } else {
      var b' := b[..|b| - 1];
      assert (a + b)[..|a + b| - 1] == a + b';
      FoldConcat(a, b', k);
    }
  }

  lemma FoldEffect(ops: seq<Op>, k: Key)
    ensures Get(Fold(ops), k) == match EffectOn(ops, k) case Now(v) => v case Untouched => None
  {
    assert [] + ops == ops;
    FoldConcat([], ops, k);
  }

  lemma {:induction false} EffectConcat(a: seq<Op>, b: seq<Op>, k: Key)
    ensures EffectOn(a + b, k) == match EffectOn(b, k) case Now(v) => Now(v) case Untouched => EffectOn(a, k)
    decreases |b|
  {
    if b == [] {
      assert a + b == a;
    } else {
      assert (a + b)[..|a + b| - 1] == a + b[..|b| - 1];
      EffectConcat(a, b[..|b| - 1], k);
    }
  }

  /** Two maps with the same answer for every key are the same map. */
  lemma SameGets(m: Live, n: Live)
    requires forall k: Key :: Get(m, k) == Get(n, k)
    ensures m == n
  {
    forall k: Key ensures (k in m <==> k in n) && (k in m ==> m[k] == n[k]) {
      assert Get(m, k) == Get(n, k);
    }
  }

  // ---- rows in key order -------------------------------------------------------------------

  type Row = (Key, Value)

  ghost predicate Ascending(rows: seq<Row>) {
    forall i, j :: 0 <= i < j < |rows| ==> Less(rows[i].0, rows[j].0)
  }

  /** `rows` lists exactly the pairs of `m`, in ascending key order. */
  ghost predicate Lists(rows: seq<Row>, m: Live) {
    && Ascending(rows)
    && (forall i :: 0 <= i < |rows| ==> rows[i].0 in m && m[rows[i].0] == rows[i].1)
    && (forall k :: k in m ==> (k, m[k]) in rows)
  }

  /** Ascending rows are determined by the map they list, and the other way round. */
  lemma {:induction false} ListsUnique(a: seq<Row>, b: seq<Row>, m: Live)
    requires Lists(a, m) && Lists(b, m)
    ensures a == b
    decreases |a|
  {
    if a != [] {
      assert (a[0].0, m[a[0].0]) in b;
      assert b != [];
      HeadsAgree(a, b, m);
      var m' := m - {a[0].0};
      DropHead(a, m);
      DropHead(b, m);
      ListsUnique(a[1..], b[1..], m');
      assert a == [a[0]] + a[1..] && b == [b[0]] + b[1..];
    }
  }

  lemma HeadsAgree(a: seq<Row>, b: seq<Row>, m: Live)
    requires Lists(a, m) && Lists(b, m) && a != [] && b != []
    ensures a[0] == b[0]
  {
    assert (a[0].0, m[a[0].0]) in b && (b[0].0, m[b[0].0]) in a;
    var i :| 0 <= i < |b| && b[i] == a[0];
    var j :| 0 <= j < |a| && a[j] == b[0];
    if i > 0 && j > 0 { LessAsymmetric(a[0].0, b[0].0); }
  }

  lemma DropHead(a: seq<Row>, m: Live)
    requires Lists(a, m) && a != []
    ensures Lists(a[1..], m - {a[0].0})
  {
    var m' := m - {a[0].0};
    forall i | 0 <= i < |a[1..]| ensures a[1..][i].0 in m' {
      assert a[1..][i] == a[i + 1];
      LessAsymmetric(a[0].0, a[i + 1].0);
    }
    forall k | k in m' ensures (k, m'[k]) in a[1..] {
      assert (k, m[k]) in a;
      var i :| 0 <= i < |a| && a[i] == (k, m[k]);
      assert a[1..][i - 1] == (k, m'[k]);
    }
  }

  lemma ListsSameMap(a: seq<Row>, m: Live, n: Live)
    requires Lists(a, m) && Lists(a, n)
    ensures m == n
  {
    forall k: Key ensures Get(m, k) == Get(n, k) {
      if k in m { assert (k, m[k]) in a; }
      if k in n { assert (k, n[k]) in a; }
    }
    SameGets(m, n);
  }
}
