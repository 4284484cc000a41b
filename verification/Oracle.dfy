/**
 The reference MVCC engine: per key an ascending list of versions, kept in a vector sorted by key.
 Every read is proved equal to the same read on the fold of the first `at` commits.
 */
module Oracle {
  import opened Options
  import opened Codec
  import opened OpLog

  datatype Version = Version(seqNo: nat, value: Value, tombstone: bool)
  datatype KeyVersions = KeyVersions(key: Key, versions: seq<Version>)
  datatype Range = Range(lo: Key, hi: Key, hiUnbounded: bool)

  predicate InRange(k: Key, r: Range) {
    !Less(k, r.lo) && (r.hiUnbounded || Less(k, r.hi))
  }

  function Restrict(m: Live, r: Range): Live {
    map k | k in m && InRange(k, r) :: m[k]
  }

  /** A range has its lower end and not its upper one, and everything strictly between. */
  lemma RangeIsHalfOpen(k: Key, r: Range)
    ensures InRange(k, r) <==> (k == r.lo || Less(r.lo, k)) && (r.hiUnbounded || Less(k, r.hi))
    ensures !r.hiUnbounded ==> !InRange(r.hi, r)
    ensures r.hiUnbounded || Less(r.lo, r.hi) ==> InRange(r.lo, r)
  {
    LessTotal(k, r.lo);
    if Less(r.lo, k) { LessAsymmetric(r.lo, k); }
    LessIrreflexive(r.lo);
    LessIrreflexive(r.hi);
  }

  function VersionOf(op: Op, seqNo: nat): Version {
    if op.Put? then Version(seqNo, op.value, false) else Version(seqNo, [], true)
  }

  /** The versions of a key that a commit history leaves behind, with their Seqs. */
  function VersionsOf(log: seq<Op>, k: Key): seq<Version> {
    if log == [] then []
    else
      var n := |log|;
      VersionsOf(log[..n - 1], k) + if log[n - 1].key == k then [VersionOf(log[n - 1], n)] else []
  }

  ghost predicate KeysAscending(keys: seq<KeyVersions>) {
    forall i, j :: 0 <= i < j < |keys| ==> Less(keys[i].key, keys[j].key)
  }

  ghost predicate HasKey(keys: seq<KeyVersions>, k: Key) {
    exists i :: 0 <= i < |keys| && keys[i].key == k
  }

  /** The vector holds exactly the versions of the history. */
  ghost predicate Represents(keys: seq<KeyVersions>, log: seq<Op>) {
    && KeysAscending(keys)
    && (forall i :: 0 <= i < |keys| ==> keys[i].versions == VersionsOf(log, keys[i].key))
    && (forall j :: 0 <= j < |log| ==> HasKey(keys, log[j].key))
  }

  lemma {:induction false} NoVersions(log: seq<Op>, k: Key)
    requires forall j :: 0 <= j < |log| ==> log[j].key != k
    ensures VersionsOf(log, k) == [] && EffectOn(log, k) == Untouched
    decreases |log|
  {
    if log != [] { NoVersions(log[..|log| - 1], k); }
  }

  lemma {:induction false} LiveWasWritten(log: seq<Op>, k: Key)
    requires k in Fold(log)
    ensures exists j :: 0 <= j < |log| && log[j].key == k
    decreases |log|
  {
    if log[|log| - 1].key != k { LiveWasWritten(log[..|log| - 1], k); }
  }

  /** The newest version up to `at`, wherever the ascending scan stops, decides the read. */
  lemma {:induction false} NewestVisible(log: seq<Op>, k: Key, at: nat, i: nat)
    requires var vs := VersionsOf(log, k);
      && i <= |vs|
      && (forall j :: 0 <= j < i ==> vs[j].seqNo <= at)
      && (i < |vs| ==> at < vs[i].seqNo)
    ensures Get(AsOf(log, at), k) ==
            var vs := VersionsOf(log, k); if i == 0 || vs[i - 1].tombstone then None else Some(vs[i - 1].value)
    decreases |log|
  {
    var n := |log|;
    if at < n {
      var before := log[..n - 1];
      var vs, vs' := VersionsOf(log, k), VersionsOf(before, k);
      assert log[..at] == before[..at];
      if log[n - 1].key == k { assert vs[|vs'|].seqNo == n; }
      assert i <= |vs'| && forall j :: 0 <= j < |vs'| ==> vs[j] == vs'[j];
      NewestVisible(before, k, at, i);
    } else {
      VersionsWithin(log, k);
      hide VersionsOf;
      assert log[..n] == log;
      LastVersion(log, k);
    }
  }

  /** The last version of a key is what the whole log makes of it. */
  lemma {:induction false} LastVersion(log: seq<Op>, k: Key)
    ensures var vs := VersionsOf(log, k);
            Get(Fold(log), k) == if vs == [] || vs[|vs| - 1].tombstone then None else Some(vs[|vs| - 1].value)
    decreases |log|
  {
    if log != [] { LastVersion(log[..|log| - 1], k); }
  }

  lemma {:induction false} VersionsWithin(log: seq<Op>, k: Key)
    ensures forall j :: 0 <= j < |VersionsOf(log, k)| ==> 1 <= VersionsOf(log, k)[j].seqNo <= |log|
    decreases |log|
  {
    if log != [] { VersionsWithin(log[..|log| - 1], k); }
  }

  /** Older snapshots never change: reads below the tip ignore what is committed later. */
  lemma LaterCommitsInvisible(log: seq<Op>, more: seq<Op>, at: nat)
    requires at <= |log|
    ensures AsOf(log + more, at) == AsOf(log, at)
  {
    assert (log + more)[..at] == log[..at];
  }

  // ---- one commit --------------------------------------------------------------------------

  /** `pos` is where `k` is or belongs in the sorted vector. */
  ghost predicate SlotFor(keys: seq<KeyVersions>, k: Key, pos: nat) {
    && pos <= |keys|
    && (forall i :: 0 <= i < pos ==> Less(keys[i].key, k))
    && (pos < |keys| ==> !Less(keys[pos].key, k))
  }

  function Inserted(keys: seq<KeyVersions>, k: Key, pos: nat): seq<KeyVersions>
    requires pos <= |keys|
  {
    if pos < |keys| && keys[pos].key == k then keys
    else keys[..pos] + [KeyVersions(k, [])] + keys[pos..]
  }

  /** Away from its slot a new key is strictly between its neighbours. */
  lemma SlotOrder(keys: seq<KeyVersions>, k: Key, pos: nat, i: nat)
    requires KeysAscending(keys) && SlotFor(keys, k, pos) && i < |keys|
    requires pos < |keys| ==> keys[pos].key != k
    ensures keys[i].key != k
    ensures i >= pos ==> Less(k, keys[i].key)
  {
    if i < pos {
      LessAsymmetric(keys[i].key, k);
    } else {
      LessTotal(k, keys[pos].key);
      if i > pos {
        LessTransitive(k, keys[pos].key, keys[i].key);
      }
      LessAsymmetric(k, keys[i].key);
    }
  }

  lemma InsertedAscending(keys: seq<KeyVersions>, k: Key, pos: nat)
    requires KeysAscending(keys) && SlotFor(keys, k, pos) && !(pos < |keys| && keys[pos].key == k)
    ensures KeysAscending(Inserted(keys, k, pos)) && !HasKey(keys, k)
  {
    forall i | 0 <= i < |keys| ensures keys[i].key != k && (i >= pos ==> Less(k, keys[i].key)) {
      SlotOrder(keys, k, pos, i);
    }
  }

  lemma InsertedRepresents(keys: seq<KeyVersions>, log: seq<Op>, k: Key, pos: nat)
    requires Represents(keys, log) && SlotFor(keys, k, pos)
    ensures var keys' := Inserted(keys, k, pos);
            Represents(keys', log) && pos < |keys'| && keys'[pos].key == k
  {
    var keys' := Inserted(keys, k, pos);
    if !(pos < |keys| && keys[pos].key == k) {
      InsertedAscending(keys, k, pos);
      NoVersions(log, k);
      forall j | 0 <= j < |log| ensures HasKey(keys', log[j].key) {
        var i :| 0 <= i < |keys| && keys[i].key == log[j].key;
        assert keys'[if i < pos then i else i + 1].key == log[j].key;
      }
    }
  }

  lemma AppendRepresents(keys: seq<KeyVersions>, log: seq<Op>, op: Op, pos: nat)
    requires Represents(keys, log) && pos < |keys| && keys[pos].key == op.key
    ensures var v := VersionOf(op, |log| + 1);
            Represents(keys[pos := keys[pos].(versions := keys[pos].versions + [v])], log + [op])
  {
    var log' := log + [op];
    var keys' := keys[pos := keys[pos].(versions := keys[pos].versions + [VersionOf(op, |log| + 1)])];
    assert log'[..|log|] == log;
    forall i | 0 <= i < |keys'| ensures keys'[i].versions == VersionsOf(log', keys'[i].key) {
      if i < pos { LessAsymmetric(keys[i].key, keys[pos].key); }
      if i > pos { LessAsymmetric(keys[pos].key, keys[i].key); }
    }
    forall j | 0 <= j < |log'| ensures HasKey(keys', log'[j].key) {
      var i :| 0 <= i < |keys| && keys[i].key == log'[j].key;
      assert keys'[i].key == log'[j].key;
    }
  }

  class Engine {
    var keys: seq<KeyVersions>
    var lastSeq: nat
    ghost var log: seq<Op>

    ghost predicate Valid()
      reads this
    {
      lastSeq == |log| && Represents(keys, log)
    }

    constructor ()
      ensures Valid() && log == []
    {
      keys, lastSeq, log := [], 0, [];
    }

    /** `versions_for`: find the key's slot, creating it in sorted position. */
    method VersionsFor(k: Key) returns (pos: nat)
      requires Represents(keys, log)
      modifies this`keys
      ensures Represents(keys, log)
      ensures pos < |keys| && keys[pos].key == k
    {
      pos := 0;
      while pos < |keys| && Less(keys[pos].key, k)
        invariant pos <= |keys|
        invariant forall i :: 0 <= i < pos ==> Less(keys[i].key, k)
      {
        pos := pos + 1;
      }
      InsertedRepresents(keys, log, k, pos);
      if !(pos < |keys| && keys[pos].key == k) {
        keys := keys[..pos] + [KeyVersions(k, [])] + keys[pos..];
      }
    }

    /** `commit`, behind `put` and `del`: Seqs are handed out 1, 2, 3, ... with no gap or reuse. */
    method Commit(op: Op) returns (seqNo: nat)
      requires Valid()
      modifies this
      ensures Valid() && log == old(log) + [op]
      ensures seqNo == old(|log|) + 1
      ensures forall at: nat :: at < seqNo ==> AsOf(log, at) == AsOf(old(log), at)
    {
      forall at: nat | at <= |log| ensures AsOf(log + [op], at) == AsOf(log, at) {
        LaterCommitsInvisible(log, [op], at);
      }
      lastSeq := lastSeq + 1;
      seqNo := lastSeq;
      var pos := VersionsFor(op.key);
      AppendRepresents(keys, log, op, pos);
      keys := keys[pos := keys[pos].(versions := keys[pos].versions + [VersionOf(op, seqNo)])];
      log := log + [op];
    }

    /** The MVCC read equals the key's value in the fold of the first `at` commits. */
    method Lookup(k: Key, at: nat) returns (r: Option<Value>)
      requires Valid()
      ensures r == Get(AsOf(log, at), k)
    {
      var found := 0;
      while found < |keys| && keys[found].key != k
        invariant found <= |keys|
        invariant forall i :: 0 <= i < found ==> keys[i].key != k
      {
        found := found + 1;
      }
      if found == |keys| {
        assert !HasKey(keys, k);
        NoVersions(log, k);
        NewestVisible(log, k, at, 0);
        return None;
      }
      var versions := keys[found].versions;
      var i := 0;
      while i < |versions| && versions[i].seqNo <= at
        invariant i <= |versions|
        invariant forall j :: 0 <= j < i ==> versions[j].seqNo <= at
      {
        i := i + 1;
      }
      NewestVisible(log, k, at, i);
      r := if i == 0 || versions[i - 1].tombstone then None else Some(versions[i - 1].value);
    }

    /** The range read lists exactly the fold restricted to the range, in ascending key order. */
    method Scan(range: Range, at: nat) returns (rows: seq<Row>)
      requires Valid()
      ensures Lists(rows, Restrict(AsOf(log, at), range))
    {
      rows := [];
      ghost var m := Restrict(AsOf(log, at), range);
      for i := 0 to |keys|
        invariant ScannedTo(rows, m, keys, i)
      {
        var k := keys[i].key;
        if !Less(k, range.lo) && (range.hiUnbounded || Less(k, range.hi)) {
          var v := Lookup(k, at);
          if v.Some? {
            ScanEmits(rows, m, keys, i, v.value);
            rows := rows + [(k, v.value)];
          } else {
            ScanSkips(rows, m, keys, i);
          }
        } else {
          ScanSkips(rows, m, keys, i);
        }
      }
      ScanComplete(rows, m, keys, log, at, range);
    }
  }

  // ---- the scan loop -----------------------------------------------------------------------

  /** After the first `n` keys: the rows so far are those of `m` among them. */
  ghost predicate ScannedTo(rows: seq<Row>, m: Live, keys: seq<KeyVersions>, n: nat) {
    && n <= |keys|
    && Ascending(rows)
    && (forall i :: 0 <= i < |rows| ==> rows[i].0 in m && m[rows[i].0] == rows[i].1)
    && (forall i, j :: 0 <= i < |rows| && n <= j < |keys| ==> Less(rows[i].0, keys[j].key))
    && (forall j :: 0 <= j < n && keys[j].key in m ==> (keys[j].key, m[keys[j].key]) in rows)
  }

  lemma ScanEmits(rows: seq<Row>, m: Live, keys: seq<KeyVersions>, n: nat, v: Value)
    requires KeysAscending(keys) && n < |keys| && ScannedTo(rows, m, keys, n)
    requires keys[n].key in m && m[keys[n].key] == v
    ensures ScannedTo(rows + [(keys[n].key, v)], m, keys, n + 1)
  {
    var rows' := rows + [(keys[n].key, v)];
    assert rows'[|rows|] == (keys[n].key, v);
    forall j | 0 <= j < n + 1 && keys[j].key in m ensures (keys[j].key, m[keys[j].key]) in rows' {
      if j < n { assert (keys[j].key, m[keys[j].key]) in rows; }
    }
  }

  lemma ScanSkips(rows: seq<Row>, m: Live, keys: seq<KeyVersions>, n: nat)
    requires n < |keys| && ScannedTo(rows, m, keys, n) && keys[n].key !in m
    ensures ScannedTo(rows, m, keys, n + 1)
  {}

  lemma ScanComplete(rows: seq<Row>, m: Live, keys: seq<KeyVersions>, log: seq<Op>, at: nat, range: Range)
    requires Represents(keys, log) && ScannedTo(rows, m, keys, |keys|) && m == Restrict(AsOf(log, at), range)
    ensures Lists(rows, m)
  {
    forall k | k in m ensures (k, m[k]) in rows {
      var seen := log[..if at <= |log| then at else |log|];
      LiveWasWritten(seen, k);
      var j :| 0 <= j < |seen| && seen[j].key == k;
      assert log[j].key == k && HasKey(keys, log[j].key);
      var i :| 0 <= i < |keys| && keys[i].key == k;
    }
  }
}
