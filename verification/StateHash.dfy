/**
 The cross-replica corruption check: committed values carry keyed operations, every replica applies
 its committed prefix to a scratch engine and compares fingerprints of the resulting keyspaces.
 */
module StateHash {
  import opened Options
  import opened Codec
  import opened OpLog
  import opened Oracle
  import Crc32
  import Backup

  // ---- the keyed-op encoding ---------------------------------------------------------------

  function EncodeOp(op: Op): Bytes {
    match op
    case Put(k, v) => [0] + Le(|k|, 4) + k + v
    case Del(k) => [1] + Le(|k|, 4) + k
  }

  function DecodeOp(s: Bytes): Option<Op> {
    if |s| < 5 || s[0] > 1 then None
    else
      var klen := GetU32(s, 1);
      if 5 + klen > |s| then None
      else
        var key, value := s[5..5 + klen], s[5 + klen..];
        if s[0] == 1 then (if value == [] then Some(Del(key)) else None) else Some(Put(key, value))
  }

  lemma OpRoundTrip(op: Op)
    requires |op.key| < U32
    ensures DecodeOp(EncodeOp(op)) == Some(op)
    ensures EncodeOp(op)[0] == (if op.Put? then 0 else 1) && EncodeOp(op)[1..5] == Le(|op.key|, 4)
  {
    hide Le, Val;
    var s := EncodeOp(op);
    OpParts(if op.Put? then [0] else [1], Le(|op.key|, 4), op.key, if op.Put? then op.value else []);
    assert op.Del? ==> s + [] == s;
    ReadU32(s, 1, |op.key|);
  }

  lemma OpParts(kind: Bytes, len: Bytes, key: Bytes, value: Bytes)
    requires |kind| == 1 && |len| == 4
    ensures var s := kind + len + key + value;
            s[..1] == kind && s[1..5] == len && s[5..5 + |key|] == key && s[5 + |key|..] == value
  {}

  /** No two committed values decode to the same operation. */
  lemma OpBytesRoundTrip(s: Bytes)
    requires DecodeOp(s).Some?
    ensures EncodeOp(DecodeOp(s).value) == s
  {
    hide Le, Val;
    var klen := GetU32(s, 1);
    LeOfVal(s[1..5]);
    OpJoined(s, klen);
  }

  lemma OpJoined(s: Bytes, klen: nat)
    requires 5 + klen <= |s|
    ensures [s[0]] + s[1..5] + s[5..5 + klen] + s[5 + klen..] == s
    ensures s[5 + klen..] == [] ==> [s[0]] + s[1..5] + s[5..5 + klen] == s
  {}

  /** What a committed value does: its keyed operation, or a self-keyed insert of opaque bytes. */
  function Meaning(raw: Bytes): Op {
    match DecodeOp(raw) case Some(op) => op case None => Put(raw, raw)
  }

  function Meanings(raws: seq<Bytes>): (ops: seq<Op>)
    ensures |ops| == |raws| && forall i :: 0 <= i < |raws| ==> ops[i] == Meaning(raws[i])
  {
    seq(|raws|, i requires 0 <= i < |raws| => Meaning(raws[i]))
  }

  function Prefix(committed: seq<Bytes>, upto: nat): seq<Bytes> {
    committed[..if upto <= |committed| then upto else |committed|]
  }

  /** The keyspace a committed prefix stands for. */
  function Keyspace(committed: seq<Bytes>, upto: nat): Live {
    Fold(Meanings(Prefix(committed, upto)))
  }

  /** The keyspace of a longer prefix is the next committed value applied to the shorter one, and a prefix
      longer than the log is the whole log. */
  lemma KeyspaceReplays(committed: seq<Bytes>, upto: nat, k: Key)
    ensures Keyspace(committed, 0) == map[]
    ensures upto >= |committed| ==> Keyspace(committed, upto) == Keyspace(committed, |committed|)
    ensures upto < |committed| ==>
              var op := Meaning(committed[upto]);
              Get(Keyspace(committed, upto + 1), k) ==
              if op.key != k then Get(Keyspace(committed, upto), k) else if op.Put? then Some(op.value) else None
  {
    hide Meaning;
    if upto < |committed| {
      var ops, op := Meanings(committed[..upto]), Meaning(committed[upto]);
      assert Meanings(committed[..upto + 1]) == ops + [op];
      FoldConcat(ops, [op], k);
    }
  }

  /** The values that stand for themselves are exactly those that no operation encodes to. */
  lemma OpaqueExactly(raw: Bytes)
    ensures DecodeOp(raw) == None <==> forall op: Op :: |op.key| < U32 ==> EncodeOp(op) != raw
    ensures DecodeOp(raw) == None ==> Meaning(raw) == Put(raw, raw)
  {
    hide EncodeOp, Le, Val;
    if DecodeOp(raw).Some? {
      OpBytesRoundTrip(raw);
      Widths();
      KeyFits(raw);
    }
    forall op: Op | |op.key| < U32 && EncodeOp(op) == raw ensures DecodeOp(raw) != None {
      OpRoundTrip(op);
    }
  }

  lemma KeyFits(raw: Bytes)
    requires DecodeOp(raw).Some?
    ensures |DecodeOp(raw).value.key| < U32
  {}

  /** `hashcheck_apply`: run a committed prefix through an engine. */
  method ApplyPrefix(en: Engine, committed: seq<Bytes>, upto: nat)
    requires en.Valid()
    modifies en
    ensures en.Valid() && en.log == old(en.log) + Meanings(Prefix(committed, upto))
  {
    hide Represents, Meaning;
    var j := 0;
    while j < upto && j < |committed|
      invariant j <= |Prefix(committed, upto)|
      invariant en.Valid() && en.log == old(en.log) + Meanings(committed[..j])
    {
      var _ := en.Commit(Meaning(committed[j]));
      assert Meanings(committed[..j + 1]) == Meanings(committed[..j]) + [Meaning(committed[j])];
      j := j + 1;
    }
  }

  // ---- fingerprints ------------------------------------------------------------------------

  datatype KeyspaceHash = KeyspaceHash(crc: nat, at: nat, payloadLen: nat)
  datatype ReplicaHash = ReplicaHash(node: Bytes, hash: KeyspaceHash)

  datatype Divergence = Divergence(other: nat, refNode: Bytes, otherNode: Bytes, refCrc: nat, otherCrc: nat, at: nat)

  /** The fingerprint of listed rows; nothing but the rows enters, except the label `at`. The length is what
      its 64-bit field holds. */
  function HashOf(rows: seq<Row>, at: nat): KeyspaceHash {
    KeyspaceHash(Crc32.Crc(Backup.Payload(rows)), at, Val(Le(|Backup.Payload(rows)|, 8)))
  }

  /** `keyspace_hash` reads the checksum and length out of a backup image. */
  method Hash(e: Engine, at: nat) returns (h: KeyspaceHash, rows: seq<Row>)
    requires e.Valid()
    ensures Lists(rows, AsOf(e.log, at)) && h == HashOf(rows, at)
  {
    var image;
    image, rows := Backup.BuildImage(e, at);
    hide Represents, Lists, Backup.Payload, Backup.Header, Le, Val, Crc32.Crc;
    Backup.HeaderParts(at, Backup.Payload(rows), Backup.Payload(rows));
    Crc32.CrcInRange(Backup.Payload(rows));
    ReadU32(image, 24, Crc32.Crc(Backup.Payload(rows)));
    h := KeyspaceHash(GetU32(image, 24), at, GetU64(image, 16));
  }

  /** `find_hash_divergence`: the first replica that differs from replica 0, if any. */
  method FindDivergence(replicas: seq<ReplicaHash>) returns (d: Option<Divergence>)
    ensures d == None <==> forall i :: 0 <= i < |replicas| ==>
              replicas[i].hash.crc == replicas[0].hash.crc && replicas[i].hash.payloadLen == replicas[0].hash.payloadLen
    ensures d.Some? ==>
      var (r, o) := (replicas[0], d.value.other);
      && 0 < o < |replicas|
      && d.value == Divergence(o, r.node, replicas[o].node, r.hash.crc, replicas[o].hash.crc, r.hash.at)
      && (replicas[o].hash.crc != r.hash.crc || replicas[o].hash.payloadLen != r.hash.payloadLen)
      && forall i :: 0 <= i < o ==>
           replicas[i].hash.crc == r.hash.crc && replicas[i].hash.payloadLen == r.hash.payloadLen
  {
    if |replicas| < 2 { return None; }
    var ref := replicas[0];
    for i := 1 to |replicas|
      invariant forall j :: 0 <= j < i ==>
        replicas[j].hash.crc == ref.hash.crc && replicas[j].hash.payloadLen == ref.hash.payloadLen
    {
      var o := replicas[i];
      if o.hash.crc != ref.hash.crc || o.hash.payloadLen != ref.hash.payloadLen {
        return Some(Divergence(i, ref.node, o.node, ref.hash.crc, o.hash.crc, ref.hash.at));
      }
    }
    d := None;
  }

  /** Materialise a committed prefix in a scratch engine and fingerprint it. */
  method HashCommittedPrefix(committed: seq<Bytes>, upto: nat) returns (h: KeyspaceHash, rows: seq<Row>)
    ensures Lists(rows, Keyspace(committed, upto)) && h == HashOf(rows, |Prefix(committed, upto)|)
  {
    hide Represents, Lists, Meanings, Fold;
    var e := new Engine();
    ApplyPrefix(e, committed, upto);
    assert [] + Meanings(Prefix(committed, upto)) == Meanings(Prefix(committed, upto));
    assert e.log[..|e.log|] == e.log;
    h, rows := Hash(e, e.lastSeq);
  }

  /** No false alarm: replicas whose committed logs agree on the compared prefix have fingerprints with
      the same checksum and length, whatever their local engines, Seqs and snapshots. */
  lemma AgreeingLogsHashAlike(a: seq<Bytes>, b: seq<Bytes>, upto: nat, ra: seq<Row>, rb: seq<Row>, atA: nat, atB: nat)
    requires Prefix(a, upto) == Prefix(b, upto)
    requires Lists(ra, Keyspace(a, upto)) && Lists(rb, Keyspace(b, upto))
    ensures HashOf(ra, atA).crc == HashOf(rb, atB).crc && HashOf(ra, atA).payloadLen == HashOf(rb, atB).payloadLen
  {
    SameRowsHashAlike(ra, rb, Keyspace(a, upto), atA, atB);
  }

  /** The payloads of two committed prefixes have the same checksum and the same 64-bit length. */
  ghost predicate HashAlike(a: seq<Bytes>, b: seq<Bytes>, upto: nat) {
    forall ra: seq<Row>, rb: seq<Row> :: Lists(ra, Keyspace(a, upto)) && Lists(rb, Keyspace(b, upto)) ==>
      && Crc32.Crc(Backup.Payload(ra)) == Crc32.Crc(Backup.Payload(rb))
      && |Backup.Payload(ra)| % U64 == |Backup.Payload(rb)| % U64
  }

  /** One listing of each side decides. */
  lemma HashAlikeBy(a: seq<Bytes>, b: seq<Bytes>, upto: nat, ra: seq<Row>, rb: seq<Row>, atA: nat, atB: nat)
    requires Lists(ra, Keyspace(a, upto)) && Lists(rb, Keyspace(b, upto))
    ensures HashAlike(a, b, upto) <==>
            HashOf(rb, atB).crc == HashOf(ra, atA).crc && HashOf(rb, atB).payloadLen == HashOf(ra, atA).payloadLen
  {
    hide Lists, Keyspace, Crc32.Crc, Backup.Payload, Le, Val;
    ValOfLeTruncates(|Backup.Payload(ra)|, 8);
    ValOfLeTruncates(|Backup.Payload(rb)|, 8);
    Widths();
    forall xa: seq<Row>, xb: seq<Row> | Lists(xa, Keyspace(a, upto)) && Lists(xb, Keyspace(b, upto))
      ensures xa == ra && xb == rb
    {
      ListsUnique(xa, ra, Keyspace(a, upto));
      ListsUnique(xb, rb, Keyspace(b, upto));
    }
  }

  /** Keyspaces whose payloads differ within four consecutive bytes never hash alike. */
  lemma DamageIsSeen(a: seq<Bytes>, b: seq<Bytes>, upto: nat, ra: seq<Row>, rb: seq<Row>,
                     p: Bytes, u: Bytes, v: Bytes, q: Bytes)
    requires Lists(ra, Keyspace(a, upto)) && Lists(rb, Keyspace(b, upto))
    requires Backup.Payload(ra) == p + u + q && Backup.Payload(rb) == p + v + q && |u| == |v| <= 4 && u != v
    ensures !HashAlike(a, b, upto)
  {
    hide Lists, Keyspace, Crc32.Crc, Backup.Payload;
    Crc32.BurstDetected(p, u, v, q);
  }

  /** Fingerprint the same committed prefix of every replica and compare: silence means that every payload
      has the checksum and length of replica 0's, and an alarm names the first replica that has not, whose
      keyspace then differs. Replicas whose committed logs agree on the prefix raise none. */
  method CompareReplicas(names: seq<Bytes>, logs: seq<seq<Bytes>>, upto: nat) returns (d: Option<Divergence>)
    requires |names| == |logs|
    ensures d == None <==> forall i :: 0 <= i < |logs| ==> HashAlike(logs[0], logs[i], upto)
    ensures d.Some? ==>
              var o := d.value.other;
              && 0 < o < |logs| && Keyspace(logs[0], upto) != Keyspace(logs[o], upto)
              && !HashAlike(logs[0], logs[o], upto)
              && (forall i :: 0 <= i < o ==> HashAlike(logs[0], logs[i], upto))
              && d.value.refNode == names[0] && d.value.otherNode == names[o] && d.value.at == |Prefix(logs[0], upto)|
    ensures (forall i :: 0 <= i < |logs| ==> Prefix(logs[i], upto) == Prefix(logs[0], upto)) ==> d == None
  {
    hide Lists, HashOf, Keyspace, HashAlike, Prefix;
    var hashes: seq<ReplicaHash> := [];
    ghost var rows: seq<seq<Row>> := [];
    for i := 0 to |logs|
      invariant |hashes| == |rows| == i
      invariant forall j :: 0 <= j < i ==>
        && Lists(rows[j], Keyspace(logs[j], upto)) && hashes[j].hash == HashOf(rows[j], |Prefix(logs[j], upto)|)
        && hashes[j].node == names[j]
    {
      var h, r := HashCommittedPrefix(logs[i], upto);
      hashes := hashes + [ReplicaHash(names[i], h)];
      rows := rows + [r];
    }
    d := FindDivergence(hashes);
    forall i | 0 <= i < |logs|
      ensures HashAlike(logs[0], logs[i], upto) <==>
              hashes[i].hash.crc == hashes[0].hash.crc && hashes[i].hash.payloadLen == hashes[0].hash.payloadLen
    {
      HashAlikeBy(logs[0], logs[i], upto, rows[0], rows[i], |Prefix(logs[0], upto)|, |Prefix(logs[i], upto)|);
    }
    forall i | 0 <= i < |logs| && Keyspace(logs[i], upto) == Keyspace(logs[0], upto)
      ensures HashAlike(logs[0], logs[i], upto)
    {
      SameKeyspaceHashAlike(logs[0], logs[i], upto);
    }
    forall i | 0 <= i < |logs| && Prefix(logs[i], upto) == Prefix(logs[0], upto)
      ensures HashAlike(logs[0], logs[i], upto)
    {
      SamePrefixHashAlike(logs[0], logs[i], upto);
    }
    if d.Some? { LabelOf(hashes[0].hash, rows[0], |Prefix(logs[0], upto)|); }
  }

  lemma LabelOf(h: KeyspaceHash, rows: seq<Row>, at: nat)
    requires h == HashOf(rows, at)
    ensures h.at == at
  {}

  lemma SameKeyspaceHashAlike(a: seq<Bytes>, b: seq<Bytes>, upto: nat)
    requires Keyspace(a, upto) == Keyspace(b, upto)
    ensures HashAlike(a, b, upto)
  {
    hide Lists, Keyspace, Crc32.Crc, Backup.Payload;
    forall ra: seq<Row>, rb: seq<Row> | Lists(ra, Keyspace(a, upto)) && Lists(rb, Keyspace(b, upto)) ensures ra == rb {
      ListsUnique(ra, rb, Keyspace(a, upto));
    }
  }

  lemma SamePrefixHashAlike(a: seq<Bytes>, b: seq<Bytes>, upto: nat)
    requires Prefix(a, upto) == Prefix(b, upto)
    ensures HashAlike(a, b, upto)
  {
    hide HashAlike;
    SameKeyspaceHashAlike(a, b, upto);
  }

  lemma SameRowsHashAlike(a: seq<Row>, b: seq<Row>, m: Live, atA: nat, atB: nat)
    requires Lists(a, m) && Lists(b, m)
    ensures HashOf(a, atA).crc == HashOf(b, atB).crc && HashOf(a, atA).payloadLen == HashOf(b, atB).payloadLen
  {
    ListsUnique(a, b, m);
  }

  /** An alarm is never false, and damage confined to four consecutive payload bytes always raises it. */
  lemma AlarmMeansDifferentKeyspaces(ra: seq<Row>, m: Live, rb: seq<Row>, n: Live, atA: nat, atB: nat)
    requires Lists(ra, m) && Lists(rb, n) && Backup.RowsFit(ra) && Backup.RowsFit(rb)
    ensures HashOf(ra, atA).crc != HashOf(rb, atB).crc || HashOf(ra, atA).payloadLen != HashOf(rb, atB).payloadLen
            ==> m != n
    ensures forall p: Bytes, u: Bytes, v: Bytes, q: Bytes ::
              m != n && |u| == |v| <= 4 && Backup.Payload(ra) == p + u + q && Backup.Payload(rb) == p + v + q
              ==> HashOf(ra, atA).crc != HashOf(rb, atB).crc
  {
    hide Crc32.Crc;
    Backup.PayloadDeterminesState(ra, m, rb, n);
    hide Lists, Backup.RowsFit, Backup.Payload;
    forall p: Bytes, u: Bytes, v: Bytes, q: Bytes |
      m != n && |u| == |v| <= 4 && Backup.Payload(ra) == p + u + q && Backup.Payload(rb) == p + v + q
      ensures HashOf(ra, atA).crc != HashOf(rb, atB).crc
    {
      Crc32.BurstDetected(p, u, v, q);
    }
  }
}
