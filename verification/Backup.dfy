/**
 Logical backup: the live keys as of one snapshot, written as a checksummed image and replayed into
 another engine.
 */
module Backup {
  import opened Options
  import opened Codec
  import opened OpLog
  import opened Records
  import opened Oracle
  import Crc32

  const HEADER: nat := 28
  const VERSION: nat := 1
  const MAGIC: Bytes := [76, 83, 66, 49]  // "LSB1"
  const FULL: Range := Range([], [], true)

  function RowRecord(r: Row): Record {
    Record([], r.0, r.1)
  }

  function RowRecords(rows: seq<Row>): (rs: seq<Record>)
    ensures |rs| == |rows| && forall i :: 0 <= i < |rows| ==> rs[i] == RowRecord(rows[i])
  {
    seq(|rows|, i requires 0 <= i < |rows| => RowRecord(rows[i]))
  }

  function Payload(rows: seq<Row>): Bytes {
    EncodeAll(RowRecords(rows))
  }

  function Header(at: nat, payload: Bytes): (h: Bytes)
    ensures |h| == HEADER
  {
    MAGIC + Le(VERSION, 4) + Le(at, 8) + Le(|payload|, 8) + Le(Crc32.Crc(payload), 4)
  }

  function Image(at: nat, payload: Bytes): Bytes {
    Header(at, payload) + payload
  }

  /** Lengths survive the 32-bit casts of the record header. */
  predicate RowsFit(rows: seq<Row>) {
    forall i :: 0 <= i < |rows| ==> |rows[i].0| < U32 && |rows[i].1| < U32
  }

  /** The bytes between the header and the advertised end. */
  function PayloadOf(image: Bytes): Bytes
    requires HEADER <= |image| && HEADER + GetU64(image, 16) <= |image|
  {
    image[HEADER..HEADER + GetU64(image, 16)]
  }

  /** `validate_image`: header, advertised length (a 64-bit sum), checksum and framing. */
  function Verdict(image: Bytes): Error {
    if |image| < HEADER || image[..4] != MAGIC then Corruption
    else if GetU32(image, 4) != VERSION then InvalidArgument
    else
      var len := GetU64(image, 16);
      if (HEADER + len) % U64 > |image| then Corruption
      else if HEADER + len > |image| then OutsideImage
      else if Crc32.Crc(PayloadOf(image)) != GetU32(image, 24) then Corruption
      else if Frames(PayloadOf(image), 0) == None then Corruption
      else Ok
  }

  /** The only inputs on which the bounds check misleads are lengths within a header of 2^64. */
  lemma OutsideImageExactly(image: Bytes)
    requires |image| < U64
    ensures Verdict(image) == OutsideImage <==>
            && HEADER <= |image| && image[..4] == MAGIC && GetU32(image, 4) == VERSION
            && GetU64(image, 16) >= U64 - HEADER
  {}

  /** A version this reader does not know is reported as such, and nothing else is. */
  lemma WrongVersionExactly(image: Bytes)
    ensures Verdict(image) == InvalidArgument <==>
            |image| >= 28 && image[..4] == MAGIC && image[4..8] != Le(1, 4)
  {
    hide Crc32.Crc, Frames;
    if |image| >= HEADER {
      LeOfVal(image[4..8]);
      Widths();
      ValOfLe(1, 4);
    }
  }

  lemma HeaderParts(at: nat, payload: Bytes, tail: Bytes)
    ensures var image := Header(at, payload) + tail;
            && |image| >= HEADER && image[..4] == MAGIC && image[4..8] == Le(VERSION, 4) && image[8..16] == Le(at, 8)
            && image[16..24] == Le(|payload|, 8) && image[24..28] == Le(Crc32.Crc(payload), 4)
  {
    FiveParts(MAGIC, Le(VERSION, 4), Le(at, 8), Le(|payload|, 8), Le(Crc32.Crc(payload), 4), tail);
    hide Le, Crc32.Crc;
  }

  lemma FiveParts(a: Bytes, b: Bytes, c: Bytes, d: Bytes, e: Bytes, tail: Bytes)
    requires |a| == |b| == |e| == 4 && |c| == |d| == 8
    ensures var s := a + b + c + d + e + tail;
            s[..4] == a && s[4..8] == b && s[8..16] == c && s[16..24] == d && s[24..28] == e
  {}

  /** A header that advertises a payload of 2^64 - 1 bytes passes the bounds check. */
  lemma WrappedLength()
    ensures Verdict(MAGIC + Le(VERSION, 4) + Le(0, 8) + Le(U64 - 1, 8) + Le(0, 4)) == OutsideImage
  {
    var image := MAGIC + Le(VERSION, 4) + Le(0, 8) + Le(U64 - 1, 8) + Le(0, 4);
    FiveParts(MAGIC, Le(VERSION, 4), Le(0, 8), Le(U64 - 1, 8), Le(0, 4), []);
    assert image + [] == image;
    hide Le, Val, Verdict;
    ReadU32(image, 4, VERSION);
    ReadU64(image, 16, U64 - 1);
    OutsideImageExactly(image);
  }

  lemma HeaderFields(at: nat, payload: Bytes, tail: Bytes)
    requires at < U64 && |payload| < U64
    ensures var image := Header(at, payload) + tail;
            && |image| >= HEADER
            && image[..4] == MAGIC && GetU32(image, 4) == VERSION
            && GetU64(image, 8) == at && GetU64(image, 16) == |payload| && GetU32(image, 24) == Crc32.Crc(payload)
  {
    var image := Header(at, payload) + tail;
    HeaderParts(at, payload, tail);
    Crc32.CrcInRange(payload);
    hide Header, Le, Val, Crc32.Crc;
    ReadU32(image, 4, VERSION);
    ReadU64(image, 8, at);
    ReadU64(image, 16, |payload|);
    ReadU32(image, 24, Crc32.Crc(payload));
  }

  /** A built image validates and carries exactly its rows. */
  lemma BuiltIsValid(at: nat, rows: seq<Row>)
    requires at < U64 && RowsFit(rows) && HEADER + |Payload(rows)| < U64
    ensures var image := Image(at, Payload(rows));
            && Verdict(image) == Ok
            && PayloadOf(image) == Payload(rows)
            && Frames(PayloadOf(image), 0) == Some(RowRecords(rows))
  {
    hide Header, Frames, EncodeAll, Encode, Le, Val, Pow256, RowRecords, Crc32.Crc;
    var p := Payload(rows);
    var image := Image(at, p);
    HeaderFields(at, p, p);
    assert image[HEADER..HEADER + |p|] == p;
    FramesOfEncode(RowRecords(rows), 0);
  }

  // ---- replaying rows ----------------------------------------------------------------------

  function PutOf(r: Record): Op {
    Put(r.key, r.value)
  }

  function Puts(rs: seq<Record>): seq<Op> {
    if rs == [] then [] else [PutOf(rs[0])] + Puts(rs[1..])
  }

  lemma {:induction false} PutsConcat(a: seq<Record>, b: seq<Record>)
    ensures Puts(a + b) == Puts(a) + Puts(b)
    decreases |a|
  {
    if a == [] {
      assert a + b == b;
    } else {
      assert (a + b)[1..] == a[1..] + b;
      PutsConcat(a[1..], b);
    }
  }

  lemma DropLast(rows: seq<Row>, m: Live)
    requires Lists(rows, m) && rows != []
    ensures Lists(rows[..|rows| - 1], m - {rows[|rows| - 1].0})
  {
    var n := |rows| - 1;
    var m' := m - {rows[n].0};
    forall i | 0 <= i < n ensures rows[i].0 in m' { LessAsymmetric(rows[i].0, rows[n].0); }
    forall k | k in m' ensures (k, m'[k]) in rows[..n] {
      assert (k, m[k]) in rows;
      var i :| 0 <= i < |rows| && rows[i] == (k, m[k]);
      assert rows[..n][i] == (k, m'[k]);
    }
  }

  /** Replaying the rows of a map into an empty engine rebuilds that map. */
  lemma {:induction false} ReplayRebuilds(rows: seq<Row>, m: Live)
    requires Lists(rows, m)
    ensures Fold(Puts(RowRecords(rows))) == m
    decreases |rows|
  {
    if rows == [] {
      assert m.Keys == {};
    } else {
      var n := |rows| - 1;
      DropLast(rows, m);
      ReplayRebuilds(rows[..n], m - {rows[n].0});
      PutsOfLast(rows);
      hide Lists;
      var ops := Puts(RowRecords(rows[..n]));
      assert (ops + [Put(rows[n].0, rows[n].1)])[..|ops|] == ops;
      assert (m - {rows[n].0})[rows[n].0 := rows[n].1] == m;
    }
  }

  lemma PutsOfLast(rows: seq<Row>)
    requires rows != []
    ensures var n := |rows| - 1;
            Puts(RowRecords(rows)) == Puts(RowRecords(rows[..n])) + [Put(rows[n].0, rows[n].1)]
  {
    var n := |rows| - 1;
    var last := RowRecord(rows[n]);
    assert RowRecords(rows) == RowRecords(rows[..n]) + [last];
    PutsConcat(RowRecords(rows[..n]), [last]);
    assert Puts([last]) == [PutOf(last)];
  }

  /** The payload is a function of the live map alone, and an injective one: whatever the Seqs,
      two states have the same payload exactly when they are the same state. */
  lemma PayloadDeterminesState(a: seq<Row>, m: Live, b: seq<Row>, n: Live)
    requires Lists(a, m) && Lists(b, n) && RowsFit(a) && RowsFit(b)
    ensures Payload(a) == Payload(b) <==> m == n
  {
    if m == n { ListsUnique(a, b, m); }
    if Payload(a) == Payload(b) {
      EncodeAllInjective(RowRecords(a), RowRecords(b), 0);
      forall i | 0 <= i < |a| ensures a[i] == b[i] { assert RowRecords(a)[i] == RowRecords(b)[i]; }
      assert a == b;
      ListsSameMap(a, m, n);
    }
  }

  // ---- the operations ----------------------------------------------------------------------

  lemma FullRange(m: Live)
    ensures Restrict(m, FULL) == m
  {}

  lemma EncodeStep(rows: seq<Row>, i: nat)
    requires i < |rows|
    ensures EncodeAll(RowRecords(rows)[..i + 1])
         == EncodeAll(RowRecords(rows)[..i]) + Le(|rows[i].0|, 4) + Le(|rows[i].1|, 4) + rows[i].0 + rows[i].1
  {
    var rs := RowRecords(rows);
    assert rs[..i + 1] == rs[..i] + [rs[i]];
    EncodeAllConcat(rs[..i], [rs[i]]);
    assert EncodeAll([rs[i]]) == Encode(rs[i]) + EncodeAll([]);
    hide Le, EncodeAll;
    var e := EncodeAll(rs[..i]);
    assert Encode(rs[i]) == Le(|rows[i].0|, 4) + Le(|rows[i].1|, 4) + rows[i].0 + rows[i].1;
    assert e + (Le(|rows[i].0|, 4) + Le(|rows[i].1|, 4) + rows[i].0 + rows[i].1)
        == e + Le(|rows[i].0|, 4) + Le(|rows[i].1|, 4) + rows[i].0 + rows[i].1;
  }

  /** `build_backup_image`: scan the live keys as of `at` and frame them. */
  method BuildImage(src: Engine, at: nat) returns (image: Bytes, rows: seq<Row>)
    requires src.Valid()
    ensures Lists(rows, AsOf(src.log, at))
    ensures image == Image(at, Payload(rows))
  {
    rows := src.Scan(FULL, at);
    FullRange(AsOf(src.log, at));
    hide Represents, Lists, AsOf, Le, EncodeAll;
    var payload := [];
    for i := 0 to |rows|
      invariant payload == EncodeAll(RowRecords(rows)[..i])
    {
      EncodeStep(rows, i);
      payload := PutU32(payload, |rows[i].0|);
      payload := PutU32(payload, |rows[i].1|);
      payload := payload + rows[i].0 + rows[i].1;
    }
    assert RowRecords(rows)[..|rows|] == RowRecords(rows);
    var crc := Crc32.Compute(payload);
    image := PutU32(MAGIC, VERSION);
    image := PutU64(image, at);
    image := PutU64(image, |payload|);
    image := PutU32(image, crc);
    image := image + payload;
  }

  /** `validate_image` with its framing loop. */
  method Validate(image: Bytes) returns (e: Error)
    ensures e == Verdict(image)
  {
    if |image| < HEADER || image[..4] != MAGIC { return Corruption; }
    if GetU32(image, 4) != VERSION { return InvalidArgument; }
    var len := GetU64(image, 16);
    if (HEADER + len) % U64 > |image| { return Corruption; }
    if HEADER + len > |image| { return OutsideImage; }
    var payload := image[HEADER..HEADER + len];
    var crc := Crc32.Compute(payload);
    if crc != GetU32(image, 24) { return Corruption; }
    var framed := CheckFraming(payload);
    e := if framed then Ok else Corruption;
  }

  method CheckFraming(payload: Bytes) returns (framed: bool)
    ensures framed == Frames(payload, 0).Some?
  {
    hide First, Frames, Readable, GetU32;
    var pos := 0;
    assert payload[0..] == payload;
    while pos < |payload|
      invariant 0 <= pos <= |payload|
      invariant Frames(payload, 0).Some? <==> Frames(payload[pos..], 0).Some?
    {
      if pos + 8 > |payload| {
        Stuck(payload, pos, 0);
        return false;
      }
      var (klen, vlen) := LengthsAt(payload, pos, 0);
      if pos + 8 + klen + vlen > |payload| {
        Stuck(payload, pos, 0);
        return false;
      }
      Advance(payload, pos, 0);
      pos := pos + 8 + klen + vlen;
    }
    NothingMore(payload[pos..]);
    framed := true;
  }

  lemma NothingMore(s: Bytes)
    requires s == []
    ensures Readable(s, 0) == [] && Frames(s, 0).Some?
  {}

  /** The replay loop over a payload, stopping at the first malformed record. */
  method ReplayPayload(payload: Bytes, dst: Engine) returns (whole: bool)
    requires dst.Valid()
    modifies dst
    ensures dst.Valid()
    ensures dst.log == old(dst.log) + Puts(Readable(payload, 0))
    ensures whole == Frames(payload, 0).Some?
  {
    hide Represents, First, Frames, Readable, GetU32;
    var pos := 0;
    ghost var done: seq<Record> := [];
    assert payload[0..] == payload && [] + Readable(payload, 0) == Readable(payload, 0);
    while pos < |payload|
      invariant 0 <= pos <= |payload|
      invariant dst.Valid()
      invariant Readable(payload, 0) == done + Readable(payload[pos..], 0)
      invariant Frames(payload, 0).Some? <==> Frames(payload[pos..], 0).Some?
      invariant dst.log == old(dst.log) + Puts(done)
    {
      if pos + 8 > |payload| {
        Stuck(payload, pos, 0);
        assert done + [] == done;
        return false;
      }
      var (klen, vlen) := LengthsAt(payload, pos, 0);
      if pos + 8 + klen + vlen > |payload| {
        Stuck(payload, pos, 0);
        assert done + [] == done;
        return false;
      }
      Advance(payload, pos, 0);
      var r := RecordAt(payload, pos, 0);
      var _ := dst.Commit(PutOf(r));
      PutsConcat(done, [r]);
      assert Puts([r]) == [PutOf(r)];
      pos := pos + 8 + klen + vlen;
      assert done + ([r] + Readable(payload[pos..], 0)) == (done + [r]) + Readable(payload[pos..], 0);
      done := done + [r];
    }
    NothingMore(payload[pos..]);
    assert done + [] == done;
    whole := true;
  }

  /** `apply_backup_image`: all or nothing. An invalid image leaves the engine untouched; a valid one
      is replayed record by record. */
  method ApplyImage(image: Bytes, dst: Engine) returns (e: Error)
    requires dst.Valid()
    modifies dst
    ensures dst.Valid() && e == Verdict(image)
    ensures e != Ok ==> dst.log == old(dst.log)
    ensures e == Ok ==> dst.log == old(dst.log) + Puts(Frames(PayloadOf(image), 0).value)
  {
    e := Validate(image);
    if e == Ok {
      ReadableOfFrames(PayloadOf(image), 0);
      var whole := ReplayPayload(PayloadOf(image), dst);
    }
  }

  /** What the disk path checks before it starts putting: everything but the framing. */
  function DiskPrecheck(disk: Bytes): Error {
    if |disk| < HEADER then IoFault
    else if disk[..4] != MAGIC then Corruption
    else if GetU32(disk, 4) != VERSION then InvalidArgument
    else if HEADER + GetU64(disk, 16) > |disk| then IoFault
    else if Crc32.Crc(PayloadOf(disk)) != GetU32(disk, 24) then Corruption
    else Ok
  }

  /** A disk that ends before what its header announces is an I/O fault, not corruption; so is one that ends
      before its header does. */
  lemma ShortDiskExactly(disk: Bytes)
    ensures DiskPrecheck(disk) == IoFault <==>
            || |disk| < 28
            || (disk[..4] == MAGIC && GetU32(disk, 4) == VERSION && 28 + GetU64(disk, 16) > |disk|)
  {
    hide Crc32.Crc, Val;
  }

  /** `restore_task`: framing is checked while records are already being put. */
  method RestoreFromDisk(disk: Bytes, dst: Engine) returns (e: Error)
    requires dst.Valid()
    modifies dst
    ensures dst.Valid()
    ensures DiskPrecheck(disk) != Ok ==> e == DiskPrecheck(disk) && dst.log == old(dst.log)
    ensures DiskPrecheck(disk) == Ok ==>
              && e == (if Frames(PayloadOf(disk), 0).Some? then Ok else Corruption)
              && dst.log == old(dst.log) + Puts(Readable(PayloadOf(disk), 0))
    ensures DiskPrecheck(disk) == Ok ==>
              (e == Ok || dst.log == old(dst.log) <==>
                 Frames(PayloadOf(disk), 0).Some? || First(PayloadOf(disk), 0) == None)
  {
    if |disk| < HEADER { return IoFault; }
    if disk[..4] != MAGIC { return Corruption; }
    if GetU32(disk, 4) != VERSION { return InvalidArgument; }
    if HEADER + GetU64(disk, 16) > |disk| { return IoFault; }
    var payload := disk[HEADER..HEADER + GetU64(disk, 16)];
    var crc := Crc32.Compute(payload);
    if crc != GetU32(disk, 24) { return Corruption; }
    var whole := ReplayPayload(payload, dst);
    e := if whole then Ok else Corruption;
    NothingPutExactly(payload);
    hide Frames, First, Readable, Puts;
    if Puts(Readable(payload, 0)) != [] {
      assert |dst.log| == |old(dst.log)| + |Puts(Readable(payload, 0))|;
    } else {
      assert old(dst.log) + [] == old(dst.log);
    }
  }

  /** Nothing at all is put exactly when there is no record or already the first one is malformed. */
  lemma NothingPutExactly(p: Bytes)
    ensures Puts(Readable(p, 0)) == [] <==> p == [] || First(p, 0) == None
    ensures p == [] ==> Frames(p, 0) == Some([])
    ensures First(p, 0) == None && p != [] ==> Frames(p, 0) == None
  {}

  /** One more row adds its two lengths, its key and its value, in that order. */
  lemma PayloadLayout(rows: seq<Row>, k: Key, v: Value)
    ensures Payload(rows + [(k, v)]) == Payload(rows) + (Le(|k|, 4) + Le(|v|, 4) + k + v)
  {
    var r := RowRecord((k, v));
    assert RowRecords(rows + [(k, v)]) == RowRecords(rows) + [r];
    EncodeAllConcat(RowRecords(rows), [r]);
    assert [r][1..] == [] && EncodeAll([r]) == Encode(r);
    assert [] + Le(|k|, 4) + Le(|v|, 4) + k + v == Le(|k|, 4) + Le(|v|, 4) + k + v;
  }

  // ---- exactly the images of the format are accepted ---------------------------------------

  /** The image of a list of records at a snapshot, with anything behind it. */
  ghost predicate IsImage(image: Bytes, at: nat, rs: seq<Record>, tail: Bytes) {
    at < U64 && (forall i :: 0 <= i < |rs| ==> Sized(rs[i], 0)) && image == Image(at, EncodeAll(rs)) + tail
  }

  /** A header whose fields check out is the header of its payload. */
  lemma HeaderRebuilt(image: Bytes)
    requires HEADER <= |image| && image[..4] == MAGIC && GetU32(image, 4) == VERSION
    requires HEADER + GetU64(image, 16) <= |image| && Crc32.Crc(PayloadOf(image)) == GetU32(image, 24)
    ensures image == Image(GetU64(image, 8), PayloadOf(image)) + image[HEADER + GetU64(image, 16)..]
  {
    hide Le, Val, Crc32.Crc;
    LeOfVal(image[4..8]);
    LeOfVal(image[8..16]);
    LeOfVal(image[16..24]);
    LeOfVal(image[24..28]);
    HeaderJoined(image);
    var end := HEADER + GetU64(image, 16);
    assert image == image[..HEADER] + image[HEADER..end] + image[end..];
  }

  lemma HeaderJoined(s: Bytes)
    requires |s| >= HEADER
    ensures s[..4] + s[4..8] + s[8..16] + s[16..24] + s[24..28] == s[..HEADER]
  {}

  lemma PayloadBehindHeader(at: nat, payload: Bytes, tail: Bytes)
    requires at < U64 && HEADER + |payload| + |tail| < U64
    ensures var image := Image(at, payload) + tail;
            && |image| == HEADER + |payload| + |tail| && image[..4] == MAGIC && GetU32(image, 4) == VERSION
            && GetU64(image, 8) == at && GetU64(image, 16) == |payload| && GetU32(image, 24) == Crc32.Crc(payload)
            && PayloadOf(image) == payload
  {
    var image := Image(at, payload) + tail;
    assert image == Header(at, payload) + (payload + tail);
    HeaderFields(at, payload, payload + tail);
    hide Header, GetU32, GetU64, Crc32.Crc;
    assert image[HEADER..HEADER + |payload|] == payload;
  }

  lemma ImageIsAccepted(image: Bytes, at: nat, rs: seq<Record>, tail: Bytes)
    requires |image| < U64 && IsImage(image, at, rs, tail)
    ensures Verdict(image) == Ok
  {
    hide Header, GetU32, GetU64, Crc32.Crc, EncodeAll, Sized, Frames;
    assert |Image(at, EncodeAll(rs))| == HEADER + |EncodeAll(rs)|;
    PayloadBehindHeader(at, EncodeAll(rs), tail);
    FramesOfEncode(rs, 0);
  }

  lemma AcceptedIsImage(image: Bytes)
    requires Verdict(image) == Ok
    ensures IsImage(image, GetU64(image, 8), Frames(PayloadOf(image), 0).value, image[HEADER + GetU64(image, 16)..])
  {
    hide Val, Le, Header, Crc32.Crc, EncodeAll, Sized, Frames;
    HeaderRebuilt(image);
    EncodeOfFrames(PayloadOf(image), 0);
  }

  /** Validation accepts exactly the images of record lists, whatever follows them. */
  lemma AcceptedExactly(image: Bytes)
    requires |image| < U64
    ensures Verdict(image) == Ok <==> exists at: nat, rs: seq<Record>, tail: Bytes :: IsImage(image, at, rs, tail)
  {
    if Verdict(image) == Ok { AcceptedIsImage(image); }
    hide Verdict, IsImage;
    forall at: nat, rs: seq<Record>, tail: Bytes | IsImage(image, at, rs, tail) ensures Verdict(image) == Ok {
      ImageIsAccepted(image, at, rs, tail);
    }
  }

  /** The disk path accepts, before it starts putting, exactly the images of payloads. */
  lemma DiskAcceptedExactly(disk: Bytes)
    requires |disk| < U64
    ensures DiskPrecheck(disk) == Ok <==>
            exists at: nat, payload: Bytes, tail: Bytes :: at < U64 && disk == Image(at, payload) + tail
  {
    if DiskPrecheck(disk) == Ok { HeaderRebuilt(disk); }
    forall at: nat, payload: Bytes, tail: Bytes | at < U64 && disk == Image(at, payload) + tail
      ensures DiskPrecheck(disk) == Ok
    {
      PayloadBehindHeader(at, payload, tail);
    }
  }

  /** The image with its payload replaced by one of the same length. */
  function WithPayload(image: Bytes, payload: Bytes): Bytes
    requires HEADER + |payload| <= |image|
  {
    image[..HEADER] + payload + image[HEADER + |payload|..]
  }

  lemma WithPayloadFields(image: Bytes, payload: Bytes)
    requires HEADER <= |image| && HEADER + GetU64(image, 16) <= |image| && |payload| == GetU64(image, 16)
    ensures var bad := WithPayload(image, payload);
            && |bad| == |image| && bad[..4] == image[..4] && GetU32(bad, 4) == GetU32(image, 4)
            && GetU64(bad, 16) == GetU64(image, 16) && GetU32(bad, 24) == GetU32(image, 24)
            && PayloadOf(bad) == payload
  {
    var bad := WithPayload(image, payload);
    assert bad[..HEADER] == image[..HEADER];
    hide Val;
    SliceOfPrefix(bad, image, HEADER, 4, 8);
    SliceOfPrefix(bad, image, HEADER, 16, 24);
    SliceOfPrefix(bad, image, HEADER, 24, 28);
    SliceOfPrefix(bad, image, HEADER, 0, 4);
    assert bad[HEADER..HEADER + |payload|] == payload;
  }

  /** Damage confined to four consecutive bytes of the payload is rejected, by both paths. */
  lemma DamagedRejected(image: Bytes, p: Bytes, u: Bytes, v: Bytes, q: Bytes)
    requires |image| < U64 && DiskPrecheck(image) == Ok && PayloadOf(image) == p + u + q && |u| == |v| <= 4 && u != v
    ensures var bad := WithPayload(image, p + v + q);
            Verdict(bad) == Corruption && DiskPrecheck(bad) == Corruption
  {
    WithPayloadFields(image, p + v + q);
    Crc32.BurstDetected(p, u, v, q);
    hide GetU32, GetU64, Crc32.Crc, WithPayload, Frames;
  }

  /** So is any damage to the stored checksum. */
  lemma DamagedChecksumRejected(image: Bytes, v: Bytes)
    requires |image| < U64 && DiskPrecheck(image) == Ok && |v| == 4 && v != image[24..28]
    ensures var bad := image[..24] + v + image[28..]; Verdict(bad) == Corruption && DiskPrecheck(bad) == Corruption
  {
    var bad := image[..24] + v + image[28..];
    assert bad[..24] == image[..24] && bad[24..28] == v && bad[28..] == image[28..];
    SliceOfPrefix(bad, image, 24, 0, 4);
    SliceOfPrefix(bad, image, 24, 4, 8);
    SliceOfPrefix(bad, image, 24, 16, 24);
    LeOfVal(v);
    LeOfVal(image[24..28]);
    hide Val, Le, Crc32.Crc, Frames;
    var len := GetU64(image, 16);
    assert bad[HEADER..HEADER + len] == bad[28..][..len] == image[28..][..len] == image[HEADER..HEADER + len];
  }

  /** A checksummed payload that is not well framed and still has something put: one empty record
      followed by a stray byte. */
  lemma DiskRestoreCanBePartial()
    ensures var p := Le(0, 8) + [0]; var disk := Image(0, p);
            && DiskPrecheck(disk) == Ok && PayloadOf(disk) == p
            && Frames(p, 0) == None && Puts(Readable(p, 0)) == [Put([], [])]
  {
    var p: Bytes := Le(0, 8) + [0];
    var disk := Image(0, p);
    HeaderFields(0, p, p);
    assert disk[HEADER..HEADER + |p|] == p;
    StrayByte(p);
  }

  lemma StrayByte(p: Bytes)
    requires p == Le(0, 8) + [0]
    ensures Frames(p, 0) == None && Puts(Readable(p, 0)) == [Put([], [])]
  {
    var r := Record([], [], []);
    EmptyRecord(r);
    FirstOfEncode(r, [0], 0);
    hide Le, Val, Encode;
    assert p[8..] == [0];
    assert First(p[8..], 0) == None;
    assert Readable(p, 0) == [r] + Readable(p[8..], 0);
  }

  lemma EmptyRecord(r: Record)
    requires r == Record([], [], [])
    ensures Encode(r) == Le(0, 8) && |Encode(r)| == 8
  {
    ZeroBytes(4);
    ZeroBytes(8);
  }

  lemma {:induction false} ZeroBytes(k: nat)
    ensures Le(0, k) == seq(k, _ => 0)
  {
    if k > 0 { ZeroBytes(k - 1); }
  }

  /** Backup followed by restore into a fresh engine reproduces the live map as of the snapshot. */
  method BackupAndRestore(src: Engine, at: nat) returns (dst: Engine, e: Error)
    requires src.Valid() && at < U64
    ensures dst.Valid() && fresh(dst)
    ensures forall rows :: Lists(rows, AsOf(src.log, at)) && RowsFit(rows) && HEADER + |Payload(rows)| < U64 ==>
              e == Ok && Fold(dst.log) == AsOf(src.log, at)
  {
    var image, rows := BuildImage(src, at);
    dst := new Engine();
    e := ApplyImage(image, dst);
    ghost var live := AsOf(src.log, at);
    forall rs | Lists(rs, live) && RowsFit(rs) && HEADER + |Payload(rs)| < U64
      ensures e == Ok && Fold(dst.log) == live
    {
      ListsUnique(rs, rows, live);
      BuiltIsValid(at, rows);
      ReplayRebuilds(rows, live);
      assert [] + Puts(RowRecords(rows)) == Puts(RowRecords(rows));
    }
  }
}
