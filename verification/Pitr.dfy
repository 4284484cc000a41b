/**
 Point-in-time recovery: the committed operation log as a checksummed archive, replayed up to any
 target Seq. Sequence numbers are 64-bit: the contiguity check of the source wraps around, and the
 model wraps with it.
 */
module Pitr {
  import opened Options
  import opened Codec
  import opened OpLog
  import opened Records
  import opened Oracle
  import Crc32

  const HEADER: nat := 44
  const HEAD: nat := 9  // seq u64 and type u8, in front of the two lengths
  const VERSION: nat := 1
  const MAGIC: Bytes := [76, 87, 65, 49]  // "LWA1"

  /** One committed operation with the Seq it was given. */
  datatype Exported = Exported(seqNo: nat, op: Op)

  function ToRecord(x: Exported): Record {
    Record(Le(x.seqNo, 8) + [if x.op.Del? then 1 else 0], x.op.key, if x.op.Del? then [] else x.op.value)
  }

  function ToRecords(xs: seq<Exported>): (rs: seq<Record>)
    ensures |rs| == |xs| && forall i :: 0 <= i < |xs| ==> rs[i] == ToRecord(xs[i])
  {
    seq(|xs|, i requires 0 <= i < |xs| => ToRecord(xs[i]))
  }

  function Payload(xs: seq<Exported>): Bytes {
    EncodeAll(ToRecords(xs))
  }

  function Header(first: nat, last: nat, count: nat, payload: Bytes): (h: Bytes)
    ensures |h| == HEADER
  {
    MAGIC + Le(VERSION, 4) + Le(first, 8) + Le(last, 8) + Le(count, 8) + Le(|payload|, 8) + Le(Crc32.Crc(payload), 4)
  }

  function Image(xs: seq<Exported>): Bytes {
    Header(FirstSeqOf(xs), LastSeqOf(xs), |xs|, Payload(xs)) + Payload(xs)
  }

  function SeqOf(r: Record): (n: nat)
    requires |r.head| == HEAD
    ensures n < U64
  {
    GetU64(r.head, 0)
  }

  function KindOf(r: Record): Byte
    requires |r.head| == HEAD
  {
    r.head[8]
  }

  function OpOf(r: Record): Op
    requires |r.head| == HEAD
  {
    if KindOf(r) == 1 then Del(r.key) else Put(r.key, r.value)
  }

  ghost predicate Headed(rs: seq<Record>) {
    forall i :: 0 <= i < |rs| ==> |rs[i].head| == HEAD
  }

  /** Record i carries Seq `first + i`, counted in 64 bits, and a known type. */
  ghost predicate Contiguous(rs: seq<Record>, first: nat) {
    Headed(rs) && forall i :: 0 <= i < |rs| ==> KindOf(rs[i]) <= 1 && SeqOf(rs[i]) == (first + i) % U64
  }

  function PayloadOf(image: Bytes): Bytes
    requires HEADER <= |image| && HEADER + GetU64(image, 32) <= |image|
  {
    image[HEADER..HEADER + GetU64(image, 32)]
  }

  /** The payload is a contiguous run of `count` records ending at the advertised Seq. */
  ghost predicate Replayable(image: Bytes, rs: seq<Record>)
    requires HEADER <= |image|
  {
    && Contiguous(rs, GetU64(image, 8))
    && |rs| == GetU64(image, 24)
    && (rs != [] ==> SeqOf(rs[|rs| - 1]) == GetU64(image, 16))
  }

  /** `validate_archive_image`. */
  ghost function Verdict(image: Bytes): Error {
    if |image| < HEADER || image[..4] != MAGIC then Corruption
    else if GetU32(image, 4) != VERSION then InvalidArgument
    else
      var len := GetU64(image, 32);
      if (HEADER + len) % U64 > |image| then Corruption
      else if HEADER + len > |image| then OutsideImage
      else if Crc32.Crc(PayloadOf(image)) != GetU32(image, 40) then Corruption
      else
        var rs := Frames(PayloadOf(image), HEAD);
        if rs.Some? && Replayable(image, rs.value) then Ok else Corruption
  }

  ghost function RecordsOf(image: Bytes): (rs: seq<Record>)
    requires Verdict(image) == Ok
    ensures Headed(rs)
  {
    Frames(PayloadOf(image), HEAD).value
  }

  /** The only inputs on which the bounds check misleads are lengths within a header of 2^64. */
  lemma OutsideImageExactly(image: Bytes)
    requires |image| < U64
    ensures Verdict(image) == OutsideImage <==>
            && HEADER <= |image| && image[..4] == MAGIC && GetU32(image, 4) == VERSION
            && GetU64(image, 32) >= U64 - HEADER
  {
    hide Crc32.Crc, Frames, Replayable, GetU32;
  }

  /** A version this reader does not know is reported as such, and nothing else is. */
  lemma WrongVersionExactly(image: Bytes)
    ensures Verdict(image) == InvalidArgument <==>
            |image| >= 44 && image[..4] == MAGIC && image[4..8] != Le(1, 4)
  {
    hide Crc32.Crc, Frames, Replayable;
    if |image| >= HEADER {
      LeOfVal(image[4..8]);
      Widths();
      ValOfLe(1, 4);
    }
  }

  // ---- which records a target selects ------------------------------------------------------

  /** The replay loop's choice: stop at the first record beyond the target. */
  ghost function UpTo(rs: seq<Record>, target: nat): (r: seq<Record>)
    requires Headed(rs)
    ensures Headed(r)
  {
    if rs == [] || SeqOf(rs[0]) > target then [] else [rs[0]] + UpTo(rs[1..], target)
  }

  /** The promised choice: every record with Seq at most the target. */
  ghost function AtMost(rs: seq<Record>, target: nat): (r: seq<Record>)
    requires Headed(rs)
    ensures Headed(r)
  {
    if rs == [] then []
    else (if SeqOf(rs[0]) <= target then [rs[0]] else []) + AtMost(rs[1..], target)
  }

  ghost function Ops(rs: seq<Record>): seq<Op>
    requires Headed(rs)
  {
    if rs == [] then [] else [OpOf(rs[0])] + Ops(rs[1..])
  }

  lemma {:induction false} OpsConcat(a: seq<Record>, b: seq<Record>)
    requires Headed(a) && Headed(b)
    ensures Ops(a + b) == Ops(a) + Ops(b)
    decreases |a|
  {
    if a == [] {
      assert a + b == b;
    } else {
      assert (a + b)[1..] == a[1..] + b;
      OpsConcat(a[1..], b);
    }
  }

  lemma {:induction false} AtMostOfLarger(rs: seq<Record>, target: nat)
    requires Headed(rs) && forall i :: 0 <= i < |rs| ==> SeqOf(rs[i]) > target
    ensures AtMost(rs, target) == []
    decreases |rs|
  {
    if rs != [] { AtMostOfLarger(rs[1..], target); }
  }

  lemma {:induction false} AtMostFinds(rs: seq<Record>, target: nat, i: nat)
    requires Headed(rs) && i < |rs| && SeqOf(rs[i]) <= target
    ensures AtMost(rs, target) != []
    decreases |rs|
  {
    if SeqOf(rs[0]) > target { AtMostFinds(rs[1..], target, i - 1); }
  }

  /** While Seqs do not wrap, stopping at the first larger Seq misses nothing. */
  lemma {:induction false} BreakIsComplete(rs: seq<Record>, first: nat, target: nat)
    requires Contiguous(rs, first) && first + |rs| <= U64
    ensures UpTo(rs, target) == AtMost(rs, target)
    decreases |rs|
  {
    if rs != [] {
      assert forall i :: 0 <= i < |rs| ==> SeqOf(rs[i]) == first + i;
      if SeqOf(rs[0]) > target {
        AtMostOfLarger(rs, target);
      } else {
        assert Contiguous(rs[1..], first + 1);
        BreakIsComplete(rs[1..], first + 1, target);
      }
    }
  }

  lemma LastSeq(rs: seq<Record>, first: nat)
    requires Contiguous(rs, first) && rs != [] && first < U64
    ensures SeqOf(rs[0]) == first
    ensures SeqOf(rs[|rs| - 1]) == (first + |rs| - 1) % U64
  {}

  /** The record of an operation: its Seq, 1 for a delete and 0 for a put, the two lengths, key and value. */
  lemma RecordLayout(x: Exported)
    ensures Encode(ToRecord(x)) ==
              match x.op
              case Put(k, v) => Le(x.seqNo, 8) + [0] + Le(|k|, 4) + Le(|v|, 4) + k + v
              case Del(k) => Le(x.seqNo, 8) + [1] + Le(|k|, 4) + Le(0, 4) + k
  {
    hide Le;
    if x.op.Del? {
      var s := Le(x.seqNo, 8) + [1] + Le(|x.op.key|, 4) + Le(0, 4) + x.op.key;
      assert s + [] == s;
    }
  }

  /** A validated archive within its target is replayed completely exactly when its Seqs stay below
      2^64: `first + count <= 2^64`, which the header alone decides. */
  lemma BreakIsCompleteExactly(image: Bytes, target: nat)
    requires |image| < U64 && Verdict(image) == Ok && target <= GetU64(image, 16)
    ensures var rs := RecordsOf(image);
            UpTo(rs, target) == AtMost(rs, target) <==> rs == [] || GetU64(image, 8) + GetU64(image, 24) <= U64
  {
    var rs := RecordsOf(image);
    var first := GetU64(image, 8);
    if rs != [] {
      if first + |rs| <= U64 {
        BreakIsComplete(rs, first, target);
      } else {
        CountBelow(image);
        WrappedIsMissed(rs, first, target);
      }
    }
  }

  /** Seqs that wrap past 2^64 start above the target and come back below it. */
  lemma WrappedIsMissed(rs: seq<Record>, first: nat, target: nat)
    requires Contiguous(rs, first) && rs != [] && first < U64 < first + |rs| && |rs| < U64
    requires target <= SeqOf(rs[|rs| - 1])
    ensures UpTo(rs, target) != AtMost(rs, target)
  {
    LastSeq(rs, first);
    assert (first + |rs| - 1) % U64 == first + |rs| - 1 - U64;
    assert SeqOf(rs[0]) > target;
    var i := U64 - first;
    assert SeqOf(rs[i]) == (first + i) % U64 == 0;
    AtMostFinds(rs, target, i);
  }

  /** Every record takes at least 17 bytes, so the count stays far below 2^64. */
  lemma CountBelow(image: Bytes)
    requires |image| < U64 && Verdict(image) == Ok
    ensures |RecordsOf(image)| < U64
  {
    FramesCount(PayloadOf(image), HEAD);
  }

  lemma {:induction false} FramesCount(s: Bytes, h: nat)
    requires Frames(s, h).Some?
    ensures |Frames(s, h).value| <= |s|
    decreases |s|
  {
    if s != [] { FramesCount(s[First(s, h).value.1..], h); }
  }

  // ---- building and validating -------------------------------------------------------------

  /** The lengths survive the casts of the record header. */
  predicate Fits(xs: seq<Exported>) {
    forall i :: 0 <= i < |xs| ==>
      |xs[i].op.key| < U32 && (xs[i].op.Put? ==> |xs[i].op.value| < U32) && xs[i].seqNo < U64
  }

  lemma RecordFields(x: Exported)
    requires x.seqNo < U64
    ensures var r := ToRecord(x); |r.head| == HEAD && SeqOf(r) == x.seqNo && KindOf(r) <= 1 && OpOf(r) == x.op
  {
    var r := ToRecord(x);
    assert r.head[0..8] == Le(x.seqNo, 8);
    ReadU64(r.head, 0, x.seqNo);
  }

  lemma HeaderFields(first: nat, last: nat, count: nat, payload: Bytes, tail: Bytes)
    requires first < U64 && last < U64 && count < U64 && |payload| < U64
    ensures var image := Header(first, last, count, payload) + tail;
      && |image| >= HEADER && image[..4] == MAGIC && GetU32(image, 4) == VERSION
      && GetU64(image, 8) == first && GetU64(image, 16) == last && GetU64(image, 24) == count
      && GetU64(image, 32) == |payload| && GetU32(image, 40) == Crc32.Crc(payload)
  {
    var image := Header(first, last, count, payload) + tail;
    SevenParts(MAGIC, Le(VERSION, 4), Le(first, 8), Le(last, 8), Le(count, 8), Le(|payload|, 8),
               Le(Crc32.Crc(payload), 4), tail);
    Crc32.CrcInRange(payload);
    hide Le, Val, Crc32.Crc;
    ReadU32(image, 4, VERSION);
    ReadU64(image, 8, first);
    ReadU64(image, 16, last);
    ReadU64(image, 24, count);
    ReadU64(image, 32, |payload|);
    ReadU32(image, 40, Crc32.Crc(payload));
  }

  lemma SevenParts(a: Bytes, b: Bytes, c: Bytes, d: Bytes, e: Bytes, f: Bytes, g: Bytes, tail: Bytes)
    requires |a| == |b| == |g| == 4 && |c| == |d| == |e| == |f| == 8
    ensures var s := a + b + c + d + e + f + g + tail;
            && s[..4] == a && s[4..8] == b && s[8..16] == c && s[16..24] == d && s[24..32] == e
            && s[32..40] == f && s[40..44] == g
  {}

  /** A header that advertises a payload of 2^64 - 1 bytes passes the bounds check. */
  lemma WrappedLength()
    ensures Verdict(MAGIC + Le(VERSION, 4) + Le(0, 8) + Le(0, 8) + Le(0, 8) + Le(U64 - 1, 8) + Le(0, 4)) == OutsideImage
  {
    var image := MAGIC + Le(VERSION, 4) + Le(0, 8) + Le(0, 8) + Le(0, 8) + Le(U64 - 1, 8) + Le(0, 4);
    SevenParts(MAGIC, Le(VERSION, 4), Le(0, 8), Le(0, 8), Le(0, 8), Le(U64 - 1, 8), Le(0, 4), []);
    assert image + [] == image;
    hide Le, Val, Verdict;
    ReadU32(image, 4, VERSION);
    ReadU64(image, 32, U64 - 1);
    OutsideImageExactly(image);
  }

  // ---- the advertised last Seq -------------------------------------------------------------

  /** A validated archive holds a record with the last Seq it advertises exactly when it has records. */
  lemma AdvertisedSeqHeldExactly(image: Bytes)
    requires Verdict(image) == Ok
    ensures (exists i :: 0 <= i < |RecordsOf(image)| && SeqOf(RecordsOf(image)[i]) == GetU64(image, 16))
            <==> GetU64(image, 24) > 0
  {
    hide GetU64, GetU32, SeqOf, Frames, Crc32.Crc;
    var rs := RecordsOf(image);
    assert Replayable(image, rs);
    if rs != [] { assert SeqOf(rs[|rs| - 1]) == GetU64(image, 16); }
  }

  /** An archive without records may advertise anything: it validates, and every target up to what it
      advertises is admitted and replays nothing. */
  lemma EmptyArchiveAdvertisesAnything(first: nat, last: nat)
    requires first < U64 && last < U64
    ensures var image := Header(first, last, 0, []);
            && Verdict(image) == Ok && RecordsOf(image) == [] && GetU64(image, 16) == last
            && forall target: nat :: UpTo(RecordsOf(image), target) == []
  {
    var image := Header(first, last, 0, []);
    HeaderFields(first, last, 0, [], []);
    assert image + [] == image;
    assert Frames([], HEAD) == Some([]);
    hide Header, GetU32, GetU64, Frames, Crc32.Crc, Verdict, RecordsOf;
    assert image[HEADER..HEADER] == [];
    VerdictHolds(image, []);
  }

  /** A gap-free slice of a commit history, `log[..]` holding the Seqs after `before`. */
  function Export(log: seq<Op>, before: nat): (xs: seq<Exported>)
    ensures |xs| == |log| && forall i :: 0 <= i < |log| ==> xs[i] == Exported(before + i + 1, log[i])
  {
    seq(|log|, i requires 0 <= i < |log| => Exported(before + i + 1, log[i]))
  }

  function FirstSeqOf(xs: seq<Exported>): nat {
    if xs == [] then 0 else xs[0].seqNo
  }

  function LastSeqOf(xs: seq<Exported>): nat {
    if xs == [] then 0 else xs[|xs| - 1].seqNo
  }

  lemma ImageFields(xs: seq<Exported>)
    requires Fits(xs) && |xs| < U64 && HEADER + |Payload(xs)| < U64
    ensures var image := Image(xs);
      && |image| == HEADER + |Payload(xs)| && image[..4] == MAGIC && GetU32(image, 4) == VERSION
      && GetU64(image, 8) == FirstSeqOf(xs) && GetU64(image, 16) == LastSeqOf(xs) && GetU64(image, 24) == |xs|
      && GetU64(image, 32) == |Payload(xs)| && GetU32(image, 40) == Crc32.Crc(Payload(xs))
      && PayloadOf(image) == Payload(xs)
  {
    var p := Payload(xs);
    HeaderFields(FirstSeqOf(xs), LastSeqOf(xs), |xs|, p, p);
    hide Header, Payload, GetU32, GetU64, Crc32.Crc;
    assert Image(xs)[HEADER..HEADER + |p|] == p;
  }

  lemma VerdictHolds(image: Bytes, rs: seq<Record>)
    requires |image| >= HEADER && image[..4] == MAGIC && GetU32(image, 4) == VERSION
    requires HEADER + GetU64(image, 32) <= |image| && HEADER + GetU64(image, 32) < U64
    requires Crc32.Crc(PayloadOf(image)) == GetU32(image, 40)
    requires Frames(PayloadOf(image), HEAD) == Some(rs) && Replayable(image, rs)
    ensures Verdict(image) == Ok && RecordsOf(image) == rs
  {
    hide Replayable, Frames, Crc32.Crc, GetU32, GetU64;
  }

  /** The archive of a gap-free slice validates and holds exactly the slice. */
  lemma BuiltIsValid(log: seq<Op>, before: nat)
    requires Fits(Export(log, before)) && HEADER + |Payload(Export(log, before))| < U64
    requires |log| < U64
    ensures var image := Image(Export(log, before));
            && Verdict(image) == Ok && RecordsOf(image) == ToRecords(Export(log, before))
            && GetU64(image, 8) == (if log == [] then 0 else before + 1)
            && GetU64(image, 16) == if log == [] then 0 else before + |log|
  {
    var xs := Export(log, before);
    var rs := ToRecords(xs);
    ExportContiguous(log, before);
    FramesOfEncode(rs, HEAD);
    ImageFields(xs);
    hide Verdict, RecordsOf, Image, Header, GetU32, GetU64, EncodeAll, Frames, ToRecord, Crc32.Crc;
    VerdictHolds(Image(xs), rs);
  }

  lemma ExportContiguous(log: seq<Op>, before: nat)
    requires Fits(Export(log, before))
    ensures var rs := ToRecords(Export(log, before));
            && Contiguous(rs, before + 1)
            && (forall i :: 0 <= i < |rs| ==> Sized(rs[i], HEAD) && SeqOf(rs[i]) == before + i + 1)
            && Ops(rs) == log
  {
    var xs := Export(log, before);
    var rs := ToRecords(xs);
    hide Le, Val, Sized, SeqOf, OpOf, KindOf;
    forall i | 0 <= i < |rs|
      ensures Sized(rs[i], HEAD) && SeqOf(rs[i]) == before + i + 1 && KindOf(rs[i]) <= 1 && OpOf(rs[i]) == log[i]
    {
      RecordFields(xs[i]);
      RecordSized(xs[i]);
    }
    OpsPointwise(rs, log);
  }

  lemma RecordSized(x: Exported)
    requires Fits([x])
    ensures Sized(ToRecord(x), HEAD)
  {
    assert [x][0] == x;
  }

  lemma {:induction false} OpsPointwise(rs: seq<Record>, ops: seq<Op>)
    requires Headed(rs) && |rs| == |ops| && forall i :: 0 <= i < |rs| ==> OpOf(rs[i]) == ops[i]
    ensures Ops(rs) == ops
    decreases |rs|
  {
    if rs != [] { OpsPointwise(rs[1..], ops[1..]); }
  }

  // ---- the loops ---------------------------------------------------------------------------

  ghost function Prepend(done: seq<Record>, rest: Option<seq<Record>>): Option<seq<Record>> {
    if rest == None then None else Some(done + rest.value)
  }

  lemma PrependStep(done: seq<Record>, payload: Bytes, pos: nat)
    requires pos + HEAD + 8 <= |payload|
    requires var (k, v) := LengthsAt(payload, pos, HEAD); pos + HEAD + 8 + k + v <= |payload|
    requires Frames(payload, HEAD) == Prepend(done, Frames(payload[pos..], HEAD))
    ensures var (k, v) := LengthsAt(payload, pos, HEAD); var next := pos + HEAD + 8 + k + v;
            Frames(payload, HEAD) == Prepend(done + [RecordAt(payload, pos, HEAD)], Frames(payload[next..], HEAD))
  {
    hide Frames, RecordAt, LengthsAt, Readable;
    Advance(payload, pos, HEAD);
    var (k, v) := LengthsAt(payload, pos, HEAD);
    PrependAssoc(done, RecordAt(payload, pos, HEAD), Frames(payload[pos + HEAD + 8 + k + v..], HEAD));
  }

  lemma PrependAssoc(done: seq<Record>, r: Record, rest: Option<seq<Record>>)
    ensures Prepend(done, if rest == None then None else Some([r] + rest.value)) == Prepend(done + [r], rest)
  {
    if rest.Some? { assert done + ([r] + rest.value) == (done + [r]) + rest.value; }
  }

  /** One record out of place spoils the whole list. */
  lemma Spoils(done: seq<Record>, r: Record, rest: Option<seq<Record>>, first: nat)
    requires |r.head| == HEAD && (KindOf(r) > 1 || SeqOf(r) != (first + |done|) % U64)
    ensures var all := Prepend(done + [r], rest); all.Some? ==> !Contiguous(all.value, first)
  {
    if rest.Some? {
      var all := done + [r] + rest.value;
      assert all[|done|] == r;
    }
  }

  lemma ContiguousSnoc(done: seq<Record>, r: Record, first: nat)
    requires Contiguous(done, first) && |r.head| == HEAD && KindOf(r) <= 1 && SeqOf(r) == (first + |done|) % U64
    ensures Contiguous(done + [r], first) && Headed(done + [r])
  {}

  lemma NothingContiguous(first: nat)
    ensures Contiguous([], first)
  {}

  lemma NextSeq(rs: seq<Record>, first: nat)
    requires first < U64 && Contiguous(rs, first)
    ensures (first + |rs|) % U64 == if rs == [] then first else (SeqOf(rs[|rs| - 1]) + 1) % U64
  {
    hide SeqOf, KindOf;
    ModStep(first, |rs|);
  }

  lemma ModStep(first: nat, n: nat)
    requires first < U64
    ensures n == 0 ==> (first + n) % U64 == first
    ensures n > 0 ==> ((first + n - 1) % U64 + 1) % U64 == (first + n) % U64
  {}

  /** The validation loop: framing, record types and Seq contiguity. */
  method CheckRecords(payload: Bytes, first: nat) returns (ok: bool, seen: nat, prev: nat, ghost rs: seq<Record>)
    requires first < U64
    ensures ok <==> Frames(payload, HEAD).Some? && Contiguous(Frames(payload, HEAD).value, first)
    ensures ok ==> Frames(payload, HEAD) == Some(rs) && Headed(rs) && |rs| == seen
    ensures ok && rs != [] ==> SeqOf(rs[|rs| - 1]) == prev
  {
    hide Frames, Readable, First, SeqOf, KindOf, GetU32, Contiguous;
    var pos := 0;
    NothingContiguous(first);
    seen, prev, rs, ok := 0, 0, [], false;
    assert payload[0..] == payload;
    StartsEmpty(payload);
    while pos < |payload|
      invariant pos <= |payload| && !ok
      invariant Frames(payload, HEAD) == Prepend(rs, Frames(payload[pos..], HEAD))
      invariant Contiguous(rs, first) && Headed(rs) && |rs| == seen
      invariant seen > 0 ==> prev == SeqOf(rs[seen - 1])
    {
      if pos + HEAD + 8 > |payload| {
        Stuck(payload, pos, HEAD);
        return;
      }
      var (klen, vlen) := LengthsAt(payload, pos, HEAD);
      if pos + HEAD + 8 + klen + vlen > |payload| {
        Stuck(payload, pos, HEAD);
        return;
      }
      var r := RecordAt(payload, pos, HEAD);
      PrependStep(rs, payload, pos);
      var want := if seen == 0 then first else (prev + 1) % U64;
      NextSeq(rs, first);
      pos := pos + HEAD + 8 + klen + vlen;
      if KindOf(r) > 1 || SeqOf(r) != want {
        Spoils(rs, r, Frames(payload[pos..], HEAD), first);
        return;
      }
      ContiguousSnoc(rs, r, first);
      prev := SeqOf(r);
      rs := rs + [r];
      seen := seen + 1;
    }
    EndsEmpty(payload[pos..], rs);
    ok := true;
  }

  lemma StartsEmpty(payload: Bytes)
    ensures Frames(payload, HEAD) == Prepend([], Frames(payload, HEAD))
  {
    hide Frames;
    if Frames(payload, HEAD).Some? { assert [] + Frames(payload, HEAD).value == Frames(payload, HEAD).value; }
  }

  lemma EndsEmpty(s: Bytes, done: seq<Record>)
    requires s == []
    ensures Prepend(done, Frames(s, HEAD)) == Some(done)
  {
    assert done + [] == done;
  }

  /** `validate_archive_image`. */
  method Validate(image: Bytes) returns (e: Error)
    ensures e == Verdict(image)
  {
    hide Frames, GetU32, GetU64, SeqOf, KindOf, Contiguous;
    if |image| < HEADER || image[..4] != MAGIC { return Corruption; }
    if GetU32(image, 4) != VERSION { return InvalidArgument; }
    var first, last := GetU64(image, 8), GetU64(image, 16);
    var count, len := GetU64(image, 24), GetU64(image, 32);
    if (HEADER + len) % U64 > |image| { return Corruption; }
    if HEADER + len > |image| { return OutsideImage; }
    var crc := Crc32.Compute(image[HEADER..HEADER + len]);
    if crc != GetU32(image, 40) { return Corruption; }
    var ok, seen, prev, rs := CheckRecords(image[HEADER..HEADER + len], first);
    if !ok { return Corruption; }
    if seen != count { return Corruption; }
    if seen != 0 && prev != last { return Corruption; }
    e := Ok;
  }

  /** The replay loop over a well-framed payload. */
  method ReplayUpTo(payload: Bytes, target: nat, dst: Engine)
    requires dst.Valid() && Frames(payload, HEAD).Some? && Headed(Frames(payload, HEAD).value)
    modifies dst
    ensures dst.Valid()
    ensures dst.log == old(dst.log) + Ops(UpTo(Frames(payload, HEAD).value, target))
  {
    hide Represents, Frames, Readable, First, SeqOf, KindOf, GetU32, OpOf, Replaying, Ops, UpTo, Headed;
    var pos := 0;
    ghost var done: seq<Record> := [];
    ReplayStart(payload, target);
    while pos < |payload|
      invariant pos <= |payload| && dst.Valid()
      invariant Replaying(payload, pos, target, done)
      invariant Headed(done) && dst.log == old(dst.log) + Ops(done)
    {
      ReplayStep(payload, pos, target, done);
      var (klen, vlen) := LengthsAt(payload, pos, HEAD);
      var r := RecordAt(payload, pos, HEAD);
      pos := pos + HEAD + 8 + klen + vlen;
      if SeqOf(r) > target {
        return;
      }
      var _ := dst.Commit(OpOf(r));
      done := done + [r];
    }
    ReplayEnd(payload, target, done);
  }

  /** `done` is what has been replayed when the loop is at `pos`. */
  ghost predicate Replaying(payload: Bytes, pos: nat, target: nat, done: seq<Record>)
    requires pos <= |payload| && Frames(payload, HEAD).Some? && Headed(Frames(payload, HEAD).value)
  {
    var rest := Frames(payload[pos..], HEAD);
    && Headed(done) && rest.Some? && Headed(rest.value)
    && UpTo(Frames(payload, HEAD).value, target) == done + UpTo(rest.value, target)
  }

  lemma ReplayStart(payload: Bytes, target: nat)
    requires Frames(payload, HEAD).Some? && Headed(Frames(payload, HEAD).value)
    ensures Headed([]) && Replaying(payload, 0, target, []) && Ops([]) == []
  {
    hide Frames, UpTo;
    assert payload[0..] == payload;
    assert [] + UpTo(Frames(payload, HEAD).value, target) == UpTo(Frames(payload, HEAD).value, target);
  }

  lemma ReplayStep(payload: Bytes, pos: nat, target: nat, done: seq<Record>)
    requires pos < |payload| && Frames(payload, HEAD).Some? && Headed(Frames(payload, HEAD).value)
    requires Replaying(payload, pos, target, done)
    ensures pos + HEAD + 8 <= |payload| && Headed(done)
    ensures var (k, v) := LengthsAt(payload, pos, HEAD); var next := pos + HEAD + 8 + k + v;
            && next <= |payload|
            && var r := RecordAt(payload, pos, HEAD);
            && |r.head| == HEAD
            && (SeqOf(r) > target ==> UpTo(Frames(payload, HEAD).value, target) == done)
            && (SeqOf(r) <= target ==>
                  && Replaying(payload, next, target, done + [r])
                  && Headed(done + [r]) && Ops(done + [r]) == Ops(done) + [OpOf(r)])
  {
    hide Frames, Readable, First, SeqOf, KindOf, GetU32, OpOf, UpTo;
    NotStuck(payload, pos);
    Advance(payload, pos, HEAD);
    var (k, v) := LengthsAt(payload, pos, HEAD);
    var r, tail := RecordAt(payload, pos, HEAD), Frames(payload[pos + HEAD + 8 + k + v..], HEAD).value;
    UpToCons(r, tail, target);
    if SeqOf(r) > target {
      assert done + [] == done;
    } else {
      OpsConcat(done, [r]);
      assert Ops([r]) == [OpOf(r)];
      assert done + ([r] + UpTo(tail, target)) == (done + [r]) + UpTo(tail, target);
    }
  }

  lemma ReplayEnd(payload: Bytes, target: nat, done: seq<Record>)
    requires Frames(payload, HEAD).Some? && Headed(Frames(payload, HEAD).value)
    requires Replaying(payload, |payload|, target, done)
    ensures UpTo(Frames(payload, HEAD).value, target) == done
  {
    EndsEmpty(payload[|payload|..], []);
    assert done + [] == done;
  }

  lemma UpToCons(r: Record, tail: seq<Record>, target: nat)
    requires Headed([r] + tail)
    ensures |r.head| == HEAD && Headed(tail)
    ensures UpTo([r] + tail, target) == if SeqOf(r) > target then [] else [r] + UpTo(tail, target)
  {
    assert ([r] + tail)[0] == r && ([r] + tail)[1..] == tail;
    assert forall i :: 0 <= i < |tail| ==> tail[i] == ([r] + tail)[i + 1];
  }

  lemma NotStuck(s: Bytes, pos: nat)
    requires pos < |s| && Frames(s[pos..], HEAD).Some?
    ensures pos + HEAD + 8 <= |s|
    ensures var (k, v) := LengthsAt(s, pos, HEAD); pos + HEAD + 8 + k + v <= |s|
  {
    FirstAt(s, pos, HEAD);
  }

  /** `apply_archive_image`: an archive that does not validate, or a target beyond it, leaves the engine
      untouched; otherwise the records up to the first larger Seq are replayed in order. */
  method Apply(image: Bytes, target: nat, dst: Engine) returns (e: Error)
    requires dst.Valid()
    modifies dst
    ensures dst.Valid()
    ensures e == if Verdict(image) != Ok then Verdict(image)
                 else if target > GetU64(image, 16) then InvalidArgument else Ok
    ensures e != Ok ==> dst.log == old(dst.log)
    ensures e == Ok ==> dst.log == old(dst.log) + Ops(UpTo(RecordsOf(image), target))
  {
    hide Frames, GetU32, GetU64, Represents, Contiguous;
    e := Validate(image);
    if e != Ok { return; }
    if target > GetU64(image, 16) { return InvalidArgument; }
    assert Headed(RecordsOf(image));
    ReplayUpTo(image[HEADER..HEADER + GetU64(image, 32)], target, dst);
  }

  lemma BuildStep(xs: seq<Exported>, i: nat)
    requires i < |xs|
    ensures EncodeAll(ToRecords(xs)[..i + 1]) == EncodeAll(ToRecords(xs)[..i]) + Encode(ToRecord(xs[i]))
  {
    var rs := ToRecords(xs);
    assert rs[..i + 1] == rs[..i] + [rs[i]];
    EncodeAllConcat(rs[..i], [rs[i]]);
    assert EncodeAll([rs[i]]) == Encode(rs[i]) + EncodeAll([]);
  }

  /** `build_archive_image`: the same bytes for the same operation log. */
  method Build(xs: seq<Exported>) returns (image: Bytes)
    ensures image == Image(xs)
  {
    hide Le, EncodeAll, ToRecord;
    var payload := [];
    EmptyEncoding(ToRecords(xs));
    for i := 0 to |xs|
      invariant payload == EncodeAll(ToRecords(xs)[..i])
    {
      BuildStep(xs, i);
      var op := xs[i].op;
      var vlen := if op.Del? then 0 else |op.value|;
      var record := PutU64([], xs[i].seqNo);
      record := record + [if op.Del? then 1 else 0];
      record := PutU32(record, |op.key|);
      record := PutU32(record, vlen);
      record := record + op.key;
      if op.Put? {
        record := record + op.value;
      }
      assert [] + Le(xs[i].seqNo, 8) == Le(xs[i].seqNo, 8);
      RecordBytes(xs[i], record);
      payload := payload + record;
    }
    assert ToRecords(xs)[..|xs|] == ToRecords(xs);
    var crc := Crc32.Compute(payload);
    var first, last := FirstSeqOf(xs), LastSeqOf(xs);
    image := PutU32(MAGIC, VERSION);
    image := PutU64(image, first);
    image := PutU64(image, last);
    image := PutU64(image, |xs|);
    image := PutU64(image, |payload|);
    image := PutU32(image, crc);
    image := image + payload;
  }

  lemma EmptyEncoding(rs: seq<Record>)
    ensures EncodeAll(rs[..0]) == []
  {}

  lemma RecordBytes(x: Exported, record: Bytes)
    requires record == Le(x.seqNo, 8) + [if x.op.Del? then 1 else 0] + Le(|x.op.key|, 4)
                       + Le(if x.op.Del? then 0 else |x.op.value|, 4) + x.op.key + if x.op.Put? then x.op.value else []
    ensures Encode(ToRecord(x)) == record
  {}

  // ---- exactly the archives of the format are accepted -------------------------------------

  /** The first nine bytes of a record with the Seq: the Seq itself, then 0 for a put or 1 for a delete. */
  ghost predicate IsRecord(head: Bytes, seqNo: nat) {
    head == Le(seqNo, 8) + [0] || head == Le(seqNo, 8) + [1]
  }

  lemma HeadIs(r: Record, seqNo: nat)
    requires |r.head| == HEAD && seqNo < U64
    ensures IsRecord(r.head, seqNo) <==> KindOf(r) <= 1 && SeqOf(r) == seqNo
  {
    assert r.head == r.head[0..8] + [r.head[8]];
    hide Le, Val;
    LeOfVal(r.head[0..8]);
    Widths();
    ValOfLe(seqNo, 8);
    assert forall b: Byte :: (Le(seqNo, 8) + [b])[0..8] == Le(seqNo, 8) && (Le(seqNo, 8) + [b])[8] == b;
  }

  lemma ContiguousIs(rs: seq<Record>, first: nat)
    requires Headed(rs) && first < U64
    ensures Contiguous(rs, first) <==> forall i :: 0 <= i < |rs| ==> IsRecord(rs[i].head, (first + i) % U64)
    ensures Contiguous(rs, first) && rs != [] ==> SeqOf(rs[|rs| - 1]) == (first + |rs| - 1) % U64
  {
    hide IsRecord, KindOf, SeqOf;
    forall i | 0 <= i < |rs|
      ensures IsRecord(rs[i].head, (first + i) % U64) <==> KindOf(rs[i]) <= 1 && SeqOf(rs[i]) == (first + i) % U64
    {
      HeadIs(rs[i], (first + i) % U64);
    }
    if Contiguous(rs, first) && rs != [] { LastSeq(rs, first); }
  }

  /** The archive of a contiguous run of records, with anything behind it. */
  ghost predicate IsArchive(image: Bytes, first: nat, last: nat, rs: seq<Record>, tail: Bytes) {
    && first < U64 && last < U64 && (rs != [] ==> last == (first + |rs| - 1) % U64)
    && (forall i :: 0 <= i < |rs| ==> Sized(rs[i], HEAD) && IsRecord(rs[i].head, (first + i) % U64))
    && image == Header(first, last, |rs|, EncodeAll(rs)) + EncodeAll(rs) + tail
  }

  /** A header whose fields check out is the header of its payload. */
  lemma HeaderRebuilt(image: Bytes)
    requires HEADER <= |image| && image[..4] == MAGIC && GetU32(image, 4) == VERSION
    requires HEADER + GetU64(image, 32) <= |image| && Crc32.Crc(PayloadOf(image)) == GetU32(image, 40)
    ensures image == Header(GetU64(image, 8), GetU64(image, 16), GetU64(image, 24), PayloadOf(image))
                     + PayloadOf(image) + image[HEADER + GetU64(image, 32)..]
  {
    hide Le, Val, Crc32.Crc;
    LeOfVal(image[4..8]);
    LeOfVal(image[8..16]);
    LeOfVal(image[16..24]);
    LeOfVal(image[24..32]);
    LeOfVal(image[32..40]);
    LeOfVal(image[40..44]);
    HeaderJoined(image);
    var end := HEADER + GetU64(image, 32);
    assert image == image[..HEADER] + image[HEADER..end] + image[end..];
  }

  lemma HeaderJoined(s: Bytes)
    requires |s| >= HEADER
    ensures s[..4] + s[4..8] + s[8..16] + s[16..24] + s[24..32] + s[32..40] + s[40..44] == s[..HEADER]
  {}

  lemma PayloadBehindHeader(first: nat, last: nat, count: nat, payload: Bytes, tail: Bytes)
    requires first < U64 && last < U64 && count < U64 && HEADER + |payload| + |tail| < U64
    ensures var image := Header(first, last, count, payload) + payload + tail;
            && |image| == HEADER + |payload| + |tail| && image[..4] == MAGIC && GetU32(image, 4) == VERSION
            && GetU64(image, 8) == first && GetU64(image, 16) == last && GetU64(image, 24) == count
            && GetU64(image, 32) == |payload| && GetU32(image, 40) == Crc32.Crc(payload)
            && PayloadOf(image) == payload
  {
    var image := Header(first, last, count, payload) + payload + tail;
    assert image == Header(first, last, count, payload) + (payload + tail);
    HeaderFields(first, last, count, payload, payload + tail);
    hide Header, GetU32, GetU64, Crc32.Crc;
    assert image[HEADER..HEADER + |payload|] == payload;
  }

  lemma ArchiveIsAccepted(image: Bytes, first: nat, last: nat, rs: seq<Record>, tail: Bytes)
    requires |image| < U64 && IsArchive(image, first, last, rs, tail)
    ensures Verdict(image) == Ok
  {
    hide Header, GetU32, GetU64, Crc32.Crc, Frames, EncodeAll, SeqOf, Contiguous, Verdict, Sized, IsRecord;
    var p := EncodeAll(rs);
    SizedAreHeaded(rs);
    ContiguousIs(rs, first);
    FramesOfEncode(rs, HEAD);
    FramesCount(p, HEAD);
    PayloadBehindHeader(first, last, |rs|, p, tail);
    VerdictHolds(image, rs);
  }

  lemma SizedAreHeaded(rs: seq<Record>)
    requires forall i :: 0 <= i < |rs| ==> Sized(rs[i], HEAD)
    ensures Headed(rs)
  {}

  lemma AcceptedIsArchive(image: Bytes)
    requires Verdict(image) == Ok
    ensures IsArchive(image, GetU64(image, 8), GetU64(image, 16), RecordsOf(image), image[HEADER + GetU64(image, 32)..])
  {
    hide Val, Le, Header, Crc32.Crc, EncodeAll, Sized, Frames, SeqOf, Contiguous, IsRecord;
    HeaderRebuilt(image);
    ContiguousIs(RecordsOf(image), GetU64(image, 8));
    EncodeOfFrames(PayloadOf(image), HEAD);
  }

  /** Validation accepts exactly the archives of contiguous runs, whatever follows them. */
  lemma AcceptedExactly(image: Bytes)
    requires |image| < U64
    ensures Verdict(image) == Ok <==>
            exists first: nat, last: nat, rs: seq<Record>, tail: Bytes :: IsArchive(image, first, last, rs, tail)
  {
    if Verdict(image) == Ok {
      AcceptedIsArchive(image);
    }
    hide Verdict, IsArchive;
    forall first: nat, last: nat, rs: seq<Record>, tail: Bytes | IsArchive(image, first, last, rs, tail)
      ensures Verdict(image) == Ok
    {
      ArchiveIsAccepted(image, first, last, rs, tail);
    }
  }

  /** The archive with its payload replaced by one of the same length. */
  function WithPayload(image: Bytes, payload: Bytes): Bytes
    requires HEADER + |payload| <= |image|
  {
    image[..HEADER] + payload + image[HEADER + |payload|..]
  }

  lemma WithPayloadFields(image: Bytes, payload: Bytes)
    requires HEADER <= |image| && HEADER + GetU64(image, 32) <= |image| && |payload| == GetU64(image, 32)
    ensures var bad := WithPayload(image, payload);
            && |bad| == |image| && bad[..4] == image[..4] && GetU32(bad, 4) == GetU32(image, 4)
            && GetU64(bad, 32) == GetU64(image, 32) && GetU32(bad, 40) == GetU32(image, 40)
            && PayloadOf(bad) == payload
  {
    var bad := WithPayload(image, payload);
    assert bad[..HEADER] == image[..HEADER];
    hide Val;
    SliceOfPrefix(bad, image, HEADER, 4, 8);
    SliceOfPrefix(bad, image, HEADER, 32, 40);
    SliceOfPrefix(bad, image, HEADER, 40, 44);
    SliceOfPrefix(bad, image, HEADER, 0, 4);
    assert bad[HEADER..HEADER + |payload|] == payload;
  }

  /** Damage confined to four consecutive bytes of the payload is rejected. */
  lemma DamagedRejected(image: Bytes, p: Bytes, u: Bytes, v: Bytes, q: Bytes)
    requires |image| < U64 && Verdict(image) == Ok && PayloadOf(image) == p + u + q && |u| == |v| <= 4 && u != v
    ensures HEADER + |p + v + q| <= |image| && Verdict(WithPayload(image, p + v + q)) == Corruption
  {
    WithPayloadFields(image, p + v + q);
    Crc32.BurstDetected(p, u, v, q);
    hide GetU32, GetU64, Crc32.Crc, WithPayload, Frames, Replayable;
  }

  /** So is any damage to the stored checksum. */
  lemma DamagedChecksumRejected(image: Bytes, v: Bytes)
    requires |image| < U64 && Verdict(image) == Ok && |v| == 4 && v != image[40..44]
    ensures Verdict(image[..40] + v + image[44..]) == Corruption
  {
    var bad := image[..40] + v + image[44..];
    assert bad[..40] == image[..40] && bad[40..44] == v && bad[44..] == image[44..];
    SliceOfPrefix(bad, image, 40, 0, 4);
    SliceOfPrefix(bad, image, 40, 4, 8);
    SliceOfPrefix(bad, image, 40, 32, 40);
    LeOfVal(v);
    LeOfVal(image[40..44]);
    hide Val, Le, Crc32.Crc, Frames, Replayable;
    var len := GetU64(image, 32);
    assert bad[HEADER..HEADER + len] == bad[44..][..len] == image[44..][..len] == image[HEADER..HEADER + len];
  }

  /** Replaying a damaged archive, to whatever target, reports corruption and leaves the engine as it
      was. */
  method ApplyDamaged(image: Bytes, target: nat, v: Bytes, p: Bytes, q: Bytes, ghost u: Bytes, dst: Engine)
    returns (e: Error)
    requires |image| < U64 && Verdict(image) == Ok && PayloadOf(image) == p + u + q && |u| == |v| <= 4 && u != v
    requires dst.Valid()
    modifies dst
    ensures dst.Valid() && e == Corruption && dst.log == old(dst.log)
  {
    hide Verdict, Represents;
    DamagedRejected(image, p, u, v, q);
    e := Apply(WithPayload(image, p + v + q), target, dst);
  }

  // ---- an archive that wraps ----------------------------------------------------------------

  /** Two deletes, with the last Seq below 2^64 and Seq 0. */
  function Wrapping(): seq<Exported> {
    [Exported(U64 - 1, Del([])), Exported(0, Del([]))]
  }

  lemma WrappingRecords()
    ensures var rs := ToRecords(Wrapping());
            && |rs| == 2 && Contiguous(rs, U64 - 1) && SeqOf(rs[1]) == 0
            && Sized(rs[0], HEAD) && Sized(rs[1], HEAD)
  {
    var xs := Wrapping();
    var rs := ToRecords(xs);
    hide Le, Val, Sized, SeqOf, OpOf, KindOf;
    RecordFields(xs[0]);
    RecordFields(xs[1]);
    RecordSized(xs[0]);
    RecordSized(xs[1]);
    assert (U64 - 1 + 1) % U64 == 0;
  }

  /** Such an archive validates, and replaying it up to Seq 0 misses the record that has Seq 0. */
  lemma WrappedArchiveMissesARecord()
    ensures var image := Image(Wrapping());
            && Verdict(image) == Ok && GetU64(image, 16) == 0
            && UpTo(RecordsOf(image), 0) != AtMost(RecordsOf(image), 0)
  {
    var xs := Wrapping();
    var rs := ToRecords(xs);
    WrappingRecords();
    WrappingSmall();
    hide Le, Val, Sized, SeqOf, OpOf, KindOf, ToRecord, EncodeAll, Frames, Crc32.Crc, GetU32, GetU64, Verdict,
         RecordsOf, Image, Header, UpTo, AtMost;
    ImageFields(xs);
    FramesOfEncode(rs, HEAD);
    VerdictHolds(Image(xs), rs);
    WrappedIsMissed(rs, U64 - 1, 0);
  }

  lemma WrappingSmall()
    ensures Fits(Wrapping()) && HEADER + |Payload(Wrapping())| < U64
  {
    var rs := ToRecords(Wrapping());
    assert rs == [rs[0]] + [rs[1]];
    EncodeAllConcat([rs[0]], [rs[1]]);
    assert EncodeAll([rs[0]]) == Encode(rs[0]) + EncodeAll([]) && EncodeAll([rs[1]]) == Encode(rs[1]) + EncodeAll([]);
    hide Le;
    assert |Encode(rs[0])| == 17 && |Encode(rs[1])| == 17;
  }

  // ---- the recovery theorems ---------------------------------------------------------------

  lemma {:induction false} UpToTakes(rs: seq<Record>, before: nat, target: nat)
    requires Headed(rs) && forall i :: 0 <= i < |rs| ==> SeqOf(rs[i]) == before + i + 1
    ensures var n := if target <= before then 0 else if target - before <= |rs| then target - before else |rs|;
            UpTo(rs, target) == rs[..n]
    decreases |rs|
  {
    if rs != [] && target > before {
      UpToTakes(rs[1..], before + 1, target);
      var n := if target - before <= |rs| then target - before else |rs|;
      assert rs[..n] == [rs[0]] + rs[1..][..n - 1];
    }
  }

  lemma {:induction false} OpsTake(rs: seq<Record>, n: nat)
    requires Headed(rs) && n <= |rs|
    ensures Headed(rs[..n]) && |Ops(rs)| == |rs| && Ops(rs[..n]) == Ops(rs)[..n]
    decreases |rs|
  {
    if rs != [] && n > 0 {
      assert rs[..n][1..] == rs[1..][..n - 1];
      OpsTake(rs[1..], n - 1);
    } else if rs != [] {
      OpsTake(rs[1..], 0);
    }
  }

  lemma SliceUpTo(rs: seq<Record>, log: seq<Op>, before: nat, target: nat)
    requires Headed(rs) && Ops(rs) == log && forall i :: 0 <= i < |rs| ==> SeqOf(rs[i]) == before + i + 1
    requires before <= target <= before + |log|
    ensures Headed(UpTo(rs, target)) && Ops(UpTo(rs, target)) == log[..target - before]
  {
    hide SeqOf, OpOf, Ops, UpTo;
    OpsTake(rs, 0);
    UpToTakes(rs, before, target);
    OpsTake(rs, target - before);
  }

  /** The slice fits the format: 32-bit lengths, 64-bit Seqs and payload. */
  predicate Archivable(log: seq<Op>, before: nat) {
    Fits(Export(log, before)) && HEADER + |Payload(Export(log, before))| < U64 && |log| < U64
  }

  /** Replaying the archive of a gap-free slice up to a target within it commits exactly the slice up to
      the target. */
  lemma SliceReplays(log: seq<Op>, before: nat, target: nat)
    requires Archivable(log, before) && before <= target <= before + |log| && (log == [] ==> target == 0)
    ensures var image := Image(Export(log, before));
            && Verdict(image) == Ok && target <= GetU64(image, 16)
            && Ops(UpTo(RecordsOf(image), target)) == log[..target - before]
  {
    var rs := ToRecords(Export(log, before));
    BuiltIsValid(log, before);
    ExportContiguous(log, before);
    hide Verdict, RecordsOf, Image, GetU64, ToRecord, SeqOf, KindOf, OpOf, Ops, UpTo, Archivable, Fits, Payload;
    SliceUpTo(rs, log, before, target);
  }

  /** Archive a slice and replay it, up to `target`, on top of what `dst` already holds. */
  method ArchiveAndReplay(log: seq<Op>, before: nat, target: nat, dst: Engine) returns (e: Error)
    requires Archivable(log, before) && before <= target <= before + |log| && (log == [] ==> target == 0)
    requires dst.Valid()
    modifies dst
    ensures dst.Valid() && e == Ok && dst.log == old(dst.log) + log[..target - before]
  {
    hide Archivable, Verdict, RecordsOf, Payload, GetU64, Ops, UpTo, Image, Represents;
    SliceReplays(log, before, target);
    var image := Build(Export(log, before));
    e := Apply(image, target, dst);
  }

  /** Point-in-time recovery: from the archive of a gap-free history starting at Seq 1, restoring to any
      target within it into a fresh engine gives an engine that answers like the source at every
      snapshot up to the target. */
  method RestoreToTarget(log: seq<Op>, target: nat) returns (dst: Engine, e: Error)
    requires Archivable(log, 0) && target <= |log|
    ensures fresh(dst) && dst.Valid() && e == Ok
    ensures forall s: nat :: s <= target ==> AsOf(dst.log, s) == AsOf(log, s)
  {
    hide Archivable, Fold, Represents;
    dst := new Engine();
    e := ArchiveAndReplay(log, 0, target, dst);
    assert dst.log == log[..target];
    forall s: nat | s <= target ensures AsOf(dst.log, s) == AsOf(log, s) {
      assert log[..target][..s] == log[..s];
    }
  }

  /** Archives compose: replaying [1..m] and then [m+1..n] commits exactly what [1..n] does. */
  method RestoreInTwoParts(log: seq<Op>, m: nat) returns (dst: Engine)
    requires m <= |log| && Archivable(log[..m], 0) && Archivable(log[m..], m)
    ensures fresh(dst) && dst.Valid()
    ensures dst.log == log && Fold(dst.log) == Fold(log)
  {
    hide Archivable, Fold, Represents;
    dst := new Engine();
    var _ := ArchiveAndReplay(log[..m], 0, m, dst);
    if m < |log| {
      var _ := ArchiveAndReplay(log[m..], m, |log|, dst);
    }
    assert log[..m][..m] == log[..m] && log[m..][..|log| - m] == log[m..] && log[..m] + log[m..] == log;
  }
}
