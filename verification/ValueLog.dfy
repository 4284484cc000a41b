/**
 The append-only value log: checksummed records addressed by fixed-size pointers. A pointer yields
 its own value or nothing, whatever is appended, cut off or damaged.
 */
module ValueLog {
  import opened Options
  import opened Codec
  import opened OpLog
  import Crc32

  const MAGIC: nat := 0x474C564C  // 'LVLG'
  const HEADER: nat := 8
  const PTR: nat := 24

  datatype Pointer = Pointer(valueOff: nat, vlen: nat, crc: nat, gen: nat)

  /** `OutsideImage`: the 64-bit end of the record wrapped, and the source would read past the image. */
  datatype Deref = Absent | Found(value: Value) | OutsideImage

  predicate InWidth(p: Pointer) {
    p.valueOff < U64 && p.vlen < U32 && p.crc < U32 && p.gen < U64
  }

  function EncodePointer(p: Pointer): (s: Bytes)
    ensures |s| == PTR
  {
    Le(p.valueOff, 8) + Le(p.vlen, 4) + Le(p.crc, 4) + Le(p.gen, 8)
  }

  function DecodePointer(s: Bytes): Option<Pointer> {
    if |s| != PTR then None else Some(Pointer(GetU64(s, 0), GetU32(s, 8), GetU32(s, 12), GetU64(s, 16)))
  }

  /** Pointers survive storage, and every 24-byte string is the encoding of what it decodes to. */
  lemma PointerRoundTrip(p: Pointer)
    requires InWidth(p)
    ensures DecodePointer(EncodePointer(p)) == Some(p)
  {
    var s := EncodePointer(p);
    PointerParts(Le(p.valueOff, 8), Le(p.vlen, 4), Le(p.crc, 4), Le(p.gen, 8));
    hide Le, Val;
    ReadU64(s, 0, p.valueOff);
    ReadU32(s, 8, p.vlen);
    ReadU32(s, 12, p.crc);
    ReadU64(s, 16, p.gen);
  }

  lemma PointerBytesRoundTrip(s: Bytes)
    requires DecodePointer(s).Some?
    ensures EncodePointer(DecodePointer(s).value) == s && InWidth(DecodePointer(s).value)
  {
    hide Le, Val;
    LeOfVal(s[0..8]);
    LeOfVal(s[8..12]);
    LeOfVal(s[12..16]);
    LeOfVal(s[16..24]);
    PointerJoined(s);
  }

  lemma PointerParts(a: Bytes, b: Bytes, c: Bytes, d: Bytes)
    requires |a| == |d| == 8 && |b| == |c| == 4
    ensures var s := a + b + c + d; s[0..8] == a && s[8..12] == b && s[12..16] == c && s[16..24] == d
  {}

  lemma PointerJoined(s: Bytes)
    requires |s| == PTR
    ensures s[0..8] + s[8..12] + s[12..16] + s[16..24] == s
  {}

  function Body(value: Value): (b: Bytes)
    ensures |b| == HEADER + |value|
  {
    Le(MAGIC, 4) + Le(|value|, 4) + value
  }

  function Encoded(value: Value): (r: Bytes)
    ensures |r| == HEADER + |value| + 4
  {
    Body(value) + Le(Crc32.Crc(Body(value)), 4)
  }

  /** The pointer `encode_vlog_record` hands out for a record appended at `base`. */
  function PointerTo(value: Value, base: nat, gen: nat): Pointer {
    Pointer((base + HEADER) % U64, |value| % U32, Crc32.Crc(Body(value)), gen)
  }

  /** `vlog_deref`. */
  function Dereference(image: Bytes, p: Pointer): Deref {
    if p.valueOff < HEADER then Absent
    else
      var off := p.valueOff - HEADER;
      var end := off + HEADER + p.vlen + 4;
      if end % U64 > |image| then Absent
      else if end > |image| then OutsideImage
      else if GetU32(image, off) != MAGIC then Absent
      else if GetU32(image, off + 4) != p.vlen then Absent
      else
        var want := GetU32(image, off + HEADER + p.vlen);
        var got := Crc32.Crc(image[off..off + HEADER + p.vlen]);
        if want != got || want != p.crc then Absent
        else Found(image[p.valueOff..p.valueOff + p.vlen])
  }

  /** The bounds check misleads exactly for pointers whose record end passes 2^64. */
  lemma OutsideImageExactly(image: Bytes, p: Pointer)
    requires InWidth(p) && |image| < U64
    ensures Dereference(image, p) == OutsideImage <==>
            p.valueOff >= HEADER && p.valueOff + p.vlen + 4 >= U64 && p.valueOff + p.vlen + 4 - U64 <= |image|
  {}

  /** A pointer four bytes short of 2^64 passes the bounds check of an empty image. */
  lemma WrappedEnd()
    ensures var p := Pointer(U64 - 4, 0, 0, 0); InWidth(p) && Dereference([], p) == OutsideImage
  {
    OutsideImageExactly([], Pointer(U64 - 4, 0, 0, 0));
  }

  // ---- reading one record ------------------------------------------------------------------

  /** Dereferencing a record looks at nothing but the record's own bytes. */
  lemma ReadsOnlyTheRecord(pre: Bytes, rec: Bytes, post: Bytes, p: Pointer)
    requires p.valueOff == |pre| + HEADER && |rec| == HEADER + p.vlen + 4 && |pre + rec + post| < U64
    ensures Dereference(pre + rec + post, p) ==
      if GetU32(rec, 0) != MAGIC || GetU32(rec, 4) != p.vlen then Absent
      else if GetU32(rec, HEADER + p.vlen) != Crc32.Crc(rec[..HEADER + p.vlen])
              || GetU32(rec, HEADER + p.vlen) != p.crc then Absent
      else Found(rec[HEADER..HEADER + p.vlen])
  {
    var n := HEADER + p.vlen;
    hide GetU32, Val, Crc32.Crc;
    GetInside(pre, rec, post, 0);
    GetInside(pre, rec, post, 4);
    GetInside(pre, rec, post, n);
    Inside(pre, rec, post, 0, n);
    Inside(pre, rec, post, HEADER, n);
    assert rec[0..n] == rec[..n];
    SmallMod(|pre| + n + 4, U64);
  }

  lemma GetInside(pre: Bytes, rec: Bytes, post: Bytes, i: nat)
    requires i + 4 <= |rec|
    ensures GetU32(pre + rec + post, |pre| + i) == GetU32(rec, i)
  {
    hide Val;
    Inside(pre, rec, post, i, i + 4);
  }

  lemma Inside(pre: Bytes, rec: Bytes, post: Bytes, i: nat, j: nat)
    requires i <= j <= |rec|
    ensures (pre + rec + post)[|pre| + i..|pre| + j] == rec[i..j]
  {}

  lemma EncodedParts(value: Value)
    ensures var rec := Encoded(value); var n := HEADER + |value|;
      && rec[0..4] == Le(MAGIC, 4) && rec[4..8] == Le(|value|, 4) && rec[HEADER..n] == value
      && rec[..n] == Body(value) && rec[n..n + 4] == Le(Crc32.Crc(Body(value)), 4)
  {
    FourParts(Le(MAGIC, 4), Le(|value|, 4), value, Le(Crc32.Crc(Body(value)), 4));
    hide Le, Crc32.Crc;
  }

  lemma FourParts(a: Bytes, b: Bytes, c: Bytes, d: Bytes)
    requires |a| == |b| == |d| == 4
    ensures var r := a + b + c + d; var n := 8 + |c|;
      r[0..4] == a && r[4..8] == b && r[8..n] == c && r[..n] == a + b + c && r[n..n + 4] == d
  {}

  lemma EncodedFields(value: Value)
    requires |value| < U32
    ensures var rec := Encoded(value); var n := HEADER + |value|;
      && GetU32(rec, 0) == MAGIC && GetU32(rec, 4) == |value|
      && GetU32(rec, n) == Crc32.Crc(Body(value)) && rec[..n] == Body(value) && rec[HEADER..n] == value
  {
    var rec, n := Encoded(value), HEADER + |value|;
    EncodedParts(value);
    Crc32.CrcInRange(Body(value));
    hide Le, Val, Crc32.Crc, Encoded, Body;
    ReadU32(rec, 0, MAGIC);
    ReadU32(rec, 4, |value|);
    ReadU32(rec, n, Crc32.Crc(Body(value)));
  }

  /** A record reads back wherever it lies. */
  lemma RecordReadsBack(pre: Bytes, value: Value, post: Bytes, gen: nat)
    requires |value| < U32 && |pre + Encoded(value) + post| < U64
    ensures Dereference(pre + Encoded(value) + post, PointerTo(value, |pre|, gen)) == Found(value)
  {
    hide Encoded, Body, GetU32, Crc32.Crc, Dereference, PointerTo;
    EncodedFields(value);
    PointerToFields(value, |pre|, gen);
    ReadsOnlyTheRecord(pre, Encoded(value), post, PointerTo(value, |pre|, gen));
  }

  lemma PointerToFields(value: Value, base: nat, gen: nat)
    requires |value| < U32 && base + HEADER < U64
    ensures PointerTo(value, base, gen) == Pointer(base + HEADER, |value|, Crc32.Crc(Body(value)), gen)
  {
    hide Body, Crc32.Crc;
    SmallMod(base + HEADER, U64);
    SmallMod(|value|, U32);
  }

  /** Cut anywhere before its end, a record is not found. */
  lemma TruncatedIsAbsent(pre: Bytes, value: Value, post: Bytes, gen: nat, cut: nat)
    requires |value| < U32 && |pre + Encoded(value) + post| < U64
    requires cut < |pre| + |Encoded(value)|
    ensures Dereference((pre + Encoded(value) + post)[..cut], PointerTo(value, |pre|, gen)) == Absent
  {
    hide Encoded, Body, GetU32, Crc32.Crc, PointerTo, Dereference;
    PointerToFields(value, |pre|, gen);
    EndsBeyond((pre + Encoded(value) + post)[..cut], PointerTo(value, |pre|, gen));
  }

  lemma EndsBeyond(image: Bytes, p: Pointer)
    requires p.valueOff >= HEADER && |image| < p.valueOff + p.vlen + 4 < U64
    ensures Dereference(image, p) == Absent
  {
    SmallMod(p.valueOff + p.vlen + 4, U64);
    hide GetU32, Crc32.Crc;
  }

  /** Damage confined to four consecutive bytes of a record, with anything at all around it, makes the
      record unreadable; it never yields another value. */
  lemma DamagedIsAbsent(pre: Bytes, value: Value, post: Bytes, gen: nat, p: Bytes, u: Bytes, v: Bytes, q: Bytes)
    requires |value| < U32 && |pre + Encoded(value) + post| < U64
    requires Encoded(value) == p + u + q && |u| == |v| <= 4 && u != v
    ensures Dereference(pre + (p + v + q) + post, PointerTo(value, |pre|, gen)) == Absent
  {
    hide Encoded, Body, GetU32, Crc32.Crc, Dereference, PointerTo;
    PointerToFields(value, |pre|, gen);
    EncodedFields(value);
    ReadsOnlyTheRecord(pre, p + v + q, post, PointerTo(value, |pre|, gen));
    ChecksumFails(Encoded(value), HEADER + |value|, p, u, v, q);
  }

  /** Either the stored checksum or the checksum of the body has changed. */
  lemma ChecksumFails(rec: Bytes, n: nat, p: Bytes, u: Bytes, v: Bytes, q: Bytes)
    requires |rec| == n + 4 && rec == p + u + q && |u| == |v| <= 4 && u != v
    requires GetU32(rec, n) == Crc32.Crc(rec[..n])
    ensures var bad := p + v + q;
            GetU32(bad, n) != Crc32.Crc(rec[..n]) || Crc32.Crc(bad[..n]) != Crc32.Crc(rec[..n])
  {
    hide Crc32.Crc;
    var bad := p + v + q;
    if bad[n..n + 4] == rec[n..n + 4] {
      assert bad[n..] == bad[n..n + 4] && rec[n..] == rec[n..n + 4];
      DamageInBody(rec, n, p, u, v, q);
    } else if GetU32(bad, n) == GetU32(rec, n) {
      ValInjective(bad[n..n + 4], rec[n..n + 4]);
    }
  }

  lemma ValInjective(a: Bytes, b: Bytes)
    requires |a| == |b| && Val(a) == Val(b)
    ensures a == b
  {
    LeOfVal(a);
    LeOfVal(b);
  }

  /** If the checksum field is intact the body changed, within four bytes, and so did its checksum. */
  lemma DamageInBody(rec: Bytes, n: nat, p: Bytes, u: Bytes, v: Bytes, q: Bytes)
    requires rec == p + u + q && |u| == |v| <= 4 && u != v && n <= |rec|
    requires (p + v + q)[n..] == rec[n..]
    ensures Crc32.Crc((p + v + q)[..n]) != Crc32.Crc(rec[..n])
  {
    hide Crc32.Crc;
    var bad := p + v + q;
    var j :| 0 <= j < |u| && u[j] != v[j];
    assert rec[|p| + j] == u[j] && bad[|p| + j] == v[j];
    assert |p| + j < n;
    var k := if |p| + |u| <= n then |u| else n - |p|;
    var q' := if |p| + |u| <= n then q[..n - |p| - |u|] else [];
    assert u[..k][j] != v[..k][j];
    assert rec[..n] == p + u[..k] + q' && bad[..n] == p + v[..k] + q';
    Crc32.BurstDetected(p, u[..k], v[..k], q');
  }

  // ---- append sequences --------------------------------------------------------------------

  /** The image after appending records for the values, oldest first. */
  function Log(values: seq<Value>): Bytes {
    if values == [] then [] else Log(values[..|values| - 1]) + Encoded(values[|values| - 1])
  }

  lemma {:induction false} LogSplits(values: seq<Value>, i: nat) returns (post: Bytes)
    requires i < |values|
    ensures Log(values) == Log(values[..i]) + Encoded(values[i]) + post
    decreases |values|
  {
    hide Encoded;
    var n := |values| - 1;
    if i < n {
      var rest := LogSplits(values[..n], i);
      assert values[..n][..i] == values[..i];
      post := rest + Encoded(values[n]);
      Regroup(Log(values[..i]) + Encoded(values[i]), rest, Encoded(values[n]));
    } else {
      post := [];
      assert Log(values) + [] == Log(values);
    }
  }

  lemma Regroup(a: Bytes, b: Bytes, c: Bytes)
    ensures (a + b) + c == a + (b + c)
  {}

  /** After any append sequence, every pointer, also after being stored and read back, yields its own
      value in every extension of the image. */
  lemma PointersStayGood(values: seq<Value>, i: nat, gen: nat, more: Bytes)
    requires i < |values| && |values[i]| < U32 && gen < U64 && |Log(values) + more| < U64
    ensures var ptr := PointerTo(values[i], |Log(values[..i])|, gen);
            && DecodePointer(EncodePointer(ptr)) == Some(ptr)
            && Dereference(Log(values) + more, ptr) == Found(values[i])
  {
    hide Log, Encoded, Body, GetU32, Dereference, EncodePointer, DecodePointer, Crc32.Crc;
    var rest := LogSplits(values, i);
    var pre := Log(values[..i]);
    Regroup(pre + Encoded(values[i]), rest, more);
    RecordReadsBack(pre, values[i], rest + more, gen);
    Crc32.CrcInRange(Body(values[i]));
    PointerRoundTrip(PointerTo(values[i], |pre|, gen));
  }
}
