/**
 The length-prefixed record framing that backup images and archives share: a fixed-size head, the
 key and value lengths, then key and value. Framing is a bijection between record lists and the
 byte strings it accepts.
 */
module Records {
  import opened Options
  import opened Codec
  import opened OpLog

  datatype Record = Record(head: Bytes, key: Key, value: Value)

  /** What a stored image is worth. `OutsideImage` stands for an advertised length that passes the
      bounds check only because the 64-bit sum wrapped: the source then reads past the image and
      nothing is promised. */
  datatype Error = Ok | Corruption | InvalidArgument | IoFault | OutsideImage

  /** The record's lengths survive the 32-bit casts. */
  predicate Sized(r: Record, h: nat) {
    |r.head| == h && |r.key| < U32 && |r.value| < U32
  }

  function Encode(r: Record): Bytes {
    r.head + Le(|r.key|, 4) + Le(|r.value|, 4) + r.key + r.value
  }

  function EncodeAll(rs: seq<Record>): Bytes {
    if rs == [] then [] else Encode(rs[0]) + EncodeAll(rs[1..])
  }

  /** The record at the front, if a whole one is there, with its length in bytes. */
  function First(s: Bytes, h: nat): (r: Option<(Record, nat)>)
    ensures r.Some? ==> h + 8 <= r.value.1 <= |s|
  {
    if h + 8 > |s| then None
    else
      var k, v := GetU32(s, h), GetU32(s, h + 4);
      var n := h + 8 + k + v;
      if n > |s| then None else Some((Record(s[..h], s[h + 8..h + 8 + k], s[h + 8 + k..n]), n))
  }

  /** All records, if the bytes are exactly a list of whole records. */
  function Frames(s: Bytes, h: nat): Option<seq<Record>>
    decreases |s|
  {
    if s == [] then Some([])
    else
      var f := First(s, h);
      if f == None then None
      else
        var rest := Frames(s[f.value.1..], h);
        if rest == None then None else Some([f.value.0] + rest.value)
  }

  /** The whole records before the first malformed one. */
  function Readable(s: Bytes, h: nat): seq<Record>
    decreases |s|
  {
    var f := First(s, h);
    if s == [] || f == None then [] else [f.value.0] + Readable(s[f.value.1..], h)
  }

  lemma FirstOfEncode(r: Record, rest: Bytes, h: nat)
    requires Sized(r, h)
    ensures First(Encode(r) + rest, h) == Some((r, |Encode(r)|))
  {
    hide Le, Val;
    var s := Encode(r) + rest;
    FiveParts(r.head, Le(|r.key|, 4), Le(|r.value|, 4), r.key, r.value, rest);
    ReadU32(s, h, |r.key|);
    ReadU32(s, h + 4, |r.value|);
  }

  lemma FiveParts(a: Bytes, b: Bytes, c: Bytes, d: Bytes, e: Bytes, rest: Bytes)
    requires |b| == |c| == 4
    ensures var s := a + b + c + d + e + rest; var h := |a|;
            && s[..h] == a && s[h..h + 4] == b && s[h + 4..h + 8] == c
            && s[h + 8..h + 8 + |d|] == d && s[h + 8 + |d|..h + 8 + |d| + |e|] == e
  {}

  lemma EncodeOfFirst(s: Bytes, h: nat)
    requires First(s, h).Some?
    ensures var (r, n) := First(s, h).value; Sized(r, h) && Encode(r) == s[..n] && |Encode(r)| == n
  {
    var (r, n) := First(s, h).value;
    hide Le, Val;
    LeOfVal(s[h..h + 4]);
    LeOfVal(s[h + 4..h + 8]);
    FiveCuts(s, h, h + 4, h + 8, h + 8 + |r.key|, n);
  }

  lemma FiveCuts(s: Bytes, a: nat, b: nat, c: nat, d: nat, e: nat)
    requires a <= b <= c <= d <= e <= |s|
    ensures s[..a] + s[a..b] + s[b..c] + s[c..d] + s[d..e] == s[..e]
  {}

  /** Reading back what was written. */
  lemma {:induction false} FramesOfEncode(rs: seq<Record>, h: nat)
    requires forall i :: 0 <= i < |rs| ==> Sized(rs[i], h)
    ensures Frames(EncodeAll(rs), h) == Some(rs)
    decreases |rs|
  {
    if rs != [] {
      FirstOfEncode(rs[0], EncodeAll(rs[1..]), h);
      assert EncodeAll(rs)[|Encode(rs[0])|..] == EncodeAll(rs[1..]);
      FramesOfEncode(rs[1..], h);
      assert rs == [rs[0]] + rs[1..];
    }
  }

  /** Whatever is accepted is what its records encode to. */
  lemma {:induction false} EncodeOfFrames(s: Bytes, h: nat)
    requires Frames(s, h).Some?
    ensures EncodeAll(Frames(s, h).value) == s
    ensures forall i :: 0 <= i < |Frames(s, h).value| ==> Sized(Frames(s, h).value[i], h)
    decreases |s|
  {
    hide First, Encode, Sized;
    if s != [] {
      EncodeOfFirst(s, h);
      var n := First(s, h).value.1;
      EncodeOfFrames(s[n..], h);
      assert s == s[..n] + s[n..];
    }
  }

  /** The encoding is injective on record lists. */
  lemma EncodeAllInjective(a: seq<Record>, b: seq<Record>, h: nat)
    requires forall i :: 0 <= i < |a| ==> Sized(a[i], h)
    requires forall i :: 0 <= i < |b| ==> Sized(b[i], h)
    requires EncodeAll(a) == EncodeAll(b)
    ensures a == b
  {
    FramesOfEncode(a, h);
    FramesOfEncode(b, h);
  }

  lemma {:induction false} EncodeAllConcat(a: seq<Record>, b: seq<Record>)
    ensures EncodeAll(a + b) == EncodeAll(a) + EncodeAll(b)
    decreases |a|
  {
    if a == [] {
      assert a + b == b;
    } else {
      assert (a + b)[1..] == a[1..] + b;
      EncodeAllConcat(a[1..], b);
    }
  }

  lemma {:induction false} ReadableOfFrames(s: Bytes, h: nat)
    requires Frames(s, h).Some?
    ensures Readable(s, h) == Frames(s, h).value
    decreases |s|
  {
    if s != [] { ReadableOfFrames(s[First(s, h).value.1..], h); }
  }

  // ---- the cursor loops --------------------------------------------------------------------

  /** What a loop reads at `pos`: the two lengths, if the fixed part is there. */
  function LengthsAt(s: Bytes, pos: nat, h: nat): (nat, nat)
    requires pos + h + 8 <= |s|
  {
    (GetU32(s, pos + h), GetU32(s, pos + h + 4))
  }

  function RecordAt(s: Bytes, pos: nat, h: nat): (r: Record)
    requires pos + h + 8 <= |s|
    requires var (k, v) := LengthsAt(s, pos, h); pos + h + 8 + k + v <= |s|
    ensures |r.head| == h
  {
    var (k, v) := LengthsAt(s, pos, h);
    Record(s[pos..pos + h], s[pos + h + 8..pos + h + 8 + k], s[pos + h + 8 + k..pos + h + 8 + k + v])
  }

  lemma FirstAt(s: Bytes, pos: nat, h: nat)
    requires pos <= |s|
    ensures pos + h + 8 > |s| ==> First(s[pos..], h) == None
    ensures pos + h + 8 <= |s| ==>
      var (k, v) := LengthsAt(s, pos, h); var n := h + 8 + k + v;
      First(s[pos..], h) == if pos + n > |s| then None else Some((RecordAt(s, pos, h), n))
  {
    if pos + h + 8 <= |s| {
      var t := s[pos..];
      assert t[h..h + 4] == s[pos + h..pos + h + 4] && t[h + 4..h + 8] == s[pos + h + 4..pos + h + 8];
      var (k, v) := LengthsAt(s, pos, h);
      if pos + h + 8 + k + v <= |s| {
        assert t[..h] == s[pos..pos + h];
        assert t[h + 8..h + 8 + k] == s[pos + h + 8..pos + h + 8 + k];
        assert t[h + 8 + k..h + 8 + k + v] == s[pos + h + 8 + k..pos + h + 8 + k + v];
      }
    }
  }

  /** One record further on. */
  lemma Advance(s: Bytes, pos: nat, h: nat)
    requires pos + h + 8 <= |s|
    requires var (k, v) := LengthsAt(s, pos, h); pos + h + 8 + k + v <= |s|
    ensures var (k, v) := LengthsAt(s, pos, h); var next := pos + h + 8 + k + v;
      && Readable(s[pos..], h) == [RecordAt(s, pos, h)] + Readable(s[next..], h)
      && Frames(s[pos..], h) == (if Frames(s[next..], h) == None then None
                                 else Some([RecordAt(s, pos, h)] + Frames(s[next..], h).value))
  {
    FirstAt(s, pos, h);
    hide First;
    var (k, v) := LengthsAt(s, pos, h);
    assert s[pos..][h + 8 + k + v..] == s[pos + h + 8 + k + v..];
  }

  /** No whole record here. */
  lemma Stuck(s: Bytes, pos: nat, h: nat)
    requires pos < |s|
    requires pos + h + 8 > |s| || var (k, v) := LengthsAt(s, pos, h); pos + h + 8 + k + v > |s|
    ensures Readable(s[pos..], h) == [] && Frames(s[pos..], h) == None
  {
    FirstAt(s, pos, h);
  }
}
