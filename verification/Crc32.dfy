/**
 CRC-32 with the reflected polynomial 0xEDB88320: the table-driven loop refines the bit-at-a-time
 definition (section 8 of RFC 1952), and the checksum detects every change confined to four
 consecutive bytes.
 */
module Crc32 {
  import opened Bits
  import opened Codec

  const POLY: bv32 := 0xEDB88320
  const ONES: bv32 := 0xFFFF_FFFF

  function Xor(a: bv32, b: bv32): bv32 {
    a ^ b
  }

  /** One bit of polynomial division. */
  function Shift(c: bv32): bv32 {
    if c & 1 == 1 then POLY ^ (c >> 1) else c >> 1
  }

  function Shifts(c: bv32, n: nat): bv32
    decreases n
  {
    if n == 0 then c else Shifts(Shift(c), n - 1)
  }

  function Word(b: Byte): bv32 {
    (b as bv8) as bv32
  }

  /** The bit-at-a-time definition: each byte is added to the register, then eight bits are divided out. */
  function Divide(c: bv32, data: Bytes): bv32
    decreases |data|
  {
    if data == [] then c else Divide(Shifts(Xor(c, Word(data[0])), 8), data[1..])
  }

  function ToNat(c: bv32): nat {
    c as nat
  }

  function Crc(data: Bytes): nat {
    ToNat(Xor(Divide(ONES, data), ONES))
  }

  // ---- bit-level facts ---------------------------------------------------------------------

  lemma ShiftXor(a: bv32, b: bv32)
    ensures Shift(a ^ b) == Shift(a) ^ Shift(b)
  {
    XorShiftRight(a, b);
    XorLowBit(a, b);
    LowBit(a);
    LowBit(b);
    var x, y := a >> 1, b >> 1;
    XorRegroup(POLY, x, y);
  }

  lemma ShiftLinear(a: bv32, b: bv32)
    ensures Shift(Xor(a, b)) == Xor(Shift(a), Shift(b))
  {
    hide Shift;
    ShiftXor(a, b);
  }

  lemma ShiftInjective(a: bv32, b: bv32)
    requires Shift(a) == Shift(b)
    ensures a == b
  {}

  lemma EightZeroBits(y: bv32)
    requires y & 0xff == 0
    ensures Shift(Shift(Shift(Shift(Shift(Shift(Shift(Shift(y)))))))) == y >> 8
  {}

  lemma XorCancels(a: bv32, b: bv32, w: bv32)
    ensures Xor(a, w) == Xor(b, w) ==> a == b
    ensures Xor(w, a) == Xor(w, b) ==> a == b
  {}

  lemma XorAssociates(a: bv32, b: bv32, c: bv32)
    ensures Xor(Xor(a, b), c) == Xor(a, Xor(b, c))
  {}

  lemma XorZero(c: bv32)
    ensures Xor(c, 0) == c
  {}

  lemma WordIsLow(b: Byte)
    ensures Word(b) & 0xff == Word(b)
  {
    WidenedIsLow(b as bv8);
  }

  lemma WordInjective(a: Byte, b: Byte)
    requires Word(a) == Word(b)
    ensures a == b
  {
    WidenInjective(a as bv8, b as bv8);
    NarrowRoundTrip(a);
    NarrowRoundTrip(b);
  }

  lemma ToNatInjective(a: bv32, b: bv32)
    requires ToNat(a) == ToNat(b)
    ensures a == b
  {
    NatRoundTrip(a);
    NatRoundTrip(b);
  }

  // ---- algebra of the division -------------------------------------------------------------

  lemma {:induction false} ShiftsLinear(a: bv32, b: bv32, n: nat)
    ensures Shifts(Xor(a, b), n) == Xor(Shifts(a, n), Shifts(b, n))
    decreases n
  {
    hide Shift, Xor;
    if n > 0 {
      ShiftLinear(a, b);
      ShiftsLinear(Shift(a), Shift(b), n - 1);
    }
  }

  lemma {:induction false} ShiftsInjective(a: bv32, b: bv32, n: nat)
    requires Shifts(a, n) == Shifts(b, n)
    ensures a == b
    decreases n
  {
    hide Shift;
    if n > 0 {
      ShiftsInjective(Shift(a), Shift(b), n - 1);
      ShiftInjective(a, b);
    }
  }

  lemma {:induction false} ShiftsAdd(c: bv32, m: nat, n: nat)
    ensures Shifts(c, m + n) == Shifts(Shifts(c, m), n)
    decreases m
  {
    hide Shift;
    if m > 0 { ShiftsAdd(Shift(c), m - 1, n); }
  }

  lemma EightSteps(c: bv32)
    ensures Shifts(c, 8) == Shift(Shift(Shift(Shift(Shift(Shift(Shift(Shift(c))))))))
  {
    hide Shift;
    var c4 := Shift(Shift(Shift(Shift(c))));
    assert Shifts(c, 8) == Shifts(Shift(c), 7) == Shifts(Shift(Shift(c)), 6) == Shifts(Shift(Shift(Shift(c))), 5);
    assert Shifts(c4, 4) == Shifts(Shift(c4), 3) == Shifts(Shift(Shift(c4)), 2) == Shifts(Shift(Shift(Shift(c4))), 1);
    assert Shifts(Shift(Shift(Shift(c4))), 1) == Shifts(Shift(Shift(Shift(Shift(c4)))), 0);
  }

  /** Dividing out eight zero bits only moves the register. */
  lemma ShiftOutZeros(y: bv32)
    requires y & 0xff == 0
    ensures Shifts(y, 8) == y >> 8
  {
    EightSteps(y);
    EightZeroBits(y);
  }

  // ---- the table-driven loop ---------------------------------------------------------------

  /** The table position for a register and a byte. */
  function Index(crc: bv32, b: Byte): bv8 {
    ((crc & 0xff) as bv8) ^ (b as bv8)
  }

  function HighPart(crc: bv32, w: bv32): bv32 {
    (crc ^ w) & 0xFFFF_FF00
  }

  function LowPart(crc: bv32, w: bv32): bv32 {
    (crc & 0xff) ^ w
  }

  function DropByte(crc: bv32): bv32 {
    crc >> 8
  }

  lemma SplitLowByte(crc: bv32, w: bv32)
    requires w & 0xff == w
    ensures Xor(crc, w) == Xor(HighPart(crc, w), LowPart(crc, w))
    ensures HighPart(crc, w) & 0xff == 0
    ensures HighPart(crc, w) >> 8 == DropByte(crc)
  {}

  lemma IndexWidens(crc: bv32, b: bv8)
    ensures (((crc & 0xff) as bv8) ^ b) as bv32 == (crc & 0xff) ^ (b as bv32)
  {}

  lemma IndexWord(crc: bv32, b: Byte)
    ensures Word(Index(crc, b) as int) == LowPart(crc, Word(b))
  {
    IndexWidens(crc, b as bv8);
    ByteRoundTrip(Index(crc, b));
  }

  lemma HighPartShiftsOut(crc: bv32, b: Byte)
    ensures Xor(crc, Word(b)) == Xor(HighPart(crc, Word(b)), LowPart(crc, Word(b)))
    ensures Shifts(HighPart(crc, Word(b)), 8) == DropByte(crc)
  {
    hide Shift, Shifts;
    WordIsLow(b);
    SplitLowByte(crc, Word(b));
    ShiftOutZeros(HighPart(crc, Word(b)));
  }

  /** One table step is eight division steps. */
  lemma TableStep(crc: bv32, b: Byte)
    ensures Shifts(Xor(crc, Word(b)), 8) == Xor(DropByte(crc), Shifts(Word(Index(crc, b) as int), 8))
  {
    hide *;
    IndexWord(crc, b);
    HighPartShiftsOut(crc, b);
    ShiftsLinear(HighPart(crc, Word(b)), LowPart(crc, Word(b)), 8);
  }

  /** The table built once: entry i is byte i after eight division steps. */
  method Table() returns (t: array<bv32>)
    ensures t.Length == 256
    ensures forall i :: 0 <= i < 256 ==> t[i] == Shifts(Word(i), 8)
  {
    t := new bv32[256](_ => 0);
    for i := 0 to 256
      invariant forall j :: 0 <= j < i ==> t[j] == Shifts(Word(j), 8)
    {
      var c := Word(i);
      for k := 0 to 8
        invariant Shifts(c, 8 - k) == Shifts(Word(i), 8)
      {
        c := if c & 1 == 1 then POLY ^ (c >> 1) else c >> 1;
      }
      t[i] := c;
    }
  }

  /** `Crc32::compute` refines the bit-at-a-time definition on every byte string. */
  method Compute(data: Bytes) returns (r: nat)
    ensures r == Crc(data)
  {
    hide Shift, Shifts, Word, Xor, Index, DropByte;
    var table := Table();
    var crc := ONES;
    for i := 0 to |data|
      invariant Divide(crc, data[i..]) == Divide(ONES, data)
      invariant table.Length == 256
      invariant forall j :: 0 <= j < 256 ==> table[j] == Shifts(Word(j), 8)
    {
      assert data[i..][0] == data[i] && data[i..][1..] == data[i + 1..];
      TableStep(crc, data[i]);
      crc := Xor(DropByte(crc), table[Index(crc, data[i]) as int]);
    }
    r := ToNat(Xor(crc, ONES));
  }

  // ---- error detection ---------------------------------------------------------------------

  /** A byte placed under a word. */
  function Under(lo: bv32, w: bv32): bv32 {
    lo ^ (w << 8)
  }

  /** The register contents of up to four bytes read as one little-endian word. */
  function Burst(u: Bytes): bv32
    decreases |u|
  {
    if u == [] then 0 else Under(Word(u[0]), Burst(u[1..]))
  }

  predicate Fits(w: bv32, bytes: nat) {
    (bytes <= 0 ==> w == 0) && (bytes <= 1 ==> w & 0xFFFF_FF00 == 0) &&
    (bytes <= 2 ==> w & 0xFFFF_0000 == 0) && (bytes <= 3 ==> w & 0xFF00_0000 == 0)
  }

  lemma UnderLow(lo: bv32, w: bv32)
    requires lo & 0xff == lo
    ensures Under(lo, w) & 0xff == lo && (w << 8) & 0xff == 0
  {}

  lemma UnderHigh(lo: bv32, w: bv32)
    requires lo & 0xff == lo && w & 0xFF00_0000 == 0
    ensures Under(lo, w) >> 8 == w && (w << 8) >> 8 == w
  {}

  lemma UnderOne(lo: bv32)
    requires lo & 0xff == lo
    ensures Fits(Under(lo, 0), 1)
  {}

  lemma UnderTwo(lo: bv32, w: bv32)
    requires lo & 0xff == lo && w & 0xFFFF_FF00 == 0
    ensures Fits(Under(lo, w), 2)
  {}

  lemma UnderThree(lo: bv32, w: bv32)
    requires lo & 0xff == lo && w & 0xFFFF_0000 == 0
    ensures Fits(Under(lo, w), 3)
  {}

  lemma UnderFits(lo: bv32, w: bv32, n: nat)
    requires lo & 0xff == lo && Fits(w, n)
    ensures Fits(Under(lo, w), n + 1)
  {
    hide Under;
    if n == 0 { UnderOne(lo); }
    if n == 1 { UnderTwo(lo, w); }
    if n == 2 { UnderThree(lo, w); }
  }

  lemma NothingFits()
    ensures Fits(0, 0)
  {}

  /** A word made of few bytes leaves its upper bytes clear. */
  lemma {:induction false} BurstFits(u: Bytes)
    ensures Fits(Burst(u), |u|)
    decreases |u|
  {
    hide Word, Under, Fits;
    if u == [] {
      NothingFits();
    } else {
      WordIsLow(u[0]);
      BurstFits(u[1..]);
      UnderFits(Word(u[0]), Burst(u[1..]), |u[1..]|);
    }
  }

  lemma UnderIsXor(lo: bv32, w: bv32)
    ensures Under(lo, w) == Xor(lo, w << 8)
  {}

  lemma FitsThree(w: bv32, n: nat)
    requires Fits(w, n) && n <= 3
    ensures w & 0xFF00_0000 == 0
  {}

  /** Dividing out a byte leaves the word that lay on top of it. */
  lemma UnderDivides(c: bv32, lo: bv32, w: bv32, n: nat)
    requires lo & 0xff == lo && Fits(w, n) && n <= 3
    ensures Shifts(Xor(c, Under(lo, w)), 8) == Xor(Shifts(Xor(c, lo), 8), w)
  {
    hide Shift, Shifts, Xor, Under, Fits;
    FitsThree(w, n);
    UnderLow(lo, w);
    UnderHigh(lo, w);
    UnderIsXor(lo, w);
    ShiftOutZeros(w << 8);
    ShiftsLinear(Xor(c, lo), w << 8, 8);
    XorAssociates(c, lo, w << 8);
  }

  /** Up to four bytes enter the register as one word followed by that many bytes of division. */
  lemma {:induction false} DivideBurst(c: bv32, u: Bytes)
    requires |u| <= 4
    ensures Divide(c, u) == Shifts(Xor(c, Burst(u)), 8 * |u|)
    decreases |u|
  {
    if u == [] {
      XorZero(c);
    } else {
      var w, lo := Burst(u[1..]), Word(u[0]);
      hide Shift, Shifts, Word, Xor, Under, Fits;
      BurstFits(u[1..]);
      WordIsLow(u[0]);
      UnderDivides(c, lo, w, |u[1..]|);
      DivideBurst(Shifts(Xor(c, lo), 8), u[1..]);
      ShiftsAdd(Xor(c, Burst(u)), 8, 8 * |u[1..]|);
    }
  }

  lemma UnderInjective(x: bv32, w: bv32, y: bv32, z: bv32)
    requires x & 0xff == x && y & 0xff == y && Fits(w, 3) && Fits(z, 3) && Under(x, w) == Under(y, z)
    ensures x == y && w == z
  {
    UnderLow(x, w);
    UnderLow(y, z);
    UnderHigh(x, w);
    UnderHigh(y, z);
  }

  lemma {:induction false} BurstInjective(u: Bytes, v: Bytes)
    requires |u| == |v| <= 4 && Burst(u) == Burst(v)
    ensures u == v
    decreases |u|
  {
    if u != [] {
      WordIsLow(u[0]);
      WordIsLow(v[0]);
      BurstFits(u[1..]);
      BurstFits(v[1..]);
      hide Word, Under;
      UnderInjective(Word(u[0]), Burst(u[1..]), Word(v[0]), Burst(v[1..]));
      WordInjective(u[0], v[0]);
      BurstInjective(u[1..], v[1..]);
      assert u == [u[0]] + u[1..] && v == [v[0]] + v[1..];
    }
  }

  lemma {:induction false} DivideConcat(c: bv32, p: Bytes, q: Bytes)
    ensures Divide(c, p + q) == Divide(Divide(c, p), q)
    decreases |p|
  {
    hide Shift, Shifts, Word, Xor;
    if p == [] {
      assert p + q == q;
    } else {
      assert (p + q)[1..] == p[1..] + q;
      DivideConcat(Shifts(Xor(c, Word(p[0])), 8), p[1..], q);
    }
  }

  /** Equal suffixes never merge two different registers. */
  lemma {:induction false} DivideInjective(a: bv32, b: bv32, q: Bytes)
    requires Divide(a, q) == Divide(b, q)
    ensures a == b
    decreases |q|
  {
    hide Shift, Shifts, Word, Xor;
    if q != [] {
      var w := Word(q[0]);
      DivideInjective(Shifts(Xor(a, w), 8), Shifts(Xor(b, w), 8), q[1..]);
      ShiftsInjective(Xor(a, w), Xor(b, w), 8);
      XorCancels(a, b, w);
    }
  }

  lemma CrcInRange(data: Bytes)
    ensures Crc(data) < U32
  {
    NatRoundTrip(Xor(Divide(ONES, data), ONES));
  }

  /** Any change confined to at most four consecutive bytes changes the checksum. */
  lemma BurstDetected(p: Bytes, u: Bytes, v: Bytes, q: Bytes)
    requires |u| == |v| <= 4 && u != v
    ensures Crc(p + u + q) != Crc(p + v + q)
  {
    hide Shift, Shifts, Word, Xor, Divide, ToNat;
    if Crc(p + u + q) == Crc(p + v + q) {
      ToNatInjective(Xor(Divide(ONES, p + u + q), ONES), Xor(Divide(ONES, p + v + q), ONES));
      XorCancels(Divide(ONES, p + u + q), Divide(ONES, p + v + q), ONES);
      DivideConcat(ONES, p + u, q);
      DivideConcat(ONES, p + v, q);
      DivideInjective(Divide(ONES, p + u), Divide(ONES, p + v), q);
      DivideConcat(ONES, p, u);
      DivideConcat(ONES, p, v);
      var c := Divide(ONES, p);
      DivideBurst(c, u);
      DivideBurst(c, v);
      ShiftsInjective(Xor(c, Burst(u)), Xor(c, Burst(v)), 8 * |u|);
      XorCancels(Burst(u), Burst(v), c);
      BurstInjective(u, v);
    }
  }

  // ---- the check value -----------------------------------------------------------------------

  lemma DigitWords()
    ensures Word(49) == 49 && Word(50) == 50 && Word(51) == 51 && Word(52) == 52 && Word(53) == 53
    ensures Word(54) == 54 && Word(55) == 55 && Word(56) == 56 && Word(57) == 57
  {}

  lemma DivideOne(c: bv32, w: bv32, s: Bytes)
    requires s != [] && Word(s[0]) == w
    ensures Divide(c, s) == Divide(Shift(Shift(Shift(Shift(Shift(Shift(Shift(Shift(Xor(c, w))))))))), s[1..])
  {
    hide Shift, Xor, Word;
    EightSteps(Xor(c, w));
  }

  lemma FirstDigits(s: Bytes)
    requires |s| >= 3 && s[0] == 49 && s[1] == 50 && s[2] == 51
    ensures Divide(ONES, s) == Divide(0x77B7_9C2D, s[3..])
  {
    hide Divide, Word;
    DigitWords();
    DivideOne(ONES, 49, s);
    DivideOne(0x7C23_1048, 50, s[1..]);
    DivideOne(0xB0AC_BB32, 51, s[1..][1..]);
    assert s[1..][1..][1..] == s[3..];
  }

  lemma MiddleDigits(s: Bytes)
    requires |s| >= 3 && s[0] == 52 && s[1] == 53 && s[2] == 54
    ensures Divide(0x77B7_9C2D, s) == Divide(0xF68D_2C9E, s[3..])
  {
    hide Divide, Word;
    DigitWords();
    DivideOne(0x77B7_9C2D, 52, s);
    DivideOne(0x641C_1F5C, 53, s[1..]);
    DivideOne(0x340A_C5E3, 54, s[1..][1..]);
    assert s[1..][1..][1..] == s[3..];
  }

  lemma LastDigits(s: Bytes)
    requires |s| >= 3 && s[0] == 55 && s[1] == 56 && s[2] == 57
    ensures Divide(0xF68D_2C9E, s) == Divide(0x340B_C6D9, s[3..])
  {
    hide Divide, Word;
    DigitWords();
    DivideOne(0xF68D_2C9E, 55, s);
    DivideOne(0xAFFC_9660, 56, s[1..]);
    DivideOne(0x651F_2550, 57, s[1..][1..]);
    assert s[1..][1..][1..] == s[3..];
  }

  lemma NothingToDivide(c: bv32)
    ensures Divide(c, []) == c
  {}

  /** The check value of this CRC: the checksum of the nine digits "123456789". */
  lemma CheckValue(s: Bytes)
    requires |s| == 9 && forall i :: 0 <= i < 9 ==> s[i] == 49 + i
    ensures Crc(s) == 0xCBF4_3926
  {
    hide Divide, Crc, ToNat, Xor;
    FirstDigits(s);
    MiddleDigits(s[3..]);
    LastDigits(s[3..][3..]);
    assert s[3..][3..][3..] == [];
    NothingToDivide(0x340B_C6D9);
    Complemented(s);
  }

  lemma Complemented(data: Bytes)
    requires Divide(ONES, data) == 0x340B_C6D9
    ensures Crc(data) == 0xCBF4_3926
  {
    hide Divide;
    assert Xor(0x340B_C6D9, ONES) == 0xCBF4_3926;
  }
}
