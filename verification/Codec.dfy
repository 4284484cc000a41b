/**
 The shared serialisation primitives: little-endian fixed-width integers and byte strings with the
 ordering of std::string. Integers are naturals; encoding to a fixed width truncates, as the casts
 in the source do.
 */
module Codec {

  type Byte = x: int | 0 <= x < 256
  type Bytes = seq<Byte>

  const U32: nat := 0x1_0000_0000
  const U64: nat := 0x1_0000_0000_0000_0000

  function Pow256(k: nat): (r: nat)
    ensures r >= 1
  {
    if k == 0 then 1 else 256 * Pow256(k - 1)
  }

  lemma Widths()
    ensures Pow256(4) == U32 && Pow256(8) == U64
  {
    assert Pow256(4) == 256 * (256 * (256 * (256 * Pow256(0))));
    assert Pow256(8) == 256 * (256 * (256 * (256 * Pow256(4))));
  }

  /** The low `k` bytes of `n`, least significant first. */
  function Le(n: nat, k: nat): (s: Bytes)
    ensures |s| == k
  {
    if k == 0 then [] else [n % 256] + Le(n / 256, k - 1)
  }

  /** The value of a little-endian byte string. */
  function Val(s: Bytes): (n: nat)
    ensures n < Pow256(|s|)
  {
    if s == [] then 0 else s[0] + 256 * Val(s[1..])
  }

  /** Byte `i` of an encoded integer is its i-th base-256 digit, lowest first. */
  lemma {:induction false} LeDigits(n: nat, k: nat, i: nat)
    requires i < k
    ensures Le(n, k)[i] == n / Pow256(i) % 256
    decreases i
  {
    if i > 0 {
      LeDigits(n / 256, k - 1, i - 1);
      DivTwice(n, Pow256(i - 1));
    }
  }

  lemma DivTwice(n: nat, m: nat)
    requires m > 0
    ensures n / 256 / m == n / (256 * m)
  {
    var q := n / (256 * m);
    var r := n % (256 * m);
    assert n == 256 * m * q + r && r / 256 < m;
    DivUnique(n, 256, m * q + r / 256, r % 256);
    DivUnique(n / 256, m, q, r / 256);
  }

  lemma DivUnique(n: nat, d: nat, q: nat, r: nat)
    requires d > 0 && n == d * q + r && r < d
    ensures n / d == q
  {
    MulMonotone(d, n / d + 1, q);
    MulMonotone(d, q + 1, n / d);
  }

  lemma MulMonotone(d: nat, a: nat, b: nat)
    ensures a <= b ==> d * a <= d * b
  {}

  /** Reading back what was written gives the number, reduced to the width. */
  lemma {:induction false} ValOfLe(n: nat, k: nat)
    ensures n < Pow256(k) ==> Val(Le(n, k)) == n
  {
    if k > 0 {
      assert Le(n, k)[1..] == Le(n / 256, k - 1);
      ValOfLe(n / 256, k - 1);
    }
  }

  /** A wider number is truncated to the field. */
  lemma {:induction false} ValOfLeTruncates(n: nat, k: nat)
    ensures Val(Le(n, k)) == n % Pow256(k)
  {
    if k > 0 {
      assert Le(n, k)[1..] == Le(n / 256, k - 1);
      ValOfLeTruncates(n / 256, k - 1);
      ModTwice(n, Pow256(k - 1));
    }
  }

  lemma ModTwice(n: nat, m: nat)
    requires m > 0
    ensures n % (256 * m) == n % 256 + 256 * (n / 256 % m)
  {
    DivTwice(n, m);
    var q := n / 256 / m;
    assert n / 256 == m * q + n / 256 % m;
    assert n == 256 * m * q + n % (256 * m);
    assert 256 * (m * q) == 256 * m * q;
  }

  /** Writing the value that was read gives the same bytes. */
  lemma {:induction false} LeOfVal(s: Bytes)
    ensures Le(Val(s), |s|) == s
  {
    if s != [] {
      LeOfVal(s[1..]);
      LowByte(s[0], Val(s[1..]));
      assert s == [s[0]] + s[1..];
    }
  }

  lemma SliceOfPrefix(a: Bytes, b: Bytes, n: nat, i: nat, j: nat)
    requires i <= j <= n <= |a| && n <= |b| && a[..n] == b[..n]
    ensures a[i..j] == b[i..j]
  {
    assert a[i..j] == a[..n][i..j] && b[i..j] == b[..n][i..j];
  }

  lemma SmallMod(n: nat, m: nat)
    requires n < m
    ensures n % m == n
  {}

  lemma LowByte(b: Byte, rest: nat)
    ensures (b + 256 * rest) % 256 == b && (b + 256 * rest) / 256 == rest
  {}

  /** `put_u32`: append the four low bytes of `v`, lowest first. */
  method PutU32(out: Bytes, v: nat) returns (r: Bytes)
    ensures r == out + Le(v, 4)
  {
    r := out + [v % 256];
    r := r + [v / 256 % 256];
    r := r + [v / 256 / 256 % 256];
    r := r + [v / 256 / 256 / 256 % 256];
    FourBytes(v);
  }

  lemma FourBytes(v: nat)
    ensures Le(v, 4) == [v % 256] + [v / 256 % 256] + [v / 256 / 256 % 256] + [v / 256 / 256 / 256 % 256]
  {
    var a, b, c := v / 256, v / 256 / 256, v / 256 / 256 / 256;
    assert Le(c, 1) == [c % 256] + Le(c / 256, 0);
    assert Le(b, 2) == [b % 256] + Le(c, 1);
    assert Le(a, 3) == [a % 256] + Le(b, 2);
  }

  lemma LowFirst(r: Bytes, n: nat, k: nat)
    requires k > 0
    ensures r + Le(n, k) == (r + [n % 256]) + Le(n / 256, k - 1)
  {}

  /** `put_u64`: append the eight bytes of `v`, lowest first. */
  method PutU64(out: Bytes, v: nat) returns (r: Bytes)
    ensures r == out + Le(v, 8)
  {
    hide Le;
    r := out;
    var rest := v;
    for i := 0 to 8
      invariant r + Le(rest, 8 - i) == out + Le(v, 8)
    {
      LowFirst(r, rest, 8 - i);
      r := r + [rest % 256];
      rest := rest / 256;
    }
    assert r + Le(rest, 0) == r;
  }

  function GetU32(s: Bytes, p: nat): (n: nat)
    requires p + 4 <= |s|
    ensures n < U32
  {
    Widths();
    Val(s[p..p + 4])
  }

  function GetU64(s: Bytes, p: nat): (n: nat)
    requires p + 8 <= |s|
    ensures n < U64
  {
    Widths();
    Val(s[p..p + 8])
  }

  lemma ReadU32(s: Bytes, p: nat, n: nat)
    requires p + 4 <= |s| && s[p..p + 4] == Le(n, 4) && n < U32
    ensures GetU32(s, p) == n
  {
    Widths();
    ValOfLe(n, 4);
  }

  lemma ReadU64(s: Bytes, p: nat, n: nat)
    requires p + 8 <= |s| && s[p..p + 8] == Le(n, 8) && n < U64
    ensures GetU64(s, p) == n
  {
    Widths();
    ValOfLe(n, 8);
  }

  // ---- byte strings in std::string order ---------------------------------------------------

  /** Lexicographic order on unsigned bytes. */
  predicate Less(a: Bytes, b: Bytes)
    decreases |a|
  {
    b != [] && (a == [] || a[0] < b[0] || (a[0] == b[0] && Less(a[1..], b[1..])))
  }

  /** The first `n` bytes are the same. */
  ghost predicate SameUpTo(a: Bytes, b: Bytes, n: nat) {
    n <= |a| && n <= |b| && a[..n] == b[..n]
  }

  lemma SameFirst(a: Bytes, b: Bytes, n: nat)
    requires SameUpTo(a, b, n)
    ensures n > 0 ==> a[0] == b[0]
  {
    if n > 0 { assert a[..n][0] == b[..n][0]; }
  }

  /** A string is less exactly when it is a proper prefix or has the smaller byte at the first difference. */
  lemma {:induction false} LessIsLexicographic(a: Bytes, b: Bytes)
    ensures Less(a, b) <==> exists n: nat :: SameUpTo(a, b, n) && n < |b| && (n == |a| || a[n] < b[n])
    decreases |a|
  {
    if a != [] && b != [] && a[0] == b[0] {
      LessIsLexicographic(a[1..], b[1..]);
      if Less(a, b) {
        var n: nat :| SameUpTo(a[1..], b[1..], n) && n < |b[1..]| && (n == |a[1..]| || a[1..][n] < b[1..][n]);
        assert a[..n + 1] == [a[0]] + a[1..][..n] && b[..n + 1] == [b[0]] + b[1..][..n];
        assert SameUpTo(a, b, n + 1);
      }
      forall n: nat | SameUpTo(a, b, n) && n < |b| && (n == |a| || a[n] < b[n]) ensures Less(a, b) {
        assert n > 0 && a[1..][..n - 1] == a[..n][1..] && b[1..][..n - 1] == b[..n][1..];
        assert SameUpTo(a[1..], b[1..], n - 1);
      }
    } else {
      if Less(a, b) { assert SameUpTo(a, b, 0); }
      forall n: nat | SameUpTo(a, b, n) && n < |b| && (n == |a| || a[n] < b[n]) ensures Less(a, b) {
        SameFirst(a, b, n);
      }
    }
  }

  lemma {:induction false} LessTotal(a: Bytes, b: Bytes)
    ensures a == b || Less(a, b) || Less(b, a)
    decreases |a|
  {
    if a != [] && b != [] {
      LessTotal(a[1..], b[1..]);
      assert a == [a[0]] + a[1..] && b == [b[0]] + b[1..];
    }
  }

  lemma {:induction false} LessAsymmetric(a: Bytes, b: Bytes)
    requires Less(a, b)
    ensures !Less(b, a) && a != b
    decreases |a|
  {
    if a != [] && a[0] == b[0] { LessAsymmetric(a[1..], b[1..]); }
  }

  lemma LessIrreflexive(a: Bytes)
    ensures !Less(a, a)
  {
    if Less(a, a) { LessAsymmetric(a, a); }
  }

  lemma {:induction false} LessTransitive(a: Bytes, b: Bytes, c: Bytes)
    requires Less(a, b) && Less(b, c)
    ensures Less(a, c)
    decreases |a|
  {
    if a != [] && a[0] == b[0] && b[0] == c[0] { LessTransitive(a[1..], b[1..], c[1..]); }
  }
}
