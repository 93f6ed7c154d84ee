/** Bytes and fixed-width unsigned integers, and the little- and big-endian
    byte orders the iproto codec packs integers in. Everything here is a
    specification: the imperative packers of pack.go are proved against it. */
module Octets {

  datatype Option<T> = None | Some(value: T)

  /** Go's `byte` (`uint8`). */
  type Byte = b: int | 0 <= b < 256

  /** Go's `uint32`. */
  type U32 = n: int | 0 <= n < 0x1_0000_0000

  /** Go's `uint64`, and `uint` on a 64-bit platform. */
  type U64 = n: int | 0 <= n < 0x1_0000_0000_0000_0000

  /** 256 to the power n: the number of values n bytes can hold. */
  function Pow256(n: nat): (p: nat)
    ensures p > 0
  {
    if n == 0 then 1 else 256 * Pow256(n - 1)
  }

  /** `v >> (8 * k)`, one byte shift at a time as the packing loops do it. */
  function ShiftR(v: nat, k: nat): (r: nat)
  {
    if k == 0 then v else ShiftR(v / 256, k - 1)
  }

  /** `uint8((v >> (8 * k)) & 0xFF)`: byte number k of v, counting from the least significant. */
  function ByteAt(v: nat, k: nat): (b: Byte)
  {
    ShiftR(v, k) % 256
  }

  /** The n low-order bytes of v, least significant first. */
  function LittleBytes(v: nat, n: nat): (s: seq<Byte>)
    ensures |s| == n
  {
    if n == 0 then [] else [v % 256] + LittleBytes(v / 256, n - 1)
  }

  /** The n low-order bytes of v, most significant first. */
  function BigBytes(v: nat, n: nat): (s: seq<Byte>)
    ensures |s| == n
  {
    if n == 0 then [] else BigBytes(v / 256, n - 1) + [v % 256]
  }

  /** The number whose little-endian encoding is s. */
  function FromLittle(s: seq<Byte>): (v: nat)
  {
    if s == [] then 0 else s[0] + 256 * FromLittle(s[1..])
  }

  /** The number whose big-endian encoding is s. */
  function FromBig(s: seq<Byte>): (v: nat)
  {
    if s == [] then 0 else 256 * FromBig(s[..|s| - 1]) + s[|s| - 1]
  }

  // ---------------------------------------------------------------------
  // Arithmetic helpers

  /** A positive multiple of m is at least m. */
  lemma MulAtLeast(k: int, m: int)
    requires k >= 1 && m > 0
    ensures k * m >= m
  {
    var j := k - 1;
    assert k * m == j * m + m;
  }

  /** Division with remainder has exactly one answer. */
  lemma DivModUnique(v: int, m: int, q: int, r: int)
    requires m > 0 && 0 <= r < m && v == q * m + r
    ensures v / m == q && v % m == r
  {
    var q0, r0 := v / m, v % m;
    assert v == q0 * m + r0;
    if q0 > q {
      assert (q0 - q) * m == r - r0;
      MulAtLeast(q0 - q, m);
    } else if q0 < q {
      assert (q - q0) * m == r0 - r;
      MulAtLeast(q - q0, m);
    }
  }

  /** Reducing modulo 256 * p keeps the low byte and reduces the rest modulo p. */
  lemma ModSplit(v: nat, p: nat)
    requires p > 0
    ensures v % (256 * p) == v % 256 + 256 * ((v / 256) % p)
    ensures (v % (256 * p)) % 256 == v % 256
    ensures (v % (256 * p)) / 256 == (v / 256) % p
  {
    var q, r := v / 256, v % 256;
    var a, b := q / p, q % p;
    assert q == a * p + b;
    assert v == 256 * q + r;
    assert v == a * (256 * p) + (256 * b + r);
    DivModUnique(v, 256 * p, a, 256 * b + r);
    DivModUnique(256 * b + r, 256, b, r);
  }

  /** Multiplying by a non-negative factor keeps the order. */
  lemma MulMono(x: int, y: int, m: int)
    requires x <= y && m >= 0
    ensures x * m <= y * m
  {
    assert y * m - x * m == (y - x) * m;
  }

  lemma DivDiv(v: nat, a: nat, b: nat)
    requires a > 0 && b > 0
    ensures v / a / b == v / (a * b)
  {
    var q, r := v / a, v % a;
    var q2, r2 := q / b, q % b;
    assert v == q * a + r;
    assert q == q2 * b + r2;
    assert q * a == q2 * (a * b) + r2 * a by {
      assert q * a == (q2 * b + r2) * a;
      assert (q2 * b + r2) * a == (q2 * b) * a + r2 * a;
      assert (q2 * b) * a == q2 * (a * b);
    }
    MulMono(r2, b - 1, a);
    assert (b - 1) * a == a * b - a;
    DivModUnique(v, a * b, q2, r2 * a + r);
  }

  /** Reducing modulo a * b and then modulo a is reducing modulo a. */
  lemma ModMod(v: int, a: int, b: int)
    requires a > 0 && b > 0
    ensures (v % (a * b)) % a == v % a
  {
    var q, r := v / (a * b), v % (a * b);
    var q2, r2 := r / a, r % a;
    assert r == q2 * a + r2;
    assert v == q * (a * b) + r;
    assert v == (q * b + q2) * a + r2;
    DivModUnique(v, a, q * b + q2, r2);
  }

  // ---------------------------------------------------------------------
  // Shifting

  /** One more byte of shift divides once more by 256. */
  lemma {:induction false} ShiftRStep(v: nat, k: nat)
    ensures ShiftR(v, k + 1) == ShiftR(v, k) / 256
  {
    if k > 0 {
      ShiftRStep(v / 256, k - 1);
    }
  }

  /** `v >> 8k` is v divided by 256^k. */
  lemma {:induction false} ShiftRIsDiv(v: nat, k: nat)
    ensures ShiftR(v, k) == v / Pow256(k)
  {
    if k > 0 {
      ShiftRIsDiv(v / 256, k - 1);
      DivDiv(v, 256, Pow256(k - 1));
    }
  }

  /** 256^k grows with k. */
  lemma {:induction false} Pow256Mono(k: nat, j: nat)
    requires k <= j
    ensures Pow256(k) <= Pow256(j)
  {
    if k < j {
      Pow256Mono(k, j - 1);
    }
  }

  /** A value below 256^k has nothing left after k byte shifts. */
  lemma ShiftRBeyond(v: nat, k: nat)
    requires v < Pow256(k)
    ensures ShiftR(v, k) == 0 && ByteAt(v, k) == 0
  {
    ShiftRIsDiv(v, k);
  }

  // ---------------------------------------------------------------------
  // Byte orders

  /** Byte k of the little-endian encoding is `(v >> 8k) & 0xFF`. */
  lemma {:induction false} LittleBytesAt(v: nat, n: nat, k: nat)
    requires k < n
    ensures LittleBytes(v, n)[k] == ByteAt(v, k)
  {
    if k > 0 {
      LittleBytesAt(v / 256, n - 1, k - 1);
    }
  }

  /** Byte j of the big-endian encoding is `(v >> 8(n-1-j)) & 0xFF`. */
  lemma {:induction false} BigBytesAt(v: nat, n: nat, j: nat)
    requires j < n
    ensures BigBytes(v, n)[j] == ByteAt(v, n - 1 - j)
  {
    if j < n - 1 {
      BigBytesAt(v / 256, n - 1, j);
    }
  }

  /** The big-endian encoding is the little-endian one reversed: byte j of one
      is byte n-1-j of the other. */
  lemma BigIsReversedLittle(v: nat, n: nat)
    ensures forall j :: 0 <= j < n ==> BigBytes(v, n)[j] == LittleBytes(v, n)[n - 1 - j]
  {
    forall j | 0 <= j < n
      ensures BigBytes(v, n)[j] == LittleBytes(v, n)[n - 1 - j]
    {
      BigBytesAt(v, n, j);
      LittleBytesAt(v, n, n - 1 - j);
    }
  }

  /** Reading n little-endian bytes back gives v modulo 256^n. */
  lemma {:induction false} LittleRoundTrip(v: nat, n: nat)
    ensures FromLittle(LittleBytes(v, n)) == v % Pow256(n)
  {
    if n > 0 {
      var s := LittleBytes(v, n);
      assert s[1..] == LittleBytes(v / 256, n - 1);
      LittleRoundTrip(v / 256, n - 1);
      ModSplit(v, Pow256(n - 1));
    }
  }

  /** Reading n big-endian bytes back gives v modulo 256^n. */
  lemma {:induction false} BigRoundTrip(v: nat, n: nat)
    ensures FromBig(BigBytes(v, n)) == v % Pow256(n)
  {
    if n > 0 {
      var s := BigBytes(v, n);
      assert s[..n - 1] == BigBytes(v / 256, n - 1);
      BigRoundTrip(v / 256, n - 1);
      ModSplit(v, Pow256(n - 1));
    }
  }

  /** Reading four big-endian bytes back gives v modulo 2^32. */
  lemma Big32RoundTrip(v: nat)
    ensures |BigBytes(v, 4)| == 4 && FromBig(BigBytes(v, 4)) == v % 0x1_0000_0000
  {
    BigRoundTrip(v, 4);
    assert Pow256(4) == 0x1_0000_0000;
  }

  /** Only the low n bytes of v reach its n-byte encoding, so reducing v modulo
      256^m for any m >= n first changes nothing. */
  lemma {:induction false} BigBytesMod(v: nat, m: nat, n: nat)
    requires n <= m
    ensures BigBytes(v % Pow256(m), n) == BigBytes(v, n)
  {
    if n > 0 {
      ModSplit(v, Pow256(m - 1));
      BigBytesMod(v / 256, m - 1, n - 1);
    }
  }

  /** A big-endian number of |s| bytes is below 256^|s|. */
  lemma {:induction false} FromBigBound(s: seq<Byte>)
    ensures FromBig(s) < Pow256(|s|)
  {
    if s != [] {
      FromBigBound(s[..|s| - 1]);
    }
  }
}
