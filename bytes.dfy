/**
 * Machine-level value types shared by the compiler and the interpreter:
 * unsigned bytes, signed 8-bit tape cells, the little-endian layout of
 * integers stored through byte pointers, and the C conversions between
 * `unsigned char` and `signed char`.  A 64-bit little-endian host is assumed.
 */
module Bytes {

  /** `unsigned char` */
  type byte = x: int | 0 <= x < 256

  /** `signed char`, the type of a tape cell */
  type cell = x: int | -128 <= x < 128

  const TWO32: nat := 0x1_0000_0000

  function Pow256(w: nat): (p: nat)
    ensures p >= 1
  {
    if w == 0 then 1 else 256 * Pow256(w - 1)
  }

  /** The first `w` bytes in memory of an integer holding `n`: its low `w`
      bytes, least significant first. */
  function LittleEndian(n: nat, w: nat): (bs: seq<byte>)
    ensures |bs| == w
  {
    if w == 0 then [] else [n % 256] + LittleEndian(n / 256, w - 1)
  }

  /** The unsigned integer read through a pointer to `bs`. */
  function FromLittleEndian(bs: seq<byte>): nat
  {
    if bs == [] then 0 else bs[0] + 256 * FromLittleEndian(bs[1..])
  }

  lemma {:induction false} FromLittleEndianBound(bs: seq<byte>)
    ensures FromLittleEndian(bs) < Pow256(|bs|)
  {
    if bs != [] {
      FromLittleEndianBound(bs[1..]);
    }
  }

  lemma DivModUnique(n: nat, m: nat, q: nat, r: nat)
    requires 0 <= r < m && n == m * q + r
    ensures n / m == q && n % m == r
  {
    DivModUniqueInt(n, m, q, r);
  }

  lemma DivModUniqueInt(n: int, m: int, q: int, r: int)
    requires 0 <= r < m && n == m * q + r
    ensures n / m == q && n % m == r
  {
    var q', r' := n / m, n % m;
    var d := q - q';
    assert m * q == m * q' + m * d;
    assert m * d == r' - r;
    if d >= 1 {
      MulAtLeast(m, d);
    } else if d <= -1 {
      MulAtLeast(m, -d);
    }
  }

  lemma {:induction false} MulAtLeast(m: int, d: int)
    requires m > 0 && d >= 1
    ensures m * d >= m
    decreases d
  {
    if d > 1 {
      MulAtLeast(m, d - 1);
      assert m * d == m * (d - 1) + m;
    }
  }

  /** Storing `n` in `w` bytes keeps exactly `n` modulo 256^w. */
  lemma {:induction false} LittleEndianRoundTrip(n: nat, w: nat)
    ensures FromLittleEndian(LittleEndian(n, w)) == n % Pow256(w)
  {
    if w == 0 {
    } else {
      var bs := LittleEndian(n, w);
      assert bs[0] == n % 256 && bs[1..] == LittleEndian(n / 256, w - 1);
      LittleEndianRoundTrip(n / 256, w - 1);
      LowByteSplit(n, Pow256(w - 1), FromLittleEndian(bs[1..]));
    }
  }

  /** `n` modulo `256 * p` is its low byte plus 256 times the rest of it
      modulo `p`. */
  lemma LowByteSplit(n: nat, p: nat, t: nat)
    requires p >= 1 && t == (n / 256) % p
    ensures n % (256 * p) == n % 256 + 256 * t
  {
    var q, r, k := n / 256, n % 256, (n / 256) / p;
    MixedRadix(n, p, q, r, k);
    DivModUnique(n, 256 * p, k, 256 * (q % p) + r);
  }

  /** Splitting `n` into its low byte and the rest, and the rest by `p`,
      splits `n` by `256 * p`. */
  lemma MixedRadix(n: nat, p: nat, q: nat, r: nat, k: nat)
    requires p >= 1 && q == n / 256 && r == n % 256 && k == q / p
    ensures n == (256 * p) * k + (256 * (q % p) + r)
    ensures 256 * (q % p) + r < 256 * p
  {
    assert q == p * k + q % p;
    assert n == 256 * q + r;
    assert 256 * q == 256 * (p * k) + 256 * (q % p);
    assert 256 * (p * k) == (256 * p) * k;
    assert q % p <= p - 1;
    assert 256 * (q % p) <= 256 * (p - 1);
  }

  /** Reading `bs` as an integer and storing it back into |bs| bytes gives `bs`. */
  lemma {:induction false} LittleEndianInverse(bs: seq<byte>)
    ensures LittleEndian(FromLittleEndian(bs), |bs|) == bs
  {
    if bs != [] {
      var n := FromLittleEndian(bs);
      var t := FromLittleEndian(bs[1..]);
      assert n == 256 * t + bs[0];
      DivModUnique(n, 256, t, bs[0]);
      LittleEndianInverse(bs[1..]);
    }
  }

  /** Storing `n` in `w` bytes stores the same bytes as storing `n` modulo
      256^w: only the low bytes are kept. */
  lemma LittleEndianMod(n: nat, w: nat)
    ensures LittleEndian(n, w) == LittleEndian(n % Pow256(w), w)
  {
    LittleEndianInverse(LittleEndian(n, w));
    LittleEndianRoundTrip(n, w);
  }

  lemma Pow256Values()
    ensures Pow256(1) == 0x100 && Pow256(2) == 0x1_0000 && Pow256(4) == TWO32
  {
  }

  /** `(unsigned char)c` for a cell `c` */
  function ToUnsigned(c: cell): (b: byte)
    ensures (b - c) % 256 == 0
  {
    if c < 0 then c + 256 else c
  }

  /** `(signed char)b` for a byte `b` (two's complement) */
  function ToSigned(b: byte): (c: cell)
    ensures (b - c) % 256 == 0
  {
    if b >= 128 then b - 256 else b
  }

  lemma SignedUnsignedRoundTrip(b: byte, c: cell)
    ensures ToUnsigned(ToSigned(b)) == b
    ensures ToSigned(ToUnsigned(c)) == c
  {
  }

  /** The signed char congruent to `x` modulo 256 (the conversion applied when
      `(*cell)++` or `(*cell)--` leaves the range of `signed char`). */
  function Wrap(x: int): (c: cell)
    ensures (x - c) % 256 == 0
    ensures -128 <= x < 128 ==> c == x
  {
    (x + 128) % 256 - 128
  }
}
