/**
 Bytes and the little-endian 32-bit words of Python's `struct` module
 (`<I`/`<L` unsigned, `<i` signed, standard size 4).
 */
module Bytes {

  type byte = x: int | 0 <= x < 256

  const U32_LIMIT: int := 0x1_0000_0000
  const I32_LIMIT: int := 0x8000_0000

  /** The range `struct.pack` accepts for an `I` or `L` field. */
  predicate IsU32(n: int) {
    0 <= n < U32_LIMIT
  }

  /** The range of an `i` field. */
  predicate IsI32(n: int) {
    -I32_LIMIT <= n < I32_LIMIT
  }

  /** `struct.pack("<I", n)`. */
  function LE32(n: int): (b: seq<byte>)
    requires IsU32(n)
    ensures |b| == 4
  {
    [n % 256, (n / 256) % 256, (n / 65536) % 256, n / 16777216]
  }

  /** `struct.unpack("<I", b)[0]`. */
  function FromLE32(b: seq<byte>): (n: int)
    requires |b| == 4
    ensures IsU32(n)
  {
    (b[0] as int) + 256 * (b[1] as int) + 65536 * (b[2] as int) + 16777216 * (b[3] as int)
  }

  /** `struct.unpack("<i", b)[0]`: the same four bytes read as two's complement. */
  function FromLE32Signed(b: seq<byte>): (n: int)
    requires |b| == 4
    ensures IsI32(n)
    ensures n >= 0 <==> b[3] < 128
  {
    var u := FromLE32(b);
    if u < I32_LIMIT then u else u - U32_LIMIT
  }

  /** `struct.pack("<i", n)`. */
  function LE32Signed(n: int): (b: seq<byte>)
    requires IsI32(n)
    ensures |b| == 4
  {
    LE32(if n < 0 then n + U32_LIMIT else n)
  }

  /** A sequence of `n` NUL bytes. */
  function Zeros(n: nat): (z: seq<byte>)
    ensures |z| == n
    ensures forall i :: 0 <= i < n ==> z[i] == 0
  {
    seq(n, _ => 0)
  }

  /** Reading back a packed word gives the packed value. */
  lemma LE32RoundTrip(n: int)
    requires IsU32(n)
    ensures FromLE32(LE32(n)) == n
  {
    var q1 := n / 256;
    var q2 := n / 65536;
    assert q2 == q1 / 256;
    assert n == n % 256 + 256 * q1;
    assert q1 == q1 % 256 + 256 * q2;
    assert q2 == q2 % 256 + 256 * (n / 16777216);
  }

  /** Packing the value read from four bytes gives the same four bytes back,
      so `LE32` is a bijection onto four-byte sequences. */
  lemma FromLE32RoundTrip(b: seq<byte>)
    requires |b| == 4
    ensures LE32(FromLE32(b)) == b
  {
    var b0, b1, b2, b3 := b[0] as int, b[1] as int, b[2] as int, b[3] as int;
    var n := FromLE32(b);
    var m2 := b2 + 256 * b3;
    var m1 := b1 + 256 * m2;
    assert n == b0 + 256 * m1;
    DivModSplit(b0, 256, m1);
    DivModSplit(b1, 256, m2);
    DivModSplit(b0 + 256 * b1, 65536, m2);
    DivModSplit(b2, 256, b3);
    DivModSplit(b0 + 256 * b1 + 65536 * b2, 16777216, b3);
  }

  /** Division by `k` recovers the high part of `x + k * y` and the
      remainder the low part. */
  lemma DivModSplit(x: int, k: int, y: int)
    requires 0 <= x < k
    ensures (x + k * y) / k == y && (x + k * y) % k == x
  {
    var q, r := (x + k * y) / k, (x + k * y) % k;
    assert k * q + r == x + k * y;
    assert k * (y - q) == r - x;
    if y - q >= 1 {
      MulAtLeast(k, y - q);
    } else if y - q <= -1 {
      MulAtLeast(k, q - y);
    }
  }

  lemma MulAtLeast(k: int, d: int)
    requires k > 0 && d >= 1
    ensures k * d >= k
  {
  }

  /** A signed word reads back as itself. */
  lemma LE32SignedRoundTrip(n: int)
    requires IsI32(n)
    ensures FromLE32Signed(LE32Signed(n)) == n
  {
    LE32RoundTrip(if n < 0 then n + U32_LIMIT else n);
  }
}
