/**
 * Bytes as the camera driver handles them: Python integers in [0, 256) inside lists and
 * `bytes` objects, the shift-and-mask idiom that splits an integer into bytes, and the
 * big-endian byte order the VC0706 protocol uses for addresses and lengths.
 */
module Bytes {

  /** One byte, as stored in a Python `bytes` object or accepted by `array.array('B', ...)`. */
  type Byte = b: int | 0 <= b < 256

  /** 256^k, the weight of byte k counted from the least significant end. */
  function Pow256(k: nat): (p: nat)
    ensures p >= 1
  {
    if k == 0 then 1 else 256 * Pow256(k - 1)
  }

  /**
   * Python's `(x >> (8 * k)) & 0xff`, for any integer x, negative ones included: an
   * arithmetic right shift is floor division by 256^k (which Dafny's `/` is, for a positive
   * divisor) and masking with 0xff keeps the non-negative residue modulo 256.
   */
  function ShiftMask(x: int, k: nat): Byte
  {
    (x / Pow256(k)) % 256
  }

  /** The low `width` bytes of x, most significant first. */
  function BeEncode(x: int, width: nat): (s: seq<Byte>)
    ensures |s| == width
    decreases width
  {
    if width == 0 then [] else BeEncode(x / 256, width - 1) + [x % 256]
  }

  /** The unsigned big-endian value of a byte sequence. */
  function BeDecode(s: seq<Byte>): (v: nat)
    ensures v < Pow256(|s|)
  {
    if s == [] then 0
    else
      var high := BeDecode(s[..|s| - 1]);
      assert high * 256 + s[|s| - 1] < Pow256(|s|) by {
        assert high + 1 <= Pow256(|s| - 1);
        assert (high + 1) * 256 <= Pow256(|s| - 1) * 256;
      }
      high * 256 + s[|s| - 1]
  }

  /** Multiplying by a non-negative factor preserves order. */
  lemma MulMono(a: int, b: int, d: int)
    requires d >= 0
    ensures a <= b ==> a * d <= b * d
  {
    if a <= b {
      assert b * d == a * d + (b - a) * d;
    }
  }

  /** Euclidean division is determined by its defining equation. */
  lemma DivModUnique(x: int, d: int, q: int, r: int)
    requires d > 0 && 0 <= r < d && x == q * d + r
    ensures x / d == q && x % d == r
  {
    var q', r' := x / d, x % d;
    assert x == q' * d + r';
    MulMono(q + 1, q', d);
    MulMono(q' + 1, q, d);
    assert (q + 1) * d == q * d + d;
    assert (q' + 1) * d == q' * d + d;
  }

  /** Dividing by m and then by n is dividing by m * n. */
  lemma DivDiv(x: int, m: int, n: int)
    requires m > 0 && n > 0
    ensures x / m / n == x / (m * n)
  {
    var q1, r1 := x / m, x % m;
    var q2, r2 := q1 / n, q1 % n;
    assert x == (m * n) * q2 + (m * r2 + r1) by {
      assert x == m * q1 + r1;
      assert q1 == n * q2 + r2;
      assert m * q1 == m * (n * q2) + m * r2;
    }
    assert m * r2 + r1 < m * n by {
      MulMono(r2, n - 1, m);
      assert (n - 1) * m == m * n - m;
    }
    MulMono(0, r2, m);
    DivModUnique(x, m * n, q2, m * r2 + r1);
  }

  /** Byte j of the big-endian encoding is the shift-and-mask byte of weight width-1-j. */
  lemma {:induction false} BeEncodeAt(x: int, width: nat, j: nat)
    requires j < width
    ensures BeEncode(x, width)[j] == ShiftMask(x, width - 1 - j)
    decreases width
  {
    if j == width - 1 {
      assert BeEncode(x, width)[j] == x % 256;
    } else {
      var k := width - 2 - j;
      assert BeEncode(x, width)[j] == BeEncode(x / 256, width - 1)[j];
      BeEncodeAt(x / 256, width - 1, j);
      DivDiv(x, 256, Pow256(k));
      assert Pow256(k + 1) == 256 * Pow256(k);
    }
  }

  /** Splitting off the low byte of x and reducing the rest modulo p is reducing x modulo 256 * p. */
  lemma ModSplit(x: int, p: int)
    requires p > 0
    ensures (x / 256) % p * 256 + x % 256 == x % (256 * p)
  {
    var y, lo := x / 256, x % 256;
    var q, b := y / p, y % p;
    assert x == q * (256 * p) + (b * 256 + lo) by {
      assert x == 256 * y + lo;
      assert y == q * p + b;
      assert 256 * y == 256 * (q * p) + 256 * b;
      assert 256 * (q * p) == q * (256 * p);
    }
    assert b * 256 + lo < 256 * p by {
      MulMono(b, p - 1, 256);
    }
    DivModUnique(x, 256 * p, q, b * 256 + lo);
  }

  /** Decoding an encoding gives back x reduced modulo 256^width. */
  lemma {:induction false} BeDecodeEncode(x: int, width: nat)
    ensures BeDecode(BeEncode(x, width)) == x % Pow256(width)
    decreases width
  {
    if width == 0 {
      DivModUnique(x, 1, x, 0);
    } else {
      var s := BeEncode(x, width);
      assert s[..width - 1] == BeEncode(x / 256, width - 1);
      assert s[width - 1] == x % 256;
      BeDecodeEncode(x / 256, width - 1);
      ModSplit(x, Pow256(width - 1));
    }
  }

  /** A value that fits in `width` bytes survives encoding and decoding. */
  lemma BeRoundTrip(x: int, width: nat)
    requires 0 <= x < Pow256(width)
    ensures BeDecode(BeEncode(x, width)) == x
  {
    BeDecodeEncode(x, width);
    DivModUnique(x, Pow256(width), 0, x);
  }

  /** Encoding a decoded sequence at its own width gives back the sequence. */
  lemma {:induction false} BeEncodeDecode(s: seq<Byte>)
    ensures BeEncode(BeDecode(s), |s|) == s
  {
    if s != [] {
      var n := |s|;
      var init, last := s[..n - 1], s[n - 1];
      var high := BeDecode(init);
      var v := high * 256 + last;
      assert BeDecode(s) == v;
      DivModUnique(v, 256, high, last);
      assert BeEncode(v, n) == BeEncode(high, n - 1) + [last];
      BeEncodeDecode(init);
      assert s == init + [last];
    }
  }
}
