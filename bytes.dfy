/**
 * Byte strings and the unsigned big- and little-endian readings of them that
 * PHP's `pack`/`unpack` format codes `N`, `V`, `n` and `v` perform, together
 * with `strrev`. A PHP string handed to those functions is a sequence of
 * bytes; here it is a `seq<uint8>`.
 */
module Bytes {

  /** One byte of a PHP binary string, as `ord` returns it. */
  type uint8 = x: int | 0 <= x < 0x100

  /** 2 to the power n. */
  function Pow2(n: nat): (r: int)
    ensures r > 0
  {
    if n == 0 then 1 else 2 * Pow2(n - 1)
  }

  lemma {:induction false} Pow2Add(a: nat, b: nat)
    ensures Pow2(a + b) == Pow2(a) * Pow2(b)
  {
    if a > 0 {
      Pow2Add(a - 1, b);
    }
  }

  /** The powers of two that the widths of the codec use. */
  lemma Pow2Values()
    ensures Pow2(8) == 0x100
    ensures Pow2(15) == 0x8000 && Pow2(16) == 0x1_0000
    ensures Pow2(24) == 0x100_0000
    ensures Pow2(31) == 0x8000_0000 && Pow2(32) == 0x1_0000_0000
    ensures Pow2(63) == 0x8000_0000_0000_0000 && Pow2(64) == 0x1_0000_0000_0000_0000
  {
    assert Pow2(8) == 0x100;
    assert Pow2(7) == 0x80;
    Pow2Add(8, 7);
    Pow2Add(8, 8);
    Pow2Add(16, 8);
    Pow2Add(16, 15);
    Pow2Add(16, 16);
    Pow2Add(32, 31);
    Pow2Add(32, 32);
  }

  /** `strrev`: the bytes of s in the opposite order. */
  function Reverse(s: seq<uint8>): (r: seq<uint8>)
    ensures |r| == |s|
    ensures forall i :: 0 <= i < |s| ==> r[i] == s[|s| - 1 - i]
  {
    if s == [] then [] else Reverse(s[1..]) + [s[0]]
  }

  lemma ReverseReverse(s: seq<uint8>)
    ensures Reverse(Reverse(s)) == s
  {
  }

  /** The unsigned value of s read most significant byte first. */
  function BigEndian(s: seq<uint8>): (r: nat)
    ensures r < Pow2(8 * |s|)
  {
    if s == [] then 0
    else
      Pow2Add(8 * (|s| - 1), 8);
      Pow2Values();
      BigEndian(s[..|s| - 1]) * 0x100 + s[|s| - 1]
  }

  /** The unsigned value of s read least significant byte first. */
  function LittleEndian(s: seq<uint8>): (r: nat)
    ensures r < Pow2(8 * |s|)
  {
    if s == [] then 0
    else
      Pow2Add(8, 8 * (|s| - 1));
      Pow2Values();
      s[0] + 0x100 * LittleEndian(s[1..])
  }

  /**
   * The n low-order bytes of v in two's complement, most significant first:
   * what `pack("N", v)` (n = 4) and `pack("n", v)` (n = 2) produce.
   */
  function ToBigEndian(v: int, n: nat): (r: seq<uint8>)
    ensures |r| == n
    decreases n
  {
    if n == 0 then [] else ToBigEndian(v / 0x100, n - 1) + [v % 0x100]
  }

  /** The n low-order bytes of v, least significant first: `pack("V", v)` for n = 4. */
  function ToLittleEndian(v: int, n: nat): (r: seq<uint8>)
    ensures |r| == n
    decreases n
  {
    if n == 0 then [] else [v % 0x100] + ToLittleEndian(v / 0x100, n - 1)
  }

  /** Dividing by 256 then by q takes the same bytes away as dividing by 256 * q. */
  lemma ModSplit(v: int, q: nat)
    requires q > 0
    ensures v % (q * 0x100) == (v / 0x100) % q * 0x100 + v % 0x100
  {
    var hi, lo := v / 0x100, v % 0x100;
    var a, b := hi / q, hi % q;
    assert v == (q * 0x100) * a + (b * 0x100 + lo) by {
      assert hi == q * a + b;
      assert v == hi * 0x100 + lo;
    }
    DivModUnique(v, q * 0x100, a, b * 0x100 + lo);
  }

  lemma MulAtLeast(d: int, k: int)
    requires d > 0 && k >= 1
    ensures d * k >= d
  {
  }

  /** Quotient and remainder are determined by v = d * a + r with 0 <= r < d. */
  lemma DivModUnique(v: int, d: int, a: int, r: int)
    requires d > 0 && 0 <= r < d && v == d * a + r
    ensures v % d == r && v / d == a
  {
    var a', r' := v / d, v % d;
    assert v == d * a' + r';
    var k := a - a';
    assert d * k == r' - r;
    if k > 0 {
      MulAtLeast(d, k);
    } else if k < 0 {
      MulAtLeast(d, -k);
    }
  }

  lemma {:induction false} BigEndianRoundTrip(v: int, n: nat)
    ensures BigEndian(ToBigEndian(v, n)) == v % Pow2(8 * n)
    decreases n
  {
    if n > 0 {
      var s := ToBigEndian(v, n);
      assert s[..n - 1] == ToBigEndian(v / 0x100, n - 1);
      BigEndianRoundTrip(v / 0x100, n - 1);
      Pow2Add(8 * (n - 1), 8);
      Pow2Values();
      ModSplit(v, Pow2(8 * (n - 1)));
    }
  }

  lemma {:induction false} LittleEndianRoundTrip(v: int, n: nat)
    ensures LittleEndian(ToLittleEndian(v, n)) == v % Pow2(8 * n)
    decreases n
  {
    if n > 0 {
      var s := ToLittleEndian(v, n);
      assert s[1..] == ToLittleEndian(v / 0x100, n - 1);
      LittleEndianRoundTrip(v / 0x100, n - 1);
      Pow2Add(8 * (n - 1), 8);
      Pow2Values();
      ModSplit(v, Pow2(8 * (n - 1)));
    }
  }

  /** Writing back the big-endian value of s in |s| bytes gives s: no byte string is lost by reading it. */
  lemma {:induction false} BigEndianInverse(s: seq<uint8>)
    ensures ToBigEndian(BigEndian(s), |s|) == s
    decreases |s|
  {
    if s != [] {
      var n := |s|;
      BigEndianInverse(s[..n - 1]);
      DivModUnique(BigEndian(s), 0x100, BigEndian(s[..n - 1]), s[n - 1]);
      assert s == s[..n - 1] + [s[n - 1]];
    }
  }

  /** Writing back the little-endian value of s in |s| bytes gives s. */
  lemma {:induction false} LittleEndianInverse(s: seq<uint8>)
    ensures ToLittleEndian(LittleEndian(s), |s|) == s
    decreases |s|
  {
    if s != [] {
      LittleEndianInverse(s[1..]);
      DivModUnique(LittleEndian(s), 0x100, LittleEndian(s[1..]), s[0]);
      assert s == [s[0]] + s[1..];
    }
  }

  /** Reading least significant byte first is reading the reversed bytes most significant first. */
  lemma {:induction false} LittleEndianIsReversedBigEndian(s: seq<uint8>)
    ensures LittleEndian(s) == BigEndian(Reverse(s))
  {
    if s != [] {
      var r := Reverse(s);
      assert r[..|r| - 1] == Reverse(s[1..]);
      LittleEndianIsReversedBigEndian(s[1..]);
    }
  }

  /** A zero byte in front does not change a big-endian value. */
  lemma {:induction false} BigEndianLeadingZero(s: seq<uint8>)
    ensures BigEndian([0] + s) == BigEndian(s)
  {
    if s != [] {
      assert ([0] + s)[..|s|] == [0] + s[..|s| - 1];
      BigEndianLeadingZero(s[..|s| - 1]);
    }
  }

  /** A zero byte at the end does not change a little-endian value. */
  lemma {:induction false} LittleEndianTrailingZero(s: seq<uint8>)
    ensures LittleEndian(s + [0]) == LittleEndian(s)
  {
    if s != [] {
      assert (s + [0])[1..] == s[1..] + [0];
      LittleEndianTrailingZero(s[1..]);
    }
  }

  /** Dropping the last byte of a little-endian encoding gives the encoding one byte shorter. */
  lemma {:induction false} ToLittleEndianPrefix(v: int, n: nat)
    ensures ToLittleEndian(v, n + 1)[..n] == ToLittleEndian(v, n)
    decreases n
  {
    if n > 0 {
      ToLittleEndianPrefix(v / 0x100, n - 1);
    }
  }

  lemma Regroup(x: int, p: int, y: int, c: int)
    ensures (x * p + y) * 0x100 + c == x * (p * 0x100) + (y * 0x100 + c)
  {
  }

  /** A big-endian value splits at any byte boundary into a high and a low part. */
  lemma {:induction false} BigEndianAppend(a: seq<uint8>, b: seq<uint8>)
    ensures BigEndian(a + b) == BigEndian(a) * Pow2(8 * |b|) + BigEndian(b)
    decreases |b|
  {
    if b == [] {
      assert a + b == a;
    } else {
      var n := |b|;
      assert (a + b)[..|a + b| - 1] == a + b[..n - 1];
      BigEndianAppend(a, b[..n - 1]);
      var x, p, y := BigEndian(a), Pow2(8 * (n - 1)), BigEndian(b[..n - 1]);
      Pow2Add(8 * (n - 1), 8);
      Pow2Values();
      assert BigEndian(a + b) == (x * p + y) * 0x100 + b[n - 1];
      Regroup(x, p, y, b[n - 1]);
    }
  }
}
