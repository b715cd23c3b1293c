/**
 * The integer semantics of a 64-bit PHP build (PHP_INT_SIZE === 8): native
 * integers are signed 64-bit, `<<` drops the bits shifted past bit 63,
 * `>>` is an arithmetic shift, and `|` works on the two's-complement bit
 * patterns. The codec's sign extensions are written with these shifts.
 */
module PhpInt {
  import opened Bytes

  /** The value of the bits-wide two's-complement bit pattern u. */
  function ToSigned(u: int, bits: nat): (r: int)
    requires bits >= 1 && 0 <= u < Pow2(bits)
    ensures -Pow2(bits - 1) <= r < Pow2(bits - 1)
    ensures (u - r) % Pow2(bits) == 0
  {
    if u >= Pow2(bits - 1) then
      DivModUnique(Pow2(bits), Pow2(bits), 1, 0);
      u - Pow2(bits)
    else
      DivModUnique(0, Pow2(bits), 0, 0);
      u
  }

  /** x stored in a 64-bit PHP integer: the two's-complement wrap-around of x. */
  function Wrap64(x: int): (r: int)
    ensures -Pow2(63) <= r < Pow2(63)
  {
    ToSigned(x % Pow2(64), 64)
  }

  /**
   * PHP's `x << n` on a 64-bit integer: x doubled n times, with the bits
   * pushed past bit 63 dropped.
   */
  function Shl(x: int, n: nat): int
    decreases n
  {
    if n == 0 then Wrap64(x) else Shl(2 * x, n - 1)
  }

  /** PHP's `x >> n` on a 64-bit integer: x halved n times, each time rounding toward negative infinity. */
  function Sar(x: int, n: nat): int
    decreases n
  {
    if n == 0 then x else Sar(x / 2, n - 1)
  }

  /** The bitwise OR of the low n bits of the unsigned bit patterns a and b. */
  function OrBits(a: nat, b: nat, n: nat): (r: nat)
    ensures r < Pow2(n)
    decreases n
  {
    if n == 0 then 0
    else 2 * OrBits(a / 2, b / 2, n - 1) + (if a % 2 == 1 || b % 2 == 1 then 1 else 0)
  }

  /** PHP's `x | y` on 64-bit integers: the OR of their two's-complement bit patterns. */
  function Or(x: int, y: int): (r: int)
    ensures -Pow2(63) <= r < Pow2(63)
  {
    ToSigned(OrBits(x % Pow2(64), y % Pow2(64), 64), 64)
  }

  /** OR with no bits set changes nothing. */
  lemma {:induction false} OrBitsZero(a: nat, n: nat)
    requires a < Pow2(n)
    ensures OrBits(a, 0, n) == a
    decreases n
  {
    if n > 0 {
      OrBitsZero(a / 2, n - 1);
    }
  }

  /**
   * When every bit of b lies below bit k and a has no bit there, OR adds:
   * the patterns share no set bit, so no carry ever arises.
   */
  lemma {:induction false} OrDisjoint(a: nat, b: nat, k: nat, n: nat)
    requires k <= n && a < Pow2(n) && a % Pow2(k) == 0 && b < Pow2(k)
    ensures OrBits(a, b, n) == a + b
    decreases k
  {
    if k == 0 {
      OrBitsZero(a, n);
    } else {
      var q := a / Pow2(k);
      assert a == Pow2(k) * q;
      assert a == 2 * (Pow2(k - 1) * q);
      DivModUnique(a, 2, Pow2(k - 1) * q, 0);
      DivModUnique(a / 2, Pow2(k - 1), q, 0);
      OrDisjoint(a / 2, b / 2, k - 1, n - 1);
    }
  }

  /** Shifting left by n multiplies by 2^n and wraps the product into 64 bits. */
  lemma {:induction false} ShlScales(x: int, n: nat)
    ensures Shl(x, n) == Wrap64(x * Pow2(n))
    decreases n
  {
    if n > 0 {
      ShlScales(2 * x, n - 1);
      assert 2 * x * Pow2(n - 1) == x * Pow2(n);
    }
  }

  /** Halving twice over: (x / 2) / d is x / (2 * d). */
  lemma HalveThenDivide(x: int, d: int)
    requires d > 0
    ensures x / 2 / d == x / (2 * d)
  {
    var q, r2, r1 := x / 2 / d, x / 2 % d, x % 2;
    assert x == 2 * (d * q + r2) + r1;
    DivModUnique(x, 2 * d, q, 2 * r2 + r1);
  }

  /** Shifting right by n divides by 2^n, rounding toward negative infinity. */
  lemma {:induction false} SarDivides(x: int, n: nat)
    ensures Sar(x, n) == x / Pow2(n)
    decreases n
  {
    if n > 0 {
      SarDivides(x / 2, n - 1);
      HalveThenDivide(x, Pow2(n - 1));
    }
  }

  lemma MulStrict(x: int, y: int, c: int)
    requires c > 0 && x < y
    ensures x * c < y * c
  {
    MulAtLeast(c, y - x);
  }

  /**
   * Scaling a pattern x of range pw by pk, reading the product as a
   * two's-complement number of range pn = pw * pk, and dividing by pk again,
   * reads x as a two's-complement number of range pw (ph, pm are the halves).
   */
  lemma ScaledSignExtension(x: int, ph: int, pw: int, pk: int, pm: int, pn: int)
    requires pk > 0 && ph > 0 && pw == 2 * ph && 0 <= x < pw
    requires pm == ph * pk && pn == pw * pk
    ensures 0 <= x * pk < pn
    ensures (if x * pk >= pm then x * pk - pn else x * pk) / pk == (if x >= ph then x - pw else x)
  {
    MulStrict(x, pw, pk);
    if x >= ph {
      if x > ph { MulStrict(ph, x, pk); }
      assert x * pk - pw * pk == pk * (x - pw);
      DivModUnique(x * pk - pw * pk, pk, x - pw, 0);
    } else {
      MulStrict(x, ph, pk);
      DivModUnique(x * pk, pk, x, 0);
    }
  }

  /**
   * `x << k >> k` with k = 64 - w, on a w-bit unsigned x, is the w-bit
   * two's-complement reading of x: bit w - 1 is copied into every higher bit.
   */
  lemma ShiftPairSignExtends(x: int, w: nat)
    requires 0 < w < 64 && 0 <= x < Pow2(w)
    ensures Sar(Shl(x, 64 - w), 64 - w) == ToSigned(x, w)
  {
    var k := 64 - w;
    ShlScales(x, k);
    SarDivides(Shl(x, k), k);
    var pk, ph, pw, pm, pn := Pow2(k), Pow2(w - 1), Pow2(w), Pow2(63), Pow2(64);
    Pow2Add(w, k);
    Pow2Add(w - 1, k);
    ScaledSignExtension(x, ph, pw, pk, pm, pn);
    var y := x * pk;
    DivModUnique(y, pn, 0, y);
    assert Shl(x, k) == if y >= pm then y - pn else y;
  }

  /**
   * hi * p + lo, with hi and lo of range p, read as a two's-complement number
   * of range pn = p * p, is hi read as one of range p, times p, plus lo;
   * and hi * p leaves no remainder modulo p (ph, pm are the halves).
   */
  lemma ScaledHalves(hi: int, lo: int, ph: int, p: int, pm: int, pn: int)
    requires ph > 0 && p == 2 * ph && 0 <= hi < p && 0 <= lo < p
    requires pm == ph * p && pn == p * p
    ensures 0 <= hi * p < pn && 0 <= hi * p + lo < pn
    ensures (if hi * p >= pm then hi * p - pn else hi * p) % p == 0
    ensures (if hi * p >= pm then hi * p - pn else hi * p) + lo
         == (if hi * p + lo >= pm then hi * p + lo - pn else hi * p + lo)
  {
    MulStrict(hi, p, p);
    if hi < p - 1 { MulStrict(hi, p - 1, p); }
    assert (p - 1) * p + p - 1 < pn;
    if hi >= ph {
      if hi > ph { MulStrict(ph, hi, p); }
      DivModUnique(hi * p - pn, p, hi - p, 0);
    } else {
      if hi < ph - 1 { MulStrict(hi, ph - 1, p); }
      assert (ph - 1) * p == pm - p;
      DivModUnique(hi * p, p, hi, 0);
    }
  }

  /**
   * For 32-bit unsigned halves, `hi << 32` leaves the low 32 bits clear, and
   * `(hi << 32) + lo` is the 64-bit two's-complement reading of the pattern
   * hi * 2^32 + lo.
   */
  lemma JoinHalves(hi: int, lo: int)
    requires 0 <= hi < Pow2(32) && 0 <= lo < Pow2(32)
    ensures Shl(hi, 32) % Pow2(32) == 0
    ensures 0 <= hi * Pow2(32) + lo < Pow2(64)
    ensures Shl(hi, 32) + lo == ToSigned(hi * Pow2(32) + lo, 64)
  {
    var ph, p, pm, pn := 0x8000_0000, 0x1_0000_0000, 0x8000_0000_0000_0000, 0x1_0000_0000_0000_0000;
    Pow2Values();
    ShlScales(hi, 32);
    ScaledHalves(hi, lo, ph, p, pm, pn);
    var y := hi * p;
    DivModUnique(y, pn, 0, y);
    assert Shl(hi, 32) == if y >= pm then y - pn else y;
  }

  /**
   * `(hi << 32) | lo` is `(hi << 32) + lo` for 32-bit unsigned halves: the
   * two patterns share no set bit.
   */
  lemma OrJoinsHalves(hi: int, lo: int)
    requires 0 <= hi < Pow2(32) && 0 <= lo < Pow2(32)
    ensures Or(Shl(hi, 32), lo) == Shl(hi, 32) + lo
  {
    Pow2Values();
    ShlScales(hi, 32);
    var y := hi * 0x1_0000_0000;
    var s := Shl(hi, 32);
    assert 0 <= y < 0x1_0000_0000_0000_0000 by {
      MulStrict(hi, 0x1_0000_0000, 0x1_0000_0000);
    }
    DivModUnique(y, 0x1_0000_0000_0000_0000, 0, y);
    assert s == y || s == y - 0x1_0000_0000_0000_0000;
    DivModUnique(s, 0x1_0000_0000_0000_0000, if s == y then 0 else -1, y);
    DivModUnique(lo, 0x1_0000_0000_0000_0000, 0, lo);
    DivModUnique(y, 0x1_0000_0000, hi, 0);
    OrDisjoint(y, lo, 32, 64);
    assert Or(s, lo) == ToSigned(y + lo, 64);
    JoinHalves(hi, lo);
    assert y == hi * Pow2(32);
  }


  /** A value that fits in bits signed bits is given back by reading its low bits as signed. */
  lemma ToSignedOfLowBits(x: int, bits: nat)
    requires bits >= 1 && -Pow2(bits - 1) <= x < Pow2(bits - 1)
    ensures 0 <= x % Pow2(bits) < Pow2(bits)
    ensures ToSigned(x % Pow2(bits), bits) == x
  {
    if x >= 0 {
      DivModUnique(x, Pow2(bits), 0, x);
    } else {
      DivModUnique(x, Pow2(bits), -1, x + Pow2(bits));
    }
  }
}
