/**
 * Integer views of the bit operations the transmitter performs on its
 * frame word: shifts by k become multiplication or division by 2^k, and
 * bit k of a non-negative value is the remainder of that division.
 */
module Bits {

  /** The C integer types the transmitter uses, at avr-gcc's widths. */
  newtype uint8 = x: int | 0 <= x < 0x100        // uint8_t
  newtype int16 = x: int | -0x8000 <= x < 0x8000  // int
  newtype int32 = x: int | -0x8000_0000 <= x < 0x8000_0000  // long

  /** 2^k */
  function Pow2(k: nat): (p: nat)
    ensures p >= 1
    ensures k >= 1 ==> p >= 2 && p % 2 == 0
  {
    if k == 0 then 1 else 2 * Pow2(k - 1)
  }

  /** w >> k for a non-negative w: k right shifts by one. */
  function Shr(w: nat, k: nat): nat
  {
    if k == 0 then w else Shr(w, k - 1) / 2
  }

  /** Bit k of a non-negative value: (w >> k) & 1. */
  function Bit(w: nat, k: nat): (b: nat)
    ensures b <= 1
  {
    Shr(w, k) % 2
  }

  /** Division with remainder has a unique quotient and remainder. */
  lemma DivModUnique(w: int, m: int, q: int, r: int)
    requires m > 0 && 0 <= r < m && w == m * q + r
    ensures w / m == q && w % m == r
  {
    var q', r' := w / m, w % m;
    assert m * q' + r' == m * q + r;
    if q > q' {
      MulAtLeast(m, q - q');
    } else if q < q' {
      MulAtLeast(m, q' - q);
    }
  }

  /** A positive multiple of m is at least m. */
  lemma {:induction false} MulAtLeast(m: nat, a: nat)
    requires a >= 1
    ensures m * a >= m
  {
    if a > 1 {
      MulAtLeast(m, a - 1);
      assert m * a == m * (a - 1) + m;
    }
  }

  /** Shifting right by one and then by k is shifting right by k + 1. */
  lemma {:induction false} ShrHalf(w: nat, k: nat)
    ensures Shr(w / 2, k) == Shr(w, k + 1)
  {
    if k > 0 {
      ShrHalf(w, k - 1);
    }
  }

  /** Bit k + 1 of w is bit k of w >> 1. */
  lemma BitOfHalf(w: nat, k: nat)
    ensures Bit(w / 2, k) == Bit(w, k + 1)
  {
    ShrHalf(w, k);
  }

  /** The low n + 1 bits of w are its lowest bit followed by the low n bits of w >> 1. */
  lemma {:induction false} LowBitsSplit(w: nat, n: nat)
    ensures w % Pow2(n + 1) == w % 2 + 2 * ((w / 2) % Pow2(n))
  {
    var p := Pow2(n);
    var q := (w / 2) / p;
    var b := (w / 2) % p;
    assert w / 2 == p * q + b;
    assert w == (2 * p) * q + (2 * b + w % 2);
    DivModUnique(w, 2 * p, q, 2 * b + w % 2);
  }

  /** A value below 2^n has nothing left after shifting right by n. */
  lemma {:induction false} ShrBelowPow(w: nat, n: nat)
    requires w < Pow2(n)
    ensures Shr(w, n) == 0
  {
    if n > 0 {
      ShrBelowPow(w / 2, n - 1);
      ShrHalf(w, n - 1);
    }
  }

  /**
   * The value of the low n bits of w, gathered least significant first
   * the way a receiver rebuilds a word from its bits.
   */
  function LowBits(w: nat, n: nat): (r: nat)
    ensures r < Pow2(n)
  {
    if n == 0 then 0 else w % 2 + 2 * LowBits(w / 2, n - 1)
  }

  /** Gathering the low n bits one at a time is taking w modulo 2^n. */
  lemma {:induction false} LowBitsMod(w: nat, n: nat)
    ensures LowBits(w, n) == w % Pow2(n)
  {
    if n > 0 {
      LowBitsMod(w / 2, n - 1);
      LowBitsSplit(w, n - 1);
    }
  }

  /** A value that fits in n bits is its own low n bits. */
  lemma {:induction false} LowBitsOfSmall(w: nat, n: nat)
    requires w < Pow2(n)
    ensures LowBits(w, n) == w
  {
    if n > 0 {
      LowBitsOfSmall(w / 2, n - 1);
    }
  }

  /** Doubling a product doubles either factor. */
  lemma MulDouble(x: int, y: int)
    ensures 2 * (x * y) == x * (2 * y)
  {
  }

  /** 2^(a + b) == 2^a * 2^b */
  lemma {:induction false} Pow2Add(a: nat, b: nat)
    ensures Pow2(a + b) == Pow2(a) * Pow2(b)
  {
    if b > 0 {
      Pow2Add(a, b - 1);
      MulDouble(Pow2(a), Pow2(b - 1));
    }
  }

  /** The powers the frame layout uses. */
  lemma Pow2Values()
    ensures Pow2(8) == 0x100 && Pow2(16) == 0x1_0000
    ensures Pow2(24) == 0x100_0000 && Pow2(32) == 0x1_0000_0000
  {
    Pow2Byte();
    Pow2Add(8, 8);
    Pow2Add(16, 8);
    Pow2Add(16, 16);
  }

  lemma Pow2Byte()
    ensures Pow2(8) == 0x100
  {
  }

  /**
   * Bits of x * 2^j + y, where y fits in j bits: the low j bits are those of
   * y and the bits above are those of x, so the addition never carries.
   */
  lemma {:induction false} BitOfPlaced(x: nat, y: nat, j: nat, k: nat)
    requires y < Pow2(j)
    ensures Bit(x * Pow2(j) + y, k) == if k < j then Bit(y, k) else Bit(x, k - j)
  {
    var v := x * Pow2(j) + y;
    if j == 0 {
      assert v == x;
    } else {
      assert Pow2(j) == 2 * Pow2(j - 1);
      assert v == 2 * (x * Pow2(j - 1)) + y;
      DivModUnique(v, 2, x * Pow2(j - 1) + y / 2, y % 2);
      if k == 0 {
        assert Bit(v, 0) == v % 2 && Bit(y, 0) == y % 2;
      } else {
        BitOfHalf(v, k - 1);
        BitOfHalf(y, k - 1);
        BitOfPlaced(x, y / 2, j - 1, k - 1);
      }
    }
  }
}
