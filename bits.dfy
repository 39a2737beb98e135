/** Unsigned machine integers and the bitwise operations that the memory-image
    routines use, modelled on unbounded integers.

    A shift left by `d` is multiplication by `Pow2(d)`, an unsigned shift right
    is division by `Pow2(d)`, a mask `(1 << u) - 1` is a remainder modulo
    `Pow2(u)`, and bitwise OR is the function `Or` below. The lemmas relate each
    of them to the individual bits, `Bit(a, j)`. */
module Bits {

  /** A buffer byte: the `char` of the buffer, read as unsigned. */
  type byte = x: int | 0 <= x < 256

  /** A `uint64_t`. */
  type u64 = x: int | 0 <= x < 0x1_0000_0000_0000_0000

  function Pow2(n: nat): (r: nat)
    ensures r >= 1
  {
    if n == 0 then 1 else 2 * Pow2(n - 1)
  }

  /** Bit `j` of `a`, counting from the least significant bit. */
  predicate Bit(a: int, j: nat)
  {
    (a / Pow2(j)) % 2 == 1
  }

  /** Bitwise OR of two unsigned numbers. */
  function Or(a: nat, b: nat): nat
    decreases a + b
  {
    if a == 0 then b
    else if b == 0 then a
    else 2 * Or(a / 2, b / 2) + (if a % 2 == 1 || b % 2 == 1 then 1 else 0)
  }

  // ---------------------------------------------------------------------------
  // Division and remainder by powers of two

  lemma DivModUnique(a: int, m: int, q: int, r: int)
    requires m > 0 && 0 <= r < m && a == m * q + r
    ensures a / m == q && a % m == r
  {
    var q', r' := a / m, a % m;
    assert m * (q' - q) == r - r';
    if q' > q {
      MulAtLeast(m, q' - q);
      assert false;
    } else if q' < q {
      MulAtLeast(m, q - q');
      assert false;
    }
  }

  /** Appending one digit to a two-part number in base `2^k`. */
  lemma LinearStep(hi: int, p: int, lo: int, d: int)
    ensures 2 * (hi * p + lo) + d == hi * (2 * p) + (2 * lo + d)
  {
  }

  lemma DoubleProduct(m2: int, m: int, x: int)
    requires m2 == 2 * m
    ensures m2 * x == 2 * (m * x)
  {
  }

  lemma ModOfMultiple(k: nat, m: nat, r: nat)
    requires 0 <= r < m
    ensures (k * m + r) % m == r
  {
    DivModUnique(k * m + r, m, k, r);
  }

  lemma MulAtLeast(m: int, k: int)
    requires m > 0 && k >= 1
    ensures m * k >= m
  {
  }

  lemma Pow2Add(a: nat, b: nat)
    ensures Pow2(a + b) == Pow2(a) * Pow2(b)
    decreases a
  {
    if a > 0 {
      Pow2Add(a - 1, b);
      assert Pow2(a + b) == 2 * Pow2(a - 1 + b);
    }
  }

  lemma Pow2Monotonic(a: nat, b: nat)
    requires a <= b
    ensures Pow2(a) <= Pow2(b)
    decreases b
  {
    if a < b {
      Pow2Monotonic(a, b - 1);
    }
  }

  /** One halving step: dividing by `Pow2(u + 1)` is halving and then dividing
      by `Pow2(u)`; the remainder keeps the low bit and halves the rest. */
  lemma HalfDivMod(a: nat, u: nat)
    ensures a / Pow2(u + 1) == (a / 2) / Pow2(u)
    ensures a % Pow2(u + 1) == a % 2 + 2 * ((a / 2) % Pow2(u))
  {
    var p := Pow2(u);
    var h := a / 2;
    var q, r := h / p, h % p;
    assert h == p * q + r;
    assert a == (2 * p) * q + (2 * r + a % 2);
    DivModUnique(a, 2 * p, q, 2 * r + a % 2);
  }

  lemma ShrBelow(a: nat, u: nat)
    ensures a / Pow2(u) <= a
    decreases u
  {
    if u > 0 {
      HalfDivMod(a, u - 1);
      ShrBelow(a / 2, u - 1);
    }
  }

  lemma ShrDecreases(a: nat, u: nat)
    requires a > 0 && u > 0
    ensures a / Pow2(u) < a
  {
    HalfDivMod(a, u - 1);
    ShrBelow(a / 2, u - 1);
  }

  /** Shifting right by `u` takes a number below `2^(n+u)` below `2^n`. */
  lemma ShrBound(a: nat, n: nat, u: nat)
    requires a < Pow2(n + u)
    ensures a / Pow2(u) < Pow2(n)
    decreases u
  {
    if u > 0 {
      HalfDivMod(a, u - 1);
      assert Pow2(n + u) == 2 * Pow2(n + u - 1);
      ShrBound(a / 2, n, u - 1);
    }
  }

  /** Dividing by `2^(d+1)` is dividing by `2^d` and then halving. */
  lemma {:induction false} ShrStep(a: nat, d: nat)
    ensures a / Pow2(d + 1) == (a / Pow2(d)) / 2
    decreases d
  {
    HalfDivMod(a, d);
    if d > 0 {
      ShrStep(a / 2, d - 1);
      HalfDivMod(a, d - 1);
    }
  }

  lemma ShrNonnegative(a: nat, u: nat)
    ensures a / Pow2(u) >= 0
  {
    var m := Pow2(u);
    if a / m < 0 {
      assert a == m * (a / m) + a % m;
      MulAtLeast(m, -(a / m));
      assert false;
    }
  }

  lemma ShlNonnegative(a: nat, u: nat)
    ensures a * Pow2(u) >= 0
  {
  }

  lemma ModSmall(a: nat, m: nat)
    requires a < m
    ensures a % m == a
  {
    DivModUnique(a, m, 0, a);
  }

  lemma Pow2Byte()
    ensures Pow2(8) == 256
  {
  }

  lemma Pow2Word()
    ensures Pow2(64) == 0x1_0000_0000_0000_0000
  {
    Pow2Byte();
    Pow2Add(8, 8);
    assert Pow2(16) == 0x1_0000;
    Pow2Add(16, 16);
    assert Pow2(32) == 0x1_0000_0000;
    Pow2Add(32, 32);
  }

  /** A number of at most 64 bits fits in a `uint64_t`. */
  lemma BelowWord(x: nat, n: nat)
    requires n <= 64 && x < Pow2(n)
    ensures x < 0x1_0000_0000_0000_0000
  {
    Pow2Monotonic(n, 64);
    Pow2Word();
  }

  /** Bit `pos` of a 512-bit line `line` lies in byte `pos / 8` of that
      line, at the same place within the byte. */
  lemma ByteOfLineBit(line: nat, pos: nat)
    ensures (512 * line + pos) / 8 == 64 * line + pos / 8
    ensures (512 * line + pos) % 8 == pos % 8
  {
    DivModUnique(512 * line + pos, 8, 64 * line + pos / 8, pos % 8);
  }

  /** Taking a remainder never makes a number larger. */
  lemma ModAtMost(a: nat, m: nat)
    requires m > 0
    ensures a % m <= a
  {
    if a < m {
      ModSmall(a, m);
    } else {
      MulAtLeast(m, a / m);
    }
  }

  lemma ModBound(a: nat, u: nat)
    ensures a % Pow2(u) < Pow2(u)
  {
  }

  // ---------------------------------------------------------------------------
  // Bits

  lemma BitZeroIndex(a: nat)
    ensures Bit(a, 0) == (a % 2 == 1)
  {
  }

  /** Bit `j + 1` of `a` is bit `j` of `a / 2`. */
  lemma BitHalf(a: nat, j: nat)
    ensures Bit(a, j + 1) == Bit(a / 2, j)
  {
    HalfDivMod(a, j);
  }

  lemma NoBitsOfZero(j: nat)
    ensures !Bit(0, j)
  {
  }

  /** A right shift by `u` moves bit `j + u` to bit `j`. */
  lemma {:induction false} BitShr(a: nat, u: nat, j: nat)
    ensures Bit(a / Pow2(u), j) == Bit(a, j + u)
    decreases u
  {
    if u > 0 {
      HalfDivMod(a, u - 1);
      BitShr(a / 2, u - 1, j);
      BitHalf(a, j + u - 1);
    }
  }

  /** A mask with `u` low ones keeps exactly the bits below `u`. */
  lemma {:induction false} BitMod(a: nat, u: nat, j: nat)
    ensures Bit(a % Pow2(u), j) == (j < u && Bit(a, j))
    decreases u
  {
    if u == 0 {
      NoBitsOfZero(j);
    } else {
      HalfDivMod(a, u - 1);
      var x := a % Pow2(u);
      var y := (a / 2) % Pow2(u - 1);
      assert x == a % 2 + 2 * y;
      if j == 0 {
        BitZeroIndex(x);
        BitZeroIndex(a);
      } else {
        BitHalf(x, j - 1);
        assert x / 2 == y;
        BitMod(a / 2, u - 1, j - 1);
        BitHalf(a, j - 1);
      }
    }
  }

  /** A left shift by `d` moves bit `j - d` to bit `j` and clears the bits below `d`. */
  lemma {:induction false} BitShl(x: nat, d: nat, j: nat)
    ensures Bit(x * Pow2(d), j) == (j >= d && Bit(x, j - d))
    decreases d
  {
    if d > 0 {
      var y := x * Pow2(d - 1);
      assert x * Pow2(d) == 2 * y;
      if j == 0 {
        BitZeroIndex(2 * y);
      } else {
        BitHalf(2 * y, j - 1);
        assert (2 * y) / 2 == y;
        BitShl(x, d - 1, j - 1);
      }
    }
  }

  /** A number below `2^n` has no bit at or above `n`. */
  lemma {:induction false} BitAbove(a: nat, n: nat, j: nat)
    requires a < Pow2(n) && j >= n
    ensures !Bit(a, j)
    decreases n
  {
    if n == 0 {
      assert a == 0;
      NoBitsOfZero(j);
    } else {
      BitHalf(a, j - 1);
      BitAbove(a / 2, n - 1, j - 1);
    }
  }

  /** Two numbers below `2^n` with the same low `n` bits are equal. */
  lemma {:induction false} BitsDetermine(a: nat, b: nat, n: nat)
    requires a < Pow2(n) && b < Pow2(n)
    requires forall j :: 0 <= j < n ==> Bit(a, j) == Bit(b, j)
    ensures a == b
    decreases n
  {
    if n > 0 {
      BitZeroIndex(a);
      BitZeroIndex(b);
      forall j | 0 <= j < n - 1
        ensures Bit(a / 2, j) == Bit(b / 2, j)
      {
        BitHalf(a, j);
        BitHalf(b, j);
      }
      BitsDetermine(a / 2, b / 2, n - 1);
    }
  }

  // ---------------------------------------------------------------------------
  // Bitwise OR

  /** Each bit of `Or(a, b)` is set iff it is set in `a` or in `b`. */
  lemma {:induction false} OrBit(a: nat, b: nat, j: nat)
    ensures Bit(Or(a, b), j) == (Bit(a, j) || Bit(b, j))
    decreases a + b
  {
    if a == 0 {
      NoBitsOfZero(j);
    } else if b == 0 {
      NoBitsOfZero(j);
    } else {
      var o := Or(a, b);
      var h := Or(a / 2, b / 2);
      assert o == 2 * h + (if a % 2 == 1 || b % 2 == 1 then 1 else 0);
      if j == 0 {
        BitZeroIndex(o);
        BitZeroIndex(a);
        BitZeroIndex(b);
      } else {
        BitHalf(o, j - 1);
        assert o / 2 == h;
        OrBit(a / 2, b / 2, j - 1);
        BitHalf(a, j - 1);
        BitHalf(b, j - 1);
      }
    }
  }

  /** OR of two numbers below `2^n` stays below `2^n`. */
  lemma {:induction false} OrBelow(a: nat, b: nat, n: nat)
    requires a < Pow2(n) && b < Pow2(n)
    ensures Or(a, b) < Pow2(n)
    decreases n
  {
    if n > 0 && a != 0 && b != 0 {
      OrBelow(a / 2, b / 2, n - 1);
    }
  }

  /** OR with a number whose bits all lie at or above bit `c`, when `a` lies
      below `2^c`, is addition. */
  lemma {:induction false} OrDisjoint(a: nat, b: nat, c: nat)
    requires a < Pow2(c)
    ensures Or(a, b * Pow2(c)) == a + b * Pow2(c)
    decreases c
  {
    if c > 0 && a != 0 && b != 0 {
      var y := b * Pow2(c - 1);
      assert b * Pow2(c) == 2 * y;
      assert (2 * y) / 2 == y && (2 * y) % 2 == 0;
      OrDisjoint(a / 2, b, c - 1);
    }
  }

  /** OR with zero is the identity. */
  lemma OrZero(a: nat)
    ensures Or(a, 0) == a && Or(0, a) == a
  {
  }

  /** The OR of two bytes, as a byte. */
  function OrByte(a: byte, b: byte): byte
  {
    OrBelow(a, b, 8);
    Pow2Byte();
    Or(a, b)
  }

  lemma OrByteBit(a: byte, b: byte, j: nat)
    ensures Bit(OrByte(a, b), j) == (Bit(a, j) || Bit(b, j))
  {
    OrBit(a, b, j);
  }
}
