/**
 * Unsigned 32-bit words and bytes, with the C++ operators the SHA-256 code
 * applies to them. A `uint32_t` is an integer in [0, 2^32); addition wraps
 * modulo 2^32, `>>` divides by a power of two, `<<` multiplies by one and
 * keeps the low 32 bits, and the cast to `uint8_t` keeps the low 8 bits.
 * The bitwise operators combine the 32 bits of their operands one by one;
 * bit i of x is the i-th binary digit of x, counting from the least
 * significant one.
 */
module Words {

  const WRAP: nat := 0x1_0000_0000

  type Word = x: int | 0 <= x < 0x1_0000_0000
  type Byte = x: int | 0 <= x < 0x100

  function Pow2(n: nat): (p: nat)
    ensures p >= 1
  {
    if n == 0 then 1 else 2 * Pow2(n - 1)
  }

  lemma Pow2Values()
    ensures Pow2(3) == 8 && Pow2(6) == 64
    ensures Pow2(8) == 0x100 && Pow2(16) == 0x1_0000 && Pow2(24) == 0x100_0000
    ensures Pow2(32) == WRAP
  {
    assert Pow2(4) == 16;
    assert Pow2(8) == 256;
    assert Pow2(12) == 4096;
    assert Pow2(16) == 0x1_0000;
    assert Pow2(20) == 0x10_0000;
    assert Pow2(24) == 0x100_0000;
    assert Pow2(28) == 0x1000_0000;
  }

  /** Bit i of x. */
  function Bit(x: nat, i: nat): bool {
    if i == 0 then x % 2 == 1 else Bit(x / 2, i - 1)
  }

  // ---------------------------------------------------------------------
  // Bitwise operators
  // ---------------------------------------------------------------------

  datatype BitOp = AndOp | OrOp | XorOp

  function Apply(op: BitOp, a: bool, b: bool): bool {
    match op
    case AndOp => a && b
    case OrOp => a || b
    case XorOp => a != b
  }

  /**
   * x and y combined bit by bit with op. All three operators combine two
   * zero bits into a zero bit, so the recursion stops once both operands
   * have run out of set bits.
   */
  function Combine(op: BitOp, x: nat, y: nat): nat
    decreases x + y, 1
  {
    if x == 0 && y == 0 then 0 else CombineLow(op, x, y)
  }

  /** The low bit of x and y combined, below the rest combined. */
  function CombineLow(op: BitOp, x: nat, y: nat): nat
    requires x != 0 || y != 0
    decreases x + y, 0
  {
    2 * Combine(op, x / 2, y / 2) + (if Apply(op, x % 2 == 1, y % 2 == 1) then 1 else 0)
  }

  /** Combining two numbers below 2^w gives a number below 2^w. */
  lemma {:induction false} CombineBound(op: BitOp, x: nat, y: nat, w: nat)
    requires x < Pow2(w) && y < Pow2(w)
    ensures Combine(op, x, y) < Pow2(w)
    decreases w
  {
    if x != 0 || y != 0 {
      if w == 0 {
        assert false;
      }
      CombineBound(op, x / 2, y / 2, w - 1);
    }
  }

  /** Combining two words gives a word. */
  lemma CombineWord(op: BitOp, x: Word, y: Word)
    ensures Combine(op, x, y) < 0x1_0000_0000
  {
    Pow2Values();
    CombineBound(op, x, y, 32);
  }

  /** `x & y` */
  function And(x: Word, y: Word): Word {
    CombineWord(AndOp, x, y);
    Combine(AndOp, x, y)
  }

  /** `x | y` */
  function Or(x: Word, y: Word): Word {
    CombineWord(OrOp, x, y);
    Combine(OrOp, x, y)
  }

  /** `x ^ y` */
  function Xor(x: Word, y: Word): Word {
    CombineWord(XorOp, x, y);
    Combine(XorOp, x, y)
  }

  /** `~x`: every one of the 32 bits flipped, which is 2^32 - 1 - x. */
  function Not(x: Word): Word {
    WRAP - 1 - x
  }

  // ---------------------------------------------------------------------
  // Arithmetic operators
  // ---------------------------------------------------------------------

  /** `x >> n`, one halving per place; shifting by 32 or more is undefined in C++. */
  function Shr(x: Word, n: nat): (r: Word)
    requires n < 32
    ensures r <= x
  {
    if n == 0 then x else Shr(x / 2, n - 1)
  }

  /** `x << n`, one doubling modulo 2^32 per place. */
  function Shl(x: Word, n: nat): Word
    requires n < 32
  {
    if n == 0 then x else (2 * Shl(x, n - 1)) % WRAP
  }

  /** `x + y` on `uint32_t`. */
  function Add(x: Word, y: Word): Word {
    (x + y) % WRAP
  }

  /** `(uint8_t) x` */
  function LowByte(x: Word): Byte {
    x % 0x100
  }

  // ---------------------------------------------------------------------
  // What each operator does to bit i
  // ---------------------------------------------------------------------

  lemma {:induction false} CombineBit(op: BitOp, x: nat, y: nat, i: nat)
    ensures Bit(Combine(op, x, y), i) == Apply(op, Bit(x, i), Bit(y, i))
    decreases x + y
  {
    if x == 0 && y == 0 {
      ZeroBit(i);
    } else {
      var rest := Combine(op, x / 2, y / 2);
      var low := if Apply(op, x % 2 == 1, y % 2 == 1) then 1 else 0;
      assert Combine(op, x, y) == 2 * rest + low;
      if i > 0 {
        assert (2 * rest + low) / 2 == rest;
        CombineBit(op, x / 2, y / 2, i - 1);
      }
    }
  }

  lemma {:induction false} ZeroBit(i: nat)
    ensures !Bit(0, i)
  {
    if i > 0 {
      ZeroBit(i - 1);
    }
  }

  lemma AndBit(x: Word, y: Word, i: nat)
    requires i < 32
    ensures Bit(And(x, y), i) == (Bit(x, i) && Bit(y, i))
  {
    CombineBit(AndOp, x, y, i);
  }

  lemma OrBit(x: Word, y: Word, i: nat)
    requires i < 32
    ensures Bit(Or(x, y), i) == (Bit(x, i) || Bit(y, i))
  {
    CombineBit(OrOp, x, y, i);
  }

  lemma XorBit(x: Word, y: Word, i: nat)
    requires i < 32
    ensures Bit(Xor(x, y), i) == (Bit(x, i) != Bit(y, i))
  {
    CombineBit(XorOp, x, y, i);
  }

  lemma NotBit(x: Word, i: nat)
    requires i < 32
    ensures Bit(Not(x), i) == !Bit(x, i)
  {
    Pow2Values();
    ComplementBit(x, 32, i);
  }

  /** 2^w - 1 - x has exactly the low w bits set that x has clear. */
  lemma {:induction false} ComplementBit(x: nat, w: nat, i: nat)
    requires x < Pow2(w)
    ensures Bit(Pow2(w) - 1 - x, i) == (i < w && !Bit(x, i))
    decreases w
  {
    if w == 0 {
      ZeroBit(i);
    } else {
      var p, q, y := Pow2(w - 1), x / 2, Pow2(w) - 1 - x;
      assert x == 2 * q + x % 2;
      assert y == 2 * (p - 1 - q) + (1 - x % 2);
      assert y / 2 == p - 1 - q && y % 2 == 1 - x % 2;
      if i > 0 {
        ComplementBit(q, w - 1, i - 1);
      }
    }
  }

  /** Bit i of x >> n is bit i + n of x. */
  lemma {:induction false} ShrBit(x: Word, n: nat, i: nat)
    requires n < 32
    ensures Bit(Shr(x, n), i) == Bit(x, i + n)
    decreases n
  {
    if n > 0 {
      ShrBit(x / 2, n - 1, i);
      assert Bit(x, i + n) == Bit(x / 2, i + n - 1);
    }
  }

  /** Bit i of x << n is bit i - n of x, and zero below n and from 32 up. */
  lemma {:induction false} ShlBit(x: Word, n: nat, i: nat)
    requires n < 32
    ensures Bit(Shl(x, n), i) == (n <= i < 32 && Bit(x, i - n))
    decreases n
  {
    if n == 0 {
      if i >= 32 {
        Pow2Values();
        HighBit(x, 32, i);
      }
    } else {
      DoubleModBit(Shl(x, n - 1), i);
      if i > 0 {
        ShlBit(x, n - 1, i - 1);
      }
    }
  }

  /** The cast to a byte keeps bits 0 to 7. */
  lemma LowByteBit(x: Word, i: nat)
    ensures Bit(LowByte(x), i) == (i < 8 && Bit(x, i))
  {
    Pow2Values();
    ModBit(x, 8, i);
  }

  /** Doubling modulo 2^32 moves every bit one place up and drops bit 31. */
  lemma DoubleModBit(x: Word, i: nat)
    ensures Bit((2 * x) % WRAP, i) == (0 < i < 32 && Bit(x, i - 1))
  {
    Pow2Values();
    ModBit(2 * x, 32, i);
    DoubleBit(x, i);
  }

  /** x >> n is the quotient of x by 2^n. */
  lemma {:induction false} ShrDivides(x: Word, n: nat)
    requires n < 32
    ensures Shr(x, n) == x / Pow2(n)
    decreases n
  {
    if n > 0 {
      ShrDivides(x / 2, n - 1);
      Halve(x, Pow2(n - 1));
    }
  }

  /** Bit i of y mod 2^m is bit i of y below m, and zero from m up. */
  lemma {:induction false} ModBit(y: nat, m: nat, i: nat)
    ensures Bit(y % Pow2(m), i) == (i < m && Bit(y, i))
    decreases m
  {
    if m == 0 {
      ZeroBit(i);
    } else {
      var p := Pow2(m - 1);
      var z := y % Pow2(m);
      assert Pow2(m) == 2 * p;
      Halve(y, p);
      assert z == 2 * ((y / 2) % p) + y % 2;
      if i > 0 {
        assert z / 2 == (y / 2) % p;
        ModBit(y / 2, m - 1, i - 1);
      }
    }
  }

  lemma DoubleBit(y: nat, i: nat)
    ensures Bit(2 * y, i) == (i > 0 && Bit(y, i - 1))
  {
    if i > 0 {
      assert (2 * y) / 2 == y;
    }
  }

  /** A number below 2^w has no bit set from w up. */
  lemma {:induction false} HighBit(x: nat, w: nat, i: nat)
    requires x < Pow2(w) && w <= i
    ensures !Bit(x, i)
    decreases w
  {
    if w == 0 {
      ZeroBit(i);
    } else {
      HighBit(x / 2, w - 1, i - 1);
    }
  }

  /** Two numbers below 2^w with the same low w bits are equal. */
  lemma {:induction false} BitsEqual(x: nat, y: nat, w: nat)
    requires x < Pow2(w) && y < Pow2(w)
    requires forall i :: 0 <= i < w ==> Bit(x, i) == Bit(y, i)
    ensures x == y
    decreases w
  {
    if w > 0 {
      forall i | 0 <= i < w - 1
        ensures Bit(x / 2, i) == Bit(y / 2, i)
      {
        assert Bit(x, i + 1) == Bit(y, i + 1);
      }
      BitsEqual(x / 2, y / 2, w - 1);
      assert Bit(x, 0) == Bit(y, 0);
    }
  }

  // ---------------------------------------------------------------------
  // Division facts
  // ---------------------------------------------------------------------

  lemma MulAtLeast(d: int, k: int)
    requires d > 0 && k >= 0
    ensures d * k >= k
  {
  }

  /** Dividing by 2p is halving, then dividing by p. */
  lemma Halve(y: nat, p: nat)
    requires p >= 1
    ensures y / (2 * p) == (y / 2) / p
    ensures y % (2 * p) == 2 * ((y / 2) % p) + y % 2
  {
    var q, s, b := (y / 2) / p, (y / 2) % p, y % 2;
    assert y / 2 == p * q + s;
    assert y == (2 * p) * q + (2 * s + b);
    DivModUnique(y, 2 * p, q, 2 * s + b);
  }

  /** Reducing a factor modulo 2^32 before multiplying does not change the product modulo 2^32. */
  lemma MulWrap(k: nat, n: nat)
    ensures (k * (n % WRAP)) % WRAP == (k * n) % WRAP
  {
    var q, r := n / WRAP, n % WRAP;
    assert k * n == WRAP * (k * q) + k * r;
    assert k * r == WRAP * ((k * r) / WRAP) + (k * r) % WRAP;
    DivModUnique(k * n, WRAP, k * q + (k * r) / WRAP, (k * r) % WRAP);
  }

  /** `x << n` multiplies by 2^n modulo 2^32. */
  lemma {:induction false} ShlMultiplies(x: Word, n: nat)
    requires n < 32
    ensures Shl(x, n) == (Pow2(n) * x) % WRAP
  {
    if n > 0 {
      ShlMultiplies(x, n - 1);
      MulWrap(2, Pow2(n - 1) * x);
      assert 2 * (Pow2(n - 1) * x) == Pow2(n) * x;
    }
  }

  lemma DivModUnique(n: int, d: int, q: int, r: int)
    requires d > 0 && n == d * q + r && 0 <= r < d
    ensures n / d == q && n % d == r
  {
    var q', r' := n / d, n % d;
    assert d * (q - q') == r' - r;
    if q > q' {
      MulAtLeast(d, q - q' - 1);
    } else if q < q' {
      MulAtLeast(d, q' - q - 1);
    }
  }
}
