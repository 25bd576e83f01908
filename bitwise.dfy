/**
 * The bit operations of include/littlesmith/util/Bitwise.h. The templates
 * are used only on 32-bit unsigned words (by SHA-256), so they are written
 * here on `Word`. A shift by the full width or more is undefined in C++,
 * so shift amounts are below 32 and rotation amounts between 1 and 31.
 */
module Bitwise {
  import opened Words

  /** shift_right */
  function ShiftRight(x: Word, n: nat): Word
    requires n < 32
  {
    Shr(x, n)
  }

  /** shift_left */
  function ShiftLeft(x: Word, n: nat): Word
    requires n < 32
  {
    Shl(x, n)
  }

  /** rotate_right: the width `sizeof(x) << 3` of a word is 32. */
  function RotateRight(x: Word, n: nat): Word
    requires 0 < n < 32
  {
    Or(ShiftRight(x, n), Shl(x, 32 - n))
  }

  /** rotate_left */
  function RotateLeft(x: Word, n: nat): Word
    requires 0 < n < 32
  {
    Or(ShiftLeft(x, n), Shr(x, 32 - n))
  }

  /** choose */
  function Choose(x: Word, y: Word, z: Word): Word {
    Xor(And(x, y), And(Not(x), z))
  }

  /** majority */
  function Majority(x: Word, y: Word, z: Word): Word {
    Xor(Xor(And(x, y), And(x, z)), And(y, z))
  }

  /** shift_right is a logical shift: bits move n places down and zeros come in at the top. */
  lemma ShiftRightBit(x: Word, n: nat, i: nat)
    requires n < 32 && i < 32
    ensures Bit(ShiftRight(x, n), i) == (i + n < 32 && Bit(x, i + n))
  {
    ShrBit(x, n, i);
    Pow2Values();
    if i + n >= 32 {
      HighBit(x, 32, i + n);
    }
  }

  /** shift_left is a logical shift: bits move n places up and zeros come in at the bottom. */
  lemma ShiftLeftBit(x: Word, n: nat, i: nat)
    requires n < 32 && i < 32
    ensures Bit(ShiftLeft(x, n), i) == (n <= i && Bit(x, i - n))
  {
    ShlBit(x, n, i);
  }

  /** Bit i of rotate_right(x, n) is bit i + n of x, counted round modulo 32. */
  lemma RotateRightBit(x: Word, n: nat, i: nat)
    requires 0 < n < 32 && i < 32
    ensures Bit(RotateRight(x, n), i) == Bit(x, if i + n < 32 then i + n else i + n - 32)
  {
    OrBit(ShiftRight(x, n), Shl(x, 32 - n), i);
    ShiftRightBit(x, n, i);
    ShlBit(x, 32 - n, i);
  }

  /** Bit i of rotate_left(x, n) is bit i - n of x, counted round modulo 32. */
  lemma RotateLeftBit(x: Word, n: nat, i: nat)
    requires 0 < n < 32 && i < 32
    ensures Bit(RotateLeft(x, n), i) == Bit(x, if n <= i then i - n else i + 32 - n)
  {
    OrBit(ShiftLeft(x, n), Shr(x, 32 - n), i);
    ShiftLeftBit(x, n, i);
    ShiftRightBit(x, 32 - n, i);
  }

  /** Rotating left by n undoes rotating right by n. */
  lemma RotateLeftRight(x: Word, n: nat)
    requires 0 < n < 32
    ensures RotateLeft(RotateRight(x, n), n) == x
  {
    var r := RotateRight(x, n);
    var y := RotateLeft(r, n);
    forall i | 0 <= i < 32
      ensures Bit(y, i) == Bit(x, i)
    {
      RotateLeftBit(r, n, i);
      RotateRightBit(x, n, if n <= i then i - n else i + 32 - n);
    }
    Pow2Values();
    BitsEqual(y, x, 32);
  }

  /** Rotating right by n undoes rotating left by n. */
  lemma RotateRightLeft(x: Word, n: nat)
    requires 0 < n < 32
    ensures RotateRight(RotateLeft(x, n), n) == x
  {
    var l := RotateLeft(x, n);
    var y := RotateRight(l, n);
    forall i | 0 <= i < 32
      ensures Bit(y, i) == Bit(x, i)
    {
      RotateRightBit(l, n, i);
      RotateLeftBit(x, n, if i + n < 32 then i + n else i + n - 32);
    }
    Pow2Values();
    BitsEqual(y, x, 32);
  }

  /** Where x has a 1, choose takes y's bit, and where x has a 0, z's bit. */
  lemma ChooseSelects(x: Word, y: Word, z: Word, i: nat)
    requires i < 32
    ensures Bit(Choose(x, y, z), i) == if Bit(x, i) then Bit(y, i) else Bit(z, i)
  {
    XorBit(And(x, y), And(Not(x), z), i);
    AndBit(x, y, i);
    AndBit(Not(x), z, i);
    NotBit(x, i);
  }

  /** A bit of majority is set iff it is set in at least two of x, y and z. */
  lemma MajorityVotes(x: Word, y: Word, z: Word, i: nat)
    requires i < 32
    ensures Bit(Majority(x, y, z), i) == ((Bit(x, i) && Bit(y, i)) || (Bit(x, i) && Bit(z, i)) || (Bit(y, i) && Bit(z, i)))
  {
    XorBit(Xor(And(x, y), And(x, z)), And(y, z), i);
    XorBit(And(x, y), And(x, z), i);
    AndBit(x, y, i);
    AndBit(x, z, i);
    AndBit(y, z, i);
  }
}
