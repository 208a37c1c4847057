/** Bitwise operations on unsigned integers, defined one bit at a time
    from the lowest, as the record's `flags` word uses them. */
module Bits {

  /** Bit `k` of `x` (0 is the lowest). */
  function Bit(x: nat, k: nat): nat
  {
    if k == 0 then x % 2 else Bit(x / 2, k - 1)
  }

  /** `a & b` */
  function BitAnd(a: nat, b: nat): nat
    decreases a
  {
    if a == 0 || b == 0 then 0
    else 2 * BitAnd(a / 2, b / 2) + (if a % 2 == 1 && b % 2 == 1 then 1 else 0)
  }

  /** `a | b` */
  function BitOr(a: nat, b: nat): nat
    decreases a + b
  {
    if a == 0 then b
    else if b == 0 then a
    else 2 * BitOr(a / 2, b / 2) + (if a % 2 == 1 || b % 2 == 1 then 1 else 0)
  }

  function Pow2(k: nat): nat
  {
    if k == 0 then 1 else 2 * Pow2(k - 1)
  }

  lemma {:induction false} ZeroHasNoBits(k: nat)
    ensures Bit(0, k) == 0
  {
    if k > 0 {
      ZeroHasNoBits(k - 1);
    }
  }

  lemma ByteOfPowers(k: nat)
    ensures Pow2(k + 8) == 256 * Pow2(k)
  {
    assert Pow2(k + 8) == 2 * Pow2(k + 7) == 4 * Pow2(k + 6) == 8 * Pow2(k + 5) == 16 * Pow2(k + 4);
    assert Pow2(k + 4) == 2 * Pow2(k + 3) == 4 * Pow2(k + 2) == 8 * Pow2(k + 1) == 16 * Pow2(k);
  }

  lemma Pow2ThirtyTwo()
    ensures Pow2(32) == 0x1_0000_0000
  {
    ByteOfPowers(0);
    ByteOfPowers(8);
    ByteOfPowers(16);
    ByteOfPowers(24);
  }

  /** Every bit is 0 or 1. */
  lemma {:induction false} BitIsZeroOrOne(x: nat, k: nat)
    ensures Bit(x, k) == 0 || Bit(x, k) == 1
  {
    if k > 0 {
      BitIsZeroOrOne(x / 2, k - 1);
    }
  }

  /** Each bit of `a & b` is set exactly when it is set in both. */
  lemma {:induction false} BitOfAnd(a: nat, b: nat, k: nat)
    ensures Bit(BitAnd(a, b), k) == (if Bit(a, k) == 1 && Bit(b, k) == 1 then 1 else 0)
    decreases k
  {
    if k > 0 {
      if a == 0 || b == 0 {
        ZeroHasNoBits(k);
        ZeroHasNoBits(k - 1);
      } else {
        assert BitAnd(a, b) / 2 == BitAnd(a / 2, b / 2);
        BitOfAnd(a / 2, b / 2, k - 1);
      }
    }
  }

  /** Each bit of `a | b` is set exactly when it is set in either. */
  lemma {:induction false} BitOfOr(a: nat, b: nat, k: nat)
    ensures Bit(BitOr(a, b), k) == (if Bit(a, k) == 1 || Bit(b, k) == 1 then 1 else 0)
    decreases k
  {
    if k > 0 {
      if a == 0 {
        ZeroHasNoBits(k);
        BitIsZeroOrOne(b, k);
      } else if b == 0 {
        ZeroHasNoBits(k);
        BitIsZeroOrOne(a, k);
      } else {
        assert BitOr(a, b) / 2 == BitOr(a / 2, b / 2);
        BitOfOr(a / 2, b / 2, k - 1);
      }
    } else {
      ZeroHasNoBits(0);
    }
  }

  /** The OR of two `k`-bit values is a `k`-bit value. */
  lemma {:induction false} OrStaysInWidth(a: nat, b: nat, k: nat)
    requires a < Pow2(k) && b < Pow2(k)
    ensures BitOr(a, b) < Pow2(k)
    decreases k
  {
    if a != 0 && b != 0 {
      OrStaysInWidth(a / 2, b / 2, k - 1);
    }
  }

  /** Masking with 3 keeps the two lowest bits: the remainder mod 4. */
  lemma AndThreeIsModFour(a: nat)
    ensures BitAnd(a, 3) == a % 4
  {
    if a != 0 && a / 2 != 0 {
      assert BitAnd(a / 4, 0) == 0;
      assert BitAnd(a / 2, 1) == (a / 2) % 2;
    }
  }

  /** OR-ing in 8 leaves the two lowest bits alone. */
  lemma OrEightKeepsModFour(a: nat)
    ensures BitOr(a, 8) % 4 == a % 4
  {
    OrEvenKeepsLowBit(a, 8);
    OrEvenKeepsLowBit(a / 2, 4);
    ModFourByBits(a);
    ModFourByBits(BitOr(a, 8));
  }

  /** OR-ing in an even number keeps bit 0, and the remaining bits are the
      OR of the halves. */
  lemma OrEvenKeepsLowBit(a: nat, b: nat)
    requires b % 2 == 0
    ensures BitOr(a, b) % 2 == a % 2
    ensures BitOr(a, b) / 2 == BitOr(a / 2, b / 2)
  {
    if a != 0 && b != 0 {
      var c := if a % 2 == 1 then 1 else 0;
      assert c == a % 2;
      assert BitOr(a, b) == 2 * BitOr(a / 2, b / 2) + c;
    }
  }

  lemma ModFourByBits(a: nat)
    ensures a % 4 == 2 * ((a / 2) % 2) + a % 2
  {
  }
}

/** The `flags` word of a metadata record: bits 0-1 hold the kind of the
    archived object, bit 3 tells a header record from a footer record. */
module Flags {
  import opened Bits

  /** The object is a regular file. */
  const FILE: nat := 0x0
  /** The object is a directory. */
  const DIR: nat := 0x1
  /** The object is a soft link (representable, never produced by the writer). */
  const SOFT_LINK: nat := 0x2
  /** The object is a hard link (representable, never produced by the writer). */
  const HARD_LINK: nat := 0x3

  /** Set in a header record, clear in a footer record. */
  const HEADER: nat := 0x8
  /** The bit `HEADER` occupies. */
  const HEADER_BIT: nat := 3

  /** The two kind bits, as the record's `kind` reads them. */
  const KIND_MASK: nat := 0x3

  /** The four kinds are pairwise distinct, each is its own kind bits, and
      together they are every value the kind bits of a word can hold. */
  lemma KindsAreTheKindBits(f: nat)
    ensures FILE != DIR && FILE != SOFT_LINK && FILE != HARD_LINK
    ensures DIR != SOFT_LINK && DIR != HARD_LINK && SOFT_LINK != HARD_LINK
    ensures BitAnd(FILE, KIND_MASK) == FILE && BitAnd(DIR, KIND_MASK) == DIR
    ensures BitAnd(SOFT_LINK, KIND_MASK) == SOFT_LINK && BitAnd(HARD_LINK, KIND_MASK) == HARD_LINK
    ensures BitAnd(f, KIND_MASK) in {FILE, DIR, SOFT_LINK, HARD_LINK}
  {
    AndThreeIsModFour(f);
    AndThreeIsModFour(DIR);
    AndThreeIsModFour(SOFT_LINK);
    AndThreeIsModFour(HARD_LINK);
  }

  /** `HEADER` is exactly bit 3 and lies outside the kind mask. */
  lemma HeaderIsBitThree(k: nat)
    ensures HEADER == Pow2(HEADER_BIT)
    ensures Bit(HEADER, k) == (if k == HEADER_BIT then 1 else 0)
    ensures BitAnd(HEADER, KIND_MASK) == 0
  {
    AndThreeIsModFour(HEADER);
    if k > HEADER_BIT {
      assert Bit(HEADER, k) == Bit(4, k - 1) == Bit(2, k - 2) == Bit(1, k - 3) == Bit(0, k - 4);
      ZeroHasNoBits(k - 4);
    }
  }

  /** Setting the header bit keeps the kind bits, sets bit 3, and changes
      no other bit: header and footer flags differ in bit 3 alone. */
  lemma HeaderBitKeepsKind(f: nat, k: nat)
    ensures BitAnd(BitOr(f, HEADER), KIND_MASK) == BitAnd(f, KIND_MASK)
    ensures Bit(BitOr(f, HEADER), HEADER_BIT) == 1
    ensures k != HEADER_BIT ==> Bit(BitOr(f, HEADER), k) == Bit(f, k)
  {
    OrEightKeepsModFour(f);
    AndThreeIsModFour(f);
    AndThreeIsModFour(BitOr(f, HEADER));
    HeaderIsBitThree(k);
    HeaderIsBitThree(HEADER_BIT);
    BitOfOr(f, HEADER, k);
    BitOfOr(f, HEADER, HEADER_BIT);
    BitIsZeroOrOne(f, k);
  }

  /** Setting the header bit in a u32 word gives a u32 word. */
  lemma SetHeaderFits(f: nat)
    requires f < 0x1_0000_0000
    ensures BitOr(f, HEADER) < 0x1_0000_0000
  {
    Pow2ThirtyTwo();
    assert HEADER < Pow2(32);
    OrStaysInWidth(f, HEADER, 32);
  }
}
