/** The CRC-32 of IEEE 802.3 (the checksum of section 8 of RFC 1952), computed
    as the source does: a 32-bit register, MSB first, on bit-reversed input
    bytes with the normal-form polynomial; the result is bit-reversed and
    complemented. */
module Crc32 {

  const POLYNOMIAL: bv32 := 0x04C1_1DB7
  /** The register starts with every bit set. */
  const INITIAL: bv32 := 0xFFFF_FFFF
  const TOP_BIT: bv32 := 0x8000_0000

  /** Bit reversal of a byte: bit i moves to bit 7 - i. */
  function Reverse8(b: bv8): bv8
  {
    var b1 := ((b >> 1) & 0x55) | ((b & 0x55) << 1);
    var b2 := ((b1 >> 2) & 0x33) | ((b1 & 0x33) << 2);
    (b2 >> 4) | (b2 << 4)
  }

  /** Bit reversal of a word: bit i moves to bit 31 - i. */
  function Reverse32(x: bv32): bv32
  {
    var x1 := ((x >> 1) & 0x5555_5555) | ((x & 0x5555_5555) << 1);
    var x2 := ((x1 >> 2) & 0x3333_3333) | ((x1 & 0x3333_3333) << 2);
    var x3 := ((x2 >> 4) & 0x0F0F_0F0F) | ((x2 & 0x0F0F_0F0F) << 4);
    var x4 := ((x3 >> 8) & 0x00FF_00FF) | ((x3 & 0x00FF_00FF) << 8);
    (x4 >> 16) | (x4 << 16)
  }

  /** One step of the inner loop: shift left, losing the top bit, and XOR
      in the polynomial exactly when that top bit was set. */
  function Shift(crc: bv32): bv32
  {
    if crc & TOP_BIT != 0 then (crc << 1) ^ POLYNOMIAL else crc << 1
  }

  /** `n` steps of the inner loop. */
  function Shifts(crc: bv32, n: nat): bv32
  {
    if n == 0 then crc else Shift(Shifts(crc, n - 1))
  }

  /** What one input byte does to the register: its reversal is XORed into
      the top 8 bits, then exactly 8 steps follow. */
  function Absorb(crc: bv32, b: bv8): bv32
  {
    Shifts(crc ^ ((Reverse8(b) as bv32) << 24), 8)
  }

  /** The register after absorbing `bytes`, left to right, from `crc`. */
  function Register(crc: bv32, bytes: seq<bv8>): bv32
    decreases |bytes|
  {
    if |bytes| == 0 then crc else Register(Absorb(crc, bytes[0]), bytes[1..])
  }

  /** The last step: the register is bit-reversed, then complemented. */
  function Finish(crc: bv32): bv32
  {
    !Reverse32(crc)
  }

  /** The checksum of `bytes`. */
  function Digest(bytes: seq<bv8>): bv32
  {
    Finish(Register(INITIAL, bytes))
  }

  /** The source's `digest`: a register updated in two nested loops. */
  method ComputeDigest(bytes: seq<bv8>) returns (r: bv32)
    ensures r == Digest(bytes)
  {
    var crc := INITIAL;
    for i := 0 to |bytes|
      invariant crc == Register(INITIAL, bytes[..i])
    {
      crc := crc ^ ((Reverse8(bytes[i]) as bv32) << 24);
      ghost var start := crc;
      for j := 0 to 8
        invariant crc == Shifts(start, j)
      {
        crc := ShiftOnce(crc);
      }
      RegisterAppend(INITIAL, bytes[..i], [bytes[i]]);
      assert bytes[..i + 1] == bytes[..i] + [bytes[i]];
    }
    assert bytes[..|bytes|] == bytes;
    r := !Reverse32(crc);
  }

  /** The body of the inner loop. */
  method ShiftOnce(crc: bv32) returns (r: bv32)
    ensures r == Shift(crc)
  {
    if crc & TOP_BIT != 0 {
      r := (crc << 1) ^ POLYNOMIAL;
    } else {
      r := crc << 1;
    }
  }

  /** The digest is a left fold: the register after a prefix is all that
      the rest of the computation needs to know about that prefix. */
  lemma {:induction false} RegisterAppend(crc: bv32, a: seq<bv8>, b: seq<bv8>)
    ensures Register(crc, a + b) == Register(Register(crc, a), b)
    decreases |a|
  {
    if |a| > 0 {
      assert (a + b)[0] == a[0];
      assert (a + b)[1..] == a[1..] + b;
      RegisterAppend(Absorb(crc, a[0]), a[1..], b);
    } else {
      assert a + b == b;
    }
  }

  /** Two inputs that leave the same register behind give the same digest
      whatever bytes follow them. */
  lemma PrefixRegisterDeterminesDigest(a1: seq<bv8>, a2: seq<bv8>, b: seq<bv8>)
    requires Register(INITIAL, a1) == Register(INITIAL, a2)
    ensures Digest(a1 + b) == Digest(a2 + b)
  {
    RegisterAppend(INITIAL, a1, b);
    RegisterAppend(INITIAL, a2, b);
    assert Register(INITIAL, a1 + b) == Register(INITIAL, a2 + b);
  }

  /** The empty input leaves the all-ones register, so its digest is 0. */
  lemma EmptyDigest()
    ensures Register(INITIAL, []) == 0xFFFF_FFFF
    ensures Digest([]) == 0
  {
  }

  // The reflected (LSB-first) form of the same CRC, as published with
  // polynomial 0xEDB88320, serves as an independent reference definition.

  const REFLECTED_POLYNOMIAL: bv32 := 0xEDB8_8320

  function ReflectedShift(crc: bv32): bv32
  {
    if crc & 1 != 0 then (crc >> 1) ^ REFLECTED_POLYNOMIAL else crc >> 1
  }

  function ReflectedShifts(crc: bv32, n: nat): bv32
  {
    if n == 0 then crc else ReflectedShift(ReflectedShifts(crc, n - 1))
  }

  function ReflectedAbsorb(crc: bv32, b: bv8): bv32
  {
    ReflectedShifts(crc ^ (b as bv32), 8)
  }

  function ReflectedRegister(crc: bv32, bytes: seq<bv8>): bv32
    decreases |bytes|
  {
    if |bytes| == 0 then crc else ReflectedRegister(ReflectedAbsorb(crc, bytes[0]), bytes[1..])
  }

  /** The textbook form's last step: XOR with all ones. */
  function ReflectedFinish(crc: bv32): bv32
  {
    crc ^ 0xFFFF_FFFF
  }

  /** The textbook CRC-32: all-ones start, LSB first, complemented result. */
  function StandardCrc32(bytes: seq<bv8>): bv32
  {
    ReflectedFinish(ReflectedRegister(INITIAL, bytes))
  }

  // Bit-level facts, each small enough for the solver to settle alone.

  lemma ShiftUnfolds(crc: bv32)
    ensures Shift(crc) == if crc & TOP_BIT != 0 then (crc << 1) ^ POLYNOMIAL else crc << 1
  {
  }

  lemma ReflectedShiftUnfolds(crc: bv32)
    ensures ReflectedShift(crc) == if crc & 1 != 0 then (crc >> 1) ^ REFLECTED_POLYNOMIAL else crc >> 1
  {
  }

  lemma ReverseIsLinear(x: bv32, y: bv32)
    ensures Reverse32(x ^ y) == Reverse32(x) ^ Reverse32(y)
  {
  }

  lemma ReverseFacts(x: bv32, b: bv8)
    ensures Reverse32(x << 1) == Reverse32(x) >> 1
    ensures Reverse32(POLYNOMIAL) == REFLECTED_POLYNOMIAL
    ensures (x & TOP_BIT != 0) == (Reverse32(x) & 1 != 0)
    ensures Reverse32(Reverse32(x)) == x
    ensures Reverse32((Reverse8(b) as bv32) << 24) == b as bv32
  {
  }

  lemma ReverseShiftBits(crc: bv32, shifted: bv32, reflected: bv32)
    requires shifted == if crc & TOP_BIT != 0 then (crc << 1) ^ POLYNOMIAL else crc << 1
    requires reflected == if Reverse32(crc) & 1 != 0 then (Reverse32(crc) >> 1) ^ REFLECTED_POLYNOMIAL else Reverse32(crc) >> 1
    ensures Reverse32(shifted) == reflected
  {
    ReverseFacts(crc, 0);
    ReverseIsLinear(crc << 1, POLYNOMIAL);
  }

  lemma ReverseShift(crc: bv32)
    ensures Reverse32(Shift(crc)) == ReflectedShift(Reverse32(crc))
  {
    ShiftUnfolds(crc);
    ReflectedShiftUnfolds(Reverse32(crc));
    ReverseShiftBits(crc, Shift(crc), ReflectedShift(Reverse32(crc)));
  }

  lemma {:induction false} ReverseShifts(crc: bv32, n: nat)
    ensures Reverse32(Shifts(crc, n)) == ReflectedShifts(Reverse32(crc), n)
  {
    if n > 0 {
      ReverseShifts(crc, n - 1);
      ReverseShift(Shifts(crc, n - 1));
    }
  }

  lemma ReverseInput(crc: bv32, b: bv8)
    ensures Reverse32(crc ^ ((Reverse8(b) as bv32) << 24)) == Reverse32(crc) ^ (b as bv32)
  {
    ReverseIsLinear(crc, (Reverse8(b) as bv32) << 24);
    ReverseFacts(crc, b);
  }

  lemma ReverseAbsorb(crc: bv32, b: bv8)
    ensures Reverse32(Absorb(crc, b)) == ReflectedAbsorb(Reverse32(crc), b)
  {
    ReverseInput(crc, b);
    ReverseShifts(crc ^ ((Reverse8(b) as bv32) << 24), 8);
  }

  lemma {:induction false} ReverseRegister(crc: bv32, bytes: seq<bv8>)
    ensures Reverse32(Register(crc, bytes)) == ReflectedRegister(Reverse32(crc), bytes)
    decreases |bytes|
  {
    if |bytes| > 0 {
      ReverseAbsorb(crc, bytes[0]);
      ReverseRegister(Absorb(crc, bytes[0]), bytes[1..]);
    }
  }

  lemma ComplementIsXorOnes(x: bv32, y: bv32)
    requires x == y
    ensures !x == y ^ 0xFFFF_FFFF
  {
  }

  lemma FinishReflected(crc: bv32, reflected: bv32)
    requires Reverse32(crc) == reflected
    ensures Finish(crc) == ReflectedFinish(reflected)
  {
    ComplementIsXorOnes(Reverse32(crc), reflected);
  }

  lemma ReverseInitial()
    ensures Reverse32(INITIAL) == INITIAL
  {
  }

  /** The MSB-first computation on reversed bytes is the standard CRC-32. */
  lemma DigestIsStandardCrc32(bytes: seq<bv8>)
    ensures Digest(bytes) == StandardCrc32(bytes)
  {
    ReverseRegister(INITIAL, bytes);
    ReverseInitial();
    FinishReflected(Register(INITIAL, bytes), ReflectedRegister(INITIAL, bytes));
  }

  /** The IEEE 802.3 check value: the digest of the ASCII text "123456789". */
  lemma CheckValue()
    ensures Digest([0x31, 0x32, 0x33, 0x34, 0x35, 0x36, 0x37, 0x38, 0x39]) == 0xCBF4_3926
  {
    var s: seq<bv8> := [0x31, 0x32, 0x33, 0x34, 0x35, 0x36, 0x37, 0x38, 0x39];
    // The register after each byte; each step is checked bit by bit.
    assert (0xFFFF_FFFF as bv32) ^ ((Reverse8(0x31) as bv32) << 24) == 0x73FF_FFFF;
    assert Absorb(0xFFFF_FFFF, 0x31) == 0x1208_C43E;
    assert (0x1208_C43E as bv32) ^ ((Reverse8(0x32) as bv32) << 24) == 0x5E08_C43E;
    assert Absorb(0x1208_C43E, 0x32) == 0x4CDD_350D;
    assert (0x4CDD_350D as bv32) ^ ((Reverse8(0x33) as bv32) << 24) == 0x80DD_350D;
    assert Absorb(0x4CDD_350D, 0x33) == 0xB439_EDEE;
    assert (0xB439_EDEE as bv32) ^ ((Reverse8(0x34) as bv32) << 24) == 0x9839_EDEE;
    assert Absorb(0xB439_EDEE, 0x34) == 0x3AF8_3826;
    assert (0x3AF8_3826 as bv32) ^ ((Reverse8(0x35) as bv32) << 24) == 0x96F8_3826;
    assert Absorb(0x3AF8_3826, 0x35) == 0xC7A3_502C;
    assert (0xC7A3_502C as bv32) ^ ((Reverse8(0x36) as bv32) << 24) == 0xABA3_502C;
    assert Absorb(0xC7A3_502C, 0x36) == 0x7934_B16F;
    assert (0x7934_B16F as bv32) ^ ((Reverse8(0x37) as bv32) << 24) == 0x9534_B16F;
    assert Absorb(0x7934_B16F, 0x37) == 0x0669_3FF5;
    assert (0x0669_3FF5 as bv32) ^ ((Reverse8(0x38) as bv32) << 24) == 0x1A69_3FF5;
    assert Absorb(0x0669_3FF5, 0x38) == 0x0AA4_F8A6;
    assert (0x0AA4_F8A6 as bv32) ^ ((Reverse8(0x39) as bv32) << 24) == 0x96A4_F8A6;
    assert Absorb(0x0AA4_F8A6, 0x39) == 0x9B63_D02C;
    assert Register(INITIAL, s) == 0x9B63_D02C;
  }

  // The register update is linear over XOR: two inputs of one length that
  // differ in a single bit leave registers that differ by a fixed non-zero
  // word, so the digest tells them apart.

  function Xor(a: bv32, b: bv32): bv32
  {
    a ^ b
  }

  function Xor8(a: bv8, b: bv8): bv8
  {
    a ^ b
  }

  /** The bytes of `a` and `b`, XORed position by position. */
  function XorBytes(a: seq<bv8>, b: seq<bv8>): (r: seq<bv8>)
    requires |a| == |b|
    ensures |r| == |a|
    ensures forall i | 0 <= i < |a| :: r[i] == Xor8(a[i], b[i])
  {
    seq(|a|, i requires 0 <= i < |a| => Xor8(a[i], b[i]))
  }

  lemma TopXor(x: bv32, y: bv32)
    ensures ((x ^ y) & TOP_BIT != 0) == ((x & TOP_BIT != 0) != (y & TOP_BIT != 0))
  {
  }

  lemma PlainShiftXor(x: bv32, y: bv32)
    ensures (x ^ y) << 1 == (x << 1) ^ (y << 1)
  {
  }

  lemma FedShiftXor(x: bv32, y: bv32)
    ensures (x ^ y) << 1 == ((x << 1) ^ POLYNOMIAL) ^ ((y << 1) ^ POLYNOMIAL)
  {
  }

  lemma LeftFedShiftXor(x: bv32, y: bv32)
    ensures ((x ^ y) << 1) ^ POLYNOMIAL == ((x << 1) ^ POLYNOMIAL) ^ (y << 1)
  {
  }

  lemma RightFedShiftXor(x: bv32, y: bv32)
    ensures ((x ^ y) << 1) ^ POLYNOMIAL == (x << 1) ^ ((y << 1) ^ POLYNOMIAL)
  {
  }

  /** One step of the inner loop is linear over XOR. */
  lemma ShiftXor(x: bv32, y: bv32)
    ensures Shift(Xor(x, y)) == Xor(Shift(x), Shift(y))
  {
    if x & TOP_BIT != 0 {
      if y & TOP_BIT != 0 { BothFed(x, y); } else { LeftFed(x, y); }
    } else {
      if y & TOP_BIT != 0 { RightFed(x, y); } else { NoneFed(x, y); }
    }
  }

  lemma BothFed(x: bv32, y: bv32)
    requires x & TOP_BIT != 0 && y & TOP_BIT != 0
    ensures Shift(Xor(x, y)) == Xor(Shift(x), Shift(y))
  {
    TopXor(x, y);
    assert Shift(x ^ y) == (x ^ y) << 1;
    FedShiftXor(x, y);
  }

  lemma LeftFed(x: bv32, y: bv32)
    requires x & TOP_BIT != 0 && y & TOP_BIT == 0
    ensures Shift(Xor(x, y)) == Xor(Shift(x), Shift(y))
  {
    TopXor(x, y);
    assert Shift(x ^ y) == ((x ^ y) << 1) ^ POLYNOMIAL;
    LeftFedShiftXor(x, y);
  }

  lemma RightFed(x: bv32, y: bv32)
    requires x & TOP_BIT == 0 && y & TOP_BIT != 0
    ensures Shift(Xor(x, y)) == Xor(Shift(x), Shift(y))
  {
    TopXor(x, y);
    assert Shift(x ^ y) == ((x ^ y) << 1) ^ POLYNOMIAL;
    RightFedShiftXor(x, y);
  }

  lemma NoneFed(x: bv32, y: bv32)
    requires x & TOP_BIT == 0 && y & TOP_BIT == 0
    ensures Shift(Xor(x, y)) == Xor(Shift(x), Shift(y))
  {
    TopXor(x, y);
    assert Shift(x ^ y) == (x ^ y) << 1;
    PlainShiftXor(x, y);
  }

  /** The eight steps that follow each byte are linear over XOR. */
  lemma {:induction false} ShiftsXor(x: bv32, y: bv32, n: nat)
    ensures Shifts(Xor(x, y), n) == Xor(Shifts(x, n), Shifts(y, n))
  {
    if n > 0 {
      ShiftsXor(x, y, n - 1);
      ShiftXor(Shifts(x, n - 1), Shifts(y, n - 1));
    }
  }

  /** The register with the byte XORed into its top 8 bits. */
  function Input(crc: bv32, b: bv8): bv32
  {
    crc ^ ((Reverse8(b) as bv32) << 24)
  }

  lemma InputXor(c1: bv32, c2: bv32, b1: bv8, b2: bv8, w: bv32, u: bv8)
    requires w == Xor(c1, c2) && u == Xor8(b1, b2)
    ensures Xor(Input(c1, b1), Input(c2, b2)) == Input(w, u)
  {
    InputBits(c1, c2, b1, b2, w, u, Input(c1, b1), Input(c2, b2), Input(w, u));
  }

  lemma InputBits(c1: bv32, c2: bv32, b1: bv8, b2: bv8, w: bv32, u: bv8, i1: bv32, i2: bv32, iw: bv32)
    requires w == c1 ^ c2 && u == b1 ^ b2
    requires i1 == c1 ^ ((Reverse8(b1) as bv32) << 24) && i2 == c2 ^ ((Reverse8(b2) as bv32) << 24)
    requires iw == w ^ ((Reverse8(u) as bv32) << 24)
    ensures Xor(i1, i2) == iw
  {
    assert i1 ^ i2 == iw;
  }

  lemma AbsorbIsInputThenShifts(crc: bv32, b: bv8)
    ensures Absorb(crc, b) == Shifts(Input(crc, b), 8)
  {
  }

  /** Absorbing a byte is linear in the register and the byte together. */
  lemma AbsorbXor(c1: bv32, c2: bv32, b1: bv8, b2: bv8)
    ensures Xor(Absorb(c1, b1), Absorb(c2, b2)) == Absorb(Xor(c1, c2), Xor8(b1, b2))
  {
    AbsorbIsInputThenShifts(c1, b1);
    AbsorbIsInputThenShifts(c2, b2);
    AbsorbIsInputThenShifts(Xor(c1, c2), Xor8(b1, b2));
    InputXor(c1, c2, b1, b2, Xor(c1, c2), Xor8(b1, b2));
    ShiftsXor(Input(c1, b1), Input(c2, b2), 8);
  }

  /** The registers of two inputs of one length differ by the register of
      their difference, started from the difference of the start values. */
  lemma {:induction false} RegisterXor(c1: bv32, c2: bv32, a: seq<bv8>, b: seq<bv8>)
    requires |a| == |b|
    ensures Xor(Register(c1, a), Register(c2, b)) == Register(Xor(c1, c2), XorBytes(a, b))
    decreases |a|
  {
    if |a| > 0 {
      AbsorbXor(c1, c2, a[0], b[0]);
      assert XorBytes(a, b)[1..] == XorBytes(a[1..], b[1..]);
      RegisterXor(Absorb(c1, a[0]), Absorb(c2, b[0]), a[1..], b[1..]);
    } else {
      assert XorBytes(a, b) == [];
    }
  }

  lemma XorSelf(c: bv32)
    ensures Xor(c, c) == 0
  {
  }

  lemma XorFlagBit(b: bv8)
    ensures Xor8(b, b ^ 0x08) == 0x08
    ensures Xor8(0, 0) == 0
  {
  }

  /** The register that a lone flag bit, three bytes from the end, leaves
      behind when started from zero; each step is checked bit by bit. */
  lemma FlagBitRegister()
    ensures Register(0, [0x08, 0, 0, 0]) == 0xF714_2DA3
  {
    assert (0 as bv32) ^ ((Reverse8(0x08) as bv32) << 24) == 0x1000_0000;
    assert Absorb(0, 0x08) == 0x4C11_DB70;
    assert (0x4C11_DB70 as bv32) ^ ((Reverse8(0) as bv32) << 24) == 0x4C11_DB70;
    assert Absorb(0x4C11_DB70, 0) == 0x1051_9B13;
    assert (0x1051_9B13 as bv32) ^ ((Reverse8(0) as bv32) << 24) == 0x1051_9B13;
    assert Absorb(0x1051_9B13, 0) == 0x1D8A_C870;
    assert (0x1D8A_C870 as bv32) ^ ((Reverse8(0) as bv32) << 24) == 0x1D8A_C870;
    assert Absorb(0x1D8A_C870, 0) == 0xF714_2DA3;
  }

  /** Different registers give different digests. */
  lemma FinishSeparates(r1: bv32, r2: bv32)
    requires Xor(r1, r2) != 0
    ensures Finish(r1) != Finish(r2)
  {
    XorSelf(r1);
    ReverseFacts(r1, 0);
    ReverseFacts(r2, 0);
  }

  /** Two inputs that differ only in bit 3 of the fourth byte from the end,
      with the last three bytes zero, have different digests. */
  lemma FlagBitChangesDigest(front: seq<bv8>, b: bv8)
    ensures Digest(front + [b, 0, 0, 0]) != Digest(front + [b ^ 0x08, 0, 0, 0])
  {
    var c := Register(INITIAL, front);
    var t1: seq<bv8> := [b, 0, 0, 0];
    var t2: seq<bv8> := [b ^ 0x08, 0, 0, 0];
    RegisterAppend(INITIAL, front, t1);
    RegisterAppend(INITIAL, front, t2);
    RegisterXor(c, c, t1, t2);
    XorSelf(c);
    XorFlagBit(b);
    assert XorBytes(t1, t2) == [0x08, 0, 0, 0];
    FlagBitRegister();
    FinishSeparates(Register(c, t1), Register(c, t2));
  }
}
