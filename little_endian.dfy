/** Unsigned machine integers as bounded naturals, and their little-endian
    byte images. */
module LittleEndian {

  type u8 = x: int | 0 <= x < 0x100
  type u16 = x: int | 0 <= x < 0x1_0000
  type u32 = x: int | 0 <= x < 0x1_0000_0000
  type u64 = x: int | 0 <= x < 0x1_0000_0000_0000_0000

  /** 256 to the power `n`: one more than the largest `n`-byte value. */
  function Pow256(n: nat): (p: nat)
    ensures p > 0
  {
    if n == 0 then 1 else 256 * Pow256(n - 1)
  }

  /** The `n` least significant bytes of `x`, lowest first. */
  function ToLe(x: nat, n: nat): (r: seq<u8>)
    ensures |r| == n
  {
    if n == 0 then [] else [x % 256] + ToLe(x / 256, n - 1)
  }

  /** The number whose little-endian image is `b`. */
  function FromLe(b: seq<u8>): (x: nat)
    ensures x < Pow256(|b|)
  {
    if |b| == 0 then 0 else b[0] + 256 * FromLe(b[1..])
  }

  /** Encoding a value that fits in `n` bytes and decoding it gives it back. */
  lemma {:induction false} ToLeRoundTrip(x: nat, n: nat)
    requires x < Pow256(n)
    ensures FromLe(ToLe(x, n)) == x
  {
    if n > 0 {
      ToLeRoundTrip(x / 256, n - 1);
      assert ToLe(x, n)[1..] == ToLe(x / 256, n - 1);
    }
  }

  /** Decoding bytes and encoding the value in as many bytes gives them back. */
  lemma {:induction false} FromLeRoundTrip(b: seq<u8>)
    ensures ToLe(FromLe(b), |b|) == b
  {
    if |b| > 0 {
      FromLeRoundTrip(b[1..]);
      var x := FromLe(b);
      assert x % 256 == b[0] && x / 256 == FromLe(b[1..]);
    }
  }

  lemma Widths()
    ensures Pow256(2) == 0x1_0000
    ensures Pow256(4) == 0x1_0000_0000
    ensures Pow256(8) == 0x1_0000_0000_0000_0000
  {
    assert Pow256(4) == 0x1_0000 * Pow256(2);
    assert Pow256(8) == 0x1_0000 * Pow256(6);
  }

  function Le16(x: u16): (r: seq<u8>)
    ensures |r| == 2
  {
    ToLe(x, 2)
  }

  function Le32(x: u32): (r: seq<u8>)
    ensures |r| == 4
  {
    ToLe(x, 4)
  }

  function Le64(x: u64): (r: seq<u8>)
    ensures |r| == 8
  {
    ToLe(x, 8)
  }

  function FromLe16(b: seq<u8>): u16
    requires |b| == 2
  {
    Widths();
    FromLe(b)
  }

  function FromLe32(b: seq<u8>): u32
    requires |b| == 4
  {
    Widths();
    FromLe(b)
  }

  function FromLe64(b: seq<u8>): u64
    requires |b| == 8
  {
    Widths();
    FromLe(b)
  }

  /** The fixed-width codecs are inverse to each other. */
  lemma Le16RoundTrip(x: u16, b: seq<u8>)
    ensures FromLe16(Le16(x)) == x
    ensures |b| == 2 ==> Le16(FromLe16(b)) == b
  {
    Widths();
    ToLeRoundTrip(x, 2);
    FromLeRoundTrip(b);
  }

  lemma Le32RoundTrip(x: u32, b: seq<u8>)
    ensures FromLe32(Le32(x)) == x
    ensures |b| == 4 ==> Le32(FromLe32(b)) == b
  {
    Widths();
    ToLeRoundTrip(x, 4);
    FromLeRoundTrip(b);
  }

  lemma Le64RoundTrip(x: u64, b: seq<u8>)
    ensures FromLe64(Le64(x)) == x
    ensures |b| == 8 ==> Le64(FromLe64(b)) == b
  {
    Widths();
    ToLeRoundTrip(x, 8);
    FromLeRoundTrip(b);
  }
}
