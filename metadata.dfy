/** The fixed 40-byte metadata record written before (header) and after
    (footer) every archived object, its byte image and its checksum. */
module Record {
  import Flags
  import opened Bits
  import Crc32
  import opened LittleEndian

  /** Written into every record; a record without it is rejected. */
  const MAGIC: u32 := 0x2f96_8b6a
  /** Bytes before the `checksum` field: the bytes the checksum covers. */
  const PREFIX_SIZE: nat := 32
  /** The whole record: 36 bytes of fields padded to a multiple of 8. */
  const SIZE: nat := 40
  /** The alignment padding after the checksum, zero in this model. */
  const PADDING: seq<u8> := [0, 0, 0, 0]

  /** The four labels `kind` returns. */
  datatype KindLabel = RegularFile | Directory | SoftLink | HardLink
  {
    /** The label as `kind` spells it. */
    function Text(): string
    {
      match this
      case RegularFile => "File"
      case Directory => "Directory"
      case SoftLink => "Soft Link"
      case HardLink => "Hard Link"
    }
  }

  datatype Metadata = Metadata(
    modifiedAt: u64,
    fileSize: u64,
    pathLen: u16,
    perms: u16,
    owner: u16,
    group: u16,
    magic: u32,
    flags: u32,
    checksum: u32)
  {
    /** `check`: the record is accepted exactly when it carries `MAGIC`. */
    predicate Check()
    {
      magic == MAGIC
    }

    /** `kind`: the label of the kind bits; every value of them has one. */
    function Kind(): (k: KindLabel)
      ensures k == RegularFile <==> BitAnd(flags, Flags.KIND_MASK) == Flags.FILE
      ensures k == Directory <==> BitAnd(flags, Flags.KIND_MASK) == Flags.DIR
      ensures k == SoftLink <==> BitAnd(flags, Flags.KIND_MASK) == Flags.SOFT_LINK
      ensures k == HardLink <==> BitAnd(flags, Flags.KIND_MASK) == Flags.HARD_LINK
    {
      var kind := BitAnd(flags, Flags.KIND_MASK);
      if kind == Flags.FILE then RegularFile
      else if kind == Flags.DIR then Directory
      else if kind == Flags.SOFT_LINK then SoftLink
      else if kind == Flags.HARD_LINK then HardLink
      else
        Flags.KindsAreTheKindBits(flags);
        assert false; RegularFile
    }

    /** The record after `flags |= HEADER`: a header made from a shared
        record keeps its kind and every other field. */
    function WithHeaderBit(): (r: Metadata)
      ensures r.(flags := flags) == this
      ensures r.Kind() == Kind()
      ensures Bit(r.flags, Flags.HEADER_BIT) == 1
    {
      Flags.SetHeaderFits(flags);
      Flags.HeaderBitKeepsKind(flags, 0);
      this.(flags := BitOr(flags, Flags.HEADER))
    }

    /** `as_bytes_without_checksum`: every field before `checksum`. */
    function PrefixBytes(): (r: seq<u8>)
      ensures |r| == PREFIX_SIZE
    {
      Le64(modifiedAt) + Le64(fileSize) + Le16(pathLen) + Le16(perms) + Le16(owner) + Le16(group)
      + Le32(magic) + Le32(flags)
    }

    /** The record's byte image: the prefix, the checksum, the padding. */
    function Layout(): (r: seq<u8>)
      ensures |r| == SIZE
    {
      PrefixBytes() + Le32(checksum) + PADDING
    }

    /** `compute_checksum`: the digest of the prefix, as a number;
        `ChecksumIsStandardCrc32` states that it is the standard CRC-32. */
    function ComputeChecksum(): u32
    {
      var d := Crc32.Digest(ToBits(PrefixBytes()));
      DigestAsNumber(ToBits(PrefixBytes()), d);
      d as int
    }

    /** What `assert_checksum_valid` insists on. */
    predicate ChecksumValid()
    {
      checksum == ComputeChecksum()
    }

    /** The record as `set_checksum` leaves it: the checksum is valid and
        every other field is as it was. */
    function WithChecksum(): (r: Metadata)
      ensures r.ChecksumValid()
      ensures r.(checksum := checksum) == this
    {
      var r := this.(checksum := ComputeChecksum());
      PrefixIgnoresChecksum(this, r.checksum);
      r
    }

    /** `set_checksum`: computes the digest of the prefix with the loop of
        `Crc32.ComputeDigest`, stores it, and re-checks it. */
    method SetChecksum() returns (r: Metadata)
      ensures r == WithChecksum()
    {
      var c := Crc32.ComputeDigest(ToBits(PrefixBytes()));
      r := this.(checksum := c as int);
      PrefixIgnoresChecksum(this, c as int);
      assert r.ChecksumValid();
    }

    /** `as_bytes`: the byte image, available only with a valid checksum;
        decoding it gives the record back. */
    function AsBytes(): (r: seq<u8>)
      requires ChecksumValid()
      ensures |r| == SIZE
    {
      Layout()
    }
  }

  /** The same bytes as the 8-bit words the CRC engine consumes. */
  function ToBits(bytes: seq<u8>): (r: seq<bv8>)
    ensures |r| == |bytes|
  {
    seq(|bytes|, i requires 0 <= i < |bytes| => bytes[i] as bv8)
  }

  /** Reading a record out of 40 raw bytes, field by field in little-endian
      order; the padding bytes are ignored. */
  function Decode(bytes: seq<u8>): Metadata
    requires |bytes| == SIZE
  {
    Metadata(
      FromLe64(bytes[0..8]), FromLe64(bytes[8..16]),
      FromLe16(bytes[16..18]), FromLe16(bytes[18..20]), FromLe16(bytes[20..22]), FromLe16(bytes[22..24]),
      FromLe32(bytes[24..28]), FromLe32(bytes[28..32]), FromLe32(bytes[32..36]))
  }

  /** Forty bytes whose padding is zero are the byte image of the record
      they decode to. */
  lemma DecodeRoundTrip(bytes: seq<u8>)
    requires |bytes| == SIZE
    ensures bytes[PREFIX_SIZE + 4..] == PADDING ==> Decode(bytes).Layout() == bytes
  {
    DecodedLayout(bytes, Decode(bytes));
  }

  /** Where each field sits in the byte image. */
  lemma LayoutSlices(m: Metadata)
    ensures m.Layout()[0..8] == Le64(m.modifiedAt)
    ensures m.Layout()[8..16] == Le64(m.fileSize)
    ensures m.Layout()[16..18] == Le16(m.pathLen)
    ensures m.Layout()[18..20] == Le16(m.perms)
    ensures m.Layout()[20..22] == Le16(m.owner)
    ensures m.Layout()[22..24] == Le16(m.group)
    ensures m.Layout()[24..28] == Le32(m.magic)
    ensures m.Layout()[28..32] == Le32(m.flags)
    ensures m.Layout()[32..36] == Le32(m.checksum)
    ensures m.Layout()[36..] == PADDING
    ensures m.Layout()[..PREFIX_SIZE] == m.PrefixBytes()
  {
    TimeAndSizeSlices(m);
    PathLenAndPermsSlices(m);
    OwnershipSlices(m);
    MagicAndFlagsSlices(m);
    ChecksumAndPaddingSlices(m);
  }

  lemma TimeAndSizeSlices(m: Metadata)
    ensures m.Layout()[0..8] == Le64(m.modifiedAt)
    ensures m.Layout()[8..16] == Le64(m.fileSize)
  {
  }

  lemma PathLenAndPermsSlices(m: Metadata)
    ensures m.Layout()[16..18] == Le16(m.pathLen)
    ensures m.Layout()[18..20] == Le16(m.perms)
  {
  }

  lemma OwnershipSlices(m: Metadata)
    ensures m.Layout()[20..22] == Le16(m.owner)
    ensures m.Layout()[22..24] == Le16(m.group)
  {
  }

  lemma MagicAndFlagsSlices(m: Metadata)
    ensures m.Layout()[24..28] == Le32(m.magic)
    ensures m.Layout()[28..32] == Le32(m.flags)
  {
  }

  lemma ChecksumAndPaddingSlices(m: Metadata)
    ensures m.Layout()[32..36] == Le32(m.checksum)
    ensures m.Layout()[36..] == PADDING
    ensures m.Layout()[..PREFIX_SIZE] == m.PrefixBytes()
  {
  }

  /** Two 40-byte images that agree field by field are equal. */
  lemma EqualByFields(a: seq<u8>, b: seq<u8>)
    requires |a| == SIZE && |b| == SIZE
    requires a[0..8] == b[0..8] && a[8..16] == b[8..16]
    requires a[16..18] == b[16..18] && a[18..20] == b[18..20] && a[20..22] == b[20..22] && a[22..24] == b[22..24]
    requires a[24..28] == b[24..28] && a[28..32] == b[28..32] && a[32..36] == b[32..36] && a[36..] == b[36..]
    ensures a == b
  {
    forall i | 0 <= i < SIZE
      ensures a[i] == b[i]
    {
      if i < 8 {
        assert a[i] == a[0..8][i];
      } else if i < 16 {
        assert a[i] == a[8..16][i - 8];
      } else if i < 18 {
        assert a[i] == a[16..18][i - 16];
      } else if i < 20 {
        assert a[i] == a[18..20][i - 18];
      } else if i < 22 {
        assert a[i] == a[20..22][i - 20];
      } else if i < 24 {
        assert a[i] == a[22..24][i - 22];
      } else if i < 28 {
        assert a[i] == a[24..28][i - 24];
      } else if i < 32 {
        assert a[i] == a[28..32][i - 28];
      } else if i < 36 {
        assert a[i] == a[32..36][i - 32];
      } else {
        assert a[i] == a[36..][i - 36];
      }
    }
  }

  lemma DecodedLayout(bytes: seq<u8>, m: Metadata)
    requires |bytes| == SIZE
    requires m == Metadata(
      FromLe64(bytes[0..8]), FromLe64(bytes[8..16]),
      FromLe16(bytes[16..18]), FromLe16(bytes[18..20]), FromLe16(bytes[20..22]), FromLe16(bytes[22..24]),
      FromLe32(bytes[24..28]), FromLe32(bytes[28..32]), FromLe32(bytes[32..36]))
    ensures bytes[PREFIX_SIZE + 4..] == PADDING ==> m.Layout() == bytes
  {
    if bytes[PREFIX_SIZE + 4..] == PADDING {
      LayoutSlices(m);
      Le64RoundTrip(m.modifiedAt, bytes[0..8]);
      Le64RoundTrip(m.fileSize, bytes[8..16]);
      Le16RoundTrip(m.pathLen, bytes[16..18]);
      Le16RoundTrip(m.perms, bytes[18..20]);
      Le16RoundTrip(m.owner, bytes[20..22]);
      Le16RoundTrip(m.group, bytes[22..24]);
      Le32RoundTrip(m.magic, bytes[24..28]);
      Le32RoundTrip(m.flags, bytes[28..32]);
      Le32RoundTrip(m.checksum, bytes[32..36]);
      EqualByFields(m.Layout(), bytes);
    }
  }

  /** Decoding the byte image of a record gives the record back. */
  lemma LayoutRoundTrip(m: Metadata)
    ensures Decode(m.Layout()) == m
  {
    LayoutSlices(m);
    Le64RoundTrip(m.modifiedAt, []);
    Le64RoundTrip(m.fileSize, []);
    Le16RoundTrip(m.pathLen, []);
    Le16RoundTrip(m.perms, []);
    Le16RoundTrip(m.owner, []);
    Le16RoundTrip(m.group, []);
    Le32RoundTrip(m.magic, []);
    Le32RoundTrip(m.flags, []);
    Le32RoundTrip(m.checksum, []);
  }

  /** The prefix, and so the checksum computed over it, does not depend on
      the `checksum` field. */
  lemma PrefixIgnoresChecksum(m: Metadata, c: u32)
    ensures m.(checksum := c).PrefixBytes() == m.PrefixBytes()
    ensures m.(checksum := c).ComputeChecksum() == m.ComputeChecksum()
  {
  }

  /** Two records have the same prefix exactly when they agree on every
      field but the checksum. */
  lemma PrefixDeterminesPayload(m1: Metadata, m2: Metadata)
    ensures m1.PrefixBytes() == m2.PrefixBytes() <==> m1.(checksum := 0) == m2.(checksum := 0)
  {
    if m1.PrefixBytes() == m2.PrefixBytes() {
      var p := m1.(checksum := 0);
      var q := m2.(checksum := 0);
      PrefixIgnoresChecksum(m1, 0);
      PrefixIgnoresChecksum(m2, 0);
      LayoutSlices(p);
      LayoutSlices(q);
      assert p.Layout() == q.Layout();
      LayoutRoundTrip(p);
      LayoutRoundTrip(q);
    }
  }

  /** A decoded record passes `check` exactly when bytes 24-27 spell
      `MAGIC` in little-endian order. */
  lemma CheckReadsMagicBytes(bytes: seq<u8>)
    requires |bytes| == SIZE
    ensures Decode(bytes).Check() <==> bytes[24..28] == Le32(MAGIC)
  {
    Le32RoundTrip(MAGIC, bytes[24..28]);
  }

  /** Setting bit 3 of a flags word below 8 changes the checksum: the two
      prefixes differ in that bit alone, followed by three zero bytes. */
  lemma FlagBitChangesChecksum(m: Metadata)
    requires m.flags < 8
    ensures m.(flags := m.flags + 8).ComputeChecksum() != m.ComputeChecksum()
  {
    var h := m.(flags := m.flags + 8);
    var front := ToBits(m.PrefixBytes()[..28]);
    FlagBitPrefixes(m, front);
    Crc32.FlagBitChangesDigest(front, m.flags as bv8);
    DigestsDifferAsNumbers(Crc32.Digest(ToBits(h.PrefixBytes())), Crc32.Digest(ToBits(m.PrefixBytes())));
  }

  lemma DigestsDifferAsNumbers(d1: bv32, d2: bv32)
    requires d1 != d2
    ensures d1 as int != d2 as int
  {
    NumberRoundTrip(d1);
    NumberRoundTrip(d2);
  }

  /** The checksum of a record is the standard CRC-32 of its prefix. */
  lemma ChecksumIsStandardCrc32(m: Metadata)
    ensures m.ComputeChecksum() as bv32 == Crc32.StandardCrc32(ToBits(m.PrefixBytes()))
  {
    DigestAsNumber(ToBits(m.PrefixBytes()), Crc32.Digest(ToBits(m.PrefixBytes())));
  }

  /** A digest read as a number is a u32 that stands for the standard
      CRC-32 of the same bytes. */
  lemma DigestAsNumber(bytes: seq<bv8>, d: bv32)
    requires d == Crc32.Digest(bytes)
    ensures d as int < 0x1_0000_0000
    ensures (d as int) as bv32 == Crc32.StandardCrc32(bytes)
  {
    Crc32.DigestIsStandardCrc32(bytes);
    NumberRoundTrip(d);
  }

  lemma NumberRoundTrip(d: bv32)
    ensures (d as int) as bv32 == d
  {
  }

  lemma FlagBitPrefixes(m: Metadata, front: seq<bv8>)
    requires m.flags < 8
    requires front == ToBits(m.PrefixBytes()[..28])
    ensures ToBits(m.PrefixBytes()) == front + [m.flags as bv8, 0, 0, 0]
    ensures ToBits(m.(flags := m.flags + 8).PrefixBytes()) == front + [(m.flags as bv8) ^ 0x08, 0, 0, 0]
  {
    var h := m.(flags := m.flags + 8);
    PrefixEndsWithFlags(m);
    PrefixEndsWithFlags(h);
    assert h.PrefixBytes()[..28] == m.PrefixBytes()[..28];
    SmallLe32(m.flags);
    SmallLe32(h.flags);
    ToBitsAppend(m.PrefixBytes()[..28], Le32(m.flags));
    ToBitsAppend(m.PrefixBytes()[..28], Le32(h.flags));
    LowByteFlagBit(m.flags);
  }

  lemma PrefixEndsWithFlags(m: Metadata)
    ensures m.PrefixBytes() == m.PrefixBytes()[..28] + Le32(m.flags)
  {
  }

  lemma SmallLe32(x: u32)
    requires x < 256
    ensures Le32(x) == [x, 0, 0, 0]
  {
    assert ToLe(0, 0) == [];
    assert ToLe(0, 1) == [0];
    assert ToLe(0, 2) == [0, 0];
    assert ToLe(0, 3) == [0, 0, 0];
  }

  lemma ToBitsAppend(a: seq<u8>, b: seq<u8>)
    ensures ToBits(a + b) == ToBits(a) + ToBits(b)
  {
  }

  lemma LowByteFlagBit(x: nat)
    requires x < 8
    ensures ToBits([x + 8, 0, 0, 0]) == [(x as bv8) ^ 0x08, 0, 0, 0]
    ensures ToBits([x, 0, 0, 0]) == [x as bv8, 0, 0, 0]
  {
  }
}
