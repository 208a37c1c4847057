/** The archive writer: one entry per file-system object (header record,
    path bytes, file body, footer record), and a whole tree written as all
    of its directories followed by all of its other objects. */
module Encoder {
  import Flags
  import opened Bits
  import opened LittleEndian
  import opened Record

  /** File contents whose length fits the u64 `file_size` field. */
  type Content = s: seq<u8> | |s| < 0x1_0000_0000_0000_0000

  /** The file-system tree the archiver walks. Every node carries its full
      path as raw bytes and its modification time in seconds. */
  datatype Node =
    | File(path: seq<u8>, modifiedAt: u64, content: Content)
    | Dir(path: seq<u8>, modifiedAt: u64, children: seq<Node>)

  /** The kind bits the writer stores for a node. */
  function KindFlag(n: Node): u32
  {
    if n.File? then Flags.FILE else Flags.DIR
  }

  /** The size the writer stores: the file length, 0 for a directory. */
  function FileSize(n: Node): u64
  {
    if n.File? then |n.content| else 0
  }

  /** What is copied between the path and the footer: the file's bytes. */
  function Body(n: Node): seq<u8>
  {
    if n.File? then n.content else []
  }

  /** The record shared by header and footer before either is finished;
      `path_len` is the path length narrowed to 16 bits. */
  function BaseRecord(n: Node): Metadata
  {
    Metadata(n.modifiedAt, FileSize(n), |n.path| % 0x1_0000, 0, 0, 0, MAGIC, KindFlag(n), 0)
  }

  function HeaderRecord(n: Node): Metadata
  {
    BaseRecord(n).WithHeaderBit().WithChecksum()
  }

  function FooterRecord(n: Node): Metadata
  {
    BaseRecord(n).WithChecksum()
  }

  /** The bytes `append_to_archive` writes for one node. */
  function EntryBytes(n: Node): seq<u8>
  {
    HeaderRecord(n).AsBytes() + n.path + Body(n) + FooterRecord(n).AsBytes()
  }

  /** The output stream; every write appends all of its bytes. */
  class Archive {
    var bytes: seq<u8>

    constructor()
      ensures bytes == []
    {
      bytes := [];
    }

    method Write(data: seq<u8>)
      modifies this
      ensures bytes == old(bytes) + data
    {
      bytes := bytes + data;
    }
  }

  /** `append_to_archive`: builds the shared record, finishes a header copy
      (kind plus the header bit) and a footer copy (kind only), each with its
      own checksum, then writes header, path, body and footer. */
  method AppendToArchive(archive: Archive, n: Node)
    modifies archive
    ensures archive.bytes == old(archive.bytes) + EntryBytes(n)
  {
    var headerBytes, footerBytes := EntryImages(n);
    ghost var start := archive.bytes;
    archive.Write(headerBytes);
    archive.Write(n.path);
    if n.File? {
      archive.Write(n.content);
    } else {
      assert archive.bytes == archive.bytes + Body(n);
    }
    archive.Write(footerBytes);
    AppendFour(start, headerBytes, n.path, Body(n), footerBytes);
  }

  /** The byte images of the entry's two records: with the path and the
      body between them, they make up the entry. */
  method EntryImages(n: Node) returns (headerBytes: seq<u8>, footerBytes: seq<u8>)
    ensures headerBytes + n.path + Body(n) + footerBytes == EntryBytes(n)
  {
    var header, footer := EntryRecords(n);
    headerBytes, footerBytes := header.AsBytes(), footer.AsBytes();
  }

  /** The record-building half of `append_to_archive`. */
  method EntryRecords(n: Node) returns (header: Metadata, footer: Metadata)
    ensures header == HeaderRecord(n) && footer == FooterRecord(n)
  {
    var meta := SharedRecord(n);
    var headerMeta := meta;
    Flags.SetHeaderFits(headerMeta.flags);
    headerMeta := headerMeta.(flags := BitOr(headerMeta.flags, Flags.HEADER));
    header := headerMeta.SetChecksum();
    footer := meta.SetChecksum();
  }

  /** The first half of `append_to_archive` as it is written: `flags` and
      `file_size` are chosen in a branch on the node's kind, then the shared
      record is built from them. `BaseRecord` is the same record as one
      expression, and serves as this method's specification. */
  method SharedRecord(n: Node) returns (meta: Metadata)
    ensures meta == BaseRecord(n)
  {
    var flags: u32;
    var fileSize: u64;
    if n.File? {
      flags := Flags.FILE;
      fileSize := |n.content|;
    } else {
      flags := Flags.DIR;
      fileSize := 0;
    }
    meta := Metadata(n.modifiedAt, fileSize, |n.path| % 0x1_0000, 0, 0, 0, MAGIC, flags, 0);
  }

  lemma AppendFour(s: seq<u8>, a: seq<u8>, b: seq<u8>, c: seq<u8>, d: seq<u8>)
    ensures s + a + b + c + d == s + (a + b + c + d)
  {
  }

  /** An entry is the header image, the path, the body and the footer
      image, back to back. */
  lemma EntryShape(n: Node)
    ensures |EntryBytes(n)| == 2 * SIZE + |n.path| + |Body(n)|
    ensures EntryBytes(n)[..SIZE] == HeaderRecord(n).AsBytes()
    ensures EntryBytes(n)[SIZE..SIZE + |n.path|] == n.path
    ensures EntryBytes(n)[SIZE + |n.path|..SIZE + |n.path| + |Body(n)|] == Body(n)
    ensures EntryBytes(n)[SIZE + |n.path| + |Body(n)|..] == FooterRecord(n).AsBytes()
  {
    var h, f := HeaderRecord(n).AsBytes(), FooterRecord(n).AsBytes();
    FrontParts(h, n.path, Body(n), f);
    BackParts(h, n.path, Body(n), f);
  }

  lemma FrontParts(h: seq<u8>, p: seq<u8>, b: seq<u8>, f: seq<u8>)
    requires |h| == SIZE
    ensures (h + p + b + f)[..SIZE] == h
    ensures (h + p + b + f)[SIZE..SIZE + |p|] == p
  {
    assert h + p + b + f == h + (p + b + f);
  }

  lemma BackParts(h: seq<u8>, p: seq<u8>, b: seq<u8>, f: seq<u8>)
    requires |h| == SIZE
    ensures (h + p + b + f)[SIZE + |p|..SIZE + |p| + |b|] == b
    ensures (h + p + b + f)[SIZE + |p| + |b|..] == f
  {
    assert |h + p| == SIZE + |p|;
  }

  /** The header and footer of an entry both pass `check`, carry valid
      checksums, and agree on every field but `flags` and `checksum`; their
      checksums differ. */
  lemma EntryRecordsAgree(n: Node)
    ensures HeaderRecord(n).Check() && FooterRecord(n).Check()
    ensures HeaderRecord(n).ChecksumValid() && FooterRecord(n).ChecksumValid()
    ensures HeaderRecord(n).(flags := 0, checksum := 0) == FooterRecord(n).(flags := 0, checksum := 0)
    ensures HeaderRecord(n).flags == BitOr(KindFlag(n), Flags.HEADER) && FooterRecord(n).flags == KindFlag(n)
    ensures HeaderRecord(n).checksum != FooterRecord(n).checksum
  {
    EntryChecksumsDiffer(n);
  }

  /** The header and the footer of an entry carry different checksums:
      their prefixes differ in the header bit alone. */
  lemma EntryChecksumsDiffer(n: Node)
    ensures HeaderRecord(n).checksum != FooterRecord(n).checksum
  {
    var b := BaseRecord(n);
    HeaderBitAddsEight(b.flags);
    assert b.WithHeaderBit() == b.(flags := b.flags + 8);
    PrefixIgnoresChecksum(b, b.ComputeChecksum());
    PrefixIgnoresChecksum(b.WithHeaderBit(), b.WithHeaderBit().ComputeChecksum());
    FlagBitChangesChecksum(b);
  }

  /** The kinds the writer stores, FILE and DIR, have no bit in common
      with the header bit. */
  lemma HeaderBitAddsEight(k: nat)
    requires k == Flags.FILE || k == Flags.DIR
    ensures BitOr(k, Flags.HEADER) == k + 8
  {
    if k == Flags.DIR {
      assert BitOr(1, 8) == 2 * BitOr(0, 4) + 1;
    }
  }

  /** The payload fields of an entry: no permissions or ownership, the
      path length modulo 2^16, and the body length as the size. */
  lemma EntryPayload(n: Node)
    ensures FooterRecord(n).perms == 0 && FooterRecord(n).owner == 0 && FooterRecord(n).group == 0
    ensures FooterRecord(n).pathLen == |n.path| % 0x1_0000
    ensures FooterRecord(n).fileSize == |Body(n)|
    ensures n.Dir? ==> FooterRecord(n).fileSize == 0 && Body(n) == []
  {
  }

  /** The header and the footer of an entry report the same kind, only files
      and directories are produced, and the two flags words differ in the
      header bit alone: set in the header, clear in the footer. */
  lemma EntryKinds(n: Node, k: nat)
    ensures HeaderRecord(n).Kind() == FooterRecord(n).Kind()
    ensures FooterRecord(n).Kind() == (if n.File? then RegularFile else Directory)
    ensures Bit(HeaderRecord(n).flags, Flags.HEADER_BIT) == 1
    ensures Bit(FooterRecord(n).flags, Flags.HEADER_BIT) == 0
    ensures k != Flags.HEADER_BIT ==> Bit(HeaderRecord(n).flags, k) == Bit(FooterRecord(n).flags, k)
  {
    Flags.HeaderBitKeepsKind(KindFlag(n), k);
    Flags.KindsAreTheKindBits(KindFlag(n));
  }
}
