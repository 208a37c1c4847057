/** Reading back what the writer wrote: every entry `append_to_archive`
    produces is accepted by `read1`, and `read` over a whole archive
    reports every entry in order and then stops at `Exhausted`. */
module RoundTrip {
  import opened LittleEndian
  import opened Record
  import opened Encoder
  import opened TreeArchive
  import Decoder

  /** A node whose entry reads back whole: its path length survives the
      narrowing to 16 bits and its size is an i64. */
  predicate Readable(n: Node)
  {
    |n.path| < 0x1_0000 && FileSize(n) < Decoder.I64_LIMIT
  }

  /** What `read1` reports for the entry of `n`. */
  function ReportOf(n: Node): Decoder.Report
  {
    Decoder.Report(HeaderRecord(n), n.path)
  }

  /** The log `read` produces for the nodes of `s` when each is reported
      with the record `header` gives for it and its own path. */
  function ReportsVia(header: Node -> Metadata, s: seq<Node>): (r: seq<Decoder.Report>)
    ensures |r| == |s|
    ensures forall i | 0 <= i < |s| :: r[i] == Decoder.Report(header(s[i]), s[i].path)
  {
    if |s| == 0 then [] else [Decoder.Report(header(s[0]), s[0].path)] + ReportsVia(header, s[1..])
  }

  /** What `read` logs for the entries of `s`: for each, its header and
      its path. */
  function Reports(s: seq<Node>): (r: seq<Decoder.Report>)
    ensures |r| == |s|
    ensures forall i | 0 <= i < |s| :: r[i] == ReportOf(s[i])
  {
    ReportsVia(HeaderRecord, s)
  }

  /** The log line of a readable entry names its kind as the writer chose
      it, its path and the length of its body. */
  lemma ReportOfEntry(n: Node)
    requires Readable(n)
    ensures ReportOf(n).Kind() == (if n.File? then RegularFile else Directory)
    ensures ReportOf(n).path == n.path
    ensures ReportOf(n).Size() == |Body(n)|
    ensures ReportOf(n).header.pathLen == |n.path|
  {
    EntryKinds(n, 0);
    EntryPayload(n);
    EntryRecordsAgree(n);
    assert HeaderRecord(n).pathLen == HeaderRecord(n).(flags := 0, checksum := 0).pathLen;
  }

  /** `data` holds the bytes `e` at `pos`. */
  predicate Holds(data: seq<u8>, pos: nat, e: seq<u8>)
  {
    pos + |e| <= |data| && data[pos..pos + |e|] == e
  }

  /** `b` is a 40-byte image of `m` that `read_meta` accepts: it decodes
      to `m`, and `m` passes `check`. */
  predicate ImageOf(m: Metadata, b: seq<u8>)
  {
    |b| == SIZE && m.Check() && Decode(b) == m
  }

  /** A record image at `pos` that passes `check` is read back as the
      record. */
  lemma ReadsRecord(data: seq<u8>, pos: nat, m: Metadata, b: seq<u8>)
    requires ImageOf(m, b)
    requires pos + SIZE <= |data| && data[pos..pos + SIZE] == b
    ensures Decoder.ReadMetaAt(data, pos) == Decoder.Step(Decoder.Ok(m), pos + SIZE)
  {
    Decoder.ReadExactInside(data, pos, SIZE);
  }

  /** Where the four parts of a framed entry sit in a stream that holds
      the entry at `pos`. */
  lemma FrameWindows(data: seq<u8>, pos: nat, h: seq<u8>, p: seq<u8>, b: seq<u8>, f: seq<u8>)
    requires |h| == SIZE && |f| == SIZE
    requires pos + |h + p + b + f| <= |data| && data[pos..pos + |h + p + b + f|] == h + p + b + f
    ensures data[pos..pos + SIZE] == h
    ensures data[pos + SIZE..pos + SIZE + |p|] == p
    ensures data[pos + SIZE + |p| + |b|..pos + SIZE + |p| + |b| + SIZE] == f
  {
    var e := h + p + b + f;
    assert forall i | 0 <= i < |e| :: data[pos + i] == e[i] by {
      forall i | 0 <= i < |e| ensures data[pos + i] == e[i] {
        assert data[pos..pos + |e|][i] == e[i];
      }
    }
    assert forall i | 0 <= i < SIZE :: data[pos + i] == h[i];
    assert forall i | 0 <= i < |p| :: data[pos + SIZE + i] == e[SIZE + i] == p[i];
    assert forall i | 0 <= i < SIZE :: data[pos + SIZE + |p| + |b| + i] == e[SIZE + |p| + |b| + i] == f[i];
  }

  /** A stream holding the entry `e` framed from `h`, `path`, `body` and
      `f` at `pos` holds the two records where `read1` looks for them, and
      the path between them. */
  lemma FrameRecordsRead(data: seq<u8>, pos: nat, h: Metadata, hb: seq<u8>, path: seq<u8>, body: seq<u8>,
                         f: Metadata, fb: seq<u8>, e: seq<u8>)
    requires ImageOf(h, hb) && ImageOf(f, fb)
    requires e == hb + path + body + fb && Holds(data, pos, e)
    ensures RecordsAt(data, pos, e, h, path, f)
  {
    FrameWindows(data, pos, hb, path, body, fb);
    ReadsRecord(data, pos, h, hb);
    ReadsRecord(data, pos + |e| - SIZE, f, fb);
  }

  /** Where `data` holds the entry `e` at `pos`, its first 40 bytes read as
      `h`, `path` follows them and its last 40 bytes read as `f`. */
  ghost predicate RecordsAt(data: seq<u8>, pos: nat, e: seq<u8>, h: Metadata, path: seq<u8>, f: Metadata)
    requires Holds(data, pos, e)
  {
    && Decoder.ReadMetaAt(data, pos) == Decoder.Step(Decoder.Ok(h), pos + SIZE)
    && pos + SIZE + |path| <= |data| && data[pos + SIZE..pos + SIZE + |path|] == path
    && |e| >= SIZE && Decoder.ReadMetaAt(data, pos + |e| - SIZE) == Decoder.Step(Decoder.Ok(f), pos + |e|)
  }

  /** The image of `x` is framed by `header(x)` and `footer(x)`: it is the
      two records, the path and as many body bytes as the header's size,
      the header gives the path length and an i64 size, and wherever the
      image sits its first 40 bytes read as `header(x)`, the path follows
      them and its last 40 bytes read as `footer(x)`. */
  ghost predicate Framed(image: Node -> seq<u8>, header: Node -> Metadata, footer: Node -> Metadata, x: Node)
  {
    header(x).pathLen == |x.path| && header(x).fileSize < Decoder.I64_LIMIT &&
    |image(x)| == 2 * SIZE + |x.path| + header(x).fileSize &&
    forall data: seq<u8>, pos: nat | Holds(data, pos, image(x)) ::
      RecordsAt(data, pos, image(x), header(x), x.path, footer(x))
  }

  /** The images of `s` are those of the nodes before `s[i]`, then the
      image of `s[i]`, then those of the nodes after it. */
  lemma ConcatAround(image: Node -> seq<u8>, s: seq<Node>, i: nat)
    requires i < |s|
    ensures Concat(image, s) == Concat(image, s[..i]) + image(s[i]) + Concat(image, s[i + 1..])
  {
    var front, back := s[..i + 1], s[i + 1..];
    assert front + back == s;
    assert front[..|front| - 1] == s[..i] && front[|front| - 1] == s[i];
    assert Concat(image, front) == Concat(image, s[..i]) + image(s[i]);
    ConcatOfAppend(image, front, back);
  }

  /** A stream holding `a + b + c` at `pos` holds `b` right after `a`. */
  lemma HoldsMiddle(data: seq<u8>, pos: nat, a: seq<u8>, b: seq<u8>, c: seq<u8>)
    requires Holds(data, pos, a + b + c)
    ensures Holds(data, pos + |a|, b)
  {
    var e := a + b + c;
    assert e[|a|..|a| + |b|] == b;
    assert data[pos + |a|..pos + |a| + |b|] == data[pos..pos + |e|][|a|..|a| + |b|];
  }

  /** Where `data` holds the images of `s` back to back from `pos`, it
      holds the image of `s[i]` right after those of the nodes before it. */
  lemma ImageAt(image: Node -> seq<u8>, data: seq<u8>, pos: nat, s: seq<Node>, i: nat)
    requires Holds(data, pos, Concat(image, s)) && i < |s|
    ensures Holds(data, pos + |Concat(image, s[..i])|, image(s[i]))
    ensures |Concat(image, s[..i + 1])| == |Concat(image, s[..i])| + |image(s[i])|
  {
    ConcatAround(image, s, i);
    HoldsMiddle(data, pos, Concat(image, s[..i]), image(s[i]), Concat(image, s[i + 1..]));
    ConcatAround(image, s[..i + 1], i);
    assert s[..i + 1][..i] == s[..i] && s[..i + 1][i + 1..] == [];
  }

  /** `read1` accepts a framed image wherever it sits in a stream of at most
      2^64 bytes, reports the header and the path, and moves past exactly
      the image. */
  lemma FramedReads(image: Node -> seq<u8>, header: Node -> Metadata, footer: Node -> Metadata,
                    x: Node, data: seq<u8>, pos: nat)
    requires Framed(image, header, footer, x) && Holds(data, pos, image(x)) && |data| <= Decoder.POS_LIMIT
    ensures Decoder.Read1At(data, pos) ==
      Decoder.Step(Decoder.Ok(Decoder.Report(header(x), x.path)), pos + |image(x)|)
  {
    Decoder.Read1Accepts(data, pos, header(x), x.path, footer(x), pos + |image(x)|);
  }

  /** `read1` as written reads a framed image exactly as the corrected
      `read1` does: its header's size is below 2^63, so the cast to i64
      changes nothing. */
  lemma FramedReadsAsWritten(image: Node -> seq<u8>, header: Node -> Metadata, footer: Node -> Metadata,
                             x: Node, data: seq<u8>, pos: nat)
    requires Framed(image, header, footer, x) && Holds(data, pos, image(x))
    ensures Decoder.Read1AsWritten(data, pos) == Decoder.Read1At(data, pos)
  {
    assert RecordsAt(data, pos, image(x), header(x), x.path, footer(x));
    Decoder.ReadMetaOutcomes(data, pos);
    Decoder.AsWrittenDiffersOnlyOnHugeSizes(data, pos);
  }

  /** Where each image starts: `ps[i]` is the length of the images of the
      nodes before `s[i]`, and the last position is the end of them all. */
  function Offsets(image: Node -> seq<u8>, s: seq<Node>): (ps: seq<nat>)
    ensures |ps| == |s| + 1
    ensures forall i | 0 <= i <= |s| :: ps[i] == |Concat(image, s[..i])|
  {
    seq(|s| + 1, i requires 0 <= i <= |s| => |Concat(image, s[..i])|)
  }

  /** In a stream of at most 2^64 bytes that is the framed images of `s`
      back to back, `read1` accepts the image of `s[i]` where it starts,
      reports its header and path, and moves to where the next one starts. */
  lemma ReadsImageAt(image: Node -> seq<u8>, header: Node -> Metadata, footer: Node -> Metadata, s: seq<Node>, i: nat)
    requires forall x | x in s :: Framed(image, header, footer, x)
    requires |Concat(image, s)| <= Decoder.POS_LIMIT && i < |s|
    ensures Decoder.Read1At(Concat(image, s), |Concat(image, s[..i])|) ==
      Decoder.Step(Decoder.Ok(Decoder.Report(header(s[i]), s[i].path)), |Concat(image, s[..i + 1])|)
    ensures Decoder.Read1AsWritten(Concat(image, s), |Concat(image, s[..i])|) ==
      Decoder.Read1At(Concat(image, s), |Concat(image, s[..i])|)
  {
    var data := Concat(image, s);
    assert data[0..|data|] == data;
    ReadsImageIn(image, header, footer, data, s, i);
  }

  /** The same in any stream of at most 2^64 bytes that starts with the
      framed images of `s`, whatever follows them. */
  lemma ReadsImageIn(image: Node -> seq<u8>, header: Node -> Metadata, footer: Node -> Metadata,
                     data: seq<u8>, s: seq<Node>, i: nat)
    requires forall x | x in s :: Framed(image, header, footer, x)
    requires Holds(data, 0, Concat(image, s)) && |data| <= Decoder.POS_LIMIT && i < |s|
    ensures Decoder.Read1At(data, |Concat(image, s[..i])|) ==
      Decoder.Step(Decoder.Ok(Decoder.Report(header(s[i]), s[i].path)), |Concat(image, s[..i + 1])|)
    ensures Decoder.Read1AsWritten(data, |Concat(image, s[..i])|) ==
      Decoder.Read1At(data, |Concat(image, s[..i])|)
  {
    ImageAt(image, data, 0, s, i);
    assert s[i] in s;
    FramedReads(image, header, footer, s[i], data, |Concat(image, s[..i])|);
    FramedReadsAsWritten(image, header, footer, s[i], data, |Concat(image, s[..i])|);
  }

  /** `read` over a stream of at most 2^64 bytes that is the framed images
      of `s` back to back reports each node of `s` in order with its
      header and path, and stops at `Exhausted` at the end of the data. */
  lemma ReadsImages(image: Node -> seq<u8>, header: Node -> Metadata, footer: Node -> Metadata, s: seq<Node>)
    requires forall x | x in s :: Framed(image, header, footer, x)
    requires |Concat(image, s)| <= Decoder.POS_LIMIT
    ensures Decoder.ReadAll(Concat(image, s), 0) == Decoder.Decoded(ReportsVia(header, s), Decoder.Exhausted)
    ensures forall fuel: nat | fuel > |s| ::
      Decoder.ReadAsWrittenFor(Concat(image, s), 0, fuel) == Decoder.Some(Decoder.Decoded(ReportsVia(header, s), Decoder.Exhausted))
  {
    var data, rs, ps := Concat(image, s), ReportsVia(header, s), Offsets(image, s);
    forall i | 0 <= i < |s|
      ensures Decoder.Read1At(data, ps[i]) == Decoder.Step(Decoder.Ok(rs[i]), ps[i + 1])
      ensures Decoder.Read1AsWritten(data, ps[i]) == Decoder.Step(Decoder.Ok(rs[i]), ps[i + 1])
    {
      ReadsImageAt(image, header, footer, s, i);
    }
    assert s[..0] == [] && s[..|s|] == s;
    Decoder.ReadAllChain(data, rs, ps);
    forall fuel: nat | fuel > |s|
      ensures Decoder.ReadAsWrittenFor(data, 0, fuel) == Decoder.Some(Decoder.Decoded(rs, Decoder.Exhausted))
    {
      Decoder.ReadAsWrittenChain(data, rs, ps, fuel);
    }
  }

  /** The first 40 bytes of a framed image decode to its header record,
      which passes `check`. */
  lemma FramedHeader(image: Node -> seq<u8>, header: Node -> Metadata, footer: Node -> Metadata, x: Node)
    requires Framed(image, header, footer, x)
    ensures SIZE <= |image(x)|
    ensures header(x).Check() && Decode(image(x)[0..SIZE]) == header(x)
  {
    var e := image(x);
    assert e[0..|e|] == e;
    assert RecordsAt(e, 0, e, header(x), x.path, footer(x));
    Decoder.ReadExactInside(e, 0, SIZE);
  }

  /** `read1` at `pos` on a stream that ends after the first `r` bytes of
      the framed image of `x`: no entry, and `Crop` exactly when the cut
      falls inside the path, `Exhausted` otherwise; as written too. */
  lemma ReadsCutImageAt(image: Node -> seq<u8>, header: Node -> Metadata, footer: Node -> Metadata,
                        x: Node, data: seq<u8>, pos: nat, r: nat)
    requires Framed(image, header, footer, x)
    requires r < |image(x)| && pos + |image(x)| <= Decoder.POS_LIMIT
    requires |data| == pos + r && data[pos..] == image(x)[..r]
    ensures Decoder.Read1At(data, pos).out ==
      Decoder.Err(if SIZE <= r < SIZE + |x.path| then Decoder.Crop else Decoder.Exhausted)
    ensures Decoder.Read1AsWritten(data, pos) == Decoder.Read1At(data, pos)
  {
    FramedHeader(image, header, footer, x);
    if SIZE <= r {
      assert data[pos..pos + SIZE] == data[pos..][..SIZE] == image(x)[..r][..SIZE] == image(x)[0..SIZE];
    }
    Decoder.CutEntry(data, pos, header(x), pos + |image(x)|);
  }

  /** `read1` accepts the framed images of `s` one after the other in
      any stream of at most 2^64 bytes that starts with them, as written
      too: from where the image of `s[i]` starts to where the next one
      starts, reporting its header and path. */
  lemma ReadsImagesIn(image: Node -> seq<u8>, header: Node -> Metadata, footer: Node -> Metadata,
                      data: seq<u8>, s: seq<Node>)
    requires forall x | x in s :: Framed(image, header, footer, x)
    requires Holds(data, 0, Concat(image, s)) && |data| <= Decoder.POS_LIMIT
    ensures forall i | 0 <= i < |s| ::
      Decoder.Read1At(data, Offsets(image, s)[i]) ==
      Decoder.Step(Decoder.Ok(ReportsVia(header, s)[i]), Offsets(image, s)[i + 1])
    ensures forall i | 0 <= i < |s| ::
      Decoder.Read1AsWritten(data, Offsets(image, s)[i]) == Decoder.Read1At(data, Offsets(image, s)[i])
  {
    forall i | 0 <= i < |s|
      ensures Decoder.Read1At(data, Offsets(image, s)[i]) ==
        Decoder.Step(Decoder.Ok(ReportsVia(header, s)[i]), Offsets(image, s)[i + 1])
      ensures Decoder.Read1AsWritten(data, Offsets(image, s)[i]) == Decoder.Read1At(data, Offsets(image, s)[i])
    {
      ReadsImageIn(image, header, footer, data, s, i);
    }
  }

  /** `read` over `data`, the framed images of `s[..j]` followed by the
      first `r` bytes of the framed image of `s[j]`, logs each node of
      `s[..j]` and nothing for `s[j]`. It stops at `Crop` when the cut
      falls inside the path of `s[j]` and at `Exhausted` otherwise, as
      written too. */
  lemma ReadsCutImages(image: Node -> seq<u8>, header: Node -> Metadata, footer: Node -> Metadata,
                       s: seq<Node>, j: nat, r: nat, data: seq<u8>)
    requires forall y | y in s :: Framed(image, header, footer, y)
    requires j < |s| && r < |image(s[j])| && |Concat(image, s[..j])| + |image(s[j])| <= Decoder.POS_LIMIT
    requires data == Concat(image, s[..j]) + image(s[j])[..r]
    ensures var stop := if SIZE <= r < SIZE + |s[j].path| then Decoder.Crop else Decoder.Exhausted;
      && Decoder.ReadAll(data, 0) == Decoder.Decoded(ReportsVia(header, s[..j]), stop)
      && forall fuel: nat | fuel > j ::
           Decoder.ReadAsWrittenFor(data, 0, fuel) == Decoder.Some(Decoder.Decoded(ReportsVia(header, s[..j]), stop))
  {
    var front := s[..j];
    var rs, ps := ReportsVia(header, front), Offsets(image, front);
    var p := |Concat(image, front)|;
    forall y | y in front
      ensures Framed(image, header, footer, y)
    {
      assert y in s;
    }
    assert data[0..p] == Concat(image, front);
    ReadsImagesIn(image, header, footer, data, front);
    assert front[..0] == [] && front[..|front|] == front;
    assert data[p..] == image(s[j])[..r];
    assert s[j] in s;
    ReadsCutImageAt(image, header, footer, s[j], data, p, r);
    Decoder.ReadStopsAfterChain(data, rs, ps, if SIZE <= r < SIZE + |s[j].path| then Decoder.Crop else Decoder.Exhausted);
  }

  /** `read` over the framed images of `s` cut after `k` bytes, inside the
      image of `s[j]`: the nodes before `s[j]` are logged and `s[j]` is
      not; the stop is `Crop` when the cut falls inside its path and
      `Exhausted` otherwise, as written too. */
  lemma ReadsCutArchive(image: Node -> seq<u8>, header: Node -> Metadata, footer: Node -> Metadata,
                        s: seq<Node>, j: nat, k: nat)
    requires forall y | y in s :: Framed(image, header, footer, y)
    requires |Concat(image, s)| <= Decoder.POS_LIMIT
    requires j < |s| && |Concat(image, s[..j])| <= k < |Concat(image, s[..j + 1])| && k < |Concat(image, s)|
    ensures var p := |Concat(image, s[..j])|;
      var stop := if p + SIZE <= k < p + SIZE + |s[j].path| then Decoder.Crop else Decoder.Exhausted;
      && Decoder.ReadAll(Concat(image, s)[..k], 0) == Decoder.Decoded(ReportsVia(header, s[..j]), stop)
      && forall fuel: nat | fuel > j ::
           Decoder.ReadAsWrittenFor(Concat(image, s)[..k], 0, fuel) == Decoder.Some(Decoder.Decoded(ReportsVia(header, s[..j]), stop))
  {
    ConcatCut(image, s, j, k);
    ReadsCutImages(image, header, footer, s, j, k - |Concat(image, s[..j])|, Concat(image, s)[..k]);
  }

  /** The images of `s` cut inside the image of `s[j]` are the images of
      the nodes before it and the front of its own. */
  lemma ConcatCut(image: Node -> seq<u8>, s: seq<Node>, j: nat, k: nat)
    requires j < |s| && |Concat(image, s[..j])| <= k < |Concat(image, s[..j + 1])|
    ensures |Concat(image, s[..j + 1])| == |Concat(image, s[..j])| + |image(s[j])| <= |Concat(image, s)|
    ensures Concat(image, s)[..k] == Concat(image, s[..j]) + image(s[j])[..k - |Concat(image, s[..j])|]
  {
    ConcatAround(image, s, j);
    assert s[..j + 1][..j] == s[..j] && s[..j + 1][j] == s[j];
  }

  /** An image made of two records that pass `check`, the path and a body
      as long as the header says, with the header giving the path length,
      is framed by those records. */
  lemma FramedByRecords(image: Node -> seq<u8>, header: Node -> Metadata, footer: Node -> Metadata,
                        x: Node, hb: seq<u8>, body: seq<u8>, fb: seq<u8>)
    requires ImageOf(header(x), hb) && ImageOf(footer(x), fb)
    requires header(x).pathLen == |x.path| && header(x).fileSize == |body| < Decoder.I64_LIMIT
    requires image(x) == hb + x.path + body + fb
    ensures Framed(image, header, footer, x)
  {
    forall data: seq<u8>, pos: nat | Holds(data, pos, image(x))
      ensures RecordsAt(data, pos, image(x), header(x), x.path, footer(x))
    {
      FrameRecordsRead(data, pos, header(x), hb, x.path, body, footer(x), fb, image(x));
    }
  }

  /** The entry of a readable node is framed by its header and footer
      records. */
  lemma EntryFramed(x: Node)
    requires Readable(x)
    ensures Framed(EntryBytes, HeaderRecord, FooterRecord, x)
  {
    EntryRecordsAgree(x);
    ReportOfEntry(x);
    LayoutRoundTrip(HeaderRecord(x));
    LayoutRoundTrip(FooterRecord(x));
    FramedByRecords(EntryBytes, HeaderRecord, FooterRecord, x, HeaderRecord(x).Layout(), Body(x), FooterRecord(x).Layout());
  }

  /** `read1` accepts a readable entry wherever it sits in a stream of at
      most 2^64 bytes, reports its header and path, and moves past exactly
      its bytes. */
  lemma ReadsEntry(data: seq<u8>, pos: nat, n: Node)
    requires Readable(n) && Holds(data, pos, EntryBytes(n)) && |data| <= Decoder.POS_LIMIT
    ensures Decoder.Read1At(data, pos) == Decoder.Step(Decoder.Ok(ReportOf(n)), pos + |EntryBytes(n)|)
  {
    EntryFramed(n);
    FramedReads(EntryBytes, HeaderRecord, FooterRecord, n, data, pos);
  }

  /** `read1` as written reads a readable entry wherever it sits exactly as
      the corrected `read1` does. */
  lemma ReadsEntryAsWritten(data: seq<u8>, pos: nat, n: Node)
    requires Readable(n) && Holds(data, pos, EntryBytes(n))
    ensures Decoder.Read1AsWritten(data, pos) == Decoder.Read1At(data, pos)
  {
    EntryFramed(n);
    FramedReadsAsWritten(EntryBytes, HeaderRecord, FooterRecord, n, data, pos);
  }

  /** `read` over entries written back to back reports each of them in
      order and stops at `Exhausted` at the end of the data. */
  lemma ReadsEntries(s: seq<Node>)
    requires forall x | x in s :: Readable(x)
    requires |EntriesBytes(s)| <= Decoder.POS_LIMIT
    ensures Decoder.ReadAll(EntriesBytes(s), 0) == Decoder.Decoded(Reports(s), Decoder.Exhausted)
    ensures forall fuel: nat | fuel > |s| ::
      Decoder.ReadAsWrittenFor(EntriesBytes(s), 0, fuel) == Decoder.Some(Decoder.Decoded(Reports(s), Decoder.Exhausted))
  {
    forall x | x in s
      ensures Framed(EntryBytes, HeaderRecord, FooterRecord, x)
    {
      EntryFramed(x);
    }
    ReadsImages(EntryBytes, HeaderRecord, FooterRecord, s);
  }

  /** The entries of `s` written back to back and cut after `k` bytes,
      inside the entry of `s[j]`: `read` logs the entries before `s[j]`
      and none for it, then stops at `Crop` when the cut falls inside its
      path and at `Exhausted` when it falls inside a record or the body.
      `read` as written does the same, given more calls of `read1` than
      there are whole entries. */
  lemma ReadsTruncated(s: seq<Node>, j: nat, k: nat)
    requires forall x | x in s :: Readable(x)
    requires |EntriesBytes(s)| <= Decoder.POS_LIMIT
    requires j < |s| && |EntriesBytes(s[..j])| <= k < |EntriesBytes(s[..j + 1])| && k < |EntriesBytes(s)|
    ensures var p := |EntriesBytes(s[..j])|;
      var stop := if p + SIZE <= k < p + SIZE + |s[j].path| then Decoder.Crop else Decoder.Exhausted;
      && Decoder.ReadAll(EntriesBytes(s)[..k], 0) == Decoder.Decoded(Reports(s[..j]), stop)
      && forall fuel: nat | fuel > j ::
           Decoder.ReadAsWrittenFor(EntriesBytes(s)[..k], 0, fuel) == Decoder.Some(Decoder.Decoded(Reports(s[..j]), stop))
  {
    EntriesFramed(s);
    ReadsCutArchive(EntryBytes, HeaderRecord, FooterRecord, s, j, k);
  }

  /** The entries of readable nodes are framed by their records. */
  lemma EntriesFramed(s: seq<Node>)
    requires forall x | x in s :: Readable(x)
    ensures forall x | x in s :: Framed(EntryBytes, HeaderRecord, FooterRecord, x)
  {
    forall x | x in s
      ensures Framed(EntryBytes, HeaderRecord, FooterRecord, x)
    {
      EntryFramed(x);
    }
  }

  /** Reading back an archive of a tree (short paths, sizes below 2^63, at
      most 2^64 bytes in all) reports every archived object, directories
      first, in archive order, and then stops at `Exhausted`. */
  lemma ArchiveReadsBack(root: Node)
    requires forall x | x in PreOrder(root) :: Readable(x)
    requires |EntriesBytes(ArchiveOrder(root))| <= Decoder.POS_LIMIT
    ensures Decoder.ReadAll(EntriesBytes(ArchiveOrder(root)), 0) ==
      Decoder.Decoded(Reports(ArchiveOrder(root)), Decoder.Exhausted)
    ensures forall fuel: nat | fuel > |ArchiveOrder(root)| ::
      Decoder.ReadAsWrittenFor(EntriesBytes(ArchiveOrder(root)), 0, fuel) ==
      Decoder.Some(Decoder.Decoded(Reports(ArchiveOrder(root)), Decoder.Exhausted))
  {
    var a := ArchiveOrder(root);
    ArchiveIsPermutation(root);
    forall i | 0 <= i < |a|
      ensures Readable(a[i])
    {
      assert a[i] in multiset(a);
    }
    ReadsEntries(a);
  }
}
