/** The archive reader: `read_meta` reads one record, `read1` one entry
    (header, path, skipped body, footer), and `read` entries until the
    first failure. The stream is an in-memory cursor over the archive. */
module Decoder {
  import opened LittleEndian
  import opened Record

  datatype DecodeError =
    | Exhausted  // no further entries
    | Header     // a record without the magic number
    | Footer     // never produced
    | Checksum   // never produced
    | Crop       // cut off mid-entry

  datatype Option<T> = None | Some(value: T)

  datatype Result<T> = Ok(value: T) | Err(error: DecodeError)

  /** The outcome of one step on the stream and the position it leaves. */
  datatype Step<T> = Step(out: T, pos: nat)

  /** What `read1` logs for an entry it accepts: the header record, whose
      kind label and size make up the log line, and the raw path bytes. */
  datatype Report = Report(header: Metadata, path: seq<u8>)
  {
    function Kind(): KindLabel
    {
      header.Kind()
    }

    function Size(): u64
    {
      header.fileSize
    }
  }

  /** The reports of every accepted entry and the error that ended `read`. */
  datatype Decoded = Decoded(log: seq<Report>, stop: DecodeError)

  /** 2^63: the first u64 that is a negative i64. */
  const I64_LIMIT: int := 0x8000_0000_0000_0000
  /** 2^64: one past the largest stream position. */
  const POS_LIMIT: int := 0x1_0000_0000_0000_0000

  /** The bytes left after `pos`; none once the position is past the end. */
  function Remaining(data: seq<u8>, pos: nat): nat
  {
    if pos <= |data| then |data| - pos else 0
  }

  /** `read_exact` on a cursor: exactly `n` bytes from `pos`, or failure
      with the cursor moved to the end of the data. */
  function ReadExactAt(data: seq<u8>, pos: nat, n: nat): (s: Step<Option<seq<u8>>>)
    ensures s.out.None? <==> n > Remaining(data, pos)
    ensures s.out.Some? ==> |s.out.value| == n && s.pos == pos + n
    ensures s.out.Some? && n > 0 ==> pos + n <= |data| && s.out.value == data[pos..pos + n]
  {
    if n > Remaining(data, pos) then Step(None, |data|)
    else if n == 0 then Step(Some([]), pos)
    else Step(Some(data[pos..pos + n]), pos + n)
  }

  /** `seek(SeekFrom::Current(offset))` on a cursor: `checked_add_signed`
      of the offset to the position, refused when the target is negative or
      past the largest u64. */
  function SeekAt(pos: nat, offset: int): (s: Step<bool>)
    ensures s.out <==> 0 <= pos + offset < POS_LIMIT
    ensures s.pos == if s.out then pos + offset else pos
  {
    if 0 <= pos + offset < POS_LIMIT then Step(true, pos + offset) else Step(false, pos)
  }

  /** `file_size as i64`: the same 64 bits read as two's complement. */
  function AsI64(size: u64): (offset: int)
    ensures -I64_LIMIT <= offset < I64_LIMIT
    ensures (if offset < 0 then offset + POS_LIMIT else offset) == size
    ensures offset < 0 <==> size >= I64_LIMIT
  {
    if size < I64_LIMIT then size else size - POS_LIMIT
  }

  /** The offset `read1` seeks past the body by. As written (`checked`
      false) it is `file_size as i64`; corrected, a size that is not an
      i64 is refused, as `i64::try_from` would. */
  function BodyOffset(size: u64, checked: bool): Option<int>
  {
    if !checked then Some(AsI64(size))
    else if size < I64_LIMIT then Some(size)
    else None
  }

  /** `read_meta`: a short read is `Exhausted`; a record without the magic
      number is `Header`, whether it is a header or a footer. */
  function ReadMetaAt(data: seq<u8>, pos: nat): Step<Result<Metadata>>
  {
    var r := ReadExactAt(data, pos, SIZE);
    if r.out.None? then Step(Err(Exhausted), r.pos)
    else
      var meta := Decode(r.out.value);
      if meta.Check() then Step(Ok(meta), r.pos) else Step(Err(Header), r.pos)
  }

  /** `read1`, with the body skipped by `BodyOffset(_, checked)`. */
  function Read1Via(data: seq<u8>, pos: nat, checked: bool): Step<Result<Report>>
  {
    var h := ReadMetaAt(data, pos);
    if h.out.Err? then Step(Err(h.out.error), h.pos)
    else
      var header := h.out.value;
      var p := ReadExactAt(data, h.pos, header.pathLen);
      if p.out.None? then Step(Err(Crop), p.pos)
      else
        var offset := BodyOffset(header.fileSize, checked);
        if offset.None? then Step(Err(Crop), p.pos)
        else
          var s := SeekAt(p.pos, offset.value);
          if !s.out then Step(Err(Crop), s.pos)
          else
            FinishEntry(data, s.pos, Report(header, p.out.value))
  }

  /** The last step of `read1`: the footer read, which decides whether the
      entry is reported. */
  function FinishEntry(data: seq<u8>, footerPos: nat, report: Report): Step<Result<Report>>
  {
    var f := ReadMetaAt(data, footerPos);
    if f.out.Err? then Step(Err(f.out.error), f.pos) else Step(Ok(report), f.pos)
  }

  /** `read1` as written: the size is cast to i64 before seeking. */
  function Read1AsWritten(data: seq<u8>, pos: nat): Step<Result<Report>>
  {
    Read1Via(data, pos, false)
  }

  /** `read1` with the size checked before seeking. An accepted entry moves
      the stream forward by both records at least and leaves it inside the
      data. */
  function Read1At(data: seq<u8>, pos: nat): (s: Step<Result<Report>>)
    ensures s.out.Ok? ==> pos + 2 * SIZE <= s.pos <= |data|
  {
    Read1Via(data, pos, true)
  }

  /** `read`: entries until the first failure. */
  function ReadAll(data: seq<u8>, pos: nat): Decoded
    decreases Remaining(data, pos)
  {
    var s := Read1At(data, pos);
    if s.out.Err? then Decoded([], s.out.error)
    else
      var rest := ReadAll(data, s.pos);
      Decoded([s.out.value] + rest.log, rest.stop)
  }

  /** `read` with the entry reader `read1`, for at most `fuel` calls of
      it; `None` when every one of them succeeds. */
  function ReadWith(read1: (seq<u8>, nat) -> Step<Result<Report>>, data: seq<u8>, pos: nat, fuel: nat): Option<Decoded>
    decreases fuel
  {
    if fuel == 0 then None
    else
      var s := read1(data, pos);
      if s.out.Err? then Some(Decoded([], s.out.error))
      else
        var rest := ReadWith(read1, data, s.pos, fuel - 1);
        if rest.None? then None else Some(Decoded([s.out.value] + rest.value.log, rest.value.stop))
  }

  /** `read` with `read1` as written, for at most `fuel` calls of `read1`.
      As written, `read` need not end (see `AsWrittenReadNeverEnds`), so it
      has no total definition without a bound. */
  function ReadAsWrittenFor(data: seq<u8>, pos: nat, fuel: nat): Option<Decoded>
  {
    ReadWith(Read1AsWritten, data, pos, fuel)
  }

  /** A `Cursor` over the archive bytes. */
  class Cursor {
    const data: seq<u8>
    var pos: nat

    constructor(data: seq<u8>)
      ensures this.data == data && pos == 0
    {
      this.data := data;
      pos := 0;
    }

    method ReadExact(n: nat) returns (r: Option<seq<u8>>)
      modifies this
      ensures Step(r, pos) == ReadExactAt(data, old(pos), n)
    {
      if n > Remaining(data, pos) {
        r := None;
        pos := |data|;
      } else if n == 0 {
        r := Some([]);
      } else {
        r := Some(data[pos..pos + n]);
        pos := pos + n;
      }
    }

    method SeekCurrent(offset: int) returns (ok: bool)
      modifies this
      ensures Step(ok, pos) == SeekAt(old(pos), offset)
    {
      ok := 0 <= pos + offset < POS_LIMIT;
      if ok {
        pos := pos + offset;
      }
    }
  }

  /** `read_meta` on the cursor. */
  method ReadMeta(c: Cursor) returns (r: Result<Metadata>)
    modifies c
    ensures Step(r, c.pos) == ReadMetaAt(c.data, old(c.pos))
  {
    var bytes := c.ReadExact(SIZE);
    if bytes.None? {
      return Err(Exhausted);
    }
    var meta := Decode(bytes.value);
    if !meta.Check() {
      return Err(Header);
    }
    return Ok(meta);
  }

  /** `read1` on the cursor, with the size checked before the seek. */
  method Read1(c: Cursor) returns (r: Result<Report>)
    modifies c
    ensures Step(r, c.pos) == Read1At(c.data, old(c.pos))
  {
    var header := ReadMeta(c);
    if header.Err? {
      return Err(header.error);
    }
    var path := c.ReadExact(header.value.pathLen);
    if path.None? {
      return Err(Crop);
    }
    var size := header.value.fileSize;
    if size >= I64_LIMIT {
      return Err(Crop);
    }
    var ok := c.SeekCurrent(size);
    if !ok {
      return Err(Crop);
    }
    var footer := ReadMeta(c);
    if footer.Err? {
      return Err(footer.error);
    }
    return Ok(Report(header.value, path.value));
  }

  /** `read`: calls `read1` until it fails, collecting what it logs. */
  method Read(c: Cursor) returns (log: seq<Report>, stop: DecodeError)
    modifies c
    ensures Decoded(log, stop) == ReadAll(c.data, old(c.pos))
  {
    log := [];
    stop := Exhausted;
    var done := false;
    while !done
      invariant !done ==> ReadAll(c.data, old(c.pos)) == Decoded(log + ReadAll(c.data, c.pos).log, ReadAll(c.data, c.pos).stop)
      invariant done ==> ReadAll(c.data, old(c.pos)) == Decoded(log, stop)
      decreases if done then 0 else Remaining(c.data, c.pos) + 1
    {
      ghost var before := c.pos;
      var r := Read1(c);
      ReadAllSteps(c.data, before);
      if r.Ok? {
        LogAssociates(log, r.value, ReadAll(c.data, c.pos).log);
        log := log + [r.value];
      } else {
        stop := r.error;
        done := true;
        assert log + [] == log;
      }
    }
  }

  /** `read` is `read1` followed by `read` from where it stopped. */
  lemma ReadAllSteps(data: seq<u8>, pos: nat)
    ensures Read1At(data, pos).out.Err? ==> ReadAll(data, pos) == Decoded([], Read1At(data, pos).out.error)
    ensures Read1At(data, pos).out.Ok? ==>
      var rest := ReadAll(data, Read1At(data, pos).pos);
      ReadAll(data, pos) == Decoded([Read1At(data, pos).out.value] + rest.log, rest.stop)
  {
  }

  /** After an accepted entry, `read` carries on from where it ended. */
  lemma ReadAllAccepts(data: seq<u8>, pos: nat, r: Report, next: nat)
    requires Read1At(data, pos) == Step(Ok(r), next)
    ensures ReadAll(data, pos) == Decoded([r] + ReadAll(data, next).log, ReadAll(data, next).stop)
  {
    ReadAllSteps(data, pos);
  }

  /** When `read1` accepts `rs[i]` at `ps[i]` and moves to `ps[i + 1]`, for
      each `i`, and the last position is at the end of the data, `read`
      from `ps[0]` logs exactly `rs` and stops at `Exhausted`. */
  lemma ReadAllChain(data: seq<u8>, rs: seq<Report>, ps: seq<nat>)
    requires |ps| == |rs| + 1 && |data| <= ps[|rs|]
    requires forall i | 0 <= i < |rs| :: Read1At(data, ps[i]) == Step(Ok(rs[i]), ps[i + 1])
    ensures ReadAll(data, ps[0]) == Decoded(rs, Exhausted)
  {
    ReadAllPrefix(data, rs, ps);
    ReadAllAtEnd(data, ps[|rs|]);
    assert rs + [] == rs;
  }

  /** When `read1` accepts `rs[i]` at `ps[i]` and moves to `ps[i + 1]`, for
      each `i`, `read` from `ps[0]` logs `rs` and then goes on exactly as
      `read` from `ps[|rs|]` does, whatever the data holds there. */
  lemma ReadAllPrefix(data: seq<u8>, rs: seq<Report>, ps: seq<nat>)
    requires |ps| == |rs| + 1
    requires forall i | 0 <= i < |rs| :: Read1At(data, ps[i]) == Step(Ok(rs[i]), ps[i + 1])
    ensures ReadAll(data, ps[0]) == Decoded(rs + ReadAll(data, ps[|rs|]).log, ReadAll(data, ps[|rs|]).stop)
  {
    var runs := seq(|ps|, i requires 0 <= i < |ps| => ReadAll(data, ps[i]));
    forall i | 0 <= i < |rs|
      ensures runs[i] == Decoded([rs[i]] + runs[i + 1].log, runs[i + 1].stop)
    {
      ReadAllAccepts(data, ps[i], rs[i], ps[i + 1]);
    }
    LogsChain(rs, runs);
  }

  /** Runs that each log one report before the next run: the first logs
      them all, then what the last one logs. */
  lemma {:induction false} LogsChain(rs: seq<Report>, runs: seq<Decoded>)
    requires |runs| == |rs| + 1
    requires forall i | 0 <= i < |rs| :: runs[i] == Decoded([rs[i]] + runs[i + 1].log, runs[i + 1].stop)
    ensures runs[0] == Decoded(rs + runs[|rs|].log, runs[|rs|].stop)
    decreases |rs|
  {
    if |rs| == 0 {
      assert rs + runs[0].log == runs[0].log;
    } else {
      var rest, later := rs[1..], runs[1..];
      forall i | 0 <= i < |rest|
        ensures later[i] == Decoded([rest[i]] + later[i + 1].log, later[i + 1].stop)
      {
        assert later[i] == runs[i + 1] && later[i + 1] == runs[i + 2] && rest[i] == rs[i + 1];
      }
      LogsChain(rest, later);
      assert later[|rest|] == runs[|rs|];
      assert [rs[0]] + (rest + runs[|rs|].log) == rs + runs[|rs|].log;
    }
  }

  /** `read1` accepts `rs[i]` at `ps[i]` and moves to `ps[i + 1]`, for each
      `i`, and then fails with `stop`, as written and corrected alike:
      `read` logs exactly `rs` and stops with `stop`, and so does `read` as
      written given one call of `read1` more than there are entries. */
  lemma ReadStopsAfterChain(data: seq<u8>, rs: seq<Report>, ps: seq<nat>, stop: DecodeError)
    requires |ps| == |rs| + 1
    requires forall i | 0 <= i < |rs| :: Read1At(data, ps[i]) == Step(Ok(rs[i]), ps[i + 1])
    requires forall i | 0 <= i < |rs| :: Read1AsWritten(data, ps[i]) == Read1At(data, ps[i])
    requires Read1At(data, ps[|rs|]).out == Err(stop)
    requires Read1AsWritten(data, ps[|rs|]) == Read1At(data, ps[|rs|])
    ensures ReadAll(data, ps[0]) == Decoded(rs, stop)
    ensures forall fuel: nat | fuel > |rs| :: ReadAsWrittenFor(data, ps[0], fuel) == Some(Decoded(rs, stop))
  {
    ReadAllPrefix(data, rs, ps);
    ReadAllFails(data, ps[|rs|], stop);
    LogsEnd(rs, ReadAll(data, ps[0]), ReadAll(data, ps[|rs|]));
    AsWrittenStopsAfterChain(data, rs, ps, stop);
  }

  /** A run that logs `rs` and then what a run logging nothing does. */
  lemma LogsEnd(rs: seq<Report>, whole: Decoded, tail: Decoded)
    requires whole == Decoded(rs + tail.log, tail.stop) && tail.log == []
    ensures whole == Decoded(rs, tail.stop)
  {
    assert rs + [] == rs;
  }

  /** Where `read1` fails with `stop`, `read` logs nothing and stops with it. */
  lemma ReadAllFails(data: seq<u8>, pos: nat, stop: DecodeError)
    requires Read1At(data, pos).out == Err(stop)
    ensures ReadAll(data, pos) == Decoded([], stop)
  {
    ReadAllSteps(data, pos);
  }

  /** The half of `ReadStopsAfterChain` about `read` as written. */
  lemma AsWrittenStopsAfterChain(data: seq<u8>, rs: seq<Report>, ps: seq<nat>, stop: DecodeError)
    requires |ps| == |rs| + 1
    requires forall i | 0 <= i < |rs| :: Read1At(data, ps[i]) == Step(Ok(rs[i]), ps[i + 1])
    requires forall i | 0 <= i < |rs| :: Read1AsWritten(data, ps[i]) == Read1At(data, ps[i])
    requires Read1AsWritten(data, ps[|rs|]).out == Err(stop)
    ensures forall fuel: nat | fuel > |rs| :: ReadAsWrittenFor(data, ps[0], fuel) == Some(Decoded(rs, stop))
  {
    forall fuel: nat | fuel > |rs|
      ensures ReadAsWrittenFor(data, ps[0], fuel) == Some(Decoded(rs, stop))
    {
      ReadWithChain(Read1AsWritten, data, rs, ps, fuel);
    }
  }

  /** At the end of the data `read` logs nothing and stops at `Exhausted`. */
  lemma ReadAllAtEnd(data: seq<u8>, pos: nat)
    requires |data| <= pos
    ensures ReadAll(data, pos) == Decoded([], Exhausted)
  {
    ReadAllSteps(data, pos);
    Read1Failures(data, pos);
  }

  /** Where `read1` as written accepts `rs[i]` at `ps[i]` and moves to
      `ps[i + 1]`, for each `i`, and the last position is at the end of the
      data, `read` as written logs exactly `rs` and stops at `Exhausted`
      within `|rs| + 1` calls of `read1`. */
  lemma ReadAsWrittenChain(data: seq<u8>, rs: seq<Report>, ps: seq<nat>, fuel: nat)
    requires |ps| == |rs| + 1 && |data| <= ps[|rs|] && fuel > |rs|
    requires forall i | 0 <= i < |rs| :: Read1AsWritten(data, ps[i]) == Step(Ok(rs[i]), ps[i + 1])
    ensures ReadAsWrittenFor(data, ps[0], fuel) == Some(Decoded(rs, Exhausted))
  {
    ReadMetaOutcomes(data, ps[|rs|]);
    ReadWithChain(Read1AsWritten, data, rs, ps, fuel);
  }

  /** The chain argument for any entry reader: accepted entries in a row,
      then a failure, which ends `read`. */
  lemma {:induction false} ReadWithChain(read1: (seq<u8>, nat) -> Step<Result<Report>>, data: seq<u8>,
                                          rs: seq<Report>, ps: seq<nat>, fuel: nat)
    requires |ps| == |rs| + 1 && fuel > |rs|
    requires forall i | 0 <= i < |rs| :: read1(data, ps[i]) == Step(Ok(rs[i]), ps[i + 1])
    requires read1(data, ps[|rs|]).out.Err?
    ensures ReadWith(read1, data, ps[0], fuel) == Some(Decoded(rs, read1(data, ps[|rs|]).out.error))
    decreases |rs|
  {
    if |rs| > 0 {
      var rest, later := rs[1..], ps[1..];
      forall i | 0 <= i < |rest|
        ensures read1(data, later[i]) == Step(Ok(rest[i]), later[i + 1])
      {
        assert later[i] == ps[i + 1] && later[i + 1] == ps[i + 2] && rest[i] == rs[i + 1];
      }
      ReadWithChain(read1, data, rest, later, fuel - 1);
      assert rs == [rs[0]] + rest;
    }
  }

  lemma LogAssociates(log: seq<Report>, r: Report, rest: seq<Report>)
    ensures log + ([r] + rest) == (log + [r]) + rest
  {
  }

  /** `read_meta` accepts exactly when 40 bytes are left and bytes 24-27 of
      them spell the magic number; it fails with `Exhausted` exactly when
      fewer are left, and with `Header` otherwise. */
  lemma ReadMetaOutcomes(data: seq<u8>, pos: nat)
    ensures ReadMetaAt(data, pos).out == Err(Exhausted) <==> Remaining(data, pos) < SIZE
    ensures ReadMetaAt(data, pos).out.Ok? <==>
      pos + SIZE <= |data| && data[pos + 24..pos + 28] == Le32(MAGIC)
    ensures ReadMetaAt(data, pos).out.Ok? ==>
      ReadMetaAt(data, pos).out.value == Decode(data[pos..pos + SIZE]) && ReadMetaAt(data, pos).pos == pos + SIZE
    ensures ReadMetaAt(data, pos).out.Err? ==> ReadMetaAt(data, pos).out.error in {Exhausted, Header}
  {
    if pos + SIZE <= |data| {
      ReadExactInside(data, pos, SIZE);
      CheckReadsMagicBytes(data[pos..pos + SIZE]);
      SliceOfSlice(data, pos, pos + SIZE, 24, 28);
    }
  }

  lemma SliceOfSlice(s: seq<u8>, lo: nat, hi: nat, i: nat, j: nat)
    requires lo <= hi <= |s| && i <= j <= hi - lo
    ensures s[lo..hi][i..j] == s[lo + i..lo + j]
  {
    assert forall k | 0 <= k < j - i :: s[lo..hi][i..j][k] == s[lo + i + k];
  }

  /** How `read1` fails: a short header is `Exhausted`, a header without
      the magic number is `Header`, a short path or a size that cannot be
      skipped is `Crop`, and `Footer` and `Checksum` never occur. */
  lemma Read1Failures(data: seq<u8>, pos: nat)
    ensures Remaining(data, pos) < SIZE ==> Read1At(data, pos).out == Err(Exhausted)
    ensures pos + SIZE <= |data| && !Decode(data[pos..pos + SIZE]).Check() ==>
      Read1At(data, pos).out == Err(Header)
    ensures pos + SIZE <= |data| && Decode(data[pos..pos + SIZE]).Check() ==>
      var header := Decode(data[pos..pos + SIZE]);
      && (header.pathLen > |data| - (pos + SIZE) ==> Read1At(data, pos).out == Err(Crop))
      && (header.pathLen <= |data| - (pos + SIZE) && header.fileSize >= I64_LIMIT ==>
            Read1At(data, pos).out == Err(Crop))
    ensures Read1At(data, pos).out.Err? ==> Read1At(data, pos).out.error in {Exhausted, Header, Crop}
  {
    ReadMetaOutcomes(data, pos);
    var h := ReadMetaAt(data, pos);
    if h.out.Ok? {
      var p := ReadExactAt(data, h.pos, h.out.value.pathLen);
      if p.out.Some? && h.out.value.fileSize < I64_LIMIT {
        ReadMetaOutcomes(data, SeekAt(p.pos, h.out.value.fileSize).pos);
      }
    }
  }

  /** When `read_meta` accepts a header at `pos`, the path it announces
      follows it, and `read_meta` accepts the record after the body too,
      `read1` accepts the entry: it reports the header and the path, and
      leaves the stream at `next`, just past the footer. */
  lemma Read1Accepts(data: seq<u8>, pos: nat, header: Metadata, path: seq<u8>, footer: Metadata, next: nat)
    requires ReadMetaAt(data, pos) == Step(Ok(header), pos + SIZE)
    requires header.pathLen == |path| && pos + SIZE + |path| <= |data| && data[pos + SIZE..pos + SIZE + |path|] == path
    requires header.fileSize < I64_LIMIT
    requires next == pos + 2 * SIZE + header.pathLen + header.fileSize <= POS_LIMIT
    requires ReadMetaAt(data, next - SIZE) == Step(Ok(footer), next)
    ensures Read1At(data, pos) == Step(Ok(Report(header, path)), next)
  {
    ReadExactInside(data, pos + SIZE, header.pathLen);
  }

  /** Once the header is read and the path fits, `read1` seeks past the
      body and ends with the footer read there; a seek past the largest
      position is `Crop`. */
  lemma Read1AfterPath(data: seq<u8>, pos: nat, header: Metadata)
    requires ReadMetaAt(data, pos) == Step(Ok(header), pos + SIZE)
    requires pos + SIZE + header.pathLen <= |data|
    requires header.fileSize < I64_LIMIT
    ensures var footerPos := pos + SIZE + header.pathLen + header.fileSize;
      && (footerPos >= POS_LIMIT ==> Read1At(data, pos).out == Err(Crop))
      && (footerPos < POS_LIMIT ==>
            Read1At(data, pos) == FinishEntry(data, footerPos, Report(header, data[pos + SIZE..pos + SIZE + header.pathLen])))
  {
    ReadExactInside(data, pos + SIZE, header.pathLen);
  }

  /** What an accepted entry is: a header that passes `check` at `pos`,
      the path it announces right after it, a size below 2^63, and a
      footer that passes `check` right after the body. `read1` reports the
      header and the path and moves forward by both records, the path and
      the body. */
  predicate AcceptedAt(data: seq<u8>, pos: nat, s: Step<Result<Report>>)
  {
    s.out.Ok? ==>
      && pos + SIZE <= |data|
      && EntryAround(data, pos, Decode(data[pos..pos + SIZE]), s)
  }

  /** The header `header` read at `pos` passes `check`, its path fits,
      its size is below 2^63, a footer that passes `check` follows the
      body, and `s` reports the header and the path just past the footer. */
  predicate EntryAround(data: seq<u8>, pos: nat, header: Metadata, s: Step<Result<Report>>)
  {
    var footerPos := pos + SIZE + header.pathLen + header.fileSize;
    && header.Check() && header.fileSize < I64_LIMIT
    && pos + SIZE + header.pathLen <= |data|
    && footerPos + SIZE <= |data| && Decode(data[footerPos..footerPos + SIZE]).Check()
    && s == Step(Ok(Report(header, data[pos + SIZE..pos + SIZE + header.pathLen])), footerPos + SIZE)
  }

  /** Whatever `read1` accepts is an entry as `AcceptedAt` describes it. */
  lemma Read1Success(data: seq<u8>, pos: nat)
    ensures AcceptedAt(data, pos, Read1At(data, pos))
  {
    var s := Read1At(data, pos);
    ReadMetaOutcomes(data, pos);
    Read1Failures(data, pos);
    if s.out.Ok? {
      var header := Decode(data[pos..pos + SIZE]);
      Read1AfterPath(data, pos, header);
      AcceptedEntry(data, pos, header, s);
    }
  }

  /** An entry whose footer read succeeds after a header that passes
      `check`, a path that fits and a size below 2^63. */
  lemma AcceptedEntry(data: seq<u8>, pos: nat, header: Metadata, s: Step<Result<Report>>)
    requires header.Check() && header.fileSize < I64_LIMIT
    requires pos + SIZE + header.pathLen <= |data|
    requires s == FinishEntry(data, pos + SIZE + header.pathLen + header.fileSize,
                              Report(header, data[pos + SIZE..pos + SIZE + header.pathLen]))
    requires s.out.Ok?
    ensures EntryAround(data, pos, header, s)
  {
    var footerPos := pos + SIZE + header.pathLen + header.fileSize;
    FinishEntryOutcomes(data, footerPos, Report(header, data[pos + SIZE..pos + SIZE + header.pathLen]));
    MagicPassesCheck(data, footerPos);
  }

  /** Forty bytes at `pos` whose bytes 24-27 spell the magic number decode
      to a record that passes `check`. */
  lemma MagicPassesCheck(data: seq<u8>, pos: nat)
    requires pos + SIZE <= |data| && data[pos + 24..pos + 28] == Le32(MAGIC)
    ensures Decode(data[pos..pos + SIZE]).Check()
  {
    CheckReadsMagicBytes(data[pos..pos + SIZE]);
    SliceOfSlice(data, pos, pos + SIZE, 24, 28);
  }

  /** `read1` as written, once the header is read and the path fits: the
      seek goes by `file_size as i64`, so a size of 2^63 or more moves the
      stream back by 2^64 minus the size. A target before the start is
      `Crop`; otherwise the entry ends with the footer read there. */
  lemma Read1AsWrittenAfterPath(data: seq<u8>, pos: nat, header: Metadata)
    requires ReadMetaAt(data, pos) == Step(Ok(header), pos + SIZE)
    requires pos + SIZE + header.pathLen <= |data| <= POS_LIMIT
    ensures var target := pos + SIZE + header.pathLen + header.fileSize - (if header.fileSize < I64_LIMIT then 0 else POS_LIMIT);
      && (target < 0 || target >= POS_LIMIT ==> Read1AsWritten(data, pos).out == Err(Crop))
      && (0 <= target < POS_LIMIT ==>
            Read1AsWritten(data, pos) == FinishEntry(data, target, Report(header, data[pos + SIZE..pos + SIZE + header.pathLen])))
    ensures header.fileSize >= I64_LIMIT ==>
      (Read1AsWritten(data, pos).out == Err(Crop) <==> pos + SIZE + header.pathLen + header.fileSize < POS_LIMIT)
  {
    Read1AsWrittenSeeks(data, pos, header);
    SeekThenFooter(data, pos + SIZE + header.pathLen, header.fileSize,
                   Report(header, data[pos + SIZE..pos + SIZE + header.pathLen]), Read1AsWritten(data, pos));
  }

  lemma Read1AsWrittenSeeks(data: seq<u8>, pos: nat, header: Metadata)
    requires ReadMetaAt(data, pos) == Step(Ok(header), pos + SIZE)
    requires pos + SIZE + header.pathLen <= |data|
    ensures var target := pos + SIZE + header.pathLen + header.fileSize - (if header.fileSize < I64_LIMIT then 0 else POS_LIMIT);
      Read1AsWritten(data, pos) ==
        if 0 <= target < POS_LIMIT then FinishEntry(data, target, Report(header, data[pos + SIZE..pos + SIZE + header.pathLen]))
        else Step(Err(Crop), pos + SIZE + header.pathLen)
  {
    ReadExactInside(data, pos + SIZE, header.pathLen);
    AsWrittenOffset(header.fileSize);
  }

  /** The outcome `s` of a seek from `p` by the as-written offset of `size`
      followed by the footer read. */
  lemma SeekThenFooter(data: seq<u8>, p: nat, size: u64, report: Report, s: Step<Result<Report>>)
    requires p <= |data| <= POS_LIMIT
    requires var target := p + size - (if size < I64_LIMIT then 0 else POS_LIMIT);
      s == if 0 <= target < POS_LIMIT then FinishEntry(data, target, report) else Step(Err(Crop), p)
    ensures var target := p + size - (if size < I64_LIMIT then 0 else POS_LIMIT);
      && (target < 0 || target >= POS_LIMIT ==> s.out == Err(Crop))
      && (0 <= target < POS_LIMIT ==> s == FinishEntry(data, target, report))
    ensures size >= I64_LIMIT ==> (s.out == Err(Crop) <==> p + size < POS_LIMIT)
  {
    var target := p + size - (if size < I64_LIMIT then 0 else POS_LIMIT);
    if 0 <= target < POS_LIMIT {
      FinishEntryOutcomes(data, target, report);
    }
  }

  /** As written, the body is skipped by the size itself below 2^63 and by
      the size minus 2^64 from there on. */
  lemma AsWrittenOffset(size: u64)
    ensures BodyOffset(size, false) == Some(size - (if size < I64_LIMIT then 0 else POS_LIMIT))
  {
  }

  /** The footer read: a short read is `Exhausted` (so is a body that runs
      into the end of the data), a footer without the magic number is
      `Header`, and an accepted footer reports the entry and leaves the
      stream just past it. */
  lemma FinishEntryOutcomes(data: seq<u8>, footerPos: nat, report: Report)
    ensures FinishEntry(data, footerPos, report).out == Err(Exhausted) <==> Remaining(data, footerPos) < SIZE
    ensures FinishEntry(data, footerPos, report).out == Err(Header) <==>
      footerPos + SIZE <= |data| && data[footerPos + 24..footerPos + 28] != Le32(MAGIC)
    ensures FinishEntry(data, footerPos, report).out.Ok? <==>
      footerPos + SIZE <= |data| && data[footerPos + 24..footerPos + 28] == Le32(MAGIC)
    ensures FinishEntry(data, footerPos, report).out.Ok? ==>
      FinishEntry(data, footerPos, report) == Step(Ok(report), footerPos + SIZE)
    ensures FinishEntry(data, footerPos, report).out != Err(Crop)
  {
    ReadMetaOutcomes(data, footerPos);
  }

  /** A read that fits in the data yields exactly the bytes it covers. */
  lemma ReadExactInside(data: seq<u8>, pos: nat, n: nat)
    requires pos + n <= |data|
    ensures ReadExactAt(data, pos, n) == Step(Some(data[pos..pos + n]), pos + n)
  {
    if n == 0 {
      assert data[pos..pos] == [];
    }
  }

  /** `read` stops with one of the errors `read1` produces. */
  lemma {:induction false} ReadStops(data: seq<u8>, pos: nat)
    ensures ReadAll(data, pos).stop in {Exhausted, Header, Crop}
    decreases Remaining(data, pos)
  {
    Read1Failures(data, pos);
    ReadAllSteps(data, pos);
    if Read1At(data, pos).out.Ok? {
      ReadStops(data, Read1At(data, pos).pos);
    }
  }

  /** The two readings of `read1` differ only on a header whose size is 2^63
      or more, which the cast turns into a backward seek. */
  lemma AsWrittenDiffersOnlyOnHugeSizes(data: seq<u8>, pos: nat)
    ensures Read1AsWritten(data, pos) != Read1At(data, pos) ==>
      pos + SIZE <= |data| && Decode(data[pos..pos + SIZE]).fileSize >= I64_LIMIT
  {
    ReadMetaOutcomes(data, pos);
  }

  /** An entry cut short: the data ends before the entry does, and its
      header, where all 40 bytes of it are there, reads as `header`.
      `read1` reports nothing for it: it gives `Crop` when the cut falls
      inside the path and `Exhausted` otherwise, as written and corrected
      alike. */
  lemma CutEntry(data: seq<u8>, pos: nat, header: Metadata, end: nat)
    requires header.Check() && header.fileSize < I64_LIMIT
    requires |data| < end == pos + 2 * SIZE + header.pathLen + header.fileSize <= POS_LIMIT
    requires pos + SIZE <= |data| ==> Decode(data[pos..pos + SIZE]) == header
    ensures Read1At(data, pos).out ==
      Err(if pos + SIZE <= |data| < pos + SIZE + header.pathLen then Crop else Exhausted)
    ensures Read1AsWritten(data, pos) == Read1At(data, pos)
  {
    Read1Failures(data, pos);
    AsWrittenDiffersOnlyOnHugeSizes(data, pos);
    if pos + SIZE + header.pathLen <= |data| {
      ReadExactInside(data, pos, SIZE);
      assert ReadMetaAt(data, pos) == Step(Ok(header), pos + SIZE);
      Read1AfterPath(data, pos, header);
      FinishEntryOutcomes(data, pos + SIZE + header.pathLen + header.fileSize,
                          Report(header, data[pos + SIZE..pos + SIZE + header.pathLen]));
    }
  }

  /** A directory record with no path and no body. */
  const StallFooter: Metadata := Metadata(0, 0, 0, 0, 0, 0, MAGIC, 1, 0)
  /** A directory header (`DIR | HEADER`) with no path whose size is
      2^64 - 80: as an i64, -80. */
  const StallHeader: Metadata := Metadata(0, POS_LIMIT - 2 * SIZE, 0, 0, 0, 0, MAGIC, 9, 0)

  /** Two empty directory records, then a header whose size reads as -80. */
  function StallArchive(): seq<u8>
  {
    StallFooter.Layout() + StallFooter.Layout() + StallHeader.Layout()
  }

  /** As written, `read1` accepts the first 80 bytes, and then, at position
      80, seeks back 80 bytes, accepts the earlier record as a footer and
      returns success at position 80 again: the `while let Ok` loop of
      `read` never ends. With the size checked, the same entry is `Crop`. */
  lemma AsWrittenReadStalls()
    ensures Read1AsWritten(StallArchive(), 0).out.Ok? && Read1AsWritten(StallArchive(), 0).pos == 2 * SIZE
    ensures Read1AsWritten(StallArchive(), 2 * SIZE).out.Ok?
    ensures Read1AsWritten(StallArchive(), 2 * SIZE).pos == 2 * SIZE
    ensures Read1At(StallArchive(), 2 * SIZE).out == Err(Crop)
    ensures ReadAll(StallArchive(), 0).stop == Crop
  {
    StallFirstEntry(StallFooter, StallHeader);
    StallSecondEntry(StallFooter, StallHeader);
  }

  /** As written, `read` on the stalling archive never stops: however
      many calls of `read1` are allowed, every one of them succeeds. */
  lemma AsWrittenReadNeverEnds(fuel: nat)
    ensures ReadAsWrittenFor(StallArchive(), 0, fuel).None?
  {
    AsWrittenReadStalls();
    StalledReadNeverEnds(Read1AsWritten, StallArchive(), 0, 2 * SIZE, fuel);
  }

  /** Once the entry reader accepts an entry and returns to where it
      started, `read` with it never stops. */
  lemma {:induction false} StalledReadNeverEnds(read1: (seq<u8>, nat) -> Step<Result<Report>>, data: seq<u8>,
                                                pos: nat, loop: nat, fuel: nat)
    requires read1(data, pos).out.Ok? && read1(data, pos).pos == loop
    requires read1(data, loop).out.Ok? && read1(data, loop).pos == loop
    ensures ReadWith(read1, data, pos, fuel).None?
    decreases fuel
  {
    if fuel > 0 {
      StalledReadNeverEnds(read1, data, loop, loop, fuel - 1);
    }
  }

  /** The three records of a stalling archive, read back. */
  lemma StallRecords(a: Metadata, b: Metadata)
    requires a.Check() && b.Check()
    ensures ReadMetaAt(a.Layout() + a.Layout() + b.Layout(), 0) == Step(Ok(a), SIZE)
    ensures ReadMetaAt(a.Layout() + a.Layout() + b.Layout(), SIZE) == Step(Ok(a), 2 * SIZE)
    ensures ReadMetaAt(a.Layout() + a.Layout() + b.Layout(), 2 * SIZE) == Step(Ok(b), 3 * SIZE)
  {
    var x, y := a.Layout(), b.Layout();
    var data := x + x + y;
    assert data[0..40] == x && data[40..80] == x && data[80..120] == y;
    LayoutRoundTrip(a);
    LayoutRoundTrip(b);
  }

  lemma StallFirstEntry(a: Metadata, b: Metadata)
    requires a.Check() && b.Check() && a.pathLen == 0 && a.fileSize == 0
    ensures Read1AsWritten(a.Layout() + a.Layout() + b.Layout(), 0).out.Ok?
    ensures Read1AsWritten(a.Layout() + a.Layout() + b.Layout(), 0).pos == 2 * SIZE
    ensures Read1At(a.Layout() + a.Layout() + b.Layout(), 0).out.Ok?
    ensures Read1At(a.Layout() + a.Layout() + b.Layout(), 0).pos == 2 * SIZE
  {
    StallRecords(a, b);
  }

  lemma StallSecondEntry(a: Metadata, b: Metadata)
    requires a.Check() && b.Check() && a.pathLen == 0 && a.fileSize == 0
    requires b.pathLen == 0 && b.fileSize == POS_LIMIT - 2 * SIZE
    ensures Read1AsWritten(a.Layout() + a.Layout() + b.Layout(), 2 * SIZE).out.Ok?
    ensures Read1AsWritten(a.Layout() + a.Layout() + b.Layout(), 2 * SIZE).pos == 2 * SIZE
    ensures Read1At(a.Layout() + a.Layout() + b.Layout(), 2 * SIZE).out == Err(Crop)
    ensures ReadAll(a.Layout() + a.Layout() + b.Layout(), 0).stop == Crop
  {
    var data := a.Layout() + a.Layout() + b.Layout();
    StallRecords(a, b);
    StallFirstEntry(a, b);
    ReadAllSteps(data, 0);
    ReadAllSteps(data, 2 * SIZE);
  }
}
