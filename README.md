# bitumen archive codec, modelled in Dafny

This is a model of bitumen's archive format and of the code that writes and reads it.
Each archived file-system object becomes one entry with four parts:

- a 40-byte header metadata record;
- the raw bytes of the object's path;
- the file's body, which is empty for a directory;
- a 40-byte footer metadata record.

Each record holds:

- the modification time;
- the body size;
- the path length;
- permissions and ownership (always zero);
- the magic number `0x2f968b6a`;
- a `flags` word;
- a CRC-32 checksum of the first 32 bytes.

In `flags`, bits 0-1 give the kind (file, directory, soft link, hard link). Bit 3 (`HEADER`) is set in the header and clear in the footer.

The project has these modules:

- `Bits` and `Flags` (`flags.dfy`): the flag constants and the bit operations on them.
- `LittleEndian` (`little_endian.dfy`): unsigned machine integers and their little-endian byte images.
- `Crc32` (`crc32.dfy`): the checksum routine. It is proved equal to the reflected CRC-32 of IEEE 802.3.
- `Record` (`metadata.dfy`): the metadata record, covering `check`, `kind`, `compute_checksum`, `set_checksum`, `as_bytes_without_checksum`, `as_bytes` and reading a record back from 40 bytes.
- `Encoder` (`encoder.dfy`): `append_to_archive` over an output stream modelled as a class that accumulates bytes.
- `TreeArchive` (`tree_archive.dfy`): `recursive_archive` and its `find` walk. Directories are written first, then every other object, each group in walk order.
- `Decoder` (`decoder.dfy`): `read_meta`, `read1` and `read`, over an in-memory cursor. The cursor follows Rust's `io::Cursor`:
  - a short `read_exact` fails and leaves the cursor at the end;
  - a seek by a signed offset fails when the target would be negative or past `u64::MAX`.
- `RoundTrip` (`roundtrip.dfy`): reading back what the writer wrote.
  - Every entry whose path is shorter than 2^16 bytes and whose size is below 2^63 is accepted by `read1`, in a stream of at most 2^64 bytes.
  - `read1` as written reads such an entry exactly as the corrected `read1` does.
  - Under the same bounds, `read` over the archive of a whole tree reports every object in archive order, then stops with `Exhausted`.
  - Over such entries cut off after any number of bytes, `read` reports exactly the whole entries before the cut. It then stops with `Crop` when the cut falls inside a path and with `Exhausted` otherwise.

## Model

| member | source | states |
|---|---|---|
| Flags.KindsAreTheKindBits | src/flags.rs:1-11 | The four kind constants are pairwise distinct, each equals its own two low bits, and the two low bits of any flags word are one of them. |
| Flags.HeaderIsBitThree | src/flags.rs:13-15 | `HEADER` is the single bit 3 and shares no bit with the kind mask. |
| Flags.HeaderBitKeepsKind | src/flags.rs:13-15 | Setting `HEADER` in a flags word keeps its kind bits and sets bit 3. Every other bit is unchanged. |
| Flags.SetHeaderFits | src/lib.rs:159 | `flags \|= HEADER` on a u32 word gives a u32 word. |
| LittleEndian.ToLeRoundTrip | src/lib.rs:228 | Decoding the n-byte little-endian image of a value below 256^n gives the value back. |
| LittleEndian.FromLeRoundTrip | src/lib.rs:228 | Re-encoding the value of any byte string in as many bytes gives the same bytes. |
| LittleEndian.Le16RoundTrip | src/lib.rs:20-23 | The 2-byte field codec is a bijection between u16 values and 2-byte strings. |
| LittleEndian.Le32RoundTrip | src/lib.rs:24-27 | The 4-byte field codec is a bijection between u32 values and 4-byte strings. |
| LittleEndian.Le64RoundTrip | src/lib.rs:18-19 | The 8-byte field codec is a bijection between u64 values and 8-byte strings. |
| Crc32.ComputeDigest | src/crc32.rs:3-16 | The nested loop yields `Digest(bytes)`, the fold of the per-byte register update finished by reversal and complement. |
| Crc32.ShiftOnce | src/crc32.rs:8-12 | One pass of the inner loop is one step of polynomial division, MSB first. |
| Crc32.RegisterAppend | src/crc32.rs:4-14 | The register is a left fold: the register over `a + b` is the register over `b` started from the register after `a`. |
| Crc32.PrefixRegisterDeterminesDigest | src/crc32.rs:4-15 | Two inputs that leave the same register give the same digest, whatever follows them. |
| Crc32.EmptyDigest | src/crc32.rs:4-15 | The register starts all ones, and the digest of no bytes is 0. |
| Crc32.ReverseShift | src/crc32.rs:7-13 | An MSB-first step with `POLYNOMIAL`, viewed bit-reversed, is an LSB-first step with 0xEDB88320. |
| Crc32.ReverseRegister | src/crc32.rs:5-14 | Absorbing any byte string MSB-first on reversed bytes mirrors the reflected algorithm on the plain bytes. |
| Crc32.DigestIsStandardCrc32 | src/crc32.rs:1-16 | `digest` equals the standard reflected CRC-32, an independently defined reference, on every input. |
| Crc32.CheckValue | src/crc32.rs:1-16 | The digest of "123456789" is the standard check value 0xCBF43926. |
| Crc32.Digest | src/crc32.rs:3-16 | The specification of `digest`. `ComputeDigest` computes it, `DigestIsStandardCrc32` equates it with the standard CRC-32, and `FlagBitChangesDigest` shows it separates inputs that differ in one flag bit. |
| Crc32.ShiftXor | src/crc32.rs:8-12 | One pass of the inner loop is linear over XOR, whichever of the two registers has its top bit set. |
| Crc32.ShiftsXor | src/crc32.rs:7-13 | The eight passes of the inner loop are linear over XOR. |
| Crc32.InputXor | src/crc32.rs:6 | Feeding a byte into the register's top 8 bits is linear in the register and the byte together. |
| Crc32.AbsorbXor | src/crc32.rs:6-13 | Absorbing one byte is linear in the register and the byte together. |
| Crc32.RegisterXor | src/crc32.rs:5-14 | The registers left by two inputs of one length differ by the register of their byte-wise difference, started from the difference of the start values. |
| Crc32.FlagBitRegister | src/crc32.rs:5-14 | From a zero register, the bytes 0x08, 0, 0, 0 leave 0xF7142DA3. |
| Crc32.FinishSeparates | src/crc32.rs:15 | The last step, reversal and complement, maps different registers to different digests. |
| Crc32.FlagBitChangesDigest | src/crc32.rs:3-16 | Two inputs that differ only in bit 3 of the fourth byte from the end, with the last three bytes zero, have different digests. |
| Record.Metadata.Kind | src/lib.rs:39-48 | The label is File, Directory, Soft Link or Hard Link exactly when the two low flag bits are FILE, DIR, SOFT_LINK or HARD_LINK. Every flags word has a label, so the `unreachable!` arm is unreachable. |
| Record.Metadata.WithHeaderBit | src/lib.rs:158-159 | The header copy differs from the shared record only in `flags`. It has the same kind and bit 3 set. |
| Record.Metadata.PrefixBytes | src/lib.rs:64-73 | The bytes before the checksum are 32 bytes. |
| Record.Metadata.Layout | src/lib.rs:15-28 | The byte image of a record is 40 bytes. |
| Record.Metadata.Check | src/lib.rs:31-37 | The predicate `check` decides: the magic field is `MAGIC`. On bytes read from a stream, `CheckReadsMagicBytes` states it as bytes 24-27 spelling `MAGIC`. |
| Record.ChecksumIsStandardCrc32 | src/lib.rs:50-53 | The checksum `compute_checksum` gives a record is the standard CRC-32 of its 32 prefix bytes. |
| Record.Metadata.ChecksumValid | src/lib.rs:60-62 | The predicate `assert_checksum_valid` asserts: the stored checksum is the computed one. `WithChecksum` and `SetChecksum` establish it, and `AsBytes` requires it. |
| Record.Metadata.WithChecksum | src/lib.rs:55-58 | After `set_checksum` the checksum is valid, and every other field is as it was. |
| Record.Metadata.SetChecksum | src/lib.rs:50-58 | The loop-computed CRC of the prefix, once stored, gives the record `WithChecksum` describes, and so passes `assert_checksum_valid`. |
| Record.Metadata.AsBytes | src/lib.rs:75-83 | The image is 40 bytes. It is only available when the checksum is valid. |
| Record.ToBits | src/lib.rs:50-53 | The prefix is handed to the CRC byte for byte, with its length kept. |
| Record.LayoutSlices | src/lib.rs:15-28 | Each field sits at its `repr(C)` offset in little-endian order: time 0-7, size 8-15, path length, permissions, owner and group 16-23, magic 24-27, flags 28-31, checksum 32-35, zero padding 36-39. The prefix is bytes 0-31. |
| Record.LayoutRoundTrip | src/lib.rs:228 | Reading the 40-byte image of any record back, as `read_meta`'s transmute does, gives the same record. |
| Record.DecodeRoundTrip | src/lib.rs:228 | Any 40 bytes with zero padding are exactly the image of the record they decode to. |
| Record.PrefixIgnoresChecksum | src/lib.rs:92-105 | The prefix bytes, and so the computed checksum, do not depend on the `checksum` field. |
| Record.PrefixDeterminesPayload | src/lib.rs:64-73 | Two records have equal prefixes if and only if they agree on every field but the checksum. |
| Record.CheckReadsMagicBytes | src/lib.rs:31-37 | A decoded record passes `check` if and only if its bytes 24-27 spell `MAGIC` in little-endian order. |
| Record.Decode | src/lib.rs:228 | The transmute in `read_meta`, field by field. `LayoutRoundTrip` and `DecodeRoundTrip` show it inverts `Layout` on 40-byte images with zero padding. |
| Record.FlagBitChangesChecksum | src/lib.rs:50-53 | For a flags word below 8, setting bit 3 changes the computed checksum. |
| Record.DigestAsNumber | src/lib.rs:52 | A digest, read as a u32, stands for the standard CRC-32 of the same bytes. |
| Record.FlagBitPrefixes | src/lib.rs:64-73 | For flags below 8, the prefix ends with the flags byte and three zeros. Setting bit 3 changes that byte alone. |
| Encoder.Archive.constructor | src/bin/archiver.rs:6 | A fresh output stream is empty. |
| Encoder.Archive.Write | src/lib.rs:166-171 | A write appends exactly the given bytes. |
| Encoder.AppendToArchive | src/lib.rs:118-174 | The stream grows by exactly the entry: the header image, the path, the body (a directory has none) and the footer image. |
| Encoder.BaseRecord | src/lib.rs:145-156 | The record shared by header and footer, as one expression. `SharedRecord` computes it, and `EntryRecordsAgree`, `EntryPayload` and `EntryKinds` state its fields. |
| Encoder.HeaderRecord | src/lib.rs:158-160 | The header: the shared record with `HEADER` set, then checksummed. `EntryRecordsAgree` and `EntryKinds` state what it holds. |
| Encoder.FooterRecord | src/lib.rs:162-163 | The footer: the shared record, checksummed. `EntryRecordsAgree` and `EntryKinds` state what it holds. |
| Encoder.EntryBytes | src/lib.rs:166-171 | The bytes of one entry. `AppendToArchive` appends exactly them, `EntryShape` gives their layout, and `RoundTrip.ReadsEntry` reads them back. |
| Encoder.EntryImages | src/lib.rs:158-163 | The two record images, with the path and body between them, are the entry. |
| Encoder.EntryRecords | src/lib.rs:158-163 | The header is the shared record with `HEADER` set and its own checksum. The footer is the shared record with its own checksum. |
| Encoder.SharedRecord | src/lib.rs:132-156 | A file records its length and the FILE kind, and a directory records size 0 and the DIR kind. The path length is narrowed to 16 bits. Permissions, owner and group are 0, with `MAGIC` set. |
| Encoder.EntryShape | src/lib.rs:166-171 | The entry is 80 bytes plus the path and body, with the header image, path, body and footer image at the stated offsets. |
| Encoder.EntryRecordsAgree | src/lib.rs:145-163 | Both records pass `check` and carry valid checksums. They agree on every field but `flags` and `checksum`. The header's flags are the kind with `HEADER`; the footer's are the kind alone. The two checksums differ. |
| Encoder.EntryChecksumsDiffer | src/lib.rs:158-163 | The header's checksum differs from the footer's, because their prefixes differ in the header bit alone. |
| Encoder.HeaderBitAddsEight | src/lib.rs:159 | For the FILE and DIR kinds the writer stores, `flags \| HEADER` adds 8. |
| Encoder.EntryPayload | src/lib.rs:145-156 | The stored path length is the path length modulo 2^16, and the stored size is the body length. A directory has size 0 and no body. |
| Encoder.EntryKinds | src/lib.rs:132-163 | Header and footer report the same kind: File for a file, Directory for a directory. Their flags differ in bit 3 alone, which is set in the header. |
| TreeArchive.ArchiveOrder | src/lib.rs:190-203 | The order of the two loops: the collected directories, then the other objects. `ArchiveIsPermutation`, `DirectoriesFirst` and `GroupsKeepWalkOrder` state its properties, and `RecursiveArchive` writes in it. |
| TreeArchive.PreOrder | src/lib.rs:177-188 | The walk's first object is the node it starts from. |
| TreeArchive.Collected.constructor | src/lib.rs:190 | The collection starts empty. |
| TreeArchive.Collected.Push | src/lib.rs:178 | A push appends exactly one path. |
| TreeArchive.Find | src/lib.rs:177-191 | `find` appends the pre-order walk of the subtree: the node, then each child's subtree in turn. |
| TreeArchive.CollectedSnoc | src/lib.rs:181-184 | Collecting one more child extends the collection by exactly that child's subtree. |
| TreeArchive.RecursiveArchive | src/lib.rs:176-206 | The stream grows by the entries of the archive order: every collected directory, then every other object. |
| TreeArchive.AppendDirectories | src/lib.rs:193-197 | The first loop appends the entries of the collected directories, in collection order. |
| TreeArchive.AppendOthers | src/lib.rs:199-203 | The second loop appends the entries of the other objects, in collection order. |
| TreeArchive.EntriesSnoc | src/lib.rs:193-203 | Appending one more entry to a stream of entries gives the entries of the longer list. |
| TreeArchive.FiltersSnoc | src/lib.rs:193-203 | Each collected object joins exactly one of the two groups: directories or the rest. |
| TreeArchive.EntriesOfAppend | src/lib.rs:193-203 | Writing two lists of entries is writing their concatenation. |
| TreeArchive.FiltersOfAppend | src/lib.rs:193-203 | Both groupings distribute over concatenation. |
| TreeArchive.FiltersPartition | src/lib.rs:193-203 | Between them, the two groups hold every collected object exactly once. |
| TreeArchive.FilterKinds | src/lib.rs:193-203 | The first group holds only directories and the second none. |
| TreeArchive.FiltersOfDirs | src/lib.rs:193-197 | A list of directories goes wholly into the first group. |
| TreeArchive.FiltersOfNonDirs | src/lib.rs:199-203 | A list without directories goes wholly into the second group. |
| TreeArchive.ArchiveIsPermutation | src/lib.rs:176-206 | The archive writes every collected object exactly once, as a permutation of the walk. |
| TreeArchive.DirectoriesFirst | src/lib.rs:193-203 | Position i of the archive holds a directory if and only if i is below the number of directories. |
| TreeArchive.GroupsKeepWalkOrder | src/lib.rs:193-203 | Within each group the archive keeps the order of the walk. |
| TreeArchive.RootFirst | src/lib.rs:176-203 | The walk starts at the root, and so does the archive, because the root is a directory or the only object. |
| TreeArchive.PreOrderAllOfAppend | src/lib.rs:181-184 | Walking two lists of siblings is walking each in turn. |
| TreeArchive.SubtreeFollowsParent | src/lib.rs:177-188 | Each child's whole subtree follows its directory as one contiguous run, after the subtrees of the earlier children. |
| Decoder.ReadExactAt | src/lib.rs:223-226 | `read_exact` fails if and only if fewer than n bytes remain. Otherwise it yields exactly the next n bytes and advances by n. |
| Decoder.SeekAt | src/lib.rs:248-253 | A relative seek succeeds if and only if the target lies in 0..2^64. On success it moves to the target; on failure it stays put. |
| Decoder.AsI64 | src/lib.rs:249 | `file_size as i64` reads the same 64 bits as two's complement. The result lies in the i64 range, plus 2^64 when negative it is the size, and it is negative exactly for sizes of 2^63 or more. |
| Decoder.ReadMetaAt | src/lib.rs:221-235 | The specification of `read_meta`. `ReadMetaOutcomes` states its outcomes, and `ReadMeta` computes it on the cursor. |
| Decoder.Read1AsWritten | src/lib.rs:237-264 | `read1` as written. `Read1AsWrittenAfterPath` states its backward seek, and `AsWrittenDiffersOnlyOnHugeSizes` states where it differs from `Read1At`. |
| Decoder.Read1At | src/lib.rs:237-264 | An accepted entry advances the stream by at least its two records and leaves it within the data. |
| Decoder.ReadAll | src/lib.rs:265-267 | The specification of `read`. `Read` computes it, and `ReadAllChain`, `ReadStops` and `RoundTrip.ReadsImages` state its properties. |
| Decoder.ReadAsWrittenFor | src/lib.rs:265-267 | `read` with `read1` as written, for at most a given number of calls of `read1`. `ReadAsWrittenChain` states its outcome on a chain of entries, and `AsWrittenReadNeverEnds` shows a bound alone cannot be dropped. |
| Decoder.Cursor.constructor | src/bin/archiver.rs:10 | The cursor starts at position 0 of the archive bytes. |
| Decoder.Cursor.ReadExact | src/lib.rs:241-245 | The cursor's `read_exact` yields what `ReadExactAt` specifies and moves to the position it gives. |
| Decoder.Cursor.SeekCurrent | src/lib.rs:248-253 | The cursor's seek succeeds and moves exactly as `SeekAt` specifies. |
| Decoder.ReadMeta | src/lib.rs:221-235 | `read_meta` on the cursor returns and moves as `ReadMetaAt` specifies. |
| Decoder.Read1 | src/lib.rs:237-264 | `read1` on the cursor, with the size checked, returns and moves as `Read1At` specifies. |
| Decoder.Read | src/lib.rs:265-267 | The loop collects exactly the reports of `ReadAll` from the start position, with the error that ended it. |
| Decoder.ReadAllSteps | src/lib.rs:266 | `read` is one `read1`, then, on success, `read` from where it stopped. |
| Decoder.ReadAllAccepts | src/lib.rs:266 | After an accepted entry, `read` logs it and carries on from the next position. |
| Decoder.ReadAllChain | src/lib.rs:265-267 | A chain of accepted entries that ends at the end of the data is logged in full, and `read` then stops with `Exhausted`. |
| Decoder.ReadAllAtEnd | src/lib.rs:223-226 | At or past the end of the data, `read` logs nothing and stops with `Exhausted`. |
| Decoder.ReadAsWrittenChain | src/lib.rs:265-267 | A chain of entries that `read1` as written accepts, ending at the end of the data, is logged in full by `read` as written within one more call than there are entries, which then stops with `Exhausted`. |
| Decoder.ReadWithChain | src/lib.rs:265-267 | For any entry reader, a chain of accepted entries followed by a failure is logged in full, and `read` then stops with that failure's error. |
| Decoder.ReadAllPrefix | src/lib.rs:265-267 | After a chain of accepted entries, `read` has logged them in order and goes on exactly as `read` from the end of the chain, whatever the data holds there. |
| Decoder.ReadAllFails | src/lib.rs:265-267 | Where `read1` fails, `read` logs nothing and stops with that error. |
| Decoder.ReadStopsAfterChain | src/lib.rs:265-267 | A chain of accepted entries followed by a failure of `read1` is logged in full, and `read` stops with that error. `read` as written does the same, given one more call of `read1` than there are entries, when both readings of `read1` agree along the chain. |
| Decoder.AsWrittenStopsAfterChain | src/lib.rs:265-267 | The half of `ReadStopsAfterChain` about `read` as written. |
| Decoder.CutEntry | src/lib.rs:237-255 | An entry cut off before its end, under a header that passes `check` and has a size below 2^63: `read1` gives `Crop` when the cut falls inside the path and `Exhausted` otherwise (inside the header, the body or the footer). `read1` as written gives the same. |
| Decoder.ReadMetaOutcomes | src/lib.rs:221-235 | `read_meta` fails with `Exhausted` exactly when fewer than 40 bytes remain. It accepts exactly when bytes 24-27 of the next 40 spell `MAGIC`, returning the decoded record 40 bytes on. Any other failure is `Header`. |
| Decoder.Read1Failures | src/lib.rs:237-255 | A short header gives `Exhausted` and a header without the magic number gives `Header`. A short path gives `Crop`. `Footer` and `Checksum` never occur. Its clause that a size of 2^63 or more gives `Crop` holds for the corrected `read1` only; `Read1AsWrittenAfterPath` states the as-written outcome. |
| Decoder.Read1Accepts | src/lib.rs:237-264 | When the header is accepted, its path follows and the record after the body is accepted too, `read1` succeeds. It reports header and path and stops just past the footer. |
| Decoder.Read1AfterPath | src/lib.rs:248-255 | After the path, a seek past 2^64 gives `Crop`. Otherwise the outcome is the footer read at the end of the body. |
| Decoder.Read1Success | src/lib.rs:237-264 | Whatever `read1` accepts is an entry: a header that passes `check`, the path it announces, a size below 2^63, and a footer that passes `check` right after the body. It reports header and path, and the stream advances by exactly 40 + path length + size + 40. |
| Decoder.AcceptedEntry | src/lib.rs:255-263 | A successful footer read after a checked header, a fitting path and a size below 2^63 makes an entry as `Read1Success` describes it. |
| Decoder.MagicPassesCheck | src/lib.rs:228-232 | Forty bytes whose bytes 24-27 spell `MAGIC` decode to a record that passes `check`. |
| Decoder.Read1AsWrittenAfterPath | src/lib.rs:248-255 | As written, after the path the seek goes to position + 40 + path length + size, less 2^64 for a size of 2^63 or more. A target outside 0..2^64 gives `Crop`; otherwise the footer read there decides. For a size of 2^63 or more, the result is `Crop` exactly when position + 40 + path length + size is below 2^64. |
| Decoder.Read1AsWrittenSeeks | src/lib.rs:241-253 | The as-written outcome after the path, as one conditional on the seek target. |
| Decoder.SeekThenFooter | src/lib.rs:248-255 | A seek by the as-written offset followed by the footer read gives `Crop` exactly when the target leaves 0..2^64. |
| Decoder.AsWrittenOffset | src/lib.rs:249 | As written, the body is skipped by the size below 2^63 and by the size minus 2^64 from there on. |
| Decoder.FinishEntryOutcomes | src/lib.rs:255-263 | The footer read fails with `Exhausted` exactly when fewer than 40 bytes remain. It fails with `Header` exactly when those bytes lack the magic number. It succeeds exactly when they carry it, and then reports the entry and stops 40 bytes on. It never gives `Crop`. |
| Decoder.ReadExactInside | src/lib.rs:241-245 | A read that fits in the data yields exactly the bytes it covers. |
| Decoder.ReadStops | src/lib.rs:265-267 | `read` always stops with `Exhausted`, `Header` or `Crop`. |
| Decoder.AsWrittenDiffersOnlyOnHugeSizes | src/lib.rs:248-253 | `read1` as written and `read1` with the size checked agree except on a header whose size is 2^63 or more. |
| Decoder.AsWrittenReadStalls | src/lib.rs:248-253 | The finding's counterexample: on a 120-byte archive, `read1` as written succeeds at position 80 and stays at 80, so `read` never returns. The corrected `read1` gives `Crop` there. |
| Decoder.AsWrittenReadNeverEnds | src/lib.rs:248-253 | On the counterexample archive, `read` as written does not stop within any number of calls of `read1`. |
| Decoder.StalledReadNeverEnds | src/lib.rs:265-267 | Once an entry reader accepts an entry and comes back to where it started, `read` with it never stops. |
| Decoder.StallRecords | src/lib.rs:221-235 | Each of the counterexample's three records is read back by `read_meta`. |
| Decoder.StallFirstEntry | src/lib.rs:237-264 | Both readings of `read1` accept the counterexample's first entry and stop at 80. |
| Decoder.StallSecondEntry | src/lib.rs:248-253 | At 80 the as-written `read1` seeks back to 40 and succeeds at 80. The corrected one gives `Crop`, and the corrected `read` stops with `Crop`. |
| RoundTrip.ReportsVia | src/lib.rs:257-261 | The log has one report per entry, in entry order, each with that entry's header and path. |
| RoundTrip.Reports | src/lib.rs:257-261 | The log of written entries is each entry's header record and path, in order. |
| RoundTrip.ReportOfEntry | src/lib.rs:257-261 | For a written entry with a short path, the log line names the kind the writer chose, the exact path and the body length. |
| RoundTrip.ReadsRecord | src/lib.rs:221-235 | A record image that passes `check` is read back as that record by `read_meta`, wherever it sits. |
| RoundTrip.FrameRecordsRead | src/lib.rs:237-255 | In any stream holding an entry made of two checked record images around a path and a body, both records are read back at their places, with the path between them. |
| RoundTrip.FramedReads | src/lib.rs:237-264 | Wherever a well-framed entry sits in a stream of at most 2^64 bytes, `read1` accepts it. It reports its header and path and stops at its end. |
| RoundTrip.FramedReadsAsWritten | src/lib.rs:248-253 | `read1` as written reads a well-framed entry exactly as the corrected `read1` does, because its size is below 2^63. |
| RoundTrip.ReadsImageAt | src/lib.rs:237-264 | `read1` at the start of entry i of an archive accepts it and moves to the start of entry i+1. `read1` as written does the same. |
| RoundTrip.ReadsImageIn | src/lib.rs:237-264 | The same for any stream that begins with the archive's bytes. |
| RoundTrip.ReadsImagesIn | src/lib.rs:237-264 | In a stream that begins with the archive's bytes, `read1` accepts entry i at its offset and moves to the next offset, for every i. `read1` as written does the same. |
| RoundTrip.FramedHeader | src/lib.rs:221-235 | A well-framed entry is at least 40 bytes long, and its first 40 bytes decode to its header, which passes `check`. |
| RoundTrip.ReadsCutImageAt | src/lib.rs:237-255 | A well-framed entry cut after r of its bytes, at the end of the stream: `read1` gives `Crop` when r falls inside the path and `Exhausted` otherwise. `read1` as written gives the same. |
| RoundTrip.ReadsCutImages | src/lib.rs:265-267 | Well-framed entries followed by the front of one more: `read` logs the whole entries in order and none for the cut one. It stops with `Crop` when the cut falls inside that entry's path and with `Exhausted` otherwise. `read` as written does the same, given more calls of `read1` than there are whole entries. |
| RoundTrip.ReadsCutArchive | src/lib.rs:265-267 | The same for back-to-back well-framed entries cut after any k bytes, inside entry j. |
| RoundTrip.ReadsImages | src/lib.rs:265-267 | `read` over back-to-back well-framed entries logs each one in order, then stops with `Exhausted`. `read` as written does the same, given one more call of `read1` than there are entries. |
| RoundTrip.FramedByRecords | src/lib.rs:166-171 | Two checked record images around the path and a body of the size the header states make a well-framed entry. |
| RoundTrip.EntryFramed | src/lib.rs:118-174 | Each entry `append_to_archive` writes for a path under 2^16 bytes and a size under 2^63 is well framed by its header and footer. |
| RoundTrip.ReadsEntry | src/lib.rs:237-264 | `read1` accepts every written entry wherever it sits in a stream of at most 2^64 bytes. It reports the entry's header and path and stops at its end. |
| RoundTrip.ReadsEntryAsWritten | src/lib.rs:237-264 | `read1` as written reads every written entry, wherever it sits, exactly as the corrected `read1` does. |
| RoundTrip.ReadsEntries | src/lib.rs:265-267 | `read` over entries written back to back logs every one of them in order, then stops with `Exhausted`. So does `read` as written, given one more call of `read1` than there are entries. |
| RoundTrip.EntriesFramed | src/lib.rs:118-174 | Every entry `append_to_archive` writes for a sequence of readable nodes is well framed. |
| RoundTrip.ReadsTruncated | src/lib.rs:237-267 | Entries written back to back and cut after any k bytes, inside entry j: `read` logs exactly entries 0 to j-1 and no false entry. It stops with `Crop` when the cut falls inside entry j's path and with `Exhausted` when it falls inside a record or the body. `read` as written does the same, given more calls of `read1` than there are whole entries. |
| RoundTrip.ArchiveReadsBack | src/lib.rs:176-206 | `read` over the archive of a whole tree logs every archived object in archive order, directories first, then stops with `Exhausted`. So does `read` as written, given one more call of `read1` than there are objects. |

## Left out

- File-system access is not modelled: `Path::metadata`, `is_file`, `is_dir`, `read_dir`, `File::open` and `io::copy`. The tree is a `Node` value holding paths, modification times and file contents. The modification time is taken as given, so the system clock is not modelled.
- I/O errors and `?` propagation are not modelled, and neither are the `usize` counts that `write` returns. Every write appends all of its bytes; `write` may in fact write only part of its buffer.
- Objects that are neither files nor directories, which reach `todo!()` in `append_to_archive`, are not modelled: `Node` has only files and directories.
- Logging is not modelled, and neither is `String::from_utf8_lossy` on the path. A `Report` carries what `read1` logs: the header record, giving the kind label through `KindLabel.Text` and the size, and the raw path bytes. `read_meta`'s `name` argument only feeds log messages and is dropped.
- `ArchivedFile` and `ArchivedDir` are never used in the source and are not modelled.
- The `repr(C)` memory image is modelled as an explicit little-endian field layout with four zero padding bytes. This matches a little-endian target. The padding a real `Metadata` carries is unspecified, and decoding ignores it.
- `Metadata` is a value. `set_checksum` returns the updated record and does not mutate it in place; `check` takes no `&mut`.
- `append_to_archive`'s record building is split into `Encoder.SharedRecord`, `Encoder.EntryRecords` and `Encoder.EntryImages`. `recursive_archive`'s two loops are split into `TreeArchive.AppendDirectories` and `TreeArchive.AppendOthers`.
- Flag bit operations are defined on naturals, bit by bit, and not on machine words.
- Decoder.Read: the postcondition states the log and the stop error, not the cursor position the failing `read1` leaves behind.
- `Decoder.Read1` and `Decoder.Read` model the corrected `read1` described under Findings. The as-written reading exists as the functions `Decoder.Read1AsWritten` and `Decoder.ReadAsWrittenFor`, and no cursor method uses it.
- Decoder.ReadAsWrittenFor: `read` as written is bounded by a number of calls of `read1`, because it need not terminate. With enough calls it agrees with `read` on every archive within the bounds listed for `RoundTrip.ArchiveReadsBack`, and on such archives cut short (`RoundTrip.ReadsTruncated`). Beyond those bounds it need not agree: a path of 2^16 bytes or more is narrowed to a shorter `path_len`, and the rest of the path can then hold records such as the ones in the Findings counterexample.
- `RoundTrip.ArchiveReadsBack` is stated only for:
  - paths shorter than 2^16 bytes (longer ones are narrowed by `as _` and do not read back);
  - sizes below 2^63;
  - archives of at most 2^64 bytes.
- `Record.Metadata.AsBytes` does not state in its own contract that decoding gives the record back; that property is `Record.LayoutRoundTrip`.
- The doc comments of `DecodeError`'s variants (src/lib.rs:213-216) name a footer error (`Footer`, "Generic Footer Error") and a checksum error (`Checksum`, "Faulty checksum"). The model follows the code, which produces neither:
  - A footer without the magic number gives `Header`, not `Footer`, because `read_meta` reports every failed `check` as `Header`.
  - The checksum is never re-verified on decode, so `Footer` and `Checksum` are never produced.

## Findings

| source | as written | input that shows it | evidently intended | confidence | as-written member | corrected member |
|---|---|---|---|---|---|---|
| src/lib.rs:248-253 | `read1` seeks by `header.file_size as i64`. A size of 2^63 or more becomes a negative offset, so the seek moves backwards. An earlier record can then be accepted as the footer and `read1` returns `Ok` without advancing. `read`'s `while let Ok` loop then never ends. | Three records, 120 bytes: an empty directory record twice, then a `DIR \| HEADER` header with no path and size 2^64 - 80. `read1` accepts bytes 0-79. At 80 it seeks back to 40, reads a footer there and returns `Ok` at 80 again. | A size that is not a valid i64 offset is refused (`Crop`), so every accepted entry moves the stream forward and `read` terminates. | not executed | Decoder.AsWrittenReadStalls | Decoder.Read1At |
