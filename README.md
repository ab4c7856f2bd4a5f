# Shadowcaster `.lib` archive codec

A model of the Shadowcaster `.lib` archive format as SLADE reads and writes
it in `src/Archive/Formats/LibArchive.cpp`.

An image is footer-anchored and carries no magic number. It holds the raw
payloads first. Then come `count` directory records of 21 bytes each: a
little-endian 32-bit size, a little-endian 32-bit offset and a 13-byte name
whose last byte is always read as NUL. A little-endian 16-bit `count` ends
the image. The directory start is never stored. It is derived as
`length − (2 + 21·count)`: in 32-bit unsigned arithmetic by `open` and as
an `int32_t` by the two detectors.

The project has three modules:

- `Bytes` (`bytes.dfy`): bytes, 16- and 32-bit fields, 32-bit wrap-around,
  the `uint32_t`-to-`int32_t` conversion, and little-endian reads and writes.
  A read past the end of the buffer yields zero bytes.
- `LibFormat` (`lib_format.dfy`): the format as pure definitions. It covers
  the footer and the directory start, the records `open` reads and which of
  them it accepts, the first record as the detectors read it, and the image
  `write` produces (`Serialize`). The lemmas relate these, up to the round
  trip `open(write(x))`.
- `Archive` (`lib_archive.dfy`): the archive itself. The class `LibArchive`
  holds the entry list, the modified flag and the backing file. Its methods
  follow the source's loops: `Open` (directory loop, then payload loop),
  `Write` (offset loop, payload loop, record loop, footer), `LoadEntryData`,
  `GetEntryOffset`/`SetEntryOffset`, and the two static detectors with
  their `filnamlen` scan. Each method is proved against the `LibFormat`
  definitions.

An entry is the value `Entry(name, size, offset, loaded, state, data)`.
`offset` is the entry's "Offset" extra property. The archive's entry list is
a `seq<Entry>` field that the methods reassign. An entry is named by its
index in that list. The backing file is a `DiskFile(opens, contents)`.

## Model

| member | source | states |
|---|---|---|
| Bytes.Wrap32 | src/Archive/Formats/LibArchive.cpp:86 | a value in `[0, 2^32)` equals itself; one in `[2^32, 2^33)` loses `2^32`; a negative one down to `−2^32` gains `2^32` (the `uint32_t` subtraction at :86 and the `uint32_t` sum at :115) |
| Bytes.AsInt32 | src/Archive/Formats/LibArchive.cpp:286 | the `int32_t` value lies in `[−2^31, 2^31)`, is non-negative exactly when the unsigned value is below `2^31`, and is either that value or that value minus `2^32` |
| Bytes.LeU16RoundTrip | src/Archive/Formats/LibArchive.cpp:228-229 | the count footer written as two little-endian bytes reads back as the same count |
| Bytes.LeU32RoundTrip | src/Archive/Formats/LibArchive.cpp:216-217 | a size or offset written as four little-endian bytes reads back as the same value |
| LibFormat.DirOffset | src/Archive/Formats/LibArchive.cpp:80-86 | a definition without a contract: the count read from the last two bytes, and the directory start `length − (2 + 21·count)` taken modulo `2^32`, as the `uint32_t` subtraction of :86 gives it; `DirOffsetCases` states its two cases |
| LibFormat.SignedDirOffset | src/Archive/Formats/LibArchive.cpp:286 | a definition without a contract: the same subtraction stored in an `int32_t`, as both detectors compute it (:286 and :348); `SignedDirOffsetCases` and `SignedDirOffsetShort` state when it is negative |
| LibFormat.DirOffsetCases | src/Archive/Formats/LibArchive.cpp:86 | the unsigned directory start is `length − (2 + 21·count)` when the directory fits, and lies beyond the buffer's end when the declared count is too large |
| LibFormat.SignedDirOffsetCases | src/Archive/Formats/LibArchive.cpp:286-290 | the signed directory start is non-negative only when the directory fits, and is then the true start; it is negative whenever `2 + 21·count` exceeds the length |
| LibFormat.SignedDirOffsetShort | src/Archive/Formats/LibArchive.cpp:348-352 | a count too large for the file gives a negative signed start, for a file of any length |
| LibFormat.FirstRecordInside | src/Archive/Formats/LibArchive.cpp:292-301 | with a non-negative signed start and at least one record, the whole 21-byte first record lies in `[0, length − 2)` |
| LibFormat.CStringLenStops | src/Archive/Formats/LibArchive.cpp:314-318 | the name scan stops at the first NUL: no byte before it is NUL, and the byte at it is NUL when there is one |
| LibFormat.RecordAt | src/Archive/Formats/LibArchive.cpp:104-107 | a definition without a contract: the little-endian size at `pos`, the little-endian offset at `pos + 4`, and the name as the C string of the 12 bytes at `pos + 8`, the 13th being forced to NUL; reads past the end give zeros. `Archive.ReadRecord` and `RecordDecodes` state its properties |
| LibFormat.FitsAsWritten | src/Archive/Formats/LibArchive.cpp:115 | a definition without a contract: a record passes when `offset + size`, taken modulo `2^32`, is at most the directory start; `FitsAsWrittenCases` relates it to the exact test |
| LibFormat.FitsAsWrittenCases | src/Archive/Formats/LibArchive.cpp:115 | the 32-bit test accepts every record the exact test accepts, and in addition exactly those whose `offset + size` reaches `2^32` and wraps to at most the directory start |
| LibFormat.WrappedExtentPassesAsWritten | src/Archive/Formats/LibArchive.cpp:115 | on a 64-byte image with one record of size 1 at offset `0xFFFFFFFF`, `open` succeeds although the record's extent lies past the end of the buffer, and the intended exact test refuses the image |
| LibFormat.OpenAcceptsIff | src/Archive/Formats/LibArchive.cpp:77-131 | `open` succeeds exactly on a non-empty buffer every record of which passes the test of :115, with `offset + size` taken modulo `2^32`, against the directory start |
| LibFormat.OpenStopsAt | src/Archive/Formats/LibArchive.cpp:113-129 | at the first record that fails the 32-bit test, `open` fails and keeps exactly the records read before it |
| LibFormat.OpenAcceptsAll | src/Archive/Formats/LibArchive.cpp:94-131 | when every record passes the 32-bit test, `open` succeeds and keeps every record |
| LibFormat.ExactAcceptsAsWritten | src/Archive/Formats/LibArchive.cpp:113-131 | the intended exact test is stricter than the 32-bit one: every buffer it accepts, `open` accepts too, keeping every record |
| LibFormat.AcceptedExtentInBounds | src/Archive/Formats/LibArchive.cpp:113-149 | under the intended exact test (the corrected :115), every record with a payload lies inside the payload region, before the directory, so the copy at :148 stays inside the buffer |
| LibFormat.AcceptedExtentCases | src/Archive/Formats/LibArchive.cpp:113-149 | under the test as written, a record `open` accepts with a payload either lies before the directory or has an extent that reaches `2^32`, and then the copy at :148 asks for bytes past the end of the buffer |
| LibFormat.MemDetectImpliesFileDetect | src/Archive/Formats/LibArchive.cpp:276-391 | whatever the memory detector accepts, the file detector accepts when given the same bytes |
| LibFormat.DetectorsDisagree | src/Archive/Formats/LibArchive.cpp:324-326 | the converse fails: a 64-byte image whose first name is the single letter `A` passes the file detector and not the memory detector |
| LibFormat.NameFieldAt | src/Archive/Formats/LibArchive.cpp:209-214 | byte `k` of a written name field is name byte `k` for `k < 12` within the name, and zero otherwise, including the 13th byte |
| LibFormat.StoredNameTruncates | src/Archive/Formats/LibArchive.cpp:209-218 | a name without NUL bytes, written and read back, is its first 12 bytes |
| LibFormat.SizeSumPrefix | src/Archive/Formats/LibArchive.cpp:186-191 | the running sum before an entry plus its size never exceeds the total, and adding the entry extends the running sum by its size |
| LibFormat.OffsetOf | src/Archive/Formats/LibArchive.cpp:186-191 | the offset `write` gives an entry, plus its size, stays within the payload region |
| LibFormat.Serialize | src/Archive/Formats/LibArchive.cpp:193-229 | a definition without a contract: the payloads in entry order, then one 21-byte record per entry with the running offset, then the 16-bit count; `SerializeLength`, `SerializeAnchor`, `SerializeRecord`, `SerializePayload` and `RoundTrip` state its properties |
| LibFormat.SerializeLength | src/Archive/Formats/LibArchive.cpp:193-229 | the image is exactly `2 + Σsize + 21·n` bytes: the payloads in order, then the records, then the count |
| LibFormat.SerializeAnchor | src/Archive/Formats/LibArchive.cpp:82-86 | the footer of a written image reads back as the entry count, so the directory start `open` derives is `Σsize` |
| LibFormat.FooterAnchor | src/Archive/Formats/LibArchive.cpp:80-86 | behind `payload` bytes and `n` records, the footer read at :80-83 gives `n` back and the start derived at :86 is `payload` |
| LibFormat.RecordDecodes | src/Archive/Formats/LibArchive.cpp:104-107 | a written record reads back, as `open` reads it, as its size, offset and stored name; as the detectors read it, as its size, offset, zero-padded name field and a zero separator |
| LibFormat.SerializeRecord | src/Archive/Formats/LibArchive.cpp:205-218 | record `d` of the image reads back as entry `d`'s size, its new offset and its name cut to 12 bytes |
| LibFormat.SerializePayload | src/Archive/Formats/LibArchive.cpp:198-203 | entry `d`'s payload sits in the image at its new offset |
| LibFormat.RoundTrip | src/Archive/Formats/LibArchive.cpp:176-233 | every image `write` produces passes the exact test and the 32-bit test, and `open` reads back each entry in order, with its size, its new offset, its name cut to 12 bytes and its payload |
| LibFormat.SerializeDetected | src/Archive/Formats/LibArchive.cpp:276-330 | the memory detector accepts a written image of at least 64 bytes (and below `2^31`) whose first name is legal and at least 2 characters long |
| Archive.OpenedEntriesAre | src/Archive/Formats/LibArchive.cpp:123-157 | after a successful `open`, entry `i` has record `i`'s name, size and offset and is unmodified; it is loaded exactly when non-empty, and then holds `size` bytes: the image bytes at its extent when the extent lies before the directory, and otherwise (a wrapped extent) the extent runs past the end of the image |
| Archive.RewrittenKeeps | src/Archive/Formats/LibArchive.cpp:186-225 | `write` keeps every entry's name, size, load flag and payload; with `update` every entry ends unmodified, otherwise each keeps its state |
| Archive.RewrittenOffsets | src/Archive/Formats/LibArchive.cpp:186-191 | the offsets `write` assigns start at 0 and each next one follows the previous payload |
| Archive.WriteLayout | src/Archive/Formats/LibArchive.cpp:183-225 | once the offsets are assigned, record `i` of the image describes entry `i` as it then stands, and marking entries unmodified completes the rewrite |
| Archive.WriteThenOpen | src/Archive/Formats/LibArchive.cpp:176-233 | opening what `write` produced gives back every entry in order, with its size, payload and new offset, unmodified, and with its name cut to 12 bytes |
| Archive.ReadRecord | src/Archive/Formats/LibArchive.cpp:99-107 | the three reads at the cursor give the record `open` reads there; the name has at most 12 bytes and no NUL |
| Archive.EncodeNameField | src/Archive/Formats/LibArchive.cpp:209-214 | the copy loop into the zeroed 13-byte buffer produces the name field: at most 12 name bytes, zero-padded |
| Archive.WriteAt | src/Archive/Formats/LibArchive.cpp:202 | a write at the cursor puts the bytes there and leaves every byte before the cursor and after the bytes written unchanged |
| Archive.WriteRecord | src/Archive/Formats/LibArchive.cpp:216-218 | the three writes of a record append size, offset and name field after what is already written, and leave the bytes after the record unchanged |
| Archive.ReadDirectory | src/Archive/Formats/LibArchive.cpp:82-131 | the directory loop, testing `offset + size` modulo `2^32` as at :115, succeeds exactly when `open` accepts the buffer, and lists one unloaded, unmodified entry per record kept, failure included |
| Archive.LibArchive.GetEntryOffset | src/Archive/Formats/LibArchive.cpp:50-57 | the Offset property of an entry of the archive, and 0 for an index outside it |
| Archive.LibArchive.SetEntryOffset | src/Archive/Formats/LibArchive.cpp:62-69 | only that entry's Offset property changes, and nothing changes for an index outside the archive |
| Archive.LibArchive.Open | src/Archive/Formats/LibArchive.cpp:75-170 | succeeds exactly when `OpenAccepts` holds (the 32-bit test of :115); on success the entries are `OpenedEntries` and the archive is not modified; on failure the entries read before the bad record stay |
| Archive.LibArchive.LoadPayloads | src/Archive/Formats/LibArchive.cpp:133-157 | every non-empty entry takes its bytes from the image at its Offset property, and every entry ends unmodified |
| Archive.LibArchive.LoadEntryPayload | src/Archive/Formats/LibArchive.cpp:141-156 | one entry of the payload loop: only entry `a` changes, to its opened form |
| Archive.LibArchive.Write | src/Archive/Formats/LibArchive.cpp:176-233 | fails and changes nothing with more than 65535 entries; otherwise the image is `Serialize` of the names and payloads, and the entries are rewritten with new offsets (and unmodified with `update`) |
| Archive.LibArchive.WriteImage | src/Archive/Formats/LibArchive.cpp:193-229 | once offsets are assigned, the buffer filled by the payload loop, the record loop and the footer is the serialised image |
| Archive.LibArchive.AssignOffsets | src/Archive/Formats/LibArchive.cpp:183-191 | every entry's Offset becomes the sum of the sizes before it, whatever `update` is; the result is the total size |
| Archive.LibArchive.WritePayloads | src/Archive/Formats/LibArchive.cpp:198-203 | the payloads are written back to back from the start of the buffer, and the rest of the buffer is left as it was |
| Archive.LibArchive.WritePayloadStep | src/Archive/Formats/LibArchive.cpp:199-203 | one pass of the payload loop writes entry `l`'s payload right after the earlier ones and leaves the rest of the buffer unchanged |
| Archive.LibArchive.WriteDirectory | src/Archive/Formats/LibArchive.cpp:205-225 | the records follow the payloads in entry order, the bytes after them are left as they were, and with `update` every entry is marked unmodified and nothing else about it changes |
| Archive.LibArchive.WriteDirectoryStep | src/Archive/Formats/LibArchive.cpp:206-225 | one pass of the record loop appends entry `l`'s record after the earlier records, leaves the bytes after it unchanged, and marks only entry `l` (when `update`) |
| Archive.LibArchive.WriteEntryRecord | src/Archive/Formats/LibArchive.cpp:208-224 | one pass of the record loop appends entry `l`'s record, leaves the bytes after it unchanged, and changes only entry `l` |
| Archive.LibArchive.LoadEntryData | src/Archive/Formats/LibArchive.cpp:239-271 | an index outside the archive fails; an empty or loaded entry is only marked loaded; an unopenable file fails and changes nothing; otherwise the entry holds the file bytes at its Offset property and is loaded; no other entry changes |
| Archive.LibArchive.ScanName | src/Archive/Formats/LibArchive.cpp:313-326 | the scan reports the name legal exactly when every byte before the NUL is printable ASCII other than the eight forbidden characters, and then returns the name's length |
| Archive.LibArchive.IsLibArchive | src/Archive/Formats/LibArchive.cpp:276-330 | the verdict is `IsLibImage`; buffers under 64 bytes, counts too large for the buffer, and a first record with a non-zero separator or offset, an extent past the end or an unacceptable name are all refused |
| Archive.LibArchive.IsLibArchiveFile | src/Archive/Formats/LibArchive.cpp:335-391 | the verdict is `IsLibFile`: an unopenable file, a count too large for the file, or a bad first record is refused; a one-character name is enough |

## Left out

- The splash-screen progress calls, the `log::error` and `global::error` messages, and the signal blocker around `open` are not modelled. The archive's modified flag is modelled.
- `EntryType::detectEntryType` and `detectMaps` are not modelled. The payload loop of `open` treats entry type detection as a step that leaves an entry's bytes and size alone.
- Host byte order (`wxINT*_SWAP_ON_BE`) is not modelled. Every field is little-endian.
- File I/O is not modelled. The backing file, and the file the file detector opens, is a `DiskFile`: a flag saying whether it opens, plus its bytes. A read past the end yields zero bytes, so the zero-initialised locals keep their value. How `MemChunk` and `wxFile` actually behave on short reads is not part of this model.
- Entries are values held in the archive's sequence and are named by index. An `ArchiveEntry` shared through `std::shared_ptr`, and `checkEntry`'s membership test, become an index range check. Aliasing between archives is not modelled.
- Archive.LibArchive.Open: requires an empty archive. The payload loop at :136 walks every entry of the archive, so it would also revisit entries that were there before. It also requires a buffer shorter than `2^32` bytes, the most a `MemChunk` holds.
- Archive.LibArchive.Write: requires every payload to be in memory. `rawData()`'s on-demand load from the backing file is not modelled. It also requires the image to be shorter than `2^32` bytes, so the `uint32_t` running offset at :190 never wraps.
- Archive.LibArchive.LoadEntryData: requires the extent of an entry it reads to lie inside the backing file. A short read by `importFileStream` is not modelled. The entry's modification state after the import is taken to be unchanged.
- A failed `open` keeps the entries read before the bad record: :119 returns after :129 has already added them, although the comment at :113-114 calls the whole file invalid. The model follows the code.
- Archive.LibArchive.LoadPayloads: `open` accepts an extent that runs past the end of the image only when the 32-bit sum at :115 wraps. For such an extent the model reads the missing bytes as zeros, as it does for every read past the end. What `MemChunk::exportMemChunk` really does there is not part of this model.
- `RunDialog.cpp` is not part of this model.

## Findings

| source | as written | input that shows it | evidently intended | confidence | as-written member | corrected member |
|---|---|---|---|---|---|---|
| src/Archive/Formats/LibArchive.cpp:115 | `offset + size > dir_offset` is computed in 32-bit unsigned arithmetic, so a sum that reaches `2^32` wraps to a small number | a 64-byte image with count 1 and one record of size 1 at offset `0xFFFFFFFF`: the sum wraps to 0, which is at most the directory start 41, so the record is accepted although its extent lies far past the end of the buffer | reject every record whose extent ends after the directory start | not executed | LibFormat.WrappedExtentPassesAsWritten | LibFormat.AcceptedExtentInBounds |

The model's `open` (`Archive.ReadDirectory`, `LibFormat.OpenAccepts`) follows the code and applies the 32-bit test `LibFormat.FitsAsWritten`. The intended test is `LibFormat.OpenAcceptsExact`: `LibFormat.AcceptedExtentInBounds` proves it keeps every copy inside the buffer, `LibFormat.ExactAcceptsAsWritten` proves it is stricter than the test as written, and `LibFormat.RoundTrip` proves every image `write` produces passes it.
