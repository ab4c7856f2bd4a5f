/** The Shadowcaster `.lib` image: payload bytes, then `count` directory
    records of 21 bytes (size, offset, 13-byte name), then a 2-byte entry
    count. Little-endian throughout; there is no magic number and the
    directory start is derived from the buffer length. */
module LibFormat {
  import opened Bytes

  const FooterSize: nat := 2
  const RecordSize: nat := 21
  const NameFieldSize: nat := 13
  /** Name bytes a record keeps; the 13th byte of the field is the NUL. */
  const NameLimit: nat := 12
  /** The entry count is a 16-bit field. */
  const MaxEntries: nat := 65535
  /** Buffers shorter than this are never taken for a lib image in memory. */
  const MinImageSize: nat := 64
  /** Significant name characters the memory detector asks of the first record. */
  const MemMinNameLen: nat := 2
  /** Significant name characters the file detector asks of the first record. */
  const FileMinNameLen: nat := 1

  /** A `MemChunk` holds at most 2^32 - 1 bytes. */
  predicate FitsMemChunk(s: seq<Byte>)
  {
    |s| < 0x1_0000_0000
  }

  /** The backing file of an archive: whether it can be opened, and its bytes. */
  datatype DiskFile = DiskFile(opens: bool, contents: seq<Byte>)

  // ---------------------------------------------------------------------------
  // Footer and directory anchor

  /** The trailing 16-bit entry count; a buffer too short to hold it reads as 0. */
  function EntryCount(s: seq<Byte>): U16
  {
    if |s| < FooterSize then 0 else LeU16At(s, |s| - FooterSize)
  }

  /** Bytes taken by the directory and the footer. */
  function DirectorySpan(s: seq<Byte>): nat
  {
    FooterSize + 21 * EntryCount(s)
  }

  /** The directory start as `open` computes it, in 32-bit unsigned arithmetic. */
  function DirOffset(s: seq<Byte>): U32
  {
    Wrap32(|s| - DirectorySpan(s))
  }

  /** The directory start as the detectors compute it, stored in an `int32_t`. */
  function SignedDirOffset(s: seq<Byte>): int
  {
    AsInt32(DirOffset(s))
  }

  /** The unsigned directory start is the true one when the directory fits, and
      lies beyond the end of the buffer when the declared count is too large. */
  lemma DirOffsetCases(s: seq<Byte>)
    requires FitsMemChunk(s)
    ensures DirectorySpan(s) <= |s| ==> DirOffset(s) == |s| - DirectorySpan(s)
    ensures |s| < DirectorySpan(s) ==> DirOffset(s) > |s|
  {
  }

  /** The signed directory start is non-negative only when the directory fits in
      the buffer, and it is then the true start. */
  lemma SignedDirOffsetCases(s: seq<Byte>)
    requires FitsMemChunk(s)
    ensures SignedDirOffset(s) >= 0 ==> DirectorySpan(s) <= |s| && SignedDirOffset(s) == |s| - DirectorySpan(s)
    ensures |s| < DirectorySpan(s) ==> SignedDirOffset(s) < 0
  {
    DirOffsetCases(s);
  }

  /** A declared count too large for the buffer gives a negative signed
      directory start, whatever the buffer's length. */
  lemma SignedDirOffsetShort(s: seq<Byte>)
    requires |s| < DirectorySpan(s)
    ensures SignedDirOffset(s) < 0
  {
    DirOffsetCases(s);
  }

  /** When the signed start is non-negative and there is a record, the whole
      first record lies inside the buffer, before the footer. */
  lemma FirstRecordInside(s: seq<Byte>)
    requires FitsMemChunk(s)
    requires SignedDirOffset(s) >= 0 && EntryCount(s) >= 1
    ensures 0 <= SignedDirOffset(s) && SignedDirOffset(s) + RecordSize <= |s| - FooterSize
  {
    SignedDirOffsetCases(s);
  }

  // ---------------------------------------------------------------------------
  // Names

  /** Length of the C string held in `b`: the bytes before the first NUL. */
  function CStringLen(b: seq<Byte>): (n: nat)
    ensures n <= |b|
  {
    if |b| == 0 || b[0] == 0 then 0 else 1 + CStringLen(b[1..])
  }

  /** The C string stops at the first NUL: no byte before it is NUL. */
  lemma {:induction false} CStringLenStops(b: seq<Byte>)
    ensures forall i :: 0 <= i < CStringLen(b) ==> b[i] != 0
    ensures CStringLen(b) < |b| ==> b[CStringLen(b)] == 0
  {
    if |b| > 0 && b[0] != 0 {
      CStringLenStops(b[1..]);
    }
  }

  /** The C string held in `b`. */
  function CString(b: seq<Byte>): seq<Byte>
  {
    b[..CStringLen(b)]
  }

  /** Appending bytes that start with a NUL does not change the C string. */
  lemma {:induction false} CStringAppendNul(x: seq<Byte>, z: seq<Byte>)
    requires |z| > 0 && z[0] == 0
    ensures CStringLen(x + z) == CStringLen(x)
    ensures CString(x + z) == CString(x)
  {
    if |x| > 0 && x[0] != 0 {
      assert (x + z)[1..] == x[1..] + z;
      CStringAppendNul(x[1..], z);
    }
  }

  /** The 13-byte name buffer read at `pos`: 12 name bytes, then the NUL that
      overwrites the 13th byte. */
  function NameBuffer(s: seq<Byte>, pos: int): (b: seq<Byte>)
    ensures |b| == NameFieldSize && b[NameLimit] == 0
  {
    BytesAt(s, pos, NameLimit) + [0]
  }

  /** A byte allowed in a DOS-style name: printable ASCII other than the
      characters `" * / : < ? \ |`. */
  predicate LegalNameByte(b: Byte)
  {
    33 <= b <= 126 && b !in {'"' as int, '*' as int, '/' as int, ':' as int, '<' as int, '?' as int, '\\' as int, '|' as int}
  }

  /** The name in `buf` is legal and has at least `minLen` characters. */
  predicate NameAcceptable(buf: seq<Byte>, minLen: nat)
  {
    (forall i :: 0 <= i < CStringLen(buf) ==> LegalNameByte(buf[i])) && CStringLen(buf) >= minLen
  }

  // ---------------------------------------------------------------------------
  // Directory records as `open` reads them

  /** A decoded directory record; `name` is the C string of the name field. */
  datatype Record = Record(size: U32, offset: U32, name: seq<Byte>)

  /** The record read at `pos`. */
  function RecordAt(s: seq<Byte>, pos: int): Record
  {
    Record(LeU32At(s, pos), LeU32At(s, pos + 4), CString(NameBuffer(s, pos + 8)))
  }

  /** All `count` records, in directory order. */
  function DirectoryRecords(s: seq<Byte>): (recs: seq<Record>)
    ensures |recs| == EntryCount(s)
  {
    RecordsFrom(s, DirOffset(s), EntryCount(s))
  }

  /** `n` consecutive records read from `base` on. */
  function RecordsFrom(s: seq<Byte>, base: int, n: nat): (recs: seq<Record>)
    ensures |recs| == n
  {
    seq(n, d => RecordAt(s, base + 21 * d))
  }

  /** Record `d` of those read from `base` on is the one read at `pos`,
      `21 * d` bytes past `base`. */
  lemma RecordsFromBase(s: seq<Byte>, base: int, n: nat, d: nat, pos: int)
    requires d < n && pos == base + 21 * d
    ensures RecordsFrom(s, base, n)[d] == RecordAt(s, pos)
  {
  }

  /** Record `d` is the one read `21 * d` bytes past the directory start. */
  lemma DirectoryRecordAt(s: seq<Byte>, d: nat, pos: int)
    requires d < EntryCount(s) && pos == DirOffset(s) + 21 * d
    ensures DirectoryRecords(s)[d] == RecordAt(s, pos)
  {
    RecordsFromBase(s, DirOffset(s), EntryCount(s), d, pos);
  }

  /** The intended test: the extent ends at or before the directory. */
  predicate Fits(r: Record, dirOffset: int)
  {
    r.offset + r.size <= dirOffset
  }

  /** The test `open` applies, with the sum taken in 32-bit unsigned
      arithmetic. */
  predicate FitsAsWritten(r: Record, dirOffset: U32)
  {
    Wrap32(r.offset + r.size) <= dirOffset
  }

  /** The wrapped test accepts every record the exact test accepts, and in
      addition exactly those whose extent passes 2^32 and wraps below the
      directory start. */
  lemma FitsAsWrittenCases(r: Record, dirOffset: U32)
    ensures FitsAsWritten(r, dirOffset) <==>
      Fits(r, dirOffset) || (r.offset + r.size >= 0x1_0000_0000 && r.offset + r.size - 0x1_0000_0000 <= dirOffset)
  {
  }

  /** Number of leading records that pass the test of `open`; it stops at the
      first record that fails. */
  function AcceptedCount(recs: seq<Record>, dirOffset: U32): (k: nat)
    ensures k <= |recs|
    ensures forall i :: 0 <= i < k ==> FitsAsWritten(recs[i], dirOffset)
    ensures k < |recs| ==> !FitsAsWritten(recs[k], dirOffset)
  {
    if |recs| == 0 || !FitsAsWritten(recs[0], dirOffset) then 0 else 1 + AcceptedCount(recs[1..], dirOffset)
  }

  /** Whether `open` succeeds on the buffer. */
  predicate OpenAccepts(s: seq<Byte>)
  {
    |s| > 0 && AcceptedCount(DirectoryRecords(s), DirOffset(s)) == EntryCount(s)
  }

  /** `open` succeeds exactly on a non-empty buffer every record of which
      passes the 32-bit test. */
  lemma OpenAcceptsIff(s: seq<Byte>)
    ensures OpenAccepts(s) <==>
      |s| > 0 && forall d :: 0 <= d < EntryCount(s) ==> FitsAsWritten(DirectoryRecords(s)[d], DirOffset(s))
  {
  }

  /** The records `open` turns into entries: all of them on success, and on
      failure those before the first bad record (they are not removed). */
  function OpenedRecords(s: seq<Byte>): (recs: seq<Record>)
    ensures |recs| <= EntryCount(s)
    ensures OpenAccepts(s) ==> recs == DirectoryRecords(s)
  {
    if |s| == 0 then [] else DirectoryRecords(s)[..AcceptedCount(DirectoryRecords(s), DirOffset(s))]
  }

  /** `open` stops with failure at the first record that fails the 32-bit
      test, keeping the records before it. */
  lemma OpenStopsAt(s: seq<Byte>, read: seq<Record>)
    requires |s| > 0 && |read| < EntryCount(s)
    requires read == DirectoryRecords(s)[..|read|]
    requires forall i :: 0 <= i < |read| ==> FitsAsWritten(read[i], DirOffset(s))
    requires !FitsAsWritten(DirectoryRecords(s)[|read|], DirOffset(s))
    ensures !OpenAccepts(s) && OpenedRecords(s) == read
  {
    var recs := DirectoryRecords(s);
    assert forall i :: 0 <= i < |read| ==> recs[i] == read[i];
    assert AcceptedCount(recs, DirOffset(s)) == |read|;
  }

  /** `open` accepts when every record passes the 32-bit test, keeping all
      of them. */
  lemma OpenAcceptsAll(s: seq<Byte>, read: seq<Record>)
    requires |s| > 0 && read == DirectoryRecords(s)
    requires forall i :: 0 <= i < |read| ==> FitsAsWritten(read[i], DirOffset(s))
    ensures OpenAccepts(s) && OpenedRecords(s) == read
  {
  }

  /** The payload of a record: bytes `[offset, offset + size)` of the buffer,
      with zeros for any position past its end. */
  function Payload(s: seq<Byte>, r: Record): seq<Byte>
  {
    BytesAt(s, r.offset, r.size)
  }

  /** The intended acceptance: a non-empty buffer every record of which ends
      at or before the directory, by the exact sum. */
  predicate OpenAcceptsExact(s: seq<Byte>)
  {
    |s| > 0 && forall d :: 0 <= d < EntryCount(s) ==> Fits(DirectoryRecords(s)[d], DirOffset(s))
  }

  /** The intended acceptance is stricter than the one `open` applies. */
  lemma ExactAcceptsAsWritten(s: seq<Byte>)
    ensures OpenAcceptsExact(s) ==> OpenAccepts(s) && OpenedRecords(s) == DirectoryRecords(s)
  {
    if OpenAcceptsExact(s) {
      var recs := DirectoryRecords(s);
      forall i | 0 <= i < |recs|
        ensures FitsAsWritten(recs[i], DirOffset(s))
      {
        FitsAsWrittenCases(recs[i], DirOffset(s));
      }
      OpenAcceptsAll(s, recs);
    }
  }

  /** Under the intended acceptance every record with a payload lies inside
      the payload region, so the copy out of the buffer stays inside it. */
  lemma AcceptedExtentInBounds(s: seq<Byte>, d: nat)
    requires FitsMemChunk(s) && OpenAcceptsExact(s)
    requires d < EntryCount(s) && DirectoryRecords(s)[d].size > 0
    ensures DirectorySpan(s) <= |s|
    ensures DirectoryRecords(s)[d].offset + DirectoryRecords(s)[d].size <= |s| - DirectorySpan(s)
  {
    DirOffsetCases(s);
    DirectoryRecordAt(s, d, DirOffset(s) + 21 * d);
    RecordPastEnd(s, DirOffset(s) + 21 * d);
  }

  /** A record read at or past the end of the buffer reads as zeros. */
  lemma RecordPastEnd(s: seq<Byte>, pos: int)
    ensures pos >= |s| ==> RecordAt(s, pos).size == 0 && RecordAt(s, pos).offset == 0
  {
  }

  /** Under the test `open` applies, a record with a payload either lies
      inside the payload region or has an extent that passes 2^32, and then
      runs past the end of the buffer. */
  lemma AcceptedExtentCases(s: seq<Byte>, d: nat)
    requires FitsMemChunk(s)
    requires d < AcceptedCount(DirectoryRecords(s), DirOffset(s))
    requires DirectoryRecords(s)[d].size > 0
    ensures DirectorySpan(s) <= |s|
    ensures var r := DirectoryRecords(s)[d];
      r.offset + r.size <= |s| - DirectorySpan(s) || |s| < 0x1_0000_0000 <= r.offset + r.size
  {
    DirOffsetCases(s);
    DirectoryRecordAt(s, d, DirOffset(s) + 21 * d);
    RecordPastEnd(s, DirOffset(s) + 21 * d);
    FitsAsWrittenCases(DirectoryRecords(s)[d], DirOffset(s));
  }

  /** Counter-example to the 32-bit test: a 64-byte image with one record of
      size 1 at offset 0xFFFFFFFF. */
  function WrappingImage(): seq<Byte>
  {
    seq<Byte>(64, i requires 0 <= i < 64 =>
      if i == 41 || i == 62 then 1
      else if 45 <= i < 49 then 0xFF
      else if i == 49 then 'A' as int
      else if i == 50 then 'B' as int
      else 0)
  }

  /** On that image `open` succeeds, although the one record's extent runs
      past the end of the buffer and the intended test refuses it. */
  lemma WrappedExtentPassesAsWritten()
    ensures var s := WrappingImage();
      var r := DirectoryRecords(s)[0];
      |s| == 64 && EntryCount(s) == 1 && DirOffset(s) == 41 &&
      OpenAccepts(s) && !OpenAcceptsExact(s) && r.offset + r.size > |s|
  {
    WrappingImageRecord();
    OneWrappingRecord(WrappingImage());
  }

  /** A non-empty buffer whose one record has size 1 at offset 0xFFFFFFFF and
      whose directory starts at 41 passes the 32-bit test and fails the exact
      one. */
  lemma OneWrappingRecord(s: seq<Byte>)
    requires |s| > 0 && EntryCount(s) == 1 && DirOffset(s) == 41
    requires DirectoryRecords(s)[0].size == 1 && DirectoryRecords(s)[0].offset == 0xFFFF_FFFF
    ensures OpenAccepts(s) && !OpenAcceptsExact(s)
  {
    var recs := DirectoryRecords(s);
    assert recs[0].offset + recs[0].size == 0x1_0000_0000;
    assert FitsAsWritten(recs[0], 41) && !Fits(recs[0], 41);
    OpenAcceptsAll(s, recs);
  }

  /** The footer and the one record of that image. */
  lemma WrappingImageRecord()
    ensures var s := WrappingImage();
      |s| == 64 && EntryCount(s) == 1 && DirOffset(s) == 41 &&
      DirectoryRecords(s)[0].size == 1 && DirectoryRecords(s)[0].offset == 0xFFFF_FFFF
  {
    var s := WrappingImage();
    assert EntryCount(s) == 1;
    assert DirOffset(s) == 41;
    DirectoryRecordAt(s, 0, 41);
    assert LeU32At(s, 41) == 1;
    assert LeU32At(s, 45) == 0xFFFF_FFFF;
  }

  // ---------------------------------------------------------------------------
  // Format detection

  /** The first directory record as the detectors read it: size, offset,
      12 name bytes (then a NUL), and the separator byte. */
  datatype FirstRecord = FirstRecord(size: U32, offset: U32, name: seq<Byte>, separator: Byte)

  function FirstRecordAt(s: seq<Byte>, pos: int): FirstRecord
  {
    FirstRecord(LeU32At(s, pos), LeU32At(s, pos + 4), NameBuffer(s, pos + 8), ByteAt(s, pos + 20))
  }

  /** Structural self-consistency of the first record: the directory fits, the
      separator is zero, the first payload starts at 0 and ends inside the
      buffer, and the name is legal with at least `minNameLen` characters. */
  predicate LooksLikeLib(s: seq<Byte>, minNameLen: nat)
  {
    SignedDirOffset(s) >= 0 &&
    var r := FirstRecordAt(s, SignedDirOffset(s));
    r.separator == 0 && r.offset == 0 && r.offset + r.size <= |s| && NameAcceptable(r.name, minNameLen)
  }

  /** The memory detector's verdict. */
  predicate IsLibImage(s: seq<Byte>)
  {
    |s| >= MinImageSize && LooksLikeLib(s, MemMinNameLen)
  }

  /** The file detector's verdict. */
  predicate IsLibFile(f: DiskFile)
  {
    f.opens && LooksLikeLib(f.contents, FileMinNameLen)
  }

  /** Anything the memory detector accepts, the file detector accepts too. */
  lemma MemDetectImpliesFileDetect(s: seq<Byte>)
    ensures IsLibImage(s) ==> IsLibFile(DiskFile(true, s))
  {
  }

  /** A 64-byte image whose first entry is named "A". */
  function OneLetterImage(): seq<Byte>
  {
    seq<Byte>(64, i requires 0 <= i < 64 => if i == 49 then 'A' as int else if i == 62 then 1 else 0)
  }

  /** The converse fails: the file detector accepts a one-letter first name
      that the memory detector refuses. */
  lemma DetectorsDisagree()
    ensures IsLibFile(DiskFile(true, OneLetterImage())) && !IsLibImage(OneLetterImage())
  {
    var s := OneLetterImage();
    assert EntryCount(s) == 1;
    assert SignedDirOffset(s) == 41;
    var r := FirstRecordAt(s, 41);
    assert r.size == 0 && r.offset == 0 && r.separator == 0;
    assert r.name[0] == 'A' as int && r.name[1] == 0;
    assert r.name[1..][0] == 0;
    assert CStringLen(r.name) == 1;
  }

  // ---------------------------------------------------------------------------
  // Serialisation

  /** What `write` takes from an entry: its name and its payload. */
  datatype Item = Item(name: seq<Byte>, data: seq<Byte>)

  /** `n` zero bytes. */
  function Zeros(n: nat): (z: seq<Byte>)
    ensures |z| == n && forall i :: 0 <= i < n ==> z[i] == 0
  {
    seq<Byte>(n, i => 0)
  }

  /** The 13-byte name field of a record: the first 12 name bytes at most,
      zero-padded. */
  function NameField(name: seq<Byte>): (f: seq<Byte>)
    ensures |f| == NameFieldSize
  {
    var t := if |name| <= NameLimit then name else name[..NameLimit];
    t + Zeros(NameFieldSize - |t|)
  }

  /** Byte `k` of the name field is byte `k` of the name within the first 12,
      and zero after. */
  lemma NameFieldAt(name: seq<Byte>, k: nat)
    requires k < NameFieldSize
    ensures NameField(name)[k] == if k < |name| && k < NameLimit then name[k] else 0
  {
  }

  /** The name a stored entry reads back as. */
  function StoredName(name: seq<Byte>): seq<Byte>
  {
    CString(NameField(name))
  }

  /** A name without NUL bytes reads back as its first 12 bytes. */
  lemma StoredNameTruncates(name: seq<Byte>)
    requires forall i :: 0 <= i < |name| ==> name[i] != 0
    ensures StoredName(name) == if |name| <= NameLimit then name else name[..NameLimit]
  {
    var t := if |name| <= NameLimit then name else name[..NameLimit];
    CStringAppendNul(t, Zeros(NameFieldSize - |t|));
    CStringLenStops(t);
  }

  /** Sum of the payload sizes. */
  function SizeSum(items: seq<Item>): nat
  {
    if |items| == 0 then 0 else SizeSum(items[..|items| - 1]) + |items[|items| - 1].data|
  }

  /** The sizes before an entry, plus its own, never exceed the total. */
  lemma {:induction false} SizeSumPrefix(items: seq<Item>, j: nat)
    requires j < |items|
    ensures SizeSum(items[..j]) + |items[j].data| <= SizeSum(items)
    ensures SizeSum(items[..j + 1]) == SizeSum(items[..j]) + |items[j].data|
  {
    assert items[..j + 1][..j] == items[..j];
    if j < |items| - 1 {
      var init := items[..|items| - 1];
      assert init[..j] == items[..j] && init[..j + 1] == items[..j + 1] && init[j] == items[j];
      SizeSumPrefix(init, j);
    } else {
      assert items[..j + 1] == items;
    }
  }

  /** The images `write` can produce fit the 16-bit count and a `MemChunk`. */
  predicate Writable(items: seq<Item>)
  {
    |items| <= MaxEntries && FooterSize + SizeSum(items) + 21 * |items| < 0x1_0000_0000
  }

  /** Where `write` puts entry `j`'s payload: after the payloads before it. */
  function OffsetOf(items: seq<Item>, j: nat): (o: U32)
    requires j < |items| && SizeSum(items) < 0x1_0000_0000
    ensures o + |items[j].data| <= SizeSum(items)
  {
    SizeSumPrefix(items, j);
    SizeSum(items[..j])
  }

  /** One 21-byte directory record: size, offset, name field. */
  function RecordBytes(size: U32, offset: U32, name: seq<Byte>): (b: seq<Byte>)
    ensures |b| == RecordSize
  {
    LeU32(size) + LeU32(offset) + NameField(name)
  }

  /** Concatenation of byte blocks, in order. */
  function Flatten(blocks: seq<seq<Byte>>): seq<Byte>
  {
    if |blocks| == 0 then [] else Flatten(blocks[..|blocks| - 1]) + blocks[|blocks| - 1]
  }

  /** The payload blocks, in entry order. */
  function DataBlocks(items: seq<Item>): (blocks: seq<seq<Byte>>)
    ensures |blocks| == |items|
  {
    seq(|items|, j requires 0 <= j < |items| => items[j].data)
  }

  /** The directory records, in entry order. */
  function RecordBlocks(items: seq<Item>): (blocks: seq<seq<Byte>>)
    requires SizeSum(items) < 0x1_0000_0000
    ensures |blocks| == |items|
  {
    seq(|items|, j requires 0 <= j < |items| =>
      var o := OffsetOf(items, j);
      RecordBytes(|items[j].data|, o, items[j].name))
  }

  /** The image `write` produces. */
  function Serialize(items: seq<Item>): seq<Byte>
    requires Writable(items)
  {
    Flatten(DataBlocks(items)) + Flatten(RecordBlocks(items)) + LeU16(|items|)
  }

  /** One more block extends the concatenation by that block. */
  lemma FlattenSnoc(blocks: seq<seq<Byte>>, i: nat)
    requires i < |blocks|
    ensures Flatten(blocks[..i + 1]) == Flatten(blocks[..i]) + blocks[i]
  {
    assert blocks[..i + 1][..i] == blocks[..i];
  }

  /** The concatenation of the first `i` blocks is a prefix of the whole. */
  lemma {:induction false} FlattenPrefix(blocks: seq<seq<Byte>>, i: nat)
    requires i <= |blocks|
    ensures |Flatten(blocks[..i])| <= |Flatten(blocks)|
    ensures Flatten(blocks)[..|Flatten(blocks[..i])|] == Flatten(blocks[..i])
    decreases |blocks|
  {
    if i == |blocks| {
      assert blocks[..i] == blocks;
    } else {
      var init := blocks[..|blocks| - 1];
      assert init[..i] == blocks[..i];
      FlattenPrefix(init, i);
    }
  }

  /** Block `i` sits in the concatenation right after the blocks before it. */
  lemma FlattenBlock(blocks: seq<seq<Byte>>, i: nat)
    requires i < |blocks|
    ensures |Flatten(blocks[..i])| + |blocks[i]| <= |Flatten(blocks)|
    ensures Flatten(blocks)[|Flatten(blocks[..i])|..|Flatten(blocks[..i])| + |blocks[i]|] == blocks[i]
  {
    assert blocks[..i + 1][..i] == blocks[..i];
    assert Flatten(blocks[..i + 1]) == Flatten(blocks[..i]) + blocks[i];
    FlattenPrefix(blocks, i + 1);
  }

  /** The payload region is as long as the sizes add up to. */
  lemma {:induction false} DataBlocksLength(items: seq<Item>)
    ensures |Flatten(DataBlocks(items))| == SizeSum(items)
  {
    if |items| > 0 {
      var init := items[..|items| - 1];
      assert DataBlocks(items)[..|items| - 1] == DataBlocks(init);
      DataBlocksLength(init);
    }
  }

  /** Blocks all `RecordSize` long concatenate to `RecordSize` bytes each. */
  lemma {:induction false} UniformLength(blocks: seq<seq<Byte>>)
    requires forall j :: 0 <= j < |blocks| ==> |blocks[j]| == RecordSize
    ensures |Flatten(blocks)| == 21 * |blocks|
  {
    if |blocks| > 0 {
      UniformLength(blocks[..|blocks| - 1]);
    }
  }

  /** The image is exactly payloads, then 21 bytes per entry, then the footer. */
  lemma SerializeLength(items: seq<Item>)
    requires Writable(items)
    ensures |Serialize(items)| == FooterSize + SizeSum(items) + 21 * |items|
    ensures Serialize(items)[..SizeSum(items)] == Flatten(DataBlocks(items))
    ensures Serialize(items)[SizeSum(items)..SizeSum(items) + 21 * |items|] == Flatten(RecordBlocks(items))
    ensures Serialize(items)[SizeSum(items) + 21 * |items|..] == LeU16(|items|)
  {
    DataBlocksLength(items);
    UniformLength(RecordBlocks(items));
    ConcatParts(Flatten(DataBlocks(items)), Flatten(RecordBlocks(items)), LeU16(|items|));
  }

  /** The three parts of a concatenation, each at its place. */
  lemma ConcatParts(x: seq<Byte>, y: seq<Byte>, z: seq<Byte>)
    ensures (x + y + z)[..|x|] == x
    ensures (x + y + z)[|x|..|x| + |y|] == y
    ensures (x + y + z)[|x| + |y|..] == z
  {
    assert forall k :: 0 <= k < |x| ==> (x + y + z)[..|x|][k] == x[k];
    assert forall k :: 0 <= k < |y| ==> (x + y + z)[|x|..|x| + |y|][k] == y[k];
    assert forall k :: 0 <= k < |z| ==> (x + y + z)[|x| + |y|..][k] == z[k];
  }

  /** The footer of the image decodes as the entry count, so the directory
      start `open` derives is the end of the payload region. */
  lemma SerializeAnchor(items: seq<Item>)
    requires Writable(items)
    ensures EntryCount(Serialize(items)) == |items|
    ensures DirOffset(Serialize(items)) == SizeSum(items)
  {
    var body := Flatten(DataBlocks(items)) + Flatten(RecordBlocks(items));
    DataBlocksLength(items);
    UniformLength(RecordBlocks(items));
    assert Serialize(items) == body + LeU16(|items|);
    FooterAnchor(body, |items|, SizeSum(items));
  }

  /** Behind `payload` bytes and `n` records, the footer gives back `n` and
      the directory starts right after the payloads. */
  lemma FooterAnchor(body: seq<Byte>, n: U16, payload: nat)
    requires |body| == payload + 21 * n && FooterSize + |body| < 0x1_0000_0000
    ensures EntryCount(body + LeU16(n)) == n
    ensures DirOffset(body + LeU16(n)) == payload
  {
    FooterDecodes(body, n);
  }

  /** The count written last is the count read back. */
  lemma FooterDecodes(body: seq<Byte>, n: U16)
    ensures EntryCount(body + LeU16(n)) == n
  {
    ConcatTail(body, LeU16(n));
    LeU16RoundTrip(body + LeU16(n), |body|, n);
  }

  /** Record `d` sits `21 * d` bytes into the directory part of the image. */
  lemma RecordBlockAt(items: seq<Item>, d: nat)
    requires Writable(items) && d < |items|
    ensures 21 * d + RecordSize <= |Flatten(RecordBlocks(items))|
    ensures Flatten(RecordBlocks(items))[21 * d..21 * d + RecordSize] ==
      RecordBytes(|items[d].data|, OffsetOf(items, d), items[d].name)
  {
    var blocks := RecordBlocks(items);
    UniformLength(blocks[..d]);
    FlattenBlock(blocks, d);
  }

  /** The 21 bytes of record `d` in the image. */
  lemma SerializeRecordBytes(items: seq<Item>, d: nat)
    requires Writable(items) && d < |items|
    ensures var p := SizeSum(items) + 21 * d;
      p + RecordSize <= |Serialize(items)| &&
      Serialize(items)[p..p + RecordSize] == RecordBytes(|items[d].data|, OffsetOf(items, d), items[d].name)
  {
    var pre := Flatten(DataBlocks(items));
    var dir := Flatten(RecordBlocks(items));
    DataBlocksLength(items);
    RecordBlockAt(items, d);
    ConcatSlice(pre, dir, LeU16(|items|), 21 * d, 21 * d + RecordSize);
  }

  /** The tail part of a concatenation. */
  lemma ConcatTail(x: seq<Byte>, y: seq<Byte>)
    ensures (x + y)[|x|..|x| + |y|] == y
  {
    assert forall k :: 0 <= k < |y| ==> (x + y)[|x|..|x| + |y|][k] == y[k];
  }

  /** A slice of a slice is a slice of the original. */
  lemma SliceOfSlice(s: seq<Byte>, p: nat, q: nat, i: nat, j: nat)
    requires p <= q <= |s| && i <= j <= q - p
    ensures s[p..q][i..j] == s[p + i..p + j]
  {
    assert forall k :: 0 <= k < j - i ==> s[p..q][i..j][k] == s[p + i..p + j][k];
  }

  /** A slice inside the middle part of a concatenation. */
  lemma ConcatSlice(x: seq<Byte>, y: seq<Byte>, z: seq<Byte>, i: nat, j: nat)
    requires i <= j <= |y|
    ensures (x + y + z)[|x| + i..|x| + j] == y[i..j]
  {
    assert forall k :: 0 <= k < j - i ==> (x + y + z)[|x| + i..|x| + j][k] == y[i..j][k];
  }

  /** The size field of a written record decodes to its size. */
  lemma SizeFieldDecodes(s: seq<Byte>, p: nat, size: U32, offset: U32, name: seq<Byte>)
    requires p + RecordSize <= |s| && s[p..p + RecordSize] == RecordBytes(size, offset, name)
    ensures LeU32At(s, p) == size
  {
    ConcatSlice([], LeU32(size), LeU32(offset) + NameField(name), 0, 4);
    SliceOfSlice(s, p, p + RecordSize, 0, 4);
    LeU32RoundTrip(s, p, size);
  }

  /** The offset field of a written record decodes to its offset. */
  lemma OffsetFieldDecodes(s: seq<Byte>, p: nat, size: U32, offset: U32, name: seq<Byte>)
    requires p + RecordSize <= |s| && s[p..p + RecordSize] == RecordBytes(size, offset, name)
    ensures LeU32At(s, p + 4) == offset
  {
    ConcatSlice(LeU32(size), LeU32(offset), NameField(name), 0, 4);
    SliceOfSlice(s, p, p + RecordSize, 4, 8);
    LeU32RoundTrip(s, p + 4, offset);
  }

  /** The name field of a written record reads back as the name buffer and a
      zero separator. */
  lemma NameFieldDecodes(s: seq<Byte>, p: nat, size: U32, offset: U32, name: seq<Byte>)
    requires p + RecordSize <= |s| && s[p..p + RecordSize] == RecordBytes(size, offset, name)
    ensures NameBuffer(s, p + 8) == NameField(name) && ByteAt(s, p + 20) == 0
  {
    var nf := NameField(name);
    ConcatSlice(LeU32(size) + LeU32(offset), nf, [], 0, NameLimit);
    SliceOfSlice(s, p, p + RecordSize, 8, 20);
    NameFieldAt(name, NameLimit);
    assert nf == nf[..NameLimit] + [nf[NameLimit]];
    assert BytesAt(s, p + 8, NameLimit) == nf[..NameLimit];
    assert s[p + 20] == s[p..p + RecordSize][20] == nf[NameLimit];
  }

  /** The 21 bytes of a written record decode, as `open` reads them, to its
      size, offset and stored name, and, as the detectors read them, to its
      size, offset, zero-padded name field and a zero separator. */
  lemma RecordDecodes(s: seq<Byte>, p: nat, size: U32, offset: U32, name: seq<Byte>)
    requires p + RecordSize <= |s| && s[p..p + RecordSize] == RecordBytes(size, offset, name)
    ensures RecordAt(s, p) == Record(size, offset, StoredName(name))
    ensures FirstRecordAt(s, p) == FirstRecord(size, offset, NameField(name), 0)
  {
    SizeFieldDecodes(s, p, size, offset, name);
    OffsetFieldDecodes(s, p, size, offset, name);
    NameFieldDecodes(s, p, size, offset, name);
  }

  /** Record `d` of the image decodes to entry `d`'s size, offset and name. */
  lemma SerializeRecord(items: seq<Item>, d: nat)
    requires Writable(items) && d < |items|
    ensures d < |DirectoryRecords(Serialize(items))|
    ensures DirectoryRecords(Serialize(items))[d] == Record(|items[d].data|, OffsetOf(items, d), StoredName(items[d].name))
  {
    var p := SizeSum(items) + 21 * d;
    SerializeAnchor(items);
    SerializeRecordBytes(items, d);
    RecordDecodes(Serialize(items), p, |items[d].data|, OffsetOf(items, d), items[d].name);
    DirectoryRecordAt(Serialize(items), d, p);
  }

  /** Entry `d`'s payload sits in the image at its offset. */
  lemma SerializePayload(items: seq<Item>, d: nat)
    requires Writable(items) && d < |items|
    ensures OffsetOf(items, d) + |items[d].data| <= |Serialize(items)|
    ensures Serialize(items)[OffsetOf(items, d)..OffsetOf(items, d) + |items[d].data|] == items[d].data
  {
    var s := Serialize(items);
    var blocks := DataBlocks(items);
    SerializeLength(items);
    FlattenBlock(blocks, d);
    assert blocks[..d] == DataBlocks(items[..d]);
    DataBlocksLength(items[..d]);
    var o := OffsetOf(items, d);
    SliceOfSlice(s, 0, SizeSum(items), o, o + |items[d].data|);
  }

  /** Round trip: `open` accepts what `write` produces and reads back every
      entry, in order, with its size, its new offset, its name cut to 12 bytes
      and its payload. */
  lemma RoundTrip(items: seq<Item>)
    requires Writable(items)
    ensures OpenAcceptsExact(Serialize(items)) && OpenAccepts(Serialize(items))
    ensures |OpenedRecords(Serialize(items))| == |items|
    ensures forall d :: 0 <= d < |items| ==>
      OpenedRecords(Serialize(items))[d] == Record(|items[d].data|, OffsetOf(items, d), StoredName(items[d].name)) &&
      Payload(Serialize(items), OpenedRecords(Serialize(items))[d]) == items[d].data
  {
    var s := Serialize(items);
    SerializeAnchor(items);
    SerializeLength(items);
    forall d | 0 <= d < |items|
      ensures DirectoryRecords(s)[d] == Record(|items[d].data|, OffsetOf(items, d), StoredName(items[d].name))
      ensures Fits(DirectoryRecords(s)[d], DirOffset(s))
      ensures Payload(s, DirectoryRecords(s)[d]) == items[d].data
    {
      SerializeRecord(items, d);
      SerializePayload(items, d);
    }
    ExactAcceptsAsWritten(s);
  }

  /** The memory detector recognises a written image whose first name is
      acceptable, as long as the image is at least 64 bytes and small enough
      for the signed directory start. */
  lemma SerializeDetected(items: seq<Item>)
    requires Writable(items) && |items| >= 1
    requires MinImageSize <= |Serialize(items)| < 0x8000_0000
    requires NameAcceptable(NameField(items[0].name), MemMinNameLen)
    ensures IsLibImage(Serialize(items))
  {
    var s := Serialize(items);
    SerializeAnchor(items);
    SerializeRecordBytes(items, 0);
    SerializeLength(items);
    assert SignedDirOffset(s) == SizeSum(items);
    assert OffsetOf(items, 0) == 0 by {
      assert items[..0] == [];
    }
    RecordDecodes(s, SizeSum(items), |items[0].data|, 0, items[0].name);
  }
}
