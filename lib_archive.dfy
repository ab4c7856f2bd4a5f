/** The Shadowcaster `.lib` archive: opening an image into an ordered entry
    list, writing the list back out, loading one entry's payload from the
    backing file on demand, and recognising the format. */
module Archive {
  import opened Bytes
  import opened LibFormat

  /** Modification state of an entry, as the editor tracks it. */
  datatype EntryState = Unmodified | Modified | New

  /** An archive entry: its name, its size, its "Offset" extra property (where
      its payload starts in the backing file), whether its payload is in
      memory, its modification state and the payload itself. */
  datatype Entry = Entry(name: seq<Byte>, size: U32, offset: U32, loaded: bool, state: EntryState, data: seq<Byte>)

  /** A loaded entry holds exactly `size` bytes; an unloaded one holds none. */
  predicate EntryValid(e: Entry)
  {
    if e.loaded then |e.data| == e.size else e.data == []
  }

  // ---------------------------------------------------------------------------
  // What `open` makes of an image

  /** The entry the directory loop of `open` makes for record `r`: named and
      sized from the record, not loaded, its Offset property set, unmodified. */
  function ListedEntry(r: Record): (e: Entry)
    ensures EntryValid(e)
  {
    Entry(r.name, r.size, r.offset, false, Unmodified, [])
  }

  /** The entries of the directory loop, one per record, in order. */
  function ListedEntries(recs: seq<Record>): (es: seq<Entry>)
    ensures |es| == |recs|
  {
    seq(|recs|, i requires 0 <= i < |recs| => ListedEntry(recs[i]))
  }

  /** One more record lists one more entry. */
  lemma ListedEntriesSnoc(recs: seq<Record>, r: Record)
    ensures ListedEntries(recs + [r]) == ListedEntries(recs) + [ListedEntry(r)]
  {
  }

  /** A prefix one longer is the prefix and the next element. */
  lemma PrefixSnoc<T>(xs: seq<T>, d: nat)
    requires d < |xs|
    ensures xs[..d + 1] == xs[..d] + [xs[d]]
  {
  }

  /** Two sequences that agree from `i` on agree from any later `k` on. */
  lemma SameSuffix(x: seq<Byte>, y: seq<Byte>, i: nat, k: nat)
    requires i <= k <= |x| && k <= |y| && x[i..] == y[i..]
    ensures x[k..] == y[k..]
  {
    assert x[k..] == x[i..][k - i..];
    assert y[k..] == y[i..][k - i..];
  }

  /** A block written at `pos` into a buffer that held `done` before `pos` and
      the original bytes from `pos` on: it now holds `done` and the block, and
      still the original bytes after the block. */
  lemma BlockWritten(before: seq<Byte>, after: seq<Byte>, orig: seq<Byte>, pos: nat, block: seq<Byte>, done: seq<Byte>)
    requires pos + |block| <= |before| == |after| == |orig|
    requires before[..pos] == done && before[pos..] == orig[pos..]
    requires after[..pos + |block|] == before[..pos] + block
    requires after[pos + |block|..] == before[pos + |block|..]
    ensures after[..pos + |block|] == done + block
    ensures after[pos + |block|..] == orig[pos + |block|..]
  {
    SameSuffix(before, orig, pos, pos + |block|);
  }

  /** Entry of record `r` after the payload loop of `open`: a non-empty entry
      holds the bytes `[offset, offset + size)` of `mc` and is loaded; an
      empty one stays unloaded. */
  function OpenedEntry(r: Record, mc: seq<Byte>): (e: Entry)
    ensures EntryValid(e)
  {
    if r.size > 0 then ListedEntry(r).(loaded := true, data := Payload(mc, r)) else ListedEntry(r)
  }

  /** The entries a successful `open` of `mc` leaves in the archive. */
  function OpenedEntries(mc: seq<Byte>): (es: seq<Entry>)
    ensures |es| == |OpenedRecords(mc)|
  {
    var recs := OpenedRecords(mc);
    seq(|recs|, i requires 0 <= i < |recs| => OpenedEntry(recs[i], mc))
  }

  /** What a successful `open` leaves: one entry per record, in directory
      order, with the record's name, size and offset, unmodified; an entry is
      loaded exactly when it is not empty. A loaded entry's extent either lies
      before the directory, and the entry then holds the bytes of the image
      there, or passes 2^32 (the 32-bit test let it through), and then runs
      past the end of the image. */
  lemma OpenedEntriesAre(mc: seq<Byte>, i: nat)
    requires FitsMemChunk(mc) && OpenAccepts(mc) && i < |OpenedEntries(mc)|
    ensures var e := OpenedEntries(mc)[i];
      var r := DirectoryRecords(mc)[i];
      e.name == r.name && e.size == r.size && e.offset == r.offset && e.state == Unmodified &&
      e.loaded == (e.size > 0) && (e.size == 0 ==> e.data == []) &&
      (e.size > 0 ==> |e.data| == e.size) &&
      (e.size > 0 && e.offset + e.size < 0x1_0000_0000 ==>
        e.offset + e.size <= |mc| - DirectorySpan(mc) && e.data == mc[e.offset..e.offset + e.size]) &&
      (e.size > 0 && e.offset + e.size >= 0x1_0000_0000 ==> e.offset + e.size > |mc|)
  {
    var r := DirectoryRecords(mc)[i];
    if r.size > 0 {
      AcceptedExtentCases(mc, i);
    }
  }

  // ---------------------------------------------------------------------------
  // What `write` makes of the entries

  /** What `write` takes from the entries: names and payloads, in order. */
  function Items(es: seq<Entry>): (items: seq<Item>)
    ensures |items| == |es|
    ensures forall i :: 0 <= i < |es| ==> items[i] == Item(es[i].name, es[i].data)
  {
    seq(|es|, i requires 0 <= i < |es| => Item(es[i].name, es[i].data))
  }

  /** Every payload is in memory: each entry holds `size` bytes. */
  predicate PayloadsInMemory(es: seq<Entry>)
  {
    forall i :: 0 <= i < |es| ==> |es[i].data| == es[i].size
  }

  /** The entries after a successful `write`: each one's Offset property is
      the sum of the sizes before it, and with `update` it is unmodified. */
  function Rewritten(es: seq<Entry>, update: bool): (ws: seq<Entry>)
    requires SizeSum(Items(es)) < 0x1_0000_0000
    ensures |ws| == |es|
  {
    seq(|es|, i requires 0 <= i < |es| =>
      es[i].(offset := OffsetOf(Items(es), i), state := if update then Unmodified else es[i].state))
  }

  /** `write` changes only the Offset property and the state: names, sizes,
      load flags and payloads stay, so a second `write` produces the same
      image. With `update` every entry ends unmodified, otherwise each keeps
      its state. */
  lemma RewrittenKeeps(es: seq<Entry>, update: bool)
    requires PayloadsInMemory(es) && SizeSum(Items(es)) < 0x1_0000_0000
    ensures Items(Rewritten(es, update)) == Items(es)
    ensures PayloadsInMemory(Rewritten(es, update))
    ensures forall i :: 0 <= i < |es| ==>
      Rewritten(es, update)[i].name == es[i].name && Rewritten(es, update)[i].size == es[i].size &&
      Rewritten(es, update)[i].loaded == es[i].loaded && Rewritten(es, update)[i].data == es[i].data
    ensures forall i :: 0 <= i < |es| ==>
      Rewritten(es, update)[i].state == if update then Unmodified else es[i].state
  {
    var ws := Rewritten(es, update);
    assert Items(ws) == Items(es);
  }

  /** The Offset properties `write` assigns are the running sums of the
      sizes: the first entry starts at 0 and each next one right after the
      payload before it. */
  lemma RewrittenOffsets(es: seq<Entry>, update: bool)
    requires PayloadsInMemory(es) && SizeSum(Items(es)) < 0x1_0000_0000
    ensures |es| > 0 ==> Rewritten(es, update)[0].offset == 0
    ensures forall i :: 0 <= i < |es| - 1 ==>
      Rewritten(es, update)[i + 1].offset == Rewritten(es, update)[i].offset + es[i].size
  {
    var items := Items(es);
    var ws := Rewritten(es, update);
    if |es| > 0 {
      assert items[..0] == [];
    }
    forall i | 0 <= i < |es| - 1
      ensures ws[i + 1].offset == ws[i].offset + es[i].size
    {
      SizeSumPrefix(items, i);
    }
  }

  /** An entry as the record loop of `write` leaves it: with `update`,
      marked unmodified. */
  function Marked(e: Entry, update: bool): Entry
  {
    if update then e.(state := Unmodified) else e
  }

  /** How the three loops of `write` fit together: after the offsets are
      assigned, the entries still carry the same names and payloads, record
      `i` of the image describes entry `i` as it now stands, and marking the
      entries unmodified (with `update`) completes the rewrite. */
  lemma WriteLayout(es: seq<Entry>, update: bool)
    requires PayloadsInMemory(es) && Writable(Items(es))
    ensures Items(Rewritten(es, false)) == Items(es)
    ensures forall i :: 0 <= i < |es| ==>
      RecordBlocks(Items(es))[i] ==
        RecordBytes(Rewritten(es, false)[i].size, Rewritten(es, false)[i].offset, Rewritten(es, false)[i].name)
    ensures forall i :: 0 <= i < |es| ==> Rewritten(es, update)[i] == Marked(Rewritten(es, false)[i], update)
  {
    RewrittenKeeps(es, false);
  }

  /** Writing with `update` and opening the image again gives back every entry,
      in order, with its size, its payload and the Offset property `write`
      gave it, unmodified, and with its name cut to 12 bytes. */
  lemma WriteThenOpen(es: seq<Entry>)
    requires PayloadsInMemory(es) && Writable(Items(es))
    ensures OpenAccepts(Serialize(Items(es)))
    ensures |OpenedEntries(Serialize(Items(es)))| == |es|
    ensures forall i :: 0 <= i < |es| ==>
      var e := OpenedEntries(Serialize(Items(es)))[i];
      var w := Rewritten(es, true)[i];
      e.name == StoredName(w.name) && e.size == w.size && e.offset == w.offset &&
      e.data == w.data && e.state == w.state == Unmodified
  {
    RoundTrip(Items(es));
    forall i | 0 <= i < |es|
      ensures var e := OpenedEntries(Serialize(Items(es)))[i];
        var w := Rewritten(es, true)[i];
        e.name == StoredName(w.name) && e.size == w.size && e.offset == w.offset &&
        e.data == w.data && e.state == w.state == Unmodified
    {
      WriteThenOpenAt(es, i);
    }
  }

  /** Entry `i` of the image `write` produced, opened again. */
  lemma WriteThenOpenAt(es: seq<Entry>, i: nat)
    requires PayloadsInMemory(es) && Writable(Items(es)) && i < |es|
    ensures i < |OpenedEntries(Serialize(Items(es)))|
    ensures var e := OpenedEntries(Serialize(Items(es)))[i];
      var w := Rewritten(es, true)[i];
      e.name == StoredName(w.name) && e.size == w.size && e.offset == w.offset &&
      e.data == w.data && e.state == w.state == Unmodified
  {
    var items := Items(es);
    var s := Serialize(items);
    RoundTrip(items);
    var r := OpenedRecords(s)[i];
    assert r == Record(|es[i].data|, OffsetOf(items, i), StoredName(es[i].name));
    assert OpenedEntries(s)[i] == OpenedEntry(r, s);
    if es[i].size == 0 {
      assert es[i].data == [];
    }
  }

  // ---------------------------------------------------------------------------
  // Reading and writing fields through a cursor

  /** The three reads of one directory record at `cursor`: size, offset and
      the 13-byte name whose last byte is then forced to NUL. The entry name
      is the C string in that buffer. */
  method ReadRecord(mc: seq<Byte>, cursor: int) returns (size: U32, offset: U32, name: seq<Byte>)
    ensures Record(size, offset, name) == RecordAt(mc, cursor)
    ensures |name| <= NameLimit && forall k :: 0 <= k < |name| ==> name[k] != 0
  {
    size := LeU32At(mc, cursor);
    offset := LeU32At(mc, cursor + 4);
    var myname := NameBuffer(mc, cursor + 8);
    CStringLenStops(myname);
    name := CString(myname);
  }

  /** The name field of a directory record, filled the way `write` does:
      `name[c] = entry->name()[c]` for the first 12 characters of a
      zero-initialised 13-byte buffer. */
  method EncodeNameField(name: seq<Byte>) returns (field: seq<Byte>)
    ensures field == NameField(name)
    ensures |field| == NameFieldSize && field[NameLimit] == 0
  {
    var buf := new Byte[NameFieldSize];
    forall k | 0 <= k < NameFieldSize {
      buf[k] := 0;
    }
    var c := 0;
    while c < |name| && c < NameLimit
      invariant 0 <= c <= NameLimit && c <= |name|
      invariant forall k :: 0 <= k < c ==> buf[k] == name[k]
      invariant forall k :: c <= k < NameFieldSize ==> buf[k] == 0
    {
      buf[c] := name[c];
      c := c + 1;
    }
    field := buf[..];
    forall k | 0 <= k < NameFieldSize
      ensures field[k] == NameField(name)[k]
    {
      NameFieldAt(name, k);
    }
  }

  /** `mc.write`: copies `bytes` into `buf` at the cursor `pos`. */
  method WriteAt(buf: array<Byte>, pos: nat, bytes: seq<Byte>)
    requires pos + |bytes| <= buf.Length
    modifies buf
    ensures buf[..pos] == old(buf[..pos])
    ensures buf[pos..pos + |bytes|] == bytes
    ensures buf[pos + |bytes|..] == old(buf[pos + |bytes|..])
  {
    var k := 0;
    while k < |bytes|
      invariant 0 <= k <= |bytes|
      invariant buf[..pos] == old(buf[..pos])
      invariant buf[pos..pos + k] == bytes[..k]
      invariant buf[pos + |bytes|..] == old(buf[pos + |bytes|..])
    {
      buf[pos + k] := bytes[k];
      k := k + 1;
      assert buf[pos..pos + k] == buf[pos..pos + k - 1] + [bytes[k - 1]];
    }
  }

  /** `mc.write` of one directory record: size, offset and the name field
      built from `name`. */
  method WriteRecord(buf: array<Byte>, pos: nat, size: U32, offset: U32, name: seq<Byte>)
    requires pos + RecordSize <= buf.Length
    modifies buf
    ensures buf[..pos + RecordSize] == old(buf[..pos]) + RecordBytes(size, offset, name)
    ensures buf[pos + RecordSize..] == old(buf[pos + RecordSize..])
  {
    var field := EncodeNameField(name);
    WriteAt(buf, pos, LeU32(size));
    assert buf[..pos + 4] == buf[..pos] + buf[pos..pos + 4];
    WriteAt(buf, pos + 4, LeU32(offset));
    assert buf[..pos + 8] == buf[..pos + 4] + buf[pos + 4..pos + 8];
    WriteAt(buf, pos + 8, field);
    assert buf[..pos + 21] == buf[..pos + 8] + buf[pos + 8..pos + 21];
  }

  /** The directory loop of `open`: one unloaded entry per record, read
      through a cursor from the derived directory start, stopping with failure
      at the first record whose extent, summed in 32 bits, runs into the
      directory. The entries made before that record are kept. */
  method ReadDirectory(mc: seq<Byte>) returns (ok: bool, list: seq<Entry>)
    requires |mc| > 0
    ensures ok == OpenAccepts(mc)
    ensures list == ListedEntries(OpenedRecords(mc))
  {
    // Footer: the entry count, then the directory start in 32 bits.
    var numLumps: int := EntryCount(mc);
    var dirOffset: U32 := DirOffset(mc);
    ghost var recs := DirectoryRecords(mc);

    var cursor: int := dirOffset;
    list := [];
    ghost var read: seq<Record> := [];
    var d := 0;
    while d < numLumps
      invariant 0 <= d <= numLumps
      invariant cursor == dirOffset + 21 * d
      invariant read == recs[..d]
      invariant forall i :: 0 <= i < d ==> FitsAsWritten(read[i], dirOffset)
      invariant list == ListedEntries(read)
    {
      var size, offset, name := ReadRecord(mc, cursor);
      DirectoryRecordAt(mc, d, cursor);
      ghost var r := Record(size, offset, name);
      cursor := cursor + 21;

      // The sum of two `uint32_t` values wraps around at 2^32.
      if Wrap32(offset as int + size as int) > dirOffset {
        assert !FitsAsWritten(recs[d], dirOffset);
        OpenStopsAt(mc, read);
        return false, list;
      }
      assert FitsAsWritten(r, dirOffset);

      var nlump := Entry(name, size, offset, false, Unmodified, []);
      PrefixSnoc(recs, d);
      ListedEntriesSnoc(read, r);
      list, read := list + [nlump], read + [r];
      d := d + 1;
    }
    assert read == recs;
    OpenAcceptsAll(mc, read);
    ok := true;
  }

  /** A `.lib` archive: its entries in directory order, its modified flag and
      the backing file it was opened from. */
  class LibArchive {
    var entries: seq<Entry>
    var modified: bool
    var file: DiskFile

    /** Every entry is consistent on its own. */
    ghost predicate Valid()
      reads this
    {
      forall i :: 0 <= i < |entries| ==> EntryValid(entries[i])
    }

    /** An empty archive backed by `file`. */
    constructor (file: DiskFile)
      ensures Valid() && entries == [] && !modified && this.file == file
    {
      entries := [];
      modified := false;
      this.file := file;
    }

    /** `getEntryOffset`: the Offset property of entry `index`, or 0 when the
        archive has no such entry. */
    method GetEntryOffset(index: int) returns (offset: U32)
      ensures 0 <= index < |entries| ==> offset == entries[index].offset
      ensures !(0 <= index < |entries|) ==> offset == 0
    {
      if !(0 <= index < |entries|) {
        return 0;
      }
      offset := entries[index].offset;
    }

    /** `setEntryOffset`: sets the Offset property of entry `index`; nothing
        changes when the archive has no such entry. */
    method SetEntryOffset(index: int, offset: U32)
      modifies this
      ensures modified == old(modified) && file == old(file)
      ensures entries == if 0 <= index < |old(entries)| then old(entries)[index := old(entries)[index].(offset := offset)]
                         else old(entries)
    {
      if !(0 <= index < |entries|) {
        return;
      }
      entries := entries[index := entries[index].(offset := offset)];
    }

    /** `open`: reads the directory of the image `mc` into entries, then copies
        every non-empty payload out of `mc`. Fails when `mc` is empty or when a
        record's extent runs into the directory; the entries read before the
        bad record stay in the archive. */
    method Open(mc: seq<Byte>) returns (ok: bool)
      requires entries == [] && FitsMemChunk(mc)
      modifies this
      ensures Valid() && file == old(file)
      ensures ok == OpenAccepts(mc)
      ensures ok ==> entries == OpenedEntries(mc) && !modified
      ensures !ok ==> entries == ListedEntries(OpenedRecords(mc)) && modified == old(modified)
    {
      if |mc| == 0 {
        return false;
      }
      var list;
      ok, list := ReadDirectory(mc);
      entries := list;
      if !ok {
        return;
      }
      LoadPayloads(mc);
      modified := false;
    }

    /** The payload loop of `open`: every non-empty entry takes its bytes from
        `mc` at its Offset property, and every entry is marked unmodified. */
    method LoadPayloads(mc: seq<Byte>)
      requires OpenAccepts(mc) && entries == ListedEntries(DirectoryRecords(mc))
      modifies this
      ensures entries == OpenedEntries(mc)
      ensures modified == old(modified) && file == old(file)
    {
      ghost var recs := DirectoryRecords(mc);
      var a := 0;
      while a < |entries|
        invariant 0 <= a <= |entries| == |recs|
        invariant forall i :: 0 <= i < |recs| ==>
          entries[i] == if i < a then OpenedEntry(recs[i], mc) else ListedEntry(recs[i])
        invariant modified == old(modified) && file == old(file)
      {
        LoadEntryPayload(mc, a, recs[a]);
        a := a + 1;
      }
      assert OpenedRecords(mc) == recs;
    }

    /** One pass of the payload loop of `open`: a non-empty entry takes its
        bytes from `mc` at its Offset property, with zeros for bytes past the
        end of `mc`; the entry is marked unmodified. */
    method LoadEntryPayload(mc: seq<Byte>, a: nat, ghost r: Record)
      requires a < |entries| && entries[a] == ListedEntry(r)
      modifies this
      ensures entries == old(entries)[a := OpenedEntry(r, mc)]
      ensures modified == old(modified) && file == old(file)
    {
      var entry := entries[a];
      if entry.size > 0 {
        var off := GetEntryOffset(a);
        var edata := BytesAt(mc, off, entry.size);
        entry := entry.(data := edata, loaded := true);
      }
      // Entry type detection leaves the bytes and the size alone.
      entry := entry.(state := Unmodified);
      entries := entries[a := entry];
    }

    /** `write`: lays the entries out as payloads from offset 0, then one record
        per entry, then the count, rewriting every entry's Offset property on
        the way. Fails, writing nothing, with more than 65535 entries. With
        `update`, entries are also marked unmodified. */
    method Write(mc: seq<Byte>, update: bool) returns (ok: bool, image: seq<Byte>)
      requires Valid() && PayloadsInMemory(entries)
      requires FooterSize + SizeSum(Items(entries)) + 21 * |entries| < 0x1_0000_0000
      modifies this
      ensures modified == old(modified) && file == old(file)
      ensures ok == (|old(entries)| <= MaxEntries)
      ensures !ok ==> image == mc && entries == old(entries)
      ensures ok ==> image == Serialize(Items(old(entries))) && entries == Rewritten(old(entries), update)
    {
      if |entries| > MaxEntries {
        return false, mc;
      }
      ghost var es := entries;
      var total := AssignOffsets();
      WriteLayout(es, update);
      image := WriteImage(total, update, Items(es));
      assert entries == Rewritten(es, update);
      ok := true;
    }

    /** The buffer `write` fills once the offsets are assigned: the payloads,
        the records and the count. With `update` the entries are marked
        unmodified on the way. */
    method WriteImage(total: nat, update: bool, ghost items: seq<Item>) returns (image: seq<Byte>)
      requires items == Items(entries) && Writable(items) && total == SizeSum(items)
      requires forall i :: 0 <= i < |entries| ==>
        RecordBlocks(items)[i] == RecordBytes(entries[i].size, entries[i].offset, entries[i].name)
      modifies this
      ensures image == Serialize(items)
      ensures |entries| == |old(entries)|
      ensures forall i :: 0 <= i < |entries| ==> entries[i] == Marked(old(entries)[i], update)
      ensures modified == old(modified) && file == old(file)
    {
      var buf := new Byte[FooterSize + total + |entries| * 21];
      var pos := WritePayloads(buf, items);
      pos := WriteDirectory(buf, pos, update, RecordBlocks(items));
      WriteAt(buf, pos, LeU16(|entries|));
      assert buf[..] == buf[..pos] + buf[pos..pos + 2];
      image := buf[..];
    }

    /** The first loop of `write`: each entry's Offset property becomes the sum
        of the sizes before it; the result is the sum of all sizes. */
    method AssignOffsets() returns (total: nat)
      requires PayloadsInMemory(entries) && Writable(Items(entries))
      modifies this
      ensures total == SizeSum(Items(old(entries)))
      ensures entries == Rewritten(old(entries), false)
      ensures modified == old(modified) && file == old(file)
    {
      ghost var es := entries;
      ghost var items := Items(es);
      total := 0;
      var l := 0;
      while l < |entries|
        invariant 0 <= l <= |entries| == |es|
        invariant total == SizeSum(items[..l])
        invariant forall i :: 0 <= i < l ==> entries[i] == Rewritten(es, false)[i]
        invariant forall i :: l <= i < |entries| ==> entries[i] == es[i]
        invariant modified == old(modified) && file == old(file)
      {
        SizeSumPrefix(items, l);
        var size := entries[l].size;
        SetEntryOffset(l, total);
        total := total + size;
        l := l + 1;
      }
      assert items[..|entries|] == items;
    }

    /** The second loop of `write`: the payloads, one after another from the
        start of the buffer. */
    method WritePayloads(buf: array<Byte>, ghost items: seq<Item>) returns (pos: nat)
      requires items == Items(entries) && Writable(items)
      requires buf.Length == FooterSize + SizeSum(items) + 21 * |items|
      modifies buf
      ensures pos == SizeSum(items)
      ensures buf[..pos] == Flatten(DataBlocks(items))
      ensures buf[pos..] == old(buf[pos..])
    {
      ghost var orig := buf[..];
      pos := 0;
      var l := 0;
      assert items[..0] == [];
      while l < |entries|
        invariant 0 <= l <= |entries|
        invariant pos == SizeSum(items[..l]) && pos <= SizeSum(items)
        invariant buf[..pos] == Flatten(DataBlocks(items)[..l])
        invariant buf[pos..] == orig[pos..]
      {
        SizeSumPrefix(items, l);
        var data := entries[l].data;
        WritePayloadStep(buf, pos, l, items, orig);
        pos := pos + |data|;
        l := l + 1;
      }
      assert DataBlocks(items)[..|entries|] == DataBlocks(items);
      assert items[..|entries|] == items;
    }

    /** One pass of the payload loop of `write`, stated as the step of that
        loop: after the payloads before `l`, the buffer holds payload `l` too,
        and the original bytes after it. */
    method WritePayloadStep(buf: array<Byte>, pos: nat, l: nat, ghost items: seq<Item>, ghost orig: seq<Byte>)
      requires items == Items(entries) && l < |entries| && pos + |entries[l].data| <= buf.Length == |orig|
      requires buf[..pos] == Flatten(DataBlocks(items)[..l]) && buf[pos..] == orig[pos..]
      modifies buf
      ensures buf[..pos + |entries[l].data|] == Flatten(DataBlocks(items)[..l + 1])
      ensures buf[pos + |entries[l].data|..] == orig[pos + |entries[l].data|..]
    {
      var data := entries[l].data;
      ghost var before := buf[..];
      WriteAt(buf, pos, data);
      assert buf[..pos + |data|] == buf[..pos] + buf[pos..pos + |data|];
      BlockWritten(before, buf[..], orig, pos, data, Flatten(DataBlocks(items)[..l]));
      FlattenSnoc(DataBlocks(items), l);
    }

    /** The third loop of `write`: one 21-byte record per entry after the
        payloads; with `update` each entry is also marked unmodified and its
        Offset property set to the offset just written. */
    method WriteDirectory(buf: array<Byte>, start: nat, update: bool, ghost recs: seq<seq<Byte>>) returns (pos: nat)
      requires |recs| == |entries| && start + 21 * |entries| <= buf.Length
      requires forall i :: 0 <= i < |entries| ==>
        recs[i] == RecordBytes(entries[i].size, entries[i].offset, entries[i].name)
      modifies buf, this
      ensures pos == start + 21 * |recs|
      ensures buf[..pos] == old(buf[..start]) + Flatten(recs)
      ensures buf[pos..] == old(buf[pos..])
      ensures |entries| == |old(entries)|
      ensures forall i :: 0 <= i < |entries| ==>
        entries[i] == Marked(old(entries)[i], update)
      ensures modified == old(modified) && file == old(file)
    {
      ghost var es := entries;
      ghost var prefix := buf[..start];
      ghost var orig := buf[..];
      pos := start;
      var l := 0;
      assert recs[..0] == [];
      while l < |entries|
        invariant 0 <= l <= |entries| == |es|
        invariant pos == start + 21 * l
        invariant buf[..pos] == prefix + Flatten(recs[..l])
        invariant buf[pos..] == orig[pos..]
        invariant forall i :: 0 <= i < |es| ==> entries[i] == if i < l then Marked(es[i], update) else es[i]
        invariant modified == old(modified) && file == old(file)
      {
        WriteDirectoryStep(buf, pos, l, update, recs, prefix, orig);
        pos := pos + 21;
        l := l + 1;
      }
      assert recs[..|entries|] == recs;
    }

    /** One pass of the record loop of `write`, stated as the step of that
        loop: after `prefix` and the records before `l`, the buffer holds
        record `l` too, and the original bytes after it. */
    method WriteDirectoryStep(buf: array<Byte>, pos: nat, l: nat, update: bool,
                              ghost recs: seq<seq<Byte>>, ghost prefix: seq<Byte>, ghost orig: seq<Byte>)
      requires l < |entries| && l < |recs| && pos + RecordSize <= buf.Length == |orig|
      requires recs[l] == RecordBytes(entries[l].size, entries[l].offset, entries[l].name)
      requires buf[..pos] == prefix + Flatten(recs[..l]) && buf[pos..] == orig[pos..]
      modifies buf, this
      ensures buf[..pos + RecordSize] == prefix + Flatten(recs[..l + 1])
      ensures buf[pos + RecordSize..] == orig[pos + RecordSize..]
      ensures entries == old(entries)[l := Marked(old(entries)[l], update)]
      ensures modified == old(modified) && file == old(file)
    {
      ghost var before := buf[..];
      WriteEntryRecord(buf, pos, l, update);
      BlockWritten(before, buf[..], orig, pos, recs[l], prefix + Flatten(recs[..l]));
      FlattenSnoc(recs, l);
    }

    /** One pass of the record loop of `write`: the record of entry `l` at
        `pos`; with `update` the entry is marked unmodified and its Offset
        property set to the offset just written. */
    method WriteEntryRecord(buf: array<Byte>, pos: nat, l: nat, update: bool)
      requires l < |entries| && pos + RecordSize <= buf.Length
      modifies buf, this
      ensures buf[..pos + RecordSize] ==
        old(buf[..pos]) + RecordBytes(old(entries)[l].size, old(entries)[l].offset, old(entries)[l].name)
      ensures buf[pos + RecordSize..] == old(buf[pos + RecordSize..])
      ensures entries == old(entries)[l := Marked(old(entries)[l], update)]
      ensures modified == old(modified) && file == old(file)
    {
      var entry := entries[l];
      var offset := GetEntryOffset(l);
      WriteRecord(buf, pos, entry.size, offset, entry.name);
      if update {
        entries := entries[l := entry.(state := Unmodified, offset := offset)];
      }
    }

    /** `loadEntryData`: fills the payload of entry `index` from the backing
        file at its Offset property. An empty or already loaded entry is only
        marked loaded; a file that does not open is a failure that changes
        nothing; no other entry is touched. */
    method LoadEntryData(index: int) returns (ok: bool)
      requires Valid()
      requires 0 <= index < |entries| && entries[index].size > 0 && !entries[index].loaded && file.opens ==>
        entries[index].offset + entries[index].size <= |file.contents|
      modifies this
      ensures Valid() && modified == old(modified) && file == old(file)
      ensures !(0 <= index < |old(entries)|) ==> !ok && entries == old(entries)
      ensures 0 <= index < |old(entries)| ==>
        var e := old(entries)[index];
        if e.size == 0 || e.loaded then
          ok && entries == old(entries)[index := e.(loaded := true)]
        else if !file.opens then
          !ok && entries == old(entries)
        else
          ok && entries == old(entries)[index := e.(loaded := true, data := file.contents[e.offset..e.offset + e.size])]
    {
      if !(0 <= index < |entries|) {
        return false;
      }
      var entry := entries[index];
      if entry.size == 0 || entry.loaded {
        entries := entries[index := entry.(loaded := true)];
        return true;
      }
      if !file.opens {
        return false;
      }
      var off := GetEntryOffset(index);
      var data := file.contents[off..off + entry.size];
      entries := entries[index := entry.(data := data, loaded := true)];
      ok := true;
    }

    /** `scanName`: the `filnamlen` loop shared by both detectors. Walks the
        13-byte name buffer up to its NUL and stops at the first byte not
        allowed in a name. (A byte of 128 or more is negative as a `char` and
        fails the `< 33` test, as it fails `> 126` here.) */
    static method ScanName(myname: seq<Byte>) returns (legal: bool, filnamlen: nat)
      requires |myname| == NameFieldSize && myname[NameLimit] == 0
      ensures legal == forall i :: 0 <= i < CStringLen(myname) ==> LegalNameByte(myname[i])
      ensures legal ==> filnamlen == CStringLen(myname)
    {
      CStringLenStops(myname);
      filnamlen := 0;
      while filnamlen < 13
        invariant 0 <= filnamlen <= CStringLen(myname)
        invariant forall i :: 0 <= i < filnamlen ==> LegalNameByte(myname[i])
      {
        var ch := myname[filnamlen];
        if ch == 0 {
          break;
        }
        if ch < 33 || ch > 126 || ch == '"' as int || ch == '*' as int
          || ch == '/' as int || ch == ':' as int || ch == '<' as int
          || ch == '?' as int || ch == '\\' as int || ch == '|' as int
        {
          return false, filnamlen;
        }
        filnamlen := filnamlen + 1;
      }
      legal := true;
    }

    /** `isLibArchive(MemChunk&)`: whether the buffer looks like a lib image. */
    static method IsLibArchive(mc: seq<Byte>) returns (ok: bool)
      ensures ok == IsLibImage(mc)
      ensures |mc| < MinImageSize ==> !ok
      ensures |mc| < DirectorySpan(mc) ==> !ok
      ensures SignedDirOffset(mc) >= 0 ==>
        var r := FirstRecordAt(mc, SignedDirOffset(mc));
        (r.separator != 0 || r.offset != 0 || r.size > |mc| || !NameAcceptable(r.name, MemMinNameLen)) ==> !ok
    {
      if |mc| < 64 {
        return false;
      }

      // Footer, then the directory start stored in an `int32_t`.
      var dirOffset: int := SignedDirOffset(mc);
      if dirOffset < 0 {
        return false;
      }
      if |mc| < DirectorySpan(mc) {
        SignedDirOffsetShort(mc);
      }

      // The first record: size, offset, 12 name bytes (the 13th byte of the
      // buffer stays NUL) and the separator byte.
      var size := LeU32At(mc, dirOffset);
      var offset := LeU32At(mc, dirOffset + 4);
      var myname := NameBuffer(mc, dirOffset + 8);
      var dummy := ByteAt(mc, dirOffset + 20);
      assert FirstRecord(size, offset, myname, dummy) == FirstRecordAt(mc, dirOffset);
      if dummy != 0 || offset != 0 || Wrap32(offset as int + size as int) > |mc| {
        return false;
      }

      var legal, filnamlen := ScanName(myname);
      if !legal {
        return false;
      }
      if filnamlen < 2 {
        return false;
      }
      ok := true;
    }

    /** `isLibArchive(const string&)`: the same test on the file named, with no
        minimum size and a one-character minimum name. */
    static method IsLibArchiveFile(f: DiskFile) returns (ok: bool)
      ensures ok == IsLibFile(f)
      ensures |f.contents| < DirectorySpan(f.contents) ==> !ok
      ensures f.opens && SignedDirOffset(f.contents) >= 0 ==>
        var r := FirstRecordAt(f.contents, SignedDirOffset(f.contents));
        (r.separator != 0 || r.offset != 0 || r.size > |f.contents| || !NameAcceptable(r.name, FileMinNameLen)) ==> !ok
    {
      if !f.opens {
        return false;
      }
      var length := |f.contents|;

      // Footer, then the directory start stored in an `int32_t`.
      var dirOffset: int := SignedDirOffset(f.contents);
      if length < DirectorySpan(f.contents) {
        SignedDirOffsetShort(f.contents);
      }
      if dirOffset < 0 {
        return false;
      }

      var size := LeU32At(f.contents, dirOffset);
      var offset := LeU32At(f.contents, dirOffset + 4);
      var myname := NameBuffer(f.contents, dirOffset + 8);
      var dummy := ByteAt(f.contents, dirOffset + 20);
      assert FirstRecord(size, offset, myname, dummy) == FirstRecordAt(f.contents, dirOffset);
      if dummy != 0 || offset != 0 || Wrap32(offset as int + size as int) > length {
        return false;
      }

      var legal, filnamlen := ScanName(myname);
      if !legal {
        return false;
      }
      if filnamlen == 0 {
        return false;
      }
      ok := true;
    }
  }
}
