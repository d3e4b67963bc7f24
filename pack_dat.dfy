/** The packer of `pack_dat.py`: the payload encoder and the building of a
    `.dat` archive (payloads, then the nibble-swapped index of 80-byte records,
    then the little-endian entry count). */
module PackDat {
  import opened Bytes
  import opened ByteTransform

  // ---------------------------------------------------------------------------
  // encode_buffer

  /** `encode_buffer` on the value of the buffer: mode 1 runs nibble swap, XOR,
      negate; mode 2 runs negate, XOR, nibble swap. */
  function Encode(s: seq<byte>, a4: nat): (r: Result<seq<byte>>)
    ensures r.Err? <==> a4 == 0 && |s| == 0
    ensures r.Ok? ==> |r.value| == |s|
  {
    var mode :- SelectMode(s, a4);
    if mode == Mode1 then Ok(ReverseOrder(s, a4)) else Ok(ForwardOrder(s, a4))
  }

  /** The in-place routine: on an empty buffer at offset 0 it fails before
      touching anything (the source raises IndexError reading `buf[0]`). */
  method EncodeBuffer(buf: array<byte>, startOffset: nat) returns (ok: bool)
    modifies buf
    ensures ok == Encode(old(buf[..]), startOffset).Ok?
    ensures buf[..] == if ok then Encode(old(buf[..]), startOffset).value else old(buf[..])
  {
    OrdersArePasses(buf[..], startOffset);
    var mode;
    if startOffset != 0 {
      mode := Mode1;
    } else if buf.Length == 0 {
      return false;
    } else if buf[0] < 0x80 {
      mode := Mode2;
    } else {
      mode := Mode1;
    }
    if mode == Mode1 {
      ApplySwapPass(buf, startOffset);
      ApplyXorPass(buf, startOffset);
      ApplyNegatePass(buf, startOffset);
    } else {
      ApplyNegatePass(buf, startOffset);
      ApplyXorPass(buf, startOffset);
      ApplySwapPass(buf, startOffset);
    }
    ok := true;
  }

  /** The encoder changes no byte whose absolute position no pass reaches. */
  lemma EncodeTouchesOnly(s: seq<byte>, a4: nat, p: nat)
    requires Encode(s, a4).Ok? && p < |s| && !Touched(a4 + p)
    ensures Encode(s, a4).value[p] == s[p]
  {
    OrdersTouchOnly(s, a4, p);
  }

  /** At offset 0 only the XOR pass reaches position 0, with key byte 0xFF, so
      the first byte is inverted whichever mode was chosen. */
  lemma EncodeFirstByte(s: seq<byte>)
    requires |s| > 0
    ensures Encode(s, 0).Ok? && Encode(s, 0).value[0] == s[0] ^ 0xFF
  {
    OrdersFirstByte(s);
  }

  // ---------------------------------------------------------------------------
  // Entries and offsets

  /** The packer's `FileEntry`: a name (as its UTF-8 bytes), the data, and the
      offset of the data in the payload region. */
  datatype FileEntry = FileEntry(name: seq<byte>, data: seq<byte>, offset: nat)

  /** Total data length of a list of entries. */
  function SumLengths(files: seq<FileEntry>): nat
  {
    if |files| == 0 then 0 else SumLengths(files[..|files| - 1]) + |files[|files| - 1].data|
  }

  /** The first loop of `create_dat_archive`: every file encoded at offset 0,
      each tagged with the running sum of the encoded lengths before it. Fails
      as soon as one file is empty. */
  function EncodeFiles(files: seq<FileEntry>): (r: Result<seq<FileEntry>>)
    ensures r.Err? ==> r.error == EmptyBuffer
    ensures r.Ok? ==> |r.value| == |files|
  {
    if |files| == 0 then Ok([])
    else
      var last := files[|files| - 1];
      var front := files[..|files| - 1];
      var encodedFront :- EncodeFiles(front);
      var encoded :- Encode(last.data, 0);
      Ok(encodedFront + [FileEntry(last.name, encoded, SumLengths(front))])
  }

  /** The encoding loop fails exactly when some file is empty. */
  lemma {:induction false} EncodeFilesFails(files: seq<FileEntry>)
    ensures EncodeFiles(files).Err? <==> exists k :: 0 <= k < |files| && |files[k].data| == 0
  {
    if |files| > 0 {
      var n := |files|;
      var front := files[..n - 1];
      EncodeFilesFails(front);
      if exists k :: 0 <= k < |files| && |files[k].data| == 0 {
        var k :| 0 <= k < |files| && |files[k].data| == 0;
        if k < n - 1 {
          assert front[k] == files[k];
        }
      }
      if exists k :: 0 <= k < |front| && |front[k].data| == 0 {
        var k :| 0 <= k < |front| && |front[k].data| == 0;
        assert files[k] == front[k];
      }
    }
  }

  /** Entry k of the encoded list: file k's name, its data encoded at offset
      0, and the total length of the files before it as its offset. */
  lemma {:induction false} EncodeFilesAt(files: seq<FileEntry>, k: nat)
    requires EncodeFiles(files).Ok? && k < |files|
    ensures Encode(files[k].data, 0).Ok?
    ensures EncodeFiles(files).value[k]
         == FileEntry(files[k].name, Encode(files[k].data, 0).value, SumLengths(files[..k]))
  {
    var n := |files|;
    var front := files[..n - 1];
    assert EncodeFiles(files).value == EncodeFiles(front).value
      + [FileEntry(files[n - 1].name, Encode(files[n - 1].data, 0).value, SumLengths(front))];
    if k < n - 1 {
      EncodeFilesAt(front, k);
      assert front[..k] == files[..k];
    }
  }

  /** Encoding keeps every length, so the running offsets of the encoded list
      are the running sums of its own lengths. */
  lemma {:induction false} EncodedLengths(files: seq<FileEntry>, k: nat)
    requires EncodeFiles(files).Ok? && k <= |files|
    ensures SumLengths(EncodeFiles(files).value[..k]) == SumLengths(files[..k])
  {
    if k > 0 {
      var enc := EncodeFiles(files).value;
      EncodedLengths(files, k - 1);
      EncodeFilesAt(files, k - 1);
      assert enc[..k][..k - 1] == enc[..k - 1];
      assert files[..k][..k - 1] == files[..k - 1];
    }
  }

  /** Offsets of a list whose entries are laid out back to back from 0. */
  ghost predicate RunningOffsets(entries: seq<FileEntry>)
  {
    forall k :: 0 <= k < |entries| ==> entries[k].offset == SumLengths(entries[..k])
  }

  lemma EncodeFilesOffsets(files: seq<FileEntry>)
    requires EncodeFiles(files).Ok?
    ensures RunningOffsets(EncodeFiles(files).value)
  {
    forall k | 0 <= k < |files|
      ensures EncodeFiles(files).value[k].offset == SumLengths(EncodeFiles(files).value[..k])
    {
      EncodedLengths(files, k);
      EncodeFilesAt(files, k);
    }
  }

  // ---------------------------------------------------------------------------
  // Index records

  /** The name field: the name's bytes cut to 63, so that byte 63 stays 0. */
  function NameField(name: seq<byte>): (r: seq<byte>)
    ensures |r| <= 63 && r <= name
    ensures |r| == if |name| <= 63 then |name| else 63
    ensures |name| <= 63 ==> r == name
  {
    if |name| <= 63 then name else name[..63]
  }

  /** One 80-byte index record: the name field zero-filled to 64 bytes, then
      the offset, the data length twice (unpacked and packed), and four zero
      bytes. Fails when the offset or the length needs more than 32 bits. */
  function IndexRecord(name: seq<byte>, offset: nat, size: nat): (r: Result<seq<byte>>)
    ensures r.Err? <==> offset >= U32Limit || size >= U32Limit
    ensures r.Err? ==> r.error == FieldOverflow
    ensures r.Ok? ==> |r.value| == 80
  {
    var n := NameField(name);
    var off :- U32LE(offset);
    var len :- U32LE(size);
    Ok(n + Zeros(64 - |n|) + off + len + len + Zeros(4))
  }

  /** Where each field of a record sits and what it reads back as. */
  lemma IndexRecordLayout(name: seq<byte>, offset: nat, size: nat)
    requires offset < U32Limit && size < U32Limit
    ensures var r := IndexRecord(name, offset, size).value;
      && r[..64] == NameField(name) + Zeros(64 - |NameField(name)|)
      && FromLE(r[64..68]) == offset
      && FromLE(r[68..72]) == size
      && FromLE(r[72..76]) == size
      && r[76..] == Zeros(4)
  {
    var n := NameField(name);
    var off, len := U32LE(offset).value, U32LE(size).value;
    var r := n + Zeros(64 - |n|) + off + len + len + Zeros(4);
    assert r[..64] == n + Zeros(64 - |n|);
    assert r[64..68] == off && r[68..72] == len && r[72..76] == len;
    assert r[76..] == Zeros(4);
  }

  /** `base[at:at+len(src)] = src` on a value: the bytes of src replace
      those at positions [at, at + |src|), every other byte is kept. */
  function Overwrite(base: seq<byte>, at: nat, src: seq<byte>): (r: seq<byte>)
    requires at + |src| <= |base|
    ensures |r| == |base|
    ensures forall j :: 0 <= j < |base| ==> r[j] == if at <= j < at + |src| then src[j - at] else base[j]
  {
    base[..at] + src + base[at + |src|..]
  }

  /** The slice assignment `entry[at:at+len(src)] = src` on a fixed-size
      bytearray. */
  method WriteSlice(entry: array<byte>, at: nat, src: seq<byte>)
    requires at + |src| <= entry.Length
    modifies entry
    ensures entry[..] == Overwrite(old(entry[..]), at, src)
  {
    forall j | at <= j < at + |src| {
      entry[j] := src[j - at];
    }
    ghost var written := Overwrite(old(entry[..]), at, src);
    assert entry[..] == written by {
      forall j | 0 <= j < entry.Length
        ensures entry[j] == written[j]
      {
      }
    }
  }

  /** Writing the name, the offset and the size twice into 80 zero bytes
      gives exactly the record layout. */
  lemma RecordWrites(n: seq<byte>, off: seq<byte>, len: seq<byte>)
    requires |n| <= 64 && |off| == 4 && |len| == 4
    ensures Overwrite(Overwrite(Overwrite(Overwrite(Zeros(80), 0, n), 64, off), 68, len), 72, len)
         == n + Zeros(64 - |n|) + off + len + len + Zeros(4)
  {
    var r := Overwrite(Overwrite(Overwrite(Overwrite(Zeros(80), 0, n), 64, off), 68, len), 72, len);
    var t := n + Zeros(64 - |n|) + off + len + len + Zeros(4);
    forall j | 0 <= j < 80
      ensures r[j] == t[j]
    {
    }
  }

  /** The body of the index loop: a zeroed 80-byte entry, with the name, the
      offset and the two sizes written into it. */
  method BuildIndexEntry(name: seq<byte>, offset: nat, size: nat) returns (res: Result<seq<byte>>)
    ensures res == IndexRecord(name, offset, size)
  {
    var entry := new byte[80](_ => 0);
    assert entry[..] == Zeros(80);
    var nameBytes := NameField(name);
    WriteSlice(entry, 0, nameBytes);
    var off := U32LE(offset);
    if off.Err? {
      return Err(off.error);
    }
    WriteSlice(entry, 64, off.value);
    var len := U32LE(size);
    if len.Err? {
      return Err(len.error);
    }
    WriteSlice(entry, 68, len.value);
    WriteSlice(entry, 72, len.value);
    RecordWrites(nameBytes, off.value, len.value);
    res := Ok(entry[..]);
  }

  /** The offset and the length of an entry both fit a u32 field. */
  predicate FieldsFit(e: FileEntry)
  {
    e.offset < U32Limit && |e.data| < U32Limit
  }

  /** The index loop: the records of all entries, in order. */
  function IndexTable(entries: seq<FileEntry>): (r: Result<seq<byte>>)
    ensures r.Err? ==> r.error == FieldOverflow
    ensures r.Ok? ==> |r.value| == 80 * |entries|
  {
    if |entries| == 0 then Ok([])
    else
      var last := entries[|entries| - 1];
      var front :- IndexTable(entries[..|entries| - 1]);
      var rec :- IndexRecord(last.name, last.offset, |last.data|);
      Ok(front + rec)
  }

  /** The index loop fails exactly when some entry's offset or length does
      not fit a u32 field. */
  lemma {:induction false} IndexTableFails(entries: seq<FileEntry>)
    ensures IndexTable(entries).Err? <==> exists k :: 0 <= k < |entries| && !FieldsFit(entries[k])
  {
    if |entries| > 0 {
      var n := |entries|;
      var front := entries[..n - 1];
      IndexTableFails(front);
      if exists k :: 0 <= k < |entries| && !FieldsFit(entries[k]) {
        var k :| 0 <= k < |entries| && !FieldsFit(entries[k]);
        if k < n - 1 {
          assert front[k] == entries[k];
        }
      }
      if exists k :: 0 <= k < |front| && !FieldsFit(front[k]) {
        var k :| 0 <= k < |front| && !FieldsFit(front[k]);
        assert entries[k] == front[k];
      }
    }
  }

  /** Record k of the index table is the record of entry k. */
  lemma {:induction false} IndexTableRecord(entries: seq<FileEntry>, k: nat)
    requires IndexTable(entries).Ok? && k < |entries|
    ensures IndexRecord(entries[k].name, entries[k].offset, |entries[k].data|).Ok?
    ensures IndexTable(entries).value[80 * k..80 * k + 80]
         == IndexRecord(entries[k].name, entries[k].offset, |entries[k].data|).value
  {
    var n := |entries|;
    var front := entries[..n - 1];
    var last := entries[n - 1];
    var table := IndexTable(front).value;
    var rec := IndexRecord(last.name, last.offset, |last.data|).value;
    assert IndexTable(entries).value == table + rec;
    assert |table| == 80 * (n - 1);
    if k < n - 1 {
      IndexTableRecord(front, k);
      assert front[k] == entries[k];
      SliceOfFront(table, rec, 80 * k, 80 * k + 80);
    } else {
      SliceOfBack(table, rec);
    }
  }

  // ---------------------------------------------------------------------------
  // The archive

  /** The payload region: all encoded data back to back. */
  function PayloadRegion(entries: seq<FileEntry>): (r: seq<byte>)
    ensures |r| == SumLengths(entries)
  {
    if |entries| == 0 then []
    else PayloadRegion(entries[..|entries| - 1]) + entries[|entries| - 1].data
  }

  /** In the payload region, entry k's data starts at the sum of the lengths
      before it. */
  lemma {:induction false} PayloadRegionSlice(entries: seq<FileEntry>, k: nat)
    requires k < |entries|
    ensures SumLengths(entries[..k]) + |entries[k].data| <= SumLengths(entries)
    ensures PayloadRegion(entries)[SumLengths(entries[..k])..SumLengths(entries[..k]) + |entries[k].data|]
         == entries[k].data
  {
    var n := |entries|;
    var front, last := entries[..n - 1], entries[n - 1];
    assert PayloadRegion(entries) == PayloadRegion(front) + last.data;
    assert SumLengths(entries) == SumLengths(front) + |last.data|;
    if k < n - 1 {
      PayloadRegionSlice(front, k);
      assert front[..k] == entries[..k];
      assert front[k] == entries[k];
      var lo := SumLengths(entries[..k]);
      SliceOfFront(PayloadRegion(front), last.data, lo, lo + |entries[k].data|);
    } else {
      assert entries[..k] == front;
      SliceOfBack(PayloadRegion(front), last.data);
    }
  }

  /** The layout of a `.dat` archive built from already encoded entries:
      payloads, nibble-swapped index, entry count. */
  function DatLayout(entries: seq<FileEntry>): (r: Result<seq<byte>>)
    ensures r.Ok? ==> |r.value| == SumLengths(entries) + 80 * |entries| + 4
  {
    var index :- IndexTable(entries);
    var count :- U32LE(|entries|);
    Ok(PayloadRegion(entries) + NibbleSwap(index) + count)
  }

  /** `create_dat_archive` on already ordered input: nothing is written for an
      empty list, an empty file aborts the encoding loop, an offset, size or
      count that needs more than 32 bits aborts the index loop. */
  function DatArchive(files: seq<FileEntry>): (r: Result<seq<byte>>)
  {
    if |files| == 0 then Err(NoFiles)
    else
      var encoded :- EncodeFiles(files);
      DatLayout(encoded)
  }

  /** When it succeeds, the archive is as long as all data, 80 bytes per entry
      and the 4-byte count; it fails exactly in the cases above. */
  lemma DatArchiveOutcome(files: seq<FileEntry>)
    ensures DatArchive(files).Err? <==>
      |files| == 0 ||
      (exists k :: 0 <= k < |files| && |files[k].data| == 0) ||
      |files| >= U32Limit ||
      (exists k :: 0 <= k < |files| && (SumLengths(files[..k]) >= U32Limit || |files[k].data| >= U32Limit))
    ensures DatArchive(files).Ok? ==> |DatArchive(files).value| == SumLengths(files) + 80 * |files| + 4
  {
    EncodeFilesFails(files);
    if |files| > 0 && EncodeFiles(files).Ok? {
      var enc := EncodeFiles(files).value;
      IndexTableFails(enc);
      EncodedLengths(files, |files|);
      assert enc[..|files|] == enc && files[..|files|] == files;
      forall k | 0 <= k < |files|
        ensures enc[k].offset == SumLengths(files[..k]) && |enc[k].data| == |files[k].data|
      {
        EncodeFilesAt(files, k);
      }
    }
  }

  /** The encoding loop of `create_dat_archive`: each file copied into a fresh
      buffer, encoded in place at offset 0, and stored with the running offset,
      which then grows by the encoded length. */
  method EncodeAllFiles(files: seq<FileEntry>) returns (res: Result<seq<FileEntry>>)
    ensures res == EncodeFiles(files)
  {
    var currentOffset := 0;
    var encodedFiles: seq<FileEntry> := [];
    var i := 0;
    while i < |files|
      invariant 0 <= i <= |files|
      invariant EncodeFiles(files[..i]) == Ok(encodedFiles)
      invariant currentOffset == SumLengths(files[..i])
    {
      var f := files[i];
      var encoded := new byte[|f.data|](k requires 0 <= k < |f.data| => f.data[k]);
      assert encoded[..] == f.data;
      var ok := EncodeBuffer(encoded, 0);
      assert files[..i + 1][..i] == files[..i] && files[..i + 1][i] == f;
      if !ok {
        EncodeFilesFails(files);
        assert |files[i].data| == 0;
        return Err(EmptyBuffer);
      }
      encodedFiles := encodedFiles + [FileEntry(f.name, encoded[..], currentOffset)];
      currentOffset := currentOffset + encoded.Length;
      i := i + 1;
    }
    assert files[..i] == files;
    res := Ok(encodedFiles);
  }

  /** The loop appending every encoded payload to the archive. */
  method AppendPayloads(entries: seq<FileEntry>) returns (archive: seq<byte>)
    ensures archive == PayloadRegion(entries)
  {
    archive := [];
    var i := 0;
    while i < |entries|
      invariant 0 <= i <= |entries|
      invariant archive == PayloadRegion(entries[..i])
    {
      assert entries[..i + 1][..i] == entries[..i];
      archive := archive + entries[i].data;
      i := i + 1;
    }
    assert entries[..i] == entries;
  }

  /** The loop building the index record by record. */
  method BuildIndex(entries: seq<FileEntry>) returns (res: Result<seq<byte>>)
    ensures res == IndexTable(entries)
  {
    var index: seq<byte> := [];
    var i := 0;
    while i < |entries|
      invariant 0 <= i <= |entries|
      invariant IndexTable(entries[..i]) == Ok(index)
    {
      var e := entries[i];
      assert entries[..i + 1][..i] == entries[..i] && entries[..i + 1][i] == e;
      var entry := BuildIndexEntry(e.name, e.offset, |e.data|);
      if entry.Err? {
        IndexTableFails(entries);
        assert !FieldsFit(entries[i]);
        return Err(FieldOverflow);
      }
      index := index + entry.value;
      i := i + 1;
    }
    assert entries[..i] == entries;
    res := Ok(index);
  }

  /** `create_dat_archive` on an already gathered, ordered file list: nothing
      is built for an empty list; otherwise encode, append the payloads, build
      the index, append it nibble-swapped, and append the count. */
  method CreateDatArchive(files: seq<FileEntry>) returns (res: Result<seq<byte>>)
    ensures res == DatArchive(files)
  {
    if |files| == 0 {
      return Err(NoFiles);
    }
    var encoded := EncodeAllFiles(files);
    if encoded.Err? {
      return Err(encoded.error);
    }
    var encodedFiles := encoded.value;
    var archive := AppendPayloads(encodedFiles);
    var index := BuildIndex(encodedFiles);
    if index.Err? {
      return Err(index.error);
    }
    archive := archive + NibbleSwap(index.value);
    var count := U32LE(|files|);
    if count.Err? {
      return Err(count.error);
    }
    archive := archive + count.value;
    res := Ok(archive);
  }
}
