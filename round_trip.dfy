/** How the packer and the extractor fit together: decoding after encoding,
    the case where it does not restore the data, an encoder whose output the
    decoder does restore, and the index and payloads of a freshly created
    archive as the extractor reads them back. */
module DatRoundTrip {
  import opened Bytes
  import opened ByteTransform
  import opened PackDat
  import opened ExtractDat

  // ---------------------------------------------------------------------------
  // Decoding after encoding

  /** Away from offset 0 neither routine reads the buffer to choose a mode,
      and the decoder undoes the encoder exactly. */
  lemma DecodeEncodeNonzeroOffset(s: seq<byte>, a4: nat)
    requires a4 != 0
    ensures Encode(s, a4).Ok? && Decode(Encode(s, a4).value, a4) == Ok(s)
    ensures Decode(s, a4).Ok? && Encode(Decode(s, a4).value, a4) == Ok(s)
  {
    OrdersInverse(s, a4);
  }

  /** At offset 0 the encoder inverts the byte the mode is chosen from, so the
      decoder always picks the other mode than the encoder did. */
  lemma EncodeFlipsMode(s: seq<byte>)
    requires |s| > 0
    ensures SelectMode(Encode(s, 0).value, 0).Ok?
    ensures SelectMode(Encode(s, 0).value, 0) != SelectMode(s, 0)
  {
    EncodeFirstByte(s);
  }

  /** Consequently, at offset 0, the decoder runs on the encoder's output the
      very order the encoder ran, instead of its inverse. */
  lemma DecodeEncodeAtZeroOrder(s: seq<byte>)
    requires |s| > 0
    ensures Decode(Encode(s, 0).value, 0)
         == Ok(if s[0] < 0x80 then ForwardOrder(ForwardOrder(s, 0), 0)
               else ReverseOrder(ReverseOrder(s, 0), 0))
  {
    EncodeFirstByte(s);
  }

  /** Since each pass is an involution, running one order twice still
      restores every byte that only one pass reaches: at offset 0 decoding the
      encoder's output gives back every byte at a position p with p % 12 != 9. */
  lemma DecodeEncodeAtZero(s: seq<byte>, p: nat)
    requires p < |s| && p % 12 != 9
    ensures Decode(Encode(s, 0).value, 0).Ok?
    ensures |Decode(Encode(s, 0).value, 0).value| == |s|
    ensures Decode(Encode(s, 0).value, 0).value[p] == s[p]
  {
    var twice := if s[0] < 0x80 then ForwardOrder(ForwardOrder(s, 0), 0) else ReverseOrder(ReverseOrder(s, 0), 0);
    assert |twice| == |s| && twice[p] == s[p] by {
      OrderTwiceAt(s, 0, p);
    }
    DecodeEncodeAtZeroOrder(s);
  }

  /** The same holds for encoding after decoding. */
  lemma EncodeDecodeAtZero(s: seq<byte>, p: nat)
    requires p < |s| && p % 12 != 9
    ensures Encode(Decode(s, 0).value, 0).Ok?
    ensures |Encode(Decode(s, 0).value, 0).value| == |s|
    ensures Encode(Decode(s, 0).value, 0).value[p] == s[p]
  {
    var twice := if s[0] >= 0x80 then ForwardOrder(ForwardOrder(s, 0), 0) else ReverseOrder(ReverseOrder(s, 0), 0);
    assert |twice| == |s| && twice[p] == s[p] by {
      OrderTwiceAt(s, 0, p);
    }
    DecodeFirstByte(s);
    assert Encode(Decode(s, 0).value, 0) == Ok(twice);
  }

  /** The round trip therefore holds whenever the start offset is not 0, and
      at offset 0 for buffers of at most 9 bytes, which have no position
      p % 12 == 9. */
  lemma DecodeEncode(s: seq<byte>, a4: nat)
    requires Encode(s, a4).Ok? && (a4 != 0 || |s| <= 9)
    ensures Decode(Encode(s, a4).value, a4) == Ok(s)
  {
    if a4 != 0 {
      DecodeEncodeNonzeroOffset(s, a4);
    } else {
      NoMeetBelowNine(|s|);
      OrderTwice(s, 0);
      DecodeEncodeAtZeroOrder(s);
    }
  }

  lemma EncodeDecode(s: seq<byte>, a4: nat)
    requires Decode(s, a4).Ok? && (a4 != 0 || |s| <= 9)
    ensures Encode(Decode(s, a4).value, a4) == Ok(s)
  {
    if a4 != 0 {
      DecodeEncodeNonzeroOffset(s, a4);
    } else {
      NoMeetBelowNine(|s|);
      OrderTwice(s, 0);
      DecodeFirstByte(s);
    }
  }

  /** Ten zero bytes at offset 0: the encoder (mode 2) leaves 0x9C at position
      9, where both the negate and the XOR pass act; the decoder (mode 1, as
      byte 0 became 0xFF) negates and XORs it again and yields 0xF8, not 0. */
  lemma TenZerosCounterexample()
    ensures Encode(Zeros(10), 0).Ok? && Encode(Zeros(10), 0).value[9] == 0x9C
    ensures Decode(Encode(Zeros(10), 0).value, 0).Ok?
    ensures |Decode(Encode(Zeros(10), 0).value, 0).value| == 10
    ensures Decode(Encode(Zeros(10), 0).value, 0).value[9] == 0xF8
    ensures Decode(Encode(Zeros(10), 0).value, 0) != Ok(Zeros(10))
  {
    var s := Zeros(10);
    var e := ForwardOrder(s, 0);
    assert Encode(s, 0) == Ok(e);
    assert KeyIndex(9) == 4;
    ByteOrdersAtOverlap(9, 0);
    assert e[9] == 0x9C;
    OrdersFirstByte(s);
    assert Decode(e, 0) == Ok(ForwardOrder(e, 0));
    ByteOrdersAtOverlap(9, 0x9C);
    assert ForwardOrder(e, 0)[9] == 0xF8;
  }

  // ---------------------------------------------------------------------------
  // The encoder the decoder inverts

  /** The encoder with the mode test it needs: the decoder tests the byte it
      is given, which at offset 0 is the inverted first byte s[0] ^ 0xFF, so
      the encoder runs the inverse of whichever order the decoder will run.
      It fails, keeps lengths and touches positions exactly as `Encode` does,
      and agrees with it away from offset 0. */
  function CorrectedEncode(s: seq<byte>, a4: nat): (r: Result<seq<byte>>)
    ensures r.Err? <==> a4 == 0 && |s| == 0
    ensures r.Ok? ==> |r.value| == |s| && Decode(r.value, a4) == Ok(s)
    ensures a4 != 0 ==> r == Encode(s, a4)
  {
    if a4 == 0 && |s| == 0 then Err(EmptyBuffer)
    else
      OrdersInverse(s, a4);
      if a4 != 0 then Ok(ReverseOrder(s, a4))
      else
        OrdersFirstByte(s);
        if s[0] ^ 0xFF >= 0x80 then Ok(ReverseOrder(s, 0)) else Ok(ForwardOrder(s, 0))
  }

  /** Like `Encode`, the corrected encoder leaves every position that no pass
      reaches unchanged. */
  lemma CorrectedEncodeTouchesOnly(s: seq<byte>, a4: nat, p: nat)
    requires CorrectedEncode(s, a4).Ok? && p < |s| && !Touched(a4 + p)
    ensures CorrectedEncode(s, a4).value[p] == s[p]
  {
    OrdersTouchOnly(s, a4, p);
  }

  /** And in the other direction: the corrected encoder rebuilds any buffer
      from its decoding, so the two are inverse on all inputs. */
  lemma CorrectedEncodeDecode(s: seq<byte>, a4: nat)
    requires Decode(s, a4).Ok?
    ensures CorrectedEncode(Decode(s, a4).value, a4) == Ok(s)
  {
    OrdersInverse(s, a4);
    if a4 == 0 {
      OrdersFirstByte(s);
    }
  }

  // ---------------------------------------------------------------------------
  // Reading back a created archive

  /** The last four bytes of `front + count`, as a Python slice from -4. */
  lemma LastFour(front: seq<byte>, count: seq<byte>)
    requires |count| == 4
    ensures PySlice(front + count, -4, |front + count|) == count
  {
    assert (front + count)[|front|..] == count;
  }

  /** The count field of an archive laid out from `entries` reads back as the
      number of entries, and the index fits in front of it. */
  lemma LayoutCount(entries: seq<FileEntry>)
    requires DatLayout(entries).Ok?
    ensures WellFormed(DatLayout(entries).value)
    ensures EntryCount(DatLayout(entries).value) == |entries|
    ensures IndexStart(DatLayout(entries).value) == SumLengths(entries)
  {
    var front := PayloadRegion(entries) + NibbleSwap(IndexTable(entries).value);
    var count := U32LE(|entries|).value;
    assert DatLayout(entries).value == front + count;
    LastFour(front, count);
  }

  /** A slice inside the middle part of a three-part sequence. */
  lemma SliceInMiddle(a: seq<byte>, b: seq<byte>, c: seq<byte>, lo: nat, hi: nat)
    requires lo <= hi <= |b|
    ensures (a + b + c)[|a| + lo..|a| + hi] == b[lo..hi]
  {
    assert forall k :: 0 <= k < hi - lo ==> (a + b + c)[|a| + lo..|a| + hi][k] == b[lo..hi][k];
  }

  /** The three parts of a laid-out archive. */
  lemma DatLayoutParts(entries: seq<FileEntry>)
    requires DatLayout(entries).Ok?
    ensures DatLayout(entries).value
         == PayloadRegion(entries) + NibbleSwap(IndexTable(entries).value) + U32LE(|entries|).value
  {
  }

  /** In an archive made of a first part, a nibble-swapped index and a last
      part, the 80 bytes of record i are the nibble swap of that record. */
  lemma SwappedRecord(a: seq<byte>, b: seq<byte>, c: seq<byte>, dat: seq<byte>, i: nat, at: nat, rec: seq<byte>)
    requires dat == a + NibbleSwap(b) + c
    requires 80 * i + 80 <= |b| && b[80 * i..80 * i + 80] == rec
    requires at == |a| + 80 * i
    ensures at + 80 <= |dat|
    ensures dat[at..at + 80] == NibbleSwap(rec)
  {
    SliceInMiddle(a, NibbleSwap(b), c, 80 * i, 80 * i + 80);
    NibbleSwapSlice(b, 80 * i, 80 * i + 80);
  }

  /** The 80 archive bytes at `SumLengths + 80i` are entry i's record,
      nibble-swapped. */
  lemma LayoutRecordBytes(entries: seq<FileEntry>, i: nat)
    requires DatLayout(entries).Ok? && i < |entries|
    ensures IndexRecord(entries[i].name, entries[i].offset, |entries[i].data|).Ok?
    ensures var at := SumLengths(entries) + 80 * i;
      && at + 80 <= |DatLayout(entries).value|
      && DatLayout(entries).value[at..at + 80]
         == NibbleSwap(IndexRecord(entries[i].name, entries[i].offset, |entries[i].data|).value)
  {
    DatLayoutParts(entries);
    IndexTableRecord(entries, i);
    var rec := IndexRecord(entries[i].name, entries[i].offset, |entries[i].data|).value;
    var payload, table := PayloadRegion(entries), IndexTable(entries).value;
    assert |table| == 80 * |entries| && 80 * i + 80 <= 80 * |entries|;
    SwappedRecord(payload, table, U32LE(|entries|).value, DatLayout(entries).value, i,
                  SumLengths(entries) + 80 * i, rec);
  }

  /** Record i of that archive's index is entry i's index record. */
  lemma LayoutRecord(entries: seq<FileEntry>, i: nat)
    requires DatLayout(entries).Ok? && i < |entries|
    ensures IndexRecord(entries[i].name, entries[i].offset, |entries[i].data|).Ok?
    ensures |ParseDatIndex(DatLayout(entries).value)| == |entries|
    ensures ParseDatIndex(DatLayout(entries).value)[i]
         == ParseRecord(IndexRecord(entries[i].name, entries[i].offset, |entries[i].data|).value)
  {
    var dat := DatLayout(entries).value;
    LayoutCount(entries);
    LayoutRecordBytes(entries, i);
    ParseDatIndexAt(dat, i);
    NibbleSwapInvolutive(IndexRecord(entries[i].name, entries[i].offset, |entries[i].data|).value);
  }

  /** Parsing an index record gives back its name field up to the first NUL,
      the size as both sizes, and the offset. */
  lemma ParseIndexRecord(name: seq<byte>, offset: nat, size: nat)
    requires offset < U32Limit && size < U32Limit
    ensures ParseRecord(IndexRecord(name, offset, size).value)
         == Entry(BeforeNul(NameField(name)), size, size, offset)
  {
    var rec := IndexRecord(name, offset, size).value;
    ParseRecordFields(rec);
    IndexRecordLayout(name, offset, size);
    var n := NameField(name);
    BeforeNulPadded(n, Zeros(64 - |n|));
  }

  /** Parsing the index of an archive laid out from `entries` gives back, for
      each entry, its name field up to the first NUL, its data length as both
      sizes, and its offset. */
  lemma LayoutParse(entries: seq<FileEntry>, i: nat)
    requires DatLayout(entries).Ok? && i < |entries|
    ensures |ParseDatIndex(DatLayout(entries).value)| == |entries|
    ensures ParseDatIndex(DatLayout(entries).value)[i]
         == Entry(BeforeNul(NameField(entries[i].name)), |entries[i].data|, |entries[i].data|, entries[i].offset)
  {
    LayoutRecord(entries, i);
    ParseIndexRecord(entries[i].name, entries[i].offset, |entries[i].data|);
  }

  /** Entry i's data sits in the archive at the sum of the lengths before it,
      so an index entry with that offset and the data's length as its packed
      size reads it back. */
  lemma LayoutDataAt(entries: seq<FileEntry>, i: nat, e: Entry)
    requires DatLayout(entries).Ok? && i < |entries|
    requires e.offset == SumLengths(entries[..i]) && e.packedSize == |entries[i].data|
    ensures EntryData(DatLayout(entries).value, e) == entries[i].data
  {
    DatLayoutParts(entries);
    PayloadRegionSlice(entries, i);
    EntryInFront(PayloadRegion(entries), NibbleSwap(IndexTable(entries).value), U32LE(|entries|).value, e, entries[i].data);
  }

  /** An entry framing `data` inside the first part of a three-part archive
      reads `data`. */
  lemma EntryInFront(a: seq<byte>, b: seq<byte>, c: seq<byte>, e: Entry, data: seq<byte>)
    requires e.offset + e.packedSize <= |a| && a[e.offset..e.offset + e.packedSize] == data
    ensures EntryData(a + b + c, e) == data
  {
    assert (a + b + c)[e.offset..e.offset + e.packedSize] == a[e.offset..e.offset + e.packedSize];
  }

  /** With running offsets, the slice the extractor takes for entry i is
      exactly that entry's data. */
  lemma LayoutPayload(entries: seq<FileEntry>, i: nat)
    requires DatLayout(entries).Ok? && RunningOffsets(entries) && i < |entries|
    ensures |ParseDatIndex(DatLayout(entries).value)| == |entries|
    ensures EntryData(DatLayout(entries).value, ParseDatIndex(DatLayout(entries).value)[i]) == entries[i].data
  {
    var dat := DatLayout(entries).value;
    LayoutParse(entries, i);
    assert entries[i].offset == SumLengths(entries[..i]);
    LayoutDataAt(entries, i, ParseDatIndex(dat)[i]);
  }

  /** `create_dat_archive` followed by `parse_dat_index`: one entry per file,
      in order, with the file's name field, its length as both sizes and the
      running offset; the slice at that offset is the file's encoded data. */
  lemma ArchiveParse(files: seq<FileEntry>, i: nat)
    requires DatArchive(files).Ok? && i < |files|
    ensures EntryCount(DatArchive(files).value) == |files|
    ensures Encode(files[i].data, 0).Ok?
    ensures ParseDatIndex(DatArchive(files).value)[i]
         == Entry(BeforeNul(NameField(files[i].name)), |files[i].data|, |files[i].data|, SumLengths(files[..i]))
    ensures EntryData(DatArchive(files).value, ParseDatIndex(DatArchive(files).value)[i])
         == Encode(files[i].data, 0).value
  {
    var enc := EncodeFiles(files).value;
    EncodeFilesAt(files, i);
    EncodeFilesOffsets(files);
    LayoutCount(enc);
    LayoutParse(enc, i);
    LayoutPayload(enc, i);
  }

  /** A name of at most 63 bytes without NUL comes back unchanged. */
  lemma ArchiveNames(files: seq<FileEntry>, i: nat)
    requires DatArchive(files).Ok? && i < |files|
    requires |files[i].name| <= 63 && forall k :: 0 <= k < |files[i].name| ==> files[i].name[k] != 0
    ensures |ParseDatIndex(DatArchive(files).value)| == |files|
    ensures ParseDatIndex(DatArchive(files).value)[i].name == files[i].name
  {
    ArchiveParse(files, i);
    BeforeNulNoNul(files[i].name);
  }

  /** Extracting a created archive: every entry decodes, to data of the
      file's length that agrees with the file at every position p with
      p % 12 != 9, and in full when the file has at most 9 bytes. */
  lemma ArchiveExtract(files: seq<FileEntry>, i: nat)
    requires DatArchive(files).Ok? && i < |files|
    ensures |ParseDatIndex(DatArchive(files).value)| == |files|
    ensures var out := ExtractEntry(DatArchive(files).value, ParseDatIndex(DatArchive(files).value)[i]);
      && out.data.Ok? && |out.data.value| == |files[i].data|
      && (forall p :: 0 <= p < |files[i].data| && p % 12 != 9 ==> out.data.value[p] == files[i].data[p])
      && (|files[i].data| <= 9 ==> out.data.value == files[i].data)
  {
    ArchiveParse(files, i);
    var data := files[i].data;
    assert |data| > 0;
    forall p | 0 <= p < |data| && p % 12 != 9
      ensures Decode(Encode(data, 0).value, 0).value[p] == data[p]
    {
      DecodeEncodeAtZero(data, p);
    }
    if |data| <= 9 {
      DecodeEncode(data, 0);
    }
  }

  /** An archive whose payloads were produced by the corrected encoder
      extracts to exactly the original data of every entry. */
  lemma CorrectedLayoutExtract(entries: seq<FileEntry>, original: seq<seq<byte>>, i: nat)
    requires DatLayout(entries).Ok? && RunningOffsets(entries) && |original| == |entries|
    requires forall k :: 0 <= k < |entries| ==> CorrectedEncode(original[k], 0) == Ok(entries[k].data)
    requires i < |entries|
    ensures |ParseDatIndex(DatLayout(entries).value)| == |entries|
    ensures ExtractEntry(DatLayout(entries).value, ParseDatIndex(DatLayout(entries).value)[i]).data
         == Ok(original[i])
  {
    LayoutPayload(entries, i);
  }
}
