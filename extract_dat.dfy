/** The extractor of `extract_dat.py`: the payload decoder, the parsing of the
    index at the end of a `.dat` archive, and the per-entry extraction loop. */
module ExtractDat {
  import opened Bytes
  import opened ByteTransform

  // ---------------------------------------------------------------------------
  // decode_buffer

  /** `decode_buffer` on the value of the buffer: mode 1 runs negate, XOR,
      nibble swap; mode 2 runs the same passes in reverse order. */
  function Decode(s: seq<byte>, a4: nat): (r: Result<seq<byte>>)
    ensures r.Err? <==> a4 == 0 && |s| == 0
    ensures r.Ok? ==> |r.value| == |s|
  {
    var mode :- SelectMode(s, a4);
    if mode == Mode1 then Ok(ForwardOrder(s, a4)) else Ok(ReverseOrder(s, a4))
  }

  /** The in-place routine: on an empty buffer at offset 0 it fails before
      touching anything (the source raises IndexError reading `buf[0]`). */
  method DecodeBuffer(buf: array<byte>, startOffset: nat) returns (ok: bool)
    modifies buf
    ensures ok == Decode(old(buf[..]), startOffset).Ok?
    ensures buf[..] == if ok then Decode(old(buf[..]), startOffset).value else old(buf[..])
  {
    OrdersArePasses(buf[..], startOffset);
    var mode;
    if startOffset != 0 {
      mode := Mode1;
    } else if buf.Length == 0 {
      return false;
    } else if buf[0] < 0x80 {
      mode := Mode2;
    } else {
      mode := Mode1;
    }
    if mode == Mode1 {
      ApplyNegatePass(buf, startOffset);
      ApplyXorPass(buf, startOffset);
      ApplySwapPass(buf, startOffset);
    } else {
      ApplySwapPass(buf, startOffset);
      ApplyXorPass(buf, startOffset);
      ApplyNegatePass(buf, startOffset);
    }
    ok := true;
  }

  /** The decoder changes no byte whose absolute position no pass reaches. */
  lemma DecodeTouchesOnly(s: seq<byte>, a4: nat, p: nat)
    requires Decode(s, a4).Ok? && p < |s| && !Touched(a4 + p)
    ensures Decode(s, a4).value[p] == s[p]
  {
    OrdersTouchOnly(s, a4, p);
  }

  /** At offset 0 the decoder, too, only inverts the first byte. */
  lemma DecodeFirstByte(s: seq<byte>)
    requires |s| > 0
    ensures Decode(s, 0).Ok? && Decode(s, 0).value[0] == s[0] ^ 0xFF
  {
    OrdersFirstByte(s);
  }

  // ---------------------------------------------------------------------------
  // parse_dat_index

  /** An index entry as the extractor reads it. */
  datatype Entry = Entry(name: seq<byte>, packedSize: nat, unpackedSize: nat, offset: nat)

  /** One record: the name before the first NUL of bytes [0, 64), and three
      little-endian u32 fields at 64, 68 and 72; bytes 76..80 are not read.
      Every slice is a Python slice, so a short record reads short fields. */
  function ParseRecord(ent: seq<byte>): (r: Entry)
    ensures |r.name| <= 64
    ensures r.offset < U32Limit && r.unpackedSize < U32Limit && r.packedSize < U32Limit
  {
    var offset, unpacked, packed := PySlice(ent, 64, 68), PySlice(ent, 68, 72), PySlice(ent, 72, 76);
    FromLEU32(offset);
    FromLEU32(unpacked);
    FromLEU32(packed);
    Entry(BeforeNul(PySlice(ent, 0, 64)), FromLE(packed), FromLE(unpacked), FromLE(offset))
  }

  /** The fields of a full 80-byte record. */
  lemma ParseRecordFields(ent: seq<byte>)
    requires |ent| == 80
    ensures ParseRecord(ent)
         == Entry(BeforeNul(ent[..64]), FromLE(ent[72..76]), FromLE(ent[68..72]), FromLE(ent[64..68]))
  {
  }

  /** The entry count: the little-endian integer in the last four bytes. */
  function EntryCount(dat: seq<byte>): (r: nat)
    ensures r < U32Limit
  {
    var tail := PySlice(dat, -4, |dat|);
    FromLEU32(tail);
    FromLE(tail)
  }

  /** Where the index would start: 80 bytes per entry before the count. */
  function IndexStart(dat: seq<byte>): int
  {
    |dat| - 4 - 80 * EntryCount(dat)
  }

  /** The index region with the nibble swap undone. */
  function IndexBytes(dat: seq<byte>): seq<byte>
  {
    NibbleSwap(PySlice(dat, IndexStart(dat), IndexStart(dat) + 80 * EntryCount(dat)))
  }

  /** `parse_dat_index`: exactly `count` entries, record i parsed from bytes
      [80i, 80i + 80) of the index. No check is made that the index fits the
      archive; Python's slicing then yields short or empty records. */
  function ParseDatIndex(dat: seq<byte>): (r: seq<Entry>)
    ensures |r| == EntryCount(dat)
  {
    var index := IndexBytes(dat);
    seq(EntryCount(dat), i requires 0 <= i < EntryCount(dat) => ParseRecord(PySlice(index, i * 80, (i + 1) * 80)))
  }

  /** An archive whose count leaves room for the index before it. */
  predicate WellFormed(dat: seq<byte>)
  {
    |dat| >= 4 && 80 * EntryCount(dat) + 4 <= |dat|
  }

  /** In a well-formed archive the count is the last four bytes and the
      index is the 80·count bytes just before them, nibble-swapped back. */
  lemma IndexLocation(dat: seq<byte>)
    requires WellFormed(dat)
    ensures EntryCount(dat) == FromLE(dat[|dat| - 4..])
    ensures IndexBytes(dat) == NibbleSwap(dat[IndexStart(dat)..|dat| - 4])
  {
    assert PySlice(dat, -4, |dat|) == dat[|dat| - 4..];
  }

  /** Record i of the deobfuscated index is the nibble swap of the 80 archive
      bytes at IndexStart + 80i. */
  lemma IndexRecordBytes(dat: seq<byte>, i: nat)
    requires WellFormed(dat) && i < EntryCount(dat)
    ensures |IndexBytes(dat)| == 80 * EntryCount(dat)
    ensures var at := IndexStart(dat) + 80 * i;
      IndexBytes(dat)[80 * i..80 * i + 80] == NibbleSwap(dat[at..at + 80])
  {
    var start := IndexStart(dat);
    var region := dat[start..|dat| - 4];
    assert IndexBytes(dat) == NibbleSwap(region) by {
      IndexLocation(dat);
    }
    var lo := 80 * i;
    NibbleSwapSlice(region, lo, lo + 80);
    SliceOfSlice(dat, start, |dat| - 4, lo, lo + 80);
  }

  /** In a well-formed archive, entry i is record i of the index. */
  lemma ParseDatIndexAt(dat: seq<byte>, i: nat)
    requires WellFormed(dat) && i < EntryCount(dat)
    ensures var at := IndexStart(dat) + 80 * i;
      ParseDatIndex(dat)[i] == ParseRecord(NibbleSwap(dat[at..at + 80]))
  {
    IndexRecordBytes(dat, i);
    var index := IndexBytes(dat);
    var lo := 80 * i;
    assert lo == i * 80 && lo + 80 == (i + 1) * 80;
    assert PySlice(index, lo, lo + 80) == index[lo..lo + 80];
  }

  // ---------------------------------------------------------------------------
  // extract_and_decode

  /** The outcome for one entry: its name, and its decoded data or the error
      that made the extractor skip it. */
  datatype Extracted = Extracted(name: seq<byte>, data: Result<seq<byte>>)

  /** `dat[offset : offset + packed_size]`, clamped to the archive. */
  function EntryData(dat: seq<byte>, e: Entry): (r: seq<byte>)
    ensures e.offset + e.packedSize <= |dat| ==> r == dat[e.offset..e.offset + e.packedSize]
    ensures e.offset >= |dat| ==> r == []
    ensures e.offset <= |dat| <= e.offset + e.packedSize ==> r == dat[e.offset..]
  {
    PySlice(dat, e.offset, e.offset + e.packedSize)
  }

  /** One iteration of the extraction loop: the entry's bytes decoded at
      offset 0; an empty slice fails. */
  function ExtractEntry(dat: seq<byte>, e: Entry): (r: Extracted)
    ensures r.name == e.name
    ensures r.data.Err? <==> |EntryData(dat, e)| == 0
    ensures r.data.Ok? ==> |r.data.value| == |EntryData(dat, e)|
  {
    Extracted(e.name, Decode(EntryData(dat, e), 0))
  }

  /** The outcomes of the extraction loop over a list of entries, in order. */
  function ExtractAll(dat: seq<byte>, entries: seq<Entry>): (r: seq<Extracted>)
    ensures |r| == |entries|
  {
    if |entries| == 0 then []
    else ExtractAll(dat, entries[..|entries| - 1]) + [ExtractEntry(dat, entries[|entries| - 1])]
  }

  /** Outcome i is entry i's extraction, whatever happened to the others. */
  lemma {:induction false} ExtractAllAt(dat: seq<byte>, entries: seq<Entry>, i: nat)
    requires i < |entries|
    ensures ExtractAll(dat, entries)[i] == ExtractEntry(dat, entries[i])
  {
    var front := entries[..|entries| - 1];
    if i < |front| {
      ExtractAllAt(dat, front, i);
      assert front[i] == entries[i];
    }
  }

  /** One more entry adds its outcome at the end. */
  lemma ExtractAllStep(dat: seq<byte>, entries: seq<Entry>, i: nat)
    requires i < |entries|
    ensures ExtractAll(dat, entries[..i + 1]) == ExtractAll(dat, entries[..i]) + [ExtractEntry(dat, entries[i])]
  {
    assert entries[..i + 1][..i] == entries[..i];
  }

  /** How many outcomes carry data. */
  function CountOk(outs: seq<Extracted>): (r: nat)
    ensures r <= |outs|
  {
    if |outs| == 0 then 0
    else CountOk(outs[..|outs| - 1]) + (if outs[|outs| - 1].data.Ok? then 1 else 0)
  }

  lemma CountOkStep(outs: seq<Extracted>, outcome: Extracted)
    ensures CountOk(outs + [outcome]) == CountOk(outs) + (if outcome.data.Ok? then 1 else 0)
  {
    assert (outs + [outcome])[..|outs|] == outs;
  }

  /** The body of the extraction loop: copy the entry's bytes into a fresh
      buffer and decode it in place at offset 0. */
  method ExtractOne(dat: seq<byte>, e: Entry) returns (outcome: Extracted)
    ensures outcome == ExtractEntry(dat, e)
  {
    var slice := PySlice(dat, e.offset, e.offset + e.packedSize);
    var raw := new byte[|slice|](k requires 0 <= k < |slice| => slice[k]);
    assert raw[..] == slice;
    var ok := DecodeBuffer(raw, 0);
    if ok {
      outcome := Extracted(e.name, Ok(raw[..]));
    } else {
      outcome := Extracted(e.name, Err(EmptyBuffer));
    }
  }

  /** The extraction loop over a parsed entry list: one outcome per entry, in
      order; a failing entry is recorded and skipped and the loop goes on;
      `successCount` counts the entries that decoded. */
  method ExtractEntries(dat: seq<byte>, entries: seq<Entry>) returns (outputs: seq<Extracted>, successCount: nat)
    ensures outputs == ExtractAll(dat, entries)
    ensures successCount == CountOk(outputs) && successCount <= |entries|
  {
    outputs := [];
    successCount := 0;
    var i := 0;
    while i < |entries|
      invariant 0 <= i <= |entries|
      invariant outputs == ExtractAll(dat, entries[..i])
      invariant successCount == CountOk(outputs)
    {
      var outcome := ExtractOne(dat, entries[i]);
      ExtractAllStep(dat, entries, i);
      CountOkStep(outputs, outcome);
      if outcome.data.Ok? {
        successCount := successCount + 1;
      }
      outputs := outputs + [outcome];
      i := i + 1;
    }
    assert entries[..i] == entries;
  }

  /** `extract_and_decode` on the bytes of an archive: parse the index, then
      extract every entry it lists. */
  method ExtractAndDecode(dat: seq<byte>) returns (outputs: seq<Extracted>, successCount: nat)
    ensures |outputs| == EntryCount(dat)
    ensures forall i :: 0 <= i < |outputs| ==> outputs[i] == ExtractEntry(dat, ParseDatIndex(dat)[i])
    ensures successCount == CountOk(outputs) && successCount <= |outputs|
  {
    var entries := ParseDatIndex(dat);
    outputs, successCount := ExtractEntries(dat, entries);
    forall i | 0 <= i < |outputs|
      ensures outputs[i] == ExtractEntry(dat, entries[i])
    {
      ExtractAllAt(dat, entries, i);
    }
  }
}
