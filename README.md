# TimeLeap `.dat` archive codec, modelled in Dafny

This project models the PC `.dat` archive codec of the TimeLeap tools. Both
`pack_dat.py` (the packer) and `extract_dat.py` (the extractor) carry a copy of it.

- **Payload scrambler.** `encode_buffer` and `decode_buffer` run three strided
  in-place passes over a `bytearray`, over absolute positions
  `start_offset + i`:
  - signed negation at positions ≡ 1 (mod 4);
  - XOR with the ten-byte key `v12` at positions ≡ 0 (mod 3);
  - nibble swap at positions ≡ 2 (mod 6).

  The order of the passes (mode 1 or mode 2) depends on `start_offset` and `buf[0]`.
- **Index obfuscation.** `nibble_swap` is applied to the whole index.
- **Packer.** `create_dat_archive` encodes every file at offset 0 and tags each
  with the running offset. It then writes the payloads, an index of 80-byte
  records (name field, offset, unpacked size, packed size, four zero bytes),
  nibble-swapped, and the entry count as a little-endian u32.
- **Extractor.** `parse_dat_index` reads the count from the last four bytes
  and un-swaps the index in front of it. `extract_and_decode` slices each
  entry's bytes out of the archive, decodes them at offset 0, and skips
  entries that fail.

The modules follow the program:

- `bytes.dfy` (`Bytes`): the byte type, `Result`, little-endian u32 fields
  as `int.to_bytes`/`int.from_bytes` compute them, Python slicing, and
  NUL-terminated names.
- `byte_transform.dfy` (`ByteTransform`): nibble swap, the three passes as
  per-position byte functions, the two pass orders, mode selection, and the
  in-place strided loops on `array<byte>`.
- `pack_dat.dfy` (`PackDat`): `encode_buffer` and the packer. The imperative
  parts are methods, each proved against a specification function:
  - the encoding loop;
  - the payload loop;
  - the index loop with its slice writes into an 80-byte entry;
  - `create_dat_archive`.
- `extract_dat.dfy` (`ExtractDat`): `decode_buffer`, `parse_dat_index` (a
  sequence comprehension) and the extraction loop with its `success_count`.
- `round_trip.dfy` (`DatRoundTrip`): how the two halves fit together. It
  covers where decoding undoes encoding, the counterexample where it does
  not, a corrected encoder, and what the extractor reads back from a freshly
  created archive.

## Model

| member | source | states |
|---|---|---|
| Bytes.U32LE | TimeLeap/python/pack_dat.py:139 | `v.to_bytes(4, "little")` fails exactly when v ≥ 2^32; otherwise gives 4 bytes that read back as v |
| Bytes.FromLittleEndian | TimeLeap/python/pack_dat.py:139-145 | little-endian bytes of a value below 256^n read back as that value |
| Bytes.LittleEndian | TimeLeap/python/pack_dat.py:139-145 | `to_bytes(n, "little")` without its overflow check: always n bytes; `FromLittleEndian` is its inverse and `U32LE` adds the check |
| Bytes.FromLE | TimeLeap/python/extract_dat.py:86-99 | `int.from_bytes(s, "little")`; no contract of its own: `FromLEBound` bounds it and `FromLittleEndian` makes it the inverse of `LittleEndian` |
| Bytes.FromLEBound | TimeLeap/python/extract_dat.py:86-99 | n bytes always read as a value below 256^n |
| Bytes.FromLEU32 | TimeLeap/python/extract_dat.py:97-99 | at most four bytes always read as a value below 2^32 |
| Bytes.PySlice | TimeLeap/python/extract_dat.py:131 | Python slicing never fails and clamps its bounds: inside the sequence it is the ordinary slice, a start at or past the end gives the empty slice, and a negative start −k (k ≤ length) with an open end gives the last k bytes, as `dat_bytes[-4:]` does |
| Bytes.SliceBound | TimeLeap/python/extract_dat.py:86-91 | Python's normalisation of one slice bound always lands in [0, n] and leaves an in-range bound alone |
| Bytes.BeforeNul | TimeLeap/python/extract_dat.py:96 | `split(b"\x00", 1)[0]` is a prefix without NUL, followed by a NUL when it stops early |
| Bytes.BeforeNulPadded | TimeLeap/python/pack_dat.py:132-136 | zero padding after a name does not change the name read back |
| Bytes.BeforeNulNoNul | TimeLeap/python/extract_dat.py:96 | a name with no NUL reads back whole |
| ByteTransform.NibbleSwapByte | TimeLeap/python/pack_dat.py:6-7 | the result's high nibble is the input's low nibble and vice versa |
| ByteTransform.NibbleSwapByteInvolutive | TimeLeap/python/pack_dat.py:6-7 | swapping the nibbles twice restores every byte |
| ByteTransform.NibbleSwap | TimeLeap/python/pack_dat.py:9-10 | `nibble_swap` keeps the length |
| ByteTransform.NibbleSwapInvolutive | TimeLeap/python/extract_dat.py:9-10 | `nibble_swap` undoes itself on any buffer |
| ByteTransform.NibbleSwapSlice | TimeLeap/python/extract_dat.py:91 | the swap works byte by byte, so it commutes with slicing |
| ByteTransform.Negate | TimeLeap/python/pack_dat.py:52 | the negated byte is the additive inverse of the byte modulo 256 |
| ByteTransform.NegateAsSigned | TimeLeap/python/pack_dat.py:52 | `(-signed(b)) & 0xFF` equals that inverse for every byte, 0x80 included |
| ByteTransform.Signed | TimeLeap/python/extract_dat.py:36 | `b if b < 128 else b - 256` reads the byte as a signed value in [-128, 128) |
| ByteTransform.SignedValue | TimeLeap/python/extract_dat.py:36 | the signed value is b below 128 and b − 256 from 128 on |
| ByteTransform.NegateValue | TimeLeap/python/extract_dat.py:36 | the negated byte is 0 for 0 and 256 − b otherwise |
| ByteTransform.NegateInvolutive | TimeLeap/python/extract_dat.py:36 | negating twice restores the byte |
| ByteTransform.KeyIndex | TimeLeap/python/pack_dat.py:44 | `(j % 6) + ((j // 5) % 5)` always indexes inside the ten-byte key table |
| ByteTransform.Key | TimeLeap/python/pack_dat.py:15 | the ten-byte key table `v12`, byte for byte; a constant, so it has no contract |
| ByteTransform.NegateXorMeet | TimeLeap/python/pack_dat.py:41-53 | the negate and XOR passes act on the same position exactly when it is 9 mod 12 |
| ByteTransform.SwapMeetsNothing | TimeLeap/python/pack_dat.py:32-53 | the nibble-swap positions (2 mod 6) meet neither other pass |
| ByteTransform.NegateStep | TimeLeap/python/extract_dat.py:35-36 | one negation-loop write at an absolute position: no contract of its own; `StepsInvolutive` shows it undoes itself |
| ByteTransform.XorStep | TimeLeap/python/extract_dat.py:42-44 | one XOR-loop write with key byte `v12[(j % 6) + ((j // 5) % 5)]`: no contract of its own; `StepsInvolutive` shows it undoes itself |
| ByteTransform.SwapStep | TimeLeap/python/extract_dat.py:50-52 | one swap-loop write: no contract of its own; `StepsInvolutive` shows it undoes itself |
| ByteTransform.StepsInvolutive | TimeLeap/python/extract_dat.py:32-53 | each of the three per-position writes, applied twice at the same position, restores the byte |
| ByteTransform.NegatePass | TimeLeap/python/extract_dat.py:32-37 | the negation loop over the whole buffer keeps its length; `ApplyNegatePass` is proved equal to it and `NegatePassInvolutive` shows it undoes itself |
| ByteTransform.XorPass | TimeLeap/python/extract_dat.py:39-45 | the key XOR loop over the whole buffer keeps its length; `ApplyXorPass` is proved equal to it and `XorPassInvolutive` shows it undoes itself |
| ByteTransform.SwapPass | TimeLeap/python/extract_dat.py:47-53 | the nibble-swap loop over the whole buffer keeps its length; `ApplySwapPass` is proved equal to it and `SwapPassInvolutive` shows it undoes itself |
| ByteTransform.ForwardByte | TimeLeap/python/extract_dat.py:31-53 | negate, XOR, swap at one absolute position: no contract of its own; `ByteOrdersInverse` pairs it with `ReverseByte` |
| ByteTransform.ReverseByte | TimeLeap/python/extract_dat.py:55-75 | swap, XOR, negate at one absolute position: no contract of its own; `ByteOrdersInverse` pairs it with `ForwardByte` |
| ByteTransform.ByteOrdersInverse | TimeLeap/python/extract_dat.py:31-75 | on one byte, each of the two orders undoes the other |
| ByteTransform.ForwardOrder | TimeLeap/python/extract_dat.py:31-53 | the decoder's mode 1 and the encoder's mode 2 keep the length; `OrdersArePasses` shows it is the three passes in that order and `OrdersInverse` that `ReverseOrder` undoes it |
| ByteTransform.ReverseOrder | TimeLeap/python/extract_dat.py:55-75 | the decoder's mode 2 and the encoder's mode 1 keep the length; `OrdersArePasses` shows it is the three passes in that order and `OrdersInverse` that `ForwardOrder` undoes it |
| ByteTransform.SelectMode | TimeLeap/python/pack_dat.py:21-26 | mode 1 iff the offset is nonzero or buf[0] ≥ 0x80; mode 2 iff the offset is 0 and buf[0] < 0x80; an empty buffer at offset 0 is an error |
| ByteTransform.NegatePassInvolutive | TimeLeap/python/extract_dat.py:32-37 | the whole negation pass undoes itself |
| ByteTransform.XorPassInvolutive | TimeLeap/python/extract_dat.py:39-45 | the whole key XOR pass undoes itself |
| ByteTransform.SwapPassInvolutive | TimeLeap/python/extract_dat.py:47-53 | the whole nibble-swap pass undoes itself |
| ByteTransform.OrdersArePasses | TimeLeap/python/extract_dat.py:31-75 | each order equals the three whole-buffer passes run one after another in that order |
| ByteTransform.OrdersInverse | TimeLeap/python/extract_dat.py:55-75 | mode 2 is mode 1 in reverse order: each order undoes the other at every start offset |
| ByteTransform.OrdersTouchOnly | TimeLeap/python/extract_dat.py:31-75 | both orders keep the length and leave every position that no pass reaches unchanged |
| ByteTransform.FirstPositionBytes | TimeLeap/python/pack_dat.py:41-45 | at absolute position 0 only the XOR with key byte 0xFF acts, in either order |
| ByteTransform.OrdersFirstByte | TimeLeap/python/pack_dat.py:41-45 | at offset 0 both orders turn byte 0 into s[0] ^ 0xFF |
| ByteTransform.ByteOrdersAgree | TimeLeap/python/extract_dat.py:31-75 | away from positions ≡ 9 (mod 12) the two orders agree on every byte |
| ByteTransform.OrderTwiceAt | TimeLeap/python/extract_dat.py:31-75 | running one order twice restores every byte whose absolute position is not ≡ 9 (mod 12) |
| ByteTransform.NoMeetBelowNine | TimeLeap/python/pack_dat.py:41-53 | the negate and XOR passes first meet at position 9 |
| ByteTransform.OrderTwice | TimeLeap/python/extract_dat.py:31-75 | where the two passes never meet, running one order twice is the identity |
| ByteTransform.ByteOrdersAtOverlap | TimeLeap/python/pack_dat.py:41-53 | at a shared position one order gives -b ^ key and the other -(b ^ key) |
| ByteTransform.NegateVisit | TimeLeap/python/extract_dat.py:34-37 | one iteration of the negation loop moves the processed boundary one stride on |
| ByteTransform.ApplyNegatePass | TimeLeap/python/extract_dat.py:33-37 | the in-place loop, starting from `4 * (a4 >> 2) + 1`, leaves the buffer equal to the negation pass of its old contents |
| ByteTransform.XorVisit | TimeLeap/python/extract_dat.py:41-45 | one iteration of the XOR loop moves the processed boundary one stride on |
| ByteTransform.ApplyXorPass | TimeLeap/python/extract_dat.py:40-45 | the in-place loop, starting from `3 * (a4 // 3)`, leaves the buffer equal to the XOR pass of its old contents |
| ByteTransform.SwapVisit | TimeLeap/python/extract_dat.py:49-53 | one iteration of the swap loop moves the processed boundary one stride on |
| ByteTransform.ApplySwapPass | TimeLeap/python/extract_dat.py:48-53 | the in-place loop, starting from `6 * (a4 // 6) + 2`, leaves the buffer equal to the swap pass of its old contents |
| PackDat.Encode | TimeLeap/python/pack_dat.py:13-75 | `encode_buffer` fails exactly on an empty buffer at offset 0 and otherwise keeps the length |
| PackDat.EncodeBuffer | TimeLeap/python/pack_dat.py:13-75 | the in-place routine reports failure exactly when `Encode` fails, leaving the buffer untouched; otherwise the buffer becomes `Encode` of its old contents |
| PackDat.EncodeTouchesOnly | TimeLeap/python/pack_dat.py:30-75 | the encoder changes only positions ≡ 1 (mod 4), ≡ 0 (mod 3) or ≡ 2 (mod 6) |
| PackDat.EncodeFirstByte | TimeLeap/python/pack_dat.py:41-45 | at offset 0 output byte 0 is input byte 0 XOR 0xFF |
| PackDat.EncodeFiles | TimeLeap/python/pack_dat.py:109-120 | the encoding loop fails only with the empty-buffer error and otherwise returns one entry per file |
| PackDat.EncodeFilesFails | TimeLeap/python/pack_dat.py:112-115 | the encoding loop fails exactly when some file is empty |
| PackDat.EncodeFilesAt | TimeLeap/python/pack_dat.py:112-119 | entry k carries file k's name, its data encoded at offset 0, and the total length of the files before it |
| PackDat.EncodedLengths | TimeLeap/python/pack_dat.py:119 | encoding keeps lengths, so the running sums over encoded and original data agree |
| PackDat.SumLengths | TimeLeap/python/pack_dat.py:109-119 | the `current_offset` accumulator after a list of files: no contract of its own; `EncodeFilesOffsets` shows the offsets are these sums and `PayloadRegion` that the payload is this long |
| PackDat.EncodeFilesOffsets | TimeLeap/python/pack_dat.py:109-119 | the offsets are running sums of the encoded lengths, from 0, in input order |
| PackDat.NameField | TimeLeap/python/pack_dat.py:135 | the name field is the prefix of the name of length min(|name|, 63): the whole name when it fits, exactly its first 63 bytes otherwise |
| PackDat.IndexRecord | TimeLeap/python/pack_dat.py:132-147 | a record is exactly 80 bytes and fails with the overflow error exactly when the offset or size is ≥ 2^32 |
| PackDat.IndexRecordLayout | TimeLeap/python/pack_dat.py:132-145 | the name field is zero-filled to byte 64; offset at 64, size at 68 and again at 72; zeros at 76..80 |
| PackDat.Overwrite | TimeLeap/python/pack_dat.py:136 | slice assignment replaces exactly the bytes at [at, at+len) and keeps the rest and the length |
| PackDat.WriteSlice | TimeLeap/python/pack_dat.py:136-145 | the in-place slice write leaves the array equal to `Overwrite` of its old contents |
| PackDat.RecordWrites | TimeLeap/python/pack_dat.py:132-145 | the four slice writes into 80 zero bytes produce exactly the record layout |
| PackDat.BuildIndexEntry | TimeLeap/python/pack_dat.py:132-145 | building one entry in a fresh 80-byte array gives `IndexRecord`, overflow error included |
| PackDat.IndexTable | TimeLeap/python/pack_dat.py:130-147 | the index fails only with the overflow error and otherwise holds 80 bytes per entry |
| PackDat.FieldsFit | TimeLeap/python/pack_dat.py:139-145 | the offset and the data length both fit a u32 field: no contract of its own; `IndexTableFails` shows the index loop fails exactly when some entry breaks it |
| PackDat.IndexTableFails | TimeLeap/python/pack_dat.py:131-145 | the index loop fails exactly when some offset or length needs more than 32 bits |
| PackDat.IndexTableRecord | TimeLeap/python/pack_dat.py:131-147 | bytes [80k, 80k+80) of the index are entry k's record |
| PackDat.PayloadRegion | TimeLeap/python/pack_dat.py:126-127 | the payload region is as long as all data together |
| PackDat.PayloadRegionSlice | TimeLeap/python/pack_dat.py:109-127 | entry k's data lies at the sum of the lengths before it |
| PackDat.DatLayout | TimeLeap/python/pack_dat.py:123-156 | a laid-out archive is Σ\|data\| + 80·n + 4 bytes long |
| PackDat.DatArchiveOutcome | TimeLeap/python/pack_dat.py:102-156 | `create_dat_archive` fails exactly on no files, an empty file, or a count, offset or size ≥ 2^32; otherwise the archive is Σ\|data\| + 80·n + 4 bytes |
| PackDat.DatArchive | TimeLeap/python/pack_dat.py:102-156 | `create_dat_archive` on ordered input: no contract of its own; `DatArchiveOutcome` states its failures and length, `ArchiveParse` and `ArchiveExtract` what is read back, and `CreateDatArchive` is proved equal to it |
| PackDat.EncodeAllFiles | TimeLeap/python/pack_dat.py:109-120 | the encoding loop with its `current_offset` accumulator computes `EncodeFiles` |
| PackDat.AppendPayloads | TimeLeap/python/pack_dat.py:123-127 | the payload loop builds the payload region |
| PackDat.BuildIndex | TimeLeap/python/pack_dat.py:130-147 | the index loop computes `IndexTable`, stopping at the first overflow |
| PackDat.CreateDatArchive | TimeLeap/python/pack_dat.py:102-156 | the whole packer computes `DatArchive` |
| ExtractDat.Decode | TimeLeap/python/extract_dat.py:13-75 | `decode_buffer` fails exactly on an empty buffer at offset 0 and otherwise keeps the length |
| ExtractDat.DecodeBuffer | TimeLeap/python/extract_dat.py:13-75 | the in-place routine reports failure exactly when `Decode` fails, leaving the buffer untouched; otherwise the buffer becomes `Decode` of its old contents |
| ExtractDat.DecodeTouchesOnly | TimeLeap/python/extract_dat.py:31-75 | the decoder changes only positions ≡ 1 (mod 4), ≡ 0 (mod 3) or ≡ 2 (mod 6) |
| ExtractDat.DecodeFirstByte | TimeLeap/python/extract_dat.py:39-45 | at offset 0 output byte 0 is input byte 0 XOR 0xFF |
| ExtractDat.ParseRecord | TimeLeap/python/extract_dat.py:95-100 | a parsed name has at most 64 bytes, and every field is below 2^32 |
| ExtractDat.ParseRecordFields | TimeLeap/python/extract_dat.py:95-100 | for a full record: name from bytes [0, 64) up to the first NUL; offset from 64..68; unpacked size from 68..72; packed size from 72..76 |
| ExtractDat.EntryCount | TimeLeap/python/extract_dat.py:86 | the count read from the last four bytes is below 2^32 |
| ExtractDat.IndexStart | TimeLeap/python/extract_dat.py:87-88 | `index_start = len(dat_bytes) - 4 - 80 * count`: no contract of its own; `IndexLocation` places the index there, and `LayoutCount` shows it is the payload length for a created archive |
| ExtractDat.IndexBytes | TimeLeap/python/extract_dat.py:91 | the index slice with the nibble swap undone: no contract of its own; `IndexLocation` and `IndexRecordBytes` pin its bytes on well-formed archives |
| ExtractDat.WellFormed | TimeLeap/python/extract_dat.py:86-91 | the bound the source leaves unchecked: the count leaves room for 80·count index bytes before it; `LayoutCount` shows every created archive meets it |
| ExtractDat.ParseDatIndex | TimeLeap/python/extract_dat.py:84-102 | `parse_dat_index` returns exactly `count` entries |
| ExtractDat.IndexLocation | TimeLeap/python/extract_dat.py:86-91 | the count is the last four bytes; the index is the 80·count bytes just before them, nibble-swapped back |
| ExtractDat.IndexRecordBytes | TimeLeap/python/extract_dat.py:91-95 | record i of the un-swapped index is the swap of the 80 archive bytes at index start + 80i |
| ExtractDat.ParseDatIndexAt | TimeLeap/python/extract_dat.py:93-100 | entry i is the parse of record i, in index order |
| ExtractDat.EntryData | TimeLeap/python/extract_dat.py:131 | `dat[offset : offset + packed_size]` is the exact slice when it fits, is clamped to the rest of the archive when it runs past the end, and is empty when the offset is past the end |
| ExtractDat.ExtractEntry | TimeLeap/python/extract_dat.py:129-146 | one entry keeps its name; it fails exactly when its slice is empty, and otherwise decodes to as many bytes as the slice |
| ExtractDat.ExtractAll | TimeLeap/python/extract_dat.py:128-146 | one outcome per entry |
| ExtractDat.ExtractAllAt | TimeLeap/python/extract_dat.py:128-146 | outcome i is entry i's extraction; a failing entry does not affect the others |
| ExtractDat.CountOk | TimeLeap/python/extract_dat.py:127-143 | the success count never exceeds the number of entries |
| ExtractDat.ExtractOne | TimeLeap/python/extract_dat.py:131-134 | copying the slice into a buffer and decoding it in place gives `ExtractEntry` |
| ExtractDat.ExtractEntries | TimeLeap/python/extract_dat.py:127-146 | the loop yields `ExtractAll`, and `success_count` counts the outcomes that decoded, at most one per entry |
| ExtractDat.ExtractAndDecode | TimeLeap/python/extract_dat.py:115-148 | one outcome per parsed entry, in order, each that entry's extraction; success count ≤ entries |
| DatRoundTrip.DecodeEncodeNonzeroOffset | TimeLeap/python/pack_dat.py:12-14 | away from offset 0 decoding undoes encoding and encoding undoes decoding |
| DatRoundTrip.EncodeFlipsMode | TimeLeap/python/pack_dat.py:21-26 | at offset 0 the decoder always picks the other mode than the encoder did |
| DatRoundTrip.DecodeEncodeAtZeroOrder | TimeLeap/python/pack_dat.py:55-75 | at offset 0 decoding the encoder's output runs the encoder's own order a second time |
| DatRoundTrip.DecodeEncodeAtZero | TimeLeap/python/pack_dat.py:12-14 | at offset 0 decoding restores every byte at a position p with p % 12 ≠ 9 |
| DatRoundTrip.EncodeDecodeAtZero | TimeLeap/python/pack_dat.py:12-14 | at offset 0 encoding after decoding restores every byte at a position p with p % 12 ≠ 9 |
| DatRoundTrip.DecodeEncode | TimeLeap/python/pack_dat.py:12-14 | decode undoes encode when the offset is nonzero or the buffer has at most 9 bytes |
| DatRoundTrip.EncodeDecode | TimeLeap/python/pack_dat.py:12-14 | encode undoes decode under the same condition |
| DatRoundTrip.TenZerosCounterexample | TimeLeap/python/pack_dat.py:41-53 | ten zero bytes encode to 0x9C at index 9, which decodes to 0xF8: the round trip fails |
| DatRoundTrip.CorrectedEncode | TimeLeap/python/pack_dat.py:20-26 | the encoder with the mode test the decoder needs: it fails and keeps lengths like `Encode`, equals it off offset 0, and is undone by `Decode` on every input |
| DatRoundTrip.CorrectedEncodeTouchesOnly | TimeLeap/python/pack_dat.py:30-75 | like the original encoder, the corrected one leaves every position that no pass reaches unchanged |
| DatRoundTrip.CorrectedEncodeDecode | TimeLeap/python/pack_dat.py:12-14 | the corrected encoder rebuilds every buffer from its decoding |
| DatRoundTrip.LayoutCount | TimeLeap/python/pack_dat.py:156 | a laid-out archive is well formed and its count reads back as the number of entries |
| DatRoundTrip.ParseIndexRecord | TimeLeap/python/extract_dat.py:95-100 | parsing a packed record gives the name field up to its first NUL, the size twice and the offset |
| DatRoundTrip.LayoutRecord | TimeLeap/python/extract_dat.py:88-95 | the extractor locates record i of a laid-out archive exactly where the packer wrote it |
| DatRoundTrip.LayoutParse | TimeLeap/python/extract_dat.py:93-100 | entry i parsed from a laid-out archive carries the packed name field, size and offset |
| DatRoundTrip.LayoutPayload | TimeLeap/python/extract_dat.py:131 | with running offsets, the extractor's slice for entry i is exactly entry i's data |
| DatRoundTrip.ArchiveParse | TimeLeap/python/extract_dat.py:84-102 | parsing a created archive gives, for each file in order, its name field, its length as both sizes, and the running offset; the slice there is the file's encoded data |
| DatRoundTrip.ArchiveNames | TimeLeap/python/extract_dat.py:96 | a name of at most 63 bytes without NUL comes back unchanged |
| DatRoundTrip.ArchiveExtract | TimeLeap/python/extract_dat.py:127-143 | every entry of a created archive decodes; its data has the file's length, matches the file at every p % 12 ≠ 9, and equals it when the file has at most 9 bytes |
| DatRoundTrip.CorrectedLayoutExtract | TimeLeap/python/extract_dat.py:131-134 | an archive whose payloads come from the corrected encoder extracts every entry to exactly its original data |

## Left out

- Filesystem and console I/O are not modelled, because they do not touch the codec:
  - directory scanning and sorting (`rglob`, `sorted`);
  - `read_bytes`/`write_bytes` and `mkdir`;
  - output-path naming, `sys.argv` and all `print` output.

  The packer takes an already ordered list of (name bytes, data) pairs. The
  extractor returns the outcomes instead of writing files.
- Text codecs are not modelled. Names are byte sequences throughout: the UTF-8
  `encode` of the packer and the `decode(errors="ignore")` of the extractor
  are not modelled. A 63-byte cut can split a multi-byte character; that loss
  happens in the text codec, not in the archive format.
- Exception plumbing is modelled as `Result` values. In the extractor, only the
  failure the codec itself raises is modelled: `buf[0]` of an empty slice. A
  failing `write_bytes` or `mkdir` would also be caught and skipped, but that
  is filesystem behaviour.
- `parse_dat_index` cannot raise on any input once Python slicing is modelled
  exactly, so the extractor's "error parsing index" branch has no counterpart.
- Start offsets are `nat`. The source only ever passes 0, and a negative
  offset has no meaning for it.
- ExtractDat.ParseDatIndexAt: stated only for archives whose count leaves room
  for the index (80·count + 4 ≤ length). On shorter inputs `ParseDatIndex`
  still follows Python's clamped slicing, but no lemma describes the records
  it then reads. The same holds for ExtractDat.IndexLocation and
  ExtractDat.IndexRecordBytes.
- DatRoundTrip.ArchiveNames: stated only for names of at most 63 bytes without
  NUL. Longer names come back cut to 63 bytes, and names with a NUL come back
  cut at it, as DatRoundTrip.ArchiveParse states.
- DatRoundTrip.DecodeEncode and DatRoundTrip.EncodeDecode: stated only for a
  nonzero offset or at most 9 bytes, because the general claim is false (see
  Findings).
- Each pass loop's body is a separate method (`NegateVisit`, `XorVisit`,
  `SwapVisit`) that the loop calls once per iteration. The loops themselves
  are as the source writes them.
- `pack_dat.py` and `extract_dat.py` have no index-at-start variant: the
  index always sits just before the count. Bytes 76..80 of each record are
  written as zeros and never read back.
- The XBox 360 `.pak` container (`XBox 360 Version/pack_pak.py` and
  `extract_pak.py`) is a separate tool and is not part of this model.

## Findings

| source | as written | input that shows it | evidently intended | confidence | as-written member | corrected member |
|---|---|---|---|---|---|---|
| TimeLeap/python/pack_dat.py:21-26 | At `start_offset` 0, `encode_buffer` picks its mode from the unencoded `buf[0]`. Its XOR pass then inverts byte 0 (key byte 0xFF), so `decode_buffer` picks the other mode. Decoding therefore repeats the encoder's pass order instead of reversing it, which can break positions ≡ 9 (mod 12) (for example 9), where negate and XOR both act; wherever the key byte there is 0 (for example 21, 45 and 249) it happens to restore the byte. | ten zero bytes at offset 0: byte 9 encodes to 0x9C and decodes to 0xF8 | `decode_buffer(encode_buffer(b))` restores `b`, as the "reverse of decode" docstring says | not executed | DatRoundTrip.TenZerosCounterexample | DatRoundTrip.CorrectedEncode |

`PackDat.CreateDatArchive` keeps the encoder as written, so the packer is
modelled faithfully. The archive layout and its read-back lemmas take the
encoded entries as a parameter. `DatRoundTrip.CorrectedLayoutExtract` instantiates
them with payloads from the corrected encoder and proves that every entry
extracts to exactly its original data.
