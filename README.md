# Decoder-Binary record codec, in Dafny

This project models the binary log codec of Decoder-Binary (`crud.py`) and
the record-list logic the web layer applies around it (`main.py`), and
proves properties of the model.

A log buffer is a sequence of fixed-size records. Each record starts with a
4-byte header whose first three bytes are the ASCII tag `MIR`, `PRR` or
`PTR`; the fourth byte is kept but never interpreted.

- MIR (28 bytes): header, float32 temperature, 20-byte operator slot.
- PRR (9 bytes): header, little-endian int32 part number, one pass/fail byte.
- PTR (37 bytes): header, 20-byte test-name slot, three float32 words (value,
  low limit, high limit), one pass/fail byte.

`decode_binary` walks the buffer with a `BytesIO` cursor. It stops without
error when fewer than four bytes remain. A header that is ASCII but not a
known tag is skipped on its own four bytes. String slots are decoded as
ASCII and cleaned with `rstrip("\x00").strip()`: the MIR operator tolerantly,
the PTR name strictly. `encode_binary` writes each record's stored header
verbatim and then its fields, padding or truncating strings to 20 bytes.

`get_data` shows the first MIR's temperature and the PTR results in buffer
order. `update_data` decodes the stored buffer and sets the first MIR's
temperature. It then gives the k-th PTR record the value and pass/fail code
of the k-th test result, and re-encodes the list.

Modules:

- `Wire` (wire.dfy): bytes, 4-byte words, little-endian int32.
- `Text` (text.dfy): the ASCII codec in strict and replace modes, NUL
  padding, `rstrip`/`strip`, and the string-slot laws.
- `Records` (records.dfy): records, tags, sizes and errors.
- `Decoder` (decoder.dfy):
  - the record layouts and `Decode` as functions;
  - the cursor `ByteReader` as a class;
  - `decode_binary` and its helpers as methods proved equal to those
    functions.
- `Encoder` (encoder.dfy): `Encode` as a function, and `encode_binary` as a
  loop proved equal to it.
- `RoundTrip` (roundtrip.dfy): decoder dispatch and failure laws, the
  decode-after-encode round trip, and how far decoding is idempotent.
- `Session` (session.dfy): the selection of `get_data` and the in-place
  update of `update_data`, over an array. Also the decode, update, encode
  cycle over a stored buffer, and the read-back law.

Python exceptions are values of `Result`:

- `NonAsciiTag`, `NonAsciiTestName` and `NonAsciiText` stand for the
  `UnicodeDecodeError`/`UnicodeEncodeError` raised by the ASCII codec.
- `Truncated` stands for the `struct.error` of a short read.
- `Int32OutOfRange` and `ByteOutOfRange` stand for the `struct.error` of a
  pack.
- `TestResultIndex` stands for the `IndexError` of the update loop.
- `MirNotFound` is the "MIR record not found" answer.

Floats are kept as the four bytes `struct.pack("<f", …)` writes. The
decoder's `round(…, 2)` is a parameter `round` of type `Word -> Word`
(unpack, round, pack), supplied by the caller.

Decoding and re-encoding do not give the same bytes back in general, and
decoding is not idempotent in general:

- A slot's string is cleaned with `rstrip("\x00").strip()`. Whitespace
  just before the NUL padding is dropped. So an operator slot holding `A`,
  a space and NULs decodes to `"A"`, and is re-encoded without the space
  (`RoundTrip.SpaceBeforePaddingIsLost`).
- The NUL strip runs before the whitespace strip. So a slot holding `A`,
  NUL, space and then NULs decodes to `"A\x00"`. That string is re-encoded
  as `A` plus NUL padding, which decodes to `"A"`
  (`RoundTrip.NulBeforeSpaceIsLost`).
- A MIR operator byte of 0x80 or more decodes to U+FFFD. The encoder's
  strict ASCII encoding then refuses the record
  (`RoundTrip.TolerantOperatorIsNotEncodable`). So an update of such a
  buffer fails whatever the update data (`Session.UpdateFailsOnTolerantOperator`),
  and so does re-encoding it for a download.
- What does hold:
  - Well-formed records survive encode, decode and encode
    (`RoundTrip.ListRoundTrip`, `RoundTrip.EncodeDecodeEncode`).
  - Decoding is idempotent on every buffer whose decoded records can be
    re-encoded and whose decoded strings do not end in a NUL, given an
    idempotent rounding (`RoundTrip.DecodeIdempotent`).

## Model

| member | source | states |
|---|---|---|
| `Wire.DecodeInt32` | crud.py:38 | `struct.unpack("<i")`: the result is a signed 32-bit value, and it is negative exactly when the top byte has its high bit set |
| `Wire.EncodeInt32` | crud.py:64 | `struct.pack("<i")` of an int32 gives four bytes that decode back to it |
| `Wire.Int32WordRoundTrip` | crud.py:38 | every four bytes decode to an int32 that packs back to the same four bytes |
| `Text.DecodeStrict` | crud.py:47 | strict ASCII decoding succeeds exactly on bytes below 0x80 |
| `Text.DecodeReplace` | crud.py:30 | tolerant ASCII decoding gives one character per byte, and exactly the bytes of 0x80 or more become U+FFFD |
| `Text.EncodeAscii` | crud.py:62 | ASCII encoding succeeds exactly on strings of characters below U+0080 |
| `Text.RStripNul` | crud.py:30 | `rstrip("\x00")` returns a prefix that does not end in NUL |
| `Text.RStripNulRemovesNuls` | crud.py:30 | `rstrip("\x00")` removes nothing but NUL characters |
| `Text.RStripSpace` | crud.py:30 | the right half of `strip()` returns a prefix that does not end in whitespace |
| `Text.RStripSpaceRemovesSpaces` | crud.py:30 | the right half of `strip()` removes nothing but whitespace |
| `Text.LStripSpace` | crud.py:30 | the left half of `strip()` returns a string that does not start with whitespace |
| `Text.LStripSpaceRemovesSpaces` | crud.py:30 | the left half of `strip()` returns a suffix, and everything it removes is whitespace |
| `Text.Strip` | crud.py:30 | `strip()` never lengthens a string and leaves no whitespace at either end |
| `Text.Clean` | crud.py:30 | `rstrip("\x00").strip()` never lengthens a string |
| `Text.CleanHasNoEdgeSpace` | crud.py:30 | a cleaned string has no whitespace at either end |
| `Text.CleanKeepsLeadingReplacement` | crud.py:30 | cleaning keeps a leading U+FFFD, which is neither NUL nor whitespace, in front |
| `Text.CleanKeepsAscii` | crud.py:47 | cleaning ASCII text gives ASCII text |
| `Text.StripFixed` | crud.py:30 | `strip()` leaves a string unchanged exactly when neither end is whitespace |
| `Text.RStripNulPadded` | crud.py:30 | NUL padding is removed by `rstrip("\x00")` whatever its length |
| `Text.Slot` | crud.py:62 | `ljust(20, b"\x00")[:20]` gives 20 bytes: the first bytes of its input, then zeros |
| `Text.EncodeSlot` | crud.py:67 | a string has a slot exactly when it is ASCII, and the slot is 20 bytes |
| `Text.SlotLaw` | crud.py:62 | a string slot exists exactly for ASCII text; it is 20 bytes, with the string's first characters and NUL bytes after them |
| `Text.SlotTruncates` | crud.py:62 | a string longer than 20 characters is written as its first 20 |
| `Text.SlotRecovers` | crud.py:30 | the slot of an ASCII string of at most 20 characters decodes back to the string exactly when it has no edge whitespace and no trailing NUL; both decodings agree on it |
| `Text.AsciiRoundTrip` | crud.py:47 | ASCII-encoded text decodes back to itself, strictly and tolerantly |
| `Text.ReplaceAgreesOnAscii` | crud.py:30 | on ASCII bytes the tolerant decoding equals the strict one |
| `Records.KindOfTag` | crud.py:15-21 | dispatch on the three tag bytes: a kind whose tag they are, or none of the three tags |
| `Decoder.ParseMir` | crud.py:25-31 | the MIR layout fails, as truncated, exactly when the temperature is short; otherwise it consumes the temperature and up to 20 operator bytes, and the operator fits a slot with no edge whitespace |
| `Decoder.ParsePrr` | crud.py:34-40 | the PRR layout succeeds exactly when 5 payload bytes remain, consumes them, and gives an int32 part number; otherwise it fails as truncated |
| `Decoder.ParsePtr` | crud.py:43-52 | the PTR layout fails as a non-ASCII name exactly when its name slot is not ASCII, and otherwise fails as truncated exactly when fewer than 33 payload bytes remain; a success consumes 33 bytes and gives a name that fits a slot |
| `Decoder.ParseRecord` | crud.py:16-21 | a parsed record has the given header and the dispatched kind, and consumes at most what remains; a complete payload is consumed exactly, at the kind's fixed size |
| `Decoder.Decode` | crud.py:6-22 | every decoded record's header tag names its own variant |
| `Decoder.DecodeRecordAt` | crud.py:9-21 | a recognised record in front of a buffer decodes to that record followed by the decoding of what comes after its payload |
| `Decoder.DecodeFailsAt` | crud.py:15-21 | a recognised header whose payload fails makes the whole decoding fail with that error |
| `Decoder.ByteReader.constructor` | crud.py:8 | the cursor starts at 0 over the given content |
| `Decoder.ByteReader.Read` | crud.py:10 | `read(n)` returns the next `n` bytes, or fewer at the end, and moves the cursor past them |
| `Decoder.ReadFloat` | crud.py:29 | reads four bytes and rounds them, or fails as truncated when fewer remain |
| `Decoder.ReadByte` | crud.py:39 | reads one byte, or fails as truncated at the end |
| `Decoder.DecodeMir` | crud.py:25-31 | `_decode_mir` returns the record, and moves the cursor by the amount, that the MIR layout gives; or raises the layout's error |
| `Decoder.DecodePrr` | crud.py:34-40 | `_decode_prr` agrees with the PRR layout, in record, cursor and error |
| `Decoder.ReadPtrNumbers` | crud.py:48-51 | the three rounded words and the pass/fail byte of a PTR record, 13 bytes, or truncated |
| `Decoder.DecodePtr` | crud.py:43-52 | `_decode_ptr` agrees with the PTR layout, in record, cursor and error; the name is checked before the numbers are read |
| `Decoder.DecodeRecord` | crud.py:16-21 | the dispatch on a known tag agrees with the layout of that kind |
| `Decoder.DecodeBinary` | crud.py:6-22 | the cursor loop of `decode_binary` computes `Decode`: the same records in the same order, or the same error |
| `Encoder.PackInt32` | crud.py:64 | packing succeeds exactly for int32 values, with four bytes that decode back |
| `Encoder.PackByte` | crud.py:65 | packing a byte succeeds exactly for 0..255, and writes that byte |
| `Encoder.PackText` | crud.py:62 | a string field packs exactly when it is ASCII, always into 20 bytes |
| `Encoder.EncodeRecord` | crud.py:58-71 | an encoded record takes its kind's fixed size and starts with its stored header, verbatim |
| `Encoder.Encode` | crud.py:55-72 | the encoding of a list takes the records' fixed sizes added up and starts with the first record's stored header |
| `Encoder.EncodeAppend` | crud.py:55-72 | encoding a concatenation is the concatenation of the encodings; the first error wins |
| `Encoder.EncodeOk` | crud.py:57-71 | a list encodes exactly when each record does, into the sum of their fixed sizes |
| `Encoder.AppendRecord` | crud.py:58-71 | one loop turn appends the record's encoding, or fails with its first failing field |
| `Encoder.EncodeBinary` | crud.py:55-72 | the appending loop of `encode_binary` computes `Encode` |
| `Encoder.EncodeExtends` | crud.py:57-71 | encoding one more record extends the bytes by that record's encoding |
| `Encoder.EncodeFailsAt` | crud.py:57-71 | the first record that cannot be encoded decides the error of the whole list |
| `RoundTrip.DecodeStopsShort` | crud.py:10-13 | fewer than four bytes decode to the empty list |
| `RoundTrip.DecodeHeaderCases` | crud.py:15-21 | a non-ASCII tag fails however many records came before; an unknown ASCII tag is skipped on four bytes |
| `RoundTrip.DecodeTruncated` | crud.py:29-51 | a short PRR payload, or a short PTR payload with an ASCII name, fails as truncated whatever its number bytes are; a MIR fails only when its temperature is short |
| `RoundTrip.PtrCutInNumbers` | crud.py:47-51 | a PTR record with an ASCII name, cut short inside its numbers by the bytes of 1.2f (`9A 99 99 3F`), fails as truncated |
| `RoundTrip.MirAt` | crud.py:25-31 | a MIR record decodes with the rounded temperature and the cleaned, tolerantly decoded operator, and decoding goes on after it |
| `RoundTrip.PrrAt` | crud.py:34-40 | a PRR record decodes with its int32 part number and its pass/fail byte, and decoding goes on after it |
| `RoundTrip.PtrAt` | crud.py:43-52 | a PTR record with an ASCII name decodes with its cleaned name and rounded words, and decoding goes on after it |
| `RoundTrip.MirShortOperator` | crud.py:30 | a MIR operator slot cut short by the end of the buffer still gives a record |
| `RoundTrip.MirOperatorTolerant` | crud.py:30 | non-ASCII operator bytes do not make decoding fail; an operator slot starting with such a byte gives an operator starting with U+FFFD |
| `RoundTrip.PtrNameStrict` | crud.py:47 | a non-ASCII PTR name fails decoding |
| `RoundTrip.RecordRoundTrip` | crud.py:58-71 | a well-formed record encodes to its fixed size and decodes back to itself, with decoding going on right after it |
| `RoundTrip.ListRoundTrip` | crud.py:55-72 | a list of well-formed records encodes, and decoding the bytes gives the list back |
| `RoundTrip.EncodeDecodeEncode` | crud.py:55-72 | encoding the decoding of encoded well-formed records gives the same bytes |
| `RoundTrip.SpaceBeforePaddingIsLost` | crud.py:30 | an operator slot `A`, space then NULs decodes to `"A"`, which re-encodes to different bytes: decode then encode does not give the buffer back |
| `RoundTrip.TolerantOperatorIsNotEncodable` | crud.py:30 | an operator byte 0x80 decodes to U+FFFD, and the decoded records then cannot be encoded |
| `RoundTrip.DecodedRecordsShape` | crud.py:6-52 | decoded records are tagged by their own variant; their strings have no edge whitespace and fit a slot; their words are rounded; their integers are in the packers' ranges |
| `RoundTrip.ParsedShape` | crud.py:25-52 | the same shape, for one parsed record |
| `RoundTrip.DecodeIdempotent` | crud.py:30 | decoding the re-encoding of decoded records gives the same records, when they can be re-encoded and no decoded string ends in a NUL |
| `RoundTrip.NulBeforeSpaceIsLost` | crud.py:30 | a slot `A`, NUL, space then NULs decodes to `"A\x00"`, whose re-encoding decodes to `"A"`: decoding is not idempotent in general |
| `Session.FirstMir` | main.py:98-101 | the index of the first MIR record, or none when there is no MIR record |
| `Session.PtrIndices` | main.py:106-108 | as many positions as PTR records, all inside the list |
| `Session.PtrIndicesExact` | main.py:106-108 | the k-th position holds a PTR with k PTRs before it, and every PTR is listed at its rank |
| `Session.PtrIndexAt` | main.py:106-108 | the k-th position is a PTR of rank k |
| `Session.PtrIndexOf` | main.py:106-108 | a PTR of rank k is at the k-th position |
| `Session.PtrIndicesIncrease` | main.py:106-108 | the positions are listed in increasing order |
| `Session.PtrCountMonotone` | main.py:106-108 | a longer prefix holds at least as many PTR records |
| `Session.SameKindsSelectSame` | main.py:98-108 | lists with the same kinds in the same order have the same first MIR and PTR positions |
| `Session.PtrViews` | main.py:78-86 | one view per PTR record |
| `Session.PtrViewsAt` | main.py:78-86 | the k-th view is the name, value and code of the k-th PTR record |
| `Session.Project` | main.py:73-87 | `get_data` fails, as "MIR record not found", exactly when there is no MIR record; otherwise it answers one entry per PTR record |
| `Session.ProjectSpec` | main.py:73-87 | `get_data` fails exactly when there is no MIR; otherwise it shows the first MIR's temperature and the PTR views in order |
| `Session.SetResult` | main.py:111-116 | a PTR record takes the new value and code and keeps its header, name and limits |
| `Session.Patched` | main.py:105-116 | patching keeps the number of records |
| `Session.PatchedShape` | main.py:105 | patching keeps kinds and headers, sets only the chosen MIR's temperature, and leaves other MIR and all PRR records alone |
| `Session.Update` | main.py:98-116 | the update fails as "MIR record not found" exactly without a MIR, can otherwise fail only with the index error, and keeps the number of records |
| `Session.PatchedStep` | main.py:110-116 | one turn of the PTR loop changes exactly the PTR of that rank |
| `Session.UpdateErrors` | main.py:102-116 | the update fails as "MIR record not found" exactly without a MIR; it fails with an index error exactly when there are fewer test results than PTR records |
| `Session.UpdateShape` | main.py:98-105 | an update keeps the records' number, order, kinds and headers; it sets the first MIR's temperature and keeps its operator; it leaves later MIRs and every PRR unchanged |
| `Session.UpdateSetsResults` | main.py:106-116 | the k-th PTR gets the k-th result's value and code and keeps its header, name and limits |
| `Session.UpdateIgnoresNamesAndSurplus` | main.py:110-116 | test results beyond the PTR count, and all test names, do not affect the update |
| `Session.ReadAfterUpdate` | main.py:73-116 | after an update the read view shows the new temperature and, per PTR, its own name with the new value and code |
| `Session.UpdateRecords` | main.py:98-116 | the in-place update of `update_data` computes `Update`. Without a MIR nothing is changed. On an index error the earlier PTRs are already patched |
| `Session.UpdateBytes` | main.py:96-118 | a failed decoding is the update's error; a new buffer exists only when decoding and the update both succeed |
| `Session.UpdateBuffer` | main.py:96-118 | decode, update and re-encode compose as `UpdateBytes` |
| `Session.UpdateBytesNoMir` | main.py:102-103 | without a MIR record no new buffer is produced |
| `Session.UpdatedWellFormed` | main.py:105-118 | an updated decoded record re-encodes losslessly, given a rounded new value and no trailing NUL in its string |
| `Session.UpdateThenDecode` | main.py:96-119 | after a successful update the new buffer decodes to exactly the updated records, given decoded strings without a trailing NUL and rounded values for the results actually used |
| `Session.UpdateFailsOnTolerantOperator` | main.py:96-118 | an update of a buffer with a non-ASCII MIR operator byte fails, whatever the data, although the buffer decodes |

## Left out

- Web plumbing is not modelled: the FastAPI routes, the session
  middleware, cookie signing, the base64 session blob, the upload and the
  download. The "No data found in session" answer goes with them.
- The class definitions in schemas.py are not modelled. They appear only as
  the shape of the update input: a temperature and a list of (name, value,
  pass/fail).
- Float32 numerics are not modelled. A float field is the 4-byte word
  `struct.pack("<f")` writes. The decoder's `round(…, 2)` is the `round`
  parameter, so no law depends on a particular rounding. The laws that
  need rounding to be stable assume it is idempotent or has the relevant
  fixed points.
- The float-to-float32 conversion of update values is not modelled.
  Update values are taken as the float32 words they are written as. So the
  `OverflowError` that `struct.pack("<f")` raises for a Python float beyond
  the float32 range is outside the model. In the source it aborts an update
  before the session is written.
- The dictionaries of the source are datatype values. A record's `type`
  is its variant, so a record whose `type` disagrees with its fields cannot
  be built. The encoder's branch for an unknown `type`, which writes the
  header alone, is unreachable for decoded records and is not modelled.
- The update's in-place mutation of the records is modelled on an array
  (`Session.UpdateRecords`). The decoder's record dictionaries being shared
  between the decoded list and the update is not modelled.
- `Decoder.DecodeBinary` does not model the cursor position after an
  exception. Python discards that state anyway.
- `Session.UpdateBuffer` does not store the new buffer. Its result is the
  value `update_data` writes back to the session.
