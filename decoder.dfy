/** The decoder of `crud.py`: `decode_binary` walks a buffer with a read
    cursor, dispatching on each header's tag to `_decode_mir`,
    `_decode_prr` or `_decode_ptr`. The pure functions below say what a
    call computes; the methods do it the way the source does, through a
    cursor object, and are proved equal to them. */
module Decoder {
  import opened Wire
  import opened Text
  import opened Records

  function Min(a: int, b: int): int {
    if a <= b then a else b
  }

  // ---------------------------------------------------------------------
  // Specification: the payload layouts, on the bytes after a header.
  // Each returns the record and the number of payload bytes consumed.

  /** `_decode_mir`: float32 temperature, then a 20-byte operator slot
      decoded with replacement; a short operator slot is accepted. */
  function ParseMir(rest: seq<byte>, h: Header, round: Rounding): (r: Result<(Record, nat)>)
    ensures r.Ok? <==> |rest| >= 4
    ensures r.Err? ==> r.error == Truncated
    ensures r.Ok? ==> r.value.0.MIR? && r.value.1 == Min(|rest|, 4 + SLOT_WIDTH)
    ensures r.Ok? ==> |r.value.0.operator| <= SLOT_WIDTH && NoEdgeSpace(r.value.0.operator)
  {
    if |rest| < 4 then Err(Truncated)
    else
      var slot := rest[4..Min(|rest|, 4 + SLOT_WIDTH)];
      Ok((MIR(h, round(rest[..4]), Clean(DecodeReplace(slot))), 4 + |slot|))
  }

  /** `_decode_prr`: little-endian int32 part number, then one byte. */
  function ParsePrr(rest: seq<byte>, h: Header): (r: Result<(Record, nat)>)
    ensures r.Ok? <==> |rest| >= 5
    ensures r.Err? ==> r.error == Truncated
    ensures r.Ok? ==> r.value.0.PRR? && r.value.1 == 5 && IsInt32(r.value.0.partNumber)
  {
    if |rest| < 5 then Err(Truncated)
    else Ok((PRR(h, DecodeInt32(rest[..4]), rest[4]), 5))
  }

  /** `_decode_ptr`: a 20-byte strict-ASCII name slot, three float32
      words, one byte. The name is decoded before the numbers are read. */
  function ParsePtr(rest: seq<byte>, h: Header, round: Rounding): (r: Result<(Record, nat)>)
    ensures r.Ok? <==> IsAsciiBytes(rest[..Min(|rest|, SLOT_WIDTH)]) && |rest| >= 33
    ensures r.Err? ==> (r.error == NonAsciiTestName <==> !IsAsciiBytes(rest[..Min(|rest|, SLOT_WIDTH)]))
    ensures r.Err? ==> r.error in {NonAsciiTestName, Truncated}
    ensures r.Ok? ==> r.value.0.PTR? && r.value.1 == 33 && |r.value.0.testName| <= SLOT_WIDTH
  {
    var slot := rest[..Min(|rest|, SLOT_WIDTH)];
    if !IsAsciiBytes(slot) then Err(NonAsciiTestName)
    else if |rest| < 33 then Err(Truncated)
    else Ok((PTR(h, Clean(DecodeStrict(slot).value), round(rest[20..24]), round(rest[24..28]),
                 round(rest[28..32]), rest[32]), 33))
  }

  function ParseRecord(k: Kind, rest: seq<byte>, h: Header, round: Rounding): (r: Result<(Record, nat)>)
    ensures r.Ok? ==> r.value.1 <= |rest| && r.value.0.header == h && KindOf(r.value.0) == k
    ensures r.Ok? && |rest| >= Size(k) - 4 ==> r.value.1 == Size(k) - 4
  {
    match k
    case MirKind => ParseMir(rest, h, round)
    case PrrKind => ParsePrr(rest, h)
    case PtrKind => ParsePtr(rest, h, round)
  }

  /** `decode_binary`: records are read until fewer than four bytes
      remain; a header whose first three bytes are ASCII but no known tag
      is skipped on its own, without its payload. Every record produced
      carries its exact four header bytes, whose tag names its variant. */
  function Decode(buf: seq<byte>, round: Rounding): (r: Result<seq<Record>>)
    ensures r.Ok? ==> forall i | 0 <= i < |r.value| :: Tagged(r.value[i])
    decreases |buf|
  {
    if |buf| < 4 then Ok([])
    else if !IsAsciiBytes(buf[..3]) then Err(NonAsciiTag)
    else
      match KindOfTag(buf[..3])
      case None => Decode(buf[4..], round)
      case Some(k) =>
        match ParseRecord(k, buf[4..], buf[..4], round)
        case Err(e) => Err(e)
        case Ok((rec, n)) => Prepend([rec], Decode(buf[4 + n..], round))
  }

  /** One recognised record at the front of a buffer: decoding produces it
      and carries on right after its payload. */
  lemma DecodeRecordAt(h: Header, k: Kind, payload: seq<byte>, tail: seq<byte>, round: Rounding)
    requires h[..3] == TagOf(k)
    requires ParseRecord(k, payload + tail, h, round).Ok?
    requires ParseRecord(k, payload + tail, h, round).value.1 == |payload|
    ensures Decode(h + payload + tail, round) == Prepend([ParseRecord(k, payload + tail, h, round).value.0], Decode(tail, round))
  {
    var buf := h + payload + tail;
    assert buf[..3] == h[..3];
    assert IsAsciiBytes(TagOf(k));
    assert KindOfTag(buf[..3]) == Some(k);
    assert buf[..4] == h;
    assert buf[4..] == payload + tail;
    assert buf[4 + |payload|..] == tail;
  }

  /** A recognised header whose payload cannot be parsed: decoding fails
      with the layout's error, whatever follows. */
  lemma DecodeFailsAt(h: Header, k: Kind, rest: seq<byte>, round: Rounding)
    requires h[..3] == TagOf(k)
    requires ParseRecord(k, rest, h, round).Err?
    ensures Decode(h + rest, round) == Err(ParseRecord(k, rest, h, round).error)
  {
    var buf := h + rest;
    assert buf[..3] == h[..3];
    assert IsAsciiBytes(TagOf(k));
    assert KindOfTag(buf[..3]) == Some(k);
    assert buf[..4] == h;
    assert buf[4..] == rest;
  }

  // ---------------------------------------------------------------------
  // Implementation: the cursor and the decoding loop.

  /** The `io.BytesIO` the decoder reads from: fixed content and a cursor. */
  class ByteReader {
    const data: seq<byte>
    var pos: nat

    ghost predicate Valid()
      reads this
    {
      pos <= |data|
    }

    /** The bytes not read yet. */
    function Remaining(): seq<byte>
      reads this
      requires Valid()
    {
      data[pos..]
    }

    constructor (content: seq<byte>)
      ensures Valid() && data == content && pos == 0
    {
      data := content;
      pos := 0;
    }

    /** `read(n)`: up to `n` bytes, fewer at the end of the data. */
    method Read(n: nat) returns (chunk: seq<byte>)
      requires Valid()
      modifies this
      ensures Valid()
      ensures pos == Min(old(pos) + n, |data|)
      ensures chunk == data[old(pos)..pos]
    {
      var end := if pos + n <= |data| then pos + n else |data|;
      chunk := data[pos..end];
      pos := end;
    }
  }

  /** A decoding helper did what its layout function says: on success it
      returned the record and moved the cursor past exactly the bytes the
      layout consumed; on failure it raised the layout's error. */
  ghost predicate Parsed(spec: Result<(Record, nat)>, r: Result<Record>, before: nat, after: nat) {
    match spec
    case Ok((rec, n)) => r == Ok(rec) && after == before + n
    case Err(e) => r == Err(e)
  }

  /** `round(struct.unpack("<f", file.read(4))[0], 2)`. */
  method ReadFloat(file: ByteReader, round: Rounding) returns (r: Result<Word>)
    requires file.Valid()
    modifies file
    ensures file.Valid()
    ensures old(file.pos) + 4 <= |file.data| ==>
      r == Ok(round(file.data[old(file.pos)..old(file.pos) + 4])) && file.pos == old(file.pos) + 4
    ensures old(file.pos) + 4 > |file.data| ==> r == Err(Truncated)
  {
    var bytes := file.Read(4);
    if |bytes| < 4 {
      return Err(Truncated);
    }
    r := Ok(round(bytes));
  }

  /** `struct.unpack("B", file.read(1))[0]`. */
  method ReadByte(file: ByteReader) returns (r: Result<byte>)
    requires file.Valid()
    modifies file
    ensures file.Valid()
    ensures old(file.pos) < |file.data| ==> r == Ok(file.data[old(file.pos)]) && file.pos == old(file.pos) + 1
    ensures old(file.pos) >= |file.data| ==> r == Err(Truncated)
  {
    var bytes := file.Read(1);
    if |bytes| < 1 {
      return Err(Truncated);
    }
    r := Ok(bytes[0]);
  }

  /** `_decode_mir`. */
  method DecodeMir(file: ByteReader, header: Header, round: Rounding) returns (r: Result<Record>)
    requires file.Valid()
    modifies file
    ensures file.Valid()
    ensures Parsed(ParseMir(old(file.Remaining()), header, round), r, old(file.pos), file.pos)
  {
    ghost var rest := file.Remaining();
    var temperature := ReadFloat(file, round);
    if temperature.Err? {
      return Err(temperature.error);
    }
    assert rest[..4] == file.data[old(file.pos)..old(file.pos) + 4];
    var operator := file.Read(SLOT_WIDTH);
    assert operator == rest[4..Min(|rest|, 4 + SLOT_WIDTH)];
    r := Ok(MIR(header, temperature.value, Clean(DecodeReplace(operator))));
  }

  /** `_decode_prr`. */
  method DecodePrr(file: ByteReader, header: Header) returns (r: Result<Record>)
    requires file.Valid()
    modifies file
    ensures file.Valid()
    ensures Parsed(ParsePrr(old(file.Remaining()), header), r, old(file.pos), file.pos)
  {
    ghost var rest := file.Remaining();
    var partNumber := file.Read(4);
    if |partNumber| < 4 {
      return Err(Truncated);
    }
    var passFail := ReadByte(file);
    if passFail.Err? {
      return Err(passFail.error);
    }
    assert partNumber == rest[..4] && passFail.value == rest[4];
    r := Ok(PRR(header, DecodeInt32(partNumber), passFail.value));
  }

  /** The numeric fields of `_decode_ptr`: three float32 words read and
      rounded one after the other, then the pass/fail byte. */
  method ReadPtrNumbers(file: ByteReader, round: Rounding) returns (r: Result<(Word, Word, Word, byte)>)
    requires file.Valid()
    modifies file
    ensures file.Valid()
    ensures old(file.pos) + 13 <= |file.data| ==>
      var d, p := file.data, old(file.pos);
      && r == Ok((round(d[p..p + 4]), round(d[p + 4..p + 8]), round(d[p + 8..p + 12]), d[p + 12]))
      && file.pos == p + 13
    ensures old(file.pos) + 13 > |file.data| ==> r == Err(Truncated)
  {
    var value := ReadFloat(file, round);
    if value.Err? {
      return Err(value.error);
    }
    var low := ReadFloat(file, round);
    if low.Err? {
      return Err(low.error);
    }
    var high := ReadFloat(file, round);
    if high.Err? {
      return Err(high.error);
    }
    var passFail := ReadByte(file);
    if passFail.Err? {
      return Err(passFail.error);
    }
    r := Ok((value.value, low.value, high.value, passFail.value));
  }

  /** `_decode_ptr`. */
  method DecodePtr(file: ByteReader, header: Header, round: Rounding) returns (r: Result<Record>)
    requires file.Valid()
    modifies file
    ensures file.Valid()
    ensures Parsed(ParsePtr(old(file.Remaining()), header, round), r, old(file.pos), file.pos)
  {
    ghost var rest := file.Remaining();
    ghost var start := file.pos;
    var name := file.Read(SLOT_WIDTH);
    assert name == rest[..Min(|rest|, SLOT_WIDTH)];
    if !IsAsciiBytes(name) {
      return Err(NonAsciiTestName);
    }
    var testName := Clean(DecodeStrict(name).value);
    var numbers := ReadPtrNumbers(file, round);
    if numbers.Err? {
      return Err(numbers.error);
    }
    var (value, low, high, passFail) := numbers.value;
    assert rest[20..24] == file.data[start + 20..start + 24];
    assert rest[24..28] == file.data[start + 24..start + 28];
    assert rest[28..32] == file.data[start + 28..start + 32];
    r := Ok(PTR(header, testName, value, low, high, passFail));
  }

  /** The dispatch of `decode_binary` on a recognised tag. */
  method DecodeRecord(file: ByteReader, kind: Kind, header: Header, round: Rounding) returns (r: Result<Record>)
    requires file.Valid()
    modifies file
    ensures file.Valid()
    ensures Parsed(ParseRecord(kind, old(file.Remaining()), header, round), r, old(file.pos), file.pos)
  {
    match kind {
      case MirKind => r := DecodeMir(file, header, round);
      case PrrKind => r := DecodePrr(file, header);
      case PtrKind => r := DecodePtr(file, header, round);
    }
  }

  /** `decode_binary`, proved to compute `Decode`. */
  method DecodeBinary(content: seq<byte>, round: Rounding) returns (r: Result<seq<Record>>)
    ensures r == Decode(content, round)
  {
    var file := new ByteReader(content);
    var records: seq<Record> := [];
    assert file.Remaining() == content;
    PrependNothing(Decode(content, round));
    while true
      invariant file.Valid() && file.data == content
      invariant Decode(content, round) == Prepend(records, Decode(file.Remaining(), round))
      decreases |file.Remaining()|
    {
      ghost var rest := file.Remaining();
      var headerBytes := file.Read(4);
      if |headerBytes| < 4 {
        assert Decode(rest, round) == Ok([]) && records + [] == records;
        return Ok(records);
      }
      var header: Header := headerBytes;
      assert header == rest[..4] && header[..3] == rest[..3] && file.Remaining() == rest[4..];
      if !IsAsciiBytes(header[..3]) {
        return Err(NonAsciiTag);
      }
      var kind := KindOfTag(header[..3]);
      if kind.Some? {
        ghost var spec := ParseRecord(kind.value, rest[4..], header, round);
        var record := DecodeRecord(file, kind.value, header, round);
        if record.Err? {
          assert Decode(rest, round) == Err(record.error);
          return Err(record.error);
        }
        assert Decode(rest, round) == Prepend([record.value], Decode(file.Remaining(), round)) by {
          assert file.Remaining() == rest[4 + spec.value.1..];
        }
        PrependTwice(records, [record.value], Decode(file.Remaining(), round));
        records := records + [record.value];
      } else {
        assert Decode(rest, round) == Decode(file.Remaining(), round);
      }
    }
  }
}
