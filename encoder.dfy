/** The encoder of `crud.py`: `encode_binary` appends, for each record in
    order, its stored header and then the payload of its variant. */
module Encoder {
  import opened Wire
  import opened Text
  import opened Records

  /** `struct.pack("<i", n)`. */
  function PackInt32(n: int): (r: Result<seq<byte>>)
    ensures r.Ok? <==> IsInt32(n)
    ensures r.Ok? ==> |r.value| == 4 && DecodeInt32(r.value) == n
  {
    if IsInt32(n) then Ok(EncodeInt32(n)) else Err(Int32OutOfRange)
  }

  /** `struct.pack("B", n)`. */
  function PackByte(n: int): (r: Result<seq<byte>>)
    ensures r.Ok? <==> 0 <= n < 256
    ensures r.Ok? ==> r.value == [n]
  {
    if 0 <= n < 256 then Ok([n]) else Err(ByteOutOfRange)
  }

  /** A string field: `s.encode("ascii").ljust(20, b"\x00")[:20]`. */
  function PackText(s: string): (r: Result<seq<byte>>)
    ensures r.Ok? <==> IsAsciiString(s)
    ensures r.Ok? ==> |r.value| == SLOT_WIDTH
  {
    match EncodeSlot(s)
    case None => Err(NonAsciiText)
    case Some(slot) => Ok(slot)
  }

  /** One record: header verbatim, then the payload of the record's own
      variant, whatever the header's tag says. The bytes take exactly the
      record's fixed size, and the first failing field decides the error. */
  function EncodeRecord(r: Record): (b: Result<seq<byte>>)
    ensures b.Ok? ==> |b.value| == Size(KindOf(r)) && b.value[..4] == r.header
  {
    match r
    case MIR(h, temperature, operator) =>
      (match PackText(operator)
       case Err(e) => Err(e)
       case Ok(slot) => Ok(h + temperature + slot))
    case PRR(h, partNumber, passFail) =>
      (match PackInt32(partNumber)
       case Err(e) => Err(e)
       case Ok(part) =>
         match PackByte(passFail)
         case Err(e) => Err(e)
         case Ok(code) => Ok(h + part + code))
    case PTR(h, testName, testValue, lowLimit, highLimit, passFail) =>
      match PackText(testName)
      case Err(e) => Err(e)
      case Ok(slot) =>
        match PackByte(passFail)
        case Err(e) => Err(e)
        case Ok(code) => Ok(h + slot + testValue + lowLimit + highLimit + code)
  }

  /** `encode_binary`, as a specification: the records' encodings in order,
      with no separator; the first record that cannot be encoded decides
      the error. The bytes take the records' fixed sizes added up. */
  function Encode(rs: seq<Record>): (r: Result<seq<byte>>)
    ensures r.Ok? ==> |r.value| == TotalSize(rs)
    ensures r.Ok? && rs != [] ==> r.value[..4] == rs[0].header
  {
    if rs == [] then Ok([])
    else
      match EncodeRecord(rs[0])
      case Err(e) => Err(e)
      case Ok(b) =>
        match Encode(rs[1..])
        case Err(e) => Err(e)
        case Ok(tail) => Ok(b + tail)
  }

  /** Join two encodings; the first error wins. */
  function Join(a: Result<seq<byte>>, b: Result<seq<byte>>): Result<seq<byte>> {
    match a
    case Err(e) => Err(e)
    case Ok(x) =>
      match b
      case Err(e) => Err(e)
      case Ok(y) => Ok(x + y)
  }

  /** Encoding distributes over concatenation of record lists. */
  lemma {:induction false} EncodeAppend(a: seq<Record>, b: seq<Record>)
    ensures Encode(a + b) == Join(Encode(a), Encode(b))
  {
    if a == [] {
      assert a + b == b;
      match Encode(b)
      case Ok(y) => assert [] + y == y;
      case Err(_) =>
    } else {
      assert (a + b)[0] == a[0];
      assert (a + b)[1..] == a[1..] + b;
      EncodeAppend(a[1..], b);
      match EncodeRecord(a[0])
      case Err(_) =>
      case Ok(x) =>
        match Encode(a[1..])
        case Err(_) =>
        case Ok(t) =>
          match Encode(b)
          case Err(_) =>
          case Ok(y) => assert x + (t + y) == (x + t) + y;
    }
  }

  /** The encoding of a whole list succeeds exactly when every record
      encodes, and its length is the sum of the records' fixed sizes. */
  lemma {:induction false} EncodeOk(rs: seq<Record>)
    ensures Encode(rs).Ok? <==> forall i | 0 <= i < |rs| :: EncodeRecord(rs[i]).Ok?
    ensures Encode(rs).Ok? ==> |Encode(rs).value| == TotalSize(rs)
  {
    if rs != [] {
      EncodeOk(rs[1..]);
      assert forall i | 1 <= i < |rs| :: rs[i] == rs[1..][i - 1];
    }
  }

  /** The fixed sizes of the records, added up. */
  function TotalSize(rs: seq<Record>): nat {
    if rs == [] then 0 else Size(KindOf(rs[0])) + TotalSize(rs[1..])
  }

  /** One turn of the loop of `encode_binary`: append the record's header
      and then its fields, in the order the source packs them, failing on
      the first field that cannot be packed. */
  method AppendRecord(binary: seq<byte>, record: Record) returns (r: Result<seq<byte>>)
    ensures r == Join(Ok(binary), EncodeRecord(record))
  {
    var out := binary + record.header;
    match record {
      case MIR(_, temperature, operator) =>
        out := out + temperature;
        var slot := PackText(operator);
        if slot.Err? {
          return Err(slot.error);
        }
        out := out + slot.value;
      case PRR(_, partNumber, passFail) =>
        var part := PackInt32(partNumber);
        if part.Err? {
          return Err(part.error);
        }
        out := out + part.value;
        var code := PackByte(passFail);
        if code.Err? {
          return Err(code.error);
        }
        out := out + code.value;
      case PTR(_, testName, testValue, lowLimit, highLimit, passFail) =>
        var slot := PackText(testName);
        if slot.Err? {
          return Err(slot.error);
        }
        out := out + slot.value;
        out := out + testValue;
        out := out + lowLimit;
        out := out + highLimit;
        var code := PackByte(passFail);
        if code.Err? {
          return Err(code.error);
        }
        out := out + code.value;
    }
    assert out == binary + EncodeRecord(record).value;
    r := Ok(out);
  }

  /** `encode_binary`, proved to compute `Encode`. */
  method EncodeBinary(records: seq<Record>) returns (r: Result<seq<byte>>)
    ensures r == Encode(records)
  {
    var binary: seq<byte> := [];
    for i := 0 to |records|
      invariant Encode(records[..i]) == Ok(binary)
    {
      var next := AppendRecord(binary, records[i]);
      if next.Err? {
        EncodeFailsAt(records, i);
        return next;
      }
      EncodeExtends(records, i);
      binary := next.value;
    }
    assert records[..|records|] == records;
    r := Ok(binary);
  }

  /** The encoding of a prefix extends by the next record's encoding. */
  lemma EncodeExtends(rs: seq<Record>, i: nat)
    requires i < |rs| && Encode(rs[..i]).Ok? && EncodeRecord(rs[i]).Ok?
    ensures Encode(rs[..i + 1]) == Ok(Encode(rs[..i]).value + EncodeRecord(rs[i]).value)
  {
    assert rs[..i + 1] == rs[..i] + [rs[i]];
    EncodeAppend(rs[..i], [rs[i]]);
    assert [rs[i]][1..] == [];
    assert EncodeRecord(rs[i]).value + [] == EncodeRecord(rs[i]).value;
  }

  /** A record that cannot be encoded after a prefix that can decides the
      error of the whole list. */
  lemma EncodeFailsAt(rs: seq<Record>, i: nat)
    requires i < |rs| && Encode(rs[..i]).Ok? && EncodeRecord(rs[i]).Err?
    ensures Encode(rs) == Err(EncodeRecord(rs[i]).error)
  {
    assert rs == rs[..i] + rs[i..];
    EncodeAppend(rs[..i], rs[i..]);
    assert rs[i..][0] == rs[i];
  }
}
