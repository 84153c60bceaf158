/** The three record kinds of the log format, the errors the codec can
    raise, and the record sizes shared by the decoder and the encoder. */
module Records {
  import opened Wire
  import opened Text

  /** The raw first four bytes of a record: three ASCII tag bytes and one
      byte the format does not use. */
  type Header = h: seq<byte> | |h| == 4 witness [0, 0, 0, 0]

  /** The ASCII tags `MIR`, `PRR` and `PTR`. */
  const MIR_TAG: seq<byte> := [0x4D, 0x49, 0x52]
  const PRR_TAG: seq<byte> := [0x50, 0x52, 0x52]
  const PTR_TAG: seq<byte> := [0x50, 0x54, 0x52]

  datatype Kind = MirKind | PrrKind | PtrKind

  /** A decoded record. The variant is the record's `type`; float32 fields
      are the words `struct.pack("<f", …)` writes for them; `passFail` and
      `partNumber` are Python ints, range-checked only when encoding. */
  datatype Record =
    | MIR(header: Header, temperature: Word, operator: string)
    | PRR(header: Header, partNumber: int, passFail: int)
    | PTR(header: Header, testName: string, testValue: Word, lowLimit: Word, highLimit: Word, passFail: int)

  /** What the codec raises, as values. */
  datatype Error =
    | NonAsciiTag        // UnicodeDecodeError on the first three header bytes
    | Truncated          // struct.error: a numeric field read short
    | NonAsciiTestName   // UnicodeDecodeError on a PTR test name
    | NonAsciiText       // UnicodeEncodeError on a string field
    | Int32OutOfRange    // struct.error packing a part number
    | ByteOutOfRange     // struct.error packing a pass/fail code
    | MirNotFound        // the "MIR record not found" answer of the web layer
    | TestResultIndex    // IndexError: fewer test results than PTR records

  datatype Result<+T> = Ok(value: T) | Err(error: Error)

  /** `round(struct.unpack("<f", w)[0], 2)` followed by `struct.pack("<f", …)`:
      the float rounding is supplied by the caller. */
  type Rounding = Word -> Word

  function KindOf(r: Record): Kind {
    match r
    case MIR(_, _, _) => MirKind
    case PRR(_, _, _) => PrrKind
    case PTR(_, _, _, _, _, _) => PtrKind
  }

  function TagOf(k: Kind): seq<byte> {
    match k
    case MirKind => MIR_TAG
    case PrrKind => PRR_TAG
    case PtrKind => PTR_TAG
  }

  /** Dispatch on the first three header bytes. */
  function KindOfTag(tag: seq<byte>): (k: Option<Kind>)
    ensures k.Some? ==> TagOf(k.value) == tag
    ensures k.None? ==> tag != MIR_TAG && tag != PRR_TAG && tag != PTR_TAG
  {
    if tag == MIR_TAG then Some(MirKind)
    else if tag == PRR_TAG then Some(PrrKind)
    else if tag == PTR_TAG then Some(PtrKind)
    else None
  }

  /** Bytes one record occupies on the wire, header included. */
  function Size(k: Kind): nat {
    match k
    case MirKind => 4 + 4 + SLOT_WIDTH
    case PrrKind => 4 + 4 + 1
    case PtrKind => 4 + SLOT_WIDTH + 4 + 4 + 4 + 1
  }

  /** The header's tag names the record's own variant. */
  predicate Tagged(r: Record) {
    r.header[..3] == TagOf(KindOf(r))
  }

  /** Put `prefix` in front of a successful result; keep an error. */
  function Prepend(prefix: seq<Record>, r: Result<seq<Record>>): Result<seq<Record>> {
    match r
    case Ok(rs) => Ok(prefix + rs)
    case Err(e) => Err(e)
  }

  lemma PrependNothing(r: Result<seq<Record>>)
    ensures Prepend([], r) == r
  {
    match r
    case Ok(rs) => assert [] + rs == rs;
    case Err(_) =>
  }

  lemma PrependTwice(a: seq<Record>, b: seq<Record>, r: Result<seq<Record>>)
    ensures Prepend(a, Prepend(b, r)) == Prepend(a + b, r)
  {
    match r
    case Ok(rs) => assert a + (b + rs) == (a + b) + rs;
    case Err(_) =>
  }
}
