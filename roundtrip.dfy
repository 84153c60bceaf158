/** Laws relating `decode_binary` and `encode_binary`: fixed record sizes,
    tag-driven dispatch, the decoder's stopping and failure conditions, the
    round trip on well-formed records, and how far decoding is idempotent. */
module RoundTrip {
  import opened Wire
  import opened Text
  import opened Records
  import opened Decoder
  import opened Encoder

  /** A string a slot carries unchanged through encode and decode. */
  predicate GoodText(s: string) {
    IsAsciiString(s) && |s| <= SLOT_WIDTH && Trimmed(s)
  }

  /** A record that encodes and decodes back to itself: its header's tag
      names its variant, its strings are `GoodText`, its integers are in the
      packers' ranges and its float words are not moved by the rounding. */
  predicate WellFormed(r: Record, round: Rounding) {
    && Tagged(r)
    && match r
       case MIR(_, temperature, operator) =>
         round(temperature) == temperature && GoodText(operator)
       case PRR(_, partNumber, passFail) =>
         IsInt32(partNumber) && 0 <= passFail < 256
       case PTR(_, testName, testValue, lowLimit, highLimit, passFail) =>
         && GoodText(testName)
         && round(testValue) == testValue && round(lowLimit) == lowLimit && round(highLimit) == highLimit
         && 0 <= passFail < 256
  }

  // ---------------------------------------------------------------------
  // Stopping, dispatch and failure conditions of the decoder

  /** Decoding stops without error when fewer than four bytes remain. */
  lemma DecodeStopsShort(buf: seq<byte>, round: Rounding)
    requires |buf| < 4
    ensures Decode(buf, round) == Ok([])
  {
  }

  /** A header whose first three bytes are not all ASCII fails decoding,
      whatever came before it; one that is ASCII but no known tag is
      skipped on its own four bytes. */
  lemma DecodeHeaderCases(prefix: seq<Record>, buf: seq<byte>, round: Rounding)
    requires |buf| >= 4
    ensures !IsAsciiBytes(buf[..3]) ==> Prepend(prefix, Decode(buf, round)) == Err(NonAsciiTag)
    ensures IsAsciiBytes(buf[..3]) && KindOfTag(buf[..3]).None? ==> Decode(buf, round) == Decode(buf[4..], round)
  {
    assert buf[..4][..3] == buf[..3];
  }

  /** A PRR or PTR record cut short fails; a MIR record fails only when
      its temperature is cut short. */
  lemma DecodeTruncated(buf: seq<byte>, round: Rounding)
    requires |buf| >= 4
    ensures buf[..3] == PRR_TAG && |buf| < Size(PrrKind) ==> Decode(buf, round) == Err(Truncated)
    ensures buf[..3] == PTR_TAG && IsAsciiBytes(buf[4..Min(|buf|, 4 + SLOT_WIDTH)]) && |buf| < Size(PtrKind) ==>
      Decode(buf, round) == Err(Truncated)
    ensures buf[..3] == MIR_TAG && |buf| < 8 ==> Decode(buf, round) == Err(Truncated)
  {
    var rest := buf[4..];
    assert rest[..Min(|rest|, SLOT_WIDTH)] == buf[4..Min(|buf|, 4 + SLOT_WIDTH)];
  }

  /** A PTR record cut short inside its numbers fails as truncated, even
      when the float bytes are outside ASCII: only the name is decoded as
      text. */
  lemma PtrCutInNumbers(round: Rounding)
    ensures Decode(PTR_TAG + [0] + Zeros(20) + [0x9A, 0x99, 0x99, 0x3F], round) == Err(Truncated)
  {
    var buf := PTR_TAG + [0] + Zeros(20) + [0x9A, 0x99, 0x99, 0x3F];
    assert buf[..3] == PTR_TAG;
    assert buf[4..Min(|buf|, 4 + SLOT_WIDTH)] == Zeros(20);
    DecodeTruncated(buf, round);
  }

  /** A MIR record in front of `tail`: its operator slot is the 20 bytes
      after the temperature, or what is left of the buffer. */
  lemma MirAt(h: Header, w: Word, slot: seq<byte>, tail: seq<byte>, round: Rounding)
    requires h[..3] == MIR_TAG && |slot| <= SLOT_WIDTH && (|slot| == SLOT_WIDTH || tail == [])
    ensures Decode(h + w + slot + tail, round) ==
      Prepend([MIR(h, round(w), Clean(DecodeReplace(slot)))], Decode(tail, round))
  {
    var payload := w + slot;
    var rest := payload + tail;
    assert rest[..4] == w;
    assert rest[4..Min(|rest|, 4 + SLOT_WIDTH)] == slot;
    DecodeRecordAt(h, MirKind, payload, tail, round);
    assert h + w + slot + tail == h + payload + tail;
  }

  /** A PRR record in front of `tail`. */
  lemma PrrAt(h: Header, part: Word, passFail: byte, tail: seq<byte>, round: Rounding)
    requires h[..3] == PRR_TAG
    ensures Decode(h + part + [passFail] + tail, round) ==
      Prepend([PRR(h, DecodeInt32(part), passFail)], Decode(tail, round))
  {
    var payload := part + [passFail];
    var rest := payload + tail;
    assert rest[..4] == part && rest[4] == passFail;
    DecodeRecordAt(h, PrrKind, payload, tail, round);
    assert h + part + [passFail] + tail == h + payload + tail;
  }

  /** Where the fields of a PTR record sit once it is laid out in front
      of `tail`: name slot at 0, the three words at 20, 24 and 28, the
      pass/fail byte at 32. */
  lemma PtrOffsets(h: Header, slot: seq<byte>, value: Word, low: Word, high: Word, passFail: byte,
                   tail: seq<byte>)
    requires |slot| == SLOT_WIDTH
    ensures var payload := slot + value + low + high + [passFail];
      var rest := payload + tail;
      && |payload| == Size(PtrKind) - 4
      && rest[..Min(|rest|, SLOT_WIDTH)] == slot
      && rest[20..24] == value && rest[24..28] == low && rest[28..32] == high
      && rest[32] == passFail
      && h + slot + value + low + high + [passFail] + tail == h + payload + tail
  {
  }

  /** A PTR record with an ASCII name slot in front of `tail`. */
  lemma PtrAt(h: Header, slot: seq<byte>, value: Word, low: Word, high: Word, passFail: byte,
              tail: seq<byte>, round: Rounding)
    requires h[..3] == PTR_TAG && |slot| == SLOT_WIDTH && IsAsciiBytes(slot)
    ensures Decode(h + slot + value + low + high + [passFail] + tail, round) ==
      Prepend([PTR(h, Clean(DecodeStrict(slot).value), round(value), round(low), round(high), passFail)],
              Decode(tail, round))
  {
    PtrOffsets(h, slot, value, low, high, passFail, tail);
    DecodeRecordAt(h, PtrKind, slot + value + low + high + [passFail], tail, round);
  }

  /** A MIR record whose operator slot is cut short by the end of the
      buffer is still produced, with the shorter operator. */
  lemma MirShortOperator(h: Header, w: Word, slot: seq<byte>, round: Rounding)
    requires h[..3] == MIR_TAG && |slot| <= SLOT_WIDTH
    ensures Decode(h + w + slot, round) == Ok([MIR(h, round(w), Clean(DecodeReplace(slot)))])
  {
    var m := MIR(h, round(w), Clean(DecodeReplace(slot)));
    MirAt(h, w, slot, [], round);
    assert h + w + slot + [] == h + w + slot;
    assert Decode([], round) == Ok([]) && [m] + [] == [m];
  }

  /** A MIR operator slot never makes decoding fail: bytes outside ASCII
      become the replacement character, which cleaning keeps, so a slot
      starting with such a byte gives an operator starting with it. */
  lemma MirOperatorTolerant(h: Header, w: Word, slot: seq<byte>, tail: seq<byte>, round: Rounding)
    requires h[..3] == MIR_TAG && |slot| == SLOT_WIDTH
    ensures Decode(h + w + slot + tail, round) == Prepend([MIR(h, round(w), Clean(DecodeReplace(slot)))], Decode(tail, round))
    ensures slot[0] >= 0x80 ==>
      var op := Clean(DecodeReplace(slot)); |op| > 0 && op[0] == REPLACEMENT_CHARACTER
  {
    MirAt(h, w, slot, tail, round);
    if slot[0] >= 0x80 {
      CleanKeepsLeadingReplacement(DecodeReplace(slot));
    }
  }

  /** A PTR test name with a byte outside ASCII fails decoding. */
  lemma PtrNameStrict(h: Header, name: seq<byte>, tail: seq<byte>, round: Rounding)
    requires h[..3] == PTR_TAG && |name| == SLOT_WIDTH && !IsAsciiBytes(name)
    ensures Decode(h + name + tail, round) == Err(NonAsciiTestName)
  {
    var rest := name + tail;
    assert rest[..Min(|rest|, SLOT_WIDTH)] == name;
    DecodeFailsAt(h, PtrKind, rest, round);
    assert h + name + tail == h + rest;
  }

  // ---------------------------------------------------------------------
  // Round trip

  /** Tag-driven dispatch: a well-formed record encodes to its fixed size
      and decodes back to itself, with the cursor landing exactly at the
      start of whatever follows. */
  lemma RecordRoundTrip(r: Record, tail: seq<byte>, round: Rounding)
    requires WellFormed(r, round)
    ensures EncodeRecord(r).Ok?
    ensures |EncodeRecord(r).value| == Size(KindOf(r))
    ensures Decode(EncodeRecord(r).value + tail, round) == Prepend([r], Decode(tail, round))
  {
    var h := r.header;
    match r
    case MIR(_, temperature, operator) =>
      SlotRecovers(operator);
      var slot := EncodeSlot(operator).value;
      MirAt(h, temperature, slot, tail, round);
    case PRR(_, partNumber, passFail) =>
      var part := EncodeInt32(partNumber);
      PrrAt(h, part, passFail, tail, round);
    case PTR(_, testName, testValue, lowLimit, highLimit, passFail) =>
      SlotRecovers(testName);
      var slot := EncodeSlot(testName).value;
      PtrAt(h, slot, testValue, lowLimit, highLimit, passFail, tail, round);
  }

  /** Round trip: a list of well-formed records encodes, and decoding the
      bytes gives the list back. */
  lemma {:induction false} ListRoundTrip(rs: seq<Record>, round: Rounding)
    requires forall i | 0 <= i < |rs| :: WellFormed(rs[i], round)
    ensures Encode(rs).Ok?
    ensures Decode(Encode(rs).value, round) == Ok(rs)
  {
    if rs == [] {
    } else {
      ListRoundTrip(rs[1..], round);
      var tail := Encode(rs[1..]).value;
      RecordRoundTrip(rs[0], tail, round);
      assert [rs[0]] + rs[1..] == rs;
    }
  }

  /** Encoding after a decode of encoded well-formed records gives the
      same bytes back. */
  lemma EncodeDecodeEncode(rs: seq<Record>, round: Rounding)
    requires forall i | 0 <= i < |rs| :: WellFormed(rs[i], round)
    ensures Encode(rs).Ok? && Decode(Encode(rs).value, round).Ok?
    ensures Encode(Decode(Encode(rs).value, round).value) == Encode(rs)
  {
    ListRoundTrip(rs, round);
  }

  /** Bytes do not in general survive a decode and a re-encode: an
      operator slot holding "A", a space and NUL padding decodes to "A",
      which is written back without the space. */
  lemma SpaceBeforePaddingIsLost(round: Rounding)
    ensures
      var h: Header := MIR_TAG + [0];
      var w: Word := [0, 0, 0, 0];
      var buf := h + w + ([0x41, 0x20] + Zeros(18));
      var first := Decode(buf, round);
      && first == Ok([MIR(h, round(w), ['A'])])
      && Encode(first.value) == Ok(h + round(w) + ([0x41] + Zeros(19)))
      && Encode(first.value).value != buf
  {
    var h: Header := MIR_TAG + [0];
    var w: Word := [0, 0, 0, 0];
    var slot: seq<byte> := [0x41, 0x20] + Zeros(18);
    CleansSpaceToA(slot);
    MirShortOperator(h, w, slot, round);
    var rec := MIR(h, round(w), ['A']);
    var slot2: seq<byte> := [0x41] + Zeros(19);
    SlotOfA();
    ReEncodesMir(rec, slot2);
    var buf := h + w + slot;
    var out := h + round(w) + slot2;
    assert buf[9] == 0x20 && out[9] == 0;
  }

  /** Nor can every decoded buffer be written back: a byte outside ASCII
      in a MIR operator slot decodes to the replacement character, which
      the strict ASCII encoder refuses. */
  lemma TolerantOperatorIsNotEncodable(round: Rounding)
    ensures
      var h: Header := MIR_TAG + [0];
      var w: Word := [0, 0, 0, 0];
      var first := Decode(h + w + ([0x80] + Zeros(19)), round);
      && first == Ok([MIR(h, round(w), [REPLACEMENT_CHARACTER])])
      && Encode(first.value) == Err(NonAsciiText)
  {
    var h: Header := MIR_TAG + [0];
    var w: Word := [0, 0, 0, 0];
    var slot: seq<byte> := [0x80] + Zeros(19);
    CleansToReplacement(slot);
    MirShortOperator(h, w, slot, round);
    var rec := MIR(h, round(w), [REPLACEMENT_CHARACTER]);
    assert !IsAsciiString(rec.operator);
    assert EncodeRecord(rec) == Err(NonAsciiText);
  }

  /** The space before the padding goes with `strip()`. */
  lemma CleansSpaceToA(slot: seq<byte>)
    requires slot == [0x41, 0x20] + Zeros(18)
    ensures Clean(DecodeReplace(slot)) == ['A']
  {
    assert DecodeReplace(slot) == ['A', ' '] + Nuls(18);
    RStripNulPadded(['A', ' '], 18);
    assert RStripNul(['A', ' ']) == ['A', ' '];
    assert RStripSpace(['A', ' ']) == ['A'] by {
      assert ['A', ' '][..1] == ['A'];
    }
    assert LStripSpace(['A']) == ['A'];
  }

  /** A lone byte outside ASCII, then padding, cleans to the replacement
      character. */
  lemma CleansToReplacement(slot: seq<byte>)
    requires slot == [0x80] + Zeros(19)
    ensures Clean(DecodeReplace(slot)) == [REPLACEMENT_CHARACTER]
  {
    assert DecodeReplace(slot) == [REPLACEMENT_CHARACTER] + Nuls(19);
    RStripNulPadded([REPLACEMENT_CHARACTER], 19);
    assert RStripNul([REPLACEMENT_CHARACTER]) == [REPLACEMENT_CHARACTER];
    assert RStripSpace([REPLACEMENT_CHARACTER]) == [REPLACEMENT_CHARACTER];
    assert LStripSpace([REPLACEMENT_CHARACTER]) == [REPLACEMENT_CHARACTER];
  }

  /** "A" is written as "A" and nineteen NUL bytes. */
  lemma SlotOfA()
    ensures EncodeSlot(['A']) == Some([0x41] + Zeros(19))
  {
    assert IsAsciiString(['A']);
    assert EncodeAscii(['A']).value == [0x41];
  }

  /** A single MIR record is written as its header, its temperature and
      its operator slot. */
  lemma ReEncodesMir(rec: Record, slot: seq<byte>)
    requires rec.MIR? && EncodeSlot(rec.operator) == Some(slot)
    ensures Encode([rec]) == Ok(rec.header + rec.temperature + slot)
  {
    var enc := EncodeRecord(rec).value;
    assert [rec][1..] == [];
    assert enc + [] == enc;
  }

  // ---------------------------------------------------------------------
  // Idempotence of decoding

  /** Rounding a rounded value again changes nothing. */
  ghost predicate Idempotent(round: Rounding) {
    forall w: Word :: round(round(w)) == round(w)
  }

  /** What every record the decoder produces looks like. */
  predicate DecodedShape(r: Record, round: Rounding) {
    && Tagged(r)
    && match r
       case MIR(_, temperature, operator) =>
         round(temperature) == temperature && |operator| <= SLOT_WIDTH && NoEdgeSpace(operator)
       case PRR(_, partNumber, passFail) =>
         IsInt32(partNumber) && 0 <= passFail < 256
       case PTR(_, testName, testValue, lowLimit, highLimit, passFail) =>
         && IsAsciiString(testName) && |testName| <= SLOT_WIDTH && NoEdgeSpace(testName)
         && round(testValue) == testValue && round(lowLimit) == lowLimit && round(highLimit) == highLimit
         && 0 <= passFail < 256
  }

  /** Every decoded record has `DecodedShape`, given an idempotent rounding. */
  lemma {:induction false} DecodedRecordsShape(buf: seq<byte>, round: Rounding)
    requires Idempotent(round) && Decode(buf, round).Ok?
    ensures forall i | 0 <= i < |Decode(buf, round).value| :: DecodedShape(Decode(buf, round).value[i], round)
    decreases |buf|
  {
    if |buf| >= 4 {
      var h: Header := buf[..4];
      var rest := buf[4..];
      match KindOfTag(h[..3])
      case None => DecodedRecordsShape(rest, round);
      case Some(k) =>
        var parsed := ParseRecord(k, rest, h, round).value;
        DecodedRecordsShape(rest[parsed.1..], round);
        assert buf[4 + parsed.1..] == rest[parsed.1..];
        ParsedShape(k, rest, h, round);
    }
  }

  lemma ParsedShape(k: Kind, rest: seq<byte>, h: Header, round: Rounding)
    requires Idempotent(round) && h[..3] == TagOf(k) && ParseRecord(k, rest, h, round).Ok?
    ensures DecodedShape(ParseRecord(k, rest, h, round).value.0, round)
  {
    match k
    case MirKind =>
      CleanHasNoEdgeSpace(DecodeReplace(rest[4..Min(|rest|, 4 + SLOT_WIDTH)]));
    case PrrKind =>
    case PtrKind =>
      var slot := rest[..Min(|rest|, SLOT_WIDTH)];
      CleanKeepsAscii(DecodeStrict(slot).value);
      CleanHasNoEdgeSpace(DecodeStrict(slot).value);
  }

  /** Decoding is idempotent on the buffers whose records re-encode and
      whose strings do not end in a NUL: decoding the re-encoded records
      gives the same records. */
  lemma DecodeIdempotent(buf: seq<byte>, round: Rounding)
    requires Idempotent(round)
    requires Decode(buf, round).Ok? && Encode(Decode(buf, round).value).Ok?
    requires forall i | 0 <= i < |Decode(buf, round).value| :: NoTrailingNul(Decode(buf, round).value[i])
    ensures Decode(Encode(Decode(buf, round).value).value, round) == Decode(buf, round)
  {
    var rs := Decode(buf, round).value;
    DecodedRecordsShape(buf, round);
    EncodeOk(rs);
    forall i | 0 <= i < |rs|
      ensures WellFormed(rs[i], round)
    {
      assert DecodedShape(rs[i], round) && NoTrailingNul(rs[i]) && EncodeRecord(rs[i]).Ok?;
    }
    ListRoundTrip(rs, round);
  }

  /** The record's string field does not end in a NUL. */
  predicate NoTrailingNul(r: Record) {
    match r
    case MIR(_, _, operator) => operator == [] || operator[|operator| - 1] != NUL
    case PRR(_, _, _) => true
    case PTR(_, testName, _, _, _, _) => testName == [] || testName[|testName| - 1] != NUL
  }

  /** Without that condition decoding is not idempotent: an operator slot
      `A`, NUL, space, then NUL padding decodes to "A" followed by a NUL;
      that string re-encodes with NUL padding and then decodes to "A". */
  lemma NulBeforeSpaceIsLost(round: Rounding)
    ensures
      var h: Header := MIR_TAG + [0];
      var slot: seq<byte> := [0x41, 0, 0x20] + Zeros(17);
      var first := Decode(h + [0, 0, 0, 0] + slot, round);
      && first == Ok([MIR(h, round([0, 0, 0, 0]), ['A', NUL])])
      && Encode(first.value).Ok?
      && Decode(Encode(first.value).value, round).Ok?
      && Decode(Encode(first.value).value, round).value[0].operator == ['A']
  {
    var h: Header := MIR_TAG + [0];
    var w: Word := [0, 0, 0, 0];
    var slot: seq<byte> := [0x41, 0, 0x20] + Zeros(17);
    var op: string := ['A', NUL];
    CleansToANul(slot);
    MirShortOperator(h, w, slot, round);
    var rec := MIR(h, round(w), op);
    var slot2 := [0x41, 0] + Zeros(18);
    SlotOfANul();
    ReEncodesMir(rec, slot2);
    CleansToA(slot2);
    MirShortOperator(h, round(w), slot2, round);
  }

  /** The first decoding of the counterexample slot keeps the NUL. */
  lemma CleansToANul(slot: seq<byte>)
    requires slot == [0x41, 0, 0x20] + Zeros(17)
    ensures Clean(DecodeReplace(slot)) == ['A', NUL]
  {
    assert DecodeReplace(slot) == ['A', NUL, ' '] + Nuls(17);
    RStripNulPadded(['A', NUL, ' '], 17);
    assert RStripNul(['A', NUL, ' ']) == ['A', NUL, ' '];
    assert RStripSpace(['A', NUL, ' ']) == ['A', NUL] by {
      assert ['A', NUL, ' '][..2] == ['A', NUL];
    }
    assert LStripSpace(['A', NUL]) == ['A', NUL];
  }

  /** The second decoding strips the NUL with the padding. */
  lemma CleansToA(slot: seq<byte>)
    requires slot == [0x41, 0] + Zeros(18)
    ensures Clean(DecodeReplace(slot)) == ['A']
  {
    assert DecodeReplace(slot) == ['A', NUL] + Nuls(18);
    RStripNulPadded(['A', NUL], 18);
    assert RStripNul(['A', NUL]) == ['A'] by {
      assert ['A', NUL][..1] == ['A'];
    }
    assert Strip(['A']) == ['A'];
  }

  /** The operator "A", NUL is written as "A" and nineteen NUL bytes. */
  lemma SlotOfANul()
    ensures EncodeSlot(['A', NUL]) == Some([0x41, 0] + Zeros(18))
  {
    assert IsAsciiString(['A', NUL]);
    assert EncodeAscii(['A', NUL]).value == [0x41, 0];
  }
}
