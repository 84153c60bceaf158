/** The 20-byte ASCII string slots of the record layouts: Python's ASCII
    codec in its strict and "replace" modes, the NUL padding the encoder
    applies and the trimming the decoder applies. */
module Text {
  import opened Wire

  const NUL: char := '\0'
  /** What `bytes.decode("ascii", errors="replace")` puts for a byte >= 0x80. */
  const REPLACEMENT_CHARACTER: char := '\U{FFFD}'
  /** Width of every string slot in the wire format. */
  const SLOT_WIDTH: nat := 20

  predicate IsAsciiBytes(bs: seq<byte>) {
    forall i | 0 <= i < |bs| :: bs[i] < 0x80
  }

  predicate IsAsciiString(s: string) {
    forall i | 0 <= i < |s| :: s[i] as int < 0x80
  }

  /** Python's `str.isspace`, which is what `str.strip()` removes. */
  predicate IsSpace(c: char) {
    var n := c as int;
    || 0x09 <= n <= 0x0D
    || 0x1C <= n <= 0x20
    || n == 0x85 || n == 0xA0 || n == 0x1680
    || 0x2000 <= n <= 0x200A
    || n == 0x2028 || n == 0x2029 || n == 0x202F || n == 0x205F || n == 0x3000
  }

  /** `bs.decode("ascii")`: None where Python raises UnicodeDecodeError. */
  function DecodeStrict(bs: seq<byte>): (r: Option<string>)
    ensures r.Some? <==> IsAsciiBytes(bs)
  {
    if IsAsciiBytes(bs) then Some(seq(|bs|, i requires 0 <= i < |bs| => bs[i] as char)) else None
  }

  /** `bs.decode("ascii", errors="replace")`: one character per byte, and
      exactly the bytes outside ASCII become the replacement character. */
  function DecodeReplace(bs: seq<byte>): (r: string)
    ensures |r| == |bs|
    ensures forall i | 0 <= i < |bs| :: bs[i] >= 0x80 <==> r[i] == REPLACEMENT_CHARACTER
  {
    seq(|bs|, i requires 0 <= i < |bs| => if bs[i] < 0x80 then bs[i] as char else REPLACEMENT_CHARACTER)
  }

  /** `s.encode("ascii")`: None where Python raises UnicodeEncodeError. */
  function EncodeAscii(s: string): (r: Option<seq<byte>>)
    ensures r.Some? <==> IsAsciiString(s)
  {
    if IsAsciiString(s) then Some(seq(|s|, i requires 0 <= i < |s| && s[i] as int < 0x80 => s[i] as int as byte))
    else None
  }

  function Zeros(n: nat): seq<byte> {
    seq(n, _ => 0)
  }

  /** `bs.ljust(20, b"\x00")[:20]`: 20 bytes, the first of `bs` and then
      zeros. */
  function Slot(bs: seq<byte>): (r: seq<byte>)
    ensures |r| == SLOT_WIDTH
    ensures forall i | 0 <= i < SLOT_WIDTH :: r[i] == if i < |bs| then bs[i] else 0
  {
    if |bs| >= SLOT_WIDTH then bs[..SLOT_WIDTH] else bs + Zeros(SLOT_WIDTH - |bs|)
  }

  /** `s.rstrip("\x00")`. */
  function RStripNul(s: string): (r: string)
    ensures r <= s
    ensures r == [] || r[|r| - 1] != NUL
  {
    if |s| > 0 && s[|s| - 1] == NUL then RStripNul(s[..|s| - 1]) else s
  }

  /** The right half of `s.strip()`. */
  function RStripSpace(s: string): (r: string)
    ensures r <= s
    ensures r == [] || !IsSpace(r[|r| - 1])
  {
    if |s| > 0 && IsSpace(s[|s| - 1]) then RStripSpace(s[..|s| - 1]) else s
  }

  /** The left half of `s.strip()`. */
  function LStripSpace(s: string): (r: string)
    ensures |r| <= |s|
    ensures r == [] || !IsSpace(r[0])
  {
    if |s| > 0 && IsSpace(s[0]) then LStripSpace(s[1..]) else s
  }

  /** Neither end of the string is whitespace. */
  predicate NoEdgeSpace(s: string) {
    s == [] || (!IsSpace(s[0]) && !IsSpace(s[|s| - 1]))
  }

  /** `s.strip()`: no longer than `s`, with no whitespace at either end. */
  function Strip(s: string): (r: string)
    ensures |r| <= |s|
    ensures NoEdgeSpace(r)
  {
    var t := RStripSpace(s);
    LStripSpaceRemovesSpaces(t);
    LStripSpace(t)
  }

  /** `s.rstrip("\x00").strip()`, applied to every decoded string slot. */
  function Clean(s: string): (r: string)
    ensures |r| <= |s|
  {
    Strip(RStripNul(s))
  }

  /** A cleaned slot string has no whitespace at either end. */
  lemma CleanHasNoEdgeSpace(s: string)
    ensures NoEdgeSpace(Clean(s))
  {
  }

  /** A leading replacement character is neither NUL nor whitespace, so
      cleaning keeps it in front. */
  lemma CleanKeepsLeadingReplacement(s: string)
    requires |s| > 0 && s[0] == REPLACEMENT_CHARACTER
    ensures |Clean(s)| > 0 && Clean(s)[0] == REPLACEMENT_CHARACTER
  {
    var r := RStripNul(s);
    RStripNulRemovesNuls(s);
    assert |r| > 0;
    var t := RStripSpace(r);
    RStripSpaceRemovesSpaces(r);
    assert |t| > 0 && t[0] == REPLACEMENT_CHARACTER;
    assert LStripSpace(t) == t;
  }

  /** Cleaning only removes characters from the ends, so ASCII text stays
      ASCII. */
  lemma CleanKeepsAscii(s: string)
    requires IsAsciiString(s)
    ensures IsAsciiString(Clean(s))
  {
    var t := RStripSpace(RStripNul(s));
    assert t <= s;
    LStripSpaceRemovesSpaces(t);
    var c := Clean(s);
    assert forall i | 0 <= i < |c| :: c[i] == t[|t| - |c| + i] == s[|t| - |c| + i];
  }

  /** The strings a slot gives back unchanged: no whitespace at either end
      and no NUL at the end. */
  predicate Trimmed(s: string) {
    NoEdgeSpace(s) && (s == [] || s[|s| - 1] != NUL)
  }

  /** The slot a string field is written as: `s.encode("ascii").ljust(20, b"\x00")[:20]`;
      there is one exactly for ASCII text. */
  function EncodeSlot(s: string): (r: Option<seq<byte>>)
    ensures r.Some? <==> IsAsciiString(s)
    ensures r.Some? ==> |r.value| == SLOT_WIDTH
  {
    match EncodeAscii(s)
    case None => None
    case Some(bs) => Some(Slot(bs))
  }

  function Nuls(n: nat): string {
    seq(n, _ => NUL)
  }

  // ---------------------------------------------------------------------
  // Laws of the string slots

  /** Padding law: a string slot is exactly 20 bytes, holding the first 20
      characters of the string and NUL bytes after them; it fails exactly
      on non-ASCII text. */
  lemma SlotLaw(s: string)
    ensures EncodeSlot(s).Some? <==> IsAsciiString(s)
    ensures EncodeSlot(s).Some? ==>
      var slot := EncodeSlot(s).value;
      && |slot| == SLOT_WIDTH
      && (forall i | 0 <= i < |s| && i < SLOT_WIDTH :: slot[i] == s[i] as int)
      && (forall i | |s| <= i < SLOT_WIDTH :: slot[i] == 0)
  {
  }

  /** Reading back ASCII bytes written for an ASCII string gives the string. */
  lemma AsciiRoundTrip(s: string)
    requires IsAsciiString(s)
    ensures DecodeStrict(EncodeAscii(s).value) == Some(s)
    ensures DecodeReplace(EncodeAscii(s).value) == s
  {
    var bs := EncodeAscii(s).value;
    assert IsAsciiBytes(bs);
    assert DecodeStrict(bs).value == s;
  }

  /** On ASCII bytes the tolerant and the strict decoding agree. */
  lemma ReplaceAgreesOnAscii(bs: seq<byte>)
    requires IsAsciiBytes(bs)
    ensures DecodeReplace(bs) == DecodeStrict(bs).value
  {
  }

  lemma {:induction false} RStripNulPadded(s: string, n: nat)
    ensures RStripNul(s + Nuls(n)) == RStripNul(s)
    decreases n
  {
    if n > 0 {
      var t := s + Nuls(n);
      assert t[|t| - 1] == NUL;
      assert t[..|t| - 1] == s + Nuls(n - 1);
      RStripNulPadded(s, n - 1);
    } else {
      assert s + Nuls(0) == s;
    }
  }

  /** `rstrip("\x00")` removes NUL characters only. */
  lemma {:induction false} RStripNulRemovesNuls(s: string)
    ensures forall i | |RStripNul(s)| <= i < |s| :: s[i] == NUL
  {
    if |s| > 0 && s[|s| - 1] == NUL {
      var t := s[..|s| - 1];
      RStripNulRemovesNuls(t);
      assert forall i | |RStripNul(t)| <= i < |t| :: s[i] == t[i];
    }
  }

  /** `rstrip()` removes whitespace only. */
  lemma {:induction false} RStripSpaceRemovesSpaces(s: string)
    ensures forall i | |RStripSpace(s)| <= i < |s| :: IsSpace(s[i])
  {
    if |s| > 0 && IsSpace(s[|s| - 1]) {
      var t := s[..|s| - 1];
      RStripSpaceRemovesSpaces(t);
      assert forall i | |RStripSpace(t)| <= i < |t| :: s[i] == t[i];
    }
  }

  /** `lstrip()` removes leading whitespace only: what it returns is a
      suffix of its argument, and everything before it is whitespace. */
  lemma {:induction false} LStripSpaceRemovesSpaces(s: string)
    ensures LStripSpace(s) == s[|s| - |LStripSpace(s)|..]
    ensures forall i | 0 <= i < |s| - |LStripSpace(s)| :: IsSpace(s[i])
  {
    if |s| > 0 && IsSpace(s[0]) {
      var t := s[1..];
      LStripSpaceRemovesSpaces(t);
      assert t[|t| - |LStripSpace(t)|..] == s[|s| - |LStripSpace(s)|..];
      assert forall i | 1 <= i < |s| - |LStripSpace(s)| :: s[i] == t[i - 1];
    }
  }

  /** `Strip` leaves a string alone exactly when it has no whitespace at
      either end. */
  lemma StripFixed(s: string)
    ensures Strip(s) == s <==> NoEdgeSpace(s)
  {
    var r := RStripSpace(s);
    if s != [] && IsSpace(s[|s| - 1]) {
      assert |r| < |s|;
    } else if s != [] && IsSpace(s[0]) {
      assert r == s;
      assert |LStripSpace(r)| < |r|;
    } else if s != [] {
      assert r == s;
    }
  }

  /** String slot law for decoding: the slot written for a string of at
      most 20 ASCII characters reads back as that string exactly when the
      string is `Trimmed`. */
  lemma {:induction false} SlotRecovers(s: string)
    requires IsAsciiString(s) && |s| <= SLOT_WIDTH
    ensures EncodeSlot(s).Some?
    ensures IsAsciiBytes(EncodeSlot(s).value)
    ensures Clean(DecodeStrict(EncodeSlot(s).value).value) == s <==> Trimmed(s)
    ensures DecodeReplace(EncodeSlot(s).value) == DecodeStrict(EncodeSlot(s).value).value
  {
    var bs := EncodeAscii(s).value;
    var slot := EncodeSlot(s).value;
    var n := SLOT_WIDTH - |s|;
    assert slot == bs + Zeros(n);
    var text := DecodeStrict(slot).value;
    assert text == s + Nuls(n);
    RStripNulPadded(s, n);
    var u := RStripNul(s);
    StripFixed(s);
    if s != [] && s[|s| - 1] == NUL {
      assert |u| < |s|;
      assert |Clean(text)| < |s|;
    } else {
      assert u == s;
    }
  }

  /** Truncation law: a string longer than a slot keeps its first 20
      characters. */
  lemma SlotTruncates(s: string)
    requires IsAsciiString(s) && |s| > SLOT_WIDTH
    ensures EncodeSlot(s) == EncodeSlot(s[..SLOT_WIDTH])
  {
    var head := s[..SLOT_WIDTH];
    assert IsAsciiString(head);
    var bs, hs := EncodeAscii(s).value, EncodeAscii(head).value;
    assert bs[..SLOT_WIDTH] == hs;
    assert Slot(hs) == hs[..SLOT_WIDTH] == hs;
  }
}
