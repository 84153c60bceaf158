/** Bytes, four-byte words and the little-endian signed 32-bit layout the
    record codec reads with `struct.unpack("<i", …)` and writes with
    `struct.pack("<i", …)`. */
module Wire {

  /** A byte as Python's `bytes` hands it out: an int in 0..255. */
  type byte = b: int | 0 <= b < 256

  /** A four-byte field. A float32 field is identified with the four bytes
      `struct.pack("<f", …)` writes for it; the float arithmetic itself is
      not part of this model. */
  type Word = s: seq<byte> | |s| == 4 witness [0, 0, 0, 0]

  datatype Option<+T> = None | Some(value: T)

  const TWO_31: int := 0x8000_0000
  const TWO_32: int := 0x1_0000_0000

  /** The range `struct.pack("<i", n)` accepts. */
  predicate IsInt32(n: int) {
    -TWO_31 <= n < TWO_31
  }

  /** Unsigned little-endian value of a word. */
  function LeValue(w: Word): (u: nat)
    ensures u < TWO_32
  {
    var b0, b1, b2, b3: int := w[0], w[1], w[2], w[3];
    b0 + 0x100 * (b1 + 0x100 * (b2 + 0x100 * b3))
  }

  /** `struct.unpack("<i", w)[0]`: the word read as two's complement. */
  function DecodeInt32(w: Word): (n: int)
    ensures IsInt32(n)
    ensures n >= 0 <==> w[3] < 0x80
  {
    var u := LeValue(w);
    if u < TWO_31 then u else u - TWO_32
  }

  /** `struct.pack("<i", n)` for an `n` the packer accepts. */
  function EncodeInt32(n: int): (w: Word)
    requires IsInt32(n)
    ensures DecodeInt32(w) == n
  {
    var u := if n < 0 then n + TWO_32 else n;
    var b0, r0 := u % 0x100, u / 0x100;
    var b1, r1 := r0 % 0x100, r0 / 0x100;
    var b2, b3 := r1 % 0x100, r1 / 0x100;
    assert u == b0 + 0x100 * (b1 + 0x100 * (b2 + 0x100 * b3));
    [b0, b1, b2, b3]
  }

  /** Every four bytes survive a read as int32 followed by a write. */
  lemma Int32WordRoundTrip(w: Word)
    ensures EncodeInt32(DecodeInt32(w)) == w
  {
    var n := DecodeInt32(w);
    var v := EncodeInt32(n);
    var u := if n < 0 then n + TWO_32 else n;
    assert u == LeValue(w);
    LeValueInjective(v, w);
  }

  lemma LeValueInjective(v: Word, w: Word)
    requires LeValue(v) == LeValue(w)
    ensures v == w
  {
    var v0, v1, v2, v3: int := v[0], v[1], v[2], v[3];
    var w0, w1, w2, w3: int := w[0], w[1], w[2], w[3];
    DigitUnique(v0, v1 + 0x100 * (v2 + 0x100 * v3), w0, w1 + 0x100 * (w2 + 0x100 * w3));
    DigitUnique(v1, v2 + 0x100 * v3, w1, w2 + 0x100 * w3);
    DigitUnique(v2, v3, w2, w3);
  }

  /** Base-256 digits are unique. */
  lemma DigitUnique(a: int, ra: nat, b: int, rb: nat)
    requires 0 <= a < 0x100 && 0 <= b < 0x100
    requires a + 0x100 * ra == b + 0x100 * rb
    ensures a == b && ra == rb
  {
  }
}
