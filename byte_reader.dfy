// Fixed-width integer reads and writes over a byte buffer, as done with
// Python's `struct.unpack` in kvdroid/util/image.py ('>H', '<H', '>I', '<I',
// '<i'), together with the encoders that invert them.

module ByteReader {

  /** One octet of an image buffer (a Python `bytes` element). */
  type byte = x: int | 0 <= x < 0x100

  /** What one header parser reports.
      Found(w, h) is the Python pair (w, h); NotFound is (None, None);
      Raises stands for a Python exception escaping the parser. */
  datatype Probe = Found(width: nat, height: nat) | NotFound | Raises

  /** `bytes.startswith(prefix)` */
  predicate StartsWith(b: seq<byte>, prefix: seq<byte>)
  {
    |prefix| <= |b| && b[..|prefix|] == prefix
  }

  /** struct '>H' at offset i */
  function U16BE(b: seq<byte>, i: nat): (v: nat)
    requires i + 2 <= |b|
    ensures v < 0x1_0000
  {
    b[i] as int * 0x100 + b[i + 1]
  }

  /** struct '<H' at offset i */
  function U16LE(b: seq<byte>, i: nat): (v: nat)
    requires i + 2 <= |b|
    ensures v < 0x1_0000
  {
    b[i] + b[i + 1] as int * 0x100
  }

  /** struct '>I' at offset i */
  function U32BE(b: seq<byte>, i: nat): (v: nat)
    requires i + 4 <= |b|
    ensures v < 0x1_0000_0000
  {
    U16BE(b, i) * 0x1_0000 + U16BE(b, i + 2)
  }

  /** struct '<I' at offset i */
  function U32LE(b: seq<byte>, i: nat): (v: nat)
    requires i + 4 <= |b|
    ensures v < 0x1_0000_0000
  {
    U16LE(b, i) + U16LE(b, i + 2) * 0x1_0000
  }

  /** struct '<i' at offset i: the two's-complement reading of '<I'. */
  function I32LE(b: seq<byte>, i: nat): (v: int)
    requires i + 4 <= |b|
    ensures -0x8000_0000 <= v < 0x8000_0000
    ensures v < 0 <==> b[i + 3] >= 0x80
  {
    var u := U32LE(b, i);
    if u < 0x8000_0000 then u else u - 0x1_0000_0000
  }

  /** Python's `abs` on an integer. */
  function Abs(x: int): (r: nat)
    ensures r == x || r == -x
  {
    if x < 0 then -x else x
  }

  // Encoders: the byte strings a writer of each header field produces.

  function BE16(x: nat): (s: seq<byte>)
    requires x < 0x1_0000
    ensures |s| == 2
  {
    [x / 0x100, x % 0x100]
  }

  function LE16(x: nat): (s: seq<byte>)
    requires x < 0x1_0000
    ensures |s| == 2
  {
    [x % 0x100, x / 0x100]
  }

  function BE32(x: nat): (s: seq<byte>)
    requires x < 0x1_0000_0000
    ensures |s| == 4
  {
    BE16(x / 0x1_0000) + BE16(x % 0x1_0000)
  }

  function LE32(x: nat): (s: seq<byte>)
    requires x < 0x1_0000_0000
    ensures |s| == 4
  {
    LE16(x % 0x1_0000) + LE16(x / 0x1_0000)
  }

  /** The unsigned 32-bit pattern of a signed 32-bit value. */
  function TwosComplement32(v: int): (u: nat)
    requires -0x8000_0000 <= v < 0x8000_0000
    ensures u < 0x1_0000_0000
  {
    if v < 0 then v + 0x1_0000_0000 else v
  }

  // Reading what was written gives the value back ...

  lemma ReadBE16(b: seq<byte>, i: nat, x: nat)
    requires x < 0x1_0000 && i + 2 <= |b| && b[i..i + 2] == BE16(x)
    ensures U16BE(b, i) == x
  {
    assert b[i] == b[i..i + 2][0] && b[i + 1] == b[i..i + 2][1];
  }

  lemma ReadLE16(b: seq<byte>, i: nat, x: nat)
    requires x < 0x1_0000 && i + 2 <= |b| && b[i..i + 2] == LE16(x)
    ensures U16LE(b, i) == x
  {
    assert b[i] == b[i..i + 2][0] && b[i + 1] == b[i..i + 2][1];
  }

  lemma ReadBE32(b: seq<byte>, i: nat, x: nat)
    requires x < 0x1_0000_0000 && i + 4 <= |b| && b[i..i + 4] == BE32(x)
    ensures U32BE(b, i) == x
  {
    assert b[i..i + 2] == b[i..i + 4][..2] && b[i + 2..i + 4] == b[i..i + 4][2..];
    ReadBE16(b, i, x / 0x1_0000);
    ReadBE16(b, i + 2, x % 0x1_0000);
  }

  lemma ReadLE32(b: seq<byte>, i: nat, x: nat)
    requires x < 0x1_0000_0000 && i + 4 <= |b| && b[i..i + 4] == LE32(x)
    ensures U32LE(b, i) == x
  {
    assert b[i..i + 2] == b[i..i + 4][..2] && b[i + 2..i + 4] == b[i..i + 4][2..];
    ReadLE16(b, i, x % 0x1_0000);
    ReadLE16(b, i + 2, x / 0x1_0000);
  }

  lemma ReadI32LE(b: seq<byte>, i: nat, v: int)
    requires -0x8000_0000 <= v < 0x8000_0000
    requires i + 4 <= |b| && b[i..i + 4] == LE32(TwosComplement32(v))
    ensures I32LE(b, i) == v
  {
    ReadLE32(b, i, TwosComplement32(v));
  }

  // ... and a value read determines the bytes it was read from.

  lemma WriteBE16(b: seq<byte>, i: nat)
    requires i + 2 <= |b|
    ensures BE16(U16BE(b, i)) == b[i..i + 2]
  {
  }

  lemma WriteBE32(b: seq<byte>, i: nat)
    requires i + 4 <= |b|
    ensures BE32(U32BE(b, i)) == b[i..i + 4]
  {
    var v := U32BE(b, i);
    assert v / 0x1_0000 == U16BE(b, i) && v % 0x1_0000 == U16BE(b, i + 2);
    WriteBE16(b, i);
    WriteBE16(b, i + 2);
  }

  lemma WriteLE16(b: seq<byte>, i: nat)
    requires i + 2 <= |b|
    ensures LE16(U16LE(b, i)) == b[i..i + 2]
  {
  }
}
