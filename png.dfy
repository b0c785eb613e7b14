// PNG size sniffing: get_png_size_from_bytes in kvdroid/util/image.py.
// Layout from the W3C PNG specification: the 8-byte signature (section 5.2)
// and the IHDR chunk that must come first (section 11.2.2), whose data
// begins with the width and the height as 4-byte big-endian integers.

module Png {
  import opened ByteReader

  /** 89 'P' 'N' 'G' CR LF SUB LF */
  const Signature: seq<byte> := [0x89, 0x50, 0x4E, 0x47, 0x0D, 0x0A, 0x1A, 0x0A]

  /** The chunk type "IHDR". */
  const Ihdr: seq<byte> := [0x49, 0x48, 0x44, 0x52]

  /** The size get_png_size_from_bytes reports for `b`. */
  function PngSize(b: seq<byte>): (r: Probe)
    ensures r != Raises
    ensures r.Found? ==> StartsWith(b, Signature) && 29 <= |b|
  {
    if !StartsWith(b, Signature) then NotFound
    else if |b| < 8 + 4 + 4 + 13 then NotFound
    else if b[12..16] != Ihdr then NotFound
    else Found(U32BE(b, 16), U32BE(b, 20))
  }

  /** The start of a PNG stream: signature, then the IHDR chunk (length 13,
      type, width, height, and the five remaining one-byte fields). */
  function Header(width: nat, height: nat, fields: seq<byte>): (s: seq<byte>)
    requires width < 0x1_0000_0000 && height < 0x1_0000_0000 && |fields| == 5
    ensures |s| == 29
  {
    Signature + BE32(13) + Ihdr + BE32(width) + BE32(height) + fields
  }

  /** A size written into IHDR is the size read back. */
  lemma HeaderRoundTrip(width: nat, height: nat, fields: seq<byte>, rest: seq<byte>)
    requires width < 0x1_0000_0000 && height < 0x1_0000_0000 && |fields| == 5
    ensures PngSize(Header(width, height, fields) + rest) == Found(width, height)
  {
    var b := Header(width, height, fields) + rest;
    assert b[..8] == Signature;
    assert b[12..16] == Ihdr;
    assert b[16..20] == BE32(width);
    assert b[20..24] == BE32(height);
    ReadBE32(b, 16, width);
    ReadBE32(b, 20, height);
  }

  /** Exactly the buffers with the signature, 29 bytes, IHDR in place and
      the size written at bytes 16..24 report that size. */
  lemma FoundIff(b: seq<byte>, width: nat, height: nat)
    requires width < 0x1_0000_0000 && height < 0x1_0000_0000
    ensures PngSize(b) == Found(width, height) <==>
            && 29 <= |b| && b[..8] == Signature && b[12..16] == Ihdr
            && b[16..20] == BE32(width) && b[20..24] == BE32(height)
  {
    if PngSize(b) == Found(width, height) {
      WriteBE32(b, 16);
      WriteBE32(b, 20);
    }
    if 29 <= |b| && b[..8] == Signature && b[12..16] == Ihdr && b[16..20] == BE32(width) && b[20..24] == BE32(height) {
      ReadBE32(b, 16, width);
      ReadBE32(b, 20, height);
    }
  }
}
