// GIF size sniffing: get_gif_size_from_bytes in kvdroid/util/image.py.
// Layout from the GIF89a specification: the Header (section 17, "GIF"
// followed by the version "87a" or "89a") and the Logical Screen Descriptor
// (section 18), which begins with the logical screen width and height as
// unsigned 16-bit little-endian integers.

module Gif {
  import opened ByteReader

  /** "GIF87a" */
  const Gif87a: seq<byte> := [0x47, 0x49, 0x46, 0x38, 0x37, 0x61]

  /** "GIF89a" */
  const Gif89a: seq<byte> := [0x47, 0x49, 0x46, 0x38, 0x39, 0x61]

  /** The size get_gif_size_from_bytes reports for `b`. */
  function GifSize(b: seq<byte>): (r: Probe)
    ensures r != Raises
    ensures r.Found? ==> (StartsWith(b, Gif87a) || StartsWith(b, Gif89a)) && 10 <= |b|
  {
    if !(StartsWith(b, Gif87a) || StartsWith(b, Gif89a)) then NotFound
    else if |b| < 10 then NotFound
    else Found(U16LE(b, 6), U16LE(b, 8))
  }

  /** Header and the first two fields of the Logical Screen Descriptor. */
  function Header(version: seq<byte>, width: nat, height: nat): (s: seq<byte>)
    requires version == Gif87a || version == Gif89a
    requires width < 0x1_0000 && height < 0x1_0000
    ensures |s| == 10
  {
    version + LE16(width) + LE16(height)
  }

  /** A size written into the screen descriptor is the size read back,
      for both versions. */
  lemma HeaderRoundTrip(version: seq<byte>, width: nat, height: nat, rest: seq<byte>)
    requires version == Gif87a || version == Gif89a
    requires width < 0x1_0000 && height < 0x1_0000
    ensures GifSize(Header(version, width, height) + rest) == Found(width, height)
  {
    var b := Header(version, width, height) + rest;
    assert b[..6] == version;
    assert b[6..8] == LE16(width);
    assert b[8..10] == LE16(height);
    ReadLE16(b, 6, width);
    ReadLE16(b, 8, height);
  }

  /** Exactly the buffers with either signature, ten bytes and the size
      written at bytes 6..10 report that size. */
  lemma FoundIff(b: seq<byte>, width: nat, height: nat)
    requires width < 0x1_0000 && height < 0x1_0000
    ensures GifSize(b) == Found(width, height) <==>
            && 10 <= |b| && (b[..6] == Gif87a || b[..6] == Gif89a)
            && b[6..8] == LE16(width) && b[8..10] == LE16(height)
  {
    if GifSize(b) == Found(width, height) {
      WriteLE16(b, 6);
      WriteLE16(b, 8);
    }
    if 10 <= |b| && (b[..6] == Gif87a || b[..6] == Gif89a) && b[6..8] == LE16(width) && b[8..10] == LE16(height) {
      ReadLE16(b, 6, width);
      ReadLE16(b, 8, height);
    }
  }
}
