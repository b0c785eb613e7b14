// BMP size sniffing: get_bmp_size_from_bytes in kvdroid/util/image.py.
// A BMP file is "BM", the rest of the 14-byte file header, then a DIB
// header that starts with its own size: 40 or more for BITMAPINFOHEADER
// and its successors (signed 32-bit width and height, the height negative
// for top-down images), 12 for BITMAPCOREHEADER (unsigned 16-bit fields).

module Bmp {
  import opened ByteReader

  /** "BM" */
  const Magic: seq<byte> := [0x42, 0x4D]

  /** The size get_bmp_size_from_bytes reports for `b`. */
  function BmpSize(b: seq<byte>): (r: Probe)
    ensures r != Raises
    ensures r.Found? ==> StartsWith(b, Magic) && 26 <= |b|
  {
    if !StartsWith(b, Magic) then NotFound
    else if |b| < 26 then NotFound
    else
      var dibHeaderSize := U32LE(b, 14);
      if dibHeaderSize >= 40 then Found(Abs(I32LE(b, 18)), Abs(I32LE(b, 22)))
      else if dibHeaderSize == 12 then
        if |b| < 22 then NotFound else Found(U16LE(b, 18), U16LE(b, 20))
      else NotFound
  }

  /** Only the two DIB header families are recognised: any other size
      reports no dimensions. */
  lemma OtherHeaderSizes(b: seq<byte>)
    requires StartsWith(b, Magic) && 26 <= |b|
    ensures BmpSize(b).Found? <==> U32LE(b, 14) >= 40 || U32LE(b, 14) == 12
  {
  }

  /** "BM", the 12 other bytes of the file header, and a BITMAPINFOHEADER
      (or larger) start: size, signed width, signed height. */
  function InfoHeader(fileHeader: seq<byte>, dibHeaderSize: nat, width: int, height: int): (s: seq<byte>)
    requires |fileHeader| == 12 && 40 <= dibHeaderSize < 0x1_0000_0000
    requires -0x8000_0000 <= width < 0x8000_0000 && -0x8000_0000 <= height < 0x8000_0000
    ensures |s| == 26
  {
    Magic + fileHeader + LE32(dibHeaderSize) + LE32(TwosComplement32(width)) + LE32(TwosComplement32(height))
  }

  /** The reported size is the magnitude of the signed size written, so a
      top-down image (negative height) reports its positive height. */
  lemma InfoHeaderRoundTrip(fileHeader: seq<byte>, dibHeaderSize: nat, width: int, height: int, rest: seq<byte>)
    requires |fileHeader| == 12 && 40 <= dibHeaderSize < 0x1_0000_0000
    requires -0x8000_0000 <= width < 0x8000_0000 && -0x8000_0000 <= height < 0x8000_0000
    ensures BmpSize(InfoHeader(fileHeader, dibHeaderSize, width, height) + rest)
            == Found(Abs(width), Abs(height))
  {
    var b := InfoHeader(fileHeader, dibHeaderSize, width, height) + rest;
    assert b[..2] == Magic;
    assert b[14..18] == LE32(dibHeaderSize);
    assert b[18..22] == LE32(TwosComplement32(width));
    assert b[22..26] == LE32(TwosComplement32(height));
    ReadLE32(b, 14, dibHeaderSize);
    ReadI32LE(b, 18, width);
    ReadI32LE(b, 22, height);
  }

  /** "BM", the file header, and a 12-byte BITMAPCOREHEADER: size 12,
      width, height, then planes and bit count. */
  function CoreHeader(fileHeader: seq<byte>, width: nat, height: nat, planesAndBits: seq<byte>): (s: seq<byte>)
    requires |fileHeader| == 12 && |planesAndBits| == 4
    requires width < 0x1_0000 && height < 0x1_0000
    ensures |s| == 26
  {
    Magic + fileHeader + LE32(12) + LE16(width) + LE16(height) + planesAndBits
  }

  lemma CoreHeaderRoundTrip(fileHeader: seq<byte>, width: nat, height: nat, planesAndBits: seq<byte>, rest: seq<byte>)
    requires |fileHeader| == 12 && |planesAndBits| == 4
    requires width < 0x1_0000 && height < 0x1_0000
    ensures BmpSize(CoreHeader(fileHeader, width, height, planesAndBits) + rest) == Found(width, height)
  {
    var b := CoreHeader(fileHeader, width, height, planesAndBits) + rest;
    assert b[..2] == Magic;
    assert b[14..18] == LE32(12);
    assert b[18..20] == LE16(width);
    assert b[20..22] == LE16(height);
    ReadLE32(b, 14, 12);
    ReadLE16(b, 18, width);
    ReadLE16(b, 20, height);
  }
}
