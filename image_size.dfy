// The dispatcher get_image_size_from_bytes in kvdroid/util/image.py: it
// tries the five header parsers in a fixed order and returns the first
// size found.  No parser call is guarded, so an exception raised by a
// parser leaves the dispatcher too.

module ImageSize {
  import opened ByteReader
  import Jpeg
  import Png
  import Gif
  import Bmp
  import Tiff

  datatype Format = JPEG | PNG | GIF | BMP | TIFF

  /** The order in which the dispatcher tries the parsers. */
  const Parsers: seq<Format> := [JPEG, PNG, GIF, BMP, TIFF]

  /** What the parser for `f` reports. */
  function Parse(f: Format, b: seq<byte>): Probe
  {
    match f
    case JPEG => Jpeg.JpegSize(b)
    case PNG => Png.PngSize(b)
    case GIF => Gif.GifSize(b)
    case BMP => Bmp.BmpSize(b)
    case TIFF => Tiff.TiffSize(b)
  }

  /** Trying the parsers of `formats` in turn. */
  function FirstFound(formats: seq<Format>, b: seq<byte>): Probe
  {
    if formats == [] then NotFound
    else
      var r := Parse(formats[0], b);
      if r.Raises? || r.Found? then r else FirstFound(formats[1..], b)
  }

  /** The size get_image_size_from_bytes reports for `b`. */
  function ImageSize(b: seq<byte>): Probe
  {
    FirstFound(Parsers, b)
  }

  /** One call `parser(image_bytes)`. */
  method RunParser(f: Format, b: seq<byte>) returns (r: Probe)
    ensures r == Parse(f, b)
  {
    match f
    case JPEG => r := Jpeg.GetJpegSize(b);
    case PNG => r := Png.PngSize(b);
    case GIF => r := Gif.GifSize(b);
    case BMP => r := Bmp.BmpSize(b);
    case TIFF => r := Tiff.GetTiffSize(b);
  }

  /** get_image_size_from_bytes: the loop over the parser list. */
  method GetImageSize(b: seq<byte>) returns (r: Probe)
    ensures r == ImageSize(b)
  {
    var parsers := Parsers;
    for k := 0 to |parsers|
      invariant FirstFound(parsers[k..], b) == ImageSize(b)
    {
      var size := RunParser(parsers[k], b);
      if size.Raises? {
        return Raises;
      }
      if size.Found? {
        return size;
      }
      assert parsers[k..][1..] == parsers[k + 1..];
    }
    return NotFound;
  }

  /** The parser at position k is the first of `formats` that finds a size:
      all parsers before it report (None, None). */
  predicate FirstToFind(formats: seq<Format>, b: seq<byte>, k: int, w: nat, h: nat)
  {
    && 0 <= k < |formats|
    && Parse(formats[k], b) == Found(w, h)
    && forall j :: 0 <= j < k ==> Parse(formats[j], b) == NotFound
  }

  lemma {:induction false} FirstFoundIff(formats: seq<Format>, b: seq<byte>, w: nat, h: nat)
    ensures FirstFound(formats, b) == Found(w, h) <==> exists k :: FirstToFind(formats, b, k, w, h)
    decreases |formats|
  {
    if formats != [] {
      FirstFoundIff(formats[1..], b, w, h);
      var r := Parse(formats[0], b);
      if r == NotFound {
        if FirstFound(formats, b) == Found(w, h) {
          var k :| FirstToFind(formats[1..], b, k, w, h);
          assert FirstToFind(formats, b, k + 1, w, h);
        }
        if exists k :: FirstToFind(formats, b, k, w, h) {
          var k :| FirstToFind(formats, b, k, w, h);
          assert k != 0;
          assert FirstToFind(formats[1..], b, k - 1, w, h);
        }
      } else {
        if FirstFound(formats, b) == Found(w, h) {
          assert FirstToFind(formats, b, 0, w, h);
        }
        if exists k :: FirstToFind(formats, b, k, w, h) {
          var k :| FirstToFind(formats, b, k, w, h);
          assert k == 0;
        }
      }
    }
  }

  /** The dispatcher reports a size exactly when some parser finds one and
      every parser before it in the fixed order reports none. */
  lemma ImageSizeFoundIff(b: seq<byte>, w: nat, h: nat)
    ensures ImageSize(b) == Found(w, h) <==> exists k :: FirstToFind(Parsers, b, k, w, h)
  {
    FirstFoundIff(Parsers, b, w, h);
  }

  lemma {:induction false} FirstFoundNone(formats: seq<Format>, b: seq<byte>)
    ensures FirstFound(formats, b) == NotFound <==> forall k :: 0 <= k < |formats| ==> Parse(formats[k], b) == NotFound
    decreases |formats|
  {
    if formats != [] {
      FirstFoundNone(formats[1..], b);
      assert forall k :: 1 <= k < |formats| ==> formats[k] == formats[1..][k - 1];
    }
  }

  /** The dispatcher reports (None, None) exactly when all five parsers do. */
  lemma ImageSizeNoneIff(b: seq<byte>)
    ensures ImageSize(b) == NotFound <==> forall f :: f in Parsers ==> Parse(f, b) == NotFound
  {
    FirstFoundNone(Parsers, b);
  }

  /** The dispatcher written out for the fixed parser list. */
  lemma Unfold(b: seq<byte>)
    ensures ImageSize(b) ==
      if Parse(JPEG, b) != NotFound then Parse(JPEG, b)
      else if Parse(PNG, b) != NotFound then Parse(PNG, b)
      else if Parse(GIF, b) != NotFound then Parse(GIF, b)
      else if Parse(BMP, b) != NotFound then Parse(BMP, b)
      else Parse(TIFF, b)
  {
    var tail := [PNG, GIF, BMP, TIFF];
    assert Parsers[1..] == tail && tail[1..] == [GIF, BMP, TIFF];
    assert [GIF, BMP, TIFF][1..] == [BMP, TIFF] && [BMP, TIFF][1..] == [TIFF];
    assert FirstFound([TIFF], b) == Parse(TIFF, b);
    assert FirstFound([BMP, TIFF], b) ==
      if Parse(BMP, b) != NotFound then Parse(BMP, b) else Parse(TIFF, b);
    assert FirstFound([GIF, BMP, TIFF], b) ==
      if Parse(GIF, b) != NotFound then Parse(GIF, b) else FirstFound([BMP, TIFF], b);
    assert FirstFound(tail, b) ==
      if Parse(PNG, b) != NotFound then Parse(PNG, b) else FirstFound([GIF, BMP, TIFF], b);
  }

  /** The dispatcher raises exactly when the JPEG parser, which runs first,
      raises: the other parsers never do. */
  lemma ImageSizeRaisesIff(b: seq<byte>)
    ensures ImageSize(b) == Raises <==> Jpeg.JpegSize(b) == Raises
  {
    Unfold(b);
  }

  // Each format's header, written and then sniffed through the dispatcher,
  // reports the size written: the earlier parsers reject it by its first
  // byte.

  lemma JpegThroughDispatcher(width: nat, height: nat, components: seq<byte>, rest: seq<byte>)
    requires width < 0x1_0000 && height < 0x1_0000 && |components| + 8 < 0x1_0000
    ensures ImageSize(Jpeg.Soi + Jpeg.FrameHeader(width, height, components) + rest) == Found(width, height)
  {
    Jpeg.FrameHeaderRoundTrip(width, height, components, rest);
    Unfold(Jpeg.Soi + Jpeg.FrameHeader(width, height, components) + rest);
  }

  /** A JPEG whose frame header follows any run of skippable segments is
      sized through the dispatcher. */
  lemma JpegSegmentsThroughDispatcher(gs: seq<Jpeg.Seg>, width: nat, height: nat, components: seq<byte>,
                                      rest: seq<byte>)
    requires Jpeg.AllSkippable(gs)
    requires width < 0x1_0000 && height < 0x1_0000 && |components| + 8 < 0x1_0000
    ensures ImageSize(Jpeg.Soi + Jpeg.Segs(gs) + Jpeg.FrameHeader(width, height, components) + rest)
            == Found(width, height)
  {
    Jpeg.FrameAfterSegments(gs, width, height, components, rest);
    Unfold(Jpeg.Soi + Jpeg.Segs(gs) + Jpeg.FrameHeader(width, height, components) + rest);
  }

  lemma PngThroughDispatcher(width: nat, height: nat, fields: seq<byte>, rest: seq<byte>)
    requires width < 0x1_0000_0000 && height < 0x1_0000_0000 && |fields| == 5
    ensures ImageSize(Png.Header(width, height, fields) + rest) == Found(width, height)
  {
    var b := Png.Header(width, height, fields) + rest;
    assert b[0] == 0x89;
    Png.HeaderRoundTrip(width, height, fields, rest);
    Unfold(b);
  }

  lemma GifThroughDispatcher(version: seq<byte>, width: nat, height: nat, rest: seq<byte>)
    requires version == Gif.Gif87a || version == Gif.Gif89a
    requires width < 0x1_0000 && height < 0x1_0000
    ensures ImageSize(Gif.Header(version, width, height) + rest) == Found(width, height)
  {
    var b := Gif.Header(version, width, height) + rest;
    assert b[0] == 0x47;
    Gif.HeaderRoundTrip(version, width, height, rest);
    Unfold(b);
  }

  lemma BmpThroughDispatcher(fileHeader: seq<byte>, dibHeaderSize: nat, width: int, height: int, rest: seq<byte>)
    requires |fileHeader| == 12 && 40 <= dibHeaderSize < 0x1_0000_0000
    requires -0x8000_0000 <= width < 0x8000_0000 && -0x8000_0000 <= height < 0x8000_0000
    ensures ImageSize(Bmp.InfoHeader(fileHeader, dibHeaderSize, width, height) + rest)
            == Found(Abs(width), Abs(height))
  {
    var b := Bmp.InfoHeader(fileHeader, dibHeaderSize, width, height) + rest;
    assert b[0] == 0x42;
    Bmp.InfoHeaderRoundTrip(fileHeader, dibHeaderSize, width, height, rest);
    Unfold(b);
  }

  /** A BITMAPCOREHEADER is sized through the dispatcher too. */
  lemma BmpCoreThroughDispatcher(fileHeader: seq<byte>, width: nat, height: nat, planesAndBits: seq<byte>,
                                 rest: seq<byte>)
    requires |fileHeader| == 12 && |planesAndBits| == 4
    requires width < 0x1_0000 && height < 0x1_0000
    ensures ImageSize(Bmp.CoreHeader(fileHeader, width, height, planesAndBits) + rest) == Found(width, height)
  {
    var b := Bmp.CoreHeader(fileHeader, width, height, planesAndBits) + rest;
    assert b[0] == 0x42;
    Bmp.CoreHeaderRoundTrip(fileHeader, width, height, planesAndBits, rest);
    Unfold(b);
  }

  lemma TiffThroughDispatcher(order: Tiff.ByteOrder, typeCode: nat, width: nat, height: nat, rest: seq<byte>)
    requires Tiff.FitsType(typeCode, width) && Tiff.FitsType(typeCode, height)
    ensures ImageSize(Tiff.Header(order, typeCode, width, height) + rest) == Found(width, height)
  {
    var b := Tiff.Header(order, typeCode, width, height) + rest;
    assert b[0] == 0x49 || b[0] == 0x4D;
    OnlyTiffMatches(b);
    Tiff.HeaderRoundTrip(order, typeCode, width, height, rest);
  }

  /** A buffer opening with a TIFF byte-order mark is left to the TIFF parser. */
  lemma OnlyTiffMatches(b: seq<byte>)
    requires |b| > 0 && (b[0] == 0x49 || b[0] == 0x4D)
    ensures ImageSize(b) == Tiff.TiffSize(b)
  {
    Unfold(b);
  }

  // The five sample headers the module builds for its own demonstration.

  const SampleJpegApp: seq<byte> := [0xFF, 0xE0] + [0x00, 0x10] + SampleJfif
  const SampleJpegFrame: seq<byte> :=
    [0xFF, 0xC0] + [0x00, 0x11] + ([0x08] + [0x00, 0x32] + [0x00, 0x64] + SampleComponents)
  const SampleJpeg: seq<byte> := [0xFF, 0xD8] + SampleJpegApp + SampleJpegFrame + [0xFF, 0xDA]

  const SamplePng: seq<byte> :=
    [0x89, 0x50, 0x4E, 0x47, 0x0D, 0x0A, 0x1A, 0x0A]
    + [0x00, 0x00, 0x00, 0x0D] + [0x49, 0x48, 0x44, 0x52]
    + [0x00, 0x00, 0x00, 0xC8] + [0x00, 0x00, 0x00, 0x78]
    + [0x08, 0x06, 0x00, 0x00, 0x00]

  const SampleGif: seq<byte> :=
    [0x47, 0x49, 0x46, 0x38, 0x39, 0x61] + [0x40, 0x01] + [0xE0, 0x00] + [0x91, 0x00, 0x00]

  const SampleBmp: seq<byte> :=
    [0x42, 0x4D] + [0, 0, 0, 0] + [0, 0, 0, 0] + [0x36, 0, 0, 0]
    + [0x28, 0, 0, 0] + [0x00, 0x01, 0, 0] + [0xC0, 0, 0, 0]
    + [0x01, 0x00] + [0x18, 0x00] + seq(24, _ => 0)

  const SampleTiffPrefix: seq<byte> := [0x49, 0x49, 0x2A, 0x00, 0x08, 0x00, 0x00, 0x00, 0x02, 0x00]
  const SampleTiffWidth: seq<byte> := [0x00, 0x01, 0x03, 0x00, 0x01, 0x00, 0x00, 0x00, 0x2C, 0x01, 0x00, 0x00]
  const SampleTiffHeight: seq<byte> := [0x01, 0x01, 0x03, 0x00, 0x01, 0x00, 0x00, 0x00, 0xC8, 0x00, 0x00, 0x00]
  const SampleTiff: seq<byte> := SampleTiffPrefix + SampleTiffWidth + SampleTiffHeight + [0x00, 0x00, 0x00, 0x00]

  const SampleJfif: seq<byte> := [0x4A, 0x46, 0x49, 0x46, 0x00, 0x01, 0x01, 0x00, 0x00, 0x01, 0x00, 0x01, 0x00, 0x00]
  const SampleComponents: seq<byte> := [0x03, 0x01, 0x22, 0x00, 0x02, 0x11, 0x01, 0x03, 0x11, 0x01]

  /** The JPEG sample is SOI, a JFIF APP0 segment, a 100x50 SOF0 frame
      header and SOS. */
  lemma SampleJpegLayout()
    ensures SampleJpeg == Jpeg.Soi + Jpeg.Segment(0xE0, SampleJfif) + Jpeg.FrameHeader(100, 50, SampleComponents) + [0xFF, 0xDA]
  {
    assert BE16(16) == [0x00, 0x10] && BE16(17) == [0x00, 0x11];
    assert BE16(50) == [0x00, 0x32] && BE16(100) == [0x00, 0x64];
    assert Jpeg.Segment(0xE0, SampleJfif) == SampleJpegApp;
    assert Jpeg.FrameHeader(100, 50, SampleComponents) == SampleJpegFrame;
  }

  lemma SampleJpegSize()
    ensures ImageSize(SampleJpeg) == Found(100, 50)
  {
    SampleJpegLayout();
    Jpeg.SkipsApplicationSegment(0xE0, SampleJfif, 100, 50, SampleComponents, [0xFF, 0xDA]);
    Unfold(SampleJpeg);
  }

  lemma SamplePngSize()
    ensures ImageSize(SamplePng) == Found(200, 120)
  {
    assert SamplePng == Png.Header(200, 120, [0x08, 0x06, 0x00, 0x00, 0x00]) + [];
    PngThroughDispatcher(200, 120, [0x08, 0x06, 0x00, 0x00, 0x00], []);
  }

  lemma SampleGifSize()
    ensures ImageSize(SampleGif) == Found(320, 224)
  {
    assert SampleGif == Gif.Header(Gif.Gif89a, 320, 224) + [0x91, 0x00, 0x00];
    GifThroughDispatcher(Gif.Gif89a, 320, 224, [0x91, 0x00, 0x00]);
  }

  lemma SampleBmpSize()
    ensures ImageSize(SampleBmp) == Found(256, 192)
  {
    var fileHeader := [0, 0, 0, 0, 0, 0, 0, 0, 0x36, 0, 0, 0];
    assert SampleBmp == Bmp.InfoHeader(fileHeader, 40, 256, 192) + SampleBmp[26..];
    BmpThroughDispatcher(fileHeader, 40, 256, 192, SampleBmp[26..]);
  }

  /** The TIFF sample is a little-endian header with SHORT entries for a
      300x200 image. */
  lemma SampleTiffLayout()
    ensures SampleTiff == Tiff.Header(Tiff.Intel, Tiff.Short, 300, 200) + []
  {
    assert LE16(Tiff.ImageWidth) == [0x00, 0x01] && LE16(Tiff.ImageLength) == [0x01, 0x01];
    assert LE16(Tiff.Short) == [0x03, 0x00] && LE32(1) == [0x01, 0x00] + [0x00, 0x00];
    assert LE16(300) == [0x2C, 0x01] && LE16(200) == [0xC8, 0x00];
    assert Tiff.Prefix(Tiff.Intel) == SampleTiffPrefix;
    assert Tiff.Entry(Tiff.Intel, Tiff.ImageWidth, Tiff.Short, 300) == SampleTiffWidth;
    assert Tiff.Entry(Tiff.Intel, Tiff.ImageLength, Tiff.Short, 200) == SampleTiffHeight;
  }

  lemma SampleTiffSize()
    ensures ImageSize(SampleTiff) == Found(300, 200)
  {
    SampleTiffLayout();
    TiffThroughDispatcher(Tiff.Intel, Tiff.Short, 300, 200, []);
  }
}
