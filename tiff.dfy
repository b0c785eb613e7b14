// TIFF size sniffing: get_tiff_size_from_bytes in kvdroid/util/image.py.
// Layout from section 2 of the TIFF 6.0 specification: a byte-order mark
// ("II" little-endian, "MM" big-endian), the number 42, the offset of the
// first Image File Directory (IFD); an IFD is a 2-byte entry count and
// 12-byte entries (tag, field type, count, value or offset).  Tag 256 is
// ImageWidth and tag 257 ImageLength; type 3 is SHORT and type 4 LONG.

module Tiff {
  import opened ByteReader
  import opened Wrappers

  datatype ByteOrder = Intel | Motorola

  const ImageWidth: nat := 256
  const ImageLength: nat := 257
  const Short: nat := 3
  const Long: nat := 4

  /** struct endian_char + 'H' */
  function U16(order: ByteOrder, b: seq<byte>, i: nat): (v: nat)
    requires i + 2 <= |b|
    ensures v < 0x1_0000
  {
    if order == Intel then U16LE(b, i) else U16BE(b, i)
  }

  /** struct endian_char + 'I' */
  function U32(order: ByteOrder, b: seq<byte>, i: nat): (v: nat)
    requires i + 4 <= |b|
    ensures v < 0x1_0000_0000
  {
    if order == Intel then U32LE(b, i) else U32BE(b, i)
  }

  /** The byte order the first two bytes announce, if any. */
  function OrderOf(b: seq<byte>): Option<ByteOrder>
    requires 2 <= |b|
  {
    if b[..2] == [0x49, 0x49] then Some(Intel)
    else if b[..2] == [0x4D, 0x4D] then Some(Motorola)
    else None
  }

  /** Where entry i of the directory at `ifd` starts. */
  function EntryOffset(ifd: nat, i: nat): nat
  {
    ifd + 2 + i * 12
  }

  /** The value of the entry at `e` when it is a SHORT (read from the first
      two bytes of the value field) or a LONG (the whole field). */
  function EntryValue(order: ByteOrder, b: seq<byte>, e: nat): Option<nat>
    requires e + 12 <= |b|
  {
    var typeCode := U16(order, b, e + 2);
    if typeCode == Short then Some(U16(order, b, e + 8))
    else if typeCode == Long then Some(U32(order, b, e + 8))
    else None
  }

  /** Width and height after the entry at `e` is taken into account. */
  function Apply(order: ByteOrder, b: seq<byte>, e: nat, width: Option<nat>, height: Option<nat>)
    : (Option<nat>, Option<nat>)
    requires e + 12 <= |b|
  {
    var tag := U16(order, b, e);
    var v := EntryValue(order, b, e);
    if tag == ImageWidth && v.Some? then (v, height)
    else if tag == ImageLength && v.Some? then (width, v)
    else (width, height)
  }

  /** The directory scan from entry i on, with the width and height found
      so far.  It stops at the first entry that does not fit in the buffer
      and returns as soon as both values are known. */
  function Entries(order: ByteOrder, b: seq<byte>, ifd: nat, count: nat, i: nat,
                   width: Option<nat>, height: Option<nat>): (r: Probe)
    ensures r != Raises
    decreases if i <= count then count - i else 0
  {
    if i >= count then NotFound
    else
      var e := EntryOffset(ifd, i);
      if |b| < e + 12 then NotFound
      else
        var (w, h) := Apply(order, b, e, width, height);
        if w.Some? && h.Some? then Found(w.value, h.value)
        else Entries(order, b, ifd, count, i + 1, w, h)
  }

  /** The size get_tiff_size_from_bytes reports for `b`. */
  function TiffSize(b: seq<byte>): (r: Probe)
    ensures r != Raises
  {
    if |b| < 8 then NotFound
    else match OrderOf(b)
      case None => NotFound
      case Some(order) =>
        if U16(order, b, 2) != 42 then NotFound
        else
          var ifd := U32(order, b, 4);
          if |b| < ifd + 2 then NotFound
          else Entries(order, b, ifd, U16(order, b, ifd), 0, None, None)
  }

  /** get_tiff_size_from_bytes: header checks, then the loop over the
      entries of the first IFD. */
  method GetTiffSize(b: seq<byte>) returns (r: Probe)
    ensures r == TiffSize(b)
  {
    if |b| < 8 {
      return NotFound;
    }
    var order: ByteOrder;
    if b[0..2] == [0x49, 0x49] {
      order := Intel;
    } else if b[0..2] == [0x4D, 0x4D] {
      order := Motorola;
    } else {
      return NotFound;
    }
    if U16(order, b, 2) != 42 {
      return NotFound;
    }
    assert OrderOf(b) == Some(order);
    var firstIfdOffset := U32(order, b, 4);
    if |b| < firstIfdOffset + 2 {
      return NotFound;
    }
    var numEntries := U16(order, b, firstIfdOffset);
    var width: Option<nat> := None;
    var height: Option<nat> := None;
    for i := 0 to numEntries
      invariant Entries(order, b, firstIfdOffset, numEntries, i, width, height) == TiffSize(b)
      invariant width.None? || height.None?
    {
      var entryOffset := firstIfdOffset + 2 + i * 12;
      if |b| < entryOffset + 12 {
        break;
      }
      ghost var before := (width, height);
      var tag := U16(order, b, entryOffset);
      var typeCode := U16(order, b, entryOffset + 2);
      var valueOffset := U32(order, b, entryOffset + 8);
      if tag == ImageWidth {
        if typeCode == Short {
          width := Some(U16(order, b, entryOffset + 8));
        } else if typeCode == Long {
          width := Some(valueOffset);
        }
      } else if tag == ImageLength {
        if typeCode == Short {
          height := Some(U16(order, b, entryOffset + 8));
        } else if typeCode == Long {
          height := Some(valueOffset);
        }
      }
      assert (width, height) == Apply(order, b, entryOffset, before.0, before.1);
      if width.Some? && height.Some? {
        return Found(width.value, height.value);
      }
    }
    return NotFound;
  }

  /** Some entry among the first `count` of the directory carries `tag`
      with value v. */
  predicate Supplies(order: ByteOrder, b: seq<byte>, ifd: nat, count: nat, tag: nat, v: nat)
  {
    exists i :: 0 <= i < count && EntryOffset(ifd, i) + 12 <= |b|
      && U16(order, b, EntryOffset(ifd, i)) == tag && EntryValue(order, b, EntryOffset(ifd, i)) == Some(v)
  }

  lemma {:induction false} EntriesSound(order: ByteOrder, b: seq<byte>, ifd: nat, count: nat, i: nat,
                                        width: Option<nat>, height: Option<nat>, w: nat, h: nat)
    requires Entries(order, b, ifd, count, i, width, height) == Found(w, h)
    ensures width == Some(w) || Supplies(order, b, ifd, count, ImageWidth, w)
    ensures height == Some(h) || Supplies(order, b, ifd, count, ImageLength, h)
    decreases if i <= count then count - i else 0
  {
    var e := EntryOffset(ifd, i);
    var (w', h') := Apply(order, b, e, width, height);
    if w' != width {
      assert U16(order, b, e) == ImageWidth && EntryValue(order, b, e) == w';
    }
    if h' != height {
      assert U16(order, b, e) == ImageLength && EntryValue(order, b, e) == h';
    }
    if !(w'.Some? && h'.Some?) {
      EntriesSound(order, b, ifd, count, i + 1, w', h', w, h);
    }
  }

  /** A size reported for a TIFF was read from an ImageWidth entry and an
      ImageLength entry of the first directory, in the announced byte order. */
  lemma TiffFoundSound(b: seq<byte>, w: nat, h: nat)
    requires TiffSize(b) == Found(w, h)
    ensures 8 <= |b| && OrderOf(b).Some?
    ensures var order := OrderOf(b).value;
            var ifd := U32(order, b, 4);
            && U16(order, b, 2) == 42 && ifd + 2 <= |b|
            && Supplies(order, b, ifd, U16(order, b, ifd), ImageWidth, w)
            && Supplies(order, b, ifd, U16(order, b, ifd), ImageLength, h)
  {
    var order := OrderOf(b).value;
    var ifd := U32(order, b, 4);
    EntriesSound(order, b, ifd, U16(order, b, ifd), 0, None, None, w, h);
  }

  /** Entry i of the directory at `ifd` fits in the buffer and gives `tag`
      a SHORT or LONG value. */
  predicate EntryCarries(order: ByteOrder, b: seq<byte>, ifd: nat, i: nat, tag: nat)
  {
    EntryOffset(ifd, i) + 12 <= |b| && U16(order, b, EntryOffset(ifd, i)) == tag
    && EntryValue(order, b, EntryOffset(ifd, i)).Some?
  }

  /** The scan does not give up early: while a value is missing, an entry
      iw carrying the width and an entry ih carrying the height that it
      has not passed yet make it report a size. */
  lemma {:induction false} EntriesComplete(order: ByteOrder, b: seq<byte>, ifd: nat, count: nat, i: nat,
                                           width: Option<nat>, height: Option<nat>, iw: nat, ih: nat)
    requires iw < count && ih < count
    requires EntryCarries(order, b, ifd, iw, ImageWidth) && EntryCarries(order, b, ifd, ih, ImageLength)
    requires width.Some? || i <= iw
    requires height.Some? || i <= ih
    requires width.None? || height.None?
    ensures Entries(order, b, ifd, count, i, width, height).Found?
    decreases count - i
  {
    var e := EntryOffset(ifd, i);
    if width.None? {
      assert e <= EntryOffset(ifd, iw);
    } else {
      assert e <= EntryOffset(ifd, ih);
    }
    var (w, h) := Apply(order, b, e, width, height);
    if !(w.Some? && h.Some?) {
      EntriesComplete(order, b, ifd, count, i + 1, w, h, iw, ih);
    }
  }

  /** With one entry iw carrying the width and one entry ih carrying the
      height, the scan reports exactly their values. */
  lemma {:induction false} EntriesExact(order: ByteOrder, b: seq<byte>, ifd: nat, count: nat, i: nat,
                                        width: Option<nat>, height: Option<nat>, iw: nat, ih: nat)
    requires iw < count && ih < count
    requires EntryCarries(order, b, ifd, iw, ImageWidth) && EntryCarries(order, b, ifd, ih, ImageLength)
    requires forall j :: 0 <= j < count && EntryCarries(order, b, ifd, j, ImageWidth) ==> j == iw
    requires forall j :: 0 <= j < count && EntryCarries(order, b, ifd, j, ImageLength) ==> j == ih
    requires width == if i <= iw then None else EntryValue(order, b, EntryOffset(ifd, iw))
    requires height == if i <= ih then None else EntryValue(order, b, EntryOffset(ifd, ih))
    requires width.None? || height.None?
    ensures Entries(order, b, ifd, count, i, width, height)
            == Found(EntryValue(order, b, EntryOffset(ifd, iw)).value,
                     EntryValue(order, b, EntryOffset(ifd, ih)).value)
    decreases count - i
  {
    var e := EntryOffset(ifd, i);
    if width.None? {
      assert e <= EntryOffset(ifd, iw);
    } else {
      assert e <= EntryOffset(ifd, ih);
    }
    var (w, h) := Apply(order, b, e, width, height);
    assert w == if i + 1 <= iw then None else EntryValue(order, b, EntryOffset(ifd, iw)) by {
      if U16(order, b, e) == ImageWidth && EntryValue(order, b, e).Some? {
        assert EntryCarries(order, b, ifd, i, ImageWidth);
      }
    }
    assert h == if i + 1 <= ih then None else EntryValue(order, b, EntryOffset(ifd, ih)) by {
      if U16(order, b, e) == ImageLength && EntryValue(order, b, e).Some? {
        assert EntryCarries(order, b, ifd, i, ImageLength);
      }
    }
    if !(w.Some? && h.Some?) {
      EntriesExact(order, b, ifd, count, i + 1, w, h, iw, ih);
    }
  }

  /** A well-formed header whose first directory has an in-bounds ImageWidth
      entry iw and ImageLength entry ih is sized; when no other entry
      carries either tag, the size is exactly their values. */
  lemma TiffFoundComplete(b: seq<byte>, order: ByteOrder, iw: nat, ih: nat)
    requires 8 <= |b| && OrderOf(b) == Some(order) && U16(order, b, 2) == 42
    requires U32(order, b, 4) + 2 <= |b|
    requires var ifd := U32(order, b, 4);
             iw < U16(order, b, ifd) && ih < U16(order, b, ifd)
             && EntryCarries(order, b, ifd, iw, ImageWidth) && EntryCarries(order, b, ifd, ih, ImageLength)
    ensures TiffSize(b).Found?
    ensures var ifd := U32(order, b, 4);
            var count := U16(order, b, ifd);
            (forall j :: 0 <= j < count && EntryCarries(order, b, ifd, j, ImageWidth) ==> j == iw)
            && (forall j :: 0 <= j < count && EntryCarries(order, b, ifd, j, ImageLength) ==> j == ih)
            ==> TiffSize(b) == Found(EntryValue(order, b, EntryOffset(ifd, iw)).value,
                                     EntryValue(order, b, EntryOffset(ifd, ih)).value)
  {
    var ifd := U32(order, b, 4);
    var count := U16(order, b, ifd);
    EntriesComplete(order, b, ifd, count, 0, None, None, iw, ih);
    if (forall j :: 0 <= j < count && EntryCarries(order, b, ifd, j, ImageWidth) ==> j == iw)
       && (forall j :: 0 <= j < count && EntryCarries(order, b, ifd, j, ImageLength) ==> j == ih) {
      EntriesExact(order, b, ifd, count, 0, None, None, iw, ih);
    }
  }

  // Writing a TIFF header

  function Enc16(order: ByteOrder, x: nat): (s: seq<byte>)
    requires x < 0x1_0000
    ensures |s| == 2
  {
    if order == Intel then LE16(x) else BE16(x)
  }

  function Enc32(order: ByteOrder, x: nat): (s: seq<byte>)
    requires x < 0x1_0000_0000
    ensures |s| == 4
  {
    if order == Intel then LE32(x) else BE32(x)
  }

  lemma ReadU16(order: ByteOrder, b: seq<byte>, i: nat, x: nat)
    requires x < 0x1_0000 && i + 2 <= |b| && b[i..i + 2] == Enc16(order, x)
    ensures U16(order, b, i) == x
  {
    if order == Intel { ReadLE16(b, i, x); } else { ReadBE16(b, i, x); }
  }

  lemma ReadU32(order: ByteOrder, b: seq<byte>, i: nat, x: nat)
    requires x < 0x1_0000_0000 && i + 4 <= |b| && b[i..i + 4] == Enc32(order, x)
    ensures U32(order, b, i) == x
  {
    if order == Intel { ReadLE32(b, i, x); } else { ReadBE32(b, i, x); }
  }

  /** A field type the parser can read a size from, and a value that fits it. */
  predicate FitsType(typeCode: nat, v: nat)
  {
    (typeCode == Short && v < 0x1_0000) || (typeCode == Long && v < 0x1_0000_0000)
  }

  /** A directory entry with count 1 and its value in the value field
      (a SHORT is left-justified in the four bytes). */
  function Entry(order: ByteOrder, tag: nat, typeCode: nat, v: nat): (s: seq<byte>)
    requires tag < 0x1_0000 && FitsType(typeCode, v)
    ensures |s| == 12
  {
    Enc16(order, tag) + Enc16(order, typeCode) + Enc32(order, 1)
      + (if typeCode == Short then Enc16(order, v) + [0, 0] else Enc32(order, v))
  }

  lemma SubSlice(b: seq<byte>, e: nat, n: nat, i: nat, j: nat)
    requires e + n <= |b| && i <= j <= n
    ensures b[e..e + n][i..j] == b[e + i..e + j]
  {
    var s := b[e..e + n];
    assert forall k :: 0 <= k < n ==> s[k] == b[e + k];
  }

  lemma ReadEntry(order: ByteOrder, b: seq<byte>, e: nat, tag: nat, typeCode: nat, v: nat)
    requires tag < 0x1_0000 && FitsType(typeCode, v)
    requires e + 12 <= |b| && b[e..e + 12] == Entry(order, tag, typeCode, v)
    ensures U16(order, b, e) == tag && EntryValue(order, b, e) == Some(v)
  {
    var s := b[e..e + 12];
    var tagBytes, typeBytes, countBytes := Enc16(order, tag), Enc16(order, typeCode), Enc32(order, 1);
    var valueBytes := if typeCode == Short then Enc16(order, v) + [0, 0] else Enc32(order, v);
    assert s == tagBytes + typeBytes + countBytes + valueBytes;
    assert s[..2] == tagBytes;
    assert s[2..4] == typeBytes;
    assert s[8..] == valueBytes;
    SubSlice(b, e, 12, 0, 2);
    SubSlice(b, e, 12, 2, 4);
    ReadU16(order, b, e, tag);
    ReadU16(order, b, e + 2, typeCode);
    if typeCode == Short {
      assert s[8..10] == valueBytes[..2];
      SubSlice(b, e, 12, 8, 10);
      ReadU16(order, b, e + 8, v);
    } else {
      SubSlice(b, e, 12, 8, 12);
      ReadU32(order, b, e + 8, v);
    }
  }

  /** Byte-order mark, 42, and 8 as the offset of the first IFD, then
      the entry count 2 of that IFD. */
  function Prefix(order: ByteOrder): (s: seq<byte>)
    ensures |s| == 10
  {
    if order == Intel then [0x49, 0x49, 42, 0, 8, 0, 0, 0, 2, 0]
    else [0x4D, 0x4D, 0, 42, 0, 0, 0, 8, 0, 2]
  }

  /** A minimal TIFF header: the prefix, an IFD with an ImageWidth and an
      ImageLength entry of the same type, and a zero next-IFD offset. */
  function Header(order: ByteOrder, typeCode: nat, width: nat, height: nat): (s: seq<byte>)
    requires FitsType(typeCode, width) && FitsType(typeCode, height)
    ensures |s| == 38
  {
    Prefix(order) + Entry(order, ImageWidth, typeCode, width) + Entry(order, ImageLength, typeCode, height)
      + [0, 0, 0, 0]
  }

  /** The prefix announces its byte order, 42, the first IFD at offset 8,
      and two entries there. */
  lemma PrefixFields(order: ByteOrder, b: seq<byte>)
    requires 10 <= |b| && b[..10] == Prefix(order)
    ensures OrderOf(b) == Some(order) && U16(order, b, 2) == 42 && U32(order, b, 4) == 8
    ensures U16(order, b, 8) == 2
  {
    var p := Prefix(order);
    if order == Intel {
      assert b[..2] == p[..2] == [0x49, 0x49];
    } else {
      assert b[..2] == p[..2] == [0x4D, 0x4D];
      assert b[..2][0] != 0x49;
    }
    assert b[2..4] == p[2..4] == Enc16(order, 42);
    assert b[4..8] == p[4..8] == Enc32(order, 8);
    assert b[8..10] == p[8..10] == Enc16(order, 2);
    ReadU16(order, b, 2, 42);
    ReadU32(order, b, 4, 8);
    ReadU16(order, b, 8, 2);
  }

  lemma HeaderFields(order: ByteOrder, typeCode: nat, width: nat, height: nat, b: seq<byte>)
    requires FitsType(typeCode, width) && FitsType(typeCode, height)
    requires 38 <= |b| && b[..38] == Header(order, typeCode, width, height)
    ensures OrderOf(b) == Some(order) && U16(order, b, 2) == 42 && U32(order, b, 4) == 8
    ensures U16(order, b, 8) == 2
    ensures b[10..22] == Entry(order, ImageWidth, typeCode, width)
    ensures b[22..34] == Entry(order, ImageLength, typeCode, height)
  {
    var hd := b[..38];
    assert hd[..10] == Prefix(order);
    assert hd[10..22] == Entry(order, ImageWidth, typeCode, width);
    assert hd[22..34] == Entry(order, ImageLength, typeCode, height);
    SubSlice(b, 0, 38, 0, 10);
    SubSlice(b, 0, 38, 10, 22);
    SubSlice(b, 0, 38, 22, 34);
    assert b[..10] == b[0..10];
    PrefixFields(order, b);
  }

  /** In either byte order and with either field type, the size written
      is the size read back. */
  lemma HeaderRoundTrip(order: ByteOrder, typeCode: nat, width: nat, height: nat, rest: seq<byte>)
    requires FitsType(typeCode, width) && FitsType(typeCode, height)
    ensures TiffSize(Header(order, typeCode, width, height) + rest) == Found(width, height)
  {
    var b := Header(order, typeCode, width, height) + rest;
    assert b[..38] == Header(order, typeCode, width, height);
    HeaderFields(order, typeCode, width, height, b);
    ReadEntry(order, b, 10, ImageWidth, typeCode, width);
    ReadEntry(order, b, 22, ImageLength, typeCode, height);
    assert Apply(order, b, 10, None, None) == (Some(width), None);
    assert Apply(order, b, 22, Some(width), None) == (Some(width), Some(height));
    assert Entries(order, b, 8, 2, 1, Some(width), None) == Found(width, height);
    assert Entries(order, b, 8, 2, 0, None, None) == Found(width, height);
  }
}
