// JPEG size sniffing: get_jpeg_size_from_bytes in kvdroid/util/image.py.
// Marker codes follow ITU-T T.81 Annex B (Table B.1): SOI = FF D8,
// SOFn = FF C0..CF except DHT (C4), JPG (C8) and DAC (CC), RSTm = FF D0..D7,
// EOI = FF D9, SOS = FF DA.

module Jpeg {
  import opened ByteReader

  /** Start Of Image, the two bytes every JPEG stream begins with. */
  const Soi: seq<byte> := [0xFF, 0xD8]

  /** A Start Of Frame marker code: the frame header holds the size. */
  predicate IsSof(code: byte)
  {
    0xC0 <= code <= 0xCF && code != 0xC4 && code != 0xC8 && code != 0xCC
  }

  /** RST0..RST7 and EOI: markers the scan steps over without a length. */
  predicate IsStandalone(code: byte)
  {
    0xD0 <= code <= 0xD9
  }

  /** What one turn of the marker scan does at `offset`. */
  datatype Step = Stop(result: Probe) | Advance(next: nat)

  /** The body of the scan loop at `offset`.  A marker byte FF that is the
      last byte of the buffer makes the two-byte slice too short to index
      (IndexError), and an SOF marker with fewer than two bytes after it
      makes the length unpack fail (struct.error) before the bounds check
      for the frame header is reached: both are `Raises`. */
  function ScanStep(b: seq<byte>, offset: nat): (s: Step)
    requires offset < |b|
    ensures s.Advance? ==> s.next > offset
    ensures s == Stop(Raises) ==> b[offset] == 0xFF && |b| < offset + 4
  {
    if b[offset] != 0xFF then Stop(NotFound)
    else if offset + 1 == |b| then Stop(Raises)
    else if IsSof(b[offset + 1]) then
      if offset + 4 > |b| then Stop(Raises)
      else if offset + 4 + 5 > |b| then Stop(NotFound)
      else Stop(Found(U16BE(b, offset + 7), U16BE(b, offset + 5)))
    else if IsStandalone(b[offset + 1]) then Advance(offset + 2)
    else if b[offset + 1] == 0xDA then Stop(NotFound)
    else if offset + 4 > |b| then Stop(NotFound)
    else Advance(offset + 2 + U16BE(b, offset + 2))
  }

  /** The marker scan from `offset` to its end. */
  function ScanFrom(b: seq<byte>, offset: nat): Probe
    decreases if offset <= |b| then |b| - offset else 0
  {
    if offset >= |b| then NotFound
    else match ScanStep(b, offset)
      case Stop(r) => r
      case Advance(next) => ScanFrom(b, next)
  }

  /** The size get_jpeg_size_from_bytes reports for `b`. */
  function JpegSize(b: seq<byte>): (r: Probe)
    ensures !StartsWith(b, Soi) ==> r == NotFound
  {
    if !StartsWith(b, Soi) then NotFound else ScanFrom(b, 2)
  }

  /** get_jpeg_size_from_bytes: the scan loop over markers. */
  method GetJpegSize(b: seq<byte>) returns (r: Probe)
    ensures r == JpegSize(b)
  {
    if !StartsWith(b, Soi) {
      return NotFound;
    }
    var offset := 2;
    while offset < |b|
      invariant ScanFrom(b, offset) == JpegSize(b)
      decreases |b| - offset
    {
      if b[offset] == 0xFF && offset + 1 == |b| {
        return Raises;
      }
      if b[offset] == 0xFF && IsSof(b[offset + 1]) {
        if offset + 4 > |b| {
          return Raises;
        }
        if offset + 4 + 5 > |b| {
          return NotFound;
        }
        var height := U16BE(b, offset + 5);
        var width := U16BE(b, offset + 7);
        return Found(width, height);
      } else if b[offset] == 0xFF && IsStandalone(b[offset + 1]) {
        offset := offset + 2;
      } else if b[offset] == 0xFF && b[offset + 1] == 0xDA {
        return NotFound;
      } else if b[offset] == 0xFF {
        if offset + 4 > |b| {
          return NotFound;
        }
        var length := U16BE(b, offset + 2);
        offset := offset + 2 + length;
      } else {
        return NotFound;
      }
    }
    return NotFound;
  }

  /** A frame header at `o`: an SOF marker with the five bytes after its
      length field present. */
  predicate SofAt(b: seq<byte>, o: nat)
  {
    o + 9 <= |b| && b[o] == 0xFF && IsSof(b[o + 1])
  }

  /** The marker walk steps from the marker at p to the next one at q: p
      holds a marker that is neither a frame header nor SOS, and q follows
      it directly (RSTm, EOI) or lies past its length-prefixed segment. */
  predicate Skips(b: seq<byte>, p: nat, q: nat)
  {
    && p + 1 < |b| && b[p] == 0xFF && !IsSof(b[p + 1]) && b[p + 1] != 0xDA
    && if IsStandalone(b[p + 1]) then q == p + 2
       else p + 4 <= |b| && q == p + 2 + U16BE(b, p + 2)
  }

  /** A chain of marker positions, each reached from the one before. */
  predicate Walk(b: seq<byte>, ps: seq<nat>)
  {
    |ps| > 0 && forall i :: 0 <= i < |ps| - 1 ==> Skips(b, ps[i], ps[i + 1])
  }

  function Last(ps: seq<nat>): nat
    requires |ps| > 0
  {
    ps[|ps| - 1]
  }

  /** The walk is the chain of positions the scan visits: scanning from its
      first marker is scanning from its last. */
  lemma {:induction false} ScanAlongWalk(b: seq<byte>, ps: seq<nat>)
    requires Walk(b, ps)
    ensures ScanFrom(b, ps[0]) == ScanFrom(b, Last(ps))
    decreases |ps|
  {
    if |ps| > 1 {
      assert Skips(b, ps[0], ps[1]);
      assert ScanStep(b, ps[0]) == Advance(ps[1]);
      var tail := ps[1..];
      assert Walk(b, tail) by {
        forall i | 0 <= i < |tail| - 1
          ensures Skips(b, tail[i], tail[i + 1])
        {
          assert tail[i] == ps[i + 1] && tail[i + 1] == ps[i + 2];
        }
      }
      ScanAlongWalk(b, tail);
      assert Last(tail) == Last(ps);
    }
  }

  /** The frame header the walk from `offset` reaches first carries the
      size (w, h). */
  ghost predicate FirstFrameFrom(b: seq<byte>, offset: nat, w: nat, h: nat)
  {
    exists ps :: Walk(b, ps) && ps[0] == offset && SofAt(b, Last(ps))
                 && h == U16BE(b, Last(ps) + 5) && w == U16BE(b, Last(ps) + 7)
  }

  /** A size found by the scan was read from the first frame header on the
      marker walk: height at o+5 and width at o+7, both big-endian. */
  lemma {:induction false} ScanFoundIsSof(b: seq<byte>, offset: nat, w: nat, h: nat)
    requires ScanFrom(b, offset) == Found(w, h)
    ensures FirstFrameFrom(b, offset, w, h)
    decreases if offset <= |b| then |b| - offset else 0
  {
    match ScanStep(b, offset)
    case Stop(r) =>
      assert Walk(b, [offset]) && Last([offset]) == offset;
      assert SofAt(b, offset);
    case Advance(next) =>
      assert Skips(b, offset, next);
      ScanFoundIsSof(b, next, w, h);
      var ps :| Walk(b, ps) && ps[0] == next && SofAt(b, Last(ps))
                && h == U16BE(b, Last(ps) + 5) && w == U16BE(b, Last(ps) + 7);
      var qs := [offset] + ps;
      assert Walk(b, qs) by {
        forall i | 0 <= i < |qs| - 1
          ensures Skips(b, qs[i], qs[i + 1])
        {
          if i > 0 {
            assert qs[i] == ps[i - 1] && qs[i + 1] == ps[i];
          }
        }
      }
      assert Last(qs) == Last(ps);
  }

  /** get_jpeg_size_from_bytes reports (w, h) exactly when the bytes start
      with SOI and the first frame header on the marker walk from offset 2
      carries (w, h). */
  lemma JpegFoundIsSof(b: seq<byte>, w: nat, h: nat)
    ensures JpegSize(b) == Found(w, h) <==> StartsWith(b, Soi) && FirstFrameFrom(b, 2, w, h)
  {
    if JpegSize(b) == Found(w, h) {
      ScanFoundIsSof(b, 2, w, h);
    }
    if StartsWith(b, Soi) && FirstFrameFrom(b, 2, w, h) {
      var ps :| Walk(b, ps) && ps[0] == 2 && SofAt(b, Last(ps))
                && h == U16BE(b, Last(ps) + 5) && w == U16BE(b, Last(ps) + 7);
      ScanAlongWalk(b, ps);
      assert ScanStep(b, Last(ps)) == Stop(Found(w, h));
    }
  }

  /** The parser raises only at a marker that lies within the last three
      bytes of the buffer. */
  lemma {:induction false} ScanRaisesNearEnd(b: seq<byte>, offset: nat)
    requires ScanFrom(b, offset) == Raises
    ensures exists o :: offset <= o < |b| && b[o] == 0xFF && |b| < o + 4
    decreases if offset <= |b| then |b| - offset else 0
  {
    match ScanStep(b, offset)
    case Stop(r) =>
    case Advance(next) =>
      ScanRaisesNearEnd(b, next);
  }

  lemma JpegRaisesNearEnd(b: seq<byte>)
    requires JpegSize(b) == Raises
    ensures exists o :: 2 <= o < |b| && b[o] == 0xFF && |b| < o + 4
  {
    ScanRaisesNearEnd(b, 2);
  }

  /** A marker segment: marker code, then a two-byte length that counts
      itself and the payload. */
  function Segment(code: byte, payload: seq<byte>): (s: seq<byte>)
    requires |payload| + 2 < 0x1_0000
    ensures |s| == 4 + |payload|
  {
    [0xFF, code] + BE16(|payload| + 2) + payload
  }

  /** A baseline frame header (SOF0) with 8-bit precision and the given
      size, followed by `components` (the component specifications). */
  function FrameHeader(width: nat, height: nat, components: seq<byte>): (s: seq<byte>)
    requires width < 0x1_0000 && height < 0x1_0000 && |components| + 8 < 0x1_0000
    ensures |s| == 9 + |components|
  {
    Segment(0xC0, [8] + BE16(height) + BE16(width) + components)
  }

  /** Writing a frame header right after SOI and reading the size back
      gives the size that was written. */
  lemma FrameHeaderRoundTrip(width: nat, height: nat, components: seq<byte>, rest: seq<byte>)
    requires width < 0x1_0000 && height < 0x1_0000 && |components| + 8 < 0x1_0000
    ensures JpegSize(Soi + FrameHeader(width, height, components) + rest) == Found(width, height)
  {
    var b := Soi + FrameHeader(width, height, components) + rest;
    assert b[2] == 0xFF && b[3] == 0xC0;
    assert b[7..9] == BE16(height);
    assert b[9..11] == BE16(width);
    ReadBE16(b, 7, height);
    ReadBE16(b, 9, width);
    assert StartsWith(b, Soi);
    assert ScanStep(b, 2) == Stop(Found(width, height));
  }

  /** An application segment (APP0..APP15) before the frame header is
      skipped by its length. */
  lemma SkipsApplicationSegment(code: byte, payload: seq<byte>, width: nat, height: nat,
                                components: seq<byte>, rest: seq<byte>)
    requires 0xE0 <= code <= 0xEF && |payload| + 2 < 0x1_0000
    requires width < 0x1_0000 && height < 0x1_0000 && |components| + 8 < 0x1_0000
    ensures JpegSize(Soi + Segment(code, payload) + FrameHeader(width, height, components) + rest)
            == Found(width, height)
  {
    var app := Segment(code, payload);
    var tail := FrameHeader(width, height, components) + rest;
    var b := Soi + app + tail;
    assert b == Soi + Segment(code, payload) + FrameHeader(width, height, components) + rest;
    assert b[4..6] == BE16(|payload| + 2);
    ReadBE16(b, 4, |payload| + 2);
    assert ScanStep(b, 2) == Advance(6 + |payload|);
    var o := 6 + |payload|;
    assert b[o..] == tail;
    assert b[o] == 0xFF && b[o + 1] == 0xC0;
    assert b[o + 5..o + 7] == BE16(height);
    assert b[o + 7..o + 9] == BE16(width);
    ReadBE16(b, o + 5, height);
    ReadBE16(b, o + 7, width);
    assert ScanStep(b, o) == Stop(Found(width, height));
    assert ScanFrom(b, o) == Found(width, height);
    assert StartsWith(b, Soi);
    assert ScanFrom(b, 2) == ScanFrom(b, o);
  }

  /** Start Of Scan reached on the marker walk, before any frame header,
      ends the search empty-handed. */
  lemma ScanBeforeFrame(b: seq<byte>, ps: seq<nat>)
    requires StartsWith(b, Soi) && Walk(b, ps) && ps[0] == 2
    requires Last(ps) + 1 < |b| && b[Last(ps)] == 0xFF && b[Last(ps) + 1] == 0xDA
    ensures JpegSize(b) == NotFound
  {
    ScanAlongWalk(b, ps);
  }

  /** A length-prefixed segment the walk steps over: its code is neither a
      frame header, nor SOS, nor a marker without a length. */
  datatype Seg = Seg(code: byte, payload: seq<byte>)

  predicate Skippable(g: Seg)
  {
    |g.payload| + 2 < 0x1_0000 && !IsSof(g.code) && !IsStandalone(g.code) && g.code != 0xDA
  }

  predicate AllSkippable(gs: seq<Seg>)
  {
    forall i :: 0 <= i < |gs| ==> Skippable(gs[i])
  }

  lemma SkippableTail(gs: seq<Seg>)
    requires AllSkippable(gs) && gs != []
    ensures Skippable(gs[0]) && AllSkippable(gs[1..])
  {
    assert forall i :: 0 <= i < |gs| - 1 ==> gs[1..][i] == gs[i + 1];
  }

  /** The segments written one after another. */
  function Segs(gs: seq<Seg>): (s: seq<byte>)
    requires AllSkippable(gs)
  {
    if gs == [] then []
    else
      SkippableTail(gs);
      Segment(gs[0].code, gs[0].payload) + Segs(gs[1..])
  }

  /** A written skippable segment at o is one step of the marker walk. */
  lemma SkipOne(b: seq<byte>, o: nat, g: Seg)
    requires Skippable(g)
    requires o + 4 + |g.payload| <= |b| && b[o..o + 4 + |g.payload|] == Segment(g.code, g.payload)
    ensures Skips(b, o, o + 4 + |g.payload|)
  {
    var s := Segment(g.code, g.payload);
    assert b[o] == s[0] == 0xFF && b[o + 1] == s[1] == g.code;
    var len := BE16(|g.payload| + 2);
    assert s == [0xFF, g.code] + len + g.payload;
    assert s[2..4] == len;
    assert b[o + 2] == s[2] && b[o + 3] == s[3];
    assert b[o + 2..o + 4] == [s[2], s[3]] == len;
    ReadBE16(b, o + 2, |g.payload| + 2);
  }

  /** The two halves of a written concatenation. */
  lemma SliceSplit(b: seq<byte>, o: nat, x: seq<byte>, y: seq<byte>)
    requires o + |x| + |y| <= |b| && b[o..o + |x| + |y|] == x + y
    ensures b[o..o + |x|] == x && b[o + |x|..o + |x| + |y|] == y
  {
    var w := b[o..o + |x| + |y|];
    forall k | 0 <= k < |x|
      ensures b[o..o + |x|][k] == x[k]
    {
      assert b[o..o + |x|][k] == b[o + k] == w[k];
    }
    forall k | 0 <= k < |y|
      ensures b[o + |x|..o + |x| + |y|][k] == y[k]
    {
      assert b[o + |x|..o + |x| + |y|][k] == b[o + |x| + k] == w[|x| + k];
    }
  }

  /** Written segments at o: the first one, then the rest after it. */
  lemma SegsAt(b: seq<byte>, o: nat, gs: seq<Seg>)
    requires AllSkippable(gs) && gs != []
    requires o + |Segs(gs)| <= |b| && b[o..o + |Segs(gs)|] == Segs(gs)
    ensures Skippable(gs[0]) && AllSkippable(gs[1..])
    ensures var n := 4 + |gs[0].payload|;
            && |Segs(gs)| == n + |Segs(gs[1..])|
            && b[o..o + n] == Segment(gs[0].code, gs[0].payload)
            && b[o + n..o + |Segs(gs)|] == Segs(gs[1..])
  {
    SkippableTail(gs);
    var s, rest := Segment(gs[0].code, gs[0].payload), Segs(gs[1..]);
    assert Segs(gs) == s + rest;
    SliceSplit(b, o, s, rest);
  }

  /** The marker positions of written segments at o, and the position
      after them. */
  function Positions(o: nat, gs: seq<Seg>): (ps: seq<nat>)
    ensures |ps| == |gs| + 1 && ps[0] == o
    decreases |gs|
  {
    if gs == [] then [o] else [o] + Positions(o + 4 + |gs[0].payload|, gs[1..])
  }

  /** Written segments form a marker walk that ends right after them. */
  lemma {:induction false} SkipSegs(b: seq<byte>, o: nat, gs: seq<Seg>)
    requires AllSkippable(gs)
    requires o + |Segs(gs)| <= |b| && b[o..o + |Segs(gs)|] == Segs(gs)
    ensures Walk(b, Positions(o, gs)) && Last(Positions(o, gs)) == o + |Segs(gs)|
    decreases |gs|
  {
    if gs != [] {
      SegsAt(b, o, gs);
      var n := 4 + |gs[0].payload|;
      SkipOne(b, o, gs[0]);
      SkipSegs(b, o + n, gs[1..]);
      var ps, qs := Positions(o + n, gs[1..]), Positions(o, gs);
      assert qs == [o] + ps;
      forall i | 0 <= i < |qs| - 1
        ensures Skips(b, qs[i], qs[i + 1])
      {
        if i > 0 {
          assert qs[i] == ps[i - 1] && qs[i + 1] == ps[i];
        }
      }
      assert Last(qs) == Last(ps);
    }
  }

  /** A written frame header at o is a frame marker carrying its size. */
  lemma FrameAt(b: seq<byte>, o: nat, width: nat, height: nat, components: seq<byte>)
    requires width < 0x1_0000 && height < 0x1_0000 && |components| + 8 < 0x1_0000
    requires o + 9 + |components| <= |b| && b[o..o + 9 + |components|] == FrameHeader(width, height, components)
    ensures SofAt(b, o) && U16BE(b, o + 5) == height && U16BE(b, o + 7) == width
  {
    var f := FrameHeader(width, height, components);
    assert f == [0xFF, 0xC0] + BE16(|components| + 7) + [8] + BE16(height) + BE16(width) + components;
    assert b[o] == f[0] && b[o + 1] == f[1];
    assert b[o + 5] == f[5] && b[o + 6] == f[6] && b[o + 7] == f[7] && b[o + 8] == f[8];
    assert b[o + 5..o + 7] == [f[5], f[6]] == BE16(height);
    assert b[o + 7..o + 9] == [f[7], f[8]] == BE16(width);
    ReadBE16(b, o + 5, height);
    ReadBE16(b, o + 7, width);
  }

  /** Any run of skippable segments (DQT, DHT, APPn, COM, ...) between SOI
      and the frame header is stepped over, and the size written is the
      size read back. */
  lemma FrameAfterSegments(gs: seq<Seg>, width: nat, height: nat, components: seq<byte>, rest: seq<byte>)
    requires AllSkippable(gs)
    requires width < 0x1_0000 && height < 0x1_0000 && |components| + 8 < 0x1_0000
    ensures JpegSize(Soi + Segs(gs) + FrameHeader(width, height, components) + rest) == Found(width, height)
  {
    var f := FrameHeader(width, height, components);
    var b := Soi + Segs(gs) + f + rest;
    var o := 2 + |Segs(gs)|;
    assert b[2..o] == Segs(gs);
    assert b[o..o + |f|] == f;
    SkipSegs(b, 2, gs);
    ScanAlongWalk(b, Positions(2, gs));
    FrameAt(b, o, width, height, components);
    assert ScanStep(b, o) == Stop(Found(width, height));
    assert StartsWith(b, Soi);
  }

  /** SOS after any run of skippable segments, with no frame header before
      it, gives (None, None). */
  lemma ScanAfterSegments(gs: seq<Seg>, rest: seq<byte>)
    requires AllSkippable(gs)
    ensures JpegSize(Soi + Segs(gs) + [0xFF, 0xDA] + rest) == NotFound
  {
    var tail := [0xFF, 0xDA] + rest;
    var b := Soi + Segs(gs) + tail;
    assert b == Soi + Segs(gs) + [0xFF, 0xDA] + rest;
    var o := 2 + |Segs(gs)|;
    assert b[2..o] == Segs(gs);
    SkipSegs(b, 2, gs);
    ScanAlongWalk(b, Positions(2, gs));
    assert b[o] == 0xFF && b[o + 1] == 0xDA;
    assert StartsWith(b, Soi);
  }
}
