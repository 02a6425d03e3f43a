// Decode_LZW as a whole: from the sub-blocks of an image to its RGBA pixels.
module GifImage {
  import opened Wrappers
  import opened Bits
  import opened GifStream
  import opened GifLzw
  import opened GifDecoder
  import opened GifInterlace

  // ---- where a pixel goes -----------------------------------------------

  // The t-th pixel to arrive is this pixel of the image, counted row by row, when
  // the rows arrive in the given order.
  function Position(w: nat, h: nat, order: seq<nat>, t: nat): nat
    requires |order| == h && t < Times(w, h)
  {
    RowOfPixel(w, h, t);
    PixelPlace(w, order[t / w], t % w)
  }

  function PixelPlace(w: nat, row: nat, x: nat): nat {
    Times(w, row) + x
  }

  lemma RowOfPixel(w: nat, h: nat, t: nat)
    requires t < Times(w, h)
    ensures w > 0 && 0 <= t / w < h && 0 <= t % w < w && t == (t / w) * w + t % w
  {
    TimesIsProduct(w, h);
    ZeroWidth(w, h);
    QuotientBound(t, w, h);
  }

  lemma ZeroWidth(w: nat, h: nat)
    ensures w == 0 ==> w * h == 0
  {
  }

  lemma PixelInImage(w: nat, h: nat, row: nat, x: nat)
    requires row < h && x < w
    ensures PixelPlace(w, row, x) < Times(w, h)
  {
    TimesGrows(w, row + 1, h);
  }

  lemma PixelPlaceSplit(w: nat, row: nat, x: nat)
    requires x < w
    ensures PixelPlace(w, row, x) / w == row && PixelPlace(w, row, x) % w == x
  {
    TimesIsProduct(w, row);
    DivModUnique(row * w + x, w, row, x);
  }

  lemma PositionAt(w: nat, h: nat, order: seq<nat>, y: nat, x: nat)
    requires IsOrder(h, order) && y < h && x < w
    ensures PixelPlace(w, y, x) < Times(w, h)
    ensures Position(w, h, order, PixelPlace(w, y, x)) == PixelPlace(w, order[y], x)
  {
    PixelInImage(w, h, y, x);
    PixelPlaceSplit(w, y, x);
  }

  lemma PositionInImage(w: nat, h: nat, order: seq<nat>, t: nat)
    requires IsOrder(h, order) && t < Times(w, h)
    ensures Position(w, h, order, t) < Times(w, h)
  {
    RowOfPixel(w, h, t);
    PixelInImage(w, h, order[t / w], t % w);
  }

  // No two pixels go to the same place.
  lemma PositionInjective(w: nat, h: nat, order: seq<nat>, t: nat, u: nat)
    requires IsOrder(h, order) && t < Times(w, h) && u < Times(w, h)
    requires Position(w, h, order, t) == Position(w, h, order, u)
    ensures t == u
  {
    RowOfPixel(w, h, t);
    RowOfPixel(w, h, u);
    PixelPlaceSplit(w, order[t / w], t % w);
    PixelPlaceSplit(w, order[u / w], u % w);
  }

  lemma PlaceOfQuotient(w: nat, q: nat)
    requires w > 0
    ensures PixelPlace(w, q / w, q % w) == q
  {
    TimesIsProduct(w, q / w);
  }

  // Every place gets a pixel.
  lemma PositionOnto(w: nat, h: nat, order: seq<nat>, q: nat) returns (t: nat)
    requires IsOrder(h, order) && q < Times(w, h)
    ensures t < Times(w, h) && Position(w, h, order, t) == q
  {
    RowOfPixel(w, h, q);
    assert q / w in order;
    var y: nat :| 0 <= y < h && order[y] == q / w;
    t := PixelPlace(w, y, q % w);
    PositionAt(w, h, order, y, q % w);
    PlaceOfQuotient(w, q);
  }

  // ---- what a pixel looks like ------------------------------------------

  function Colour(colortab: seq<Byte>, p: Byte): seq<Byte>
    requires 3 * p + 2 < |colortab|
  {
    [colortab[3 * p], colortab[3 * p + 1], colortab[3 * p + 2], 255]
  }

  predicate InColourTable(colortab: seq<Byte>, pixels: seq<Byte>) {
    forall t :: 0 <= t < |pixels| ==> 3 * pixels[t] + 2 < |colortab|
  }

  // The first n pixels to arrive are in place.
  ghost predicate Painted(data: seq<Byte>, colortab: seq<Byte>, w: nat, h: nat, order: seq<nat>,
                          pixels: seq<Byte>, n: nat)
    requires n <= |pixels| && |order| == h && InColourTable(colortab, pixels)
  {
    |pixels| == Times(w, h) && |data| == 4 * |pixels| &&
    forall t {:trigger InPlace(data, colortab, w, h, order, pixels, t)} :: 0 <= t < n ==>
      InPlace(data, colortab, w, h, order, pixels, t)
  }

  // The t-th pixel to arrive is where it belongs.
  ghost predicate InPlace(data: seq<Byte>, colortab: seq<Byte>, w: nat, h: nat, order: seq<nat>, pixels: seq<Byte>,
                          t: nat)
    requires t < |pixels| == Times(w, h) && |order| == h && InColourTable(colortab, pixels)
  {
    QuadIs(data, Position(w, h, order, t), Colour(colortab, pixels[t]))
  }

  // Byte by byte: red, green and blue as the colour table has them, and opaque.
  lemma PaintedBytes(data: seq<Byte>, colortab: seq<Byte>, w: nat, h: nat, order: seq<nat>, pixels: seq<Byte>, n: nat,
                     t: nat)
    requires n <= |pixels| && |order| == h && InColourTable(colortab, pixels) && t < n
    requires Painted(data, colortab, w, h, order, pixels, n)
    ensures var at, p: int := 4 * Position(w, h, order, t), pixels[t];
            && at + 4 <= |data| && data[at] == colortab[3 * p] && data[at + 1] == colortab[3 * p + 1]
            && data[at + 2] == colortab[3 * p + 2] && data[at + 3] == 255
  {
    assert InPlace(data, colortab, w, h, order, pixels, t);
    var at := 4 * Position(w, h, order, t);
    var quad := data[at..at + 4];
    assert data[at] == quad[0] && data[at + 1] == quad[1] && data[at + 2] == quad[2] && data[at + 3] == quad[3];
  }

  // The pixel x of the y-th row to arrive is in the row that the order names: of an image
  // that is not interlaced the y-th, of one that is the y-th of Appendix E.
  lemma PixelGoesTo(w: nat, h: nat, interlaced: bool, y: nat, x: nat)
    requires y < h && x < w
    ensures w * y + x < Times(w, h) && |RowOrder(h, interlaced)| == h == |AppendixE(h)|
    ensures Position(w, h, RowOrder(h, interlaced), w * y + x)
            == w * (if interlaced then AppendixE(h)[y] else y) + x
  {
    RowOrderIsOrder(h, interlaced);
    AppendixEPermutes(h);
    PositionAt(w, h, RowOrder(h, interlaced), y, x);
    TimesIsProduct(w, y);
    TimesIsProduct(w, RowOrder(h, interlaced)[y]);
  }

  predicate QuadIs(data: seq<Byte>, q: nat, colour: seq<Byte>) {
    4 * q + 4 <= |data| && data[4 * q..4 * q + 4] == colour
  }

  // Lines 181-185: the colour of a pixel is written, and nothing else.
  method WritePixel(data: array<Byte>, dp: nat, colortab: seq<Byte>, p: Byte, ghost q: nat) returns (next: nat)
    requires dp == 4 * q && dp + 4 <= data.Length && 3 * p + 2 < |colortab|
    modifies data
    ensures next == dp + 4
    ensures QuadIs(data[..], q, Colour(colortab, p))
    ensures forall r: nat, c :: r != q && QuadIs(old(data[..]), r, c) ==> QuadIs(data[..], r, c)
  {
    ghost var before := data[..];
    var rp := 3 * p;
    data[dp] := colortab[rp];
    data[dp + 1] := colortab[rp + 1];
    data[dp + 2] := colortab[rp + 2];
    data[dp + 3] := 255;
    next := dp + 4;
    assert data[4 * q..4 * q + 4] == Colour(colortab, p);
    forall r: nat, c | r != q && QuadIs(before, r, c)
      ensures QuadIs(data[..], r, c)
    {
      assert data[..][4 * r..4 * r + 4] == before[4 * r..4 * r + 4];
    }
  }

  lemma PaintNext(before: seq<Byte>, after: seq<Byte>, colortab: seq<Byte>, w: nat, h: nat, order: seq<nat>,
                  pixels: seq<Byte>, n: nat)
    requires n < |pixels| == Times(w, h) && IsOrder(h, order) && InColourTable(colortab, pixels)
    requires Painted(before, colortab, w, h, order, pixels, n) && |after| == |before|
    requires QuadIs(after, Position(w, h, order, n), Colour(colortab, pixels[n]))
    requires forall r: nat, c :: r != Position(w, h, order, n) && QuadIs(before, r, c) ==> QuadIs(after, r, c)
    ensures Painted(after, colortab, w, h, order, pixels, n + 1)
  {
    forall t | 0 <= t < n + 1
      ensures InPlace(after, colortab, w, h, order, pixels, t)
    {
      assert t < n ==> InPlace(before, colortab, w, h, order, pixels, t);
      if t < n && Position(w, h, order, t) == Position(w, h, order, n) {
        PositionInjective(w, h, order, t, n);
      }
    }
  }

  // ---- the decoder ------------------------------------------------------

  // Behind the current sub-block there is another, or the terminator.
  lemma {:induction false} SkipRest(input: seq<Byte>, cp: nat, count: nat)
    requires Payload(input, cp, count).Some?
    ensures cp + count < |input| && Payload(input, cp + count, 0).Some?
    decreases count
  {
    if count > 0 {
      SkipRest(input, cp + 1, count - 1);
    }
  }

  // Lines 181-185 for the n-th pixel of the image.
  method Emit(data: array<Byte>, dp: nat, colortab: seq<Byte>, p: Byte, ghost w: nat, ghost h: nat,
              ghost order: seq<nat>, ghost pixels: seq<Byte>, ghost n: nat)
      returns (next: nat)
    requires n < |pixels| == Times(w, h) && IsOrder(h, order) && InColourTable(colortab, pixels) && pixels[n] == p
    requires Painted(data[..], colortab, w, h, order, pixels, n)
    requires dp == 4 * Position(w, h, order, n)
    modifies data
    ensures next == dp + 4 && Painted(data[..], colortab, w, h, order, pixels, n + 1)
  {
    PositionInImage(w, h, order, n);
    ghost var before := data[..];
    next := WritePixel(data, dp, colortab, p, Position(w, h, order, n));
    PaintNext(before, data[..], colortab, w, h, order, pixels, n);
  }

  // The pixels from the n-th on are the decoder's to deliver.
  ghost predicate Delivers(d: LzwDecoder, pixels: seq<Byte>, n: nat)
    reads d, d.prefix, d.suffix, d.stack
  {
    && n <= |pixels|
    && forall rest {:trigger IsRest(pixels, n, rest)} :: IsRest(pixels, n, rest) ==> Holds(d, rest)
  }

  predicate IsRest(pixels: seq<Byte>, n: nat, rest: seq<Byte>) {
    n <= |pixels| && rest == pixels[n..]
  }

  // The decoder has these pixels on its stack or still to read.
  ghost predicate Holds(d: LzwDecoder, rest: seq<Byte>)
    reads d, d.prefix, d.suffix, d.stack
  {
    d.Valid() && rest == d.Stacked() + d.todo
  }

  lemma RestHeld(d: LzwDecoder, pixels: seq<Byte>, n: nat)
    requires Delivers(d, pixels, n)
    ensures Holds(d, pixels[n..])
  {
    assert IsRest(pixels, n, pixels[n..]);
  }

  // The w pixels from the n-th on go to a run of places from q on.
  ghost predicate IsRow(w: nat, h: nat, order: seq<nat>, n: nat, q: nat) {
    |order| == h && n + w <= Times(w, h) && forall t: nat :: n <= t < n + w ==> Position(w, h, order, t) == q + (t - n)
  }

  // One pixel comes off the stack.
  method PopPixel(d: LzwDecoder, ghost pixels: seq<Byte>, ghost n: nat) returns (p: Byte)
    requires Delivers(d, pixels, n) && d.top > 0
    modifies d`top
    ensures n < |pixels| && p == pixels[n] && Delivers(d, pixels, n + 1)
  {
    RestHeld(d, pixels, n);
    ghost var stacked := d.Stacked();
    p := d.Pop();
    TailOfPixels(pixels, n, stacked, d.todo, p, d.Stacked());
  }

  lemma TailOfPixels(pixels: seq<Byte>, n: nat, stacked: seq<Byte>, todo: seq<Byte>, p: Byte, rest: seq<Byte>)
    requires n <= |pixels| && pixels[n..] == stacked + todo && stacked == [p] + rest
    ensures n < |pixels| && pixels[n] == p && pixels[n + 1..] == rest + todo
  {
    assert pixels[n] == pixels[n..][0] == p;
    assert pixels[n + 1..] == pixels[n..][1..] == rest + todo;
  }

  // The first n pixels are in place, and the rest are the decoder's to deliver.
  ghost predicate Progress(d: LzwDecoder, data: array<Byte>, colortab: seq<Byte>, w: nat, h: nat, order: seq<nat>,
                           pixels: seq<Byte>, n: nat)
    reads d, d.prefix, d.suffix, d.stack, data
  {
    && |pixels| == Times(w, h) && IsOrder(h, order) && InColourTable(colortab, pixels)
    && Delivers(d, pixels, n) && data != d.suffix && data != d.stack
    && Painted(data[..], colortab, w, h, order, pixels, n)
  }

  // One turn of the pixel loop.
  method PixelTurn(d: LzwDecoder, colortab: seq<Byte>, data: array<Byte>, dp0: nat, ghost w: nat, ghost h: nat,
                   ghost order: seq<nat>, ghost pixels: seq<Byte>, ghost n: nat)
      returns (dp: nat, pop: bool, full: bool)
    requires Progress(d, data, colortab, w, h, order, pixels, n)
    requires n < |pixels| && dp0 == 4 * Position(w, h, order, n)
    modifies d, d.prefix, d.suffix, d.stack, data
    ensures full ==> !d.inTime
    ensures !full && pop ==> Progress(d, data, colortab, w, h, order, pixels, n + 1) && dp == dp0 + 4
    ensures !full && !pop ==> Progress(d, data, colortab, w, h, order, pixels, n) && dp == dp0
    ensures !full && !pop ==> Consumed(|old(d.codes)|, old(Unread(d.input, d.cp, d.count)),
                                       |d.codes|, Unread(d.input, d.cp, d.count))
  {
    dp := dp0;
    RestHeld(d, pixels, n);
    pop, full := d.Turn();
    if pop && !full {
      var p := PopPixel(d, pixels, n);
      dp := Emit(data, dp, colortab, p, w, h, order, pixels, n);
    }
  }

  ghost predicate Consumed(codes: nat, bytes: nat, codes': nat, bytes': nat) {
    codes' < codes || (codes' == codes && bytes' < bytes)
  }

  // Lines 115-187: one row of pixels.
  method DecodeRow(d: LzwDecoder, colortab: seq<Byte>, w: nat, ghost h: nat, ghost order: seq<nat>,
                   data: array<Byte>, start: nat, ghost pixels: seq<Byte>, ghost n: nat, ghost q: nat)
      returns (dp: nat, full: bool)
    requires Progress(d, data, colortab, w, h, order, pixels, n)
    requires IsRow(w, h, order, n, q) && start == 4 * q
    modifies d, d.prefix, d.suffix, d.stack, data
    ensures full ==> !d.inTime
    ensures !full ==> Progress(d, data, colortab, w, h, order, pixels, n + w) && dp == start + 4 * w
  {
    var x := 0;
    dp, full := start, false;
    while x < w
      invariant x <= w && dp == start + 4 * x
      invariant Progress(d, data, colortab, w, h, order, pixels, n + x)
      decreases w - x, |d.codes|, Unread(d.input, d.cp, d.count)
    {
      assert Position(w, h, order, n + x) == q + x;
      var pop: bool;
      dp, pop, full := PixelTurn(d, colortab, data, dp, w, h, order, pixels, n + x);
      if full {
        return;
      }
      if pop {
        x := x + 1;
      }
    }
  }

  lemma RowRun(w: nat, h: nat, order: seq<nat>, y: nat)
    requires y < h && IsOrder(h, order)
    ensures IsRow(w, h, order, Times(w, y), Times(w, order[y]))
  {
    TimesGrows(w, y + 1, h);
    var n := Times(w, y);
    forall t: nat | n <= t < n + w
      ensures t < Times(w, h)
      ensures Position(w, h, order, t) == Times(w, order[y]) + (t - n)
    {
      PositionAt(w, h, order, y, t - n);
    }
  }

  // Before the y-th row: n pixels have arrived, the walk stands at (row, i), and
  // the output pointer is at the start of the row.
  ghost predicate RowState(w: nat, h: nat, order: seq<nat>, interlaced: bool, walk: seq<(nat, nat)>,
                           y: nat, row: nat, i: nat, dp: nat, n: nat)
  {
    && y <= h == |order| && n == Times(w, y)
    && (y < h ==> dp == 4 * Times(w, order[y]))
    && (interlaced ==> |walk| == h && (y < h ==> walk[y] == (row, i)))
  }

  // The rows arrive in this order, and an interlaced walk visits them so.
  ghost predicate Arriving(h: nat, order: seq<nat>, interlaced: bool, walk: seq<(nat, nat)>) {
    && IsOrder(h, order)
    && (interlaced ==> IsWalk(h, walk) && forall y :: 0 <= y < h ==> walk[y].0 == order[y])
    && (!interlaced ==> forall y :: 0 <= y < h ==> order[y] == y)
  }

  // Lines 189-192.
  method StepRow(h: nat, row0: nat, i0: nat) returns (row: nat, i: nat)
    requires i0 < 4
    ensures (row, i) == NextRow(h, row0, i0)
  {
    row, i := row0 + RATE[i0], i0;
    if row >= h {
      i := i + 1;
      // The table has no entry behind the last pass; the value read is not used.
      row := if i < 4 then START[i] else 0;
    }
  }

  function RowOffset(w: nat, row: nat): (dp: nat)
    ensures dp == 4 * Times(w, row)
  {
    TimesIsProduct(w, row);
    (row * w) * 4
  }

  // Lines 188-194: move on to the next row of an interlaced image.
  method NextRowStart(w: nat, h: nat, ghost order: seq<nat>, interlaced: bool, ghost walk: seq<(nat, nat)>,
                      ghost y: nat, row0: nat, i0: nat, dp0: nat, ghost was: nat, ghost n: nat)
      returns (row: nat, i: nat, dp: nat)
    requires y < h && Arriving(h, order, interlaced, walk)
    requires RowState(w, h, order, interlaced, walk, y, row0, i0, was, n) && dp0 == was + 4 * w
    ensures RowState(w, h, order, interlaced, walk, y + 1, row, i, dp, n + w)
  {
    row, i, dp := row0, i0, dp0;
    if interlaced {
      assert walk[y].1 < 4;
      row, i := StepRow(h, row, i);
      if y < h - 1 {
        assert NextRow(h, walk[y].0, walk[y].1) == walk[y + 1];
      }
      dp := RowOffset(w, row);
    }
  }

  // Lines 114-195 for one row.
  method RowTurn(d: LzwDecoder, colortab: seq<Byte>, w: nat, h: nat, ghost order: seq<nat>, interlaced: bool,
                 data: array<Byte>, row0: nat, i0: nat, dp0: nat, ghost pixels: seq<Byte>,
                 ghost walk: seq<(nat, nat)>, ghost y: nat, ghost n: nat)
      returns (row: nat, i: nat, dp: nat, full: bool, ghost next: nat)
    requires Progress(d, data, colortab, w, h, order, pixels, n)
    requires y < h && Arriving(h, order, interlaced, walk)
    requires RowState(w, h, order, interlaced, walk, y, row0, i0, dp0, n)
    modifies d, d.prefix, d.suffix, d.stack, data
    ensures full ==> !d.inTime
    ensures !full ==> Progress(d, data, colortab, w, h, order, pixels, next)
    ensures !full ==> RowState(w, h, order, interlaced, walk, y + 1, row, i, dp, next)
  {
    RowRun(w, h, order, y);
    row, i, next := row0, i0, n + w;
    dp, full := DecodeRow(d, colortab, w, h, order, data, dp0, pixels, n, Times(w, order[y]));
    if !full {
      row, i, dp := NextRowStart(w, h, order, interlaced, walk, y, row, i, dp, dp0, n);
    }
  }

  // Lines 111-195: all the rows.
  method DecodeRows(d: LzwDecoder, colortab: seq<Byte>, w: nat, h: nat, ghost order: seq<nat>, interlaced: bool,
                    data: array<Byte>, ghost pixels: seq<Byte>, ghost walk: seq<(nat, nat)>)
      returns (full: bool, ghost n: nat)
    requires Progress(d, data, colortab, w, h, order, pixels, 0)
    requires Arriving(h, order, interlaced, walk)
    modifies d, d.prefix, d.suffix, d.stack, data
    ensures full ==> !d.inTime
    ensures !full ==> n == Times(w, h) && Progress(d, data, colortab, w, h, order, pixels, n)
  {
    var row: nat, i: nat, dp: nat, y: nat := 0, 0, 0, 0;
    ghost var left: nat := h;
    full, n := false, 0;
    while y < h
      invariant !full && y + left == h
      invariant RowState(w, h, order, interlaced, walk, y, row, i, dp, n)
      invariant Progress(d, data, colortab, w, h, order, pixels, n)
      decreases left
    {
      row, i, dp, full, n := RowTurn(d, colortab, w, h, order, interlaced, data, row, i, dp, pixels, walk, y, n);
      if full {
        return;
      }
      y, left := y + 1, left - 1;
    }
  }

  // The row order of an image, with its walk.
  lemma RowsArrive(h: nat, interlaced: bool) returns (walk: seq<(nat, nat)>)
    requires interlaced ==> WalkSafe(h)
    ensures Arriving(h, RowOrder(h, interlaced), interlaced, walk)
  {
    RowOrderIsOrder(h, interlaced);
    walk := [];
    if interlaced {
      walk := SafeWalk(h);
    }
  }

  // Decodes every conforming image: each pixel to arrive gets its colour, in its
  // place. The one way to leave early is a code read while the table is full,
  // and that happens exactly when the encoder does not clear in time. On return
  // the pointer is just behind a sub-block's size byte, which is the terminator
  // if the image ended in the last sub-block.
  method DecodeLzw(input: seq<Byte>, start: nat, colortab: seq<Byte>, w: nat, h: nat, interlaced: bool,
                   data: array<Byte>, ghost pixels: seq<Byte>, ghost codes: seq<nat>, ghost pad: nat)
      returns (end: nat, full: bool)
    requires Conforming(input, start, pixels, codes, pad)
    requires |pixels| == w * h && data.Length == 4 * (w * h) < 0x8000_0000
    requires InColourTable(colortab, pixels)
    requires interlaced ==> WalkSafe(h)
    modifies data
    ensures full <==> !ClearsInTime(input[start], InitTable(input[start]), pixels, codes)
    ensures !full ==> Painted(data[..], colortab, w, h, RowOrder(h, interlaced), pixels, |pixels|)
    ensures !full ==> 0 < end <= |input| && Payload(input, end - 1, 0).Some?
    ensures !full ==> end == StreamEnd(input, start, pixels, codes) + 1
  {
    TimesIsProduct(w, h);
    full, end := DecodePixels(input, start, colortab, w, h, interlaced, data, pixels, codes, pad);
  }

  method DecodePixels(input: seq<Byte>, start: nat, colortab: seq<Byte>, w: nat, h: nat, interlaced: bool,
                      data: array<Byte>, ghost pixels: seq<Byte>, ghost codes: seq<nat>, ghost pad: nat)
      returns (full: bool, end: nat)
    requires Conforming(input, start, pixels, codes, pad)
    requires |pixels| == Times(w, h) && data.Length == 4 * Times(w, h)
    requires InColourTable(colortab, pixels)
    requires interlaced ==> WalkSafe(h)
    modifies data
    ensures full <==> !ClearsInTime(input[start], InitTable(input[start]), pixels, codes)
    ensures !full ==> Painted(data[..], colortab, w, h, RowOrder(h, interlaced), pixels, |pixels|)
    ensures !full ==> 0 < end <= |input| && Payload(input, end - 1, 0).Some?
    ensures !full ==> end == StreamEnd(input, start, pixels, codes) + 1
  {
    var d := new LzwDecoder(input, start, pixels, codes, pad);
    ghost var order := RowOrder(h, interlaced);
    ghost var walk := RowsArrive(h, interlaced);
    NothingDone(d, data, colortab, w, h, order, pixels);
    ghost var n;
    full, n := DecodeRows(d, colortab, w, h, order, interlaced, data, pixels, walk);
    end := 0;
    if !full {
      AllDelivered(d, pixels);
      end := d.cp + d.count + 1;
    }
  }

  lemma NothingDone(d: LzwDecoder, data: array<Byte>, colortab: seq<Byte>, w: nat, h: nat, order: seq<nat>,
                    pixels: seq<Byte>)
    requires d.Valid() && d.top == 0 && d.todo == pixels && data != d.suffix && data != d.stack
    requires |pixels| == Times(w, h) && data.Length == 4 * Times(w, h)
    requires IsOrder(h, order) && InColourTable(colortab, pixels)
    ensures Progress(d, data, colortab, w, h, order, pixels, 0)
  {
    assert d.stack[..d.top] == [];
    assert pixels[0..] == [] + pixels;
  }

  lemma AllDelivered(d: LzwDecoder, pixels: seq<Byte>)
    requires Delivers(d, pixels, |pixels|)
    ensures d.inTime && d.cp + d.count == d.stop
    ensures d.cp + d.count < |d.input| && Payload(d.input, d.cp + d.count, 0).Some?
  {
    RestHeld(d, pixels, |pixels|);
    assert pixels[|pixels|..] == [];
    assert d.todo == [];
    SkipRest(d.input, d.cp, d.count);
  }
}
