// Encoding an image by Appendix F and decoding it again.
module GifRoundTrip {
  import opened Wrappers
  import opened Bits
  import opened GifStream
  import opened GifLzw
  import opened GifDecoder
  import opened GifInterlace
  import opened GifImage

  // Whatever codes encode the pixels, however the packed bytes are cut into
  // sub-blocks, and whatever surrounds them: the decoder's input is conforming.
  lemma PackedConforms(dataSize: Byte, pixels: seq<Byte>, codes: seq<nat>,
                       before: seq<Byte>, blocks: seq<seq<Byte>>, after: seq<Byte>)
    requires 2 <= dataSize <= 8 && LegalBlocks(blocks)
    requires EncodedBy(dataSize, InitTable(dataSize), pixels, codes)
    requires CodesFit(dataSize, Pow2(dataSize) + 2, codes)
    requires Flatten(blocks) == PackCodes(dataSize, codes)
    ensures Conforming(before + [dataSize] + SubBlocks(blocks) + after, |before|, pixels, codes, 0)
  {
    var input, head := before + [dataSize] + SubBlocks(blocks) + after, before + [dataSize];
    SizeFirst(before, dataSize, SubBlocks(blocks), after);
    SubBlocksRoundTrip(head, blocks, after);
    PayloadConforms(input, |before|, dataSize, pixels, codes);
  }

  lemma PayloadConforms(input: seq<Byte>, start: nat, dataSize: Byte, pixels: seq<Byte>, codes: seq<nat>)
    requires start < |input| && input[start] == dataSize && 2 <= dataSize <= 8
    requires EncodedBy(dataSize, InitTable(dataSize), pixels, codes)
    requires CodesFit(dataSize, Pow2(dataSize) + 2, codes)
    requires Payload(input, start + 1, 0) == Some(PackCodes(dataSize, codes))
    ensures Conforming(input, start, pixels, codes, 0)
  {
    var payload := PackCodes(dataSize, codes);
    var value, width := PackedBits(dataSize, pixels, codes, payload);
    ReadingStarts(input, start + 1, payload, value, width);
    ReadingConforms(input, start, dataSize, pixels, codes, value, width);
  }

  lemma ReadingConforms(input: seq<Byte>, start: nat, dataSize: Byte, pixels: seq<Byte>, codes: seq<nat>,
                        value: nat, width: nat)
    requires start < |input| && input[start] == dataSize && 2 <= dataSize <= 8
    requires EncodedBy(dataSize, InitTable(dataSize), pixels, codes)
    requires value == StreamVal(dataSize, Pow2(dataSize) + 2, codes, 0)
    requires width == UsedLen(dataSize, InitTable(dataSize), pixels, codes)
    requires Reading(input, start + 1, 0, 0, 0, value, width)
    ensures Conforming(input, start, pixels, codes, 0)
  {
  }

  lemma SizeFirst(before: seq<Byte>, size: Byte, middle: seq<Byte>, after: seq<Byte>)
    ensures |before| < |before + [size] + middle + after| && (before + [size] + middle + after)[|before|] == size
    ensures |before + [size]| == |before| + 1
  {
  }

  lemma PackedBits(dataSize: nat, pixels: seq<Byte>, codes: seq<nat>, payload: seq<Byte>)
      returns (value: nat, width: nat)
    requires 2 <= dataSize <= 8 && EncodedBy(dataSize, InitTable(dataSize), pixels, codes)
    requires CodesFit(dataSize, Pow2(dataSize) + 2, codes) && payload == PackCodes(dataSize, codes)
    ensures value == StreamVal(dataSize, Pow2(dataSize) + 2, codes, 0) == Val(payload)
    ensures width == UsedLen(dataSize, InitTable(dataSize), pixels, codes) <= 8 * |payload|
  {
    value := StreamVal(dataSize, Pow2(dataSize) + 2, codes, 0);
    width := UsedLen(dataSize, InitTable(dataSize), pixels, codes);
    PackCodesVal(dataSize, codes);
    UsedAtMost(dataSize, InitTable(dataSize), pixels, codes);
  }

  lemma ReadingStarts(input: seq<Byte>, cp: nat, payload: seq<Byte>, value: nat, width: nat)
    requires Payload(input, cp, 0) == Some(payload) && Val(payload) == value && 8 * |payload| >= width
    ensures Reading(input, cp, 0, 0, 0, value, width)
  {
  }

  // The image ends behind the sub-block that holds the last byte of the codes it takes,
  // and behind the terminator if that is the last sub-block.
  lemma StreamEndsAt(dataSize: Byte, pixels: seq<Byte>, codes: seq<nat>,
                     before: seq<Byte>, blocks: seq<seq<Byte>>, after: seq<Byte>, j: nat)
    requires 2 <= dataSize <= 8 && LegalBlocks(blocks) && j < |blocks| && LegalBlocks(blocks[..j + 1])
    requires EncodedBy(dataSize, InitTable(dataSize), pixels, codes)
    requires |Flatten(blocks[..j])| < BytesUsed(dataSize, pixels, codes) <= |Flatten(blocks[..j + 1])|
    ensures var input := before + [dataSize] + SubBlocks(blocks) + after;
            && StreamEnd(input, |before|, pixels, codes) + 1 == |before| + 1 + |SubBlocks(blocks[..j + 1])|
            && (j == |blocks| - 1 ==> StreamEnd(input, |before|, pixels, codes) + 1 == |input| - |after|)
  {
    var used := BytesUsed(dataSize, pixels, codes);
    SizeFirst(before, dataSize, SubBlocks(blocks), after);
    BlockEndIs(before + [dataSize], blocks, after, j, used);
    if j == |blocks| - 1 {
      assert blocks[..j + 1] == blocks;
    }
  }

  // In particular the greedy encoder's output, on which the decoder never stops.
  lemma EncoderConforms(dataSize: Byte, pixels: seq<Byte>, before: seq<Byte>, blocks: seq<seq<Byte>>, after: seq<Byte>)
    requires 2 <= dataSize <= 8 && InRange(dataSize, pixels) && LegalBlocks(blocks)
    requires Flatten(blocks) == PackCodes(dataSize, Encode(dataSize, pixels))
    ensures Conforming(before + [dataSize] + SubBlocks(blocks) + after, |before|, pixels, Encode(dataSize, pixels), 0)
    ensures ClearsInTime(dataSize, InitTable(dataSize), pixels, Encode(dataSize, pixels))
  {
    EncodeEncodes(dataSize, pixels);
    PackedConforms(dataSize, pixels, Encode(dataSize, pixels), before, blocks, after);
  }

  // Decoding an encoded image paints every pixel of it.
  method DecodeEncoded(dataSize: Byte, colortab: seq<Byte>, w: nat, h: nat, interlaced: bool, data: array<Byte>,
                       pixels: seq<Byte>, before: seq<Byte>, blocks: seq<seq<Byte>>, after: seq<Byte>)
      returns (end: nat)
    requires 2 <= dataSize <= 8 && InRange(dataSize, pixels) && LegalBlocks(blocks)
    requires Flatten(blocks) == PackCodes(dataSize, Encode(dataSize, pixels))
    requires |pixels| == w * h && data.Length == 4 * (w * h) < 0x8000_0000 && InColourTable(colortab, pixels)
    requires interlaced ==> WalkSafe(h)
    modifies data
    ensures Painted(data[..], colortab, w, h, RowOrder(h, interlaced), pixels, |pixels|)
    ensures forall j :: IsLastUsed(dataSize, pixels, blocks, j) ==> end == |before| + 1 + |SubBlocks(blocks[..j + 1])|
    ensures IsLastUsed(dataSize, pixels, blocks, |blocks| - 1) ==>
              end == |before + [dataSize] + SubBlocks(blocks) + after| - |after|
  {
    EncoderConforms(dataSize, pixels, before, blocks, after);
    var input := before + [dataSize] + SubBlocks(blocks) + after;
    assert input[|before|] == dataSize;
    var full;
    end, full := DecodeLzw(input, |before|, colortab, w, h, interlaced, data, pixels, Encode(dataSize, pixels), 0);
    forall j | IsLastUsed(dataSize, pixels, blocks, j)
      ensures end == |before| + 1 + |SubBlocks(blocks[..j + 1])|
      ensures j == |blocks| - 1 ==> end == |input| - |after|
    {
      StreamEndsAt(dataSize, pixels, Encode(dataSize, pixels), before, blocks, after, j);
    }
  }

  // The sub-block that holds the last byte that the codes of the pixels take.
  ghost predicate IsLastUsed(dataSize: Byte, pixels: seq<Byte>, blocks: seq<seq<Byte>>, j: int) {
    && 2 <= dataSize <= 8 && InRange(dataSize, pixels) && 0 <= j < |blocks|
    && LegalBlocks(blocks) && LegalBlocks(blocks[..j + 1])
    && EncodedBy(dataSize, InitTable(dataSize), pixels, Encode(dataSize, pixels))
    && |Flatten(blocks[..j])| < BytesUsed(dataSize, pixels, Encode(dataSize, pixels)) <= |Flatten(blocks[..j + 1])|
  }

  // The pixels of an image in the order in which its rows arrive.
  ghost predicate Arrived(w: nat, h: nat, order: seq<nat>, image: seq<Byte>, pixels: seq<Byte>)
    requires IsOrder(h, order)
  {
    |image| == |pixels| == Times(w, h) &&
    forall t :: 0 <= t < Times(w, h) ==>
      Position(w, h, order, t) < Times(w, h) && pixels[t] == image[Position(w, h, order, t)]
  }

  // What is painted does not depend on the order in which the rows arrive; in
  // particular interlaced and sequential decoding give the same image.
  lemma OrderDoesNotMatter(data1: seq<Byte>, data2: seq<Byte>, colortab: seq<Byte>, w: nat, h: nat,
                           order1: seq<nat>, order2: seq<nat>, image: seq<Byte>, p1: seq<Byte>, p2: seq<Byte>)
    requires IsOrder(h, order1) && IsOrder(h, order2)
    requires Arrived(w, h, order1, image, p1) && Arrived(w, h, order2, image, p2)
    requires InColourTable(colortab, p1) && InColourTable(colortab, p2)
    requires Painted(data1, colortab, w, h, order1, p1, |p1|)
    requires Painted(data2, colortab, w, h, order2, p2, |p2|)
    ensures data1 == data2
  {
    forall b | 0 <= b < |data1|
      ensures data1[b] == data2[b]
    {
      var q := b / 4;
      assert q < Times(w, h);
      var t1 := PositionOnto(w, h, order1, q);
      var t2 := PositionOnto(w, h, order2, q);
      assert p1[t1] == image[q] == p2[t2];
      assert InPlace(data1, colortab, w, h, order1, p1, t1) && InPlace(data2, colortab, w, h, order2, p2, t2);
      assert data1[b] == data1[4 * q..4 * q + 4][b - 4 * q] == data2[4 * q..4 * q + 4][b - 4 * q] == data2[b];
    }
  }

  // One black pixel: its codes and the end code are packed from the low bits up, and the
  // image ends behind the terminator.
  lemma OnePixel(codes: seq<nat>, input: seq<Byte>)
    requires codes == [4, 0, 5] && input == [2, 2, 0x44, 0x01, 0, 0x3B]
    ensures PackCodes(2, codes) == [0x44, 0x01]
    ensures EncodedBy(2, InitTable(2), [0], codes) && StreamEnd(input, 0, [0], codes) + 1 == 5
  {
    OnePixelCodes(codes);
    assert BlockEnd(input, 1, 0, 1) == BlockEnd(input, 2, 2, 1) == BlockEnd(input, 3, 1, 0) == 4;
  }

  lemma OnePixelCodes(codes: seq<nat>)
    requires codes == [4, 0, 5]
    ensures PackCodes(2, codes) == [0x44, 0x01]
    ensures EncodedBy(2, InitTable(2), [0], codes) && UsedLen(2, InitTable(2), [0], codes) == 6
  {
    Pow2Small();
    var t := InitTable(2);
    assert t[0] == [0] && codes[1..] == [0, 5] && [0, 5][1..] == [5] && [0][1..] == [];
    FirstWidths(2);
    OnePixelBits(codes);
    assert Entries(2, 6, 0) == 7 && Entries(2, 6, 4) == 6;
    assert LowBytes(324, 2) == [68] + LowBytes(1, 1) && LowBytes(1, 1) == [1] + LowBytes(0, 0);
  }

  // Codes of three bits each: 4, 0 and 5 are 4 + 8 * 0 + 64 * 5.
  lemma OnePixelBits(codes: seq<nat>)
    requires codes == [4, 0, 5]
    ensures StreamVal(2, 6, codes, 0) == 324 && StreamLen(2, 6, codes) == 9
  {
    Pow2Small();
    FirstWidths(2);
    ThreeBits(7, [5], 0, 0);
    ThreeBits(6, [0, 5], 5, 3);
    ThreeBits(6, codes, 40, 6);
  }

  lemma ThreeBits(entries: nat, codes: seq<nat>, rest: nat, len: nat)
    requires codes != [] && Width(2, entries) == 3
    requires StreamVal(2, Entries(2, entries, codes[0]), codes[1..], 0) == rest
    requires StreamLen(2, Entries(2, entries, codes[0]), codes[1..]) == len
    ensures StreamVal(2, entries, codes, 0) == codes[0] + 8 * rest && StreamLen(2, entries, codes) == 3 + len
  {
    Pow2Small();
    ShlIsProduct(rest, 3);
  }

  // ---- where the decoder does not meet the standard ----------------------

  // A run of one colour sent as that many literal codes is an encoding; the
  // decoder survives it exactly as long as the table has room.
  lemma {:induction false} LiteralRun(dataSize: nat, t: Table, n: nat)
    requires 2 <= dataSize <= 8 && IsLiteral(t, 0)
    ensures EncodedBy(dataSize, t, Zeros(n), Zeros(n))
    ensures ClearsInTime(dataSize, t, Zeros(n), Zeros(n)) <==> n == 0 || |t| + n <= TABLE_SIZE + 1
    decreases n
  {
    if n > 0 {
      assert t[0] == [0] <= Zeros(n);
      assert Zeros(n)[1..] == Zeros(n - 1);
      var t' := Extend(t, t[0], Zeros(n));
      assert IsLiteral(t', 0);
      LiteralRun(dataSize, t', n - 1);
    }
  }

  // An encoder that never clears is allowed by the standard, and the decoder
  // leaves it half-way: 4000 pixels of one colour, sent as 4000 literal codes.
  lemma FullTableStops()
    ensures EncodedBy(8, InitTable(8), Zeros(4000), Zeros(4000))
    ensures !ClearsInTime(8, InitTable(8), Zeros(4000), Zeros(4000))
  {
    Pow2Small();
    assert InitTable(8)[0] == [0];
    LiteralRun(8, InitTable(8), 4000);
  }
}
