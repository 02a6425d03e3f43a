// The rows of a BMP image: reading each format of decode-bmp (mod-bmp.c).
// `data` is the file, `cp` an index into it; the image is an array of RGBA pixels.
module BmpRows {
  import opened Bits

  datatype Colour = Colour(blue: Byte, green: Byte, red: Byte)
  datatype Pixel = Pixel(red: Byte, green: Byte, blue: Byte, alpha: Byte)

  function Opaque(c: Colour): Pixel {
    Pixel(c.red, c.green, c.blue, 255)
  }

  // How many values of this many bits n bytes hold.
  function Holds(bits: nat, n: nat): nat {
    if bits == 1 then 8 * n else if bits == 4 then 2 * n else n
  }

  // The j-th value in a byte string, the first in the high bits.
  function Value(bits: nat, bytes: seq<Byte>, j: nat): nat
    requires j < Holds(bits, |bytes|)
  {
    if bits == 1 then Bit(bytes[j / 8], j % 8)
    else if bits == 4 then Nibble(bytes[j / 2], j)
    else bytes[j]
  }

  function Nibble(b: Byte, j: nat): nat {
    if j % 2 == 0 then b / 16 else b % 16
  }

  // The k-th bit of a byte, from the high one on.
  function Bit(b: Byte, k: nat): nat
    requires k < 8
  {
    [b / 128, b / 64 % 2, b / 32 % 2, b / 16 % 2, b / 8 % 2, b / 4 % 2, b / 2 % 2, b % 2][k]
  }

  lemma BitIs(b: Byte, k: nat)
    requires k < 8
    ensures Bit(b, k) == b / Mask(k) % 2 < 2
  {
  }

  // 0x80 shifted right k times.
  function Mask(k: nat): (m: nat)
    requires k < 8
    ensures m > 0
  {
    [128, 64, 32, 16, 8, 4, 2, 1][k]
  }

  function Looked(ctab: seq<Colour>, bits: nat, bytes: seq<Byte>, w: nat): (line: seq<Pixel>)
    requires w <= Holds(bits, |bytes|)
    requires forall j :: 0 <= j < w ==> Value(bits, bytes, j) < |ctab|
    ensures |line| == w && forall j :: 0 <= j < w ==> line[j] == Opaque(ctab[Value(bits, bytes, j)])
  {
    if w == 0 then [] else Looked(ctab, bits, bytes, w - 1) + [Opaque(ctab[Value(bits, bytes, w - 1)])]
  }

  // In plain terms: eight one-bit values are the binary digits of a byte, the highest
  // first.
  lemma BitsAre(bytes: seq<Byte>, j: nat)
    requires j < 8 * |bytes|
    ensures Value(1, bytes, j) == bytes[j / 8] / Pow2(7 - j % 8) % 2 < 2
  {
    BitIs(bytes[j / 8], j % 8);
    MaskIs(j % 8);
  }

  lemma {:induction false} MaskIs(k: nat)
    requires k < 8
    ensures Mask(k) == Pow2(7 - k)
    decreases 7 - k
  {
    if k < 7 {
      MaskIs(k + 1);
    }
  }

  // Two four-bit values are the halves of a byte, the high one first.
  lemma NibblesAre(bytes: seq<Byte>, i: nat)
    requires i < |bytes|
    ensures Value(4, bytes, 2 * i) == bytes[i] / 16 && Value(4, bytes, 2 * i + 1) == bytes[i] % 16
  {
  }

  // A pixel of a row with a colour table has the three parts of its entry, and is opaque.
  lemma LookedAt(ctab: seq<Colour>, bits: nat, bytes: seq<Byte>, w: nat, j: nat)
    requires j < w <= Holds(bits, |bytes|)
    requires forall i :: 0 <= i < w ==> Value(bits, bytes, i) < |ctab|
    ensures var p, c := Looked(ctab, bits, bytes, w)[j], ctab[Value(bits, bytes, j)];
            p.red == c.red && p.green == c.green && p.blue == c.blue && p.alpha == 255
  {
  }

  // Writing one more pixel of a line.
  method Put(image: array<Pixel>, dp: nat, p: Pixel, ghost was: seq<Pixel>, ghost dp0: nat, ghost line: seq<Pixel>)
      returns (next: nat)
    requires dp == dp0 + |line| < image.Length == |was| && image[..] == Placed(was, dp0, line)
    modifies image
    ensures next == dp + 1 && image[..] == Placed(was, dp0, line + [p])
  {
    image[dp] := p;
    next := dp + 1;
  }

  // The bytes of an uncompressed row.
  function Stride(w: nat, bits: nat): nat {
    (w * bits + 31) / 32 * 4
  }

  lemma Stride1(w: nat)
    ensures Stride(w, 1) == ((w + 7) / 8 + 3) / 4 * 4
  {
  }

  lemma Stride4(w: nat)
    ensures Stride(w, 4) == ((w + 1) / 2 + 3) / 4 * 4
  {
  }

  lemma Stride8(w: nat)
    ensures Stride(w, 8) == (w + 3) / 4 * 4
  {
  }

  lemma Stride24(w: nat)
    ensures Stride(w, 24) == (w * 3 + 3) / 4 * 4
  {
  }

  // Lines 470-471: skip to a multiple of four bytes.
  method SkipPadding(cp: nat, i: nat) returns (end: nat)
    ensures end - cp == (i + 3) / 4 * 4 - i
  {
    var n := i;
    end := cp;
    while n % 4 != 0
      invariant i <= n && n - i == end - cp && n <= (i + 3) / 4 * 4
      decreases (i + 3) / 4 * 4 - n
    {
      n := n + 1;
      end := end + 1;
    }
  }

  // Case 24 of BI_RGB.
  function Triples(bytes: seq<Byte>, w: nat): (line: seq<Pixel>)
    requires 3 * w <= |bytes|
    ensures |line| == w
  {
    if w == 0 then []
    else Triples(bytes, w - 1) + [Pixel(bytes[3 * w - 1], bytes[3 * w - 2], bytes[3 * w - 3], 255)]
  }

  // A pixel of a 24-bit row: blue, green and red stand in this order.
  lemma {:induction false} TriplesAt(bytes: seq<Byte>, w: nat, j: nat)
    requires j < w && 3 * w <= |bytes|
    ensures var p := Triples(bytes, w)[j];
            p.blue == bytes[3 * j] && p.green == bytes[3 * j + 1] && p.red == bytes[3 * j + 2] && p.alpha == 255
    decreases w
  {
    if j < w - 1 {
      TriplesAt(bytes, w - 1, j);
    }
  }

  method Row24(data: seq<Byte>, start: nat, w: nat, image: array<Pixel>, dp0: nat) returns (cp: nat)
    requires start + 3 * w <= |data| && dp0 + w <= image.Length
    modifies image
    ensures image[..] == Placed(old(image[..]), dp0, Triples(data[start..], w))
    ensures cp == start + Stride(w, 24)
  {
    var dp, i := dp0, 0;
    cp := start;
    while i < w
      invariant 0 <= i <= w && dp == dp0 + i && cp == start + 3 * i
      invariant image[..] == Placed(old(image[..]), dp0, Triples(data[start..], i))
    {
      dp := Put(image, dp, Pixel(data[cp + 2], data[cp + 1], data[cp], 255), old(image[..]), dp0,
          Triples(data[start..], i));
      cp := cp + 3;
      i := i + 1;
    }
    Stride24(w);
    cp := SkipPadding(cp, w * 3);
  }

  predicate InTable(ctab: seq<Colour>, bits: nat, bytes: seq<Byte>, w: nat)
    requires w <= Holds(bits, |bytes|)
  {
    forall j :: 0 <= j < w ==> Value(bits, bytes, j) < |ctab|
  }

  // How reading a row ends: with all its pixels, with the error for a bad file, or
  // with a read behind the colour table, from where on nothing is known.
  datatype RowEnd = Complete | BadFile | ReadBehind

  // The first value that has no entry, or w.
  function FirstOut(ctab: seq<Colour>, bits: nat, bytes: seq<Byte>, w: nat): (n: nat)
    requires w <= Holds(bits, |bytes|)
    ensures n <= w && InTable(ctab, bits, bytes, n)
    ensures n < w ==> Value(bits, bytes, n) >= |ctab|
  {
    if w == 0 then 0
    else
      var n := FirstOut(ctab, bits, bytes, w - 1);
      if n == w - 1 && Value(bits, bytes, n) < |ctab| then w else n
  }

  // The code refuses a value above the number of entries, and with one-bit values
  // none at all; a value equal to that number it looks up.
  function EndOf(ctab: seq<Colour>, bits: nat, bytes: seq<Byte>, w: nat): (end: RowEnd)
    requires w <= Holds(bits, |bytes|)
    ensures end == Complete ==> InTable(ctab, bits, bytes, w)
  {
    var n := FirstOut(ctab, bits, bytes, w);
    if n == w then Complete else if bits != 1 && Value(bits, bytes, n) > |ctab| then BadFile else ReadBehind
  }

  // Every value before this one has an entry, and it compares so with their number.
  predicate FirstAbove(ctab: seq<Colour>, bits: nat, bytes: seq<Byte>, w: nat, n: nat) {
    n < w <= Holds(bits, |bytes|) && InTable(ctab, bits, bytes, n) && Value(bits, bytes, n) > |ctab|
  }

  predicate FirstEqual(ctab: seq<Colour>, bits: nat, bytes: seq<Byte>, w: nat, n: nat) {
    n < w <= Holds(bits, |bytes|) && InTable(ctab, bits, bytes, n) && Value(bits, bytes, n) == |ctab|
  }

  // A row of four- or eight-bit values is drawn exactly if all have entries, refused
  // exactly if a value above their number comes before any equal to it, and reads
  // behind the table exactly if one equal to it comes before any above.
  lemma RowEnds(ctab: seq<Colour>, bits: nat, bytes: seq<Byte>, w: nat)
    requires bits in {4, 8} && w <= Holds(bits, |bytes|)
    ensures EndOf(ctab, bits, bytes, w) == Complete <==> InTable(ctab, bits, bytes, w)
    ensures EndOf(ctab, bits, bytes, w) == BadFile <==> exists n :: FirstAbove(ctab, bits, bytes, w, n)
    ensures EndOf(ctab, bits, bytes, w) == ReadBehind <==> exists n :: FirstEqual(ctab, bits, bytes, w, n)
  {
    var n := FirstOut(ctab, bits, bytes, w);
    if n < w {
      assert FirstAbove(ctab, bits, bytes, w, n) || FirstEqual(ctab, bits, bytes, w, n);
      assert !InTable(ctab, bits, bytes, w);
    }
    forall m | FirstAbove(ctab, bits, bytes, w, m) || FirstEqual(ctab, bits, bytes, w, m)
      ensures m == n
    {
    }
  }

  // Pixel 16 with 16 colours is such a row; pixel 17 is refused.
  lemma OneBehindIsRead(ctab: seq<Colour>)
    requires |ctab| == 16
    ensures EndOf(ctab, 8, [16], 1) == ReadBehind
    ensures EndOf(ctab, 8, [17], 1) == BadFile
  {
    assert Value(8, [16], 0) == 16 && Value(8, [17], 0) == 17;
    assert FirstOut(ctab, 8, [16], 1) == 0 && FirstOut(ctab, 8, [17], 1) == 0;
  }

  // The first i pixels of a row are drawn.
  ghost predicate Drawn(image: seq<Pixel>, was: seq<Pixel>, dp0: nat, dp: nat, ctab: seq<Colour>, bits: nat,
                        bytes: seq<Byte>, i: nat) {
    && i <= Holds(bits, |bytes|) && InTable(ctab, bits, bytes, i)
    && dp == dp0 + i <= |was| && image == Placed(was, dp0, Looked(ctab, bits, bytes, i))
  }

  lemma NoneDrawn(image: seq<Pixel>, dp: nat, ctab: seq<Colour>, bits: nat, bytes: seq<Byte>)
    requires dp <= |image|
    ensures Drawn(image, image, dp, dp, ctab, bits, bytes, 0)
  {
    assert Placed(image, dp, []) == image;
  }

  method PutColour(image: array<Pixel>, dp0: nat, ctab: seq<Colour>, x: nat, ghost was: seq<Pixel>, ghost start: nat,
                   ghost bits: nat, ghost bytes: seq<Byte>, ghost i: nat) returns (dp: nat)
    requires Drawn(image[..], was, start, dp0, ctab, bits, bytes, i) && |was| == image.Length && dp0 < image.Length
    requires i < Holds(bits, |bytes|) && x == Value(bits, bytes, i) && x < |ctab|
    modifies image
    ensures Drawn(image[..], was, start, dp, ctab, bits, bytes, i + 1)
  {
    dp := Put(image, dp0, Opaque(ctab[x]), was, start, Looked(ctab, bits, bytes, i));
  }

  // The value at i is the first without an entry.
  lemma OutHere(ctab: seq<Colour>, bits: nat, bytes: seq<Byte>, w: nat, i: nat)
    requires i < w <= Holds(bits, |bytes|) && InTable(ctab, bits, bytes, i) && Value(bits, bytes, i) >= |ctab|
    ensures FirstOut(ctab, bits, bytes, w) == i
  {
  }

  // Lines 430-437, 445-452: the test, and the pixel.
  method PutTested(image: array<Pixel>, from: nat, ctab: seq<Colour>, x: nat, ghost was: seq<Pixel>, ghost dp0: nat,
                   ghost bits: nat, ghost bytes: seq<Byte>, ghost i: nat, ghost w: nat)
      returns (end: RowEnd, dp: nat)
    requires Drawn(image[..], was, dp0, from, ctab, bits, bytes, i) && |was| == image.Length && from < image.Length
    requires bits != 1 && i < w <= Holds(bits, |bytes|) && x == Value(bits, bytes, i)
    modifies image
    ensures end == Complete ==> Drawn(image[..], was, dp0, dp, ctab, bits, bytes, i + 1)
    ensures end != Complete ==> end == EndOf(ctab, bits, bytes, w)
  {
    end, dp := Complete, from;
    if x >= |ctab| {
      OutHere(ctab, bits, bytes, w, i);
      end := if x > |ctab| then BadFile else ReadBehind;
    } else {
      dp := PutColour(image, from, ctab, x, was, dp0, bits, bytes, i);
    }
  }

  lemma NoneOut(ctab: seq<Colour>, bits: nat, bytes: seq<Byte>, w: nat)
    requires w <= Holds(bits, |bytes|) && InTable(ctab, bits, bytes, w)
    ensures EndOf(ctab, bits, bytes, w) == Complete
  {
  }

  // Case 8.
  method Row8(data: seq<Byte>, start: nat, w: nat, ctab: seq<Colour>, image: array<Pixel>, dp0: nat)
      returns (end: RowEnd, cp: nat)
    requires start + w <= |data| && dp0 + w <= image.Length
    modifies image
    ensures end == EndOf(ctab, 8, data[start..], w)
    ensures end == Complete ==> image[..] == Placed(old(image[..]), dp0, Looked(ctab, 8, data[start..], w))
    ensures end == Complete ==> cp == start + Stride(w, 8)
  {
    var dp, i := dp0, 0;
    cp := start;
    ghost var was, bytes := image[..], data[start..];
    NoneDrawn(was, dp0, ctab, 8, bytes);
    while i < w
      invariant 0 <= i <= w && cp == start + i && Drawn(image[..], was, dp0, dp, ctab, 8, bytes, i)
    {
      var c := data[cp];
      cp := cp + 1;
      assert Value(8, bytes, i) == c;
      end, dp := PutTested(image, dp, ctab, c, was, dp0, 8, bytes, i, w);
      if end != Complete {
        return;
      }
      i := i + 1;
    }
    Stride8(w);
    NoneOut(ctab, 8, bytes, w);
    cp := SkipPadding(cp, i);
    end := Complete;
  }

  // After i four-bit values.
  ghost predicate AtNibble(data: seq<Byte>, start: nat, i: nat, cp: nat, c: nat) {
    && cp == start + (i + 1) / 2
    && (i % 2 == 1 ==> start + i / 2 < |data| && c == data[start + i / 2])
  }

  // Lines 424-429.
  method TakeNibble(data: seq<Byte>, start: nat, i: nat, cp0: nat, c0: nat) returns (x: nat, c: nat, cp: nat)
    requires AtNibble(data, start, i, cp0, c0) && start + i / 2 < |data|
    ensures x == Value(4, data[start..], i)
    ensures AtNibble(data, start, i + 1, cp, c)
  {
    c, cp := c0, cp0;
    if i % 2 == 0 {
      c := data[cp];
      cp := cp + 1;
      x := c / 16;
    } else {
      x := c % 16;
    }
    assert c == data[start..][i / 2];
  }

  // Case 4: two values a byte.
  method Row4(data: seq<Byte>, start: nat, w: nat, ctab: seq<Colour>, image: array<Pixel>, dp0: nat)
      returns (end: RowEnd, cp: nat)
    requires start <= |data| && w <= 2 * (|data| - start) && dp0 + w <= image.Length
    modifies image
    ensures end == EndOf(ctab, 4, data[start..], w)
    ensures end == Complete ==> image[..] == Placed(old(image[..]), dp0, Looked(ctab, 4, data[start..], w))
    ensures end == Complete ==> cp == start + Stride(w, 4)
  {
    var dp, i, c := dp0, 0, 0;
    cp := start;
    ghost var was, bytes := image[..], data[start..];
    NoneDrawn(was, dp0, ctab, 4, bytes);
    while i < w
      invariant 0 <= i <= w && AtNibble(data, start, i, cp, c) && Drawn(image[..], was, dp0, dp, ctab, 4, bytes, i)
    {
      end, dp, c, cp := NibbleTurn(data, start, w, i, cp, c, ctab, image, dp0, dp, was);
      if end != Complete {
        return;
      }
      i := i + 1;
    }
    Stride4(w);
    NoneOut(ctab, 4, bytes, w);
    cp := SkipPadding(cp, (w + 1) / 2);
    end := Complete;
  }

  method NibbleTurn(data: seq<Byte>, start: nat, ghost w: nat, i: nat, cp0: nat, c0: nat, ctab: seq<Colour>,
                    image: array<Pixel>, ghost dp0: nat, from: nat, ghost was: seq<Pixel>)
      returns (end: RowEnd, dp: nat, c: nat, cp: nat)
    requires i < w && start <= |data| && w <= 2 * (|data| - start) && AtNibble(data, start, i, cp0, c0)
    requires Drawn(image[..], was, dp0, from, ctab, 4, data[start..], i) && |was| == image.Length && from < image.Length
    modifies image
    ensures end == Complete ==> AtNibble(data, start, i + 1, cp, c)
    ensures end == Complete ==> Drawn(image[..], was, dp0, dp, ctab, 4, data[start..], i + 1)
    ensures end != Complete ==> end == EndOf(ctab, 4, data[start..], w)
  {
    var x;
    x, c, cp := TakeNibble(data, start, i, cp0, c0);
    end, dp := PutTested(image, from, ctab, x, was, dp0, 4, data[start..], i, w);
  }

  // After i one-bit values: the mask is used up at a byte's end.
  ghost predicate AtBit(data: seq<Byte>, start: nat, i: nat, cp: nat, c: nat, x: nat) {
    && cp == start + (i + 7) / 8
    && if i % 8 == 0 then x == 0 else x == Mask(i % 8) && start + i / 8 < |data| && c == data[start + i / 8]
  }

  // Lines 408-417.
  method TakeBit(data: seq<Byte>, start: nat, i: nat, cp0: nat, c0: nat, x0: nat)
      returns (color: nat, c: nat, x: nat, cp: nat)
    requires AtBit(data, start, i, cp0, c0, x0) && start + i / 8 < |data|
    ensures color == Value(1, data[start..], i)
    ensures AtBit(data, start, i + 1, cp, c, x)
  {
    c, x, cp := c0, x0, cp0;
    if x == 0 {
      x := 128;
      c := data[cp];
      cp := cp + 1;
    }
    assert x == Mask(i % 8) && c == data[start..][i / 8];
    BitIs(c, i % 8);
    color := if c / x % 2 != 0 then 1 else 0;
    MaskHalves(i);
    x := x / 2;
  }

  lemma MaskHalves(i: nat)
    ensures (i + 1) % 8 == 0 ==> Mask(i % 8) / 2 == 0
    ensures (i + 1) % 8 != 0 ==> Mask(i % 8) / 2 == Mask((i + 1) % 8) && (i + 1) / 8 == i / 8
  {
    assert (i + 1) % 8 == if i % 8 == 7 then 0 else i % 8 + 1;
  }

  // Case 1: eight values a byte; no check against the table.
  method Row1(data: seq<Byte>, start: nat, w: nat, ctab: seq<Colour>, image: array<Pixel>, dp0: nat)
      returns (end: RowEnd, cp: nat)
    requires start <= |data| && w <= 8 * (|data| - start) && dp0 + w <= image.Length
    modifies image
    ensures end == EndOf(ctab, 1, data[start..], w)
    ensures end == Complete ==> image[..] == Placed(old(image[..]), dp0, Looked(ctab, 1, data[start..], w))
    ensures end == Complete ==> cp == start + Stride(w, 1)
  {
    var dp, i, c, x := dp0, 0, 0, 0;
    cp := start;
    ghost var was, bytes := image[..], data[start..];
    NoneDrawn(was, dp0, ctab, 1, bytes);
    while i < w
      invariant 0 <= i <= w && AtBit(data, start, i, cp, c, x) && Drawn(image[..], was, dp0, dp, ctab, 1, bytes, i)
    {
      var ok;
      ok, dp, c, x, cp := BitTurn(data, start, w, i, cp, c, x, ctab, image, dp0, dp, was);
      if !ok {
        return ReadBehind, cp;
      }
      i := i + 1;
    }
    Stride1(w);
    NoneOut(ctab, 1, bytes, w);
    cp := SkipPadding(cp, (w + 7) / 8);
    end := Complete;
  }

  method BitTurn(data: seq<Byte>, start: nat, ghost w: nat, i: nat, cp0: nat, c0: nat, x0: nat, ctab: seq<Colour>,
                 image: array<Pixel>, ghost dp0: nat, from: nat, ghost was: seq<Pixel>)
      returns (ok: bool, dp: nat, c: nat, x: nat, cp: nat)
    requires i < w && start <= |data| && w <= 8 * (|data| - start) && AtBit(data, start, i, cp0, c0, x0)
    requires Drawn(image[..], was, dp0, from, ctab, 1, data[start..], i) && |was| == image.Length && from < image.Length
    modifies image
    ensures ok ==> AtBit(data, start, i + 1, cp, c, x)
    ensures ok ==> Drawn(image[..], was, dp0, dp, ctab, 1, data[start..], i + 1)
    ensures !ok ==> EndOf(ctab, 1, data[start..], w) == ReadBehind
  {
    var color;
    dp := from;
    color, c, x, cp := TakeBit(data, start, i, cp0, c0, x0);
    ok := color < |ctab|;
    if ok {
      dp := PutColour(image, dp, ctab, color, was, dp0, 1, data[start..], i);
    } else {
      OutHere(ctab, 1, data[start..], w, i);
    }
  }
}
