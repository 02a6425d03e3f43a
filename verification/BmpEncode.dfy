// The rows that encode-bmp writes, and that decode-bmp reads them back (mod-bmp.c).
module BmpEncode {
  import opened Bits
  import opened BmpRows
  import opened BmpRuns
  import opened BmpImage

  // Blue, green, red of the first n pixels.
  function LineBytes(line: seq<Pixel>, n: nat): (r: seq<Byte>)
    requires n <= |line|
    ensures |r| == 3 * n
  {
    if n == 0 then []
    else LineBytes(line, n - 1) + [line[n - 1].blue, line[n - 1].green, line[n - 1].red]
  }

  // A row of the file: padded with zeros to a multiple of four bytes.
  function RowOf(line: seq<Pixel>): (r: seq<Byte>)
    ensures |r| == Stride(|line|, 24)
  {
    LineBytes(line, |line|) + Zeros(Stride(|line|, 24) - 3 * |line|)
  }

  function LineAt(image: seq<Pixel>, w: nat, n: nat): (line: seq<Pixel>)
    requires Times(w, n) + w <= |image|
    ensures |line| == w
  {
    image[Times(w, n)..Times(w, n) + w]
  }

  // The file rows of the first n rows of an image, the last of them first.
  function FileRows(image: seq<Pixel>, w: nat, n: nat): (r: seq<Byte>)
    requires Times(w, n) <= |image|
    ensures |r| == Times(Stride(w, 24), n)
  {
    if n == 0 then [] else RowOf(LineAt(image, w, n - 1)) + FileRows(image, w, n - 1)
  }

  // In plain terms: the pixel x of the image's row y is in the file's row n - 1 - y, blue
  // first, and what is behind the pixels of a row is zero.
  lemma {:induction false} LineBytesAt(line: seq<Pixel>, n: nat, x: nat)
    requires x < n <= |line|
    ensures var r := LineBytes(line, n);
            r[3 * x] == line[x].blue && r[3 * x + 1] == line[x].green && r[3 * x + 2] == line[x].red
    decreases n
  {
    if x < n - 1 {
      LineBytesAt(line, n - 1, x);
    }
  }

  lemma {:induction false} FileRowsAt(image: seq<Pixel>, data: seq<Byte>, start: nat, w: nat, n: nat, y: nat, k: nat,
                                      at: nat)
    requires Times(w, n) <= |image| && y + 1 + k == n && At(data, start, FileRows(image, w, n))
    requires at == start + Times(Stride(w, 24), k)
    ensures Times(w, y) + w <= |image|
    ensures At(data, at, RowOf(LineAt(image, w, y)))
    decreases n
  {
    TimesGrows(w, y + 1, n);
    var m: nat, next := n - 1, start + Stride(w, 24);
    var line := LineAt(image, w, m);
    AtParts(data, start, RowOf(line), FileRows(image, w, m));
    if k > 0 {
      var k': nat := k - 1;
      RowsFurther(Stride(w, 24), start, next, k, k', at);
      FileRowsAt(image, data, next, w, m, y, k', at);
    }
  }

  lemma RowsFurther(size: nat, start: nat, next: nat, k: nat, k': nat, at: nat)
    requires next == start + size && k == k' + 1 && at == start + Times(size, k)
    ensures at == next + Times(size, k')
  {
  }

  // Lines 642-658: one row.
  method EncodeRow(image: array<Pixel>, w: nat, dp0: nat, bmp: array<Byte>, start: nat) returns (cp: nat)
    requires dp0 + w <= image.Length && start + Stride(w, 24) <= bmp.Length
    modifies bmp
    ensures cp == start + Stride(w, 24)
    ensures bmp[..] == Placed(old(bmp[..]), start, RowOf(image[dp0..dp0 + w]))
  {
    ghost var was, line := bmp[..], image[dp0..dp0 + w];
    RowOfIs(line, w);
    cp := EncodePixels(image, w, dp0, bmp, start);
    cp := PutZeros(bmp, cp, w * 3, was, start, LineBytes(line, w));
  }

  lemma RowOfIs(line: seq<Pixel>, w: nat)
    requires |line| == w
    ensures RowOf(line) == LineBytes(line, w) + Zeros((w * 3 + 3) / 4 * 4 - w * 3)
    ensures Stride(w, 24) == (w * 3 + 3) / 4 * 4
  {
    Stride24(w);
  }

  method EncodePixels(image: array<Pixel>, w: nat, dp0: nat, bmp: array<Byte>, start: nat) returns (cp: nat)
    requires dp0 + w <= image.Length && start + 3 * w <= bmp.Length
    modifies bmp
    ensures cp == start + 3 * w
    ensures bmp[..] == Placed(old(bmp[..]), start, LineBytes(image[dp0..dp0 + w], w))
  {
    ghost var was, line := bmp[..], image[dp0..dp0 + w];
    var i, dp := 0, dp0;
    cp := start;
    assert Placed(was, start, []) == was;
    while i < w
      invariant i <= w && dp == dp0 + i && cp == start + 3 * i
      invariant bmp[..] == Placed(was, start, LineBytes(line, i))
    {
      PutTriple(bmp, cp, image[dp], was, start, line, i);
      cp := cp + 3;
      dp := dp + 1;
      i := i + 1;
    }
  }

  method PutTriple(bmp: array<Byte>, cp: nat, p: Pixel, ghost was: seq<Byte>, ghost start: nat, ghost line: seq<Pixel>,
                   ghost i: nat)
    requires i < |line| && p == line[i] && cp == start + 3 * i && cp + 3 <= bmp.Length == |was|
    requires bmp[..] == Placed(was, start, LineBytes(line, i))
    modifies bmp
    ensures bmp[..] == Placed(was, start, LineBytes(line, i + 1))
  {
    bmp[cp] := p.blue;
    bmp[cp + 1] := p.green;
    bmp[cp + 2] := p.red;
    assert LineBytes(line, i + 1) == LineBytes(line, i) + [p.blue, p.green, p.red];
  }

  method PutZeros(bmp: array<Byte>, from: nat, i0: nat, ghost was: seq<Byte>, ghost start: nat, ghost bytes: seq<Byte>)
      returns (cp: nat)
    requires from == start + |bytes| && bmp.Length == |was| && from + (i0 + 3) / 4 * 4 - i0 <= bmp.Length
    requires bmp[..] == Placed(was, start, bytes)
    modifies bmp
    ensures cp == from + (i0 + 3) / 4 * 4 - i0
    ensures bmp[..] == Placed(was, start, bytes + Zeros((i0 + 3) / 4 * 4 - i0))
  {
    var i := i0;
    cp := from;
    while i % 4 != 0
      invariant i0 <= i <= (i0 + 3) / 4 * 4 && cp == from + i - i0
      invariant bmp[..] == Placed(was, start, bytes + Zeros(i - i0))
      decreases (i0 + 3) / 4 * 4 - i
    {
      bmp[cp] := 0;
      assert Zeros(i + 1 - i0) == Zeros(i - i0) + [0];
      cp := cp + 1;
      i := i + 1;
    }
  }

  // Lines 639-660: the rows, bottom-up.
  method EncodeRows(image: array<Pixel>, w: nat, h: nat, bmp: array<Byte>, start: nat) returns (cp: nat)
    requires image.Length == Times(w, h) && start + Times(Stride(w, 24), h) <= bmp.Length
    modifies bmp
    ensures cp == start + Times(Stride(w, 24), h)
    ensures bmp[..] == Placed(old(bmp[..]), start, FileRows(image[..], w, h))
  {
    var y, dp: int := 0, Times(w, h) - w;
    cp := start;
    ghost var n, was, done := h, bmp[..], [];
    EncodingStart(image[..], w, h, was, start);
    while y < h
      invariant y <= h && n == h - y && dp == Times(w, n) - w
      invariant Encoding(image[..], w, h, n, was, bmp[..], start, cp, done)
    {
      cp, n, done := EncodeTurn(image, w, h, dp, bmp, cp, start, n, was, done);
      dp := dp + w - 2 * w;
      y := y + 1;
    }
    EncodingEnd(image[..], w, h, n, was, bmp[..], start, cp, done);
  }

  // Some rows are written, and the first n rows of the image are left.
  ghost predicate Encoding(image: seq<Pixel>, w: nat, h: nat, n: nat, was: seq<Byte>, bmp: seq<Byte>, start: nat,
                           cp: nat, done: seq<Byte>) {
    && n <= h && |image| == Times(w, h) && Times(w, n) <= |image|
    && done + FileRows(image, w, n) == FileRows(image, w, h)
    && cp == start + |done| && start + Times(Stride(w, 24), h) <= |was|
    && bmp == Placed(was, start, done)
  }

  method EncodeTurn(image: array<Pixel>, w: nat, ghost h: nat, dp: nat, bmp: array<Byte>, cp0: nat, ghost start: nat,
                    ghost n: nat, ghost was: seq<Byte>, ghost done0: seq<Byte>)
      returns (cp: nat, ghost n': nat, ghost done: seq<Byte>)
    requires n > 0 && dp == Times(w, n) - w && |was| == bmp.Length
    requires Encoding(image[..], w, h, n, was, bmp[..], start, cp0, done0)
    modifies bmp
    ensures n' == n - 1 && dp == Times(w, n') && Encoding(image[..], w, h, n', was, bmp[..], start, cp, done)
  {
    n' := n - 1;
    LineIs(image[..], w, n, dp);
    TimesGrows(Stride(w, 24), n, h);
    EncodingStep(image[..], w, h, n, was, bmp[..], start, cp0, done0, n');
    cp := EncodeRow(image, w, dp, bmp, cp0);
    done := done0 + RowOf(LineAt(image[..], w, n'));
  }

  lemma LineIs(image: seq<Pixel>, w: nat, n: nat, dp: nat)
    requires n > 0 && dp == Times(w, n) - w && Times(w, n) <= |image|
    ensures LineAt(image, w, n - 1) == image[dp..dp + w]
  {
  }

  lemma EncodingStart(image: seq<Pixel>, w: nat, h: nat, was: seq<Byte>, start: nat)
    requires |image| == Times(w, h) && start + Times(Stride(w, 24), h) <= |was|
    ensures Encoding(image, w, h, h, was, was, start, start, [])
  {
    assert [] + FileRows(image, w, h) == FileRows(image, w, h);
    assert Placed(was, start, []) == was;
  }

  lemma EncodingEnd(image: seq<Pixel>, w: nat, h: nat, n: nat, was: seq<Byte>, bmp: seq<Byte>, start: nat, cp: nat,
                    done: seq<Byte>)
    requires n == 0 && Encoding(image, w, h, n, was, bmp, start, cp, done)
    ensures cp == start + Times(Stride(w, 24), h) && bmp == Placed(was, start, FileRows(image, w, h))
  {
    assert done + FileRows(image, w, n) == done;
  }

  lemma EncodingStep(image: seq<Pixel>, w: nat, h: nat, n: nat, was: seq<Byte>, bmp: seq<Byte>, start: nat,
                     cp: nat, done: seq<Byte>, n': nat)
    requires n > 0 && n' == n - 1 && Encoding(image, w, h, n, was, bmp, start, cp, done)
    ensures var row := RowOf(LineAt(image, w, n'));
            && cp + |row| <= |bmp|
            && Encoding(image, w, h, n', was, Placed(bmp, cp, row), start, cp + |row|, done + row)
  {
    var row, rest := RowOf(LineAt(image, w, n')), FileRows(image, w, n');
    var all := FileRows(image, w, h);
    RowsRegroup(done, row, rest, all);
    PlacedTwice(was, start, done, row);
  }

  lemma RowsRegroup(done: seq<Byte>, row: seq<Byte>, rest: seq<Byte>, all: seq<Byte>)
    requires done + (row + rest) == all
    ensures done + row + rest == all && |done| + |row| <= |all|
  {
    assert done + (row + rest) == done + row + rest;
  }

  lemma PlacedTwice(was: seq<Byte>, start: nat, a: seq<Byte>, b: seq<Byte>)
    requires start + |a| + |b| <= |was|
    ensures Placed(Placed(was, start, a), start + |a|, b) == Placed(was, start, a + b)
  {
  }

  // ---- reading the rows back ------------------------------------------------------

  // The pixels without their alpha.
  function Sealed(line: seq<Pixel>, n: nat): (r: seq<Pixel>)
    requires n <= |line|
    ensures |r| == n
    ensures forall i :: 0 <= i < n ==> r[i] == Pixel(line[i].red, line[i].green, line[i].blue, 255)
  {
    seq(n, i requires 0 <= i < n => Pixel(line[i].red, line[i].green, line[i].blue, 255))
  }

  lemma {:induction false} TriplesBack(line: seq<Pixel>, data: seq<Byte>, start: nat, n: nat)
    requires n <= |line| && At(data, start, LineBytes(line, n))
    ensures Triples(data[start..], n) == Sealed(line, n)
  {
    if n > 0 {
      var before, last := LineBytes(line, n - 1), [line[n - 1].blue, line[n - 1].green, line[n - 1].red];
      AtParts(data, start, before, last);
      TriplesBack(line, data, start, n - 1);
      var bytes := data[start..];
      assert bytes[3 * n - 3] == data[start + |before| + 0] == last[0];
      assert bytes[3 * n - 2] == data[start + |before| + 1] == last[1];
      assert bytes[3 * n - 1] == data[start + |before| + 2] == last[2];
      assert Sealed(line, n) == Sealed(line, n - 1) + [Pixel(last[2], last[1], last[0], 255)];
    }
  }

  // The rows that a decoder finds, for the first n rows of an image.
  function RowsBack(image: seq<Pixel>, w: nat, n: nat, start: nat): (rows: seq<Row>)
    requires Times(w, n) <= |image|
    ensures |rows| == n && AllGood(rows, n)
  {
    if n == 0 then []
    else
      var next := start + Stride(w, 24);
      [Row(Good(Sealed(LineAt(image, w, n - 1), w), next), [], 0)] + RowsBack(image, w, n - 1, next)
  }

  lemma LineBack(line: seq<Pixel>, data: seq<Byte>, start: nat, w: nat)
    requires w == |line| && At(data, start, RowOf(line))
    ensures start + 3 * w <= |data| && Triples(data[start..], w) == Sealed(line, w)
  {
    AtParts(data, start, LineBytes(line, w), Zeros(Stride(w, 24) - 3 * w));
    TriplesBack(line, data, start, w);
  }

  lemma RowBack(line: seq<Pixel>, data: seq<Byte>, start: nat, compression: nat, bits: nat, ctab: seq<Colour>, w: nat,
                next: nat, row: Row)
    requires At(data, start, RowOf(line)) && compression == BI_RGB && bits == 24 && w == |line|
    requires next == start + Stride(w, 24) && row == Row(Good(Sealed(line, w), next), [], 0)
    ensures RowMeans(data, start, compression, bits, ctab, w, row)
  {
    LineBack(line, data, start, w);
  }

  lemma RowsBackCons(image: seq<Pixel>, w: nat, n: nat, start: nat, m: nat, next: nat, line: seq<Pixel>,
                     rest: seq<Row>) returns (first: Row, rows: seq<Row>)
    requires n > 0 && m == n - 1 && next == start + Stride(w, 24) && Times(w, n) <= |image|
    requires line == LineAt(image, w, m) && rest == RowsBack(image, w, m, next)
    ensures first == Row(Good(Sealed(line, w), next), [], 0)
    ensures rows == RowsBack(image, w, n, start) == [first] + rest
  {
    first, rows := Row(Good(Sealed(line, w), next), [], 0), RowsBack(image, w, n, start);
  }

  // A decoder finds the rows that were written.
  lemma {:induction false} RowsFound(image: seq<Pixel>, data: seq<Byte>, start: nat, compression: nat, bits: nat,
                                     ctab: seq<Colour>, w: nat, n: nat)
    requires n > 0 && compression == BI_RGB && bits == 24
    requires Times(w, n) <= |image| && At(data, start, FileRows(image, w, n))
    ensures Rows(data, start, compression, bits, ctab, w, n, RowsBack(image, w, n, start))
    decreases n
  {
    var m: nat, next := n - 1, start + Stride(w, 24);
    var line, rest := LineAt(image, w, m), RowsBack(image, w, m, next);
    var first, rows := RowsBackCons(image, w, n, start, m, next, line, rest);
    AtParts(data, start, RowOf(line), FileRows(image, w, m));
    RowBack(line, data, start, compression, bits, ctab, w, next, first);
    if m > 0 {
      RowsFound(image, data, next, compression, bits, ctab, w, m);
    }
    RowsCons(data, start, compression, bits, ctab, w, n, first, rest, rows);
  }

  lemma {:induction false} StackedCons(first: Row, rest: seq<Row>, k: nat)
    requires first.spec.Good? && k <= |rest| && AllGood(rest, k) && AllGood([first] + rest, k + 1)
    ensures Stacked([first] + rest, k + 1) == Stacked(rest, k) + first.spec.line
  {
    var rows := [first] + rest;
    if k == 0 {
      assert Stacked(rows, k + 1) == first.spec.line + Stacked(rows, k);
    } else {
      StackedCons(first, rest, k - 1);
      assert rows[k] == rest[k - 1];
      assert rest[k - 1].spec.line + (Stacked(rest, k - 1) + first.spec.line)
             == rest[k - 1].spec.line + Stacked(rest, k - 1) + first.spec.line;
    }
  }

  // And they make up the image again.
  lemma {:induction false} StackedBack(image: seq<Pixel>, w: nat, n: nat, start: nat)
    requires Times(w, n) <= |image|
    ensures Stacked(RowsBack(image, w, n, start), n) == Sealed(image, Times(w, n))
    decreases n
  {
    if n > 0 {
      var m: nat, next := n - 1, start + Stride(w, 24);
      var line, rest := LineAt(image, w, m), RowsBack(image, w, m, next);
      var first := Row(Good(Sealed(line, w), next), [], 0);
      assert RowsBack(image, w, n, start) == [first] + rest;
      StackedCons(first, rest, m);
      StackedBack(image, w, m, next);
      SealedSplit(image, w, m);
    }
  }

  lemma SealedSplit(image: seq<Pixel>, w: nat, m: nat)
    requires Times(w, m) + w <= |image|
    ensures Sealed(image, Times(w, m) + w) == Sealed(image, Times(w, m)) + Sealed(LineAt(image, w, m), w)
  {
  }
}
