// The row loops of decode-bmp and encode-bmp: images are stored bottom-up (mod-bmp.c).
module BmpImage {
  import opened Bits
  import opened BmpRows
  import opened BmpRuns

  const BI_RGB := 0
  const BI_RLE8 := 1
  const BI_RLE4 := 2

  // What a row of a file is: a line of pixels and the index after it, the error for a
  // bad file, or a row on which the code reads behind the colour table.
  datatype RowSpec = Good(line: seq<Pixel>, next: nat) | Bad | Behind

  function Ending(spec: RowSpec): RowEnd {
    match spec
    case Good(_, _) => Complete
    case Bad => BadFile
    case Behind => ReadBehind
  }

  // An uncompressed row.
  ghost predicate RgbRow(data: seq<Byte>, start: nat, bits: nat, ctab: seq<Colour>, w: nat, spec: RowSpec) {
    if bits == 24 then
      start + 3 * w <= |data| && spec == Good(Triples(data[start..], w), start + Stride(w, 24))
    else if bits in {1, 4, 8} then
      && start <= |data| && w <= Holds(bits, |data| - start)
      && spec == match EndOf(ctab, bits, data[start..], w)
                 case Complete => Good(Looked(ctab, bits, data[start..], w), start + Stride(w, bits))
                 case BadFile => Bad
                 case ReadBehind => Behind
    else spec == Bad
  }

  // A run-length row of w pixels, or of fewer if it stops early; its runs and marker are given.
  ghost predicate RleRow(data: seq<Byte>, start: nat, bits: nat, ctab: seq<Colour>, w: nat, spec: RowSpec,
                         runs: seq<Run>, marker: Byte) {
    && AreRuns(bits, runs) && marker <= 2 && At(data, start, RowBytes(runs, |runs|, marker))
    && RowLength(runs, |runs|) <= w && (spec.Good? ==> RowLength(runs, |runs|) == w)
    && spec == match RunsEnd(ctab, bits, runs, marker)
               case Complete => Good(Expansion(ctab, bits, runs, |runs|), start + |RowBytes(runs, |runs|, marker)|)
               case BadFile => Bad
               case ReadBehind => Behind
  }

  datatype Row = Row(spec: RowSpec, runs: seq<Run>, marker: Byte)

  ghost predicate RowMeans(data: seq<Byte>, start: nat, compression: nat, bits: nat, ctab: seq<Colour>, w: nat,
                           row: Row) {
    if compression == BI_RGB then RgbRow(data, start, bits, ctab, w, row.spec)
    else if compression == BI_RLE4 then RleRow(data, start, 4, ctab, w, row.spec, row.runs, row.marker)
    else if compression == BI_RLE8 then RleRow(data, start, 8, ctab, w, row.spec, row.runs, row.marker)
    else row.spec == Bad
  }

  // Two rows of runs, byte by byte: three pixels of 1, 15 and 1, then five of 1 to 5 with a
  // byte to skip; and two pixels of 7, then three of 1, 2 and 3 with a byte to skip.
  lemma RunsOfFour(ctab: seq<Colour>, bits: nat, line: seq<Pixel>)
    requires |ctab| == 16
    requires line == Pixels(ctab, [1, 15, 1]) + Pixels(ctab, [1, 2, 3, 4, 5])
    ensures RowMeans([3, 0x1F, 0, 5, 0x12, 0x34, 0x50, 0xAA, 0, 0], 0, 2, bits, ctab, 8,
                     Row(Good(line, 10), [Repeat(3, 0x1F), Literal(5, [0x12, 0x34, 0x50], 0xAA)], 0))
  {
    var r, l := Repeat(3, 0x1F), Literal(5, [0x12, 0x34, 0x50], 0xAA);
    RunPixels(ctab, 4, r, [1, 15, 1]);
    RunPixels(ctab, 4, l, [1, 2, 3, 4, 5]);
    TwoRuns(ctab, 4, r, l, 0, line);
    assert RunBytes(r) + (RunBytes(l) + [0, 0]) == [3, 0x1F, 0, 5, 0x12, 0x34, 0x50, 0xAA, 0, 0];
  }

  lemma RunsOfEight(ctab: seq<Colour>, bits: nat, line: seq<Pixel>)
    requires |ctab| == 16 && line == Pixels(ctab, [7, 7]) + Pixels(ctab, [1, 2, 3])
    ensures RowMeans([2, 7, 0, 3, 1, 2, 3, 0xAA, 0, 1], 0, 1, bits, ctab, 5,
                     Row(Good(line, 10), [Repeat(2, 7), Literal(3, [1, 2, 3], 0xAA)], 1))
  {
    var r, l := Repeat(2, 7), Literal(3, [1, 2, 3], 0xAA);
    RunPixels(ctab, 8, r, [7, 7]);
    RunPixels(ctab, 8, l, [1, 2, 3]);
    TwoRuns(ctab, 8, r, l, 1, line);
    assert RunBytes(r) + (RunBytes(l) + [0, 1]) == [2, 7, 0, 3, 1, 2, 3, 0xAA, 0, 1];
  }

  // The pixels of some values.
  function Pixels(ctab: seq<Colour>, values: seq<nat>): (line: seq<Pixel>)
    requires forall i :: 0 <= i < |values| ==> values[i] < |ctab|
    ensures |line| == |values| && forall i :: 0 <= i < |values| ==> line[i] == Opaque(ctab[values[i]])
  {
    seq(|values|, i requires 0 <= i < |values| => Opaque(ctab[values[i]]))
  }

  lemma RunPixels(ctab: seq<Colour>, bits: nat, r: Run, values: seq<nat>)
    requires IsRun(bits, r) && |values| == r.count
    requires forall i :: 0 <= i < |values| ==> values[i] == RunValue(bits, r, i) < |ctab|
    ensures RunInTable(ctab, bits, r, r.count) && Expanded(ctab, bits, r, r.count) == Pixels(ctab, values)
  {
    forall j: nat | j < r.count
      ensures Expanded(ctab, bits, r, r.count)[j] == Opaque(ctab[values[j]])
    {
      ExpandedAt(ctab, bits, r, r.count, j);
    }
  }

  lemma TwoRuns(ctab: seq<Colour>, bits: nat, a: Run, b: Run, marker: Byte, line: seq<Pixel>)
    requires IsRun(bits, a) && IsRun(bits, b) && marker < 2
    requires RunInTable(ctab, bits, a, a.count) && RunInTable(ctab, bits, b, b.count)
    requires line == Expanded(ctab, bits, a, a.count) + Expanded(ctab, bits, b, b.count)
    ensures var bytes := RunBytes(a) + (RunBytes(b) + [0, marker]);
            RleRow(bytes, 0, bits, ctab, |line|, Good(line, |bytes|), [a, b], marker)
  {
    var runs := [a, b];
    TwoRunBytes(runs, a, b, marker);
    TwoRunPixels(ctab, bits, runs, a, b);
    Whole(RunBytes(a) + (RunBytes(b) + [0, marker]));
  }

  lemma Whole(bytes: seq<Byte>)
    ensures At(bytes, 0, bytes)
  {
  }

  lemma TwoRunBytes(runs: seq<Run>, a: Run, b: Run, marker: Byte)
    requires runs == [a, b]
    ensures RowBytes(runs, 2, marker) == RunBytes(a) + (RunBytes(b) + [0, marker])
  {
    assert RowBytes(runs, 0, marker) == [0, marker];
    assert RowBytes(runs, 1, marker) == RunBytes(b) + [0, marker];
  }

  lemma TwoRunPixels(ctab: seq<Colour>, bits: nat, runs: seq<Run>, a: Run, b: Run)
    requires runs == [a, b] && IsRun(bits, a) && IsRun(bits, b)
    requires RunInTable(ctab, bits, a, a.count) && RunInTable(ctab, bits, b, b.count)
    ensures AreRuns(bits, runs) && AllIn(ctab, bits, runs, 2)
    ensures RowLength(runs, 2) == a.count + b.count
    ensures Expansion(ctab, bits, runs, 2) == Expanded(ctab, bits, a, a.count) + Expanded(ctab, bits, b, b.count)
  {
    assert IsIn(ctab, bits, runs, 0) && IsIn(ctab, bits, runs, 1);
    assert RowLength(runs, 1) == a.count && Expansion(ctab, bits, runs, 0) == [];
    assert [] + Expanded(ctab, bits, a, a.count) == Expanded(ctab, bits, a, a.count);
    assert Expansion(ctab, bits, runs, 1) == Expanded(ctab, bits, a, a.count);
  }

  // Lines 402-561: one row.
  method DecodeRow(data: seq<Byte>, start: nat, compression: nat, bits: nat, ctab: seq<Colour>, w: nat,
                   image: array<Pixel>, dp: nat, ghost row: Row) returns (end: RowEnd, cp: nat)
    requires w > 0 && dp + w <= image.Length && RowMeans(data, start, compression, bits, ctab, w, row)
    modifies image
    ensures end == Ending(row.spec)
    ensures end == Complete ==> |row.spec.line| == w && cp == row.spec.next
    ensures end == Complete ==> image[..] == Placed(old(image[..]), dp, row.spec.line)
  {
    end, cp := Complete, start;
    if compression == BI_RGB {
      if bits == 1 {
        end, cp := Row1(data, start, w, ctab, image, dp);
      } else if bits == 4 {
        end, cp := Row4(data, start, w, ctab, image, dp);
      } else if bits == 8 {
        end, cp := Row8(data, start, w, ctab, image, dp);
      } else if bits == 24 {
        cp := Row24(data, start, w, image, dp);
      } else {
        end := BadFile;
      }
    } else if compression == BI_RLE4 {
      end, cp := RunRow(data, start, 4, w, ctab, image, dp, row.runs, row.marker);
    } else if compression == BI_RLE8 {
      end, cp := RunRow(data, start, 8, w, ctab, image, dp, row.runs, row.marker);
    } else {
      end := BadFile;
    }
  }

  // ---- bottom-up ----------------------------------------------------------------

  // The image whose first n file rows, from the bottom up, are these.
  function Stacked(rows: seq<Row>, n: nat): seq<Pixel>
    requires n <= |rows| && AllGood(rows, n)
  {
    if n == 0 then [] else rows[n - 1].spec.line + Stacked(rows, n - 1)
  }

  // The first row of the file is the last of the image: the pixel x of the image's row y is
  // that of the file's row n - 1 - y.
  lemma {:induction false} StackedAt(rows: seq<Row>, n: nat, w: nat, y: nat, x: nat)
    requires n <= |rows| && AllGood(rows, n) && y < n && x < w
    requires forall k :: 0 <= k < n ==> |rows[k].spec.line| == w
    ensures |Stacked(rows, n)| == Times(w, n) && w * y + x < Times(w, n)
    ensures Stacked(rows, n)[w * y + x] == rows[n - 1 - y].spec.line[x]
    decreases n
  {
    StackedLength(rows, n, w);
    TimesGrows(w, y + 1, n);
    TimesIsProduct(w, y);
    if y > 0 {
      StackedAt(rows, n - 1, w, y - 1, x);
      Distribute(w, y, -1);
      assert Stacked(rows, n) == rows[n - 1].spec.line + Stacked(rows, n - 1);
    }
  }

  lemma {:induction false} StackedLength(rows: seq<Row>, n: nat, w: nat)
    requires n <= |rows| && AllGood(rows, n)
    requires forall k :: 0 <= k < n ==> |rows[k].spec.line| == w
    ensures |Stacked(rows, n)| == Times(w, n)
    decreases n
  {
    if n > 0 {
      StackedLength(rows, n - 1, w);
    }
  }

  predicate AllGood(rows: seq<Row>, n: nat) {
    forall y :: 0 <= y < n <= |rows| ==> rows[y].spec.Good?
  }

  // The rows of a file one after another; only the last may be other than good.
  ghost predicate Rows(data: seq<Byte>, start: nat, compression: nat, bits: nat, ctab: seq<Colour>, w: nat, h: nat,
                       rows: seq<Row>)
  {
    && 0 < |rows| <= h && (|rows| == h || !rows[|rows| - 1].spec.Good?)
    && AllGood(rows, |rows| - 1)
    && forall y {:trigger RowThere(data, start, compression, bits, ctab, w, rows, y)} :: 0 <= y < |rows| ==>
        RowThere(data, start, compression, bits, ctab, w, rows, y)
  }

  ghost predicate RowThere(data: seq<Byte>, start: nat, compression: nat, bits: nat, ctab: seq<Colour>, w: nat,
                           rows: seq<Row>, y: nat)
    requires y < |rows| && AllGood(rows, |rows| - 1)
  {
    RowMeans(data, StartOf(rows, start, y), compression, bits, ctab, w, rows[y])
  }

  function StartOf(rows: seq<Row>, start: nat, y: nat): nat
    requires y < |rows| && AllGood(rows, |rows| - 1)
  {
    if y == 0 then start else rows[y - 1].spec.next
  }

  // Lines 394-563: the loop over the rows.
  method DecodeRows(data: seq<Byte>, start: nat, compression: nat, bits: nat, ctab: seq<Colour>, w: nat, h: nat,
                    image: array<Pixel>, ghost rows: seq<Row>) returns (end: RowEnd)
    requires w > 0 && image.Length == w * h && Rows(data, start, compression, bits, ctab, w, h, rows)
    modifies image
    ensures end == Ending(rows[|rows| - 1].spec)
    ensures end == Complete ==> |rows| == h && image[..] == Stacked(rows, h)
  {
    TimesIsProduct(w, h);
    end := RowsLoop(data, start, compression, bits, ctab, w, h, w * h, image, rows);
  }

  method RowsLoop(data: seq<Byte>, start: nat, compression: nat, bits: nat, ctab: seq<Colour>, w: nat, h: nat,
                  size: nat, image: array<Pixel>, ghost rows: seq<Row>) returns (end: RowEnd)
    requires w > 0 && image.Length == size == Times(w, h) && Rows(data, start, compression, bits, ctab, w, h, rows)
    modifies image
    ensures end == Ending(rows[|rows| - 1].spec)
    ensures end == Complete ==> |rows| == h && image[..] == Stacked(rows, h)
  {
    var y, cp, dp: int := 0, start, size - w;
    ghost var n: nat := h;
    end := Complete;
    AtFirstRow(image[..], data, start, compression, bits, ctab, w, h, rows);
    while y < h
      invariant end == Complete && AtRow(image[..], rows, start, w, h, y, n, cp, dp)
    {
      end, cp := RowsTurn(data, cp, compression, bits, ctab, w, h, image, dp, start, rows, y, n);
      if end != Complete {
        return;
      }
      dp := dp + w - 2 * w;
      y, n := y + 1, n - 1;
    }
    AtTop(image[..], rows, start, w, h, y, n, cp, dp);
  }

  lemma AtFirstRow(image: seq<Pixel>, data: seq<Byte>, start: nat, compression: nat, bits: nat, ctab: seq<Colour>,
                   w: nat, h: nat, rows: seq<Row>)
    requires |image| == Times(w, h) && Rows(data, start, compression, bits, ctab, w, h, rows)
    ensures AtRow(image, rows, start, w, h, 0, h, start, Times(w, h) - w)
  {
  }

  lemma AtTop(image: seq<Pixel>, rows: seq<Row>, start: nat, w: nat, h: nat, y: nat, n: nat, cp: nat, dp: int)
    requires y >= h > 0 && AtRow(image, rows, start, w, h, y, n, cp, dp)
    ensures |rows| == h && AllGood(rows, h) && rows[|rows| - 1].spec.Good? && image == Stacked(rows, h)
  {
  }

  // y file rows are drawn, the last n are ahead.
  ghost predicate AtRow(image: seq<Pixel>, rows: seq<Row>, start: nat, w: nat, h: nat, y: nat, n: nat, cp: nat,
                        dp: int) {
    && y + n == h && dp == Times(w, n) - w && (n > 0 ==> dp >= 0) && Below(image, rows, w, n, y)
    && if n == 0 then |rows| == h else y < |rows| && AllGood(rows, |rows| - 1) && cp == StartOf(rows, start, y)
  }

  method RowsTurn(data: seq<Byte>, cp0: nat, compression: nat, bits: nat, ctab: seq<Colour>, w: nat, ghost h: nat,
                  image: array<Pixel>, dp: nat, ghost start: nat, ghost rows: seq<Row>, ghost y: nat,
                  ghost n: nat) returns (end: RowEnd, cp: nat)
    requires w > 0 && n > 0 && image.Length == Times(w, h)
    requires Rows(data, start, compression, bits, ctab, w, h, rows)
    requires AtRow(image[..], rows, start, w, h, y, n, cp0, dp)
    modifies image
    ensures end != Complete ==> end == Ending(rows[|rows| - 1].spec)
    ensures end == Complete ==> AtRow(image[..], rows, start, w, h, y + 1, n - 1, cp, dp - w)
  {
    ghost var was := image[..];
    TimesGrows(w, n, h);
    RowAt(data, start, compression, bits, ctab, w, h, rows, y);
    end, cp := DecodeRow(data, cp0, compression, bits, ctab, w, image, dp, rows[y]);
    if end == Complete {
      RowBelow(was, image[..], rows, w, n, y);
    }
  }

  lemma RowAt(data: seq<Byte>, start: nat, compression: nat, bits: nat, ctab: seq<Colour>, w: nat, h: nat,
              rows: seq<Row>, y: nat)
    requires Rows(data, start, compression, bits, ctab, w, h, rows) && y < |rows|
    ensures RowMeans(data, StartOf(rows, start, y), compression, bits, ctab, w, rows[y])
    ensures if rows[y].spec.Good? then y + 1 == h || y + 1 < |rows| else |rows| == y + 1
  {
    assert RowThere(data, start, compression, bits, ctab, w, rows, y);
  }

  // y file rows stand below the first n rows of the image.
  ghost predicate Below(image: seq<Pixel>, rows: seq<Row>, w: nat, n: nat, y: nat) {
    && y <= |rows| && AllGood(rows, y)
    && Times(w, n) <= |image| && image[Times(w, n)..] == Stacked(rows, y)
  }

  lemma RowBelow(was: seq<Pixel>, image: seq<Pixel>, rows: seq<Row>, w: nat, n: nat, y: nat)
    requires n > 0 && Below(was, rows, w, n, y) && y < |rows| && rows[y].spec.Good? && |rows[y].spec.line| == w
    requires image == Placed(was, Times(w, n) - w, rows[y].spec.line)
    ensures Below(image, rows, w, n - 1, y + 1)
  {
    TailPlaced(was, Times(w, n) - w, rows[y].spec.line);
  }

  lemma TailPlaced(was: seq<Pixel>, at: nat, line: seq<Pixel>)
    requires at + |line| <= |was|
    ensures Placed(was, at, line)[at..] == line + was[at + |line|..]
  {
  }

  // ---- every uncompressed image has rows --------------------------------------------

  // One more row before the others.
  lemma RowsCons(data: seq<Byte>, start: nat, compression: nat, bits: nat, ctab: seq<Colour>, w: nat, n: nat,
                 first: Row, rest: seq<Row>, rows: seq<Row>)
    requires RowMeans(data, start, compression, bits, ctab, w, first) && first.spec.Good?
    requires n > 0 && rows == [first] + rest
    requires if n == 1 then rest == [] else Rows(data, first.spec.next, compression, bits, ctab, w, n - 1, rest)
    ensures Rows(data, start, compression, bits, ctab, w, n, rows)
  {
    assert AllGood(rows, |rows| - 1);
    forall y | 0 <= y < |rows|
      ensures RowThere(data, start, compression, bits, ctab, w, rows, y)
    {
      if y > 0 {
        LaterRow(start, first, rest, rows, y);
        RowAt(data, first.spec.next, compression, bits, ctab, w, n - 1, rest, y - 1);
      }
    }
  }

  lemma LaterRow(start: nat, first: Row, rest: seq<Row>, rows: seq<Row>, y: nat)
    requires rows == [first] + rest && 0 < y < |rows| && first.spec.Good? && AllGood(rows, |rows| - 1)
    ensures AllGood(rest, |rest| - 1) && rows[y] == rest[y - 1]
    ensures StartOf(rows, start, y) == StartOf(rest, first.spec.next, y - 1)
  {
    assert forall k :: 0 <= k < |rest| - 1 ==> rest[k] == rows[k + 1];
  }

  lemma OneRow(data: seq<Byte>, start: nat, bits: nat, ctab: seq<Colour>, w: nat) returns (row: Row)
    requires start + Stride(w, bits) <= |data|
    ensures RowMeans(data, start, BI_RGB, bits, ctab, w, row)
    ensures row.spec.Good? ==> row.spec.next == start + Stride(w, bits)
  {
    Stride1(w);
    Stride4(w);
    Stride8(w);
    Stride24(w);
    var bytes := data[start..];
    var spec := Bad;
    if bits == 24 {
      spec := Good(Triples(bytes, w), start + Stride(w, bits));
    } else if bits in {1, 4, 8} {
      match EndOf(ctab, bits, bytes, w) {
        case Complete => spec := Good(Looked(ctab, bits, bytes, w), start + Stride(w, bits));
        case BadFile =>
        case ReadBehind => spec := Behind;
      }
    }
    row := Row(spec, [], 0);
  }

  // Uncompressed rows of any bits, colour table and size, if the data is long enough.
  lemma {:induction false} RowsExist(data: seq<Byte>, start: nat, bits: nat, ctab: seq<Colour>, w: nat, n: nat)
      returns (rows: seq<Row>)
    requires n > 0 && start + Times(Stride(w, bits), n) <= |data|
    ensures Rows(data, start, BI_RGB, bits, ctab, w, n, rows)
    decreases n
  {
    var m: nat, rest := n - 1, [];
    var first := OneRow(data, start, bits, ctab, w);
    if first.spec.Good? {
      if m > 0 {
        rest := RowsExist(data, first.spec.next, bits, ctab, w, m);
      }
      rows := [first] + rest;
      RowsCons(data, start, BI_RGB, bits, ctab, w, n, first, rest, rows);
    } else {
      rows := [first];
    }
  }
}
