// Run-length rows of a BMP image (BI_RLE4 and BI_RLE8, mod-bmp.c).
module BmpRuns {
  import opened Bits
  import opened BmpRows

  // A run as a BMP file has it: one byte repeated, or values spelled out and
  // padded to an even number of bytes.
  datatype Run =
    | Repeat(count: Byte, byte: Byte)
    | Literal(count: Byte, bytes: seq<Byte>, pad: Byte)

  predicate IsRun(bits: nat, r: Run) {
    && bits in {4, 8}
    && match r
       case Repeat(n, _) => 1 <= n
       case Literal(n, bytes, _) => 3 <= n && |bytes| == Packed(bits, n)
  }

  function Packed(bits: nat, n: nat): nat {
    if bits == 4 then (n + 1) / 2 else n
  }

  function RunBytes(r: Run): seq<Byte> {
    match r
    case Repeat(n, b) => [n, b]
    case Literal(n, bytes, pad) => [0, n] + (bytes + if |bytes| % 2 == 1 then [pad] else [])
  }

  function RunValue(bits: nat, r: Run, j: nat): nat
    requires IsRun(bits, r) && j < r.count
  {
    match r
    case Repeat(_, b) => if bits == 4 then Nibble(b, j) else b
    case Literal(_, bytes, _) => Value(bits, bytes, j)
  }

  // The first n values of a run have entries.
  predicate RunInTable(ctab: seq<Colour>, bits: nat, r: Run, n: nat)
    requires IsRun(bits, r) && n <= r.count
  {
    forall j :: 0 <= j < n ==> RunValue(bits, r, j) < |ctab|
  }

  // The first n pixels of a run.
  function Expanded(ctab: seq<Colour>, bits: nat, r: Run, n: nat): (line: seq<Pixel>)
    requires IsRun(bits, r) && n <= r.count && RunInTable(ctab, bits, r, n)
    ensures |line| == n
  {
    if n == 0 then [] else Expanded(ctab, bits, r, n - 1) + [Opaque(ctab[RunValue(bits, r, n - 1)])]
  }

  // Its j-th pixel is the entry of the j-th value.
  lemma {:induction false} ExpandedAt(ctab: seq<Colour>, bits: nat, r: Run, n: nat, j: nat)
    requires IsRun(bits, r) && j < n <= r.count && RunInTable(ctab, bits, r, n)
    ensures Expanded(ctab, bits, r, n)[j] == Opaque(ctab[RunValue(bits, r, j)])
    decreases n
  {
    if j < n - 1 {
      ExpandedAt(ctab, bits, r, n - 1, j);
    }
  }

  // In plain terms: of a repeated byte the high half comes first in rows of four bits; and
  // values spelled out are those of an uncompressed row.
  lemma RunValuesAre(r: Run, j: nat)
    ensures IsRun(4, r) && r.Repeat? && 2 * j < r.count ==> RunValue(4, r, 2 * j) == r.byte / 16
    ensures IsRun(4, r) && r.Repeat? && 2 * j + 1 < r.count ==> RunValue(4, r, 2 * j + 1) == r.byte % 16
    ensures IsRun(4, r) && r.Literal? && 2 * j < r.count ==> RunValue(4, r, 2 * j) == r.bytes[j] / 16
    ensures IsRun(4, r) && r.Literal? && 2 * j + 1 < r.count ==> RunValue(4, r, 2 * j + 1) == r.bytes[j] % 16
    ensures IsRun(8, r) && j < r.count ==> RunValue(8, r, j) == if r.Repeat? then r.byte else r.bytes[j]
  {
  }

  predicate AreRuns(bits: nat, runs: seq<Run>) {
    forall i {:trigger IsRun(bits, runs[i])} :: 0 <= i < |runs| ==> IsRun(bits, runs[i])
  }

  // All values of the first k runs have entries.
  predicate AllIn(ctab: seq<Colour>, bits: nat, runs: seq<Run>, k: nat)
    requires AreRuns(bits, runs) && k <= |runs|
  {
    forall i {:trigger IsIn(ctab, bits, runs, i)} :: 0 <= i < k ==> IsIn(ctab, bits, runs, i)
  }

  predicate IsIn(ctab: seq<Colour>, bits: nat, runs: seq<Run>, i: nat)
    requires AreRuns(bits, runs) && i < |runs|
  {
    RunInTable(ctab, bits, runs[i], runs[i].count)
  }

  // The number of pixels in the first k runs.
  function RowLength(runs: seq<Run>, k: nat): nat
    requires k <= |runs|
  {
    if k == 0 then 0 else RowLength(runs, k - 1) + runs[k - 1].count
  }

  // The plain expansion of the first k runs of a row.
  function Expansion(ctab: seq<Colour>, bits: nat, runs: seq<Run>, k: nat): (line: seq<Pixel>)
    requires AreRuns(bits, runs) && k <= |runs| && AllIn(ctab, bits, runs, k)
    ensures |line| == RowLength(runs, k)
  {
    if k == 0 then []
    else
      assert IsIn(ctab, bits, runs, k - 1);
      Expansion(ctab, bits, runs, k - 1) + Expanded(ctab, bits, runs[k - 1], runs[k - 1].count)
  }

  // How reading the runs and their marker ends. Nothing checks the values.
  function RunsEnd(ctab: seq<Colour>, bits: nat, runs: seq<Run>, marker: Byte): (end: RowEnd)
    requires AreRuns(bits, runs)
    ensures end != ReadBehind ==> AllIn(ctab, bits, runs, |runs|)
  {
    if !AllIn(ctab, bits, runs, |runs|) then ReadBehind else if marker == 2 then BadFile else Complete
  }

  // The bytes of the last n runs of a row, then 0 and a marker.
  function RowBytes(runs: seq<Run>, n: nat, marker: Byte): seq<Byte>
    requires n <= |runs|
  {
    if n == 0 then [0, marker] else RunBytes(runs[|runs| - n]) + RowBytes(runs, n - 1, marker)
  }

  // The bytes stand in the file at this index.
  ghost predicate At(data: seq<Byte>, cp: nat, bytes: seq<Byte>) {
    cp + |bytes| <= |data| && data[cp..cp + |bytes|] == bytes
  }

  lemma AtParts(data: seq<Byte>, cp: nat, a: seq<Byte>, b: seq<Byte>)
    requires At(data, cp, a + b)
    ensures At(data, cp, a) && At(data, cp + |a|, b)
  {
    assert data[cp..cp + |a + b|][..|a|] == a && data[cp..cp + |a + b|][|a|..] == b;
  }

  lemma ExpandedStep(ctab: seq<Colour>, bits: nat, r: Run, j: nat, line: seq<Pixel>)
    requires IsRun(bits, r) && j < r.count && RunInTable(ctab, bits, r, j) && RunValue(bits, r, j) < |ctab|
    ensures RunInTable(ctab, bits, r, j + 1)
    ensures line + Expanded(ctab, bits, r, j + 1)
            == line + Expanded(ctab, bits, r, j) + [Opaque(ctab[RunValue(bits, r, j)])]
  {
  }

  // j pixels of a run are drawn behind a line.
  ghost predicate RunDrawn(image: seq<Pixel>, was: seq<Pixel>, dp0: nat, dp: nat, line: seq<Pixel>, ctab: seq<Colour>,
                           bits: nat, run: Run, j: nat) {
    && IsRun(bits, run) && j <= run.count && RunInTable(ctab, bits, run, j)
    && dp == dp0 + |line| + j <= |was|
    && image == Placed(was, dp0, line + Expanded(ctab, bits, run, j))
  }

  method PutEntry(image: array<Pixel>, from: nat, ctab: seq<Colour>, x: nat, ghost was: seq<Pixel>, ghost dp0: nat,
                  ghost line: seq<Pixel>, ghost bits: nat, ghost run: Run, ghost j: nat) returns (ok: bool, dp: nat)
    requires RunDrawn(image[..], was, dp0, from, line, ctab, bits, run, j) && j < run.count
    requires x == RunValue(bits, run, j) && |was| == image.Length && from < image.Length
    modifies image
    ensures ok ==> RunDrawn(image[..], was, dp0, dp, line, ctab, bits, run, j + 1)
    ensures !ok ==> !RunInTable(ctab, bits, run, run.count)
  {
    ok, dp := x < |ctab|, from;
    if ok {
      ExpandedStep(ctab, bits, run, j, line);
      dp := Put(image, from, Opaque(ctab[x]), was, dp0, line + Expanded(ctab, bits, run, j));
    }
  }

  // Lines 505-518, 547-554: a byte repeated; not ok if a value is looked up that has no entry.
  method PutRepeat(bits: nat, ctab: seq<Colour>, run: Run, image: array<Pixel>, start: nat,
                   ghost was: seq<Pixel>, ghost dp0: nat, ghost line: seq<Pixel>) returns (ok: bool, dp: nat)
    requires run.Repeat? && IsRun(bits, run) && |was| == image.Length
    requires start == dp0 + |line| && start + run.count <= image.Length && image[..] == Placed(was, dp0, line)
    modifies image
    ensures ok <==> RunInTable(ctab, bits, run, run.count)
    ensures ok ==> dp == start + run.count
    ensures ok ==> image[..] == Placed(was, dp0, line + Expanded(ctab, bits, run, run.count))
  {
    ok, dp := true, start;
    var j := 0;
    assert line + Expanded(ctab, bits, run, 0) == line;
    while j < run.count
      invariant 0 <= j <= run.count && RunDrawn(image[..], was, dp0, dp, line, ctab, bits, run, j)
    {
      var x := if bits == 4 then Nibble(run.byte, j) else run.byte;
      ok, dp := PutEntry(image, dp, ctab, x, was, dp0, line, bits, run, j);
      if !ok {
        return;
      }
      j := j + 1;
    }
    ok := true;
  }

  // Lines 486-502, 535-544: values spelled out, then padding to an even number of bytes.
  method PutLiteral(data: seq<Byte>, cp0: nat, bits: nat, ctab: seq<Colour>, count: nat, ghost run: Run,
                    image: array<Pixel>, start: nat, ghost was: seq<Pixel>, ghost dp0: nat, ghost line: seq<Pixel>)
      returns (ok: bool, cp: nat, dp: nat)
    requires run.Literal? && IsRun(bits, run) && count == run.count && |was| == image.Length
    requires At(data, cp0, run.bytes)
    requires start == dp0 + |line| && start + count <= image.Length && image[..] == Placed(was, dp0, line)
    modifies image
    ensures ok <==> RunInTable(ctab, bits, run, count)
    ensures ok ==> dp == start + count && cp == cp0 + |run.bytes| + |run.bytes| % 2
    ensures ok ==> image[..] == Placed(was, dp0, line + Expanded(ctab, bits, run, count))
  {
    ok, cp, dp := true, cp0, start;
    var j, x := 0, 0;
    assert line + Expanded(ctab, bits, run, 0) == line;
    while j < count
      invariant 0 <= j <= count && AtLiteral(bits, run, cp0, cp, j, x)
      invariant RunDrawn(image[..], was, dp0, dp, line, ctab, bits, run, j)
    {
      var color;
      color, x, cp := TakeValue(data, cp, bits, j, x, cp0, run);
      ok, dp := PutEntry(image, dp, ctab, color, was, dp0, line, bits, run, j);
      if !ok {
        return;
      }
      j := j + 1;
    }
    ok := true;
    if Packed(bits, count) % 2 == 1 {
      cp := cp + 1;
    }
  }

  // After j values: in a row of nibbles, x is the byte in use.
  ghost predicate AtLiteral(bits: nat, run: Run, cp0: nat, cp: nat, j: nat, x: nat) {
    && run.Literal? && cp == cp0 + Packed(bits, j)
    && (bits == 4 && j % 2 == 1 ==> j / 2 < |run.bytes| && x == run.bytes[j / 2])
  }

  method TakeValue(data: seq<Byte>, cp1: nat, bits: nat, j: nat, x0: nat, ghost cp0: nat, ghost run: Run)
      returns (color: nat, x: nat, cp: nat)
    requires IsRun(bits, run) && j < run.count && AtLiteral(bits, run, cp0, cp1, j, x0) && At(data, cp0, run.bytes)
    ensures color == RunValue(bits, run, j) && AtLiteral(bits, run, cp0, cp, j + 1, x)
  {
    x, cp := x0, cp1;
    if bits == 8 || j % 2 == 0 {
      x := data[cp];
      cp := cp + 1;
    }
    color := if bits == 8 then x else if j % 2 == 0 then x / 16 else x % 16;
  }

  // A row of runs, from line 475 or 524. Marker 0 or 1 ends it; 2 is not supported.
  method RunRow(data: seq<Byte>, start: nat, bits: nat, w: nat, ctab: seq<Colour>, image: array<Pixel>, dp0: nat,
                ghost runs: seq<Run>, ghost marker: Byte) returns (end: RowEnd, cp: nat)
    requires bits in {4, 8} && w > 0 && marker <= 2 && AreRuns(bits, runs)
    requires At(data, start, RowBytes(runs, |runs|, marker))
    requires dp0 + RowLength(runs, |runs|) <= image.Length
    modifies image
    ensures end == RunsEnd(ctab, bits, runs, marker)
    ensures end == Complete ==> cp == start + |RowBytes(runs, |runs|, marker)|
    ensures end != ReadBehind ==> image[..] == Placed(old(image[..]), dp0, Expansion(ctab, bits, runs, |runs|))
  {
    var dp := dp0;
    cp := start;
    ghost var k: nat, n: nat, was, stop := 0, |runs|, image[..], start + |RowBytes(runs, |runs|, marker)|;
    RowStart(was, dp0, data, start, stop, ctab, bits, runs, marker, n);
    while true
      invariant RowState(image[..], was, dp0, dp, data, cp, stop, ctab, bits, runs, marker, k, n)
      decreases n
    {
      var last;
      last, end, cp, dp, k, n := RowTurn(data, cp, bits, ctab, image, dp, was, dp0, stop, runs, marker, k, n);
      if last {
        return;
      }
    }
  }

  // k runs are written, and the other n are ahead.
  ghost predicate RowState(image: seq<Pixel>, was: seq<Pixel>, dp0: nat, dp: nat, data: seq<Byte>, cp: nat, stop: nat,
                           ctab: seq<Colour>, bits: nat, runs: seq<Run>, marker: Byte, k: nat, n: nat) {
    && k + n == |runs| && AreRuns(bits, runs) && AllIn(ctab, bits, runs, k)
    && InRow(data, cp, stop, runs, marker, n)
    && dp == dp0 + RowLength(runs, k) <= |was|
    && image == Placed(was, dp0, Expansion(ctab, bits, runs, k))
  }

  lemma RowStart(image: seq<Pixel>, dp: nat, data: seq<Byte>, cp: nat, stop: nat, ctab: seq<Colour>, bits: nat,
                 runs: seq<Run>, marker: Byte, n: nat)
    requires AreRuns(bits, runs) && n == |runs| && InRow(data, cp, stop, runs, marker, n) && dp <= |image|
    ensures RowState(image, image, dp, dp, data, cp, stop, ctab, bits, runs, marker, 0, n)
  {
    assert Placed(image, dp, []) == image;
  }

  method RowTurn(data: seq<Byte>, cp0: nat, bits: nat, ctab: seq<Colour>, image: array<Pixel>, from: nat,
                 ghost was: seq<Pixel>, ghost dp0: nat, ghost stop: nat, ghost runs: seq<Run>, ghost marker: Byte,
                 ghost k: nat, ghost n: nat)
      returns (last: bool, end: RowEnd, cp: nat, dp: nat, ghost k': nat, ghost n': nat)
    requires bits in {4, 8} && marker <= 2 && |was| == image.Length
    requires RowState(image[..], was, dp0, from, data, cp0, stop, ctab, bits, runs, marker, k, n)
    requires dp0 + RowLength(runs, |runs|) <= image.Length
    modifies image
    ensures last ==> end == RunsEnd(ctab, bits, runs, marker)
    ensures last && end != ReadBehind ==> cp == stop && RowDone(image[..], was, dp0, ctab, bits, runs)
    ensures !last ==> n' < n
    ensures !last ==> RowState(image[..], was, dp0, dp, data, cp, stop, ctab, bits, runs, marker, k', n')
  {
    k', n' := k + 1, if n > 0 then n - 1 else 0;
    ghost var r := if n > 0 then runs[k] else Repeat(1, 0);
    ghost var line := Expansion(ctab, bits, runs, k);
    ghost var after := cp0 + |RunBytes(r)|;
    RowHead(data, cp0, stop, runs, marker, n, r, n', after);
    EndHere(ctab, bits, runs, marker, k, n, r);
    last, end, cp, dp := OneRun(data, cp0, bits, ctab, image, from, was, dp0, line, n > 0, r, marker);
    if last {
      AtEnd(image[..], was, dp0, ctab, bits, runs, k, n, line);
    } else {
      assert cp == after;
      StateNext(image[..], was, dp0, dp, data, cp, stop, ctab, bits, runs, marker, k, n, line, r, k', n');
    }
  }

  ghost predicate RowDone(image: seq<Pixel>, was: seq<Pixel>, dp0: nat, ctab: seq<Colour>, bits: nat,
                          runs: seq<Run>) {
    && AreRuns(bits, runs) && AllIn(ctab, bits, runs, |runs|) && dp0 + RowLength(runs, |runs|) <= |was|
    && image == Placed(was, dp0, Expansion(ctab, bits, runs, |runs|))
  }

  lemma AtEnd(image: seq<Pixel>, was: seq<Pixel>, dp0: nat, ctab: seq<Colour>, bits: nat, runs: seq<Run>, k: nat,
              n: nat, line: seq<Pixel>)
    requires AreRuns(bits, runs) && k + n == |runs| && AllIn(ctab, bits, runs, k)
    requires line == Expansion(ctab, bits, runs, k) && dp0 + |line| <= |was|
    ensures n == 0 && image == Placed(was, dp0, line) ==> RowDone(image, was, dp0, ctab, bits, runs)
  {
  }

  // How the row ends if it ends here: n more runs to come.
  lemma EndHere(ctab: seq<Colour>, bits: nat, runs: seq<Run>, marker: Byte, k: nat, n: nat, r: Run)
    requires AreRuns(bits, runs) && k + n == |runs| && AllIn(ctab, bits, runs, k) && (n > 0 ==> r == runs[k])
    ensures n == 0 ==> RunsEnd(ctab, bits, runs, marker) == if marker == 2 then BadFile else Complete
    ensures n > 0 ==> IsRun(bits, r) && RowLength(runs, k) + r.count <= RowLength(runs, |runs|)
    ensures n > 0 && !RunInTable(ctab, bits, r, r.count) ==>
              RunsEnd(ctab, bits, runs, marker) == ReadBehind
  {
    if n > 0 {
      RowGrows(runs, k);
      assert AllIn(ctab, bits, runs, |runs|) ==> IsIn(ctab, bits, runs, k);
    }
  }

  lemma RowGrows(runs: seq<Run>, k: nat)
    requires k < |runs|
    ensures RowLength(runs, k) + runs[k].count <= RowLength(runs, |runs|)
  {
    LengthGrows(runs, k + 1);
  }

  lemma StateNext(image: seq<Pixel>, was: seq<Pixel>, dp0: nat, dp: nat, data: seq<Byte>, cp: nat,
                  stop: nat, ctab: seq<Colour>, bits: nat, runs: seq<Run>, marker: Byte, k: nat, n: nat,
                  line: seq<Pixel>, r: Run, k': nat, n': nat)
    requires AreRuns(bits, runs) && n > 0 && k + n == |runs| && AllIn(ctab, bits, runs, k)
    requires k' == k + 1 && n' == n - 1 && r == runs[k]
    requires line == Expansion(ctab, bits, runs, k) && RunInTable(ctab, bits, r, r.count)
    requires dp == dp0 + |line| + r.count <= |was|
    requires image == Placed(was, dp0, line + Expanded(ctab, bits, r, r.count))
    requires InRow(data, cp, stop, runs, marker, n')
    ensures RowState(image, was, dp0, dp, data, cp, stop, ctab, bits, runs, marker, k', n')
  {
    ExpansionNext(ctab, bits, runs, k, line, r, k');
  }

  lemma ExpansionNext(ctab: seq<Colour>, bits: nat, runs: seq<Run>, k: nat, line: seq<Pixel>, r: Run, k': nat)
    requires AreRuns(bits, runs) && k < |runs| && AllIn(ctab, bits, runs, k) && line == Expansion(ctab, bits, runs, k)
    requires r == runs[k] && k' == k + 1 && IsRun(bits, r) && RunInTable(ctab, bits, r, r.count)
    ensures AllIn(ctab, bits, runs, k') && RowLength(runs, k') == |line| + r.count
    ensures Expansion(ctab, bits, runs, k') == line + Expanded(ctab, bits, r, r.count)
  {
    AllInNext(ctab, bits, runs, k, k');
    assert runs[k' - 1] == r && RowLength(runs, k' - 1) == |line|;
  }

  lemma AllInNext(ctab: seq<Colour>, bits: nat, runs: seq<Run>, k: nat, k': nat)
    requires AreRuns(bits, runs) && k < |runs| && AllIn(ctab, bits, runs, k) && k' == k + 1
    requires RunInTable(ctab, bits, runs[k], runs[k].count)
    ensures AllIn(ctab, bits, runs, k')
  {
    assert IsIn(ctab, bits, runs, k);
  }

  // Lines 477-519, 526-555: one turn of the loop. The tests i == w of the code never
  // hold, as i stays 0 and w is not.
  method OneRun(data: seq<Byte>, cp0: nat, bits: nat, ctab: seq<Colour>, image: array<Pixel>, from: nat,
                ghost was: seq<Pixel>, ghost dp0: nat, ghost line: seq<Pixel>, ghost more: bool, ghost r: Run,
                ghost marker: Byte) returns (last: bool, end: RowEnd, cp: nat, dp: nat)
    requires marker <= 2 && if more then At(data, cp0, RunBytes(r)) else At(data, cp0, [0, marker])
    requires IsRun(bits, r) && (more ==> from + r.count <= image.Length)
    requires from == dp0 + |line| <= image.Length == |was| && image[..] == Placed(was, dp0, line)
    modifies image
    ensures !more ==> last && end == (if marker == 2 then BadFile else Complete)
    ensures !more ==> cp == cp0 + 2 && image[..] == old(image[..])
    ensures more ==> (last <==> !RunInTable(ctab, bits, r, r.count)) && (last ==> end == ReadBehind)
    ensures !last ==> cp == cp0 + |RunBytes(r)| && dp == dp0 + |line| + r.count
    ensures !last ==> image[..] == Placed(was, dp0, line + Expanded(ctab, bits, r, r.count))
  {
    if more {
      RunHead(data, cp0, r);
    } else {
      assert data[cp0 + 0] == [0, marker][0] && data[cp0 + 1] == [0, marker][1];
    }
    cp, dp, last, end := cp0, from, false, Complete;
    var ok;
    var c := data[cp];
    cp := cp + 1;
    if c == 0 {
      c := data[cp];
      cp := cp + 1;
      if c == 0 || c == 1 {
        return true, Complete, cp, dp;
      }
      if c == 2 {
        return true, BadFile, cp, dp;
      }
      ok, cp, dp := PutLiteral(data, cp, bits, ctab, c, r, image, dp, was, dp0, line);
    } else {
      var x := data[cp];
      cp := cp + 1;
      ok, dp := PutRepeat(bits, ctab, Repeat(c, x), image, dp, was, dp0, line);
    }
    if !ok {
      last, end := true, ReadBehind;
    }
  }

  // The last n runs of the row are ahead.
  ghost predicate InRow(data: seq<Byte>, cp: nat, end: nat, runs: seq<Run>, marker: Byte, n: nat) {
    n <= |runs| && At(data, cp, RowBytes(runs, n, marker)) && cp + |RowBytes(runs, n, marker)| == end
  }

  // What stands at the index: the end of the row, or a run.
  lemma RowHead(data: seq<Byte>, cp: nat, end: nat, runs: seq<Run>, marker: Byte, n: nat, r: Run, n': nat,
                after: nat)
    requires InRow(data, cp, end, runs, marker, n) && after == cp + |RunBytes(r)|
    requires n > 0 ==> r == runs[|runs| - n] && n' == n - 1
    ensures n == 0 ==> At(data, cp, [0, marker]) && cp + 2 == end
    ensures n > 0 ==> At(data, cp, RunBytes(r)) && InRow(data, after, end, runs, marker, n')
  {
    if n > 0 {
      AtParts(data, cp, RunBytes(r), RowBytes(runs, n', marker));
    }
  }

  lemma RunHead(data: seq<Byte>, cp: nat, r: Run)
    requires At(data, cp, RunBytes(r))
    ensures cp + 2 <= |data|
    ensures r.Repeat? ==> data[cp] == r.count && data[cp + 1] == r.byte && |RunBytes(r)| == 2
    ensures r.Literal? ==> data[cp] == 0 && data[cp + 1] == r.count && At(data, cp + 2, r.bytes)
    ensures r.Literal? ==> |RunBytes(r)| == 2 + |r.bytes| + |r.bytes| % 2
  {
    assert data[cp + 0] == RunBytes(r)[0] && data[cp + 1] == RunBytes(r)[1];
    if r.Literal? {
      var pad := if |r.bytes| % 2 == 1 then [r.pad] else [];
      AtParts(data, cp, [0, r.count], r.bytes + pad);
      AtParts(data, cp + 2, r.bytes, pad);
    }
  }

  lemma {:induction false} LengthGrows(runs: seq<Run>, k: nat)
    requires k <= |runs|
    ensures RowLength(runs, k) <= RowLength(runs, |runs|)
    decreases |runs| - k
  {
    if k < |runs| {
      LengthGrows(runs, k + 1);
    }
  }
}
