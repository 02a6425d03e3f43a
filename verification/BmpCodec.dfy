// encode-bmp and decode-bmp as a whole (mod-bmp.c).
module BmpCodec {
  import opened Bits
  import opened BmpHeader
  import opened BmpMaps
  import opened BmpRows
  import opened BmpRuns
  import opened BmpImage
  import opened BmpEncode

  // ---- encode-bmp -------------------------------------------------------------------

  function FileHeader(size: nat): (r: seq<Byte>)
    ensures |r| == 14
  {
    ['B' as int, 'M' as int] + Le4(size) + Le4(0) + Le4(14 + 40)
  }

  function InfoHeader(w: nat, h: nat): (r: seq<Byte>)
    ensures |r| == 40
  {
    Le4(40) + Le4(w) + Le4(h) + (Le2(1) + Le2(24)) + Zeros(24)
  }

  function Encoded(image: seq<Pixel>, w: nat, h: nat): seq<Byte>
    requires |image| == w * h
  {
    TimesIsProduct(w, h);
    FileHeader(14 + 40 + Times(Stride(w, 24), h)) + InfoHeader(w, h) + FileRows(image, w, h)
  }

  // WADJUST(w)
  function Wadjust(w: nat): nat {
    (w * 3 + 3) / 4 * 4
  }

  // Sizes for which nothing overflows in the int arithmetic of either codec.
  predicate Fits(w: nat, h: nat) {
    4 * (w * h) < 0x8000_0000 && 8 * w < 0x8000_0000 && 14 + 40 + h * Wadjust(w) < 0x8000_0000
  }

  lemma RowsSizeIs(w: nat, h: nat)
    ensures Times(Stride(w, 24), h) == h * Wadjust(w)
  {
    TimesIsProduct(Stride(w, 24), h);
    Stride24(w);
  }

  // The file header as a struct: its longs start after a gap.
  method FileHeaderStruct(size: nat, long: bool) returns (s: array<Byte>)
    ensures fresh(s) && s.Length == End(FILE_MAP, 0, long)
    ensures Unmapped(s[..], Slots(FILE_MAP, 0, long)) == FileHeader(size)
  {
    FileMap(long);
    var gap := FileGap(long);
    s := new Byte[gap + 12](i => 0);
    s[0], s[1] := 'B' as int, 'M' as int;
    StoreLong(s, gap, size);
    StoreLong(s, gap + 8, 14 + 40);
    assert s[gap + 4..gap + 8] == Le4(0);
    FileHeaderBytes(s[..], gap, size);
  }

  lemma FileHeaderBytes(s: seq<Byte>, gap: nat, size: nat)
    requires 2 <= gap && |s| == gap + 12 && s[0] == 'B' as int && s[1] == 'M' as int
    requires s[gap..gap + 4] == Le4(size) && s[gap + 4..gap + 8] == Le4(0) && s[gap + 8..gap + 12] == Le4(14 + 40)
    ensures Unmapped(s, Span(0, 2) + Span(gap, 12)) == FileHeader(size)
  {
    assert s[gap..gap + 12] == s[gap..gap + 4] + s[gap + 4..gap + 8] + s[gap + 8..gap + 12];
    assert FileHeader(size) == ['B' as int, 'M' as int] + s[gap..gap + 12];
  }

  method StoreLong(s: array<Byte>, at: nat, v: nat)
    requires at + 4 <= s.Length
    modifies s
    ensures s[at..at + 4] == Le4(v)
    ensures forall i :: 0 <= i < s.Length && !(at <= i < at + 4) ==> s[i] == old(s[i])
  {
    s[at], s[at + 1], s[at + 2], s[at + 3] := Le4(v)[0], Le4(v)[1], Le4(v)[2], Le4(v)[3];
  }

  // Fields stored one after another into a zeroed struct.
  method StoreNext(s: array<Byte>, at: nat, bytes: seq<Byte>, ghost before: seq<Byte>)
    requires at == |before| && at + |bytes| <= s.Length && s[..] == before + Zeros(s.Length - at)
    modifies s
    ensures s[..] == before + bytes + Zeros(s.Length - at - |bytes|)
  {
    forall i | 0 <= i < |bytes| {
      s[at + i] := bytes[i];
    }
  }

  method StoreFour(a: seq<Byte>, b: seq<Byte>, c: seq<Byte>, d: seq<Byte>, n: nat) returns (s: array<Byte>)
    ensures fresh(s) && s[..] == [] + a + b + c + d + Zeros(n)
  {
    s := new Byte[|a| + |b| + |c| + |d| + n](i => 0);
    StoreNext(s, 0, a, []);
    StoreNext(s, |a|, b, [] + a);
    StoreNext(s, |a| + |b|, c, [] + a + b);
    StoreNext(s, |a| + |b| + |c|, d, [] + a + b + c);
  }

  method InfoHeaderStruct(w: nat, h: nat, ghost long: bool) returns (s: array<Byte>)
    ensures fresh(s) && s.Length == End(INFO_MAP, 0, long)
    ensures Unmapped(s[..], Slots(INFO_MAP, 0, long)) == InfoHeader(w, h)
  {
    InfoMap(long);
    PackedSlots(INFO_MAP, 0, long);
    s := StoreFour(Le4(40), Le4(w), Le4(h), Le2(1) + Le2(24), 24);
    InfoHeaderBytes(s[..], w, h);
  }

  lemma InfoHeaderBytes(s: seq<Byte>, w: nat, h: nat)
    requires s == [] + Le4(40) + Le4(w) + Le4(h) + (Le2(1) + Le2(24)) + Zeros(24)
    ensures |s| == 40 && Unmapped(s, Span(0, 40)) == InfoHeader(w, h)
  {
    assert [] + Le4(40) == Le4(40);
    assert Unmapped(s, Span(0, 40)) == s;
  }

  // encode-bmp.
  method EncodeBmp(image: array<Pixel>, w: nat, h: nat, long: bool) returns (bmp: array<Byte>)
    requires image.Length == w * h && Fits(w, h)
    ensures fresh(bmp) && bmp.Length == 14 + 40 + h * Wadjust(w)
    ensures bmp[..] == Encoded(image[..], w, h)
  {
    RowsSizeIs(w, h);
    TimesIsProduct(w, h);
    bmp := EncodeSized(image, w, h, 14 + 40 + h * Wadjust(w), long);
  }

  method EncodeSized(image: array<Pixel>, w: nat, h: nat, size: nat, long: bool) returns (bmp: array<Byte>)
    requires image.Length == Times(w, h) && size == 14 + 40 + Times(Stride(w, 24), h)
    ensures fresh(bmp) && bmp.Length == size
    ensures bmp[..] == FileHeader(size) + InfoHeader(w, h) + FileRows(image[..], w, h)
  {
    bmp := new Byte[size](i => 0);
    ghost var was := bmp[..];
    WriteHeaders(bmp, w, h, size, long);
    ghost var headed := bmp[..];
    var cp := EncodeRows(image, w, h, bmp, 14 + 40);
    Assembled(was, headed, bmp[..], FileHeader(size), InfoHeader(w, h), FileRows(image[..], w, h));
  }

  method WriteHeaders(bmp: array<Byte>, w: nat, h: nat, size: nat, long: bool)
    requires bmp.Length >= 14 + 40
    modifies bmp
    ensures bmp[..] == Placed(Placed(old(bmp[..]), 0, FileHeader(size)), 14, InfoHeader(w, h))
  {
    FileMap(long);
    InfoMap(long);
    var bmfh := FileHeaderStruct(size, long);
    var cp := UnmapBytes(bmfh, bmp, 0, FILE_MAP, long);
    var bmih := InfoHeaderStruct(w, h, long);
    cp := UnmapBytes(bmih, bmp, cp, INFO_MAP, long);
  }

  lemma Assembled(was: seq<Byte>, headed: seq<Byte>, all: seq<Byte>, a: seq<Byte>, b: seq<Byte>, c: seq<Byte>)
    requires |was| == |a| + |b| + |c|
    requires headed == Placed(Placed(was, 0, a), |a|, b) && all == Placed(headed, |a| + |b|, c)
    ensures all == a + b + c
  {
  }

  // ---- decode-bmp -------------------------------------------------------------------

  // Has_Valid_BITMAPFILEHEADER
  predicate HasSignature(data: seq<Byte>, long: bool) {
    FileGap(long) + 12 <= |data| && data[0] == 'B' as int && data[1] == 'M' as int
  }

  datatype Info = Info(w: int, h: int, compression: nat, bits: nat, ctab: seq<Colour>, start: nat)

  function Entry(data: seq<Byte>, at: nat): Colour
    requires at + 3 <= |data|
  {
    Colour(data[at], data[at + 1], data[at + 2])
  }

  function Table(data: seq<Byte>, at: nat, n: nat, step: nat): (r: seq<Colour>)
    requires step >= 3 && at + Times(step, n) <= |data|
    ensures |r| == n
  {
    if n == 0 then [] else Table(data, at, n - 1, step) + [Entry(data, at + Times(step, n - 1))]
  }

  // The size of the colour table.
  function Colours(data: seq<Byte>): nat
    requires |data| >= 54
  {
    if Get4(data, 14) < 40 then
      if Get2(data, 24) < 24 then Pow2(Get2(data, 24)) else 0
    else if Get4(data, 46) == 0 && Get2(data, 28) < 24 then Pow2(Get2(data, 28))
    else Get4(data, 46)
  }

  predicate Readable(data: seq<Byte>) {
    && |data| >= 54
    && if Get4(data, 14) < 40 then 26 + Times(3, Colours(data)) <= |data|
       else 54 + Times(4, Colours(data)) <= |data|
  }

  // What the headers of a file say, by their places in the file.
  function InfoOf(data: seq<Byte>): Info
    requires Readable(data)
  {
    if Get4(data, 14) < 40 then
      Info(Signed(Get2(data, 18), 0x1_0000), Signed(Get2(data, 20), 0x1_0000), 0, Get2(data, 24),
           Table(data, 26, Colours(data), 3), Get4(data, 10))
    else
      Info(Signed(Get4(data, 18), 0x1_0000_0000), Signed(Get4(data, 22), 0x1_0000_0000), Get4(data, 30), Get2(data, 28),
           Table(data, 54, Colours(data), 4), Get4(data, 10))
  }

  method ReadTable(data: seq<Byte>, start: nat, n: nat, step: nat) returns (ctab: seq<Colour>, cp: nat)
    requires step >= 3 && start + Times(step, n) <= |data|
    ensures ctab == Table(data, start, n, step) && cp == start + Times(step, n)
  {
    ctab, cp := [], start;
    var i := 0;
    while i < n
      invariant i <= n && cp == start + Times(step, i) <= |data| && ctab == Table(data, start, i, step)
    {
      TimesGrows(step, i + 1, n);
      ctab := ctab + [Entry(data, cp)];
      cp := cp + step;
      i := i + 1;
    }
  }

  // ---- the headers as structs ---------------------------------------------------------

  // A packed struct holds the bytes mapped into it.
  lemma PackedStruct(was: seq<Byte>, bytes: seq<Byte>)
    requires |was| == |bytes|
    ensures Mapped(was, bytes, Span(0, |bytes|)) == bytes
  {
    var again := Mapped(was, bytes, Span(0, |bytes|));
    forall i | 0 <= i < |bytes|
      ensures again[i] == bytes[i]
    {
      PackedByte(was, bytes, i);
    }
  }

  lemma PackedByte(was: seq<Byte>, bytes: seq<Byte>, i: nat)
    requires |was| == |bytes| && i < |bytes|
    ensures Mapped(was, bytes, Span(0, |bytes|))[i] == bytes[i]
  {
    var slots := Span(0, |bytes|);
    MappedAt(was, bytes, slots, i);
    assert slots[i] == i;
  }

  // In the file header, the byte k of the file is in slot k.
  lemma FileField(was: seq<Byte>, data: seq<Byte>, long: bool, k: nat)
    requires |was| == End(FILE_MAP, 0, long) && k < 14 <= |data| && |Slots(FILE_MAP, 0, long)| == 14
    ensures |was| == FileGap(long) + 12
    ensures Mapped(was, data[0..14], Slots(FILE_MAP, 0, long))[if k < 2 then k else FileGap(long) + k - 2] == data[k]
  {
    FileMap(long);
    var slots := Slots(FILE_MAP, 0, long);
    SlotsIncrease(FILE_MAP, 0, long);
    var i := if k < 2 then k else FileGap(long) + k - 2;
    assert slots[k] == i;
    MappedAt(was, data[0..14], slots, i);
  }

  method ReadFileHeader(data: seq<Byte>, long: bool) returns (isBm: bool, offBits: nat)
    requires FileGap(long) + 12 <= |data|
    ensures isBm <==> HasSignature(data, long)
    ensures offBits == Get4(data, 10)
  {
    FileMap(long);
    var bmfh := new Byte[FileGap(long) + 12](i => 0);
    ghost var was := bmfh[..];
    var cp := MapBytes(bmfh, data, 0, FILE_MAP, long);
    isBm := bmfh[0] == 'B' as int && bmfh[1] == 'M' as int;
    offBits := Get4(bmfh[..], FileGap(long) + 8);
    FileField(was, data, long, 0);
    FileField(was, data, long, 1);
    FileField(was, data, long, 10);
    FileField(was, data, long, 11);
    FileField(was, data, long, 12);
    FileField(was, data, long, 13);
  }

  method ReadPacked(data: seq<Byte>, start: nat, layout: string, n: nat, long: bool) returns (fields: seq<Byte>)
    requires IsMap(layout) && Packs(layout, 0, long) && Total(layout) == n && start + n <= |data|
    ensures fields == data[start..start + n]
  {
    PackedSlots(layout, 0, long);
    var header := new Byte[n](i => 0);
    ghost var was := header[..];
    var cp := MapBytes(header, data, start, layout, long);
    PackedStruct(was, data[start..start + n]);
    fields := header[..];
  }

  // Lines 345-390.
  method ReadInfo(data: seq<Byte>, offBits: nat, long: bool) returns (info: Info)
    requires Readable(data) && offBits == Get4(data, 10)
    ensures info == InfoOf(data)
  {
    InfoMap(long);
    var bmih := ReadPacked(data, 14, INFO_MAP, 40, long);
    assert Get4(bmih, 0) == Get4(data, 14);
    var cp;
    if Get4(bmih, 0) < 40 {
      info, cp := ReadCore(data, offBits, long);
    } else {
      info, cp := ReadFull(data, bmih, offBits);
    }
    if offBits == cp {
      info := info.(start := cp);
    }
  }

  // Lines 348-369: the old header, with colours of three bytes.
  method ReadCore(data: seq<Byte>, offBits: nat, long: bool) returns (info: Info, cp: nat)
    requires Readable(data) && offBits == Get4(data, 10) && Get4(data, 14) < 40
    ensures info == InfoOf(data)
  {
    CoreMap(long);
    var bmch := ReadPacked(data, 14, CORE_MAP, 12, long);
    var w, h, bits := Get2(bmch, 4), Get2(bmch, 6), Get2(bmch, 10);
    assert w == Get2(data, 18) && h == Get2(data, 20) && bits == Get2(data, 24);
    var colours := if bits < 24 then Pow2(bits) else 0;
    assert colours == Colours(data);
    var ctab;
    ctab, cp := ReadTable(data, 26, colours, 3);
    info := Info(Signed(w, 0x1_0000), Signed(h, 0x1_0000), BI_RGB, bits, ctab, offBits);
  }

  // Lines 372-386: the full header, with colours of four bytes.
  method ReadFull(data: seq<Byte>, bmih: seq<Byte>, offBits: nat) returns (info: Info, cp: nat)
    requires Readable(data) && offBits == Get4(data, 10) && Get4(data, 14) >= 40 && bmih == data[14..54]
    ensures info == InfoOf(data)
  {
    var w, h, bits, compression, used := Get4(bmih, 4), Get4(bmih, 8), Get2(bmih, 14), Get4(bmih, 16), Get4(bmih, 32);
    assert w == Get4(data, 18) && h == Get4(data, 22) && bits == Get2(data, 28);
    assert compression == Get4(data, 30) && used == Get4(data, 46);
    var colours := if used == 0 && bits < 24 then Pow2(bits) else used;
    assert colours == Colours(data);
    var ctab;
    ctab, cp := ReadTable(data, 54, colours, 4);
    info := Info(Signed(w, 0x1_0000_0000), Signed(h, 0x1_0000_0000), compression, bits, ctab, offBits);
  }

  datatype Picture = Picture(w: nat, h: nat, pixels: seq<Pixel>)

  // What comes of decoding: an image, the error for a bad file, or a read behind the
  // colour table, after which nothing is known.
  datatype Decoding = Image(picture: Picture) | BadMedia | ReadsBehind

  // The rows of a file, as its headers announce them.
  ghost predicate Pictured(data: seq<Byte>, rows: seq<Row>) {
    && Readable(data)
    && var info := InfoOf(data);
       && info.w > 0 && info.h > 0 && 4 * (info.w * info.h) < 0x8000_0000 && 8 * info.w < 0x8000_0000
       && Rows(data, info.start, info.compression, info.bits, info.ctab, info.w, info.h, rows)
  }

  // Every uncompressed file that is long enough has such rows.
  lemma LongEnough(data: seq<Byte>) returns (rows: seq<Row>)
    requires Readable(data) && InfoOf(data).compression == BI_RGB && InfoOf(data).w > 0 && InfoOf(data).h > 0
    requires 4 * (InfoOf(data).w * InfoOf(data).h) < 0x8000_0000 && 8 * InfoOf(data).w < 0x8000_0000
    requires InfoOf(data).start + InfoOf(data).h * Stride(InfoOf(data).w, InfoOf(data).bits) <= |data|
    ensures Pictured(data, rows)
  {
    var info := InfoOf(data);
    TimesIsProduct(Stride(info.w, info.bits), info.h);
    rows := RowsExist(data, info.start, info.bits, info.ctab, info.w, info.h);
  }

  // What a file decodes to.
  ghost predicate Decodes(data: seq<Byte>, long: bool, rows: seq<Row>, r: Decoding) {
    if !HasSignature(data, long) then r == BadMedia
    else
      && Pictured(data, rows)
      && match rows[|rows| - 1].spec
         case Good(_, _) =>
           && |rows| == InfoOf(data).h && AllGood(rows, |rows|)
           && r == Image(Picture(InfoOf(data).w, InfoOf(data).h, Stacked(rows, |rows|)))
         case Bad => r == BadMedia
         case Behind => r == ReadsBehind
  }

  // decode-bmp.
  method DecodeBmp(data: seq<Byte>, long: bool, ghost rows: seq<Row>) returns (r: Decoding)
    requires HasSignature(data, long) ==> Pictured(data, rows)
    ensures Decodes(data, long, rows, r)
  {
    if |data| < FileGap(long) + 12 {
      return BadMedia;
    }
    var isBm, offBits := ReadFileHeader(data, long);
    if !isBm {
      return BadMedia;
    }
    var info := ReadInfo(data, offBits, long);
    var image := new Pixel[info.w * info.h](i => Pixel(0, 0, 0, 0));
    var end := DecodeRows(data, info.start, info.compression, info.bits, info.ctab, info.w, info.h, image, rows);
    match end {
      case BadFile => r := BadMedia;
      case ReadBehind => r := ReadsBehind;
      case Complete => r := Image(Picture(info.w, info.h, image[..]));
    }
  }

  // ---- there and back -------------------------------------------------------------------

  function WrittenRows(image: seq<Pixel>, w: nat, h: nat): seq<Row>
    requires |image| == w * h
  {
    TimesIsProduct(w, h);
    RowsBack(image, w, h, 54)
  }

  // Decoding an encoded image gives it back, opaque, for every size above zero that fits.
  lemma EncodedDecodes(image: seq<Pixel>, w: nat, h: nat, long: bool)
    requires w > 0 && h > 0 && |image| == w * h && Fits(w, h)
    ensures var data := Encoded(image, w, h);
            && |data| == 14 + 40 + h * Wadjust(w)
            && Decodes(data, long, WrittenRows(image, w, h), Image(Picture(w, h, Sealed(image, |image|))))
  {
    TimesIsProduct(w, h);
    var data, rows := Encoded(image, w, h), RowsBack(image, w, h, 54);
    RowsSizeIs(w, h);
    SizeBounds(w, h);
    HeaderBack(data, image, w, h);
    RowsFound(image, data, 54, BI_RGB, 24, [], w, h);
    StackedBack(image, w, h, 54);
    assert AllGood(rows, h) && rows[h - 1].spec.Good?;
  }

  lemma SizeBounds(w: nat, h: nat)
    requires w > 0 && h > 0
    ensures w <= h * Wadjust(w) && h <= h * Wadjust(w)
  {
    MulLe(h, 1, Wadjust(w));
    MulLe(Wadjust(w), 1, h);
  }

  lemma HeaderBack(data: seq<Byte>, image: seq<Pixel>, w: nat, h: nat)
    requires w < 0x8000_0000 && h < 0x8000_0000 && |image| == w * h == Times(w, h) && data == Encoded(image, w, h)
    ensures Readable(data) && data[0] == 'B' as int && data[1] == 'M' as int
    ensures InfoOf(data) == Info(w, h, BI_RGB, 24, [], 54)
    ensures At(data, 54, FileRows(image, w, h))
  {
    var a, b, c := FileHeader(14 + 40 + Times(Stride(w, 24), h)), InfoHeader(w, h), FileRows(image, w, h);
    assert data[0..14] == a && data[14..54] == b && data[54..] == c;
    FileHeaderBack(data, 14 + 40 + Times(Stride(w, 24), h));
    InfoHeaderBack(data, w, h);
  }

  lemma Field4(data: seq<Byte>, at: nat, v: nat)
    requires v < 0x1_0000_0000 && at + 4 <= |data| && data[at..at + 4] == Le4(v)
    ensures Get4(data, at) == v
  {
    var four := data[at..at + 4];
    assert data[at] == four[0] && data[at + 1] == four[1] && data[at + 2] == four[2] && data[at + 3] == four[3];
    Get4Le4(data, at, v);
  }

  lemma FileHeaderBack(data: seq<Byte>, size: nat)
    requires |data| >= 14 && data[0..14] == FileHeader(size)
    ensures data[0] == 'B' as int && data[1] == 'M' as int && Get4(data, 10) == 54
  {
    var a := data[0..14];
    assert data[0] == a[0] && data[1] == a[1];
    assert data[10..14] == a[10..14] == Le4(54);
    Field4(data, 10, 54);
  }

  lemma InfoHeaderBack(data: seq<Byte>, w: nat, h: nat)
    requires w < 0x8000_0000 && h < 0x8000_0000 && |data| >= 54 && data[14..54] == InfoHeader(w, h)
    ensures Get4(data, 14) == 40 && Get4(data, 18) == w && Get4(data, 22) == h && Get2(data, 28) == 24
    ensures Get4(data, 30) == 0 && Get4(data, 46) == 0
  {
    var b := data[14..54];
    InfoHeaderParts(b, w, h);
    Subslice(data, 14, 54, 0, 4);
    Field4(data, 14, 40);
    Subslice(data, 14, 54, 4, 8);
    Field4(data, 18, w);
    Subslice(data, 14, 54, 8, 12);
    Field4(data, 22, h);
    assert data[28] == b[14] == 24 && data[29] == b[15] == 0;
    assert forall j :: 30 <= j < 54 ==> data[j] == b[16..][j - 30] == 0;
  }

  lemma Subslice(s: seq<Byte>, a: nat, b: nat, i: nat, j: nat)
    requires a <= b <= |s| && i <= j <= b - a
    ensures s[a..b][i..j] == s[a + i..a + j]
  {
    forall k | 0 <= k < j - i
      ensures s[a..b][i..j][k] == s[a + i..a + j][k]
    {
      assert s[a..b][i + k] == s[a + (i + k)];
    }
  }

  lemma InfoHeaderParts(b: seq<Byte>, w: nat, h: nat)
    requires b == InfoHeader(w, h)
    ensures b[0..4] == Le4(40) && b[4..8] == Le4(w) && b[8..12] == Le4(h)
    ensures b[14] == 24 && b[15] == 0 && b[16..] == Zeros(24)
  {
    var shorts := Le2(1) + Le2(24);
    assert b == Le4(40) + Le4(w) + (Le4(h) + shorts + Zeros(24));
    assert b[8..] == Le4(h) + shorts + Zeros(24);
    assert shorts[2] == 24 && shorts[3] == 0;
  }
}
