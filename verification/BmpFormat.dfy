// The fields of a BMP file by their places: what encode-bmp writes and what decode-bmp
// makes of them, without the functions that the two are specified by (mod-bmp.c).
module BmpFormat {
  import opened Bits
  import opened BmpHeader
  import opened BmpMaps
  import opened BmpRows
  import opened BmpRuns
  import opened BmpImage
  import opened BmpEncode
  import opened BmpCodec

  datatype FileFields = FileFields(size: int, reserved1: int, reserved2: int, offBits: nat)
  datatype InfoFields = InfoFields(size: nat, width: int, height: int, planes: int, bitCount: nat, compression: nat,
                                   sizeImage: int, xPelsPerMeter: int, yPelsPerMeter: int, clrUsed: nat,
                                   clrImportant: int)
  datatype CoreFields = CoreFields(size: nat, width: int, height: int, planes: int, bitCount: nat)

  // A number in n bytes, the lowest first.
  ghost predicate Number(data: seq<Byte>, at: nat, n: nat, v: int) {
    At(data, at, LowBytes(v, n))
  }

  // BITMAPFILEHEADER as it is in a file, without gaps.
  ghost predicate FileFieldsAre(data: seq<Byte>, f: FileFields) {
    && |data| >= 14 && data[0] == 'B' as int && data[1] == 'M' as int
    && Number(data, 2, 4, f.size) && Number(data, 6, 2, f.reserved1) && Number(data, 8, 2, f.reserved2)
    && Number(data, 10, 4, f.offBits)
  }

  // BITMAPINFOHEADER behind it.
  ghost predicate InfoFieldsAre(data: seq<Byte>, f: InfoFields) {
    && Number(data, 14, 4, f.size) && Number(data, 18, 4, f.width) && Number(data, 22, 4, f.height)
    && Number(data, 26, 2, f.planes) && Number(data, 28, 2, f.bitCount) && Number(data, 30, 4, f.compression)
    && Number(data, 34, 4, f.sizeImage) && Number(data, 38, 4, f.xPelsPerMeter) && Number(data, 42, 4, f.yPelsPerMeter)
    && Number(data, 46, 4, f.clrUsed) && Number(data, 50, 4, f.clrImportant)
  }

  // BITMAPCOREHEADER.
  ghost predicate CoreFieldsAre(data: seq<Byte>, f: CoreFields) {
    && Number(data, 14, 4, f.size) && Number(data, 18, 2, f.width) && Number(data, 20, 2, f.height)
    && Number(data, 22, 2, f.planes) && Number(data, 24, 2, f.bitCount)
  }

  predicate Word(v: int) { 0 <= v < 0x1_0000 }
  predicate Short(v: int) { -0x8000 <= v < 0x8000 }
  predicate DWord(v: int) { 0 <= v < 0x1_0000_0000 }
  predicate Long(v: int) { -0x8000_0000 <= v < 0x8000_0000 }

  // ---- numbers ----------------------------------------------------------------------

  lemma Two(v: int)
    ensures LowBytes(v, 2) == [v % 256, v / 256 % 256]
  {
    assert LowBytes(v / 256, 1) == [v / 256 % 256];
  }

  lemma Four(v: int)
    ensures LowBytes(v, 4) == [v % 256, v / 256 % 256, v / 65536 % 256, v / 16777216 % 256]
  {
    Two(v / 65536);
    assert v / 65536 == v / 256 / 256 && v / 16777216 == v / 65536 / 256;
    assert LowBytes(v / 256, 3) == [v / 256 % 256] + LowBytes(v / 65536, 2);
  }

  // A field of two bytes, whether it is signed or not.
  lemma ReadTwo(data: seq<Byte>, at: nat, v: int)
    requires Number(data, at, 2, v)
    ensures Word(v) ==> Get2(data, at) == v
    ensures Short(v) ==> Signed(Get2(data, at), 0x1_0000) == v
  {
    Two(v);
    var two := data[at..at + 2];
    assert data[at] == two[0] && data[at + 1] == two[1];
  }

  lemma ReadFour(data: seq<Byte>, at: nat, v: int)
    requires Number(data, at, 4, v)
    ensures DWord(v) ==> Get4(data, at) == v
    ensures Long(v) ==> Signed(Get4(data, at), 0x1_0000_0000) == v
  {
    Four(v);
    var four := data[at..at + 4];
    assert data[at] == four[0] && data[at + 1] == four[1] && data[at + 2] == four[2] && data[at + 3] == four[3];
    Digits(v, v / 256, v / 65536, v / 16777216);
  }

  // The four bytes of a number: what they spell is the number, or 2^32 above it.
  lemma Digits(v: int, a: int, b: int, c: int)
    requires a == v / 256 && b == a / 256 && c == b / 256
    ensures DWord(v) ==> v == v % 256 + 256 * (a % 256) + 65536 * (b % 256) + 16777216 * (c % 256)
    ensures Long(v) && v < 0
            ==> v + 0x1_0000_0000 == v % 256 + 256 * (a % 256) + 65536 * (b % 256) + 16777216 * (c % 256)
  {
    assert v == v % 256 + 256 * (a % 256 + 256 * (b % 256 + 256 * c));
    assert DWord(v) ==> c % 256 == c;
    assert Long(v) && v < 0 ==> c % 256 == c + 256;
  }

  // ---- reading ----------------------------------------------------------------------

  // An entry of a colour table: blue, green, red.
  ghost predicate EntryIs(data: seq<Byte>, at: nat, c: Colour) {
    at + 3 <= |data| && data[at] == c.blue && data[at + 1] == c.green && data[at + 2] == c.red
  }

  lemma {:induction false} TableAt(data: seq<Byte>, at: nat, n: nat, step: nat, k: nat)
    requires k < n && step >= 3 && at + Times(step, n) <= |data|
    ensures EntryIs(data, at + Times(step, k), Table(data, at, n, step)[k])
  {
    if k < n - 1 {
      TableAt(data, at, n - 1, step, k);
    }
  }

  // n entries, one every so many bytes.
  ghost predicate TableStands(data: seq<Byte>, at: nat, step: nat, n: nat, table: seq<Colour>) {
    |table| == n && forall k: nat :: k < n ==> EntryIs(data, at + step * k, table[k])
  }

  // The table read is the only one that stands there.
  lemma TableIs(data: seq<Byte>, at: nat, n: nat, step: nat, table: seq<Colour>)
    requires step >= 3 && at + Times(step, n) <= |data|
    ensures TableStands(data, at, step, n, table) <==> table == Table(data, at, n, step)
  {
    var read := Table(data, at, n, step);
    forall k: nat | k < n
      ensures EntryIs(data, at + step * k, read[k])
    {
      TableAt(data, at, n, step, k);
      TimesIsProduct(step, k);
    }
    if TableStands(data, at, step, n, table) {
      forall k: nat | k < n
        ensures table[k] == read[k]
      {
        assert EntryIs(data, at + step * k, table[k]) && EntryIs(data, at + step * k, read[k]);
      }
    }
  }

  // What decode-bmp takes from a file with the full header: four bytes of colour for each
  // entry, and as many as clrUsed says, or, if it says none, as the pixels need.
  lemma FullHeader(data: seq<Byte>, f: FileFields, i: InfoFields, n: nat, info: Info)
    requires FileFieldsAre(data, f) && InfoFieldsAre(data, i)
    requires DWord(f.offBits) && DWord(i.size) && i.size >= 40 && Long(i.width) && Long(i.height)
    requires Word(i.bitCount) && DWord(i.compression) && DWord(i.clrUsed)
    requires n == if i.clrUsed == 0 && i.bitCount < 24 then Pow2(i.bitCount) else i.clrUsed
    requires 54 + 4 * n <= |data|
    ensures Readable(data)
    ensures InfoOf(data) == info <==>
            && info.w == i.width && info.h == i.height && info.compression == i.compression
            && info.bits == i.bitCount && info.start == f.offBits
            && TableStands(data, 54, 4, n, info.ctab)
  {
    FullNumbers(data, f, i);
    TimesIsProduct(4, n);
    TableIs(data, 54, n, 4, info.ctab);
    FullIs(data, f, i, n);
  }

  lemma FullIs(data: seq<Byte>, f: FileFields, i: InfoFields, n: nat)
    requires |data| >= 54 && Get4(data, 10) == f.offBits && Get4(data, 14) == i.size && i.size >= 40
    requires Signed(Get4(data, 18), 0x1_0000_0000) == i.width && Signed(Get4(data, 22), 0x1_0000_0000) == i.height
    requires Get2(data, 28) == i.bitCount && Get4(data, 30) == i.compression && Get4(data, 46) == i.clrUsed
    requires n == if i.clrUsed == 0 && i.bitCount < 24 then Pow2(i.bitCount) else i.clrUsed
    requires 54 + Times(4, n) <= |data|
    ensures Readable(data)
    ensures InfoOf(data) == Info(i.width, i.height, i.compression, i.bitCount, Table(data, 54, n, 4), f.offBits)
  {
    assert Colours(data) == n;
  }

  lemma FullNumbers(data: seq<Byte>, f: FileFields, i: InfoFields)
    requires FileFieldsAre(data, f) && InfoFieldsAre(data, i)
    ensures DWord(f.offBits) ==> Get4(data, 10) == f.offBits
    ensures DWord(i.size) ==> Get4(data, 14) == i.size
    ensures Long(i.width) ==> Signed(Get4(data, 18), 0x1_0000_0000) == i.width
    ensures Long(i.height) ==> Signed(Get4(data, 22), 0x1_0000_0000) == i.height
    ensures Word(i.bitCount) ==> Get2(data, 28) == i.bitCount
    ensures DWord(i.compression) ==> Get4(data, 30) == i.compression
    ensures DWord(i.clrUsed) ==> Get4(data, 46) == i.clrUsed
  {
    ReadFour(data, 10, f.offBits);
    ReadFour(data, 14, i.size);
    ReadFour(data, 18, i.width);
    ReadFour(data, 22, i.height);
    ReadTwo(data, 28, i.bitCount);
    ReadFour(data, 30, i.compression);
    ReadFour(data, 46, i.clrUsed);
  }

  // And from one with the old header: three bytes of colour for each entry.
  lemma CoreHeader(data: seq<Byte>, f: FileFields, c: CoreFields, n: nat, info: Info)
    requires FileFieldsAre(data, f) && CoreFieldsAre(data, c)
    requires DWord(f.offBits) && DWord(c.size) && c.size < 40 && Short(c.width) && Short(c.height) && Word(c.bitCount)
    requires n == (if c.bitCount < 24 then Pow2(c.bitCount) else 0) && |data| >= 54 && 26 + 3 * n <= |data|
    ensures Readable(data)
    ensures InfoOf(data) == info <==>
            && info.w == c.width && info.h == c.height && info.compression == 0
            && info.bits == c.bitCount && info.start == f.offBits
            && TableStands(data, 26, 3, n, info.ctab)
  {
    CoreNumbers(data, f, c);
    TimesIsProduct(3, n);
    TableIs(data, 26, n, 3, info.ctab);
    CoreIs(data, f, c, n);
  }

  lemma CoreIs(data: seq<Byte>, f: FileFields, c: CoreFields, n: nat)
    requires |data| >= 54 && Get4(data, 10) == f.offBits && Get4(data, 14) == c.size && c.size < 40
    requires Signed(Get2(data, 18), 0x1_0000) == c.width && Signed(Get2(data, 20), 0x1_0000) == c.height
    requires Get2(data, 24) == c.bitCount
    requires n == (if c.bitCount < 24 then Pow2(c.bitCount) else 0) && 26 + Times(3, n) <= |data|
    ensures Readable(data)
    ensures InfoOf(data) == Info(c.width, c.height, 0, c.bitCount, Table(data, 26, n, 3), f.offBits)
  {
    assert Colours(data) == n;
  }

  lemma CoreNumbers(data: seq<Byte>, f: FileFields, c: CoreFields)
    requires FileFieldsAre(data, f) && CoreFieldsAre(data, c)
    ensures DWord(f.offBits) ==> Get4(data, 10) == f.offBits
    ensures DWord(c.size) ==> Get4(data, 14) == c.size
    ensures Short(c.width) ==> Signed(Get2(data, 18), 0x1_0000) == c.width
    ensures Short(c.height) ==> Signed(Get2(data, 20), 0x1_0000) == c.height
    ensures Word(c.bitCount) ==> Get2(data, 24) == c.bitCount
  {
    ReadFour(data, 10, f.offBits);
    ReadFour(data, 14, c.size);
    ReadTwo(data, 18, c.width);
    ReadTwo(data, 20, c.height);
    ReadTwo(data, 24, c.bitCount);
  }

  // ---- writing ----------------------------------------------------------------------

  // The headers of an encoded image: its own length in bytes, the pixels behind 54 bytes,
  // one plane of 24 bits, and nothing else.
  lemma EncodedHeaders(image: seq<Pixel>, w: nat, h: nat)
    requires |image| == w * h
    ensures var data := Encoded(image, w, h);
            && FileFieldsAre(data, FileFields(|data|, 0, 0, 54))
            && InfoFieldsAre(data, InfoFields(40, w, h, 1, 24, 0, 0, 0, 0, 0, 0))
  {
    TimesIsProduct(w, h);
    var data, rows := Encoded(image, w, h), FileRows(image, w, h);
    assert data[..14] == FileHeader(|data|) && data[14..54] == InfoHeader(w, h);
    FileHeaderIs(data, |data|);
    InfoHeaderIs(data, w, h);
  }

  lemma FileHeaderIs(data: seq<Byte>, size: nat)
    requires |data| >= 14 && data[..14] == FileHeader(size)
    ensures FileFieldsAre(data, FileFields(size, 0, 0, 54))
  {
    Four(size);
    Four(54);
    Two(0);
    var a := data[..14];
    assert a[2..6] == Le4(size) && a[6..8] == [0, 0] && a[8..10] == [0, 0] && a[10..14] == Le4(54);
  }

  lemma InfoHeaderIs(data: seq<Byte>, w: nat, h: nat)
    requires |data| >= 54 && data[14..54] == InfoHeader(w, h)
    ensures InfoFieldsAre(data, InfoFields(40, w, h, 1, 24, 0, 0, 0, 0, 0, 0))
  {
    var b := data[14..54];
    InfoHeaderParts(b, w, h);
    Planes(b, w, h);
    Four(40);
    Four(w);
    Four(h);
    Two(1);
    Two(24);
    InBehind(data, b, 0, 4, 40);
    InBehind(data, b, 4, 4, w);
    InBehind(data, b, 8, 4, h);
    InBehind(data, b, 12, 2, 1);
    InBehind(data, b, 14, 2, 24);
    ZeroFields(data, b);
  }

  lemma Planes(b: seq<Byte>, w: nat, h: nat)
    requires b == InfoHeader(w, h)
    ensures b[12..14] == [1, 0] && b[14..16] == [24, 0]
  {
    var first := Le4(40) + Le4(w) + Le4(h);
    assert b == first + ((Le2(1) + Le2(24)) + Zeros(24));
    assert b[12..] == (Le2(1) + Le2(24)) + Zeros(24);
    assert b[12] == 1 && b[13] == 0 && b[14] == 24 && b[15] == 0;
  }

  lemma InBehind(data: seq<Byte>, b: seq<Byte>, at: nat, n: nat, v: int)
    requires |data| >= 54 && b == data[14..54] && at + n <= 40 && b[at..at + n] == LowBytes(v, n)
    ensures Number(data, 14 + at, n, v)
  {
    Subslice(data, 14, 54, at, at + n);
  }

  lemma ZeroFields(data: seq<Byte>, b: seq<Byte>)
    requires |data| >= 54 && b == data[14..54] && b[16..] == Zeros(24)
    ensures Number(data, 30, 4, 0) && Number(data, 34, 4, 0) && Number(data, 38, 4, 0)
    ensures Number(data, 42, 4, 0) && Number(data, 46, 4, 0) && Number(data, 50, 4, 0)
  {
    ZeroField(data, b, 16);
    ZeroField(data, b, 20);
    ZeroField(data, b, 24);
    ZeroField(data, b, 28);
    ZeroField(data, b, 32);
    ZeroField(data, b, 36);
  }

  lemma ZeroField(data: seq<Byte>, b: seq<Byte>, at: nat)
    requires |data| >= 54 && b == data[14..54] && b[16..] == Zeros(24) && 16 <= at <= 36
    ensures Number(data, 14 + at, 4, 0)
  {
    Four(0);
    assert b[at..at + 4] == b[16..][at - 16..at - 12] == [0, 0, 0, 0];
    InBehind(data, b, at, 4, 0);
  }

  // A row as it is written: each pixel blue first, and zeros behind the last.
  ghost predicate WrittenAt(data: seq<Byte>, at: nat, line: seq<Pixel>, n: nat) {
    && at + n <= |data|
    && (forall x: nat :: x < |line| ==> BytesOf(data, at + 3 * x, line[x]))
    && (forall p :: at + 3 * |line| <= p < at + n ==> data[p] == 0)
  }

  ghost predicate BytesOf(data: seq<Byte>, at: nat, p: Pixel) {
    at + 3 <= |data| && data[at] == p.blue && data[at + 1] == p.green && data[at + 2] == p.red
  }

  lemma RowWritten(data: seq<Byte>, at: nat, line: seq<Pixel>)
    requires At(data, at, RowOf(line))
    ensures WrittenAt(data, at, line, Wadjust(|line|))
  {
    var w, row := |line|, data[at..at + |RowOf(line)|];
    Stride24(w);
    forall x: nat | x < w
      ensures BytesOf(data, at + 3 * x, line[x])
    {
      LineBytesAt(line, w, x);
      var i := 3 * x;
      assert row[i] == data[at + i] && row[i + 1] == data[at + i + 1] && row[i + 2] == data[at + i + 2];
    }
    forall p | at + 3 * w <= p < at + Wadjust(w)
      ensures data[p] == 0
    {
      assert row[p - at] == data[p];
    }
  }

  // Row y of the image is written h - 1 - y rows behind the headers, in as many bytes as
  // its pixels need, filled up to a multiple of four.
  lemma EncodedRow(image: seq<Pixel>, w: nat, h: nat, y: nat, k: nat, from: nat, at: nat)
    requires |image| == w * h && y + 1 + k == h && from == w * y && at == 54 + Wadjust(w) * k
    ensures from + w <= |image|
    ensures WrittenAt(Encoded(image, w, h), at, image[from..from + w], Wadjust(w))
  {
    TimesIsProduct(w, h);
    TimesIsProduct(w, y);
    TimesIsProduct(Stride(w, 24), k);
    Stride24(w);
    RowInFile(image, w, h, y, k);
  }

  lemma RowInFile(image: seq<Pixel>, w: nat, h: nat, y: nat, k: nat)
    requires |image| == w * h == Times(w, h) && y + 1 + k == h
    ensures Times(w, y) + w <= |image|
    ensures WrittenAt(Encoded(image, w, h), 54 + Times(Stride(w, 24), k), LineAt(image, w, y), Wadjust(w))
  {
    var data, at := Encoded(image, w, h), 54 + Times(Stride(w, 24), k);
    assert data[54..] == FileRows(image, w, h);
    FileRowsAt(image, data, 54, w, h, y, k, at);
    RowWritten(data, at, LineAt(image, w, y));
  }
}
