// The three header maps of the BMP codec, and the fields of its headers (mod-bmp.c).
module BmpMaps {
  import opened Bits
  import opened BmpHeader

  const FILE_MAP := "bblssl"
  const INFO_MAP := "lllssllllll"
  const CORE_MAP := "lssss"

  // ---- little-endian fields -------------------------------------------------------

  function Le2(v: nat): (r: seq<Byte>)
    ensures |r| == 2
  {
    [v % 256, v / 256 % 256]
  }

  function Le4(v: nat): (r: seq<Byte>)
    ensures |r| == 4
  {
    [v % 256, v / 256 % 256, v / 65536 % 256, v / 16777216 % 256]
  }

  function Get2(s: seq<Byte>, p: nat): nat
    requires p + 2 <= |s|
  {
    s[p] as int + 256 * s[p + 1] as int
  }

  function Get4(s: seq<Byte>, p: nat): nat
    requires p + 4 <= |s|
  {
    s[p] as int + 256 * s[p + 1] as int + 65536 * s[p + 2] as int + 16777216 * s[p + 3] as int
  }

  lemma Get4Le4(s: seq<Byte>, p: nat, v: nat)
    requires v < 0x1_0000_0000 && p + 4 <= |s|
    requires s[p] == Le4(v)[0] && s[p + 1] == Le4(v)[1] && s[p + 2] == Le4(v)[2] && s[p + 3] == Le4(v)[3]
    ensures Get4(s, p) == v
  {
    assert v == v % 256 + 256 * (v / 256);
    assert v / 256 == v / 256 % 256 + 256 * (v / 65536);
    assert v / 65536 == v / 65536 % 256 + 256 * (v / 16777216);
  }

  // LONG and short are signed.
  function Signed(v: nat, modulus: nat): int {
    if 2 * v < modulus then v else v - modulus
  }

  // ---- where the header fields are --------------------------------------------------

  // A map whose longs need no moving: the struct is packed too.
  predicate Packs(layout: string, d: nat, long: bool) {
    layout != "" ==> (layout[0] == 'l' && long ==> d % 4 == 0) && Packs(layout[1..], d + Size(layout[0]), long)
  }

  lemma {:induction false} PackedSlots(layout: string, d: nat, long: bool)
    requires Packs(layout, d, long)
    ensures Slots(layout, d, long) == Span(d, Total(layout)) && End(layout, d, long) == d + Total(layout)
  {
    if layout != "" {
      var n, rest := Size(layout[0]), layout[1..];
      AlignedHere(layout[0], d, long);
      PackedSlots(rest, d + n, long);
      SpansJoin(d, n, Total(rest));
      assert Slots(layout, d, long) == Span(d, n) + Slots(rest, d + n, long);
    }
  }

  lemma AlignedHere(c: char, d: nat, long: bool)
    requires c == 'l' && long ==> d % 4 == 0
    ensures Aligned(c, d, long) == d
  {
  }

  lemma SpansJoin(d: nat, m: nat, n: nat)
    ensures Span(d, m) + Span(d + m, n) == Span(d, m + n)
  {
  }

  lemma PacksCons(c: char, rest: string, whole: string, d: nat, long: bool)
    requires whole == [c] + rest && (c == 'l' && long ==> d % 4 == 0)
    requires IsMap(rest) && c in {'b', 's', 'l'} && Packs(rest, d + Size(c), long)
    ensures IsMap(whole) && Total(whole) == Size(c) + Total(rest) && Packs(whole, d, long)
  {
    assert whole[1..] == rest;
  }

  lemma LongsPack(layout: string, d: nat, long: bool)
    requires (long ==> d % 4 == 0) && forall c :: c in layout ==> c == 'l'
    ensures IsMap(layout) && Packs(layout, d, long) && Total(layout) == 4 * |layout|
  {
    if layout != "" {
      assert layout[0] in layout && forall c :: c in layout[1..] ==> c in layout;
      LongsPack(layout[1..], d + 4, long);
    }
  }

  lemma ShortsPack(layout: string, d: nat, long: bool)
    requires forall c :: c in layout ==> c == 's'
    ensures IsMap(layout) && Packs(layout, d, long) && Total(layout) == 2 * |layout|
  {
    if layout != "" {
      assert layout[0] in layout && forall c :: c in layout[1..] ==> c in layout;
      ShortsPack(layout[1..], d + 2, long);
    }
  }

  lemma InfoMap(long: bool)
    ensures IsMap(INFO_MAP) && Packs(INFO_MAP, 0, long) && Total(INFO_MAP) == 40
  {
    assert "sllllll" == ['s'] + "llllll" && "ssllllll" == ['s'] + "sllllll";
    assert "lssllllll" == ['l'] + "ssllllll" && "llssllllll" == ['l'] + "lssllllll" && INFO_MAP == ['l'] + "llssllllll";
    InfoMapOf("llllll", "sllllll", "ssllllll", "lssllllll", "llssllllll", INFO_MAP, long);
  }

  lemma InfoMapOf(a: string, b: string, c: string, d: string, e: string, whole: string, long: bool)
    requires |a| == 6 && forall x :: x in a ==> x == 'l'
    requires b == ['s'] + a && c == ['s'] + b && d == ['l'] + c && e == ['l'] + d && whole == ['l'] + e
    ensures IsMap(whole) && Packs(whole, 0, long) && Total(whole) == 40
  {
    LongsPack(a, 16, long);
    PacksCons('s', a, b, 14, long);
    PacksCons('s', b, c, 12, long);
    PacksCons('l', c, d, 8, long);
    PacksCons('l', d, e, 4, long);
    PacksCons('l', e, whole, 0, long);
  }

  lemma CoreMap(long: bool)
    ensures IsMap(CORE_MAP) && Packs(CORE_MAP, 0, long) && Total(CORE_MAP) == 12
  {
    ShortsPack("ssss", 4, long);
    PacksCons('l', "ssss", CORE_MAP, 0, long);
  }

  // The file header: two bytes, then the rest, moved by two if longs are aligned.
  lemma FileMap(long: bool)
    ensures IsMap(FILE_MAP) && Total(FILE_MAP) == 14
    ensures Slots(FILE_MAP, 0, long) == Span(0, 2) + Span(FileGap(long), 12)
    ensures End(FILE_MAP, 0, long) == FileGap(long) + 12
  {
    assert "sl" == ['s'] + "l" && "ssl" == ['s'] + "sl" && "lssl" == ['l'] + "ssl";
    assert "blssl" == ['b'] + "lssl" && FILE_MAP == ['b'] + "blssl";
    FileMapOf("l", "sl", "ssl", "lssl", "blssl", FILE_MAP, long);
  }

  lemma FileMapOf(a: string, b: string, c: string, d: string, e: string, whole: string, long: bool)
    requires a == ['l'] && b == ['s'] + a && c == ['s'] + b && d == ['l'] + c && e == ['b'] + d && whole == ['b'] + e
    ensures IsMap(whole) && Total(whole) == 14
    ensures Slots(whole, 0, long) == Span(0, 2) + Span(FileGap(long), 12)
    ensures End(whole, 0, long) == FileGap(long) + 12
  {
    var gap := FileGap(long);
    FileTail(a, b, c, gap, long);
    SlotsCons('l', c, d, 2, long);
    TwoBytes(d, e, whole, long);
  }

  lemma FileTail(a: string, b: string, c: string, gap: nat, long: bool)
    requires a == ['l'] && b == ['s'] + a && c == ['s'] + b && (long ==> gap % 4 == 0)
    ensures IsMap(c) && Total(c) == 8
    ensures Span(gap, 4) + Slots(c, gap + 4, long) == Span(gap, 12) && End(c, gap + 4, long) == gap + 12
  {
    LongsPack(a, gap + 8, long);
    PacksCons('s', a, b, gap + 6, long);
    PacksCons('s', b, c, gap + 4, long);
    PackedSlots(c, gap + 4, long);
    SpansJoin(gap, 4, 8);
  }

  lemma TwoBytes(rest: string, middle: string, whole: string, long: bool)
    requires middle == ['b'] + rest && whole == ['b'] + middle && IsMap(rest)
    ensures IsMap(whole) && Total(whole) == 2 + Total(rest) && End(whole, 0, long) == End(rest, 2, long)
    ensures Slots(whole, 0, long) == Span(0, 2) + Slots(rest, 2, long)
  {
    SlotsCons('b', rest, middle, 1, long);
    SlotsCons('b', middle, whole, 0, long);
    SpansJoin(0, 1, 1);
    var slots := Slots(rest, 2, long);
    assert Span(0, 1) + (Span(1, 1) + slots) == Span(0, 1) + Span(1, 1) + slots;
  }

  function FileGap(long: bool): nat {
    if long then 4 else 2
  }

  lemma SlotsCons(c: char, rest: string, whole: string, d: nat, long: bool)
    requires whole == [c] + rest && IsMap(rest) && c in {'b', 's', 'l'}
    ensures var a := Aligned(c, d, long);
            && IsMap(whole) && Total(whole) == Size(c) + Total(rest)
            && Slots(whole, d, long) == Span(a, Size(c)) + Slots(rest, a + Size(c), long)
            && End(whole, d, long) == End(rest, a + Size(c), long)
  {
    assert whole[1..] == rest;
  }
}
