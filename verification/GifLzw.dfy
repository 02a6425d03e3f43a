// Variable-length-code LZW as Appendix F of the GIF89a specification describes
// it from the encoder's side, and the decoder's prefix/suffix dictionary.
module GifLzw {
  import opened Bits
  import opened GifStream

  type Table = seq<seq<Byte>>

  // ---- the encoder's string table --------------------------------------

  // One string per colour, then the clear and end-of-information codes, which
  // stand for no string.
  function InitTable(dataSize: nat): (t: Table)
    requires dataSize <= 8
    ensures |t| == Pow2(dataSize) + 2
  {
    Pow2Monotone(dataSize, 8);
    Pow2Small();
    seq(Pow2(dataSize), i requires 0 <= i < Pow2(dataSize) => [i]) + [[], []]
  }

  // After sending the string `s` at the front of `pixels`, the table gains `s`
  // followed by the next pixel. It keeps 4096 strings: the slot after the last
  // one records that the table is full, and cannot be named by a code.
  function Extend(t: Table, s: seq<Byte>, pixels: seq<Byte>): Table
    requires s <= pixels
  {
    if |t| > TABLE_SIZE then t
    else t + [s + (if |s| < |pixels| then [pixels[|s|]] else [])]
  }

  predicate Names(t: Table, code: nat, pixels: seq<Byte>) {
    code < |t| && code < TABLE_SIZE && t[code] != [] && t[code] <= pixels
  }

  // The codes are an encoding of the pixels: each code is a clear code, or names
  // a table string at the front of the pixels still to be sent. An encoder may
  // clear whenever it likes, and may go on using a full table unchanged.
  // Whatever follows the last pixel (the end code, padding) is unconstrained.
  ghost predicate EncodedBy(dataSize: nat, t: Table, pixels: seq<Byte>, codes: seq<nat>)
    requires dataSize <= 8
    decreases |codes|
  {
    pixels == [] ||
    (codes != [] &&
     if codes[0] == Pow2(dataSize) then EncodedBy(dataSize, InitTable(dataSize), pixels, codes[1..])
     else Names(t, codes[0], pixels)
          && EncodedBy(dataSize, Extend(t, t[codes[0]], pixels), pixels[|t[codes[0]]|..], codes[1..]))
  }

  // The encoder clears in time: once the table is full, no code is sent but a clear code.
  ghost predicate ClearsInTime(dataSize: nat, t: Table, pixels: seq<Byte>, codes: seq<nat>)
    requires dataSize <= 8 && EncodedBy(dataSize, t, pixels, codes)
    decreases |codes|
  {
    pixels == [] ||
    if codes[0] == Pow2(dataSize) then ClearsInTime(dataSize, InitTable(dataSize), pixels, codes[1..])
    else |t| <= TABLE_SIZE
         && ClearsInTime(dataSize, Extend(t, t[codes[0]], pixels), pixels[|t[codes[0]]|..], codes[1..])
  }

  // The bits of the codes that it takes.
  ghost function UsedLen(dataSize: nat, t: Table, pixels: seq<Byte>, codes: seq<nat>): nat
    requires dataSize <= 8 && EncodedBy(dataSize, t, pixels, codes)
    decreases |codes|
  {
    if pixels == [] then 0
    else
      Width(dataSize, |t|)
      + if codes[0] == Pow2(dataSize) then UsedLen(dataSize, InitTable(dataSize), pixels, codes[1..])
        else UsedLen(dataSize, Extend(t, t[codes[0]], pixels), pixels[|t[codes[0]]|..], codes[1..])
  }

  lemma {:induction false} UsedAtMost(dataSize: nat, t: Table, pixels: seq<Byte>, codes: seq<nat>)
    requires dataSize <= 8 && EncodedBy(dataSize, t, pixels, codes)
    ensures UsedLen(dataSize, t, pixels, codes) <= StreamLen(dataSize, |t|, codes)
    decreases |codes|
  {
    if pixels != [] {
      var next, left := InitTable(dataSize), pixels;
      if codes[0] != Pow2(dataSize) {
        next, left := Extend(t, t[codes[0]], pixels), pixels[|t[codes[0]]|..];
      }
      assert |next| == Entries(dataSize, |t|, codes[0]);
      UsedAtMost(dataSize, next, left, codes[1..]);
    }
  }

  // ---- codes determine pixels -------------------------------------------

  // Two tables that differ at most in the last pixel of their newest string.
  ghost predicate Parallel(t1: Table, t2: Table, p1: seq<Byte>, p2: seq<Byte>) {
    t1 == t2 || exists s: seq<Byte> :: SameButLast(t1, t2, p1, p2, s)
  }

  ghost predicate SameButLast(t1: Table, t2: Table, p1: seq<Byte>, p2: seq<Byte>, s: seq<Byte>) {
    && |t1| == |t2| > 0 && p1 != [] && p2 != [] && s != []
    && t1[..|t1| - 1] == t2[..|t2| - 1]
    && t1[|t1| - 1] == s + [p1[0]] && t2[|t2| - 1] == s + [p2[0]]
  }

  // A code stream encodes at most one image of a given size.
  lemma {:induction false} CodesDeterminePixels(dataSize: nat, t1: Table, t2: Table,
                                                p1: seq<Byte>, p2: seq<Byte>, codes: seq<nat>)
    requires dataSize <= 8 && |p1| == |p2|
    requires Parallel(t1, t2, p1, p2)
    requires EncodedBy(dataSize, t1, p1, codes) && EncodedBy(dataSize, t2, p2, codes)
    ensures p1 == p2
    decreases |codes|
  {
    if p1 == [] {
    } else if codes[0] == Pow2(dataSize) {
      CodesDeterminePixels(dataSize, InitTable(dataSize), InitTable(dataSize), p1, p2, codes[1..]);
    } else {
      var s := t1[codes[0]];
      SameString(t1, t2, p1, p2, codes[0]);
      if |s| < |p1| {
        assert p1[|s|..][0] == p1[|s|] && p2[|s|..][0] == p2[|s|];
        if |t1| <= TABLE_SIZE {
          assert t1 + [s + [p1[|s|]]] == Extend(t1, s, p1);
          assert t2 + [s + [p2[|s|]]] == Extend(t2, s, p2);
          assert SameButLast(Extend(t1, s, p1), Extend(t2, s, p2), p1[|s|..], p2[|s|..], s);
        }
      }
      CodesDeterminePixels(dataSize, Extend(t1, s, p1), Extend(t2, s, p2), p1[|s|..], p2[|s|..], codes[1..]);
      assert p1 == s + p1[|s|..] && p2 == s + p2[|s|..];
    }
  }

  lemma SameString(t1: Table, t2: Table, p1: seq<Byte>, p2: seq<Byte>, code: nat)
    requires p1 != [] && p2 != [] && Parallel(t1, t2, p1, p2)
    requires Names(t1, code, p1) && Names(t2, code, p2)
    ensures t1 == t2
  {
    if s: seq<Byte> :| SameButLast(t1, t2, p1, p2, s) {
      SameNewest(t1, t2, p1, p2, s, code);
    }
  }

  lemma SameNewest(t1: Table, t2: Table, p1: seq<Byte>, p2: seq<Byte>, s: seq<Byte>, code: nat)
    requires p1 != [] && p2 != [] && SameButLast(t1, t2, p1, p2, s)
    requires Names(t1, code, p1) && Names(t2, code, p2)
    ensures t1 == t2
  {
    var n := |t1| - 1;
    assert t1 == t1[..n] + [t1[n]] && t2 == t2[..n] + [t2[n]];
    if code < n {
      assert t1[code] == t1[..n][code] == t2[..n][code] == t2[code];
      assert p1[0] == t1[code][0] == p2[0];
    } else {
      assert p1[0] == t1[n][0] == s[0] && p2[0] == t2[n][0] == s[0];
    }
  }

  // ---- an encoder -------------------------------------------------------

  // The longest table string among the first n that starts the pixels, or -1.
  function Longest(t: Table, pixels: seq<Byte>, n: nat): (best: int)
    requires n <= |t|
    ensures -1 <= best < n
    ensures best >= 0 ==> t[best] != [] && t[best] <= pixels
    ensures forall k :: 0 <= k < n && t[k] != [] && t[k] <= pixels ==> best >= 0 && |t[k]| <= |t[best]|
  {
    if n == 0 then -1
    else
      var best := Longest(t, pixels, n - 1);
      if t[n - 1] != [] && t[n - 1] <= pixels && (best < 0 || |t[best]| < |t[n - 1]|) then n - 1 else best
  }

  ghost predicate Literals(dataSize: nat, t: Table) {
    Pow2(dataSize) + 2 <= |t| && forall i :: 0 <= i < Pow2(dataSize) ==> IsLiteral(t, i)
  }

  ghost predicate IsLiteral(t: Table, i: nat) {
    i < |t| && i < 256 && t[i] == [i]
  }

  predicate InRange(dataSize: nat, pixels: seq<Byte>) {
    forall p <- pixels :: p < Pow2(dataSize)
  }

  lemma LiteralMatches(dataSize: nat, t: Table, pixels: seq<Byte>)
    requires Literals(dataSize, t) && InRange(dataSize, pixels) && pixels != []
    ensures Longest(t, pixels, |t|) >= 0
  {
    var p := pixels[0];
    assert p in pixels;
    assert IsLiteral(t, p);
    assert t[p] == [p] <= pixels;
  }

  // Greedy compression from a given table: the longest match at every step, a
  // clear code when the table would exceed 4096 slots, the end code at the end.
  function Compress(dataSize: nat, t: Table, pixels: seq<Byte>): seq<nat>
    requires dataSize <= 8 && Literals(dataSize, t) && InRange(dataSize, pixels)
    decreases |pixels|, |t| > TABLE_SIZE
  {
    if pixels == [] then [Pow2(dataSize) + 1]
    else if |t| > TABLE_SIZE then
      InitLiterals(dataSize);
      [Pow2(dataSize)] + Compress(dataSize, InitTable(dataSize), pixels)
    else
      LiteralMatches(dataSize, t, pixels);
      var k := Longest(t, pixels, |t|);
      ExtendLiterals(dataSize, t, t[k], pixels);
      [k] + Compress(dataSize, Extend(t, t[k], pixels), pixels[|t[k]|..])
  }

  lemma ExtendLiterals(dataSize: nat, t: Table, s: seq<Byte>, pixels: seq<Byte>)
    requires Literals(dataSize, t) && InRange(dataSize, pixels) && s <= pixels
    ensures Literals(dataSize, Extend(t, s, pixels)) && InRange(dataSize, pixels[|s|..])
    ensures NoStringFor(dataSize, t) ==> NoStringFor(dataSize, Extend(t, s, pixels))
  {
    var t' := Extend(t, s, pixels);
    forall i | 0 <= i < Pow2(dataSize)
      ensures IsLiteral(t', i)
    {
      assert IsLiteral(t, i);
      assert t'[i] == t[i];
    }
    forall p | p in pixels[|s|..]
      ensures p < Pow2(dataSize)
    {
      assert p in pixels;
    }
  }

  lemma InitLiterals(dataSize: nat)
    requires dataSize <= 8
    ensures Literals(dataSize, InitTable(dataSize)) && |InitTable(dataSize)| <= TABLE_SIZE
  {
    Pow2Monotone(dataSize, 8);
    Pow2Small();
  }

  // The complete code stream of an image: it starts with a clear code.
  function Encode(dataSize: nat, pixels: seq<Byte>): seq<nat>
    requires dataSize <= 8 && InRange(dataSize, pixels)
  {
    InitLiterals(dataSize);
    [Pow2(dataSize)] + Compress(dataSize, InitTable(dataSize), pixels)
  }

  // What the greedy compressor sends is an encoding, and each code fits its width.
  lemma {:induction false} CompressEncodes(dataSize: nat, t: Table, pixels: seq<Byte>)
    requires 2 <= dataSize <= 8 && Literals(dataSize, t) && InRange(dataSize, pixels)
    requires |t| <= TABLE_SIZE + 1 && NoStringFor(dataSize, t)
    ensures Encodes(dataSize, t, pixels, Compress(dataSize, t, pixels))
    decreases |pixels|, |t| > TABLE_SIZE
  {
    if pixels == [] {
      EndCodeFits(dataSize, |t|);
      assert Compress(dataSize, t, pixels) == [Pow2(dataSize) + 1];
    } else if |t| > TABLE_SIZE {
      var init, codes := CompressClears(dataSize, t, pixels);
      CompressEncodes(dataSize, init, pixels);
      ClearStep(dataSize, t, pixels, codes, Compress(dataSize, t, pixels));
    } else {
      var k, t', rest, codes := CompressOne(dataSize, t, pixels);
      CompressEncodes(dataSize, t', rest);
      CompressStep(dataSize, t, pixels, k, codes, Compress(dataSize, t, pixels));
    }
  }

  // The codes are an encoding, clear in time and fit their widths.
  ghost predicate Encodes(dataSize: nat, t: Table, pixels: seq<Byte>, codes: seq<nat>)
    requires dataSize <= 8
  {
    && EncodedBy(dataSize, t, pixels, codes) && ClearsInTime(dataSize, t, pixels, codes)
    && CodesFit(dataSize, |t|, codes)
  }

  lemma CompressClears(dataSize: nat, t: Table, pixels: seq<Byte>) returns (init: Table, rest: seq<nat>)
    requires 2 <= dataSize <= 8 && Literals(dataSize, t) && InRange(dataSize, pixels) && pixels != []
    requires |t| > TABLE_SIZE
    ensures init == InitTable(dataSize) && Literals(dataSize, init) && |init| <= TABLE_SIZE
    ensures NoStringFor(dataSize, init)
    ensures rest == Compress(dataSize, init, pixels) && Compress(dataSize, t, pixels) == [Pow2(dataSize)] + rest
  {
    InitLiterals(dataSize);
    init := InitTable(dataSize);
    rest := Compress(dataSize, init, pixels);
  }

  // The longest string that matches is sent, and the table extended.
  lemma CompressOne(dataSize: nat, t: Table, pixels: seq<Byte>)
      returns (k: nat, t': Table, rest: seq<Byte>, codes: seq<nat>)
    requires 2 <= dataSize <= 8 && Literals(dataSize, t) && InRange(dataSize, pixels) && pixels != []
    requires |t| <= TABLE_SIZE && NoStringFor(dataSize, t)
    ensures Names(t, k, pixels) && t' == Extend(t, t[k], pixels) && rest == pixels[|t[k]|..] && |rest| < |pixels|
    ensures Literals(dataSize, t') && NoStringFor(dataSize, t') && |t'| == |t| + 1 && InRange(dataSize, rest)
    ensures codes == Compress(dataSize, t', rest) && Compress(dataSize, t, pixels) == [k] + codes
  {
    LiteralMatches(dataSize, t, pixels);
    k := Longest(t, pixels, |t|);
    ExtendLiterals(dataSize, t, t[k], pixels);
    t', rest := Extend(t, t[k], pixels), pixels[|t[k]|..];
    codes := Compress(dataSize, t', rest);
  }

  lemma ClearStep(dataSize: nat, t: Table, pixels: seq<Byte>, rest: seq<nat>, codes: seq<nat>)
    requires 2 <= dataSize <= 8 && Encodes(dataSize, InitTable(dataSize), pixels, rest)
    requires codes == [Pow2(dataSize)] + rest
    ensures Encodes(dataSize, t, pixels, codes)
  {
    var clear := Pow2(dataSize);
    assert codes[0] == clear && codes[1..] == rest;
    ClearFits(dataSize, |t|, clear);
    FitCons(dataSize, |t|, codes, rest);
    ClearCons(dataSize, t, pixels, codes, rest);
  }

  lemma ClearFits(dataSize: nat, entries: nat, clear: nat)
    requires 2 <= dataSize <= 8 && clear == Pow2(dataSize)
    ensures clear < Pow2(Width(dataSize, entries))
    ensures Entries(dataSize, entries, clear) == |InitTable(dataSize)|
  {
    SmallCodesFit(dataSize, entries);
  }

  lemma CompressStep(dataSize: nat, t: Table, pixels: seq<Byte>, k: nat, rest: seq<nat>, codes: seq<nat>)
    requires 2 <= dataSize <= 8 && NoStringFor(dataSize, t) && pixels != []
    requires Names(t, k, pixels) && |t| <= TABLE_SIZE
    requires Encodes(dataSize, Extend(t, t[k], pixels), pixels[|t[k]|..], rest) && codes == [k] + rest
    ensures Encodes(dataSize, t, pixels, codes)
  {
    assert codes[0] == k && codes[1..] == rest;
    assert k < |t| <= Pow2(Width(dataSize, |t|));
    assert k != Pow2(dataSize) && Entries(dataSize, |t|, k) == |t| + 1 == |Extend(t, t[k], pixels)|;
    FitCons(dataSize, |t|, codes, rest);
    StringCons(dataSize, t, pixels, codes, rest);
  }

  lemma FitCons(dataSize: nat, entries: nat, codes: seq<nat>, rest: seq<nat>)
    requires dataSize <= 8 && codes != [] && codes[1..] == rest && codes[0] < Pow2(Width(dataSize, entries))
    requires CodesFit(dataSize, Entries(dataSize, entries, codes[0]), rest)
    ensures CodesFit(dataSize, entries, codes)
  {
  }

  lemma ClearCons(dataSize: nat, t: Table, pixels: seq<Byte>, codes: seq<nat>, rest: seq<nat>)
    requires dataSize <= 8 && codes != [] && codes[0] == Pow2(dataSize) && codes[1..] == rest
    requires EncodedBy(dataSize, InitTable(dataSize), pixels, rest)
    requires ClearsInTime(dataSize, InitTable(dataSize), pixels, rest)
    ensures EncodedBy(dataSize, t, pixels, codes) && ClearsInTime(dataSize, t, pixels, codes)
  {
  }

  lemma StringCons(dataSize: nat, t: Table, pixels: seq<Byte>, codes: seq<nat>, rest: seq<nat>)
    requires dataSize <= 8 && NoStringFor(dataSize, t) && |t| <= TABLE_SIZE
    requires codes != [] && codes[1..] == rest && Names(t, codes[0], pixels)
    requires EncodedBy(dataSize, Extend(t, t[codes[0]], pixels), pixels[|t[codes[0]]|..], rest)
    requires ClearsInTime(dataSize, Extend(t, t[codes[0]], pixels), pixels[|t[codes[0]]|..], rest)
    ensures EncodedBy(dataSize, t, pixels, codes) && ClearsInTime(dataSize, t, pixels, codes)
  {
    assert codes[0] != Pow2(dataSize);
  }

  ghost predicate NoStringFor(dataSize: nat, t: Table) {
    Pow2(dataSize) + 1 < |t| && t[Pow2(dataSize)] == t[Pow2(dataSize) + 1] == []
  }

  lemma SmallCodesFit(dataSize: nat, entries: nat)
    requires 2 <= dataSize <= 8
    ensures Pow2(dataSize) + 1 < Pow2(Width(dataSize, entries))
  {
    Pow2Monotone(2, dataSize);
    Pow2Monotone(dataSize, dataSize + 1);
    Pow2Monotone(dataSize + 1, Width(dataSize, entries));
  }

  lemma EndCodeFits(dataSize: nat, entries: nat)
    requires 2 <= dataSize <= 8
    ensures CodesFit(dataSize, entries, [Pow2(dataSize) + 1])
  {
    SmallCodesFit(dataSize, entries);
    assert [Pow2(dataSize) + 1][1..] == [];
  }

  // The whole code stream encodes the pixels, and clears in time.
  lemma EncodeEncodes(dataSize: nat, pixels: seq<Byte>)
    requires 2 <= dataSize <= 8 && InRange(dataSize, pixels)
    ensures Encodes(dataSize, InitTable(dataSize), pixels, Encode(dataSize, pixels))
  {
    var t := InitTable(dataSize);
    var codes := Encode(dataSize, pixels);
    InitLiterals(dataSize);
    CompressEncodes(dataSize, t, pixels);
    ClearStep(dataSize, t, pixels, Compress(dataSize, t, pixels), codes);
  }

  // ---- the decoder's dictionary -----------------------------------------

  // A code that stands for a string when `n` is the next free slot.
  predicate IsCode(clear: nat, code: int, n: nat) {
    0 <= code < clear || clear + 2 <= code < n
  }

  // Every slot in use links to an earlier code, never to the clear or end code.
  ghost predicate DictOk(clear: nat, prefix: seq<int>, suffix: seq<Byte>, n: nat) {
    && |prefix| == |suffix| == TABLE_SIZE
    && 4 <= clear <= 256 && clear + 2 <= n <= TABLE_SIZE
    && (forall k :: 0 <= k < clear ==> suffix[k] == k)
    && (forall k :: clear + 2 <= k < n ==> IsCode(clear, prefix[k], k))
  }

  // The string of a code: follow the prefix links down to a literal.
  ghost function Str(clear: nat, prefix: seq<int>, suffix: seq<Byte>, code: nat): seq<Byte>
    requires code < |prefix| == |suffix|
  {
    if clear <= code && 0 <= prefix[code] < code
    then Str(clear, prefix, suffix, prefix[code]) + [suffix[code]]
    else [suffix[code]]
  }

  lemma {:induction false} StrFrame(clear: nat, p: seq<int>, s: seq<Byte>, p': seq<int>, s': seq<Byte>, n: nat,
                                    code: nat)
    requires code < n <= |p| == |s| == |p'| == |s'|
    requires p[..n] == p'[..n] && s[..n] == s'[..n]
    ensures Str(clear, p, s, code) == Str(clear, p', s', code)
    decreases code
  {
    assert p[code] == p[..n][code] == p'[..n][code] == p'[code];
    assert s[code] == s[..n][code] == s'[..n][code] == s'[code];
    if clear <= code && 0 <= p[code] < code {
      StrFrame(clear, p, s, p', s', n, p[code]);
    }
  }

  // A literal has length one; the string of slot k has between 1 and k - clear
  // pixels, and starts with the literal its chain ends in.
  lemma {:induction false} StrLength(clear: nat, prefix: seq<int>, suffix: seq<Byte>, n: nat, code: nat)
    requires DictOk(clear, prefix, suffix, n) && IsCode(clear, code, n)
    ensures 1 <= |Str(clear, prefix, suffix, code)|
    ensures |Str(clear, prefix, suffix, code)| <= if code < clear then 1 else code - clear
    decreases code
  {
    if clear + 2 <= code {
      StrLength(clear, prefix, suffix, n, prefix[code]);
    }
  }

  // The decoder's table follows the encoder's, one string behind: it knows every
  // string but the newest, and of the newest it knows all but the last pixel.
  ghost predicate Follows(clear: nat, prefix: seq<int>, suffix: seq<Byte>, available: nat, prev: int,
                          t: Table, todo: seq<Byte>)
  {
    && DictOk(clear, prefix, suffix, available)
    && |t| >= available
    && (forall k {:trigger Knows(clear, prefix, suffix, t, k)} :: IsCode(clear, k, available) ==>
        Knows(clear, prefix, suffix, t, k))
    && t[clear] == t[clear + 1] == []
    && if prev == -1 then |t| == available == clear + 2
       else && IsCode(clear, prev, available)
            && |t| == available + 1
            && (todo != [] ==> t[available] == Str(clear, prefix, suffix, prev) + [todo[0]])
  }

  // The decoder has the encoder's string of this code.
  ghost predicate Knows(clear: nat, prefix: seq<int>, suffix: seq<Byte>, t: Table, k: nat)
    requires k < |t| && k < |prefix| == |suffix|
  {
    t[k] == Str(clear, prefix, suffix, k)
  }

  // A freshly initialised or cleared dictionary follows the initial table.
  lemma FollowsInit(dataSize: nat, prefix: seq<int>, suffix: seq<Byte>, todo: seq<Byte>)
    requires 2 <= dataSize <= 8
    requires |prefix| == |suffix| == TABLE_SIZE
    requires forall k :: 0 <= k < Pow2(dataSize) && k < TABLE_SIZE ==> suffix[k] == k
    ensures Follows(Pow2(dataSize), prefix, suffix, Pow2(dataSize) + 2, -1, InitTable(dataSize), todo)
  {
    Pow2Monotone(2, dataSize);
    Pow2Monotone(dataSize, 8);
    Pow2Small();
    assert Pow2(dataSize) <= 256;
  }

  // The first code after a clear is a literal, and afterwards the decoder follows.
  lemma FollowsFirst(clear: nat, prefix: seq<int>, suffix: seq<Byte>, available: nat,
                     t: Table, todo: seq<Byte>, code: nat)
    requires Follows(clear, prefix, suffix, available, -1, t, todo)
    requires Names(t, code, todo)
    ensures code < clear && t[code] == [suffix[code]] && suffix[code] == code
    ensures Follows(clear, prefix, suffix, available, code, Extend(t, t[code], todo), todo[|t[code]|..])
  {
    assert code != clear && code != clear + 1;
    assert IsCode(clear, code, available);
    assert Knows(clear, prefix, suffix, t, code);
    forall k | IsCode(clear, k, available)
      ensures Knows(clear, prefix, suffix, Extend(t, t[code], todo), k)
    {
      assert Knows(clear, prefix, suffix, t, k);
    }
  }

  // The string of a later code, in the decoder's own terms; in particular the
  // code equal to `available` names the previous string followed by its first pixel.
  lemma CodeString(clear: nat, prefix: seq<int>, suffix: seq<Byte>, available: nat, prev: nat,
                   t: Table, todo: seq<Byte>, code: nat)
    requires Follows(clear, prefix, suffix, available, prev, t, todo)
    requires Names(t, code, todo) && todo != []
    ensures code <= available && code != clear && code != clear + 1
    ensures code < available ==> IsCode(clear, code, available) && t[code] == Str(clear, prefix, suffix, code)
    ensures code == available ==>
              var s := Str(clear, prefix, suffix, prev); s != [] && t[code] == s + [s[0]]
  {
    StrLength(clear, prefix, suffix, available, prev);
    assert code < available ==> Knows(clear, prefix, suffix, t, code);
    if code == available {
      var s := Str(clear, prefix, suffix, prev);
      assert t[code] == s + [todo[0]];
      assert todo[0] == t[code][0] == s[0];
    }
  }

  // Recording the previous string and the first pixel of the current one makes
  // the decoder follow the encoder's next table.
  lemma FollowsNext(clear: nat, prefix: seq<int>, suffix: seq<Byte>, available: nat, prev: nat,
                    t: Table, todo: seq<Byte>, code: nat)
    requires Follows(clear, prefix, suffix, available, prev, t, todo)
    requires Names(t, code, todo) && todo != [] && available < TABLE_SIZE
    ensures Follows(clear, prefix[available := prev], suffix[available := t[code][0]], available + 1, code,
                    Extend(t, t[code], todo), todo[|t[code]|..])
  {
    CodeString(clear, prefix, suffix, available, prev, t, todo, code);
    var p', s' := prefix[available := prev], suffix[available := t[code][0]];
    var t' := Extend(t, t[code], todo);
    assert p'[..available] == prefix[..available] && s'[..available] == suffix[..available];
    assert t[code][0] == todo[0];
    forall k | IsCode(clear, k, available + 1)
      ensures Knows(clear, p', s', t', k)
    {
      if k < available {
        assert Knows(clear, prefix, suffix, t, k);
        StrFrame(clear, prefix, suffix, p', s', available, k);
      } else {
        assert Knows(clear, prefix, suffix, t, prev);
        StrFrame(clear, prefix, suffix, p', s', available, prev);
      }
    }
    assert IsCode(clear, code, available + 1) && Knows(clear, p', s', t', code);
  }
}
