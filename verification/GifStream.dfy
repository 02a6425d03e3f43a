// The byte layer of a GIF image (GIF89a, sections 15 and 22): length-prefixed
// sub-blocks, and variable-width codes packed from the least significant bit.
module GifStream {
  import opened Bits
  import opened Wrappers

  const MAX_CODE_SIZE: nat := 12
  const TABLE_SIZE: nat := 4096

  // ---- sub-blocks -------------------------------------------------------

  // The data bytes still to be read at position `cp` when `count` bytes of the
  // current sub-block remain; None when the input ends before the terminator.
  function Payload(input: seq<Byte>, cp: nat, count: nat): Option<seq<Byte>>
    decreases |input| - cp
  {
    if cp >= |input| then None
    else if count > 0 then
      var tail := Payload(input, cp + 1, count - 1);
      if tail.None? then None else Some([input[cp]] + tail.value)
    else if input[cp] == 0 then Some([])
    else Payload(input, cp + 1, input[cp])
  }

  // Where the sub-block ends that holds the n-th data byte from here, which is where the
  // next size byte is.
  function BlockEnd(input: seq<Byte>, cp: nat, count: nat, n: nat): nat
    decreases |input| - cp
  {
    if n == 0 || cp >= |input| then cp + count
    else if count > 0 then BlockEnd(input, cp + 1, count - 1, n - 1)
    else BlockEnd(input, cp + 1, input[cp], n)
  }

  predicate LegalBlocks(blocks: seq<seq<Byte>>) {
    forall b <- blocks :: 1 <= |b| <= 255
  }

  // A data stream cut into sub-blocks, closed by the block terminator.
  function SubBlocks(blocks: seq<seq<Byte>>): seq<Byte>
    requires LegalBlocks(blocks)
  {
    if blocks == [] then [0] else [|blocks[0]|] + blocks[0] + SubBlocks(blocks[1..])
  }

  function Flatten(blocks: seq<seq<Byte>>): seq<Byte> {
    if blocks == [] then [] else blocks[0] + Flatten(blocks[1..])
  }

  // Reading on from inside a sub-block: its remaining bytes come first.
  lemma {:induction false} PayloadInBlock(input: seq<Byte>, cp: nat, count: nat)
    requires cp + count < |input|
    ensures Payload(input, cp, count) ==
            var tail := Payload(input, cp + count, 0);
            if tail.None? then None else Some(input[cp..cp + count] + tail.value)
    decreases count
  {
    if count == 0 {
      var tail := Payload(input, cp, 0);
      assert tail.Some? ==> input[cp..cp] + tail.value == tail.value;
    } else {
      PayloadInBlock(input, cp + 1, count - 1);
      var tail := Payload(input, cp + count, 0);
      assert input[cp..cp + count] == [input[cp]] + input[cp + 1..cp + count];
      if tail.Some? {
        assert [input[cp]] + (input[cp + 1..cp + count] + tail.value) == input[cp..cp + count] + tail.value;
      }
    }
  }

  // However a data stream is cut into sub-blocks, and whatever surrounds them,
  // reading the sub-blocks gives the stream back.
  lemma {:induction false} SubBlocksRoundTrip(before: seq<Byte>, blocks: seq<seq<Byte>>, after: seq<Byte>)
    requires LegalBlocks(blocks)
    ensures Payload(before + SubBlocks(blocks) + after, |before|, 0) == Some(Flatten(blocks))
    decreases |blocks|
  {
    var input := before + SubBlocks(blocks) + after;
    var cp := |before|;
    if blocks == [] {
      assert input[cp] == 0;
    } else {
      var b, rest := blocks[0], blocks[1..];
      var before' := before + [|b|] + b;
      assert input == before' + SubBlocks(rest) + after;
      SubBlocksRoundTrip(before', rest, after);
      assert SubBlocks(rest) != [];
      assert input[cp] == |b|;
      PayloadInBlock(input, cp + 1, |b|);
      assert input[cp + 1..cp + 1 + |b|] == b;
      assert |before'| == cp + 1 + |b|;
    }
  }

  // Reading n bytes on in a sub-block that has them.
  lemma {:induction false} WithinBlock(input: seq<Byte>, cp: nat, count: nat, n: nat)
    requires n > count && cp + count < |input|
    ensures BlockEnd(input, cp, count, n) == BlockEnd(input, cp + count, 0, n - count)
    decreases count
  {
    if count > 0 {
      WithinBlock(input, cp + 1, count - 1, n - 1);
    }
  }

  lemma {:induction false} EndOfBlock(input: seq<Byte>, cp: nat, count: nat, n: nat)
    requires n <= count && cp + count <= |input|
    ensures BlockEnd(input, cp, count, n) == cp + count
    decreases count
  {
    if n > 0 {
      EndOfBlock(input, cp + 1, count - 1, n - 1);
    }
  }

  // If the n-th byte of the data is in the j-th sub-block, that is where this one ends.
  lemma {:induction false} BlockEndIs(before: seq<Byte>, blocks: seq<seq<Byte>>, after: seq<Byte>, j: nat, n: nat)
    requires LegalBlocks(blocks) && j < |blocks| && LegalBlocks(blocks[..j + 1])
    requires |Flatten(blocks[..j])| < n <= |Flatten(blocks[..j + 1])|
    ensures BlockEnd(before + SubBlocks(blocks) + after, |before|, 0, n) + 1 == |before| + |SubBlocks(blocks[..j + 1])|
    decreases j
  {
    var input, b, rest := before + SubBlocks(blocks) + after, blocks[0], blocks[1..];
    var next := before + [|b|] + b;
    BlockHead(before, blocks, after, b, rest, next);
    if j == 0 {
      BlocksUpTo(blocks, b, rest, j);
      FromSize(input, |before|, |b|, n, |next|, 0);
    } else {
      var k: nat := j - 1;
      BlocksUpTo(blocks, b, rest, k);
      BlocksUpTo(blocks, b, rest, k + 1);
      var m: nat := n - |b|;
      BlockEndIs(next, rest, after, k, m);
      FromSize(input, |before|, |b|, n, |next|, m);
    }
  }

  // From a size byte on, the data ends in this sub-block or m bytes behind it.
  lemma FromSize(input: seq<Byte>, cp: nat, size: nat, n: nat, next: nat, m: nat)
    requires n > 0 && next == cp + 1 + size < |input| && input[cp] == size && m == (if n <= size then 0 else n - size)
    ensures BlockEnd(input, cp, 0, n) == if n <= size then next else BlockEnd(input, next, 0, m)
  {
    if n <= size {
      EndOfBlock(input, cp + 1, size, n);
    } else {
      WithinBlock(input, cp + 1, size, n);
    }
  }

  lemma BlockHead(before: seq<Byte>, blocks: seq<seq<Byte>>, after: seq<Byte>, b: seq<Byte>, rest: seq<seq<Byte>>,
                  next: seq<Byte>)
    requires LegalBlocks(blocks) && blocks != [] && b == blocks[0] && rest == blocks[1..]
    requires next == before + [|b|] + b
    ensures var input := before + SubBlocks(blocks) + after;
            && input == next + SubBlocks(rest) + after && |next| < |input| && |before| < |input|
            && input[|before|] == |b|
  {
    BlockFirst(before, [|b|], b, SubBlocks(rest), after);
  }

  lemma BlockFirst(before: seq<Byte>, size: seq<Byte>, b: seq<Byte>, tail: seq<Byte>, after: seq<Byte>)
    requires |size| == 1 && tail != []
    ensures before + (size + b + tail) + after == before + size + b + tail + after
    ensures (before + (size + b + tail) + after)[|before|] == size[0]
  {
  }

  lemma BlocksUpTo(blocks: seq<seq<Byte>>, b: seq<Byte>, rest: seq<seq<Byte>>, j: nat)
    requires LegalBlocks(blocks) && blocks != [] && b == blocks[0] && rest == blocks[1..] && j <= |rest|
    ensures LegalBlocks(blocks[..j + 1]) && LegalBlocks(rest[..j])
    ensures |SubBlocks(blocks[..j + 1])| == 1 + |b| + |SubBlocks(rest[..j])|
    ensures |Flatten(blocks[..j + 1])| == |b| + |Flatten(rest[..j])|
    ensures |SubBlocks(rest[..0])| == 1 && Flatten(rest[..0]) == []
  {
    assert blocks[..j + 1][1..] == rest[..j] && blocks[..j + 1][0] == b;
  }

  // ---- code widths ------------------------------------------------------

  // Codes are as wide as the largest code in the encoder's string table needs,
  // from data_size + 1 bits up to 12 (Appendix F). `entries` counts the table
  // slots in use, the clear and end codes included.
  function Width(dataSize: nat, entries: nat): (n: nat)
    requires dataSize < MAX_CODE_SIZE
  {
    WidthFrom(dataSize + 1, entries)
  }

  function WidthFrom(n: nat, entries: nat): (width: nat)
    requires n <= MAX_CODE_SIZE
    ensures n <= width <= MAX_CODE_SIZE
    ensures entries <= TABLE_SIZE ==> entries <= Pow2(width)
    ensures n < width ==> Pow2(width - 1) < entries
    decreases MAX_CODE_SIZE - n
  {
    Pow2Small();
    if n == MAX_CODE_SIZE || entries <= Pow2(n) then n else WidthFrom(n + 1, entries)
  }

  // Those three facts determine the width.
  lemma {:induction false} WidthUnique(dataSize: nat, entries: nat, n: nat)
    requires dataSize < MAX_CODE_SIZE && dataSize + 1 <= n <= MAX_CODE_SIZE
    requires entries <= Pow2(n) || n == MAX_CODE_SIZE
    requires n == dataSize + 1 || Pow2(n - 1) < entries
    ensures Width(dataSize, entries) == n
  {
    var width := Width(dataSize, entries);
    Pow2Small();
    if width < n {
      Pow2Monotone(width, n - 1);
      WidthReached(dataSize + 1, entries);
    } else if n < width {
      Pow2Monotone(n, width - 1);
    }
  }

  lemma {:induction false} WidthReached(n: nat, entries: nat)
    requires n <= MAX_CODE_SIZE
    ensures WidthFrom(n, entries) == MAX_CODE_SIZE || entries <= Pow2(WidthFrom(n, entries))
    decreases MAX_CODE_SIZE - n
  {
    if n == MAX_CODE_SIZE || entries <= Pow2(n) {
    } else {
      WidthReached(n + 1, entries);
    }
  }

  // ---- packed codes -----------------------------------------------------

  // The number of table entries after a code has been sent. The table holds 4096
  // strings; a count of 4097 says that it was full when the last code was sent.
  function Entries(dataSize: nat, entries: nat, code: nat): nat {
    if code == Pow2(dataSize) then Pow2(dataSize) + 2
    else if entries > TABLE_SIZE then entries
    else entries + 1
  }

  // A code of `size` bits followed by the bits numbered `rest`.
  function Joined(code: nat, size: nat, rest: nat): nat {
    code + Shl(rest, size)
  }

  // The number spelled by a list of codes packed at their widths, first code in
  // the low bits, with arbitrary bits (`pad`) beyond the last one.
  function StreamVal(dataSize: nat, entries: nat, codes: seq<nat>, pad: nat): nat
    requires dataSize < MAX_CODE_SIZE
    decreases |codes|
  {
    if codes == [] then pad
    else Joined(codes[0], Width(dataSize, entries),
                StreamVal(dataSize, Entries(dataSize, entries, codes[0]), codes[1..], pad))
  }

  function StreamLen(dataSize: nat, entries: nat, codes: seq<nat>): nat
    requires dataSize < MAX_CODE_SIZE
    decreases |codes|
  {
    if codes == [] then 0
    else Width(dataSize, entries)
         + StreamLen(dataSize, Entries(dataSize, entries, codes[0]), codes[1..])
  }

  // ---- a packer ---------------------------------------------------------

  lemma {:induction false} LowBytesVal(x: nat, n: nat)
    requires x < Pow2(8 * n)
    ensures Val(LowBytes(x, n)) == x
  {
    if n == 0 {
    } else {
      Pow2Sum(8, 8 * (n - 1));
      Pow2Small();
      assert 8 * n == 8 + 8 * (n - 1);
      assert x / 256 < Pow2(8 * (n - 1));
      LowBytesVal(x / 256, n - 1);
      assert LowBytes(x, n)[1..] == LowBytes(x / 256, n - 1);
    }
  }

  // Every code fits its width.
  ghost predicate CodesFit(dataSize: nat, entries: nat, codes: seq<nat>)
    requires dataSize < MAX_CODE_SIZE
    decreases |codes|
  {
    codes == [] ||
    (codes[0] < Pow2(Width(dataSize, entries))
     && CodesFit(dataSize, Entries(dataSize, entries, codes[0]), codes[1..]))
  }

  lemma {:induction false} StreamValBound(dataSize: nat, entries: nat, codes: seq<nat>)
    requires dataSize < MAX_CODE_SIZE && CodesFit(dataSize, entries, codes)
    ensures StreamVal(dataSize, entries, codes, 0) < Pow2(StreamLen(dataSize, entries, codes))
    decreases |codes|
  {
    if codes != [] {
      var w := Width(dataSize, entries);
      var entries' := Entries(dataSize, entries, codes[0]);
      StreamValBound(dataSize, entries', codes[1..]);
      var len := StreamLen(dataSize, entries', codes[1..]);
      Pow2Sum(w, len);
      ShlIsProduct(StreamVal(dataSize, entries', codes[1..], 0), w);
      MulLe(Pow2(w), StreamVal(dataSize, entries', codes[1..], 0), Pow2(len) - 1);
      Distribute(Pow2(w), Pow2(len), -1);
    }
  }

  // The bytes of a code list: as many as its bits need.
  function PackCodes(dataSize: nat, codes: seq<nat>): seq<Byte>
    requires dataSize < MAX_CODE_SIZE
  {
    var entries := Pow2(dataSize) + 2;
    LowBytes(StreamVal(dataSize, entries, codes, 0), (StreamLen(dataSize, entries, codes) + 7) / 8)
  }

  lemma PackCodesVal(dataSize: nat, codes: seq<nat>)
    requires dataSize < MAX_CODE_SIZE && CodesFit(dataSize, Pow2(dataSize) + 2, codes)
    ensures Val(PackCodes(dataSize, codes)) == StreamVal(dataSize, Pow2(dataSize) + 2, codes, 0)
    ensures 8 * |PackCodes(dataSize, codes)| >= StreamLen(dataSize, Pow2(dataSize) + 2, codes)
  {
    var entries := Pow2(dataSize) + 2;
    var len, value := StreamLen(dataSize, entries, codes), StreamVal(dataSize, entries, codes, 0);
    var size: nat := (len + 7) / 8;
    StreamValBound(dataSize, entries, codes);
    Pow2Monotone(len, 8 * size);
    assert PackCodes(dataSize, codes) == LowBytes(value, size);
    LowBytesVal(value, size);
  }

  // ---- one step of the reader -------------------------------------------

  // The reader's registers (`count` bytes left in the sub-block at `cp`, `bits`
  // pending bits in `datum`) hold exactly the code string numbered `value`,
  // with at least `width` bits of it left.
  ghost predicate Reading(input: seq<Byte>, cp: nat, count: nat, datum: nat, bits: nat, value: nat, width: nat) {
    var p := Payload(input, cp, count);
    p.Some? && bits <= 19 && Pending(datum, bits, Val(p.value), |p.value|, value, width)
  }

  // `bits` bits in `datum`, then `n` bytes numbered `high`, spell `value`.
  ghost predicate Pending(datum: nat, bits: nat, high: nat, n: nat, value: nat, width: nat) {
    datum < Pow2(bits) && datum + Shl(high, bits) == value && bits + 8 * n >= width
  }

  // The measure that falls with every byte read.
  ghost function Unread(input: seq<Byte>, cp: nat, count: nat): nat {
    var p := Payload(input, cp, count);
    if p.Some? then |p.value| else 0
  }

  // Opening the next sub-block leaves the pending data unchanged.
  lemma OpenBlock(input: seq<Byte>, cp: nat, datum: nat, bits: nat, value: nat, width: nat)
    requires Reading(input, cp, 0, datum, bits, value, width) && bits < width
    ensures cp < |input| && input[cp] != 0
    ensures Reading(input, cp + 1, input[cp], datum, bits, value, width)
    ensures Unread(input, cp + 1, input[cp]) == Unread(input, cp, 0)
  {
  }

  // Shifting the next byte in above the pending bits keeps the value.
  lemma ShiftIn(input: seq<Byte>, cp: nat, count: nat, datum: nat, bits: nat, value: nat, width: nat)
    requires Reading(input, cp, count, datum, bits, value, width) && count > 0
    requires bits < MAX_CODE_SIZE
    ensures cp < |input|
    ensures Reading(input, cp + 1, count - 1, Above(datum, input[cp], bits), bits + 8, value, width)
    ensures Unread(input, cp + 1, count - 1) == Unread(input, cp, count) - 1
  {
    var tail := Payload(input, cp + 1, count - 1).value;
    var all := [input[cp]] + tail;
    assert Payload(input, cp, count) == Some(all);
    assert all[1..] == tail;
    ShiftByte(datum, bits, input[cp], Val(tail), |tail|, value, width);
  }

  lemma ShiftByte(datum: nat, bits: nat, b: Byte, high: nat, n: nat, value: nat, width: nat)
    requires Pending(datum, bits, b + 256 * high, n + 1, value, width)
    ensures Pending(Above(datum, b, bits), bits + 8, high, n, value, width)
  {
    var p := Pow2(bits);
    Pow2Sum(bits, 8);
    Pow2Small();
    ShlIsProduct(b, bits);
    ShlIsProduct(high, bits + 8);
    ShlIsProduct(b + 256 * high, bits);
    Distribute(p, b, 256 * high);
    MulAssoc(p, 256, high);
    MulLe(p, b, 255);
  }

  // Taking the low `size` bits yields the first packed code.
  lemma TakeCode(input: seq<Byte>, cp: nat, count: nat, datum: nat, bits: nat,
                 size: nat, code: nat, rest: nat, width: nat)
    requires size <= bits && code < Pow2(size)
    requires Reading(input, cp, count, datum, bits, Joined(code, size, rest), size + width)
    ensures Low(datum, size) == code
    ensures Reading(input, cp, count, Shr(datum, size), bits - size, rest, width)
  {
    var p := Payload(input, cp, count).value;
    TakePending(datum, bits, Val(p), |p|, size, code, rest, width);
  }

  lemma TakePending(datum: nat, bits: nat, high: nat, n: nat, size: nat, code: nat, rest: nat, width: nat)
    requires size <= bits && code < Pow2(size)
    requires Pending(datum, bits, high, n, Joined(code, size, rest), size + width)
    ensures Low(datum, size) == code
    ensures Pending(Shr(datum, size), bits - size, high, n, rest, width)
  {
    ShlIsProduct(high, bits);
    ShlIsProduct(rest, size);
    ShlIsProduct(high, bits - size);
    TakeLowBits(datum, bits, high, size, code, rest);
  }
}
