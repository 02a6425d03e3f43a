// The LZW decoder of mod-gif.c. Its local variables are the fields of a class,
// so that each step of its loop can carry its own contract.
module GifDecoder {
  import opened Bits
  import opened GifStream
  import opened GifLzw

  // x & mask, for a mask of the form 2^n - 1.
  function Masked(x: nat, mask: nat): nat {
    Mod(x, mask + 1)
  }

  function Reversed(s: seq<Byte>): (r: seq<Byte>)
    ensures |r| == |s|
  {
    if s == [] then [] else [s[|s| - 1]] + Reversed(s[..|s| - 1])
  }

  lemma ReversedPush(s: seq<Byte>, c: Byte)
    ensures Reversed(s + [c]) == [c] + Reversed(s)
  {
    assert (s + [c])[..|s|] == s;
  }

  lemma ReversedPop(s: seq<Byte>)
    requires s != []
    ensures Reversed(s) == [s[|s| - 1]] + Reversed(s[..|s| - 1])
  {
  }

  // The next code of a stream with pixels still to send fits its width.
  lemma NextCodeFits(dataSize: nat, t: Table, todo: seq<Byte>, codes: seq<nat>)
    requires 2 <= dataSize <= 8 && todo != [] && EncodedBy(dataSize, t, todo, codes)
    ensures codes != [] && codes[0] < Pow2(Width(dataSize, |t|))
    ensures Width(dataSize, |t|) <= UsedLen(dataSize, t, todo, codes)
  {
    SmallCodesFit(dataSize, |t|);
    FullTableWidth(dataSize, |t|);
  }

  // A full table needs the widest codes.
  lemma FullTableWidth(dataSize: nat, entries: nat)
    requires dataSize <= 8
    ensures entries >= TABLE_SIZE ==> Width(dataSize, entries) == MAX_CODE_SIZE
    ensures Pow2(MAX_CODE_SIZE) == TABLE_SIZE
  {
    Pow2Small();
    if entries >= TABLE_SIZE {
      WidthUnique(dataSize, entries, MAX_CODE_SIZE);
    }
  }

  // What the encoder still has to say: codes for the remaining pixels, numbered
  // `value`, taking `width` bits, clearing in time or not.
  ghost predicate Says(dataSize: nat, t: Table, todo: seq<Byte>, codes: seq<nat>, pad: nat,
                       inTime: bool, value: nat, width: nat)
  {
    && 2 <= dataSize <= 8
    && EncodedBy(dataSize, t, todo, codes)
    && ClearsInTime(dataSize, t, todo, codes) == inTime
    && value == StreamVal(dataSize, |t|, codes, pad)
    && width == UsedLen(dataSize, t, todo, codes)
  }

  // The next code heads the bit string, and fits its width.
  lemma NextBits(dataSize: nat, t: Table, todo: seq<Byte>, codes: seq<nat>, pad: nat,
                 inTime: bool, value: nat, width: nat)
      returns (value': nat, width': nat)
    requires Says(dataSize, t, todo, codes, pad, inTime, value, width) && todo != []
    ensures codes != [] && codes[0] < Pow2(Width(dataSize, |t|))
    ensures value == Joined(codes[0], Width(dataSize, |t|), value') && width == Width(dataSize, |t|) + width'
    ensures value' == StreamVal(dataSize, Entries(dataSize, |t|, codes[0]), codes[1..], pad)
  {
    NextCodeFits(dataSize, t, todo, codes);
    value' := StreamVal(dataSize, Entries(dataSize, |t|, codes[0]), codes[1..], pad);
    width' := width - Width(dataSize, |t|);
  }

  // What the next code can be, and what the codes after it say.
  lemma NextCode(dataSize: nat, t: Table, todo: seq<Byte>, codes: seq<nat>, pad: nat,
                 inTime: bool, value: nat, width: nat, value': nat, width': nat)
    requires Says(dataSize, t, todo, codes, pad, inTime, value, width) && todo != [] && codes != []
    requires value' == StreamVal(dataSize, Entries(dataSize, |t|, codes[0]), codes[1..], pad)
    requires width == Width(dataSize, |t|) + width'
    ensures codes[0] == Pow2(dataSize) ==>
              Says(dataSize, InitTable(dataSize), todo, codes[1..], pad, inTime, value', width')
    ensures codes[0] != Pow2(dataSize) ==> Names(t, codes[0], todo)
    ensures codes[0] != Pow2(dataSize) && |t| > TABLE_SIZE ==> !inTime
    ensures codes[0] != Pow2(dataSize) && |t| <= TABLE_SIZE ==>
              Says(dataSize, Extend(t, t[codes[0]], todo), todo[|t[codes[0]]|..], codes[1..], pad,
                   inTime, value', width')
  {
    if codes[0] == Pow2(dataSize) {
      NextClear(dataSize, t, todo, codes, inTime, width');
    } else {
      NextString(dataSize, t, todo, codes, inTime, width');
    }
  }

  lemma NextClear(dataSize: nat, t: Table, todo: seq<Byte>, codes: seq<nat>, inTime: bool, width': nat)
    requires 2 <= dataSize <= 8 && todo != [] && codes != [] && codes[0] == Pow2(dataSize)
    requires EncodedBy(dataSize, t, todo, codes) && ClearsInTime(dataSize, t, todo, codes) == inTime
    requires UsedLen(dataSize, t, todo, codes) == Width(dataSize, |t|) + width'
    ensures |InitTable(dataSize)| == Entries(dataSize, |t|, codes[0])
    ensures EncodedBy(dataSize, InitTable(dataSize), todo, codes[1..])
    ensures ClearsInTime(dataSize, InitTable(dataSize), todo, codes[1..]) == inTime
    ensures UsedLen(dataSize, InitTable(dataSize), todo, codes[1..]) == width'
  {
  }

  lemma NextString(dataSize: nat, t: Table, todo: seq<Byte>, codes: seq<nat>, inTime: bool, width': nat)
    requires 2 <= dataSize <= 8 && todo != [] && codes != [] && codes[0] != Pow2(dataSize)
    requires EncodedBy(dataSize, t, todo, codes) && ClearsInTime(dataSize, t, todo, codes) == inTime
    requires UsedLen(dataSize, t, todo, codes) == Width(dataSize, |t|) + width'
    ensures Names(t, codes[0], todo)
    ensures |t| > TABLE_SIZE ==> !inTime
    ensures |t| <= TABLE_SIZE ==>
              var next, rest := Extend(t, t[codes[0]], todo), todo[|t[codes[0]]|..];
              && |next| == Entries(dataSize, |t|, codes[0])
              && EncodedBy(dataSize, next, rest, codes[1..])
              && ClearsInTime(dataSize, next, rest, codes[1..]) == inTime
              && UsedLen(dataSize, next, rest, codes[1..]) == width'
  {
  }

  // The width before and after the first code is data_size + 1.
  lemma FirstWidths(dataSize: nat)
    requires 2 <= dataSize <= 8
    ensures Width(dataSize, Pow2(dataSize) + 2) == dataSize + 1
    ensures Width(dataSize, Pow2(dataSize) + 3) == dataSize + 1
  {
    Pow2Monotone(2, dataSize);
    WidthUnique(dataSize, Pow2(dataSize) + 2, dataSize + 1);
    WidthUnique(dataSize, Pow2(dataSize) + 3, dataSize + 1);
  }

  lemma ClearIsByte(dataSize: nat)
    requires dataSize <= 8
    ensures Pow2(dataSize) <= 256
  {
    Pow2Monotone(dataSize, 8);
    Pow2Small();
  }

  // The decoder's growth test keeps its code width equal to the encoder's.
  lemma GrowthAgrees(dataSize: nat, available: nat, codeSize: nat)
    requires 2 <= dataSize <= 8 && Pow2(dataSize) + 3 <= available <= TABLE_SIZE
    requires codeSize == Width(dataSize, available)
    ensures var grows := Masked(available, Pow2(codeSize) - 1) == 0 && available < TABLE_SIZE;
            && Width(dataSize, available + 1) == (if grows then codeSize + 1 else codeSize)
            && (grows ==> available == Pow2(codeSize) && Pow2(codeSize + 1) == 2 * available)
  {
    Pow2Small();
    if available == Pow2(codeSize) {
      DivModUnique(available, Pow2(codeSize), 1, 0);
      WidthWhenFilled(dataSize, available, codeSize);
    } else {
      DivModUnique(available, Pow2(codeSize), 0, available);
      WidthUnique(dataSize, available + 1, codeSize);
    }
  }

  lemma WidthWhenFilled(dataSize: nat, available: nat, codeSize: nat)
    requires 2 <= dataSize <= 8 && dataSize < codeSize <= MAX_CODE_SIZE
    requires available == Pow2(codeSize)
    ensures available <= TABLE_SIZE
    ensures Width(dataSize, available + 1) == if available < TABLE_SIZE then codeSize + 1 else codeSize
  {
    Pow2Small();
    Pow2Monotone(codeSize, MAX_CODE_SIZE);
    assert Pow2(codeSize + 1) == 2 * available;
    if codeSize < MAX_CODE_SIZE {
      WidthUnique(dataSize, available + 1, codeSize + 1);
    } else {
      Pow2Monotone(codeSize - 1, codeSize);
      WidthUnique(dataSize, available + 1, codeSize);
    }
  }

  // The bits pending and unread are those to be taken and others, which are left; the
  // sub-block that holds the last bit to be taken has its end at this index.
  ghost predicate Remains(input: seq<Byte>, cp: nat, count: nat, bits: nat, width: nat, slack: nat, stop: nat) {
    && bits + 8 * Unread(input, cp, count) == width + slack && Unread(input, cp, count) >= slack / 8
    && BlockEnd(input, cp, count, Unread(input, cp, count) - slack / 8) == stop
  }

  class LzwDecoder {
    const input: seq<Byte>
    const dataSize: nat
    const prefix: array<int>
    const suffix: array<Byte>
    const stack: array<Byte>

    // The bit reader.
    var cp: nat
    var count: nat
    var datum: nat
    var bits: nat

    // The dictionary.
    var codeSize: nat
    var codeMask: nat
    var available: nat
    var oldCode: int
    var first: Byte

    // The pixel stack.
    var top: nat

    // What the encoder still has to say: the codes not read yet, the pixels they
    // stand for, the encoder's string table, the bits after the last code.
    ghost var codes: seq<nat>
    ghost var todo: seq<Byte>
    ghost var table: Table
    ghost const pad: nat
    ghost const inTime: bool
    ghost var value: nat
    ghost var width: nat

    // The bits of the payload that are not taken, and where the last sub-block read ends.
    ghost const slack: nat
    ghost const stop: nat

    ghost predicate Shape()
      reads `top
    {
      && 2 <= dataSize <= 8
      && prefix.Length == suffix.Length == stack.Length == TABLE_SIZE
      && suffix != stack
      && top <= TABLE_SIZE
    }

    ghost predicate Follow()
      reads `top, `available, `oldCode, `table, `todo, prefix, suffix
      requires Shape()
    {
      Follows(Pow2(dataSize), prefix[..], suffix[..], available, oldCode, table, todo)
    }

    ghost predicate Tables()
      reads `top, `available, `oldCode, `first, `table, `todo, prefix, suffix
      requires Shape()
    {
      && Follow()
      && (oldCode != -1 ==> first == Str(Pow2(dataSize), prefix[..], suffix[..], oldCode)[0])
    }

    // The bit reader holds the bits of the remaining codes.
    ghost predicate Holds()
      reads `cp, `count, `datum, `bits, `value, `width
    {
      Reading(input, cp, count, datum, bits, value, width)
    }

    // A byte is only read when the code needs it, so that in the end less than a byte is
    // pending.
    ghost predicate OnTrack()
      reads `cp, `count, `bits, `width
    {
      Remains(input, cp, count, bits, width, slack, stop)
    }

    ghost predicate NoByteTooMany()
      reads `bits, `codeSize, `todo
    {
      bits < 8 || (bits < codeSize + 8 && todo != [])
    }

    ghost predicate WidthFor(entries: nat)
      reads `codeSize, `codeMask
    {
      dataSize <= 8 && codeSize == Width(dataSize, entries) && codeMask == Pow2(codeSize) - 1
    }

    ghost predicate Saying()
      reads `codes, `todo, `table, `value, `width
    {
      Says(dataSize, table, todo, codes, pad, inTime, value, width)
    }

    // The tables as they will be for the encoder's next table.
    ghost predicate TablesAfter(code: nat)
      reads `top, `available, `oldCode, `first, `table, `todo, prefix, suffix
      requires Shape()
    {
      && Names(table, code, todo) && oldCode == code
      && Follows(Pow2(dataSize), prefix[..], suffix[..], available, code,
                 Extend(table, table[code], todo), todo[|table[code]|..])
      && first == Str(Pow2(dataSize), prefix[..], suffix[..], code)[0]
    }

    // The code names the pixels that come next, and the table has room.
    ghost predicate NamesNext(code: nat)
      reads `table, `todo
    {
      todo != [] && Names(table, code, todo) && |table| <= TABLE_SIZE
    }

    ghost predicate Valid()
      reads this, prefix, suffix
    {
      Shape() && Tables() && WidthFor(|table|) && Holds() && Saying() && OnTrack() && NoByteTooMany()
    }

    // What the registers of every valid decoder stay within.
    lemma Bounds()
      requires Valid()
      ensures datum < Pow2(bits) && bits <= 19
      ensures dataSize < codeSize <= MAX_CODE_SIZE && codeMask == Pow2(codeSize) - 1
      ensures Pow2(dataSize) + 2 <= available <= Pow2(codeSize) && available <= TABLE_SIZE && top <= TABLE_SIZE
    {
      Pow2Small();
      WidthReached(dataSize + 1, |table|);
      Pow2Monotone(2, dataSize);
      Pow2Monotone(dataSize + 1, codeSize);
    }

    // And its entries: a chain of links goes down, past no special code, and its
    // string fits the stack.
    lemma EntryBounds(k: nat)
      requires Valid() && Pow2(dataSize) + 2 <= k < available
      ensures 0 <= prefix[k] < k && prefix[k] != Pow2(dataSize) && prefix[k] != Pow2(dataSize) + 1
      ensures |Str(Pow2(dataSize), prefix[..], suffix[..], k)| <= k - Pow2(dataSize) < TABLE_SIZE
    {
      StrLength(Pow2(dataSize), prefix[..], suffix[..], available, k);
      assert prefix[..][k] == prefix[k];
    }

    // The pixels waiting on the stack, in the order they will be popped.
    ghost function Stacked(): seq<Byte>
      reads `top, stack
      requires top <= stack.Length
    {
      Reversed(stack[..top])
    }

    constructor (input: seq<Byte>, start: nat, ghost pixels: seq<Byte>, ghost codes: seq<nat>, ghost pad: nat)
      requires Conforming(input, start, pixels, codes, pad)
      ensures Valid() && top == 0 && todo == pixels && this.input == input
      ensures inTime == ClearsInTime(input[start], InitTable(input[start]), pixels, codes)
      ensures stop == StreamEnd(input, start, pixels, codes)
      ensures fresh(prefix) && fresh(suffix) && fresh(stack)
    {
      var size: nat := input[start];
      var clear := Pow2(size);
      ClearIsByte(size);
      var p := new int[TABLE_SIZE](_ => 0);
      var s := new Byte[TABLE_SIZE](k requires 0 <= k < TABLE_SIZE => if k < clear then k else 0);
      this.input := input;
      this.dataSize := size;
      this.prefix, this.suffix := p, s;
      this.stack := new Byte[TABLE_SIZE](_ => 0);
      this.available := clear + 2;
      this.oldCode := -1;
      this.codeSize := size + 1;
      this.codeMask := Pow2(size + 1) - 1;
      this.datum, this.bits, this.count, this.first, this.top := 0, 0, 0, 0, 0;
      this.cp := start + 1;
      ghost var table := InitTable(size);
      ghost var inTime, value, width, slack, stop := ConformingStarts(input, start, pixels, codes, pad, size, table);
      this.codes, this.todo, this.table, this.pad := codes, pixels, table, pad;
      this.inTime, this.value, this.width, this.slack, this.stop := inTime, value, width, slack, stop;
      new;
      assert Follow() by {
        FollowsInit(size, prefix[..], suffix[..], pixels);
      }
      assert WidthFor(|this.table|) by {
        FirstWidths(size);
      }
    }

    // Lines 121-127: get the size of the next packet.
    method OpenPacket()
      requires Holds() && OnTrack() && bits < width && count == 0
      modifies `cp, `count
      ensures Holds() && OnTrack() && count > 0
      ensures Unread(input, cp, count) == old(Unread(input, cp, count))
    {
      OpenBlock(input, cp, datum, bits, value, width);
      count := input[cp];
      cp := cp + 1;
    }

    // Lines 129-131: add bits from the next byte and adjust the counters.
    method AddByte()
      requires Holds() && OnTrack() && bits < MAX_CODE_SIZE && bits < width && count > 0
      modifies `cp, `count, `datum, `bits
      ensures Holds() && OnTrack() && bits == old(bits) + 8
      ensures Unread(input, cp, count) < old(Unread(input, cp, count))
    {
      ShiftIn(input, cp, count, datum, bits, value, width);
      datum := Above(datum, input[cp], bits);
      cp := cp + 1;
      bits := bits + 8;
      count := count - 1;
    }

    // Lines 119-132: a byte is added, from the next packet if this one is used up.
    method ReadByte()
      requires Holds() && OnTrack() && bits < codeSize <= width && codeSize <= MAX_CODE_SIZE
      modifies `cp, `count, `datum, `bits
      ensures Holds() && OnTrack() && bits == old(bits) + 8
      ensures Unread(input, cp, count) < old(Unread(input, cp, count))
    {
      if count == 0 {
        OpenPacket();
      }
      AddByte();
    }

    // Lines 135-137: isolate the code bits and adjust the temps.
    method TakeBits(ghost next: nat, ghost value': nat, ghost width': nat) returns (code: nat)
      requires Holds() && codeSize <= bits && codeMask == Pow2(codeSize) - 1 && next < Pow2(codeSize)
      requires value == Joined(next, codeSize, value') && width == codeSize + width' && OnTrack()
      modifies `datum, `bits, `value, `width
      ensures code == next && Holds() && value == value' && width == width'
      ensures OnTrack() && bits == old(bits) - codeSize
    {
      TakeCode(input, cp, count, datum, bits, codeSize, next, value', width');
      code := Masked(datum, codeMask);
      datum := Shr(datum, codeSize);
      bits := bits - codeSize;
      value, width := value', width';
    }

    // Lines 143-149: time to reset the tables.
    method ClearTables()
      requires Shape() && Tables()
      modifies `codeSize, `codeMask, `available, `oldCode, `table
      ensures Shape() && Tables() && table == InitTable(dataSize) && WidthFor(|table|)
    {
      codeSize := dataSize + 1;
      codeMask := Pow2(codeSize) - 1;
      available := Pow2(dataSize) + 2;
      oldCode := -1;
      table := InitTable(dataSize);
      FollowsInit(dataSize, prefix[..], suffix[..], todo);
      FirstWidths(dataSize);
    }

    // The encoder's side moves past a code.
    ghost method Advance(code: nat)
      requires Shape() && TablesAfter(code) && |table| <= TABLE_SIZE && codes != []
      modifies `table, `todo, `codes
      ensures table == old(Extend(table, table[code], todo)) && todo == old(todo[|table[code]|..])
      ensures codes == old(codes)[1..] && Shape() && Tables()
      ensures old(table[code]) + todo == old(todo)
    {
      ghost var sent := table[code];
      assert sent + todo[|sent|..] == todo;
      table, todo, codes := Extend(table, sent, todo), todo[|sent|..], codes[1..];
    }

    // Lines 151-156: if we are the first code, just stack it.
    method StackFirst(code: nat)
      requires Shape() && Tables() && NamesNext(code)
      requires oldCode == -1 && top == 0
      modifies `top, `oldCode, `first, stack
      ensures Shape() && top == 1 && TablesAfter(code) && Stacked() == table[code]
    {
      FollowsFirst(Pow2(dataSize), prefix[..], suffix[..], available, table, todo, code);
      stack[top] := suffix[code];
      top := top + 1;
      oldCode := code;
      first := code;
      assert stack[..top] == [suffix[code]];
    }

    // One `*top_stack++ = c`: the pixel goes in front of those already stacked.
    method Push(c: Byte)
      requires Shape() && top < TABLE_SIZE
      modifies `top, stack
      ensures Shape() && top == old(top) + 1
      ensures Stacked() == [c] + old(Stacked())
    {
      ghost var before := stack[..top];
      stack[top] := c;
      top := top + 1;
      assert stack[..top] == before + [c];
      ReversedPush(before, c);
    }

    // Lines 162-166: push the pixels of a code, last one first, following the
    // prefix links. Its first pixel goes to `first`.
    method PushChain(code: nat, ghost p: seq<int>, ghost s: seq<Byte>, ghost pixels: seq<Byte>)
      requires Shape() && p == prefix[..] && s == suffix[..]
      requires DictOk(Pow2(dataSize), p, s, available) && IsCode(Pow2(dataSize), code, available)
      requires |pixels| <= TABLE_SIZE && Str(Pow2(dataSize), p, s, code) + Stacked() == pixels
      modifies `top, `first, stack
      ensures Shape() && [first] + Stacked() == pixels
    {
      var clear := Pow2(dataSize);
      var c := code;
      while c > clear
        invariant Shape() && p == prefix[..] && s == suffix[..]
        invariant IsCode(clear, c, available)
        invariant Str(clear, p, s, c) + Stacked() == pixels
        decreases c
      {
        ghost var head := Str(clear, p, s, p[c]);
        ghost var tail := Stacked();
        StrLength(clear, p, s, available, p[c]);
        assert (head + [s[c]]) + tail == head + ([s[c]] + tail);
        Push(suffix[c]);
        c := prefix[c];
      }
      first := suffix[c];
      assert Str(clear, p, s, c) == [s[c]];
    }

    // Lines 158-166: the code that is not in the table yet stands for the
    // previous string followed by its first pixel.
    method PushString(code: nat)
      requires Shape() && Tables() && oldCode != -1 && top == 0
      requires todo != [] && Names(table, code, todo)
      modifies `top, `first, stack
      ensures Shape() && first == table[code][0] && [first] + Stacked() == table[code]
      ensures |table[code]| <= TABLE_SIZE
    {
      var clear := Pow2(dataSize);
      ghost var p, s := prefix[..], suffix[..];
      CodeString(clear, p, s, available, oldCode, table, todo, code);
      StrLength(clear, p, s, available, oldCode);
      assert stack[..top] == [];
      if code == available {
        Push(first);
        PushChain(oldCode, p, s, table[code]);
      } else {
        StrLength(clear, p, s, available, code);
        assert Str(clear, p, s, code) + [] == table[code];
        PushChain(code, p, s, table[code]);
      }
    }

    // Lines 174-177: widen the codes when the table fills the current width.
    method Grow()
      requires 2 <= dataSize <= 8 && Pow2(dataSize) + 3 <= available <= TABLE_SIZE
      requires codeSize == Width(dataSize, available) && codeMask == Pow2(codeSize) - 1
      modifies `codeSize, `codeMask
      ensures codeSize == Width(dataSize, available + 1) && codeMask == Pow2(codeSize) - 1
    {
      ghost var wider := Width(dataSize, available + 1);
      GrowthAgrees(dataSize, available, codeSize);
      if Masked(available, codeMask) == 0 && available < TABLE_SIZE {
        codeMask := codeMask + available;
        codeSize := codeSize + 1;
      }
    }

    // Lines 172-173: record the new string.
    method AddString(code: nat)
      requires Shape() && Follow() && oldCode != -1
      requires todo != [] && Names(table, code, todo) && first == table[code][0]
      requires available < TABLE_SIZE
      modifies `available, prefix, suffix
      ensures available == old(available) + 1 && |table| == available
      ensures Follows(Pow2(dataSize), prefix[..], suffix[..], available, code,
                      Extend(table, table[code], todo), todo[|table[code]|..])
      ensures Str(Pow2(dataSize), prefix[..], suffix[..], code) == table[code]
    {
      ghost var clear := Pow2(dataSize);
      ghost var p, s := prefix[..], suffix[..];
      CodeString(clear, p, s, available, oldCode, table, todo, code);
      FollowsNext(clear, p, s, available, oldCode, table, todo, code);
      prefix[available] := oldCode;
      suffix[available] := first;
      assert prefix[..] == p[available := oldCode] && suffix[..] == s[available := first];
      available := available + 1;
      assert IsCode(clear, code, available);
      ghost var next := Extend(table, table[code], todo);
      assert next[code] == table[code];
      assert Knows(clear, prefix[..], suffix[..], next, code);
    }

    // Lines 172-178: record the new string.
    method RecordString(code: nat)
      requires Shape() && Follow() && oldCode != -1 && WidthFor(|table|)
      requires NamesNext(code) && first == table[code][0] && available < TABLE_SIZE
      modifies `available, `codeSize, `codeMask, `oldCode, prefix, suffix
      ensures Shape() && TablesAfter(code) && WidthFor(|table| + 1)
    {
      AddString(code);
      Grow();
      oldCode := code;
    }

    // Lines 157-178: stack the pixels of a later code and record a new string,
    // or stop because the table is full.
    method StackCode(code: nat) returns (full: bool)
      requires Shape() && Tables() && oldCode != -1 && top == 0
      requires todo != [] && Names(table, code, todo) && WidthFor(|table|)
      modifies `top, `available, `codeSize, `codeMask, `oldCode, `first, prefix, suffix, stack
      ensures full <==> |table| > TABLE_SIZE
      ensures !full ==> Shape() && top > 0 && TablesAfter(code) && Stacked() == table[code] && WidthFor(|table| + 1)
    {
      PushString(code);
      if available >= TABLE_SIZE {
        return true;
      }
      Push(first);
      RecordString(code);
      return false;
    }

    // Lines 150-178: use a code that stands for pixels.
    method UseCode(code: nat) returns (pop: bool, full: bool)
      requires Shape() && Tables() && top == 0 && todo != [] && Names(table, code, todo)
      requires WidthFor(|table|)
      modifies `top, `available, `codeSize, `codeMask, `oldCode, `first, prefix, suffix, stack
      ensures full <==> |table| > TABLE_SIZE
      ensures !full ==> Shape() && top > 0 && TablesAfter(code) && Stacked() == table[code] && WidthFor(|table| + 1)
    {
      if oldCode == -1 {
        FirstWidths(dataSize);
        StackFirst(code);
        pop, full := false, false;
      } else {
        full := StackCode(code);
        pop := true;
      }
    }

    // The same, with the encoder's side moving along.
    method UseAndAdvance(code: nat) returns (pop: bool, full: bool)
      requires Shape() && Tables() && top == 0 && todo != [] && Names(table, code, todo)
      requires WidthFor(|table|) && codes != []
      modifies `top, `available, `codeSize, `codeMask, `oldCode, `first, `table, `todo, `codes, prefix, suffix, stack
      ensures full <==> old(|table|) > TABLE_SIZE
      ensures !full ==> Shape() && Tables() && WidthFor(|table|) && top > 0
      ensures !full ==> table == old(Extend(table, table[code], todo)) && todo == old(todo[|table[code]|..])
      ensures !full ==> codes == old(codes)[1..] && Stacked() + todo == old(todo)
    {
      ghost var sent := table[code];
      pop, full := UseCode(code);
      if !full {
        Advance(code);
        assert Stacked() == sent;
      }
    }

    // Lines 139-178: check the code; reset the tables, or stack its pixels.
    method UseOrClear(code: nat) returns (pop: bool, full: bool)
      requires Shape() && Tables() && WidthFor(|table|) && top == 0
      requires todo != [] && codes != [] && (code == Pow2(dataSize) || Names(table, code, todo))
      requires SaysAfter(code)
      modifies `top, `available, `codeSize, `codeMask, `oldCode, `first, `table, `todo, `codes, prefix, suffix, stack
      ensures full ==> !inTime
      ensures !full ==> Shape() && Tables() && WidthFor(|table|) && Saying() && codes == old(codes)[1..]
      ensures !full ==> Stacked() + todo == old(todo) && (pop ==> top > 0)
    {
      if code != Pow2(dataSize) {
        SaneCode(code);
      }
      if code > available || code == Pow2(dataSize) + 1 {
        assert false;  // the sanity check never fires on a conforming stream
      }
      if code == Pow2(dataSize) {
        ClearTables();
        codes := codes[1..];
        assert stack[..top] == [];
        pop, full := false, false;
      } else {
        pop, full := UseAndAdvance(code);
      }
    }

    // Lines 134-137, knowing what the code can be and what the rest says.
    method FetchCode() returns (code: nat)
      requires Valid() && todo != [] && bits >= codeSize
      modifies `datum, `bits, `value, `width
      ensures Shape() && Tables() && WidthFor(|table|) && Holds() && OnTrack() && bits < 8
      ensures codes != [] && code == codes[0] && (code != Pow2(dataSize) ==> Names(table, code, todo))
      ensures SaysAfter(code)
    {
      ghost var value', width' := NextBits(dataSize, table, todo, codes, pad, inTime, value, width);
      NextCode(dataSize, table, todo, codes, pad, inTime, value, width, value', width');
      code := TakeBits(codes[0], value', width');
    }

    // What holds of the encoder's side once the code has been used.
    ghost predicate SaysAfter(code: nat)
      reads `codes, `todo, `table, `value, `width
      requires codes != [] && (code == Pow2(dataSize) || Names(table, code, todo))
    {
      if code == Pow2(dataSize) then
        dataSize <= 8 && Says(dataSize, InitTable(dataSize), todo, codes[1..], pad, inTime, value, width)
      else if |table| > TABLE_SIZE then !inTime
      else Says(dataSize, Extend(table, table[code], todo), todo[|table[code]|..], codes[1..], pad,
                inTime, value, width)
    }

    // Lines 134-178: read a code and use it. Returns whether the loop falls
    // through to popping a pixel, and whether it is left because the table is full.
    method ReadCode() returns (pop: bool, full: bool)
      requires Valid() && todo != [] && top == 0 && bits >= codeSize
      modifies this, prefix, suffix, stack
      ensures full ==> !inTime
      ensures !full ==> Valid() && |codes| < |old(codes)| && Stacked() + todo == old(todo)
      ensures pop && !full ==> top > 0
    {
      var code := FetchCode();
      pop, full := UseOrClear(code);
    }

    lemma SaneCode(code: nat)
      requires Shape() && Tables() && todo != [] && Names(table, code, todo)
      ensures code <= available && code != Pow2(dataSize) && code != Pow2(dataSize) + 1
    {
      if oldCode != -1 {
        CodeString(Pow2(dataSize), prefix[..], suffix[..], available, oldCode, table, todo, code);
      }
    }

    // Lines 117-179: one turn of the pixel loop up to the pop. Returns whether it
    // goes on to pop a pixel, and whether it is left because the table is full.
    // A turn that does not pop has consumed a code or a byte.
    method Turn() returns (pop: bool, full: bool)
      requires Valid() && Stacked() + todo != []
      modifies this, prefix, suffix, stack
      ensures full ==> !inTime
      ensures !full ==> Valid() && Stacked() + todo == old(Stacked() + todo)
      ensures pop && !full ==> top > 0
      ensures !pop && !full ==>
                |codes| < |old(codes)|
                || (|codes| == |old(codes)| && Unread(input, cp, count) < old(Unread(input, cp, count)))
    {
      if top > 0 {
        return true, false;
      }
      EmptyStack();
      if bits < codeSize {
        ghost var value', width' := NextBits(dataSize, table, todo, codes, pad, inTime, value, width);
        ReadByte();
        return false, false;
      }
      pop, full := ReadCode();
    }

    lemma EmptyStack()
      requires Shape() && top == 0
      ensures Stacked() == [] && Stacked() + todo == todo
    {
      assert stack[..top] == [];
    }

    // Lines 180-181.
    method Pop() returns (p: Byte)
      requires Valid() && top > 0
      modifies `top
      ensures Valid() && [p] + Stacked() == old(Stacked())
    {
      ReversedPop(stack[..top]);
      assert stack[..top][..top - 1] == stack[..top - 1];
      top := top - 1;
      p := stack[top];
    }
  }

  // The payload holds the bits of the codes that the pixels take.
  ghost predicate Conforming(input: seq<Byte>, start: nat, pixels: seq<Byte>, codes: seq<nat>, pad: nat) {
    && start < |input|
    && 2 <= input[start] <= 8
    && var dataSize: nat := input[start];
    && EncodedBy(dataSize, InitTable(dataSize), pixels, codes)
    && Reading(input, start + 1, 0, 0, 0, StreamVal(dataSize, Pow2(dataSize) + 2, codes, pad),
               UsedLen(dataSize, InitTable(dataSize), pixels, codes))
  }

  // The bytes that the codes take up, the last perhaps in part.
  ghost function BytesUsed(dataSize: nat, pixels: seq<Byte>, codes: seq<nat>): nat
    requires dataSize <= 8 && EncodedBy(dataSize, InitTable(dataSize), pixels, codes)
  {
    (UsedLen(dataSize, InitTable(dataSize), pixels, codes) + 7) / 8
  }

  // Where the sub-block ends that holds the last bit taken.
  ghost function StreamEnd(input: seq<Byte>, start: nat, pixels: seq<Byte>, codes: seq<nat>): nat
    requires start < |input| && input[start] <= 8
    requires EncodedBy(input[start], InitTable(input[start]), pixels, codes)
  {
    BlockEnd(input, start + 1, 0, BytesUsed(input[start], pixels, codes))
  }

  lemma ConformingStarts(input: seq<Byte>, start: nat, pixels: seq<Byte>, codes: seq<nat>, pad: nat, size: nat,
                         table: Table)
      returns (inTime: bool, value: nat, width: nat, slack: nat, stop: nat)
    requires Conforming(input, start, pixels, codes, pad) && size == input[start] && table == InitTable(size)
    ensures inTime == ClearsInTime(size, table, pixels, codes)
    ensures Reading(input, start + 1, 0, 0, 0, value, width)
    ensures Says(size, table, pixels, codes, pad, inTime, value, width) && |table| == Pow2(size) + 2
    ensures Remains(input, start + 1, 0, 0, width, slack, stop)
    ensures stop == StreamEnd(input, start, pixels, codes)
  {
    inTime, value := ClearsInTime(size, table, pixels, codes), StreamVal(size, |table|, codes, pad);
    width := UsedLen(size, table, pixels, codes);
    slack := 8 * Unread(input, start + 1, 0) - width;
    stop := StreamEnd(input, start, pixels, codes);
    WholeBytes(Unread(input, start + 1, 0), width, slack);
  }

  lemma WholeBytes(unread: nat, width: nat, slack: int)
    requires 8 * unread == width + slack && slack >= 0
    ensures unread - slack / 8 == (width + 7) / 8
  {
  }
}
