// The decoder's steps on codes, as functions of its registers and tables, and what
// they make of a stream with data size 1 (mod-gif.c).
module GifSteps {
  import opened Wrappers
  import opened Bits
  import opened GifStream
  import opened GifLzw
  import opened GifDecoder

  datatype Registers = Registers(codeSize: nat, codeMask: nat, available: nat, oldCode: int, first: Byte,
                                 prefix: seq<int>, suffix: seq<Byte>)

  predicate HasTables(r: Registers) {
    |r.prefix| == |r.suffix| == TABLE_SIZE && -1 <= r.oldCode < TABLE_SIZE
  }

  // Lines 94-112.
  function Fresh(dataSize: nat): (r: Registers)
    requires dataSize <= 8
    ensures HasTables(r)
  {
    var clear := Pow2(dataSize);
    Registers(dataSize + 1, Pow2(dataSize + 1) - 1, clear + 2, -1, 0, seq(TABLE_SIZE, _ => 0),
              seq(TABLE_SIZE, k requires 0 <= k => if k < clear && k < 256 then k else 0))
  }

  // Lines 139-178: a code is refused, or changes the registers and stacks pixels,
  // which are listed as they will be popped.
  ghost function Step(dataSize: nat, r: Registers, code: nat): (next: Option<(Registers, seq<Byte>)>)
    requires HasTables(r)
    ensures next.Some? ==> HasTables(next.value.0)
  {
    var clear := Pow2(dataSize);
    if code > r.available || code == clear + 1 then None
    else if code == clear then
      Some((r.(codeSize := dataSize + 1, codeMask := Pow2(dataSize + 1) - 1, available := clear + 2, oldCode := -1),
            []))
    else if code >= TABLE_SIZE then None
    else if r.oldCode == -1 then Some((r.(oldCode := code, first := code % 256), [r.suffix[code]]))
    else LaterCode(clear, r, code)
  }

  // Lines 174-177.
  function Widened(codeSize: nat, codeMask: nat, available: nat): (nat, nat) {
    if Masked(available, codeMask) == 0 && available < TABLE_SIZE then (codeSize + 1, codeMask + available)
    else (codeSize, codeMask)
  }

  // Lines 157-178.
  ghost function LaterCode(clear: nat, r: Registers, code: nat): (next: Option<(Registers, seq<Byte>)>)
    requires HasTables(r) && r.oldCode != -1 && code <= r.available && code < TABLE_SIZE
    ensures next.Some? ==> HasTables(next.value.0)
  {
    var start := if code == r.available then r.oldCode else code;
    StrNotEmpty(clear, r.prefix, r.suffix, start);
    var chain := Str(clear, r.prefix, r.suffix, start);
    if r.available >= TABLE_SIZE then None
    else
      var (size, mask) := Widened(r.codeSize, r.codeMask, r.available + 1);
      Some((Registers(size, mask, r.available + 1, code, chain[0], r.prefix[r.available := r.oldCode],
                      r.suffix[r.available := chain[0]]),
            chain + if code == r.available then [r.first] else []))
  }

  lemma StrNotEmpty(clear: nat, prefix: seq<int>, suffix: seq<Byte>, code: nat)
    requires code < |prefix| == |suffix|
    ensures Str(clear, prefix, suffix, code) != []
  {
  }

  // The registers follow the encoder.
  ghost predicate InStep(dataSize: nat, r: Registers, t: Table, todo: seq<Byte>) {
    && 2 <= dataSize <= 8 && HasTables(r)
    && Follows(Pow2(dataSize), r.prefix, r.suffix, r.available, r.oldCode, t, todo)
    && (r.oldCode != -1 ==> [r.first] <= Str(Pow2(dataSize), r.prefix, r.suffix, r.oldCode))
    && r.codeSize == Width(dataSize, |t|) && r.codeMask == Pow2(r.codeSize) - 1
  }

  // With data sizes 2 to 8 a step stacks the string that the encoder sent, and keeps
  // following it.
  lemma StepFollows(dataSize: nat, r: Registers, t: Table, todo: seq<Byte>, code: nat)
    requires InStep(dataSize, r, t, todo) && todo != [] && Names(t, code, todo) && |t| <= TABLE_SIZE
    ensures var next := Step(dataSize, r, code);
            && next.Some? && next.value.1 == t[code]
            && InStep(dataSize, next.value.0, Extend(t, t[code], todo), todo[|t[code]|..])
  {
    if r.oldCode == -1 {
      FirstFollows(dataSize, r, t, todo, code);
    } else {
      LaterFollows(dataSize, r, t, todo, code);
    }
  }

  lemma FirstFollows(dataSize: nat, r: Registers, t: Table, todo: seq<Byte>, code: nat)
    requires InStep(dataSize, r, t, todo) && todo != [] && Names(t, code, todo) && |t| <= TABLE_SIZE
    requires r.oldCode == -1
    ensures var next := Step(dataSize, r, code);
            && next.Some? && next.value.1 == t[code]
            && InStep(dataSize, next.value.0, Extend(t, t[code], todo), todo[|t[code]|..])
  {
    var clear := Pow2(dataSize);
    FollowsFirst(clear, r.prefix, r.suffix, r.available, t, todo, code);
    FirstWidths(dataSize);
    LiteralString(clear, r.prefix, r.suffix, code);
  }

  lemma LiteralString(clear: nat, prefix: seq<int>, suffix: seq<Byte>, code: nat)
    requires code < clear && code < |prefix| == |suffix|
    ensures Str(clear, prefix, suffix, code) == [suffix[code]]
  {
  }

  lemma LaterFollows(dataSize: nat, r: Registers, t: Table, todo: seq<Byte>, code: nat)
    requires InStep(dataSize, r, t, todo) && todo != [] && Names(t, code, todo) && |t| <= TABLE_SIZE
    requires r.oldCode != -1
    ensures var next := Step(dataSize, r, code);
            && next.Some? && next.value.1 == t[code]
            && InStep(dataSize, next.value.0, Extend(t, t[code], todo), todo[|t[code]|..])
  {
    var next := LaterPixels(dataSize, r, t, todo, code);
    NextFollows(dataSize, r, next, t, todo, code);
    WidenedIs(dataSize, |t|, r.codeSize, r.codeMask);
    AllInStep(dataSize, next, Extend(t, t[code], todo), todo[|t[code]|..], t[code]);
  }

  lemma NextFollows(dataSize: nat, r: Registers, next: Registers, t: Table, todo: seq<Byte>, code: nat)
    requires dataSize <= 8 && HasTables(r) && HasTables(next) && todo != [] && Names(t, code, todo)
    requires r.oldCode != -1 && r.available < TABLE_SIZE
    requires Follows(Pow2(dataSize), r.prefix, r.suffix, r.available, r.oldCode, t, todo)
    requires next.available == r.available + 1 && next.oldCode == code
    requires next.prefix == r.prefix[r.available := r.oldCode] && next.suffix == r.suffix[r.available := t[code][0]]
    ensures Follows(Pow2(dataSize), next.prefix, next.suffix, next.available, next.oldCode, Extend(t, t[code], todo),
                    todo[|t[code]|..])
  {
    FollowsNext(Pow2(dataSize), r.prefix, r.suffix, r.available, r.oldCode, t, todo, code);
  }

  lemma AllInStep(dataSize: nat, r: Registers, t: Table, todo: seq<Byte>, sent: seq<Byte>)
    requires 2 <= dataSize <= 8 && HasTables(r) && r.oldCode != -1 && sent != [] && r.first == sent[0]
    requires Follows(Pow2(dataSize), r.prefix, r.suffix, r.available, r.oldCode, t, todo)
    requires t[r.oldCode] == sent && r.codeSize == Width(dataSize, |t|) && r.codeMask == Pow2(r.codeSize) - 1
    ensures InStep(dataSize, r, t, todo)
  {
    assert Knows(Pow2(dataSize), r.prefix, r.suffix, t, r.oldCode);
  }

  lemma WidenedIs(dataSize: nat, available: nat, codeSize: nat, codeMask: nat)
    requires 2 <= dataSize <= 8 && Pow2(dataSize) + 3 <= available <= TABLE_SIZE
    requires codeSize == Width(dataSize, available) && codeMask == Pow2(codeSize) - 1
    ensures var (size, mask) := Widened(codeSize, codeMask, available);
            size == Width(dataSize, available + 1) && mask == Pow2(size) - 1
  {
    GrowthAgrees(dataSize, available, codeSize);
  }

  // The chain of links and what comes after it are the string.
  lemma LaterPixels(dataSize: nat, r: Registers, t: Table, todo: seq<Byte>, code: nat) returns (next: Registers)
    requires InStep(dataSize, r, t, todo) && todo != [] && Names(t, code, todo) && |t| <= TABLE_SIZE
    requires r.oldCode != -1
    ensures Step(dataSize, r, code) == Some((next, t[code])) && HasTables(next)
    ensures next.available == r.available + 1 == |t| && next.oldCode == code && next.first == t[code][0]
    ensures (next.codeSize, next.codeMask) == Widened(r.codeSize, r.codeMask, |t|)
    ensures next.prefix == r.prefix[r.available := r.oldCode] && next.suffix == r.suffix[r.available := t[code][0]]
  {
    var clear := Pow2(dataSize);
    CodeString(clear, r.prefix, r.suffix, r.available, r.oldCode, t, todo, code);
    StrLength(clear, r.prefix, r.suffix, r.available, r.oldCode);
    if code < r.available {
      StrLength(clear, r.prefix, r.suffix, r.available, code);
      assert t[code] + [] == t[code];
    }
    next := LaterCode(clear, r, code).value.0;
  }

  // The pixels of the next n codes.
  ghost function Run(dataSize: nat, r: Registers, value: nat, n: nat): seq<Byte>
    requires HasTables(r)
    decreases n
  {
    if n == 0 then []
    else
      match Step(dataSize, r, Masked(value, r.codeMask))
      case None => []
      case Some((next, pixels)) => pixels + Run(dataSize, next, Shr(value, r.codeSize), n - 1)
  }

  // ---- data size 1 --------------------------------------------------------

  // The encoder widens its codes after the first one already.
  lemma OneBitWidths()
    ensures Width(1, Pow2(1) + 2) == 2 && Width(1, Pow2(1) + 3) == 3
  {
    assert Pow2(1) == 2 && Pow2(2) == 4 && Pow2(3) == 8;
    WidthUnique(1, 4, 2);
    WidthUnique(1, 5, 3);
  }

  lemma OneBitEncoded()
    ensures EncodedBy(1, InitTable(1), [0, 0, 0], [2, 0, 4])
  {
    assert Pow2(1) == 2;
    var t := InitTable(1);
    assert t[0] == [0];
    var t', rest := Extend(t, t[0], [0, 0, 0]), [0, 0];
    assert t'[4] == [0, 0] && [0, 0, 0][1..] == rest && [2, 0, 4][1..] == [0, 4] && [0, 4][1..] == [4];
    assert rest[2..] == [];
    assert EncodedBy(1, t', rest, [4]);
    assert EncodedBy(1, t, [0, 0, 0], [0, 4]);
  }

  lemma OneBitStream()
    ensures StreamVal(1, Pow2(1) + 2, [2, 0, 4], 0) == 66
  {
    OneBitWidths();
    assert Pow2(1) == 2 && Pow2(2) == 4 && Pow2(3) == 8;
    assert [2, 0, 4][1..] == [0, 4] && [0, 4][1..] == [4];
    ShlIsProduct(0, 3);
    assert StreamVal(1, 5, [4], 0) == 4;
    assert Entries(1, 4, 0) == 5;
    TwoBitsUp(0, 4);
    TwoBitsUp(2, 16);
    assert StreamVal(1, 4, [0, 4], 0) == 16;
  }

  lemma TwoBitsUp(code: nat, rest: nat)
    ensures Joined(code, 2, rest) == code + 4 * rest
  {
    Pow2Small();
    ShlIsProduct(rest, 2);
  }

  // Two bits are read, and these registers come next.
  lemma RunStep(r: Registers, value: nat, n: nat, next: Registers, pixels: seq<Byte>)
    requires HasTables(r) && HasTables(next) && n > 0 && r.codeSize == 2 && r.codeMask == 3
    requires Step(1, r, value % 4) == Some((next, pixels))
    ensures Run(1, r, value, n) == pixels + Run(1, next, value / 4, n - 1)
  {
    Pow2Small();
  }

  // Of a stream with data size 1 for three black pixels the decoder makes two black
  // ones and a white one: it goes on reading two bits where three were sent.
  lemma OneBitMisread(n: nat)
    requires n == 4
    ensures EncodedBy(1, InitTable(1), [0, 0, 0], [2, 0, 4])
    ensures StreamVal(1, Pow2(1) + 2, [2, 0, 4], 0) == 66
    ensures Run(1, Fresh(1), 66, n) == [0, 0, 1]
  {
    OneBitEncoded();
    OneBitStream();
    Pow2Small();
    assert Pow2(1) == 2;
    OneBitRun(Fresh(1), 66, n);
  }

  lemma OneBitRun(r: Registers, value: nat, n: nat)
    requires r == Fresh(1) && value == 66 && n == 4
    ensures Run(1, r, value, n) == [0, 0, 1]
  {
    assert Pow2(1) == 2 && Pow2(2) == 4;
    OneBitStart(r, value, n);
  }

  lemma OneBitStart(r: Registers, value: nat, n: nat)
    requires HasTables(r) && r.oldCode == -1 && r.available == 4 && r.codeSize == 2 && r.codeMask == 3
    requires r.suffix[0] == 0 && r.suffix[1] == 1 && value == 66 && n == 4 && Pow2(1) == 2 && Pow2(2) == 4
    ensures Run(1, r, value, n) == [0, 0, 1]
  {
    var first := r.(oldCode := 0, first := 0);
    RunStep(r, value, n, r, []);
    RunStep(r, value / 4, n - 1, first, [0]);
    OneBitRest(first, value / 16, n - 2);
    assert [] + ([0] + [0, 1]) == [0, 0, 1];
  }

  lemma OneBitRest(r: Registers, value: nat, n: nat)
    requires HasTables(r) && r.oldCode == 0 && r.available == 4 && r.codeSize == 2 && r.codeMask == 3
    requires r.suffix[0] == 0 && r.suffix[1] == 1 && value == 4 && n == 2
    ensures Run(1, r, value, n) == [0, 1]
  {
    var second := OneBitLater(r, 0);
    assert second.suffix[1] == r.suffix[..4][1];
    RunStep(r, value, n, second, [0]);
    var third := OneBitLater(second, 1);
    RunStep(second, value / 4, n - 1, third, [1]);
    assert [0] + ([1] + []) == [0, 1];
  }

  // A later literal, below the place where the codes would widen.
  lemma OneBitLater(r: Registers, code: Byte) returns (next: Registers)
    requires HasTables(r) && code < 2 && 0 <= r.oldCode < 2 && r.available in {4, 5}
    requires r.codeSize == 2 && r.codeMask == 3 && r.suffix[code] == code
    ensures HasTables(next) && Step(1, r, code) == Some((next, [code]))
    ensures next.available == r.available + 1 && next.oldCode == code && next.codeSize == 2 && next.codeMask == 3
    ensures next.suffix[..4] == r.suffix[..4]
  {
    assert Pow2(1) == 2;
    assert Str(2, r.prefix, r.suffix, code) == [code] && [code] + [] == [code];
    assert Masked(r.available + 1, 3) == (r.available + 1) % 4 != 0;
    next := LaterCode(2, r, code).value.0;
  }
}
