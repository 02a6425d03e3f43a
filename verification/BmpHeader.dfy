// The header mapper of the BMP codec (Map_Bytes and Unmap_Bytes, mod-bmp.c,
// little-endian path): packed bytes on one side, an aligned struct on the other.
module BmpHeader {
  import opened Bits

  predicate IsMap(layout: string) {
    forall c :: c in layout ==> c in {'b', 's', 'l'}
  }

  function Size(c: char): nat {
    if c == 'b' then 1 else if c == 's' then 2 else 4
  }

  // Where a field starts in the struct: a long is moved to a multiple of four
  // if the compiler aligns longs.
  function Aligned(c: char, d: nat, long: bool): nat {
    if c == 'l' && long then (d + 3) / 4 * 4 else d
  }

  // The struct offset of each packed byte, from struct offset d on.
  function Slots(layout: string, d: nat, long: bool): (r: seq<nat>)
    ensures |r| == Total(layout) && d <= End(layout, d, long)
    ensures forall k :: 0 <= k < |r| ==> d <= r[k] < End(layout, d, long)
  {
    if layout == "" then []
    else
      var a := Aligned(layout[0], d, long);
      Span(a, Size(layout[0])) + Slots(layout[1..], a + Size(layout[0]), long)
  }

  function Span(a: nat, n: nat): (r: seq<nat>)
    ensures |r| == n && forall k :: 0 <= k < n ==> r[k] == a + k
  {
    seq(n, k requires 0 <= k => a + k)
  }

  function End(layout: string, d: nat, long: bool): nat {
    if layout == "" then d else End(layout[1..], Aligned(layout[0], d, long) + Size(layout[0]), long)
  }

  function Total(layout: string): nat {
    if layout == "" then 0 else Size(layout[0]) + Total(layout[1..])
  }

  // The packed bytes go to different places in the struct, in order.
  lemma {:induction false} SlotsIncrease(layout: string, d: nat, long: bool)
    ensures forall j, k :: 0 <= j < k < Total(layout) ==> Slots(layout, d, long)[j] < Slots(layout, d, long)[k]
  {
    if layout != "" {
      var a, n := Aligned(layout[0], d, long), Size(layout[0]);
      SlotsIncrease(layout[1..], a + n, long);
      assert Slots(layout, d, long) == Span(a, n) + Slots(layout[1..], a + n, long);
    }
  }

  // The n bytes of a field, from the packed byte `at` on, are side by side in the struct,
  // right behind the fields before it, or at the next multiple of four.
  ghost predicate StandsAt(slots: seq<nat>, at: nat, n: nat, moved: bool, end: nat) {
    && 0 < n && at + n <= |slots| && slots[at..at + n] == Span(slots[at], n)
    && if moved then slots[at] % 4 == 0 && 0 <= slots[at] - end < 4 else slots[at] == end
  }

  lemma {:induction false} FieldAt(layout: string, d: nat, long: bool, m: nat, at: nat, end: nat, slots: seq<nat>)
    requires m < |layout| && slots == Slots(layout, d, long)
    requires at == Total(layout[..m]) && end == End(layout[..m], d, long)
    ensures StandsAt(slots, at, Size(layout[m]), layout[m] == 'l' && long, end)
    decreases m
  {
    var rest, n, a := layout[1..], Size(layout[0]), Aligned(layout[0], d, long);
    var next := a + n;
    var later := Slots(rest, next, long);
    assert slots == Span(a, n) + later;
    if m == 0 {
      assert layout[..m] == "";
      FirstStands(layout[0], d, long, a, n, later, slots, at);
    } else {
      var m': nat := m - 1;
      FieldsBefore(layout, m, rest, m');
      var at' := Total(rest[..m']);
      assert at == n + at' && end == End(rest[..m'], next, long);
      FieldAt(rest, next, long, m', at', end, later);
      LaterStands(Span(a, n), later, slots, at', at, Size(layout[m]), layout[m] == 'l' && long, end);
    }
  }

  lemma FieldsBefore(layout: string, m: nat, rest: string, m': nat)
    requires 0 < m <= |layout| && rest == layout[1..] && m' == m - 1
    ensures layout[..m] != "" && layout[..m][0] == layout[0] && layout[..m][1..] == rest[..m']
  {
  }

  lemma FirstStands(c: char, d: nat, long: bool, a: nat, n: nat, later: seq<nat>, slots: seq<nat>, at: nat)
    requires a == Aligned(c, d, long) && n == Size(c) && slots == Span(a, n) + later && at == 0
    ensures StandsAt(slots, at, n, c == 'l' && long, d)
  {
  }

  lemma LaterStands(before: seq<nat>, later: seq<nat>, slots: seq<nat>, at': nat, at: nat, n: nat, moved: bool,
                    end: nat)
    requires slots == before + later && at == |before| + at' && StandsAt(later, at', n, moved, end)
    ensures StandsAt(slots, at, n, moved, end)
  {
    assert slots[at..at + n] == later[at'..at' + n] && slots[at] == later[at'];
  }

  // Map_Bytes: packed bytes into a struct; the source cursor moves past them.
  method MapBytes(dst: array<Byte>, src: seq<Byte>, start: nat, layout: string, long: bool) returns (cursor: nat)
    requires IsMap(layout) && start + Total(layout) <= |src| && End(layout, 0, long) <= dst.Length
    modifies dst
    ensures cursor == start + Total(layout)
    ensures dst[..] == Mapped(old(dst[..]), src[start..cursor], Slots(layout, 0, long))
  {
    ghost var was, slots := dst[..], Slots(layout, 0, long);
    cursor := start;
    var d, m := 0, 0;
    while m < |layout|
      invariant m <= |layout|
      invariant Mapping(layout, m, d, long, cursor - start, slots, dst.Length)
      invariant start <= cursor && dst[..] == Mapped(was, src[start..cursor], slots)
    {
      d, cursor := MapField(dst, src, start, cursor, layout, m, d, long, was, slots);
      m := m + 1;
    }
  }

  // A struct with the first bytes put into their slots.
  function Mapped(was: seq<Byte>, bytes: seq<Byte>, slots: seq<nat>): (r: seq<Byte>)
    requires |bytes| <= |slots| && forall k :: 0 <= k < |slots| ==> slots[k] < |was|
    ensures |r| == |was|
  {
    if bytes == [] then was
    else
      var n := |bytes| - 1;
      Mapped(was, bytes[..n], slots)[slots[n] := bytes[n]]
  }

  // After m fields, k bytes and struct offset d.
  ghost predicate Mapping(layout: string, m: nat, d: nat, long: bool, k: int, slots: seq<nat>, length: nat) {
    && m <= |layout| && 0 <= k && k + Total(layout[m..]) == |slots| && End(layout[m..], d, long) <= length
    && (forall i :: 0 <= i < |slots| ==> slots[i] < length)
    && slots[k..] == Slots(layout[m..], d, long)
  }

  lemma MappingStep(layout: string, m: nat, d: nat, long: bool, k: nat, slots: seq<nat>, length: nat)
    requires Mapping(layout, m, d, long, k, slots, length) && m < |layout|
    ensures var a, n := Aligned(layout[m], d, long), Size(layout[m]);
            && k + n <= |slots| && a + n <= length
            && slots[k..k + n] == Span(a, n)
            && Mapping(layout, m + 1, a + n, long, k + n, slots, length)
  {
    var a, n := Aligned(layout[m], d, long), Size(layout[m]);
    var rest := layout[m..];
    assert rest[1..] == layout[m + 1..] && rest[0] == layout[m];
    assert slots[k..] == Span(a, n) + Slots(rest[1..], a + n, long);
    assert slots[k + n..] == slots[k..][n..];
    assert slots[k..k + n] == slots[k..][..n];
  }

  lemma MappedStep(was: seq<Byte>, src: seq<Byte>, start: nat, cursor: nat, slots: seq<nat>)
    requires start <= cursor < |src| && cursor - start < |slots| && forall k :: 0 <= k < |slots| ==> slots[k] < |was|
    ensures Mapped(was, src[start..cursor + 1], slots)
            == Mapped(was, src[start..cursor], slots)[slots[cursor - start] := src[cursor]]
  {
    assert src[start..cursor + 1][..cursor - start] == src[start..cursor];
  }

  // Lines 163-184: one field.
  method MapField(dst: array<Byte>, src: seq<Byte>, ghost start: nat, cursor0: nat, layout: string, m: nat,
                  d0: nat, long: bool,
                  ghost was: seq<Byte>, ghost slots: seq<nat>) returns (d: nat, cursor: nat)
    requires m < |layout| && IsMap(layout) && start <= cursor0 && start + |slots| <= |src|
    requires Mapping(layout, m, d0, long, cursor0 - start, slots, dst.Length)
    requires |was| == dst.Length && dst[..] == Mapped(was, src[start..cursor0], slots)
    modifies dst
    ensures start <= cursor && Mapping(layout, m + 1, d, long, cursor - start, slots, dst.Length)
    ensures dst[..] == Mapped(was, src[start..cursor], slots)
  {
    MappingStep(layout, m, d0, long, cursor0 - start, slots, dst.Length);
    assert layout[m] in layout;
    d := SkipToLong(layout[m], d0, long);
    cursor := cursor0;
    cursor := CopyIn(dst, src, start, cursor, d, Size(layout[m]), was, slots);
    d := d + Size(layout[m]);
  }

  // The store of one field.
  method CopyIn(dst: array<Byte>, src: seq<Byte>, ghost start: nat, cursor0: nat, d: nat, n: nat,
                ghost was: seq<Byte>, ghost slots: seq<nat>) returns (cursor: nat)
    requires start <= cursor0 && cursor0 - start + n <= |slots| && start + |slots| <= |src|
    requires d + n <= dst.Length == |was| && slots[cursor0 - start..cursor0 - start + n] == Span(d, n)
    requires forall k :: 0 <= k < |slots| ==> slots[k] < |was|
    requires dst[..] == Mapped(was, src[start..cursor0], slots)
    modifies dst
    ensures cursor == cursor0 + n && dst[..] == Mapped(was, src[start..cursor], slots)
  {
    cursor := cursor0;
    var j := 0;
    while j < n
      invariant j <= n && cursor == cursor0 + j && dst[..] == Mapped(was, src[start..cursor], slots)
    {
      MappedStep(was, src, start, cursor, slots);
      assert slots[cursor - start] == Span(d, n)[j];
      dst[d + j] := src[cursor];
      cursor := cursor + 1;
      j := j + 1;
    }
  }

  method SkipToLong(c: char, d0: nat, long: bool) returns (d: nat)
    ensures d == Aligned(c, d0, long)
  {
    d := d0;
    if c == 'l' && long {
      while d % 4 != 0
        invariant d0 <= d <= (d0 + 3) / 4 * 4
        decreases (d0 + 3) / 4 * 4 - d
      {
        d := d + 1;
      }
    }
  }

  // Unmap_Bytes: a struct into packed bytes from index start on.
  method UnmapBytes(src: array<Byte>, dst: array<Byte>, start: nat, layout: string, long: bool) returns (cursor: nat)
    requires IsMap(layout) && start + Total(layout) <= dst.Length && End(layout, 0, long) <= src.Length && src != dst
    modifies dst
    ensures cursor == start + Total(layout)
    ensures dst[..] == Placed(old(dst[..]), start, Unmapped(src[..], Slots(layout, 0, long)))
  {
    ghost var slots := Slots(layout, 0, long);
    cursor := start;
    var d, m := 0, 0;
    assert dst[..] == dst[..start] + Unmapped(src[..], slots[..0]) + dst[start..];
    while m < |layout|
      invariant m <= |layout| && start <= cursor
      invariant Mapping(layout, m, d, long, cursor - start, slots, src.Length)
      invariant dst[..] == old(dst[..start]) + Unmapped(src[..], slots[..cursor - start]) + old(dst[cursor..])
    {
      d, cursor := UnmapField(src, dst, start, cursor, layout, m, d, long, old(dst[..]), slots);
      m := m + 1;
    }
    assert slots[..cursor - start] == slots;
  }

  // The struct's bytes in the order of their slots.
  function Unmapped(record: seq<Byte>, slots: seq<nat>): (r: seq<Byte>)
    requires forall k :: 0 <= k < |slots| ==> slots[k] < |record|
    ensures |r| == |slots| && forall k :: 0 <= k < |slots| ==> r[k] == record[slots[k]]
  {
    seq(|slots|, k requires 0 <= k < |slots| => record[slots[k]])
  }

  // Lines 220-241: one field.
  method UnmapField(src: array<Byte>, dst: array<Byte>, ghost start: nat, cursor0: nat, layout: string, m: nat,
                    d0: nat, long: bool,
                    ghost was: seq<Byte>, ghost slots: seq<nat>) returns (d: nat, cursor: nat)
    requires m < |layout| && IsMap(layout) && start <= cursor0 && start + |slots| <= dst.Length == |was| && src != dst
    requires Mapping(layout, m, d0, long, cursor0 - start, slots, src.Length)
    requires dst[..] == was[..start] + Unmapped(src[..], slots[..cursor0 - start]) + was[cursor0..]
    modifies dst
    ensures start <= cursor <= dst.Length && Mapping(layout, m + 1, d, long, cursor - start, slots, src.Length)
    ensures dst[..] == was[..start] + Unmapped(src[..], slots[..cursor - start]) + was[cursor..]
  {
    MappingStep(layout, m, d0, long, cursor0 - start, slots, src.Length);
    assert layout[m] in layout;
    d := SkipToLong(layout[m], d0, long);
    cursor := cursor0;
    cursor := CopyOut(src, dst, start, cursor, d, Size(layout[m]), was, slots);
    d := d + Size(layout[m]);
  }

  method CopyOut(src: array<Byte>, dst: array<Byte>, ghost start: nat, cursor0: nat, d: nat, n: nat,
                 ghost was: seq<Byte>, ghost slots: seq<nat>) returns (cursor: nat)
    requires start <= cursor0 && cursor0 - start + n <= |slots| && start + |slots| <= dst.Length == |was| && src != dst
    requires d + n <= src.Length && slots[cursor0 - start..cursor0 - start + n] == Span(d, n)
    requires forall k :: 0 <= k < |slots| ==> slots[k] < src.Length
    requires dst[..] == was[..start] + Unmapped(src[..], slots[..cursor0 - start]) + was[cursor0..]
    modifies dst
    ensures cursor == cursor0 + n
    ensures dst[..] == was[..start] + Unmapped(src[..], slots[..cursor - start]) + was[cursor..]
  {
    cursor := cursor0;
    var j := 0;
    while j < n
      invariant j <= n && cursor == cursor0 + j
      invariant dst[..] == was[..start] + Unmapped(src[..], slots[..cursor - start]) + was[cursor..]
    {
      assert slots[cursor - start] == Span(d, n)[j];
      UnmappedStep(src[..], slots, cursor - start);
      dst[cursor] := src[d + j];
      cursor := cursor + 1;
      j := j + 1;
    }
  }

  lemma UnmappedStep(record: seq<Byte>, slots: seq<nat>, k: nat)
    requires k < |slots| && forall k :: 0 <= k < |slots| ==> slots[k] < |record|
    ensures Unmapped(record, slots[..k + 1]) == Unmapped(record, slots[..k]) + [record[slots[k]]]
  {
  }

  // ---- the two undo each other ------------------------------------------------

  // Mapping bytes into a struct puts each into its slot, and touches nothing else.
  lemma {:induction false} MappedAt(was: seq<Byte>, bytes: seq<Byte>, slots: seq<nat>, i: nat)
    requires |bytes| <= |slots| && i < |was| && forall k :: 0 <= k < |slots| ==> slots[k] < |was|
    requires forall j, k :: 0 <= j < k < |slots| ==> slots[j] < slots[k]
    ensures forall k :: 0 <= k < |bytes| && slots[k] == i ==> Mapped(was, bytes, slots)[i] == bytes[k]
    ensures (forall k :: 0 <= k < |bytes| ==> slots[k] != i) ==> Mapped(was, bytes, slots)[i] == was[i]
    decreases |bytes|
  {
    if bytes != [] {
      var n := |bytes| - 1;
      MappedAt(was, bytes[..n], slots, i);
      assert slots[n] != i ==> Mapped(was, bytes, slots)[i] == Mapped(was, bytes[..n], slots)[i];
    }
  }

  // Mapping what was unmapped gives every field byte back, for every format.
  lemma MapUndoesUnmap(from: seq<Byte>, to: seq<Byte>, layout: string, long: bool, i: nat)
    requires End(layout, 0, long) <= |from| && |to| == |from| && i < |to|
    ensures var slots := Slots(layout, 0, long);
            && |Unmapped(from, slots)| == Total(layout)
            && Mapped(to, Unmapped(from, slots), slots)[i] == if i in slots then from[i] else to[i]
  {
    SlotsIncrease(layout, 0, long);
    MappedAt(to, Unmapped(from, Slots(layout, 0, long)), Slots(layout, 0, long), i);
  }

  // And unmapping what was mapped gives the bytes back.
  lemma UnmapUndoesMap(to: seq<Byte>, bytes: seq<Byte>, layout: string, long: bool)
    requires End(layout, 0, long) <= |to| && |bytes| == Total(layout)
    ensures Unmapped(Mapped(to, bytes, Slots(layout, 0, long)), Slots(layout, 0, long)) == bytes
  {
    var slots := Slots(layout, 0, long);
    SlotsIncrease(layout, 0, long);
    forall k | 0 <= k < |bytes|
      ensures Unmapped(Mapped(to, bytes, slots), slots)[k] == bytes[k]
    {
      MappedAt(to, bytes, slots, slots[k]);
    }
  }
}
