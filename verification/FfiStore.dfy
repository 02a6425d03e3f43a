// The store of FFI call arguments: slots at aligned offsets in a series that
// grows, made into pointers once it has stopped growing (t-routine.c).
module FfiStore {
  import opened Bits
  import opened FfiScalar

  const POINTER_SIZE := 8

  // The types of arguments modelled: integers, and structs of a given width.
  datatype Schema = Scalar(ctype: IntType) | StructOf(wide: nat)

  // What is passed. A type error is any other pairing with the schema.
  datatype Arg = Integer(i: int) | StructData(bytes: seq<Byte>)

  function SlotSize(s: Schema): nat {
    match s
    case Scalar(t) => Wide(t)
    case StructOf(wide) => wide
  }

  function SlotAlign(s: Schema): (a: nat)
    ensures a > 0
  {
    match s
    case Scalar(t) => Wide(t)
    case StructOf(_) => POINTER_SIZE
  }

  predicate Accepts(s: Schema, a: Arg) {
    match s
    case Scalar(_) => a.Integer?
    case StructOf(wide) => a.StructData? && |a.bytes| == wide
  }

  function ArgBytes(s: Schema, a: Arg): (r: seq<Byte>)
    requires Accepts(s, a)
    ensures |r| == SlotSize(s)
  {
    match s
    case Scalar(t) => Stored(t, a.i)
    case StructOf(_) => a.bytes
  }

  // Rounding up to a multiple.
  function RoundUp(n: nat, align: nat): (r: nat)
    requires align > 0
    ensures n <= r < n + align && r % align == 0
  {
    var over := n % align;
    RoundsUp(n, align);
    if over == 0 then n else n + (align - over)
  }

  lemma RoundsUp(n: nat, align: nat)
    requires align > 0
    ensures n % align != 0 ==> (n + (align - n % align)) % align == 0
  {
    var q := n / align;
    assert n == q * align + n % align;
    assert (q + 1) * align == q * align + align;
    DivModUnique((q + 1) * align, align, q + 1, 0);
  }

  class Store {
    var bytes: seq<Byte>

    constructor ()
      ensures bytes == []
    {
      bytes := [];
    }

    // Expand_And_Align_Core; the new bytes are not initialised by the code, so they may be any.
    method ExpandAndAlign(align: nat, size: nat, fill: seq<Byte>) returns (offset: nat)
      requires align > 0 && |fill| == align + size
      modifies this
      ensures offset == RoundUp(|old(bytes)|, align)
      ensures |bytes| == offset + size && old(bytes) <= bytes
    {
      var padding := |bytes| % align;
      if padding != 0 {
        padding := align - padding;
      }
      offset := |bytes| + padding;
      bytes := bytes + fill[..padding + size];
    }

    // arg_to_ffi into the store; without an argument only room is made.
    method ArgToFfi(arg: Arg, hasArg: bool, schema: Schema, fill: seq<Byte>) returns (ok: bool, offset: nat)
      requires |fill| == SlotAlign(schema) + SlotSize(schema)
      modifies this
      ensures ok <==> !hasArg || Accepts(schema, arg)
      ensures offset == RoundUp(|old(bytes)|, SlotAlign(schema))
      ensures |bytes| == offset + SlotSize(schema) && old(bytes) <= bytes
      ensures ok && hasArg ==> bytes[offset..] == ArgBytes(schema, arg)
    {
      offset := ExpandAndAlign(SlotAlign(schema), SlotSize(schema), fill);
      if !hasArg {
        return true, offset;
      }
      if !Accepts(schema, arg) {
        return false, offset;
      }
      ghost var was := bytes;
      bytes := bytes[..offset] + ArgBytes(schema, arg);
      ok := true;
    }
  }

  // ---- the whole call -------------------------------------------------------------------

  // A slot of a call: the return value's, without an argument, or an argument's.
  datatype Slot = Room(schema: Schema) | Passing(schema: Schema, arg: Arg)

  predicate IsAccepted(s: Slot) {
    s.Passing? ==> Accepts(s.schema, s.arg)
  }

  // Where the n-th slot goes, and the length of the store after n slots.
  function SlotAt(slots: seq<Slot>, n: nat): nat
    requires n < |slots|
    decreases n, 1
  {
    RoundUp(LengthAfter(slots, n), SlotAlign(slots[n].schema))
  }

  function LengthAfter(slots: seq<Slot>, n: nat): nat
    requires n <= |slots|
    decreases n, 0
  {
    if n == 0 then 0 else SlotAt(slots, n - 1) + SlotSize(slots[n - 1].schema)
  }

  function SlotEnd(slots: seq<Slot>, n: nat): nat
    requires n < |slots|
  {
    SlotAt(slots, n) + SlotSize(slots[n].schema)
  }

  lemma {:induction false} InOrder(slots: seq<Slot>, j: nat, k: nat)
    requires j < k <= |slots|
    ensures SlotEnd(slots, j) <= LengthAfter(slots, k)
    decreases k
  {
    if j + 1 < k {
      InOrder(slots, j, k - 1);
    }
  }

  // The arguments of the first n slots are in their places, in a store of that length.
  ghost predicate Holds(memory: seq<Byte>, slots: seq<Slot>, n: nat) {
    && n <= |slots| && |memory| == LengthAfter(slots, n)
    && forall i :: 0 <= i < n ==> InSlot(memory, slots, i)
  }

  ghost predicate InSlot(memory: seq<Byte>, slots: seq<Slot>, i: nat)
    requires i < |slots|
  {
    && SlotEnd(slots, i) <= |memory| && IsAccepted(slots[i])
    && (slots[i].Passing? ==> memory[SlotAt(slots, i)..SlotEnd(slots, i)] == ArgBytes(slots[i].schema, slots[i].arg))
  }

  // Growing the store moves no slot within it.
  lemma StillHolds(memory: seq<Byte>, more: seq<Byte>, slots: seq<Slot>, n: nat)
    requires n < |slots| && Holds(memory, slots, n) && memory <= more
    requires |more| == SlotEnd(slots, n) && IsAccepted(slots[n])
    requires slots[n].Passing? ==> more[SlotAt(slots, n)..] == ArgBytes(slots[n].schema, slots[n].arg)
    ensures Holds(more, slots, n + 1)
  {
    forall i | 0 <= i < n + 1
      ensures InSlot(more, slots, i)
    {
      if i < n {
        assert InSlot(memory, slots, i);
        assert more[SlotAt(slots, i)..SlotEnd(slots, i)] == memory[SlotAt(slots, i)..SlotEnd(slots, i)];
      } else {
        assert more[SlotAt(slots, i)..SlotEnd(slots, i)] == more[SlotAt(slots, i)..];
      }
    }
  }

  predicate Fills(fills: seq<seq<Byte>>, slots: seq<Slot>) {
    && |fills| == |slots|
    && forall k :: 0 <= k < |slots| ==> |fills[k]| == SlotAlign(slots[k].schema) + SlotSize(slots[k].schema)
  }

  // Routine_Dispatcher: gathering the arguments into the store, lines 708-822. The
  // offset of the return slot, which the code keeps apart, is the first one.
  method Gather(slots: seq<Slot>, fills: seq<seq<Byte>>, store: Store, offsets: array<nat>) returns (ok: bool)
    requires store.bytes == [] && offsets.Length == |slots| && Fills(fills, slots)
    modifies store, offsets
    ensures ok <==> forall i :: 0 <= i < |slots| ==> IsAccepted(slots[i])
    ensures ok ==> Holds(store.bytes, slots, |slots|)
    ensures ok ==> forall i {:trigger offsets[i]} :: 0 <= i < |slots| ==> offsets[i] == SlotAt(slots, i)
  {
    var i := 0;
    while i < |slots|
      invariant i <= |slots| && Holds(store.bytes, slots, i)
      invariant forall k :: 0 <= k < i ==> IsAccepted(slots[k])
      invariant forall k {:trigger offsets[k]} :: 0 <= k < i ==> offsets[k] == SlotAt(slots, k)
    {
      var offset;
      ok, offset := GatherOne(slots, i, fills[i], store);
      if !ok {
        return;
      }
      offsets[i] := offset;
      i := i + 1;
    }
    ok := true;
  }

  method GatherOne(slots: seq<Slot>, i: nat, fill: seq<Byte>, store: Store) returns (ok: bool, offset: nat)
    requires i < |slots| && Holds(store.bytes, slots, i)
    requires |fill| == SlotAlign(slots[i].schema) + SlotSize(slots[i].schema)
    modifies store
    ensures ok <==> IsAccepted(slots[i])
    ensures ok ==> Holds(store.bytes, slots, i + 1) && offset == SlotAt(slots, i)
  {
    ghost var was := store.bytes;
    var s := slots[i];
    ok, offset := store.ArgToFfi(if s.Passing? then s.arg else Integer(0), s.Passing?, s.schema, fill);
    if ok {
      StillHolds(was, store.bytes, slots, i);
    }
  }

  // Lines 838-850: the offsets become pointers, now that the store stays where it is.
  method Relocate(offsets: array<nat>, base: nat)
    modifies offsets
    ensures forall k :: 0 <= k < offsets.Length ==> offsets[k] == base + old(offsets[k])
  {
    var i := 0;
    while i < offsets.Length
      invariant i <= offsets.Length
      invariant forall k :: 0 <= k < offsets.Length ==> offsets[k] == old(offsets[k]) + if k < i then base else 0
    {
      offsets[i] := base + offsets[i];
      i := i + 1;
    }
  }

  // ffi_to_rebol, at an offset of the store.
  function FfiToRebol(s: Schema, memory: seq<Byte>, at: nat): Arg
    requires at + SlotSize(s) <= |memory|
  {
    match s
    case Scalar(t) => Integer(Loaded(t, memory[at..at + Wide(t)]))
    case StructOf(wide) => StructData(memory[at..at + wide])
  }

  // The arguments that survive: integers in the range of their C type, and structs.
  predicate Survives(s: Schema, a: Arg) {
    s.Scalar? && a.Integer? ==> Fits(s.ctype, a.i)
  }

  // An argument reads back from where it was put exactly if it survives.
  lemma ArgumentReadsBack(memory: seq<Byte>, slots: seq<Slot>, i: nat)
    requires i < |slots| && slots[i].Passing? && Holds(memory, slots, |slots|)
    ensures SlotEnd(slots, i) <= |memory|
    ensures FfiToRebol(slots[i].schema, memory, SlotAt(slots, i)) == slots[i].arg <==>
        Survives(slots[i].schema, slots[i].arg)
  {
    assert InSlot(memory, slots, i);
    if slots[i].schema.Scalar? {
      StoreThenLoad(slots[i].schema.ctype, slots[i].arg.i);
    }
  }

  // Every slot is aligned as an address, and within the store.
  lemma SlotIsSound(slots: seq<Slot>, base: nat, n: nat)
    requires n < |slots| && base % SlotAlign(slots[n].schema) == 0
    ensures (base + SlotAt(slots, n)) % SlotAlign(slots[n].schema) == 0
    ensures SlotEnd(slots, n) <= LengthAfter(slots, |slots|)
  {
    InOrder(slots, n, |slots|);
    AddressAligned(base, SlotAt(slots, n), SlotAlign(slots[n].schema));
  }

  // Any two slots are apart and in order.
  lemma SlotsApart(slots: seq<Slot>, j: nat, k: nat)
    requires j < k < |slots|
    ensures SlotEnd(slots, j) <= SlotAt(slots, k)
  {
    InOrder(slots, j, k);
  }

  // An address is aligned if the base is and the offset is.
  lemma AddressAligned(base: nat, offset: nat, align: nat)
    requires align > 0 && base % align == 0 && offset % align == 0
    ensures (base + offset) % align == 0
  {
    var p, q := base / align, offset / align;
    assert base == p * align && offset == q * align;
    assert (p + q) * align == base + offset;
    DivModUnique(base + offset, align, p + q, 0);
  }

  predicate AllEmpty(slots: seq<Slot>, m: nat, n: nat) {
    forall k :: m <= k < n <= |slots| ==> SlotSize(slots[k].schema) == 0
  }

  // What line 847 asserts of an offset, that it is 0 or within the store, holds
  // exactly if the slots before it are all empty, or it or some later one is not.
  lemma OffsetInStore(slots: seq<Slot>, n: nat)
    requires n < |slots|
    ensures SlotAt(slots, n) == 0 || SlotAt(slots, n) < LengthAfter(slots, |slots|) <==>
            AllEmpty(slots, 0, n) || !AllEmpty(slots, n, |slots|)
  {
    EmptySoFar(slots, n);
    if AllEmpty(slots, n, |slots|) {
      EmptyTail(slots, n, |slots|);
    } else {
      var k :| n <= k < |slots| && SlotSize(slots[k].schema) > 0;
      if n < k {
        SlotsApart(slots, n, k);
      }
      InOrder(slots, k, |slots|);
    }
  }

  lemma {:induction false} EmptySoFar(slots: seq<Slot>, n: nat)
    requires n <= |slots|
    ensures LengthAfter(slots, n) == 0 <==> AllEmpty(slots, 0, n)
  {
    if n > 0 {
      EmptySoFar(slots, n - 1);
    }
  }

  lemma {:induction false} EmptyTail(slots: seq<Slot>, n: nat, m: nat)
    requires n < m <= |slots| && AllEmpty(slots, n, m)
    ensures LengthAfter(slots, m) == SlotAt(slots, n)
    decreases m
  {
    if n + 1 < m {
      EmptyTail(slots, n, m - 1);
    }
  }

  // So an empty struct passed after a number does not have such an offset.
  lemma EmptyStructLast(i: int)
    ensures var slots := [Passing(Scalar(Int64), Integer(i)), Passing(StructOf(0), StructData([]))];
            IsAccepted(slots[1]) && !(SlotAt(slots, 1) == 0 || SlotAt(slots, 1) < LengthAfter(slots, |slots|))
  {
    var slots := [Passing(Scalar(Int64), Integer(i)), Passing(StructOf(0), StructData([]))];
    assert SlotSize(slots[0].schema) == 8;
    OffsetInStore(slots, 1);
  }
}
