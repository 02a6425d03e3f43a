// What a C function finds in the memory that the FFI extension fills, and when a set is
// refused, by byte, address and number (extensions/ffi).
module FfiMemory {
  import opened Bits
  import opened Wrappers
  import opened FfiScalar
  import S = FfiStruct
  import A = FfiStore

  // ---- numbers ------------------------------------------------------------------------

  // A number divided by 256 so many times, rounding down.
  function Quotient(v: int, i: nat): int
    decreases i
  {
    if i == 0 then v else Quotient(v / 256, i - 1)
  }

  lemma {:induction false} LowBytesAt(v: int, n: nat, i: nat)
    requires i < n
    ensures LowBytes(v, n)[i] == Quotient(v, i) % 256
    decreases n
  {
    if i > 0 {
      LowBytesAt(v / 256, n - 1, i - 1);
    }
  }

  // In memory the lowest byte comes first.
  lemma StoredAt(t: IntType, v: int, i: nat)
    requires i < Wide(t)
    ensures Stored(t, v)[i] == Quotient(v, i) % 256
  {
    LowBytesAt(v, Wide(t), i);
  }

  // The C type has the number.
  predicate Represents(t: IntType, v: int) {
    var bits := 8 * Wide(t);
    if IsSigned(t) then 0 <= v + Pow2(bits - 1) < Pow2(bits) else 0 <= v < Pow2(bits)
  }

  lemma Widths()
    ensures Pow2(7) == 0x80 && Pow2(8) == 0x100 && Pow2(15) == 0x8000 && Pow2(16) == 0x1_0000
    ensures Pow2(31) == 0x8000_0000 && Pow2(32) == 0x1_0000_0000
    ensures Pow2(63) == 0x8000_0000_0000_0000 && Pow2(64) == 0x1_0000_0000_0000_0000
  {
    Pow2Small();
    Halved(8);
    Doubled(8, 0x100);
    Doubled(16, 0x1_0000);
    Doubled(32, 0x1_0000_0000);
  }

  lemma Halved(n: nat)
    requires n > 0
    ensures Pow2(n) == 2 * Pow2(n - 1)
  {
  }

  lemma Doubled(n: nat, p: nat)
    requires n > 0 && Pow2(n) == p
    ensures Pow2(2 * n) == p * p == 2 * Pow2(2 * n - 1)
  {
    Pow2Sum(n, n);
    Halved(2 * n);
  }

  // A field of a struct takes exactly the 64-bit numbers that its type has.
  lemma FieldTakes(t: IntType, v: int)
    requires IsInt64(v)
    ensures S.InRange(t, v) <==> Represents(t, v)
  {
    Widths();
  }

  // ---- setting ------------------------------------------------------------------------

  // An element is written where a C array has it, and nothing else is.
  lemma AssignedAt(data: seq<Byte>, fields: seq<S.Field>, k: nat, n: nat, v: int, p: nat)
    requires S.Tiles(fields, |data|) && k < |fields| && n < S.Count(fields[k].dimension) && p < |data|
    ensures var f, after := fields[k], S.Assigned(data, fields, k, n, v);
            var at := f.offset + Times(Wide(f.ctype), n);
            after[p] == if at <= p < at + Wide(f.ctype) then Quotient(v, p - at) % 256 else data[p]
  {
    var f := fields[k];
    var at := f.offset + Times(Wide(f.ctype), n);
    S.Within(fields, |data|, k);
    S.CellFits(f, n);
    if at <= p < at + Wide(f.ctype) {
      StoredAt(f.ctype, v, p - at);
    }
  }

  // All elements of an array are set.
  predicate IsWhole(f: S.Field, elem: Option<int>) {
    f.dimension.Some? && elem.None?
  }

  // How a set ends, by what is passed.
  lemma SetEnds(data: seq<Byte>, fields: seq<S.Field>, k: nat, elem: Option<int>, val: S.Value)
    requires S.Tiles(fields, |data|) && (elem.Some? ==> forall f :: f in fields ==> S.Count(f.dimension) > 0)
    requires k < |fields| && S.IsValue(val)
    ensures var r, f := S.SetTo(data, fields, k, elem, val).0, fields[k];
            && (r == S.NotSet <==>
                if IsWhole(f, elem) then !val.Block? || |S.From(val.items, val.index)| != f.dimension.value
                else f.dimension.Some? && elem != Some(1))
            && (r == S.BadType <==> r != S.NotSet && !IsWhole(f, elem) && val.Block?)
            && (r == S.Done && val.Integer? ==> Represents(f.ctype, val.i))
            && (r == S.Overflow && val.Integer? ==> !Represents(f.ctype, val.i))
            && (r == S.Done && val.Block? ==>
                  && |val.items| >= f.dimension.value
                  && forall m :: 0 <= m < f.dimension.value ==> Represents(f.ctype, val.items[m]))
  {
    var f := fields[k];
    if val.Integer? {
      FieldTakes(f.ctype, val.i);
    } else if IsWhole(f, elem) && |S.From(val.items, val.index)| == f.dimension.value {
      var n := f.dimension.value;
      var bad := S.FirstBad(f.ctype, val.items[..n]);
      forall m | 0 <= m < bad
        ensures Represents(f.ctype, val.items[m])
      {
        assert val.items[m] == val.items[..n][m] && val.items[m] in val.items;
        FieldTakes(f.ctype, val.items[m]);
      }
    }
  }

  // After an overflow the items before the first that does not fit are in the array, and
  // its other elements are as they were.
  lemma StopsInTheMiddle(data: seq<Byte>, fields: seq<S.Field>, k: nat, val: S.Value) returns (n: nat)
    requires S.Tiles(fields, |data|) && k < |fields| && S.IsValue(val) && val.Block?
    requires S.SetTo(data, fields, k, None, val).0 == S.Overflow
    ensures n < S.Count(fields[k].dimension) && n < |val.items| && !Represents(fields[k].ctype, val.items[n])
    ensures forall m: nat :: m < n ==>
              && Represents(fields[k].ctype, val.items[m])
              && S.Scalar(S.SetTo(data, fields, k, None, val).1, fields, k, m)
                 == S.AsRead(fields[k].ctype, val.items[m])
    ensures forall m: nat :: n <= m < S.Count(fields[k].dimension) ==>
              S.Scalar(S.SetTo(data, fields, k, None, val).1, fields, k, m) == S.Scalar(data, fields, k, m)
  {
    var f, count, after := fields[k], S.Count(fields[k].dimension), S.SetTo(data, fields, k, None, val).1;
    n := S.FirstBad(f.ctype, val.items[..count]);
    assert val.items[n] == val.items[..count][n] && val.items[n] in val.items;
    FieldTakes(f.ctype, val.items[n]);
    forall m: nat | m < n
      ensures S.InRange(f.ctype, val.items[m]) && Represents(f.ctype, val.items[m])
    {
      assert val.items[m] == val.items[..count][m] && val.items[m] in val.items;
      FieldTakes(f.ctype, val.items[m]);
    }
    forall m: nat | m < n
      ensures S.Scalar(after, fields, k, m) == S.AsRead(f.ctype, val.items[m])
    {
      S.ItemsSet(data, fields, k, val.items, n, m);
    }
    forall m: nat | n <= m < count
      ensures S.Scalar(after, fields, k, m) == S.Scalar(data, fields, k, m)
    {
      LaterItem(data, fields, k, val.items, n, m);
    }
  }

  lemma {:induction false} LaterItem(data: seq<Byte>, fields: seq<S.Field>, k: nat, items: seq<int>, n: nat, m: nat)
    requires S.Tiles(fields, |data|) && k < |fields| && n <= |items| && n <= m < S.Count(fields[k].dimension)
    ensures S.Scalar(S.AssignedAll(data, fields, k, items, n), fields, k, m) == S.Scalar(data, fields, k, m)
    decreases n
  {
    if n > 0 {
      LaterItem(data, fields, k, items, n - 1, m);
      S.OtherCell(S.AssignedAll(data, fields, k, items, n - 1), fields, k, n - 1, items[n - 1], k, m);
    }
  }

  // With a picker the first element is set, and the others of the array are kept.
  lemma PickedElement(data: seq<Byte>, fields: seq<S.Field>, k: nat, v: int)
    requires S.Tiles(fields, |data|) && (forall f :: f in fields ==> S.Count(f.dimension) > 0)
    requires k < |fields| && IsInt64(v) && Represents(fields[k].ctype, v)
    ensures var r, after := S.SetTo(data, fields, k, Some(1), S.Integer(v)).0,
                            S.SetTo(data, fields, k, Some(1), S.Integer(v)).1;
            && r == S.Done && |after| == |data| && S.Count(fields[k].dimension) > 0
            && S.Scalar(after, fields, k, 0) == S.AsRead(fields[k].ctype, v)
            && forall m :: 0 < m < S.Count(fields[k].dimension) ==>
                 S.Scalar(after, fields, k, m) == S.Scalar(data, fields, k, m)
  {
    assert fields[k] in fields;
    FieldTakes(fields[k].ctype, v);
    S.SameCell(data, fields, k, 0, v);
    forall m | 0 < m < S.Count(fields[k].dimension)
      ensures S.Scalar(S.Assigned(data, fields, k, 0, v), fields, k, m) == S.Scalar(data, fields, k, m)
    {
      S.OtherCell(data, fields, k, 0, v, k, m);
    }
  }

  // ---- comparing ----------------------------------------------------------------------

  // A field of one struct stands for that of the other.
  predicate StandsFor(tgt: S.Field, src: S.Field) {
    && tgt.ctype == src.ctype && S.Count(tgt.dimension) == S.Count(src.dimension)
    && (src.dimension.None? ==> tgt.dimension.None?)
  }

  // Structs of one size compare as the same exactly if field by field the types and the
  // numbers of elements agree, and no array is compared with a single number.
  lemma SameWhen(tgt: seq<S.Field>, src: seq<S.Field>, size: nat)
    requires S.Tiles(tgt, size) && S.Tiles(src, size)
    ensures S.Same(tgt, src) <==> |tgt| == |src| && forall j :: 0 <= j < |tgt| ==> StandsFor(tgt[j], src[j])
  {
    if S.Same(tgt, src) {
      S.SameIsSameLayout(tgt, src, size);
      forall j | 0 <= j < |tgt|
        ensures StandsFor(tgt[j], src[j])
      {
        assert S.SameField(tgt[j], src[j]);
      }
    }
    if |tgt| == |src| && forall j :: 0 <= j < |tgt| ==> StandsFor(tgt[j], src[j]) {
      forall j | 0 <= j < |tgt|
        ensures S.SameField(tgt[j], src[j])
      {
        SameOffsets(tgt, src, size, j);
      }
    }
  }

  lemma {:induction false} SameOffsets(tgt: seq<S.Field>, src: seq<S.Field>, size: nat, j: nat)
    requires S.Tiles(tgt, size) && S.Tiles(src, size) && j < |tgt| == |src|
    requires forall i :: 0 <= i < |tgt| ==> StandsFor(tgt[i], src[i])
    ensures StandsFor(tgt[j], src[j]) && tgt[j].offset == src[j].offset
  {
    if j > 0 {
      SameOffsets(tgt, src, size, j - 1);
      assert S.End(tgt[j - 1]) == tgt[j].offset && S.End(src[j - 1]) == src[j].offset;
    }
  }

  // ---- arguments ----------------------------------------------------------------------

  // In a store at a multiple of eight, every number is at a multiple of its size, and
  // every struct at a multiple of eight.
  lemma ArgumentAddress(slots: seq<A.Slot>, base: nat, n: nat, s: A.Schema, at: nat)
    requires n < |slots| && base % 8 == 0 && s == slots[n].schema && at == A.SlotAt(slots, n)
    ensures s.StructOf? || s.ctype in {Uint64, Int64} ==> (base + at) % 8 == 0
    ensures s.Scalar? && s.ctype in {Uint32, Int32} ==> (base + at) % 4 == 0
    ensures s.Scalar? && s.ctype in {Uint16, Int16} ==> (base + at) % 2 == 0
  {
    OffsetAligned(slots, n, s, at);
    Evenly(base, at, if s.StructOf? then 8 else Wide(s.ctype));
  }

  lemma OffsetAligned(slots: seq<A.Slot>, n: nat, s: A.Schema, at: nat)
    requires n < |slots| && s == slots[n].schema && at == A.SlotAt(slots, n)
    ensures at % (if s.StructOf? then 8 else Wide(s.ctype)) == 0
  {
  }

  // The first slot is at the start, and each other one behind the slot before it with
  // less than its own alignment in between.
  lemma LittleBetween(slots: seq<A.Slot>, n: nat)
    requires n < |slots|
    ensures n == 0 ==> A.SlotAt(slots, n) == 0
    ensures n > 0 ==> 0 <= A.SlotAt(slots, n) - A.SlotEnd(slots, n - 1)
                      < if slots[n].schema.StructOf? then 8 else Wide(slots[n].schema.ctype)
  {
  }

  lemma Evenly(base: nat, at: nat, align: nat)
    requires align in {1, 2, 4, 8} && base % 8 == 0 && at % align == 0
    ensures (base + at) % align == 0
  {
    var b := base / 8;
    match align
    case 1 =>
    case 2 =>
      DivModUnique(base + at, 2, 4 * b + at / 2, 0);
    case 4 =>
      DivModUnique(base + at, 4, 2 * b + at / 4, 0);
    case 8 =>
      DivModUnique(base + at, 8, b + at / 8, 0);
  }

  // Every number is taken, cut to its type; a struct exactly if it has the size.
  lemma ArgumentTaken(s: A.Schema, arg: A.Arg)
    ensures s.Scalar? && arg.Integer? ==>
              A.Accepts(s, arg) && forall i: nat :: i < Wide(s.ctype) ==>
                                                      A.ArgBytes(s, arg)[i] == Quotient(arg.i, i) % 256
    ensures s.StructOf? && arg.StructData? ==>
              (A.Accepts(s, arg) <==> |arg.bytes| == s.wide) && (A.Accepts(s, arg) ==> A.ArgBytes(s, arg) == arg.bytes)
    ensures s.Scalar? != arg.Integer? ==> !A.Accepts(s, arg)
  {
    if s.Scalar? && arg.Integer? {
      forall i: nat | i < Wide(s.ctype)
        ensures A.ArgBytes(s, arg)[i] == Quotient(arg.i, i) % 256
      {
        StoredAt(s.ctype, arg.i, i);
      }
    }
  }
}
