// Flat structs of C integers: their layout, and setting and getting their
// fields (t-struct.c).
module FfiStruct {
  import opened Bits
  import opened Wrappers
  import opened FfiScalar

  const STRUCT_LIMIT := 0xFFFF_FFFF  // VAL_STRUCT_LIMIT

  // A field in a spec, and one in a struct. A field with a dimension is an array.
  datatype Spec = Spec(name: string, ctype: IntType, dimension: Option<nat>)
  datatype Field = Field(name: string, ctype: IntType, dimension: Option<nat>, offset: nat)

  function Count(dimension: Option<nat>): nat {
    if dimension.Some? then dimension.value else 1
  }

  // FLD_LEN_BYTES_TOTAL
  function Size(f: Field): nat {
    Times(Wide(f.ctype), Count(f.dimension))
  }

  lemma SizeIsProduct(f: Field)
    ensures Size(f) == Wide(f.ctype) * Count(f.dimension)
  {
    TimesIsProduct(Wide(f.ctype), Count(f.dimension));
  }

  // The fields lie one after another, from 0 up to the size.
  predicate Tiles(fields: seq<Field>, size: nat) {
    && (fields == [] ==> size == 0)
    && (fields != [] ==> fields[0].offset == 0 && End(fields[|fields| - 1]) == size)
    && forall k :: 0 <= k < |fields| - 1 ==> End(fields[k]) == fields[k + 1].offset
  }

  function End(f: Field): nat {
    f.offset + Size(f)
  }

  predicate Describes(f: Field, s: Spec) {
    f.name == s.name && f.ctype == s.ctype && f.dimension == s.dimension
  }

  // The size of the first n fields of a spec.
  function SpecSize(specs: seq<Spec>, n: nat): nat
    requires n <= |specs|
  {
    if n == 0 then 0 else SpecSize(specs, n - 1) + Step(specs[n - 1])
  }

  // A series grows by less than 2 GB at once, unless it has the room already.
  predicate Grows(used: nat, step: nat, room: nat) {
    step < 0x8000_0000 || used + step + 1 <= room
  }

  function Step(s: Spec): nat {
    Times(Wide(s.ctype), Count(s.dimension))
  }

  // The first n fields can be laid out; `rooms` is what the allocator has left the
  // data with, before each field.
  predicate LaysOut(specs: seq<Spec>, rooms: seq<nat>, n: nat)
    requires n <= |specs| == |rooms|
  {
    && SpecSize(specs, n) <= STRUCT_LIMIT
    && forall k :: 0 <= k < n ==> Grows(SpecSize(specs, k), Step(specs[k]), rooms[k])
  }

  datatype Layout = Laid(fields: seq<Field>, data: seq<Byte>) | SizeLimit | PastEnd

  // The error at a field: its series cannot grow, or the struct is over the limit.
  function Failure(specs: seq<Spec>, rooms: seq<nat>, k: nat): Layout
    requires k < |specs| == |rooms|
  {
    if Step(specs[k]) <= STRUCT_LIMIT && !Grows(SpecSize(specs, k), Step(specs[k]), rooms[k]) then PastEnd
    else SizeLimit
  }

  predicate FailsAt(specs: seq<Spec>, rooms: seq<nat>, k: nat)
    requires k < |specs| == |rooms|
  {
    LaysOut(specs, rooms, k) && !LaysOut(specs, rooms, k + 1)
  }

  // The field loop of MAKE_Struct: the fields, and the zeroed data; or an error.
  method LayOut(specs: seq<Spec>, rooms: seq<nat>) returns (r: Layout)
    requires |rooms| == |specs|
    ensures r.Laid? <==> LaysOut(specs, rooms, |specs|)
    ensures !r.Laid? ==> exists k :: 0 <= k < |specs| && FailsAt(specs, rooms, k) && r == Failure(specs, rooms, k)
    ensures r.Laid? ==>
              && |r.fields| == |specs| && (forall k :: 0 <= k < |specs| ==> Describes(r.fields[k], specs[k]))
              && Tiles(r.fields, |r.data|) && |r.data| == SpecSize(specs, |specs|)
              && forall i :: 0 <= i < |r.data| ==> r.data[i] == 0
  {
    var fields, data := [], [];
    var i := 0;
    while i < |specs|
      invariant i <= |specs| && LaidSoFar(specs, rooms, i, fields, data)
    {
      var error;
      error, fields, data := AddField(specs, rooms, i, fields, data);
      if error.Some? {
        return error.value;
      }
      i := i + 1;
    }
    return Laid(fields, data);
  }

  ghost predicate LaidSoFar(specs: seq<Spec>, rooms: seq<nat>, i: nat, fields: seq<Field>, data: seq<Byte>)
    requires i <= |specs| == |rooms|
  {
    && data == Zeros(SpecSize(specs, i)) && LaysOut(specs, rooms, i) && Tiles(fields, |data|)
    && |fields| == i && forall k :: 0 <= k < i ==> Describes(fields[k], specs[k])
  }

  // Lines 1186-1194, 1283-1289, where the offset is the length of the data.
  method AddField(specs: seq<Spec>, rooms: seq<nat>, i: nat, fields0: seq<Field>, data0: seq<Byte>)
      returns (error: Option<Layout>, fields: seq<Field>, data: seq<Byte>)
    requires i < |specs| == |rooms| && LaidSoFar(specs, rooms, i, fields0, data0)
    ensures error == if LaysOut(specs, rooms, i + 1) then None else Some(Failure(specs, rooms, i))
    ensures error.Some? ==> FailsAt(specs, rooms, i) && !LaysOut(specs, rooms, |specs|)
    ensures error.None? ==> LaidSoFar(specs, rooms, i + 1, fields, data)
  {
    fields, data := fields0, data0;
    var field := Field(specs[i].name, specs[i].ctype, specs[i].dimension, |data|);
    TimesIsProduct(Wide(field.ctype), Count(field.dimension));
    var step := Wide(field.ctype) * Count(field.dimension);
    OneMore(specs, rooms, i);
    if step > STRUCT_LIMIT {
      return Some(SizeLimit), fields, data;
    }
    if step >= 0x8000_0000 && |data| + step + 1 > rooms[i] {
      return Some(PastEnd), fields, data;
    }
    data := data + Zeros(step);
    if |data| > STRUCT_LIMIT {
      return Some(SizeLimit), fields, data;
    }
    fields := fields + [field];
    error := None;
    LaidMore(specs, rooms, i, fields0, data0, field, step);
  }

  lemma LaidMore(specs: seq<Spec>, rooms: seq<nat>, i: nat, fields: seq<Field>, data: seq<Byte>, field: Field,
                 step: nat)
    requires i < |specs| == |rooms| && LaidSoFar(specs, rooms, i, fields, data) && LaysOut(specs, rooms, i + 1)
    requires Describes(field, specs[i]) && field.offset == |data| && step == Step(specs[i]) == Size(field)
    ensures LaidSoFar(specs, rooms, i + 1, fields + [field], data + Zeros(step))
  {
    TilesMore(fields, |data|, field);
    OneMore(specs, rooms, i);
    assert Zeros(|data|) + Zeros(step) == Zeros(|data| + step);
  }

  lemma TilesMore(fields: seq<Field>, size: nat, field: Field)
    requires Tiles(fields, size) && field.offset == size
    ensures Tiles(fields + [field], size + Size(field))
  {
  }

  // One more field can be laid out, or no number of them.
  lemma OneMore(specs: seq<Spec>, rooms: seq<nat>, k: nat)
    requires k < |specs| == |rooms| && LaysOut(specs, rooms, k)
    ensures SpecSize(specs, k + 1) == SpecSize(specs, k) + Step(specs[k])
    ensures LaysOut(specs, rooms, k + 1) <==>
            SpecSize(specs, k + 1) <= STRUCT_LIMIT && Grows(SpecSize(specs, k), Step(specs[k]), rooms[k])
    ensures !LaysOut(specs, rooms, k + 1) ==> !LaysOut(specs, rooms, |specs|)
  {
    SpecSizeGrows(specs, k + 1, |specs|);
  }

  // A field of 2 GB is refused below the limit, unless the allocator was generous.
  lemma TwoGigabytes(name: string, room: nat)
    ensures SpecSize([Spec(name, Uint8, Some(0x8000_0000))], 1) == 0x8000_0000 < STRUCT_LIMIT
    ensures LaysOut([Spec(name, Uint8, Some(0x8000_0000))], [room], 1) <==> room > 0x8000_0000
  {
    var s := Spec(name, Uint8, Some(0x8000_0000));
    var specs := [s];
    TimesIsProduct(Wide(s.ctype), Count(s.dimension));
    assert SpecSize(specs, 1) == SpecSize(specs, 0) + Step(s);
    OneMore(specs, [room], 0);
  }

  lemma {:induction false} SpecSizeGrows(specs: seq<Spec>, m: nat, n: nat)
    requires m <= n <= |specs|
    ensures SpecSize(specs, m) <= SpecSize(specs, n)
  {
    if m < n {
      SpecSizeGrows(specs, m, n - 1);
    }
  }

  // No two fields overlap, and all are within the struct.
  lemma {:induction false} InOrder(fields: seq<Field>, size: nat, j: nat, k: nat)
    requires Tiles(fields, size) && j < k < |fields|
    ensures End(fields[j]) <= fields[k].offset
    decreases k
  {
    if j + 1 < k {
      InOrder(fields, size, j, k - 1);
    }
    assert End(fields[k - 1]) == fields[k - 1 + 1].offset;
  }

  lemma Within(fields: seq<Field>, size: nat, k: nat)
    requires Tiles(fields, size) && k < |fields|
    ensures End(fields[k]) <= size
  {
    if k < |fields| - 1 {
      InOrder(fields, size, k, |fields| - 1);
    }
  }

  // ---- setting ----------------------------------------------------------------------

  // A block is all its items and where it stands in them, perhaps behind them.
  datatype Value = Integer(i: int) | Block(items: seq<int>, index: nat)
  datatype Outcome = Done | NotSet | Overflow | BadType

  // The items from where the block stands; VAL_LEN_AT is their number.
  function From(items: seq<int>, index: nat): (r: seq<int>)
    ensures |r| <= |items|
  {
    if index < |items| then items[index..] else []
  }

  // assign_scalar_core refuses numbers that do not fit, negative ones for uint64.
  predicate InRange(t: IntType, i: int) {
    if t == Uint64 then i >= 0 else Fits(t, i)
  }

  // A cell of a field in the data.
  function Cell(data: seq<Byte>, f: Field, n: nat): (r: seq<Byte>)
    requires n < Count(f.dimension) && End(f) <= |data|
    ensures |r| == Wide(f.ctype)
  {
    CellFits(f, n);
    data[f.offset + Times(Wide(f.ctype), n)..f.offset + Times(Wide(f.ctype), n) + Wide(f.ctype)]
  }

  lemma CellFits(f: Field, n: nat)
    requires n < Count(f.dimension)
    ensures Times(Wide(f.ctype), n) + Wide(f.ctype) <= Size(f)
  {
    TimesGrows(Wide(f.ctype), n + 1, Count(f.dimension));
  }

  class Struct {
    const fields: seq<Field>
    const size: nat
    var data: seq<Byte>

    predicate Valid()
      reads this
    {
      Tiles(fields, size) && |data| == size
    }

    constructor (fields0: seq<Field>, data0: seq<Byte>)
      requires Tiles(fields0, |data0|)
      ensures Valid() && fields == fields0 && data == data0
    {
      fields, size, data := fields0, |data0|, data0;
    }

    // assign_scalar_core, for a number: the cell gets it, or an overflow error.
    method AssignScalar(k: nat, n: nat, i: int) returns (ok: bool)
      requires Valid() && k < |fields| && n < Count(fields[k].dimension) && IsInt64(i)
      modifies this`data
      ensures Valid() && (ok <==> InRange(fields[k].ctype, i))
      ensures data == if ok then Assigned(old(data), fields, k, n, i) else old(data)
    {
      var f := fields[k];
      Within(fields, size, k);
      CellFits(f, n);
      if f.ctype == Uint64 {
        if i < 0 {
          return false;
        }
      } else if !Fits(f.ctype, i) {
        return false;
      }
      var at := f.offset + Times(Wide(f.ctype), n);
      data := data[..at] + Stored(f.ctype, i) + data[at + Wide(f.ctype)..];
      ok := true;
    }
  
    // Set_Struct_Var. The first field of the name is set; of an array all of it, or
    // with a picker its first element. A value out of range stops in the middle.
    method SetVar(name: string, elem: Option<int>, val: Value) returns (r: Outcome)
      requires Valid() && IsValue(val)
      requires elem.Some? ==> forall f :: f in fields ==> Count(f.dimension) > 0
      modifies this`data
      ensures Valid() && (r, data) == SetTo(old(data), fields, FirstNamed(fields, name), elem, val)
    {
      var k := 0;
      while k < |fields|
        invariant k <= |fields| && (forall j :: 0 <= j < k ==> fields[j].name != name) && data == old(data)
      {
        var f := fields[k];
        if f.name != name {
          k := k + 1;
          continue;
        }
        FirstNamedIs(fields, name, k);
        if f.dimension.Some? && elem.None? {
          r := SetArray(k, val);
          return;
        }
        if f.dimension.Some? && elem.value != 1 {
          return NotSet;
        }
        if val.Block? {
          return BadType;
        }
        assert f in fields;
        var ok := AssignScalar(k, 0, val.i);
        return if ok then Done else Overflow;
      }
      FirstNamedIs(fields, name, k);
      r := NotSet;
    }

    // Lines 503-518: the length is counted from where the block stands, but the
    // items are taken from its head.
    method SetArray(k: nat, val: Value) returns (r: Outcome)
      requires Valid() && k < |fields| && fields[k].dimension.Some? && IsValue(val)
      modifies this`data
      ensures Valid() && (r, data) == SetTo(old(data), fields, k, None, val)
    {
      if !val.Block? {
        return NotSet;
      }
      var dimension := fields[k].dimension.value;
      if dimension != |From(val.items, val.index)| {
        return NotSet;
      }
      ghost var was := data;
      var n, ok := 0, true;
      while n < dimension && ok
        invariant n <= dimension && Valid() && SomeSet(was, data, fields, k, val.items, n)
        invariant !ok ==> n < dimension && !InRange(fields[k].ctype, val.items[n])
        decreases dimension - n, ok
      {
        assert val.items[n] in val.items;
        ok := AssignScalar(k, n, val.items[n]);
        if ok {
          n := n + 1;
        }
      }
      ArraySetTo(was, fields, k, val, n);
      r := if ok then Done else Overflow;
    }

    // Get_Struct_Var.
    method GetVar(name: string) returns (r: Option<Value>)
      requires Valid()
      ensures var k := FirstNamed(fields, name);
              r == if k == |fields| then None else Some(Held(data, fields, k))
    {
      var k := 0;
      while k < |fields|
        invariant k <= |fields| && forall j :: 0 <= j < k ==> fields[j].name != name
      {
        var f := fields[k];
        if f.name == name {
          FirstNamedIs(fields, name, k);
          if f.dimension.None? {
            return Some(Integer(Scalar(data, fields, k, 0)));
          }
          var items, n := [], 0;
          while n < f.dimension.value
            invariant n <= f.dimension.value && items == Items(data, fields, k, n)
          {
            items := items + [Scalar(data, fields, k, n)];
            n := n + 1;
          }
          return Some(Block(items, 0));
        }
        k := k + 1;
      }
      FirstNamedIs(fields, name, k);
      r := None;
    }
  }

  // The data with one cell changed.
  function Assigned(data: seq<Byte>, fields: seq<Field>, k: nat, n: nat, i: int): (r: seq<Byte>)
    requires Tiles(fields, |data|) && k < |fields| && n < Count(fields[k].dimension)
    ensures |r| == |data|
  {
    Within(fields, |data|, k);
    CellFits(fields[k], n);
    var at := fields[k].offset + Times(Wide(fields[k].ctype), n);
    data[..at] + Stored(fields[k].ctype, i) + data[at + Wide(fields[k].ctype)..]
  }

  function FirstNamed(fields: seq<Field>, name: string): (k: nat)
    ensures k <= |fields| && (k < |fields| ==> fields[k].name == name)
    ensures forall j :: 0 <= j < k ==> fields[j].name != name
  {
    if fields == [] || fields[0].name == name then 0 else 1 + FirstNamed(fields[1..], name)
  }

  lemma FirstNamedIs(fields: seq<Field>, name: string, k: nat)
    requires k <= |fields| && (k < |fields| ==> fields[k].name == name)
    requires forall j :: 0 <= j < k ==> fields[j].name != name
    ensures FirstNamed(fields, name) == k
  {
  }

  predicate IsValue(val: Value) {
    match val
    case Integer(i) => IsInt64(i)
    case Block(items, _) => forall i :: i in items ==> IsInt64(i)
  }

  predicate AllInRange(t: IntType, items: seq<int>, n: nat) {
    forall j :: 0 <= j < n <= |items| ==> InRange(t, items[j])
  }

  // The first n items are in range and have been assigned.
  ghost predicate SomeSet(was: seq<Byte>, data: seq<Byte>, fields: seq<Field>, k: nat, items: seq<int>, n: nat) {
    && Tiles(fields, |was|) && k < |fields| && n <= |items| && n <= Count(fields[k].dimension)
    && AllInRange(fields[k].ctype, items, n) && data == AssignedAll(was, fields, k, items, n)
  }

  // The first item that is out of range, or the length.
  function FirstBad(t: IntType, items: seq<int>): (n: nat)
    ensures n <= |items| && (n < |items| ==> !InRange(t, items[n])) && AllInRange(t, items, n)
  {
    if items == [] || !InRange(t, items[0]) then 0
    else
      var n := FirstBad(t, items[1..]);
      assert forall j :: 0 < j < n + 1 ==> items[j] == items[1..][j - 1];
      1 + n
  }

  lemma FirstBadIs(t: IntType, items: seq<int>, n: nat)
    requires n <= |items| && (n < |items| ==> !InRange(t, items[n])) && AllInRange(t, items, n)
    ensures FirstBad(t, items) == n
  {
  }

  // The data after the first n items have been assigned.
  function AssignedAll(data: seq<Byte>, fields: seq<Field>, k: nat, items: seq<int>, n: nat): (r: seq<Byte>)
    requires Tiles(fields, |data|) && k < |fields| && n <= |items| && n <= Count(fields[k].dimension)
    ensures |r| == |data|
  {
    if n == 0 then data else Assigned(AssignedAll(data, fields, k, items, n - 1), fields, k, n - 1, items[n - 1])
  }

  function SetTo(data: seq<Byte>, fields: seq<Field>, k: nat, elem: Option<int>, val: Value): (Outcome, seq<Byte>)
    requires Tiles(fields, |data|) && (elem.Some? ==> forall f :: f in fields ==> Count(f.dimension) > 0)
  {
    if k >= |fields| then (NotSet, data)
    else
      var f := fields[k];
      if f.dimension.Some? && elem.None? then
        if !val.Block? || |From(val.items, val.index)| != f.dimension.value then (NotSet, data)
        else
          var n := FirstBad(f.ctype, val.items[..f.dimension.value]);
          (if n == f.dimension.value then Done else Overflow, AssignedAll(data, fields, k, val.items, n))
      else if f.dimension.Some? && elem.value != 1 then (NotSet, data)
      else if val.Block? then (BadType, data)
      else if !InRange(f.ctype, val.i) then (Overflow, data)
      else assert f in fields; (Done, Assigned(data, fields, k, 0, val.i))
  }

  lemma ArraySetTo(data: seq<Byte>, fields: seq<Field>, k: nat, val: Value, n: nat)
    requires Tiles(fields, |data|) && k < |fields| && fields[k].dimension.Some?
    requires val.Block? && |From(val.items, val.index)| == fields[k].dimension.value
    requires n <= fields[k].dimension.value && AllInRange(fields[k].ctype, val.items, n)
    requires n < fields[k].dimension.value ==> !InRange(fields[k].ctype, val.items[n])
    ensures SetTo(data, fields, k, None, val)
            == (if n == fields[k].dimension.value then Done else Overflow, AssignedAll(data, fields, k, val.items, n))
  {
    FirstBadIs(fields[k].ctype, val.items[..fields[k].dimension.value], n);
  }

  // ---- getting ----------------------------------------------------------------------

  // get_scalar reads an int16 through an int8 pointer.
  function ReadAs(t: IntType): IntType {
    if t == Int16 then Int8 else t
  }

  function Scalar(data: seq<Byte>, fields: seq<Field>, k: nat, n: nat): int
    requires Tiles(fields, |data|) && k < |fields| && n < Count(fields[k].dimension)
  {
    Within(fields, |data|, k);
    Loaded(ReadAs(fields[k].ctype), Cell(data, fields[k], n)[..Wide(ReadAs(fields[k].ctype))])
  }

  function Items(data: seq<Byte>, fields: seq<Field>, k: nat, n: nat): (r: seq<int>)
    requires Tiles(fields, |data|) && k < |fields| && n <= Count(fields[k].dimension)
    ensures |r| == n
  {
    if n == 0 then [] else Items(data, fields, k, n - 1) + [Scalar(data, fields, k, n - 1)]
  }

  // The value of a field.
  function Held(data: seq<Byte>, fields: seq<Field>, k: nat): Value
    requires Tiles(fields, |data|) && k < |fields|
  {
    if fields[k].dimension.None? then Integer(Scalar(data, fields, k, 0))
    else Block(Items(data, fields, k, fields[k].dimension.value), 0)
  }

  // ---- set, then get ------------------------------------------------------------------

  function Start(f: Field, n: nat): nat {
    f.offset + Times(Wide(f.ctype), n)
  }

  // Setting one cell leaves bytes elsewhere as they are, and so every other cell.
  lemma OtherCell(data: seq<Byte>, fields: seq<Field>, k: nat, n: nat, i: int, j: nat, m: nat)
    requires Tiles(fields, |data|) && k < |fields| && n < Count(fields[k].dimension)
    requires j < |fields| && m < Count(fields[j].dimension) && (j != k || m != n)
    ensures Scalar(Assigned(data, fields, k, n, i), fields, j, m) == Scalar(data, fields, j, m)
  {
    Within(fields, |data|, j);
    Apart(fields, |data|, k, n, j, m);
    CellFits(fields[j], m);
    CellFits(fields[k], n);
    Within(fields, |data|, k);
    assert Cell(Assigned(data, fields, k, n, i), fields[j], m) == Cell(data, fields[j], m);
  }

  lemma Apart(fields: seq<Field>, size: nat, k: nat, n: nat, j: nat, m: nat)
    requires Tiles(fields, size) && k < |fields| && n < Count(fields[k].dimension)
    requires j < |fields| && m < Count(fields[j].dimension) && (j != k || m != n)
    ensures Start(fields[j], m) + Wide(fields[j].ctype) <= Start(fields[k], n)
            || Start(fields[k], n) + Wide(fields[k].ctype) <= Start(fields[j], m)
  {
    CellFits(fields[j], m);
    CellFits(fields[k], n);
    if j < k {
      InOrder(fields, size, j, k);
    } else if k < j {
      InOrder(fields, size, k, j);
    } else if m < n {
      TimesGrows(Wide(fields[j].ctype), m + 1, n);
    } else {
      TimesGrows(Wide(fields[j].ctype), n + 1, m);
    }
  }

  // What reads back: everything but an int16 that does not fit into an int8.
  predicate ReadsBack(t: IntType, i: int) {
    t == Int16 ==> -0x80 <= i < 0x80
  }

  // What a number in range is read as: of an int16 only the low byte, with its sign.
  function AsRead(t: IntType, i: int): (r: int)
    ensures r == i <==> ReadsBack(t, i)
  {
    if t == Int16 then Signed(i % 0x100) else i
  }

  function Signed(byte: nat): int {
    if byte < 0x80 then byte else byte - 0x100
  }

  lemma SameCell(data: seq<Byte>, fields: seq<Field>, k: nat, n: nat, i: int)
    requires Tiles(fields, |data|) && k < |fields| && n < Count(fields[k].dimension)
    requires IsInt64(i) && InRange(fields[k].ctype, i)
    ensures Scalar(Assigned(data, fields, k, n, i), fields, k, n) == AsRead(fields[k].ctype, i)
  {
    var f, t := fields[k], fields[k].ctype;
    Within(fields, |data|, k);
    CellFits(f, n);
    assert Cell(Assigned(data, fields, k, n, i), f, n) == Stored(t, i);
    if t == Int16 {
      LowByte(i);
    } else {
      StoreThenLoad(t, i);
      assert Stored(t, i)[..Wide(t)] == Stored(t, i);
    }
  }

  lemma LowByte(i: int)
    ensures Loaded(Int8, Stored(Int16, i)[..1]) == Signed(i % 0x100)
  {
    var low: Byte := i % 256;
    assert LowBytes(i, 2) == [low] + LowBytes(i / 256, 1);
    assert Stored(Int16, i)[..1] == [low] && [low][1..] == [];
    assert Val([low]) == low + 256 * Val([]) && Modulus(1) == 256 * Modulus(0);
  }

  // Setting an array: each item is there, as it is read.
  lemma {:induction false} ItemsSet(data: seq<Byte>, fields: seq<Field>, k: nat, items: seq<int>, n: nat, m: nat)
    requires Tiles(fields, |data|) && k < |fields| && m < n <= |items| && n <= Count(fields[k].dimension)
    requires AllInRange(fields[k].ctype, items, n) && forall i :: i in items ==> IsInt64(i)
    ensures Scalar(AssignedAll(data, fields, k, items, n), fields, k, m) == AsRead(fields[k].ctype, items[m])
    decreases n
  {
    var before := AssignedAll(data, fields, k, items, n - 1);
    assert items[n - 1] in items;
    if m == n - 1 {
      SameCell(before, fields, k, m, items[m]);
    } else {
      ItemsSet(data, fields, k, items, n - 1, m);
      OtherCell(before, fields, k, n - 1, items[n - 1], k, m);
    }
  }

  lemma {:induction false} ItemsOthers(data: seq<Byte>, fields: seq<Field>, k: nat, items: seq<int>, n: nat,
                                       j: nat, m: nat)
    requires Tiles(fields, |data|) && k < |fields| && n <= |items| && n <= Count(fields[k].dimension)
    requires j < |fields| && j != k && m < Count(fields[j].dimension)
    ensures Scalar(AssignedAll(data, fields, k, items, n), fields, j, m) == Scalar(data, fields, j, m)
    decreases n
  {
    if n > 0 {
      ItemsOthers(data, fields, k, items, n - 1, j, m);
      OtherCell(AssignedAll(data, fields, k, items, n - 1), fields, k, n - 1, items[n - 1], j, m);
    }
  }

  lemma {:induction false} HeldItems(data: seq<Byte>, other: seq<Byte>, fields: seq<Field>, k: nat, n: nat)
    requires |data| == |other| && Tiles(fields, |data|) && k < |fields| && n <= Count(fields[k].dimension)
    requires forall m :: 0 <= m < n ==> Scalar(data, fields, k, m) == Scalar(other, fields, k, m)
    ensures Items(data, fields, k, n) == Items(other, fields, k, n)
    decreases n
  {
    if n > 0 {
      HeldItems(data, other, fields, k, n - 1);
    }
  }

  // However a set ends, no other field changes.
  lemma SetKeepsOthers(data: seq<Byte>, fields: seq<Field>, k: nat, elem: Option<int>, val: Value, j: nat)
    requires Tiles(fields, |data|) && (elem.Some? ==> forall f :: f in fields ==> Count(f.dimension) > 0)
    requires j < |fields| && j != k
    ensures var after := SetTo(data, fields, k, elem, val).1;
            |after| == |data| && Held(after, fields, j) == Held(data, fields, j)
  {
    var after := SetTo(data, fields, k, elem, val).1;
    var count := Count(fields[j].dimension);
    forall m | 0 <= m < count
      ensures Scalar(after, fields, j, m) == Scalar(data, fields, j, m)
    {
      if after != data {
        if fields[k].dimension.Some? && elem.None? {
          var n := FirstBad(fields[k].ctype, val.items[..fields[k].dimension.value]);
          ItemsOthers(data, fields, k, val.items, n, j, m);
        } else {
          OtherCell(data, fields, k, 0, val.i, j, m);
        }
      }
    }
    HeldItems(after, data, fields, j, count);
  }

  // What a caller passes: a number, or the items from where the block stands.
  function Passed(val: Value): Value {
    match val
    case Integer(i) => val
    case Block(items, index) => Block(From(items, index), 0)
  }

  // What was passed is stored so that it reads back: a number does, and each item
  // from the head as the one that many places behind where the block stands.
  predicate Survives(t: IntType, val: Value) {
    match val
    case Integer(i) => ReadsBack(t, i)
    case Block(items, index) =>
      var shown := From(items, index);
      forall m :: 0 <= m < |shown| ==> AsRead(t, items[m]) == shown[m]
  }

  // A field that was set whole holds what was passed, exactly if that survives.
  lemma SetThenGet(data: seq<Byte>, fields: seq<Field>, k: nat, val: Value)
    requires Tiles(fields, |data|) && k < |fields| && IsValue(val) && SetTo(data, fields, k, None, val).0 == Done
    ensures Held(SetTo(data, fields, k, None, val).1, fields, k) == Passed(val) <==> Survives(fields[k].ctype, val)
  {
    var after, t := SetTo(data, fields, k, None, val).1, fields[k].ctype;
    match val
    case Integer(i) =>
      SameCell(data, fields, k, 0, i);
    case Block(items, index) =>
      var n := |From(items, index)|;
      AllInRangeOfPart(t, items, n);
      forall m | 0 <= m < n
        ensures Scalar(after, fields, k, m) == AsRead(t, items[m])
      {
        ItemsSet(data, fields, k, items, n, m);
      }
      ItemsAre(after, fields, k, n);
  }

  lemma AllInRangeOfPart(t: IntType, items: seq<int>, n: nat)
    requires n <= |items| && FirstBad(t, items[..n]) == n
    ensures AllInRange(t, items, n)
  {
    forall j | 0 <= j < n
      ensures InRange(t, items[j])
    {
      assert items[j] == items[..n][j];
    }
  }

  // At its head a block survives exactly if its items read back; and one whose items
  // all read back, exactly if as many items from the head are those passed.
  lemma SurvivesWhen(t: IntType, items: seq<int>, index: nat)
    ensures Survives(t, Block(items, 0)) <==> forall i :: i in items ==> ReadsBack(t, i)
    ensures (forall i :: i in items ==> ReadsBack(t, i)) ==>
              (Survives(t, Block(items, index)) <==> items[..|From(items, index)|] == From(items, index))
  {
    assert From(items, 0) == items;
    if forall i :: i in items ==> ReadsBack(t, i) {
      forall m | 0 <= m < |items|
        ensures AsRead(t, items[m]) == items[m]
      {
        assert items[m] in items;
      }
    }
  }

  // A block passed from its second item on is taken from its first.
  lemma NextBlockSetsHead(data: seq<Byte>, fields: seq<Field>)
    requires fields == [Field("arr", Int32, Some(2), 0)] && |data| == 8
    ensures var val := Block([9, 1, 2], 1);
            && Tiles(fields, |data|) && SetTo(data, fields, 0, None, val).0 == Done
            && Passed(val) == Block([1, 2], 0)
            && Held(SetTo(data, fields, 0, None, val).1, fields, 0) == Block([9, 1], 0)
  {
    var val, items := Block([9, 1, 2], 1), [9, 1, 2];
    SizeIsProduct(fields[0]);
    assert From(items, 1) == [1, 2];
    ArraySetTo(data, fields, 0, val, 2);
    ItemsSet(data, fields, 0, items, 2, 0);
    ItemsSet(data, fields, 0, items, 2, 1);
    ItemsAre(SetTo(data, fields, 0, None, val).1, fields, 0, 2);
  }

  // An int16 field set to 200 reads back as -56.
  lemma Int16LosesHighByte(data: seq<Byte>, fields: seq<Field>)
    requires fields == [Field("x", Int16, None, 0)] && |data| == 2
    ensures Tiles(fields, |data|) && SetTo(data, fields, 0, None, Integer(200)).0 == Done
    ensures Held(SetTo(data, fields, 0, None, Integer(200)).1, fields, 0) == Integer(-56)
  {
    SizeIsProduct(fields[0]);
    SameCell(data, fields, 0, 0, 200);
  }

  lemma {:induction false} ItemsAre(data: seq<Byte>, fields: seq<Field>, k: nat, n: nat)
    requires Tiles(fields, |data|) && k < |fields| && n <= Count(fields[k].dimension)
    ensures forall m :: 0 <= m < n ==> Items(data, fields, k, n)[m] == Scalar(data, fields, k, m)
  {
    if n > 0 {
      ItemsAre(data, fields, k, n - 1);
    }
  }

  // ---- comparing layouts ----------------------------------------------------------------

  // same_fields: the dimension is only compared if the target has one.
  method SameFields(tgt: seq<Field>, src: seq<Field>) returns (same: bool)
    ensures same <==> Same(tgt, src)
  {
    if |tgt| != |src| {
      return false;
    }
    var k := 0;
    while k < |src|
      invariant k <= |src| && forall j :: 0 <= j < k ==> SameField(tgt[j], src[j])
    {
      if tgt[k].ctype != src[k].ctype {
        return false;
      }
      if tgt[k].dimension.Some? {
        if src[k].dimension.None? || tgt[k].dimension.value != src[k].dimension.value {
          return false;
        }
      }
      if tgt[k].offset != src[k].offset {
        return false;
      }
      k := k + 1;
    }
    same := true;
  }

  predicate SameField(tgt: Field, src: Field) {
    && tgt.ctype == src.ctype && tgt.offset == src.offset
    && (tgt.dimension.Some? ==> tgt.dimension == src.dimension)
  }

  predicate Same(tgt: seq<Field>, src: seq<Field>) {
    |tgt| == |src| && forall j :: 0 <= j < |src| ==> SameField(tgt[j], src[j])
  }

  // With equal sizes that is enough: the byte layouts are the same, and a scalar
  // can only stand for an array of one.
  lemma SameIsSameLayout(tgt: seq<Field>, src: seq<Field>, size: nat)
    requires Tiles(tgt, size) && Tiles(src, size) && Same(tgt, src)
    ensures forall j :: 0 <= j < |tgt| ==>
              && tgt[j].ctype == src[j].ctype && tgt[j].offset == src[j].offset && Size(tgt[j]) == Size(src[j])
              && Count(tgt[j].dimension) == Count(src[j].dimension)
  {
    forall j | 0 <= j < |tgt|
      ensures SameField(tgt[j], src[j]) && Size(tgt[j]) == Size(src[j])
          && Count(tgt[j].dimension) == Count(src[j].dimension)
    {
      assert SameField(tgt[j], src[j]);
      if j + 1 < |tgt| {
        assert SameField(tgt[j + 1], src[j + 1]);
        assert End(tgt[j]) == tgt[j + 1].offset && End(src[j]) == src[j + 1].offset;
      }
      TimesInjective(Wide(tgt[j].ctype), Count(tgt[j].dimension), Count(src[j].dimension));
    }
  }

  lemma TimesStrict(w: nat, m: nat, n: nat)
    requires w > 0 && m < n
    ensures Times(w, m) < Times(w, n)
  {
    TimesGrows(w, m + 1, n);
  }

  lemma TimesInjective(w: nat, m: nat, n: nat)
    requires w > 0
    ensures Times(w, m) == Times(w, n) <==> m == n
  {
    if m < n {
      TimesStrict(w, m, n);
    } else if n < m {
      TimesStrict(w, n, m);
    }
  }
}
