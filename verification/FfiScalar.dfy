// C integers in memory, as the FFI extension writes and reads them
// (extensions/ffi; little-endian).
module FfiScalar {
  import opened Bits

  datatype IntType = Uint8 | Int8 | Uint16 | Int16 | Uint32 | Int32 | Uint64 | Int64

  function Wide(t: IntType): nat {
    match t
    case Uint8 | Int8 => 1
    case Uint16 | Int16 => 2
    case Uint32 | Int32 => 4
    case Uint64 | Int64 => 8
  }

  // 2 to the number of bits in n bytes.
  function Modulus(n: nat): (m: nat)
    ensures m > 0
  {
    if n == 0 then 1 else 256 * Modulus(n - 1)
  }

  predicate IsSigned(t: IntType) {
    t in {Int8, Int16, Int32, Int64}
  }

  predicate IsInt64(v: int) {
    -0x8000_0000_0000_0000 <= v < 0x8000_0000_0000_0000
  }

  // A C cast of a 64-bit integer to the type, and a store.
  function Stored(t: IntType, v: int): (r: seq<Byte>)
    ensures |r| == Wide(t)
  {
    LowBytes(v, Wide(t))
  }

  // A load of the type, made into a 64-bit INTEGER!.
  function Loaded(t: IntType, bytes: seq<Byte>): int
    requires |bytes| == Wide(t)
  {
    var v, m := Val(bytes), Modulus(Wide(t));
    if (IsSigned(t) || t == Uint64) && 2 * v >= m then v - m else v
  }

  // The numbers that survive a store and a load.
  predicate Fits(t: IntType, v: int) {
    match t
    case Uint8 => 0 <= v < 0x100
    case Int8 => -0x80 <= v < 0x80
    case Uint16 => 0 <= v < 0x1_0000
    case Int16 => -0x8000 <= v < 0x8000
    case Uint32 => 0 <= v < 0x1_0000_0000
    case Int32 => -0x8000_0000 <= v < 0x8000_0000
    case Uint64 | Int64 => IsInt64(v)
  }

  // The low bytes of a number spell its residue.
  lemma {:induction false} ValLowBytes(v: int, n: nat) returns (k: int)
    ensures 0 <= Val(LowBytes(v, n)) < Modulus(n)
    ensures v == Val(LowBytes(v, n)) + k * Modulus(n)
    decreases n
  {
    if n == 0 {
      k := v;
    } else {
      k := ValLowBytes(v / 256, n - 1);
      var low, m := Val(LowBytes(v / 256, n - 1)), Modulus(n - 1);
      assert LowBytes(v, n)[1..] == LowBytes(v / 256, n - 1);
      assert Val(LowBytes(v, n)) == v % 256 + 256 * low;
      Regrouped(v, low, k, m);
    }
  }

  lemma Regrouped(v: int, low: int, k: int, m: int)
    requires v / 256 == low + k * m
    ensures v == v % 256 + 256 * low + k * (256 * m)
  {
    assert k * (256 * m) == 256 * (k * m);
  }

  // A value is determined by its residue and its range.
  lemma SameResidue(a: int, b: int, k: int, m: nat, lo: int)
    requires m > 0 && a == b + k * m && lo <= a < lo + m && lo <= b < lo + m
    ensures a == b
  {
    if k > 0 {
      MulAtLeast(k, m);
    } else if k < 0 {
      NegatedProduct(k, m);
      MulAtLeast(-k, m);
    }
  }

  lemma NegatedProduct(k: int, m: int)
    ensures (-k) * m == -(k * m)
  {
  }

  function Least(t: IntType): int {
    if IsSigned(t) || t == Uint64 then -(Modulus(Wide(t)) / 2) else 0
  }

  lemma FitsRange(t: IntType, v: int)
    ensures Fits(t, v) <==> Least(t) <= v < Least(t) + Modulus(Wide(t))
    ensures Modulus(Wide(t)) % 2 == 0
  {
    assert Modulus(1) == 256;
    assert Modulus(2) == 0x1_0000;
    assert Modulus(4) == 0x1_0000_0000;
    assert Modulus(6) == 0x1_0000_0000_0000;
    assert Modulus(8) == 0x1_0000_0000_0000_0000;
  }

  // A number comes back from memory exactly if it is in the range of its type.
  lemma StoreThenLoad(t: IntType, v: int)
    ensures Loaded(t, Stored(t, v)) == v <==> Fits(t, v)
  {
    var m := Modulus(Wide(t));
    var k := ValLowBytes(v, Wide(t));
    FitsRange(t, v);
    var low, back := Val(Stored(t, v)), Loaded(t, Stored(t, v));
    assert Least(t) <= back < Least(t) + m;
    if Fits(t, v) {
      if back == low {
        SameResidue(v, back, k, m, Least(t));
      } else {
        OneMore(low, k, m);
        SameResidue(v, back, k + 1, m, Least(t));
      }
    }
  }

  lemma OneMore(low: int, k: int, m: int)
    ensures low + k * m == (low - m) + (k + 1) * m
  {
  }
}
