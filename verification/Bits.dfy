// Bytes, powers of two and the numbers that byte strings and code strings denote.
// A bit string packed from its least significant bit upwards is represented by
// the natural number it spells, so "the same bits" is equality of numbers.
module Bits {

  type Byte = b: int | 0 <= b < 256

  function Pow2(n: nat): (r: nat)
    ensures r >= 1
  {
    if n == 0 then 1 else 2 * Pow2(n - 1)
  }

  lemma {:induction false} Pow2Sum(a: nat, b: nat)
    ensures Pow2(a + b) == Pow2(a) * Pow2(b)
  {
    if a == 0 {
    } else {
      Pow2Sum(a - 1, b);
      assert Pow2(a + b) == 2 * Pow2(a - 1 + b);
      MulAssoc(2, Pow2(a - 1), Pow2(b));
    }
  }

  lemma {:induction false} Pow2Monotone(a: nat, b: nat)
    requires a <= b
    ensures Pow2(a) <= Pow2(b)
    ensures a < b ==> 2 * Pow2(a) <= Pow2(b)
  {
    if a < b {
      Pow2Monotone(a, b - 1);
    }
  }

  lemma Pow2Small()
    ensures Pow2(2) == 4 && Pow2(3) == 8 && Pow2(8) == 256 && Pow2(9) == 512
    ensures Pow2(11) == 2048 && Pow2(12) == 4096
  {
    assert Pow2(4) == 16;
    assert Pow2(6) == 64;
    assert Pow2(8) == 256;
    assert Pow2(10) == 1024;
  }

  lemma MulAssoc(a: int, b: int, c: int)
    ensures (a * b) * c == a * (b * c)
  {
  }

  // The low `n` bits of a number, and what is left above them.
  function Low(x: nat, n: nat): nat {
    Mod(x, Pow2(n))
  }

  function Shr(x: nat, n: nat): nat {
    Div(x, Pow2(n))
  }

  function Shl(x: nat, n: nat): nat {
    if n == 0 then x else 2 * Shl(x, n - 1)
  }

  lemma {:induction false} ShlIsProduct(x: nat, n: nat)
    ensures Shl(x, n) == Pow2(n) * x
  {
    if n > 0 {
      ShlIsProduct(x, n - 1);
      MulAssoc(2, Pow2(n - 1), x);
    }
  }

  // A byte placed above the low `bits` bits of `x`.
  function Above(x: nat, b: Byte, bits: nat): nat {
    x + Shl(b, bits)
  }

  function Mod(x: nat, m: nat): nat
    requires m > 0
  {
    x % m
  }

  function Div(x: nat, m: nat): nat
    requires m > 0
  {
    x / m
  }

  // The number a byte string spells, first byte least significant.
  function Val(s: seq<Byte>): nat
  {
    if s == [] then 0 else s[0] + 256 * Val(s[1..])
  }

  // Splitting the low bits off a number whose low part is known.
  lemma DivModSplit(x: nat, m: nat, c: nat, rest: nat)
    requires m > 0 && c < m
    requires x == c + m * rest
    ensures x % m == c && x / m == rest
  {
    DivModUnique(x, m, rest, c);
  }

  lemma DivModUnique(x: nat, m: nat, q: int, r: int)
    requires m > 0 && 0 <= r < m && x == q * m + r
    ensures x / m == q && x % m == r
  {
    var q', r' := x / m, x % m;
    assert x == q' * m + r';
    if q > q' {
      MulAtLeast(q - q', m);
    } else if q < q' {
      MulAtLeast(q' - q, m);
    }
  }

  lemma MulAtLeast(a: int, m: nat)
    requires a >= 1
    ensures a * m >= m
  {
    assert a * m == (a - 1) * m + m;
    assert (a - 1) * m >= 0;
  }

  // If `low + 2^bits * high` spells a code of `size <= bits` bits followed by
  // `rest`, then `low` alone yields the code, and what is left of it spells `rest`.
  lemma TakeLowBits(low: nat, bits: nat, high: nat, size: nat, code: nat, rest: nat)
    requires size <= bits && low < Pow2(bits) && code < Pow2(size)
    requires low + Pow2(bits) * high == code + Pow2(size) * rest
    ensures Low(low, size) == code
    ensures Shr(low, size) < Pow2(bits - size)
    ensures Shr(low, size) + Pow2(bits - size) * high == rest
  {
    Pow2Sum(size, bits - size);
    TakeLowPart(low, Pow2(size), Pow2(bits - size), high, code, rest);
  }

  lemma TakeLowPart(low: nat, m: nat, d: nat, high: nat, code: nat, rest: nat)
    requires 0 < m && 0 < d && low < m * d && code < m
    requires low + (m * d) * high == code + m * rest
    ensures Mod(low, m) == code && Div(low, m) < d && Div(low, m) + d * high == rest
  {
    Regroup(low, m, d, high);
    QuotientBound(low, m, d);
    assert d * high >= 0;
    SplitUnique(m, code, rest, Mod(low, m), Div(low, m) + d * high);
  }

  lemma Regroup(low: nat, m: nat, d: nat, high: nat)
    requires m > 0
    ensures low + (m * d) * high == Mod(low, m) + m * (Div(low, m) + d * high)
  {
    MulAssoc(m, d, high);
    Distribute(m, Div(low, m), d * high);
    assert low == m * (low / m) + low % m;
  }

  lemma QuotientBound(low: nat, m: nat, d: nat)
    requires 0 < m && low < m * d
    ensures Div(low, m) < d
  {
    assert low == m * (low / m) + low % m;
    if d <= low / m {
      MulLe(m, d, low / m);
    }
  }

  lemma SplitUnique(m: nat, c: nat, q: nat, c': nat, q': nat)
    requires c < m && c' < m && c + m * q == c' + m * q'
    ensures c == c' && q == q'
  {
    DivModSplit(c + m * q, m, c, q);
    DivModSplit(c' + m * q', m, c', q');
  }

  lemma Distribute(m: int, a: int, b: int)
    ensures m * (a + b) == m * a + m * b
  {
  }

  lemma MulLe(m: nat, a: int, b: int)
    requires a <= b
    ensures m * a <= m * b
  {
    Distribute(m, a, b - a);
    assert m * (b - a) >= 0;
  }

  // ---- byte strings -------------------------------------------------------

  // The n low bytes of a number, lowest first.
  function LowBytes(v: int, n: nat): (r: seq<Byte>)
    ensures |r| == n
    decreases n
  {
    if n == 0 then [] else [v % 256] + LowBytes(v / 256, n - 1)
  }

  function Zeros(n: nat): (r: seq<Byte>)
    ensures |r| == n && forall k :: 0 <= k < n ==> r[k] == 0
  {
    seq(n, k => 0)
  }

  // A part of a sequence replaced by another of its length.
  function Placed<T>(s: seq<T>, at: nat, part: seq<T>): (r: seq<T>)
    requires at + |part| <= |s|
    ensures |r| == |s|
  {
    s[..at] + part + s[at + |part|..]
  }

  // ---- repeated addition ----------------------------------------------------

  // n times w: the pixels of n rows of w, the bytes of n items of w.
  function Times(w: nat, n: nat): nat {
    if n == 0 then 0 else Times(w, n - 1) + w
  }

  lemma {:induction false} TimesIsProduct(w: nat, n: nat)
    ensures Times(w, n) == w * n
  {
    if n > 0 {
      TimesIsProduct(w, n - 1);
      Distribute(w, n - 1, 1);
    }
  }

  lemma {:induction false} TimesGrows(w: nat, m: nat, n: nat)
    requires m <= n
    ensures Times(w, m) <= Times(w, n)
  {
    if m < n {
      TimesGrows(w, m, n - 1);
    }
  }
}
