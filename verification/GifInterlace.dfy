// The order in which the rows of an interlaced GIF image arrive (Appendix E of
// the GIF89a specification), and the decoder's walk over the rows.
module GifInterlace {
  import opened Bits

  // The decoder's two tables, indexed by pass.
  const RATE: seq<nat> := [8, 8, 4, 2]
  const START: seq<nat> := [0, 4, 2, 1]

  // Every step-th row from `first` on.
  function Pass(first: nat, step: nat, h: nat): seq<nat>
    requires step > 0
    decreases if first < h then h - first else 0
  {
    if first < h then [first] + Pass(first + step, step, h) else []
  }

  // Group 1: every 8th row from row 0; group 2: every 8th from row 4; group 3:
  // every 4th from row 2; group 4: every 2nd from row 1.
  function AppendixE(h: nat): seq<nat> {
    Pass(0, 8, h) + Pass(4, 8, h) + Pass(2, 4, h) + Pass(1, 2, h)
  }

  lemma {:induction false} PassContent(first: nat, step: nat, h: nat)
    requires step > 0
    ensures |Pass(first, step, h)| == if first < h then (h - first + step - 1) / step else 0
    ensures forall k :: 0 <= k < |Pass(first, step, h)| ==> Pass(first, step, h)[k] == first + k * step < h
    decreases if first < h then h - first else 0
  {
    if first < h {
      var rest := Pass(first + step, step, h);
      PassContent(first + step, step, h);
      if first + step < h {
        DivStep(h - first - 1, step);
      } else {
        DivSmall(h - first + step - 1, step);
      }
      forall k | 0 <= k < |Pass(first, step, h)|
        ensures Pass(first, step, h)[k] == first + k * step < h
      {
        if k > 0 {
          assert Pass(first, step, h)[k] == rest[k - 1];
          assert k * step == (k - 1) * step + step;
        }
      }
    }
  }

  lemma DivStep(a: nat, step: nat)
    requires step > 0
    ensures (a + step) / step == a / step + 1
  {
    var q := (a + step) / step;
    assert a + step == q * step + (a + step) % step;
    assert a == (q - 1) * step + (a + step) % step;
    DivModUnique(a, step, q - 1, (a + step) % step);
  }

  lemma DivSmall(a: nat, step: nat)
    requires 0 < step <= a < 2 * step
    ensures a / step == 1
  {
    DivStep(a - step, step);
  }

  // The y-th row of the order, in closed form.
  function Count(first: nat, step: nat, h: nat): nat
    requires step > 0
  {
    if first < h then (h - first + step - 1) / step else 0
  }

  function NthRow(h: nat, y: nat): nat {
    var n1 := Count(0, 8, h);
    var n2 := n1 + Count(4, 8, h);
    var n3 := n2 + Count(2, 4, h);
    if y < n1 then 8 * y
    else if y < n2 then 4 + 8 * (y - n1)
    else if y < n3 then 2 + 4 * (y - n2)
    else 1 + 2 * (y - n3)
  }

  // The counts, by whole groups of eight rows and the rows that are over.
  lemma CountFirst(h: nat)
    ensures Count(0, 8, h) == h / 8 + if h % 8 > 0 then 1 else 0
  {
  }

  lemma CountSecond(h: nat)
    ensures Count(4, 8, h) == h / 8 + if h % 8 > 4 then 1 else 0
  {
  }

  lemma CountThird(h: nat)
    ensures Count(2, 4, h) == 2 * (h / 8) + (if h % 8 > 2 then 1 else 0) + (if h % 8 > 6 then 1 else 0)
  {
  }

  lemma CountFourth(h: nat)
    ensures Count(1, 2, h) == 4 * (h / 8) + h % 8 / 2
  {
  }

  lemma CountsAddUp(h: nat)
    ensures Count(0, 8, h) + Count(4, 8, h) + Count(2, 4, h) + Count(1, 2, h) == h
  {
    CountFirst(h);
    CountSecond(h);
    CountThird(h);
    CountFourth(h);
    Overs(h % 8);
  }

  lemma Overs(m: nat)
    requires m < 8
    ensures (if m > 0 then 1 else 0) + (if m > 4 then 1 else 0) + (if m > 2 then 1 else 0) + (if m > 6 then 1 else 0)
            + m / 2 == m
  {
  }

  lemma NthOfFour(a: seq<nat>, b: seq<nat>, c: seq<nat>, d: seq<nat>, y: nat)
    requires y < |a| + |b| + |c| + |d|
    ensures (a + b + c + d)[y] == if y < |a| then a[y]
                                  else if y < |a| + |b| then b[y - |a|]
                                  else if y < |a| + |b| + |c| then c[y - |a| - |b|]
                                  else d[y - |a| - |b| - |c|]
  {
  }

  // A pass, with its length as a count.
  lemma PassIs(first: nat, step: nat, h: nat, k: nat)
    requires step > 0
    ensures |Pass(first, step, h)| == Count(first, step, h)
    ensures k < Count(first, step, h) ==> Pass(first, step, h)[k] == first + k * step < h
  {
    PassContent(first, step, h);
  }

  lemma AppendixENth(h: nat, y: nat)
    requires y < h
    ensures |AppendixE(h)| == h && AppendixE(h)[y] == NthRow(h, y) < h
  {
    var n1, n2, n3 := Count(0, 8, h), Count(4, 8, h), Count(2, 4, h);
    CountsAddUp(h);
    PassIs(0, 8, h, y);
    PassIs(4, 8, h, if n1 <= y then y - n1 else 0);
    PassIs(2, 4, h, if n1 + n2 <= y then y - n1 - n2 else 0);
    PassIs(1, 2, h, if n1 + n2 + n3 <= y then y - n1 - n2 - n3 else 0);
    NthOfFour(Pass(0, 8, h), Pass(4, 8, h), Pass(2, 4, h), Pass(1, 2, h), y);
  }

  lemma NthRowInjective(h: nat, y: nat, z: nat)
    requires y < z < h
    ensures NthRow(h, y) != NthRow(h, z)
  {
  }

  lemma NthRowOnto(h: nat, r: nat) returns (y: nat)
    requires r < h
    ensures y < h && NthRow(h, y) == r
  {
    var q, m := r / 8, r % 8;
    if m == 0 {
      y := InFirst(h, q);
    } else if m == 4 {
      y := InSecond(h, q);
    } else if m == 2 || m == 6 {
      y := InThird(h, 2 * q + m / 4);
    } else {
      y := InFourth(h, 4 * q + m / 2);
    }
  }

  lemma InFirst(h: nat, q: nat) returns (y: nat)
    requires 8 * q < h
    ensures y < h && NthRow(h, y) == 8 * q
  {
    y := q;
  }

  lemma InSecond(h: nat, q: nat) returns (y: nat)
    requires 8 * q + 4 < h
    ensures y < h && NthRow(h, y) == 8 * q + 4
  {
    y := Count(0, 8, h) + q;
  }

  lemma InThird(h: nat, q: nat) returns (y: nat)
    requires 4 * q + 2 < h
    ensures y < h && NthRow(h, y) == 4 * q + 2
  {
    y := Count(0, 8, h) + Count(4, 8, h) + q;
  }

  lemma InFourth(h: nat, q: nat) returns (y: nat)
    requires 2 * q + 1 < h
    ensures y < h && NthRow(h, y) == 2 * q + 1
  {
    CountsAddUp(h);
    y := Count(0, 8, h) + Count(4, 8, h) + Count(2, 4, h) + q;
  }

  // The order is a permutation: h rows, each a row of the image, none repeated,
  // none missing.
  lemma AppendixEPermutes(h: nat)
    ensures |AppendixE(h)| == h
    ensures forall y :: 0 <= y < h ==> AppendixE(h)[y] < h
    ensures forall y, z :: 0 <= y < z < h ==> AppendixE(h)[y] != AppendixE(h)[z]
    ensures forall r :: 0 <= r < h ==> r in AppendixE(h)
  {
    if h == 0 {
      assert AppendixE(h) == [];
    } else {
      AppendixENth(h, 0);
    }
    forall y | 0 <= y < h
      ensures AppendixE(h)[y] == NthRow(h, y) < h
    {
      AppendixENth(h, y);
    }
    forall y, z | 0 <= y < z < h
      ensures AppendixE(h)[y] != AppendixE(h)[z]
    {
      NthRowInjective(h, y, z);
    }
    forall r | 0 <= r < h
      ensures r in AppendixE(h)
    {
      var y := NthRowOnto(h, r);
      assert AppendixE(h)[y] == r;
    }
  }

  // Multiples of eight come first, then the other multiples of four, the other even
  // rows and the odd ones.
  function PassOf(row: nat): nat {
    if row % 2 == 1 then 3 else if row % 4 == 2 then 2 else if row % 8 == 4 then 1 else 0
  }

  // Rows arrive by pass, and within a pass from the top.
  lemma AppendixEOrder(h: nat, y: nat, z: nat)
    requires y < z < h
    ensures |AppendixE(h)| == h
    ensures var a, b := AppendixE(h)[y], AppendixE(h)[z];
            PassOf(a) < PassOf(b) || (PassOf(a) == PassOf(b) && a < b)
  {
    AppendixENth(h, y);
    AppendixENth(h, z);
    PassOfNth(h, y);
    PassOfNth(h, z);
  }

  lemma PassOfNth(h: nat, y: nat)
    requires y < h
    ensures var n1 := Count(0, 8, h);
            var n2 := n1 + Count(4, 8, h);
            var n3 := n2 + Count(2, 4, h);
            PassOf(NthRow(h, y)) == if y < n1 then 0 else if y < n2 then 1 else if y < n3 then 2 else 3
  {
    var n1 := Count(0, 8, h);
    var n2 := n1 + Count(4, 8, h);
    var n3 := n2 + Count(2, 4, h);
    RowsOfGroups(if y < n1 then y else if y < n2 then y - n1 else if y < n3 then y - n2 else y - n3);
  }

  lemma RowsOfGroups(q: nat)
    ensures PassOf(8 * q) == 0 && PassOf(4 + 8 * q) == 1 && PassOf(2 + 4 * q) == 2 && PassOf(1 + 2 * q) == 3
  {
    DivModUnique(1 + 2 * q, 2, q, 1);
    DivModUnique(2 + 4 * q, 2, 1 + 2 * q, 0);
    DivModUnique(2 + 4 * q, 4, q, 2);
    DivModUnique(4 + 8 * q, 2, 2 + 4 * q, 0);
    DivModUnique(4 + 8 * q, 4, 1 + 2 * q, 0);
    DivModUnique(4 + 8 * q, 8, q, 4);
    DivModUnique(8 * q, 2, 4 * q, 0);
    DivModUnique(8 * q, 4, 2 * q, 0);
    DivModUnique(8 * q, 8, q, 0);
  }

  // ---- the decoder's walk ----------------------------------------------

  // The rows still to come after pass i.
  function Later(i: nat, h: nat): seq<nat>
    requires i < 4
    decreases 4 - i
  {
    if i == 3 then [] else Pass(START[i + 1], RATE[i + 1], h) + Later(i + 1, h)
  }

  // Position (row, pass) of the walk is at the y-th row of the order.
  predicate AtRow(h: nat, y: nat, row: nat, i: nat) {
    i < 4 && row < h && y < |AppendixE(h)| &&
    AppendixE(h)[y..] == Pass(row, RATE[i], h) + Later(i, h)
  }

  predicate WalkSafe(h: nat) {
    h <= 1 || h >= 5
  }

  // The walk: advance by the pass's rate; past the last row, start the next
  // pass. The start of the pass after the last one is never used as a row.
  function NextRow(h: nat, row: nat, i: nat): (next: (nat, nat))
    requires i < 4
  {
    if row + RATE[i] >= h then (if i + 1 < 4 then START[i + 1] else 0, i + 1)
    else (row + RATE[i], i)
  }

  lemma WalkStarts(h: nat)
    requires h > 0
    ensures AtRow(h, 0, 0, 0)
  {
    assert Later(2, h) == Pass(1, 2, h) + Later(3, h) == Pass(1, 2, h);
    assert Later(1, h) == Pass(2, 4, h) + Later(2, h);
    assert Later(0, h) == Pass(4, 8, h) + Later(1, h);
    assert AppendixE(h)[0..] == AppendixE(h) == Pass(0, 8, h) + Later(0, h);
    assert AppendixE(h)[0] == 0;
  }

  lemma WalkSteps(h: nat, y: nat, row: nat, i: nat)
    requires WalkSafe(h) && AtRow(h, y, row, i)
    ensures AppendixE(h)[y] == row
    ensures y + 1 < h ==> var next := NextRow(h, row, i); AtRow(h, y + 1, next.0, next.1)
  {
    var order := AppendixE(h);
    AppendixEPermutes(h);
    assert order[y] == order[y..][0];
    assert order[y + 1..] == order[y..][1..];
    assert order[y + 1..] == Pass(row + RATE[i], RATE[i], h) + Later(i, h);
    if y + 1 < h && row + RATE[i] >= h {
      assert order[y + 1..] == Later(i, h);
    }
  }

  // The rows visited by n steps of the walk.
  function Rows(h: nat, row: nat, i: nat, n: nat): seq<nat>
    decreases n
  {
    if n == 0 || i >= 4 then []
    else [row] + Rows(h, NextRow(h, row, i).0, NextRow(h, row, i).1, n - 1)
  }

  lemma {:induction false} RowsFromHere(h: nat, y: nat, row: nat, i: nat)
    requires WalkSafe(h) && AtRow(h, y, row, i) && y < h
    ensures Rows(h, row, i, h - y) == AppendixE(h)[y..]
    decreases h - y
  {
    AppendixEPermutes(h);
    WalkSteps(h, y, row, i);
    assert AppendixE(h)[y..] == [row] + AppendixE(h)[y + 1..];
    var next := NextRow(h, row, i);
    if y + 1 < h {
      assert h - (y + 1) == h - y - 1;
      RowsFromHere(h, y + 1, next.0, next.1);
    } else {
      assert Rows(h, next.0, next.1, 0) == [];
    }
  }

  // The walk follows Appendix E exactly when the height is not 2, 3 or 4: the
  // code moves on by one pass only, and row 4 is then outside the image.
  lemma WalkIsAppendixE(h: nat)
    ensures Rows(h, 0, 0, h) == AppendixE(h) <==> WalkSafe(h)
    ensures !WalkSafe(h) ==> |Rows(h, 0, 0, h)| > 1 && Rows(h, 0, 0, h)[1] == 4 >= h
  {
    AppendixEPermutes(h);
    if WalkSafe(h) {
      if h > 0 {
        assert AppendixE(h)[0..] == AppendixE(h);
        WalkStarts(h);
        RowsFromHere(h, 0, 0, 0);
      }
    } else {
      assert NextRow(h, 0, 0) == (4, 1);
      assert Rows(h, 0, 0, h)[1] == Rows(h, 4, 1, h - 1)[0] == 4;
      assert AppendixE(h)[1] < h;
    }
  }

  // The states (row, pass) of the walk, row by row.
  ghost predicate IsWalk(h: nat, walk: seq<(nat, nat)>) {
    && |walk| == h
    && (h > 0 ==> walk[0] == (0, 0))
    && (forall y {:trigger walk[y]} :: 0 <= y < h ==> walk[y].1 < 4)
    && (forall y {:trigger walk[y]} :: 0 <= y < h - 1 ==> NextRow(h, walk[y].0, walk[y].1) == walk[y + 1])
  }

  // The rows in arrival order.
  function RowOrder(h: nat, interlaced: bool): (order: seq<nat>)
    ensures |order| == h
  {
    AppendixEPermutes(h);
    if interlaced then AppendixE(h) else seq(h, y => y)
  }

  ghost predicate IsOrder(h: nat, order: seq<nat>) {
    && |order| == h
    && (forall y :: 0 <= y < h ==> order[y] < h)
    && (forall y, z :: 0 <= y < z < h ==> order[y] != order[z])
    && (forall r {:trigger r in order} :: 0 <= r < h ==> r in order)
  }

  lemma RowOrderIsOrder(h: nat, interlaced: bool)
    ensures IsOrder(h, RowOrder(h, interlaced))
  {
    AppendixEPermutes(h);
    if !interlaced {
      var order := RowOrder(h, interlaced);
      forall r | 0 <= r < h
        ensures r in order
      {
        assert order[r] == r;
      }
    }
  }

  ghost predicate WalksAlong(h: nat, y: nat, order: seq<nat>, walk: seq<(nat, nat)>) {
    && |walk| == h - y && |order| == h
    && (forall k {:trigger walk[k]} :: 0 <= k < |walk| ==> walk[k].1 < 4 && walk[k].0 == order[y + k])
    && (forall k {:trigger walk[k]} :: 0 <= k < |walk| - 1 ==> NextRow(h, walk[k].0, walk[k].1) == walk[k + 1])
  }

  lemma {:induction false} WalkFromHere(h: nat, y: nat, row: nat, i: nat) returns (walk: seq<(nat, nat)>)
    requires WalkSafe(h) && AtRow(h, y, row, i) && y < h && |AppendixE(h)| == h
    ensures WalksAlong(h, y, AppendixE(h), walk) && walk[0] == (row, i)
    decreases h - y
  {
    WalkSteps(h, y, row, i);
    if y + 1 < h {
      var next := NextRow(h, row, i);
      var rest := WalkFromHere(h, y + 1, next.0, next.1);
      walk := [(row, i)] + rest;
      PrependStep(h, y, row, i, AppendixE(h), rest);
    } else {
      walk := [(row, i)];
    }
  }

  lemma PrependStep(h: nat, y: nat, row: nat, i: nat, order: seq<nat>, rest: seq<(nat, nat)>)
    requires i < 4 && y + 1 < h && WalksAlong(h, y + 1, order, rest) && order[y] == row
    requires rest[0] == NextRow(h, row, i)
    ensures WalksAlong(h, y, order, [(row, i)] + rest)
  {
    var walk := [(row, i)] + rest;
    forall k | 0 <= k < |walk|
      ensures walk[k].1 < 4 && walk[k].0 == order[y + k]
      ensures k < |walk| - 1 ==> NextRow(h, walk[k].0, walk[k].1) == walk[k + 1]
    {
      if k > 0 {
        assert walk[k] == rest[k - 1];
        if k < |walk| - 1 {
          assert walk[k + 1] == rest[k];
        }
      }
    }
  }

  // For every safe height there is a walk, and it visits the rows in the order of
  // Appendix E.
  lemma SafeWalk(h: nat) returns (walk: seq<(nat, nat)>)
    requires WalkSafe(h)
    ensures IsWalk(h, walk)
    ensures forall y :: 0 <= y < h ==> walk[y].0 == RowOrder(h, true)[y]
  {
    AppendixEPermutes(h);
    if h == 0 {
      walk := [];
    } else {
      WalkStarts(h);
      walk := WalkFromHere(h, 0, 0, 0);
    }
  }
}
