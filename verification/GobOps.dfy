// INSERT, APPEND, REMOVE and CLEAR on gobs, and what every run of them keeps.
module GobOps {
  import opened Wrappers
  import opened GobForest

  ghost predicate AllGobs<G>(args: seq<Arg<G>>) {
    forall a :: a in args ==> a.IsGob?
  }

  lemma OutIsAll<G>(args: seq<Arg<G>>)
    requires AllGobs(args)
    ensures Out(args, |args|) == Elements(GobsOf(args))
  {
    forall g | g in Elements(GobsOf(args))
      ensures g in Out(args, |args|)
    {
      var i :| 0 <= i < |args| && GobsOf(args)[i] == g;
      assert args[i].gob == g && args[i] in args;
    }
    forall g | g in Out(args, |args|)
      ensures g in Elements(GobsOf(args))
    {
      var i :| 0 <= i < |args| && args[i].IsGob? && args[i].gob == g;
      assert GobsOf(args)[i] == g;
    }
  }

  // A first pass that gets through leaves a valid index.
  lemma ScanGetsThrough<G>(st: State<G>, target: G, args: seq<Arg<G>>, index: nat)
    requires Linked(st) && target in st.pane && index <= |st.pane[target]|
    ensures var r := ScanArgs(st, target, args, index);
            && target in r.st.pane
            && (r.outcome == Inserted ==> AllGobs(args) && 0 <= r.index <= |r.st.pane[target]|)
  {
    var m := ScanIs(st, target, args, index);
    var left, right := st.pane[target][..index], st.pane[target][index..];
    assert st.pane[target] == left + right;
    KeepConcat(left, right, Out(args, m));
    if m == |args| {
      forall a | a in args
        ensures a.IsGob?
      {
        var j :| 0 <= j < |args| && args[j] == a;
        assert !Stops(st, target, args, index, j);
      }
    }
  }

  // Insert_Gobs.
  ghost function InsertGobs<G>(st: State<G>, target: G, args: seq<Arg<G>>, index: nat): (r: (State<G>, Outcome))
    requires Linked(st) && target in st.pane && index <= |st.pane[target]|
    ensures target in r.0.pane
  {
    ScanGetsThrough(st, target, args, index);
    var r := ScanArgs(st, target, args, index);
    if r.outcome == Inserted then (Place(r.st, target, GobsOf(args), r.index), Inserted)
    else (r.st, r.outcome)
  }

  // Nothing stops the first pass.
  ghost predicate Unstopped<G>(st: State<G>, target: G, args: seq<Arg<G>>, index: nat)
    requires target in st.pane && index <= |st.pane[target]|
  {
    forall j :: 0 <= j < |args| ==> !Stops(st, target, args, index, j)
  }

  // What an insertion is for: the pane without the gobs that move, and the gobs
  // side by side at the place the index named.
  ghost function Wanted<G>(pane: seq<G>, gobs: seq<G>, index: nat): seq<G>
    requires index <= |pane|
  {
    Keep(pane[..index], Elements(gobs)) + gobs + Keep(pane[index..], Elements(gobs))
  }

  ghost function Moved<G>(st: State<G>, target: G, gobs: seq<G>, index: nat): State<G>
    requires target in st.pane && index <= |st.pane[target]|
  {
    State(Reparent(st.parent, Elements(gobs), target),
          map p | p in st.pane :: if p == target then Wanted(st.pane[p], gobs, index)
                                  else Keep(st.pane[p], Elements(gobs)))
  }

  // An insertion that nothing stops does exactly that: the gobs leave whatever
  // panes they were in, this one included, and arrive here.
  lemma InsertMoves<G>(st: State<G>, target: G, args: seq<Arg<G>>, index: nat)
    requires Linked(st) && target in st.pane && index <= |st.pane[target]|
    ensures Unstopped(st, target, args, index) <==> InsertGobs(st, target, args, index).1 == Inserted
    ensures Unstopped(st, target, args, index) ==>
              AllGobs(args)
              && InsertGobs(st, target, args, index).0 == Moved(st, target, GobsOf(args), index)
  {
    var m := ScanIs(st, target, args, index);
    ScanGetsThrough(st, target, args, index);
    if m == |args| {
      OutIsAll(args);
      PlaceMoves(st, target, GobsOf(args), index);
    }
  }

  lemma PlaceMoves<G>(st: State<G>, target: G, gobs: seq<G>, index: nat)
    requires target in st.pane && index <= |st.pane[target]|
    ensures var st1, i := DetachAll(st, Elements(gobs)), |Keep(st.pane[target][..index], Elements(gobs))|;
            i <= |st1.pane[target]| && Place(st1, target, gobs, i) == Moved(st, target, gobs, index)
  {
    var out := Elements(gobs);
    var st1, left, right := DetachAll(st, out), st.pane[target][..index], st.pane[target][index..];
    assert st.pane[target] == left + right;
    KeepConcat(left, right, out);
    var i := |Keep(left, out)|;
    assert st1.pane[target] == Keep(left, out) + Keep(right, out);
    assert st1.pane[target][..i] == Keep(left, out) && st1.pane[target][i..] == Keep(right, out);
    ReparentDetached(st.parent, out, target);
    assert Place(st1, target, gobs, i).pane == Moved(st, target, gobs, index).pane;
  }

  lemma ReparentDetached<G>(parent: map<G, G>, out: set<G>, target: G)
    ensures Reparent(parent - out, out, target) == Reparent(parent, out, target)
  {
  }

  // An insertion that is stopped has only detached the gobs before the one that
  // stopped it.
  lemma InsertStops<G>(st: State<G>, target: G, args: seq<Arg<G>>, index: nat) returns (m: nat)
    requires Linked(st) && target in st.pane && index <= |st.pane[target]|
    requires !Unstopped(st, target, args, index)
    ensures m < |args| && Stops(st, target, args, index, m)
    ensures forall j :: 0 <= j < m ==> !Stops(st, target, args, index, j)
    ensures InsertGobs(st, target, args, index).0 == DetachAll(st, Out(args, m))
  {
    m := ScanIs(st, target, args, index);
  }

  // ---- does it do what it is for? ----------------------------------------

  // The gobs already stand in the pane in order, the first just before the index.
  ghost predicate InPlace<G>(pane: seq<G>, gobs: seq<G>, index: nat) {
    0 < index <= |pane| && |gobs| <= |pane| - (index - 1) && pane[index - 1..index - 1 + |gobs|] == gobs
  }

  // The pane ends up as wanted unless some gob stands just before the insertion
  // point when its turn comes, and then only if that is the first one and the
  // others already follow it.
  lemma InsertGivesWanted<G>(st: State<G>, target: G, args: seq<Arg<G>>, index: nat)
    requires Linked(st) && target in st.pane && index <= |st.pane[target]|
    requires AllGobs(args) && NoDup(GobsOf(args)) && args != []
    ensures InsertGobs(st, target, args, index).0.pane[target] == Wanted(st.pane[target], GobsOf(args), index)
            <==> Unstopped(st, target, args, index)
                 || (Stops(st, target, args, index, 0) && InPlace(st.pane[target], GobsOf(args), index))
  {
    if Unstopped(st, target, args, index) {
      InsertMoves(st, target, args, index);
    } else {
      var m := InsertStops(st, target, args, index);
      if m == 0 {
        StoppedAtOnce(st, target, args, index);
      } else {
        LostGob(st, target, args, index, m);
      }
    }
  }

  // Stopped by the first gob, the operation changes nothing.
  lemma StoppedAtOnce<G>(st: State<G>, target: G, args: seq<Arg<G>>, index: nat)
    requires Linked(st) && target in st.pane && index <= |st.pane[target]|
    requires AllGobs(args) && NoDup(GobsOf(args)) && args != [] && Stops(st, target, args, index, 0)
    ensures DetachAll(st, Out(args, 0)) == st
    ensures st.pane[target] == Wanted(st.pane[target], GobsOf(args), index)
            <==> InPlace(st.pane[target], GobsOf(args), index)
  {
    ScanNothing(st, target, args, index);
    assert args[0] in args;
    AlreadyInPlace(st.pane[target], GobsOf(args), index);
  }

  // Stopped by a later gob, it has taken the first one out and not put it back.
  lemma LostGob<G>(st: State<G>, target: G, args: seq<Arg<G>>, index: nat, m: nat)
    requires target in st.pane && index <= |st.pane[target]|
    requires AllGobs(args) && 0 < m <= |args|
    ensures DetachAll(st, Out(args, m)).pane[target] != Wanted(st.pane[target], GobsOf(args), index)
  {
    var g := GobsOf(args)[0];
    assert args[0] in args && g == args[0].gob && g in Out(args, m);
    KeepMember(st.pane[target], Out(args, m), g);
    assert g in GobsOf(args);
    assert g in Wanted(st.pane[target], GobsOf(args), index);
  }

  lemma AlreadyInPlace<G>(pane: seq<G>, gobs: seq<G>, index: nat)
    requires NoDup(pane) && NoDup(gobs) && gobs != [] && 2 <= index <= |pane| && pane[index - 1] == gobs[0]
    ensures pane == Wanted(pane, gobs, index) <==> InPlace(pane, gobs, index)
  {
    var out, left, right := Elements(gobs), pane[..index - 1], pane[index..];
    assert pane[..index] == left + [gobs[0]];
    KeepConcat(left, [gobs[0]], out);
    KeepNone([gobs[0]], out);
    assert Keep(pane[..index], out) == Keep(left, out);
    if InPlace(pane, gobs, index) {
      InPlaceIsWanted(pane, gobs, index);
    }
    if pane == Wanted(pane, gobs, index) {
      var k := |Keep(left, out)|;
      assert Wanted(pane, gobs, index)[k] == gobs[0];
      assert k == index - 1;
      assert Wanted(pane, gobs, index)[k..k + |gobs|] == gobs;
    }
  }

  lemma InPlaceIsWanted<G>(pane: seq<G>, gobs: seq<G>, index: nat)
    requires NoDup(pane) && gobs != [] && InPlace(pane, gobs, index)
    ensures pane == Wanted(pane, gobs, index)
  {
    var i, j := index - 1, index - 1 + |gobs|;
    OutsideSlice(pane, i, j, gobs);
    KeepLeft(pane[..i], gobs);
    KeepRight(gobs, pane[j..]);
    SplitAround(pane, i, j, gobs);
  }

  lemma OutsideSlice<G>(pane: seq<G>, i: nat, j: nat, gobs: seq<G>)
    requires NoDup(pane) && i <= j <= |pane| && pane[i..j] == gobs
    ensures forall g :: g in pane[..i] || g in pane[j..] ==> g !in Elements(gobs)
  {
    forall g | g in pane[..i] || g in pane[j..]
      ensures g !in Elements(gobs)
    {
      SliceDisjoint(pane, i, j, g);
    }
  }

  lemma SplitAround<G>(pane: seq<G>, i: nat, j: nat, gobs: seq<G>)
    requires i < j <= |pane| && pane[i..j] == gobs
    ensures pane == pane[..i] + gobs + pane[j..]
    ensures pane[..i + 1] == pane[..i] + [gobs[0]]
    ensures pane[i + 1..] == gobs[1..] + pane[j..]
  {
    assert gobs == [pane[i]] + pane[i + 1..j];
  }

  lemma KeepLeft<G>(a: seq<G>, gobs: seq<G>)
    requires gobs != [] && forall g :: g in a ==> g !in Elements(gobs)
    ensures Keep(a + [gobs[0]], Elements(gobs)) == a
  {
    KeepConcat(a, [gobs[0]], Elements(gobs));
    KeepAll(a, Elements(gobs));
    KeepNone([gobs[0]], Elements(gobs));
  }

  lemma KeepRight<G>(gobs: seq<G>, c: seq<G>)
    requires gobs != [] && forall g :: g in c ==> g !in Elements(gobs)
    ensures Keep(gobs[1..] + c, Elements(gobs)) == c
  {
    KeepNoneThen(gobs[1..], c, Elements(gobs));
    KeepAll(c, Elements(gobs));
  }

  // Such an insertion is x and b at index 2 of a, b, c: x leaves the pane that it
  // was in, and does not get into this one.
  lemma InsertLosesGob<G>(st: State<G>, target: G, a: G, b: G, c: G, x: G)
    requires Linked(st) && target in st.pane && st.pane[target] == [a, b, c] && x !in {a, b, c}
    ensures !Unstopped(st, target, [IsGob(x), IsGob(b)], 2)
    ensures InsertGobs(st, target, [IsGob(x), IsGob(b)], 2).0 == DetachAll(st, {x})
    ensures DetachAll(st, {x}).pane[target] == [a, b, c]
  {
    var args := [IsGob(x), IsGob(b)];
    var m := ScanIs(st, target, args, 2);
    KeepAll([a, b, c], {x});
    KeepAll([a, b], {x});
    assert st.pane[target][..2] == [a, b];
    assert Out(args, 0) == {} && Out(args, 1) == {x};
    KeepAll([a, b], {});
    assert !Stops(st, target, args, 2, 0);
    assert Stops(st, target, args, 2, 1);
  }

  // One gob is always inserted as wanted.
  lemma InsertOne<G>(st: State<G>, target: G, g: G, index: nat)
    requires Linked(st) && target in st.pane && index <= |st.pane[target]|
    ensures InsertGobs(st, target, [IsGob(g)], index).0.pane[target] == Wanted(st.pane[target], [g], index)
  {
    var args := [IsGob(g)];
    assert GobsOf(args) == [g] && AllGobs(args);
    InsertGivesWanted(st, target, args, index);
    if !Unstopped(st, target, args, index) {
      assert Stops(st, target, args, index, 0);
      OneInPlace(st, target, g, index);
    }
  }

  lemma OneInPlace<G>(st: State<G>, target: G, g: G, index: nat)
    requires Linked(st) && target in st.pane && index <= |st.pane[target]|
    requires Stops(st, target, [IsGob(g)], index, 0)
    ensures InPlace(st.pane[target], [g], index)
  {
    ScanNothing(st, target, [IsGob(g)], index);
    assert st.pane[target][index - 1..index] == [g];
  }

  // ---- removing ----------------------------------------------------------

  // Remove_Gobs.
  ghost function RemoveGobs<G>(st: State<G>, target: G, index: nat, len: nat): State<G>
    requires target in st.pane && index + len <= |st.pane[target]|
  {
    var pane := st.pane[target];
    State(st.parent - Elements(pane[index..index + len]), st.pane[target := pane[..index] + pane[index + len..]])
  }

  // Removing is detaching the gobs at those places.
  lemma RemoveDetaches<G>(st: State<G>, target: G, index: nat, len: nat)
    requires Linked(st) && target in st.pane && index + len <= |st.pane[target]|
    ensures RemoveGobs(st, target, index, len) == DetachAll(st, Elements(st.pane[target][index..index + len]))
  {
    var pane := st.pane[target];
    var out := Elements(pane[index..index + len]);
    KeepCut(pane, index, index + len, out);
    forall p | p in st.pane && p != target
      ensures Keep(st.pane[p], out) == st.pane[p]
    {
      forall g | g in st.pane[p]
        ensures g !in out
      {
        assert g in st.parent && st.parent[g] == p;
      }
      KeepAll(st.pane[p], out);
    }
    assert RemoveGobs(st, target, index, len).pane == DetachAll(st, out).pane;
  }

  // ---- what an insertion keeps --------------------------------------------

  lemma MovedPane<G>(st: State<G>, target: G, gobs: seq<G>, index: nat, p: G)
    requires Linked(st) && target in st.pane && index <= |st.pane[target]| && NoDup(gobs) && p in st.pane
    ensures NoDup(Moved(st, target, gobs, index).pane[p])
    ensures forall g :: g in Moved(st, target, gobs, index).pane[p]
                        <==> (if g in Elements(gobs) then p == target else g in st.pane[p])
  {
    if p == target {
      WantedMembers(st.pane[p], gobs, index);
    } else {
      KeepMembers(st.pane[p], Elements(gobs));
    }
  }

  lemma MovedLinked<G>(st: State<G>, target: G, gobs: seq<G>, index: nat)
    requires Linked(st) && target in st.pane && index <= |st.pane[target]|
    requires NoDup(gobs) && Elements(gobs) <= st.pane.Keys
    ensures Linked(Moved(st, target, gobs, index))
  {
    forall p | p in st.pane
      ensures NoDup(Moved(st, target, gobs, index).pane[p])
      ensures forall g :: g in Moved(st, target, gobs, index).pane[p]
                          <==> (if g in Elements(gobs) then p == target else g in st.pane[p])
    {
      MovedPane(st, target, gobs, index, p);
    }
    StillLinked(st, target, Elements(gobs), Moved(st, target, gobs, index));
  }

  lemma StillLinked<G>(st: State<G>, target: G, moved: set<G>, st': State<G>)
    requires Linked(st) && target in st.pane && moved <= st.pane.Keys && st'.pane.Keys == st.pane.Keys
    requires st'.parent == Reparent(st.parent, moved, target)
    requires forall p :: p in st'.pane ==> NoDup(st'.pane[p])
    requires forall p, g :: p in st'.pane ==>
               (g in st'.pane[p] <==> (if g in moved then p == target else g in st.pane[p]))
    ensures Linked(st')
  {
  }

  lemma WantedMembers<G>(pane: seq<G>, gobs: seq<G>, index: nat)
    requires NoDup(pane) && NoDup(gobs) && index <= |pane|
    ensures NoDup(Wanted(pane, gobs, index))
    ensures forall g :: g in Wanted(pane, gobs, index) <==> g in gobs || g in pane
  {
    var left, right, out := pane[..index], pane[index..], Elements(gobs);
    assert pane == left + right;
    KeepMembers(left, out);
    KeepMembers(right, out);
    KeepMembers(pane, out);
    KeepConcat(left, right, out);
    NoDupInsert(Keep(left, out), gobs, Keep(right, out));
  }

  lemma NoDupParts<G>(a: seq<G>, b: seq<G>)
    requires NoDup(a + b)
    ensures NoDup(a) && NoDup(b) && forall g :: g in a ==> g !in b
  {
    var s := a + b;
    forall i, j | 0 <= i < |a| && 0 <= j < |b|
      ensures a[i] != b[j]
    {
      assert s[i] != s[|a| + j];
    }
    forall i, j | 0 <= i < j < |a|
      ensures a[i] != a[j]
    {
      assert s[i] != s[j];
    }
    forall i, j | 0 <= i < j < |b|
      ensures b[i] != b[j]
    {
      assert s[|a| + i] != s[|a| + j];
    }
  }

  lemma NoDupJoin<G>(a: seq<G>, b: seq<G>)
    requires NoDup(a) && NoDup(b) && forall g :: g in a ==> g !in b
    ensures NoDup(a + b)
  {
    forall i, j | 0 <= i < j < |a + b|
      ensures (a + b)[i] != (a + b)[j]
    {
      if i < |a| <= j {
        assert a[i] in a && b[j - |a|] in b;
      } else if j < |a| {
        assert a[i] != a[j];
      } else {
        assert b[i - |a|] != b[j - |a|];
      }
    }
  }

  lemma NoDupInsert<G>(a: seq<G>, b: seq<G>, c: seq<G>)
    requires NoDup(a + c) && NoDup(b)
    requires forall g :: g in a || g in c ==> g !in b
    ensures NoDup(a + b + c)
  {
    NoDupParts(a, c);
    NoDupJoin(a, b);
    NoDupJoin(a + b, c);
  }

  // Inserting distinct gobs keeps panes and parents in agreement. It keeps the
  // forest exactly when it is stopped, or none of the gobs is the target or one
  // of its ancestors.
  lemma InsertKeeps<G>(st: State<G>, target: G, args: seq<Arg<G>>, index: nat)
    requires Consistent(st) && target in st.pane && index <= |st.pane[target]|
    requires Distinct(args) && Out(args, |args|) <= st.pane.Keys
    ensures Linked(InsertGobs(st, target, args, index).0)
    ensures InsertGobs(st, target, args, index).0.pane.Keys == st.pane.Keys
    ensures Forest(InsertGobs(st, target, args, index).0)
            <==> !Unstopped(st, target, args, index) || NoneAbove(st, target, args)
  {
    if Unstopped(st, target, args, index) {
      InsertMoves(st, target, args, index);
      OutIsAll(args);
      MovedKeeps(st, target, GobsOf(args), index);
    } else {
      StoppedKeeps(st, target, args, index);
    }
  }

  lemma StoppedKeeps<G>(st: State<G>, target: G, args: seq<Arg<G>>, index: nat)
    requires Consistent(st) && target in st.pane && index <= |st.pane[target]|
    requires Distinct(args) && Out(args, |args|) <= st.pane.Keys && !Unstopped(st, target, args, index)
    ensures Linked(InsertGobs(st, target, args, index).0) && Forest(InsertGobs(st, target, args, index).0)
    ensures InsertGobs(st, target, args, index).0.pane.Keys == st.pane.Keys
  {
    var m := InsertStops(st, target, args, index);
    DetachAllConsistent(st, Out(args, m));
  }

  lemma MovedKeeps<G>(st: State<G>, target: G, gobs: seq<G>, index: nat)
    requires Consistent(st) && target in st.pane && index <= |st.pane[target]|
    requires NoDup(gobs) && Elements(gobs) <= st.pane.Keys
    ensures Linked(Moved(st, target, gobs, index)) && Moved(st, target, gobs, index).pane.Keys == st.pane.Keys
    ensures Forest(Moved(st, target, gobs, index))
            <==> forall a :: a in Elements(gobs) ==> !AncestorOrSelf(st.parent, a, target)
  {
    MovedLinked(st, target, gobs, index);
    MoveKeepsForest(st, Elements(gobs), target, Moved(st, target, gobs, index));
  }

  // A gob put into the pane of its own child is above itself from then on.
  lemma InsertUnderChild<G>(st: State<G>, g: G, child: G)
    requires Consistent(st) && g in st.pane && child in st.pane && child in st.pane[g]
    ensures !Forest(InsertGobs(st, child, [IsGob(g)], 0).0)
  {
    var args := [IsGob(g)];
    OneArg(g);
    AboveItsChild(st, g, child);
    OneAtFront(st, child, g);
    InsertKeeps(st, child, args, 0);
  }

  lemma OneArg<G>(g: G)
    ensures Out([IsGob(g)], 1) == {g} && Distinct([IsGob(g)])
  {
    assert [IsGob(g)][0].gob in Out([IsGob(g)], 1);
  }

  lemma AboveItsChild<G>(st: State<G>, g: G, child: G)
    requires Consistent(st) && g in st.pane && child in st.pane[g]
    ensures AncestorOrSelf(st.parent, g, child)
  {
    InPaneIffParent(st, child, g);
    assert Up(st.parent, g, 0) == Some(g);
    ParentsAncestors(st.parent, g, child);
  }

  lemma OneAtFront<G>(st: State<G>, target: G, g: G)
    requires Linked(st) && target in st.pane
    ensures Unstopped(st, target, [IsGob(g)], 0)
  {
    ScanNothing(st, target, [IsGob(g)], 0);
  }

  // ---- a gob given twice ---------------------------------------------------

  // The first gob that is there before already, or the number of them.
  ghost function FirstRepeat<G>(gobs: seq<G>): (m: nat)
    ensures m <= |gobs| && NoDup(gobs[..m]) && (m < |gobs| ==> gobs[m] in gobs[..m])
  {
    if gobs == [] then 0
    else
      var n := |gobs| - 1;
      var m := FirstRepeat(gobs[..n]);
      assert gobs[..n][..m] == gobs[..m];
      if m == n && gobs[n] !in gobs[..n] then RepeatFree(gobs); |gobs| else m
  }

  lemma RepeatFree<G>(gobs: seq<G>)
    requires gobs != [] && NoDup(gobs[..|gobs| - 1]) && gobs[|gobs| - 1] !in gobs[..|gobs| - 1]
    ensures NoDup(gobs[..|gobs|])
  {
    var n := |gobs| - 1;
    assert gobs[..n + 1] == gobs && forall i :: 0 <= i < n ==> gobs[i] == gobs[..n][i] && gobs[i] in gobs[..n];
  }

  lemma FirstRepeatIs<G>(gobs: seq<G>, m: nat)
    requires m <= |gobs| && NoDup(gobs[..m]) && (m < |gobs| ==> gobs[m] in gobs[..m])
    ensures FirstRepeat(gobs) == m
  {
    var k := FirstRepeat(gobs);
    if k < m {
      PrefixFresh(gobs, m, k);
    } else if m < k {
      PrefixFresh(gobs, k, m);
    }
  }

  lemma PrefixFresh<G>(gobs: seq<G>, m: nat, k: nat)
    requires k < m <= |gobs| && NoDup(gobs[..m])
    ensures gobs[k] !in gobs[..k]
  {
    forall i | 0 <= i < k
      ensures gobs[i] != gobs[k]
    {
      assert gobs[..m][i] == gobs[i] && gobs[..m][k] == gobs[k];
    }
  }

  // The second pass whatever it is given: it fails at a gob that it has just given a
  // parent. The pane has been expanded by then, and its other new cells hold whatever
  // the room held; a new pane has not been put into its gob yet.
  ghost function PlaceAny<G>(st: State<G>, target: G, gobs: seq<G>, index: nat, paned: bool, room: seq<G>)
      : (r: (State<G>, Outcome))
    requires target in st.pane && index <= |st.pane[target]| && |room| == |gobs|
    ensures target in r.0.pane
  {
    var m, pane := FirstRepeat(gobs), st.pane[target];
    if m == |gobs| then (Place(st, target, gobs, index), Inserted)
    else
      (State(Reparent(st.parent, Elements(gobs[..m]), target),
             if paned then st.pane[target := pane[..index] + gobs[..m] + room[m..] + pane[index..]] else st.pane),
       HasParent)
  }

  ghost function InsertAny<G>(st: State<G>, target: G, args: seq<Arg<G>>, index: nat, paned: bool, room: seq<G>)
      : (r: (State<G>, Outcome))
    requires Linked(st) && target in st.pane && index <= |st.pane[target]| && |room| == |args|
    ensures target in r.0.pane
  {
    ScanGetsThrough(st, target, args, index);
    var r := ScanArgs(st, target, args, index);
    if r.outcome == Inserted then PlaceAny(r.st, target, GobsOf(args), r.index, paned, room) else (r.st, r.outcome)
  }

  lemma DistinctIsNoDup<G>(args: seq<Arg<G>>)
    requires AllGobs(args)
    ensures Distinct(args) <==> FirstRepeat(GobsOf(args)) == |args|
  {
    var gobs := GobsOf(args);
    assert forall a :: a in args ==> a.IsGob?;
    assert gobs[..|gobs|] == gobs;
    assert forall i :: 0 <= i < |args| ==> args[i].IsGob? && gobs[i] == args[i].gob;
    if Distinct(args) {
      FirstRepeatIs(gobs, |gobs|);
    }
  }

  // Of distinct gobs it is the insertion above.
  lemma InsertAnyIs<G>(st: State<G>, target: G, args: seq<Arg<G>>, index: nat, paned: bool, room: seq<G>)
    requires Linked(st) && target in st.pane && index <= |st.pane[target]| && |room| == |args|
    ensures !Unstopped(st, target, args, index) || Distinct(args) ==>
              InsertAny(st, target, args, index, paned, room) == InsertGobs(st, target, args, index)
  {
    ScanGetsThrough(st, target, args, index);
    InsertMoves(st, target, args, index);
    if Unstopped(st, target, args, index) {
      DistinctIsNoDup(args);
    }
  }

  // Panes and parents stay in agreement exactly if the insertion is stopped or the
  // gobs are distinct, whatever the room holds.
  lemma InsertAgrees<G>(st: State<G>, target: G, args: seq<Arg<G>>, index: nat, paned: bool, room: seq<G>)
    requires Linked(st) && target in st.pane && index <= |st.pane[target]| && |room| == |args|
    requires Out(args, |args|) <= st.pane.Keys && (!paned ==> st.pane[target] == [])
    ensures Linked(InsertAny(st, target, args, index, paned, room).0)
            <==> !Unstopped(st, target, args, index) || Distinct(args)
  {
    InsertAnyIs(st, target, args, index, paned, room);
    if !Unstopped(st, target, args, index) {
      var m := InsertStops(st, target, args, index);
      DetachAllLinked(st, Out(args, m));
    } else if Distinct(args) {
      InsertMoves(st, target, args, index);
      OutIsAll(args);
      DistinctIsNoDup(args);
      MovedLinked(st, target, GobsOf(args), index);
    } else {
      UnstoppedRepeat(st, target, args, index, paned, room);
    }
  }

  lemma UnstoppedRepeat<G>(st: State<G>, target: G, args: seq<Arg<G>>, index: nat, paned: bool, room: seq<G>)
    requires Linked(st) && target in st.pane && index <= |st.pane[target]| && |room| == |args|
    requires (!paned ==> st.pane[target] == []) && Unstopped(st, target, args, index) && !Distinct(args)
    ensures !Linked(InsertAny(st, target, args, index, paned, room).0)
  {
    InsertMoves(st, target, args, index);
    DistinctIsNoDup(args);
    var m := ScanIs(st, target, args, index);
    ScanGetsThrough(st, target, args, index);
    var r := ScanArgs(st, target, args, index);
    DetachAllLinked(st, Out(args, |args|));
    RepeatDisagrees(r.st, target, GobsOf(args), r.index, paned, room);
  }

  lemma RepeatDisagrees<G>(st: State<G>, target: G, gobs: seq<G>, index: nat, paned: bool, room: seq<G>)
    requires Linked(st) && target in st.pane && index <= |st.pane[target]| && |room| == |gobs|
    requires FirstRepeat(gobs) < |gobs| && (!paned ==> st.pane[target] == [])
    ensures !Linked(PlaceAny(st, target, gobs, index, paned, room).0)
  {
    var m, pane := FirstRepeat(gobs), st.pane[target];
    var after := PlaceAny(st, target, gobs, index, paned, room).0;
    assert m > 0 && gobs[..m][0] == gobs[0];
    if paned {
      var cells := pane[..index] + gobs[..m] + room[m..] + pane[index..];
      assert after.pane[target] == cells && cells[index + m] == room[m];
      if Linked(after) {
        RoomIsNeither(st, after, target, gobs[..m], room[m], pane);
        RoomRepeats(pane, index, gobs[..m], room[m..], room[m]);
      }
    } else {
      assert gobs[0] in Elements(gobs[..m]) && after.parent[gobs[0]] == target;
      assert gobs[0] !in after.pane[target];
    }
  }

  // Whatever a cell of the room holds has to be there already to be in agreement.
  lemma RoomIsNeither<G>(st: State<G>, after: State<G>, target: G, placed: seq<G>, g: G, pane: seq<G>)
    requires Linked(st) && target in st.pane && pane == st.pane[target]
    requires after.parent == Reparent(st.parent, Elements(placed), target)
    requires Linked(after) && target in after.pane && g in after.pane[target]
    ensures g in placed || g in pane
  {
    assert g in after.parent && after.parent[g] == target;
  }

  // And then it is there twice.
  lemma RoomRepeats<G>(pane: seq<G>, index: nat, placed: seq<G>, room: seq<G>, g: G)
    requires index <= |pane| && room != [] && room[0] == g && (g in placed || g in pane)
    ensures !NoDup(pane[..index] + placed + room + pane[index..])
  {
    var cells, n := pane[..index] + placed + room + pane[index..], index + |placed|;
    assert cells[n] == g;
    if g in placed {
      var i :| 0 <= i < |placed| && placed[i] == g;
      assert cells[index + i] == g;
    } else {
      var i :| 0 <= i < |pane| && pane[i] == g;
      assert cells[if i < index then i else i + |placed| + |room|] == g;
    }
  }

  // One gob given twice is such an insertion.
  lemma InsertTwice<G>(st: State<G>, target: G, g: G, paned: bool, room: seq<G>)
    requires Linked(st) && target in st.pane && g in st.pane && |room| == 2 && (!paned ==> st.pane[target] == [])
    ensures InsertAny(st, target, [IsGob(g), IsGob(g)], 0, paned, room).1 == HasParent
    ensures !Linked(InsertAny(st, target, [IsGob(g), IsGob(g)], 0, paned, room).0)
  {
    var args := [IsGob(g), IsGob(g)];
    ScanNothing(st, target, args, 0);
    assert Out(args, 2) <= {g};
    assert Unstopped(st, target, args, 0);
    assert args[0].gob == args[1].gob;
    InsertAgrees(st, target, args, 0, paned, room);
    InsertMoves(st, target, args, 0);
    ScanGetsThrough(st, target, args, 0);
    DistinctIsNoDup(args);
  }

  ghost predicate Distinct<G>(args: seq<Arg<G>>) {
    forall i, j :: 0 <= i < j < |args| && args[i].IsGob? && args[j].IsGob? ==> args[i].gob != args[j].gob
  }

  // No argument is the target or an ancestor of it.
  ghost predicate NoneAbove<G>(st: State<G>, target: G, args: seq<Arg<G>>) {
    forall a :: a in Out(args, |args|) ==> !AncestorOrSelf(st.parent, a, target)
  }

  // ---- runs ----------------------------------------------------------------

  // The actions on a gob value, which is a gob and an index into its pane. `part`
  // is the number of gobs REMOVE is asked for.
  datatype Op<G> =
    | Insert(target: G, args: seq<Arg<G>>, index: nat)
    | Append(target: G, args: seq<Arg<G>>)
    | Remove(target: G, index: nat, part: nat)
    | Clear(target: G, index: nat)

  ghost function Step<G>(st: State<G>, op: Op<G>): State<G>
    requires Linked(st) && op.target in st.pane
    requires op.Insert? ==> op.index <= |st.pane[op.target]|
  {
    match op
    case Insert(target, args, index) => InsertGobs(st, target, args, index).0
    case Append(target, args) => InsertGobs(st, target, args, |st.pane[target]|).0
    case Remove(target, index, part) => RemoveStep(st, target, index, part)
    case Clear(target, index) => ClearStep(st, target, index)
  }

  ghost function RemoveStep<G>(st: State<G>, target: G, index: nat, part: nat): State<G>
    requires target in st.pane
  {
    var tail := |st.pane[target]|;
    if index < tail && part != 0
    then RemoveGobs(st, target, index, if index + part > tail then tail - index else part)
    else st
  }

  ghost function ClearStep<G>(st: State<G>, target: G, index: nat): State<G>
    requires target in st.pane
  {
    var tail := |st.pane[target]|;
    if tail > index then RemoveGobs(st, target, index, tail - index) else st
  }

  // What callers have to see to: known gobs, an index within the pane, and for
  // insertions distinct gobs, none of them at or above the target.
  ghost predicate Legal<G>(st: State<G>, op: Op<G>) {
    && op.target in st.pane
    && (op.Insert? ==> op.index <= |st.pane[op.target]|)
    && (op.Insert? || op.Append? ==>
          Distinct(op.args) && Out(op.args, |op.args|) <= st.pane.Keys && NoneAbove(st, op.target, op.args))
  }

  lemma StepKeeps<G>(st: State<G>, op: Op<G>)
    requires Consistent(st) && Legal(st, op)
    ensures Consistent(Step(st, op)) && Step(st, op).pane.Keys == st.pane.Keys
  {
    match op
    case Insert(target, args, index) => InsertKeeps(st, target, args, index);
    case Append(target, args) => InsertKeeps(st, target, args, |st.pane[target]|);
    case Remove(target, index, part) => RemoveStepKeeps(st, target, index, part);
    case Clear(target, index) => ClearStepKeeps(st, target, index);
  }

  lemma RemoveStepKeeps<G>(st: State<G>, target: G, index: nat, part: nat)
    requires Consistent(st) && target in st.pane
    ensures Consistent(RemoveStep(st, target, index, part))
    ensures RemoveStep(st, target, index, part).pane.Keys == st.pane.Keys
  {
    var tail := |st.pane[target]|;
    if index < tail && part != 0 {
      var len := if index + part > tail then tail - index else part;
      var st' := RemoveGobs(st, target, index, len);
      RemoveKeeps(st, target, index, len);
      assert RemoveStep(st, target, index, part) == st';
    }
  }

  lemma ClearStepKeeps<G>(st: State<G>, target: G, index: nat)
    requires Consistent(st) && target in st.pane
    ensures Consistent(ClearStep(st, target, index))
    ensures ClearStep(st, target, index).pane.Keys == st.pane.Keys
  {
    RemoveStepKeeps(st, target, index, |st.pane[target]|);
    ClearIsRemove(st, target, index);
  }

  // Clearing is removing as many as there are.
  lemma ClearIsRemove<G>(st: State<G>, target: G, index: nat)
    requires target in st.pane
    ensures ClearStep(st, target, index) == RemoveStep(st, target, index, |st.pane[target]|)
  {
  }

  lemma RemoveKeeps<G>(st: State<G>, target: G, index: nat, len: nat)
    requires Consistent(st) && target in st.pane && index + len <= |st.pane[target]|
    ensures Consistent(RemoveGobs(st, target, index, len))
    ensures RemoveGobs(st, target, index, len).pane.Keys == st.pane.Keys
  {
    RemoveDetaches(st, target, index, len);
    DetachAllConsistent(st, Elements(st.pane[target][index..index + len]));
  }

  // The states of a run, one legal action after the other.
  ghost predicate IsRun<G>(states: seq<State<G>>, ops: seq<Op<G>>) {
    && |states| == |ops| + 1
    && forall i :: 0 <= i < |ops| ==>
         Linked(states[i]) && Legal(states[i], ops[i]) && states[i + 1] == Step(states[i], ops[i])
  }

  // New gobs have no parents and nothing in their panes.
  ghost predicate NewGobs<G>(st: State<G>) {
    st.parent == map[] && forall p :: p in st.pane ==> st.pane[p] == []
  }

  // In every state of every run that starts with new gobs, a gob is in a pane
  // exactly when its parent is the pane's owner, it is there once, and the gobs
  // form a forest.
  lemma {:induction false} EveryRunKeeps<G>(states: seq<State<G>>, ops: seq<Op<G>>, i: nat)
    requires IsRun(states, ops) && NewGobs(states[0]) && i <= |ops|
    ensures Consistent(states[i]) && states[i].pane.Keys == states[0].pane.Keys
    ensures forall g, p :: p in states[i].pane ==>
              (g in states[i].pane[p] <==> g in states[i].parent && states[i].parent[g] == p)
              && (g in states[i].pane[p] ==> OccursOnce(states[i].pane[p], g))
    decreases i
  {
    if i == 0 {
      forall g | g in states[0].pane
        ensures Rooted(states[0].parent, g)
      {
        assert Up(states[0].parent, g, 1) == None;
      }
    } else {
      EveryRunKeeps(states, ops, i - 1);
      StepKeeps(states[i - 1], ops[i - 1]);
    }
    forall g, p | p in states[i].pane
      ensures g in states[i].pane[p] <==> g in states[i].parent && states[i].parent[g] == p
      ensures g in states[i].pane[p] ==> OccursOnce(states[i].pane[p], g)
    {
      InPaneIffParent(states[i], g, p);
    }
  }

  // ---- the actions in plain terms ------------------------------------------

  // Nothing changes but the pane of the target and the parents of these gobs.
  ghost predicate OnlyChanges<G>(st: State<G>, st': State<G>, target: G, gobs: seq<G>) {
    && st'.pane.Keys == st.pane.Keys
    && (forall p :: p in st.pane && p != target ==> st'.pane[p] == st.pane[p])
    && (forall g :: g in st.parent && g !in gobs ==> g in st'.parent && st'.parent[g] == st.parent[g])
    && forall g :: g in st'.parent && g !in gobs ==> g in st.parent
  }

  // REMOVE takes the gobs from the index on out of the pane, as many as asked for or
  // as there are; these lose their parents.
  lemma RemoveIs<G>(st: State<G>, target: G, index: nat, part: nat, end: nat)
    requires Linked(st) && target in st.pane && index < |st.pane[target]|
    requires end == if index + part <= |st.pane[target]| then index + part else |st.pane[target]|
    ensures var st', pane := Step(st, Remove(target, index, part)), st.pane[target];
            && st'.pane[target] == pane[..index] + pane[end..]
            && OnlyChanges(st, st', target, pane[index..end])
            && forall g :: g in pane[index..end] ==> g !in st'.parent
  {
    if part == 0 {
      NoneRemoved(st, target, index, end);
    } else {
      assert Step(st, Remove(target, index, part)) == RemoveGobs(st, target, index, end - index);
      RemoveGobsIs(st, target, index, end - index, end);
    }
  }

  lemma NoneRemoved<G>(st: State<G>, target: G, index: nat, end: nat)
    requires Linked(st) && target in st.pane && end == index < |st.pane[target]|
    ensures st.pane[target] == st.pane[target][..index] + st.pane[target][end..] && st.pane[target][index..end] == []
    ensures OnlyChanges(st, st, target, []) && Step(st, Remove(target, index, 0)) == st
  {
  }

  lemma RemoveGobsIs<G>(st: State<G>, target: G, index: nat, len: nat, end: nat)
    requires target in st.pane && end == index + len <= |st.pane[target]|
    ensures var st', pane := RemoveGobs(st, target, index, len), st.pane[target];
            && st'.pane[target] == pane[..index] + pane[end..]
            && OnlyChanges(st, st', target, pane[index..end])
            && forall g :: g in pane[index..end] ==> g !in st'.parent
  {
    var out := Elements(st.pane[target][index..end]);
    assert forall g :: g in st.pane[target][index..end] <==> g in out;
  }

  // Behind the last gob there is nothing to remove.
  lemma RemoveBehind<G>(st: State<G>, target: G, index: nat, part: nat)
    requires Linked(st) && target in st.pane && index >= |st.pane[target]|
    ensures Step(st, Remove(target, index, part)) == st && Step(st, Clear(target, index)) == st
  {
  }

  // CLEAR takes out all the gobs from the index on.
  lemma ClearIs<G>(st: State<G>, target: G, index: nat)
    requires Linked(st) && target in st.pane && index < |st.pane[target]|
    ensures var st', pane := Step(st, Clear(target, index)), st.pane[target];
            && st'.pane[target] == pane[..index]
            && OnlyChanges(st, st', target, pane[index..])
            && forall g :: g in pane[index..] ==> g !in st'.parent
  {
    ClearIsRemove(st, target, index);
    var n := |st.pane[target]|;
    RemoveIs(st, target, index, n - index, n);
    assert st.pane[target][index..n] == st.pane[target][index..];
    assert st.pane[target][..index] + st.pane[target][n..] == st.pane[target][..index];
  }

  // INSERT puts gobs that had no parent side by side at the index, and APPEND behind
  // the last one; the target becomes their parent.
  lemma InsertNew<G>(st: State<G>, target: G, gobs: seq<G>, args: seq<Arg<G>>, index: nat)
    requires Linked(st) && target in st.pane && index <= |st.pane[target]| && NoDup(gobs)
    requires |args| == |gobs| && forall i :: 0 <= i < |gobs| ==> args[i] == IsGob(gobs[i])
    requires forall g :: g in gobs ==> g !in st.parent
    ensures var st', pane := Step(st, Insert(target, args, index)), st.pane[target];
            && st'.pane[target] == pane[..index] + gobs + pane[index..]
            && OnlyChanges(st, st', target, gobs)
            && forall g :: g in gobs ==> g in st'.parent && st'.parent[g] == target
    ensures index == |st.pane[target]| ==> Step(st, Append(target, args)) == Step(st, Insert(target, args, index))
  {
    assert forall i :: 0 <= i < |args| ==> args[i].IsGob?;
    GobsAre(gobs, args);
    NewGobsStay(st, target, gobs);
    NewUnstopped(st, target, gobs, args, index);
    InsertMoves(st, target, args, index);
    var out, pane := Elements(gobs), st.pane[target];
    forall p | p in st.pane
      ensures Keep(st.pane[p], out) == st.pane[p]
    {
      KeepAll(st.pane[p], out);
    }
    KeepAll(pane[..index], out);
    KeepAll(pane[index..], out);
  }

  lemma GobsAre<G>(gobs: seq<G>, args: seq<Arg<G>>)
    requires |args| == |gobs| && forall i :: 0 <= i < |gobs| ==> args[i] == IsGob(gobs[i])
    ensures AllGobs(args) && GobsOf(args) == gobs
  {
    forall a | a in args
      ensures a.IsGob?
    {
      var i :| 0 <= i < |args| && args[i] == a;
    }
  }

  // Gobs without a parent are in no pane.
  lemma NewGobsStay<G>(st: State<G>, target: G, gobs: seq<G>)
    requires Linked(st) && target in st.pane && forall g :: g in gobs ==> g !in st.parent
    ensures forall p, g :: p in st.pane && g in st.pane[p] ==> g !in Elements(gobs)
  {
  }

  lemma NewUnstopped<G>(st: State<G>, target: G, gobs: seq<G>, args: seq<Arg<G>>, index: nat)
    requires Linked(st) && target in st.pane && index <= |st.pane[target]|
    requires |args| == |gobs| && forall i :: 0 <= i < |gobs| ==> args[i] == IsGob(gobs[i])
    requires forall g :: g in st.pane[target] ==> g !in gobs
    ensures Unstopped(st, target, args, index)
  {
    forall j | 0 <= j < |args|
      ensures !Stops(st, target, args, index, j)
    {
      var left := Before(st, target, args, index, j);
      KeepMembers(st.pane[target][..index], Out(args, j));
      if |left| >= 2 {
        var last := left[|left| - 1];
        assert last in left && last in Elements(left);
        assert last in st.pane[target][..index];
        assert gobs[j] in gobs;
      }
    }
  }

  // The first gob of a pane does not stop an insertion right behind it.
  lemma FirstDoesNotStop<G>(st: State<G>, target: G, a: G, rest: seq<G>, x: G)
    requires Linked(st) && target in st.pane && st.pane[target] == [a] + rest && x !in st.pane[target]
    ensures Unstopped(st, target, [IsGob(a), IsGob(x)], 1)
  {
    var args := [IsGob(a), IsGob(x)];
    assert st.pane[target][..1] == [a];
    assert |Before(st, target, args, 1, 0)| <= 1 && |Before(st, target, args, 1, 1)| <= 1;
  }
}
