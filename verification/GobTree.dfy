// Gobs as t-gob.c keeps them: objects with a parent pointer and a pane that is
// changed in place. Each operation changes the links as its function in
// GobForest and GobOps says.
module GobTree {
  import opened GobForest
  import Ops = GobOps

  class Gob {
    var parent: Gob?
    // The pane cell is blank until something is inserted.
    var paned: bool
    var pane: seq<Gob>
    var x: real
    var y: real
    var w: real
    var h: real
    var window: bool

    constructor ()
      ensures parent == null && !paned && pane == []
    {
      parent, paned, pane := null, false, [];
      x, y, w, h, window := 100.0, 100.0, 0.0, 0.0, false;
    }
  }

  ghost function ParentMap(world: set<Gob>): map<Gob, Gob>
    reads world`parent
  {
    map g | g in world && g.parent != null :: g.parent
  }

  ghost function PaneMap(world: set<Gob>): map<Gob, seq<Gob>>
    reads world`pane
  {
    map g | g in world :: g.pane
  }

  // The links among a set of gobs.
  ghost function Links(world: set<Gob>): State<Gob>
    reads world`parent, world`pane
  {
    State(ParentMap(world), PaneMap(world))
  }

  ghost predicate BlankPanes(world: set<Gob>)
    reads world`paned, world`pane
  {
    forall g :: g in world && !g.paned ==> g.pane == []
  }

  // SET_GOB_PARENT.
  method SetParent(gob: Gob, parent: Gob?, ghost world: set<Gob>)
    requires gob in world
    modifies gob`parent
    ensures gob.parent == parent
    ensures ParentMap(world) == if parent == null then old(ParentMap(world)) - {gob}
                                else old(ParentMap(world))[gob := parent]
  {
    gob.parent := parent;
  }

  // The pane of a gob becomes another list.
  method SetPane(gob: Gob, pane: seq<Gob>, ghost world: set<Gob>)
    requires gob in world
    modifies gob`pane
    ensures gob.pane == pane
    ensures PaneMap(world) == old(PaneMap(world))[gob := pane]
  {
    gob.pane := pane;
  }

  // Find_Gob; -1 is NOT_FOUND.
  method FindGob(gob: Gob, target: Gob) returns (n: int)
    requires !gob.paned ==> gob.pane == []
    ensures n == IndexOf(gob.pane, target)
  {
    if !gob.paned {
      return -1;
    }
    n := 0;
    while n < |gob.pane|
      invariant 0 <= n <= |gob.pane|
      invariant forall j :: 0 <= j < n ==> gob.pane[j] != target
    {
      if gob.pane[n] == target {
        return;
      }
      n := n + 1;
    }
    n := -1;
  }

  // A gob with a parent is in that parent's pane.
  lemma InParentsPane(gob: Gob, world: set<Gob>)
    requires gob in world && Linked(Links(world)) && gob.parent != null
    ensures gob in Links(world).parent && Links(world).parent[gob] == gob.parent
    ensures gob.parent in world && gob in gob.parent.pane
  {
    var st := Links(world);
    assert gob in st.parent;
    assert gob in st.pane[st.parent[gob]];
  }

  // A gob in a pane has its owner for a parent.
  lemma ChildOf(child: Gob, gob: Gob, world: set<Gob>)
    requires gob in world && Linked(Links(world)) && child in gob.pane
    ensures child in world && child.parent == gob
  {
    var st := Links(world);
    assert child in st.pane[gob];
    assert child in st.parent && st.parent[child] == gob;
  }

  // Detach_Gob.
  method DetachGob(gob: Gob, ghost world: set<Gob>)
    requires gob in world && Linked(Links(world)) && BlankPanes(world)
    modifies world`parent, world`pane
    ensures Links(world) == Detach(old(Links(world)), gob)
    ensures BlankPanes(world) && gob.parent == null
    ensures forall g :: g in world && g != gob ==> g.parent == old(g.parent)
  {
    ghost var st := Links(world);
    var par := gob.parent;
    if par == null {
      return;
    }
    InParentsPane(gob, world);
    if par.paned {
      var i := FindGob(par, gob);
      if i != -1 {
        SetPane(par, par.pane[..i] + par.pane[i + 1..], world);
      } else {
        assert false;  // the parent's pane holds the gob
      }
    }
    SetParent(gob, null, world);
  }

  lemma ChildrenKnown(gob: Gob, world: set<Gob>)
    requires gob in world && Linked(Links(world))
    ensures forall j :: 0 <= j < |gob.pane| ==> gob.pane[j] in world
  {
    forall j | 0 <= j < |gob.pane|
      ensures gob.pane[j] in world
    {
      ChildOf(gob.pane[j], gob, world);
    }
  }

  // Lines 287-291.
  method ClearParents(gob: Gob, index: nat, len: nat, ghost world: set<Gob>)
    requires index + len <= |gob.pane| && forall j :: 0 <= j < |gob.pane| ==> gob.pane[j] in world
    modifies world`parent
    ensures ParentMap(world) == old(ParentMap(world)) - Elements(gob.pane[index..index + len])
  {
    ghost var parent := ParentMap(world);
    var n := 0;
    assert parent - Elements([]) == parent;
    while n < len
      invariant 0 <= n <= len
      invariant ParentMap(world) == parent - Elements(gob.pane[index..index + n])
    {
      SetParent(gob.pane[index + n], null, world);
      MoreElements(parent, gob.pane, index, n);
      n := n + 1;
    }
  }

  // Remove_Gobs.
  method RemoveGobs(gob: Gob, index: nat, len: nat, ghost world: set<Gob>)
    requires gob in world && Linked(Links(world)) && index + len <= |gob.pane|
    modifies world`parent, gob`pane
    ensures Links(world) == Ops.RemoveGobs(old(Links(world)), gob, index, len)
  {
    ChildrenKnown(gob, world);
    ClearParents(gob, index, len, world);
    SetPane(gob, gob.pane[..index] + gob.pane[index + len..], world);
  }

  lemma MoreElements(parent: map<Gob, Gob>, pane: seq<Gob>, index: nat, n: nat)
    requires index + n < |pane|
    ensures parent - Elements(pane[index..index + n + 1])
            == (parent - Elements(pane[index..index + n])) - {pane[index + n]}
  {
    assert pane[index..index + n + 1] == pane[index..index + n] + [pane[index + n]];
  }

  // Every gob among the arguments is one of ours.
  ghost predicate Known(args: seq<Arg<Gob>>, world: set<Gob>) {
    forall i :: 0 <= i < |args| && args[i].IsGob? ==> args[i].gob in world
  }

  // What the first pass does with one gob: the links and the index afterwards, and
  // whether it stops there.
  ghost function Taken(st: State<Gob>, target: Gob, g: Gob, index: int): (State<Gob>, int, bool)
    requires Linked(st) && target in st.pane
  {
    if g !in st.parent then (st, index, false)
    else
      var i := if st.parent[g] == target then IndexOf(st.pane[target], g) else -1;
      if i > 0 && i == index - 1 then (st, index, true)
      else (Detach(st, g), if i >= 0 && index > i then index - 1 else index, false)
  }

  lemma ScanTakes(st: State<Gob>, target: Gob, args: seq<Arg<Gob>>, index: int)
    requires Linked(st) && target in st.pane && args != [] && args[0].IsGob?
    ensures var (st', index', stop) := Taken(st, target, args[0].gob, index);
            && Linked(st') && target in st'.pane
            && ScanArgs(st, target, args, index)
               == if stop then Scanned(st', index', AlreadyThere) else ScanArgs(st', target, args[1..], index')
  {
    DetachStaysLinked(st, args[0].gob);
  }

  // Lines 216-228 for one gob.
  method TakeOne(gob: Gob, g: Gob, start: int, ghost world: set<Gob>) returns (index: int, stop: bool)
    requires gob in world && g in world && Linked(Links(world)) && BlankPanes(world)
    modifies world`parent, world`pane
    ensures BlankPanes(world) && (Links(world), index, stop) == Taken(old(Links(world)), gob, g, start)
    ensures !stop ==> g.parent == null && forall o :: o in world && o != g ==> o.parent == old(o.parent)
  {
    index, stop := start, false;
    ParentInLinks(g, world);
    if g.parent != null {
      var i := -1;
      if g.parent == gob {
        i := FindGob(gob, g);
        if i > 0 && i == index - 1 {
          stop := true;
          return;
        }
      }
      DetachGob(g, world);
      if i >= 0 && index > i {
        index := index - 1;
      }
    }
  }

  // The first pass of Insert_Gobs, lines 203-232: verify that the arguments are
  // gobs, and detach those that have a parent.
  method TakeOut(gob: Gob, args: seq<Arg<Gob>>, start: nat, ghost world: set<Gob>)
      returns (index: int, outcome: Outcome)
    requires gob in world && Known(args, world) && Linked(Links(world)) && BlankPanes(world)
    modifies world`parent, world`pane
    ensures Scanned(Links(world), index, outcome) == ScanArgs(old(Links(world)), gob, args, start)
    ensures BlankPanes(world)
    ensures outcome == Inserted ==> forall j :: 0 <= j < |args| ==> args[j].IsGob? && args[j].gob.parent == null
  {
    index := start;
    var n := 0;
    assert args[0..] == args;
    while n < |args|
      invariant 0 <= n <= |args| && BlankPanes(world) && Linked(Links(world))
      invariant ScanArgs(Links(world), gob, args[n..], index) == ScanArgs(old(Links(world)), gob, args, start)
      invariant forall j :: 0 <= j < n ==> args[j].IsGob? && args[j].gob.parent == null
    {
      ghost var rest := args[n..];
      assert rest[0] == args[n] && rest[1..] == args[n + 1..];
      if args[n].NotGob? {
        return index, BadValue;
      }
      var stop;
      ScanTakes(Links(world), gob, rest, index);
      index, stop := TakeOne(gob, args[n].gob, index, world);
      if stop {
        return index, AlreadyThere;
      }
      n := n + 1;
    }
    outcome := Inserted;
  }

  lemma ParentInLinks(g: Gob, world: set<Gob>)
    requires g in world
    ensures g in Links(world).parent <==> g.parent != null
    ensures g.parent != null ==> Links(world).parent[g] == g.parent
  {
  }

  lemma DetachStaysLinked(st: State<Gob>, g: Gob)
    requires Linked(st)
    ensures Linked(Detach(st, g))
  {
    DetachIsDetachAll(st, g);
    DetachAllLinked(st, {g});
  }

  // Expand_Series at an index: the cells opened up are to be filled.
  function Expanded(pane: seq<Gob>, index: nat, room: seq<Gob>): (r: seq<Gob>)
    requires index <= |pane|
    ensures |r| == |pane| + |room| && r[..index] == pane[..index] && r[index + |room|..] == pane[index..]
  {
    pane[..index] + room + pane[index..]
  }

  // Lines 237-256: create or expand the pane. The new cells hold what the room holds.
  method MakeRoom(gob: Gob, start: nat, room: seq<Gob>) returns (pane: seq<Gob>, index: int)
    requires start <= |gob.pane| && (!gob.paned ==> gob.pane == [])
    ensures pane == gob.pane[..start] + room + gob.pane[start..]
    ensures room != [] ==> index == start
  {
    index := start;
    if !gob.paned {
      pane := room;
      index := 0;
    } else {
      pane := Expanded(gob.pane, index, room);
      if index >= |pane| {
        index := |pane| - 1;
      }
    }
  }

  // Of these gobs those among the first n have a parent, and no others.
  ghost predicate Waiting(gobs: seq<Gob>, n: nat, world: set<Gob>)
    reads world`parent
  {
    && n <= |gobs|
    && forall j :: 0 <= j < |gobs| ==> gobs[j] in world && (gobs[j].parent != null <==> gobs[j] in gobs[..n])
  }

  // Lines 264-272 for one gob; refused if it has a parent by now.
  method PutOne(gob: Gob, pane0: seq<Gob>, index: int, g: Gob, ghost before: seq<Gob>, ghost gobs: seq<Gob>,
                ghost room: seq<Gob>, ghost start: nat, ghost n: nat, ghost parent: map<Gob, Gob>,
                ghost world: set<Gob>) returns (ok: bool, pane: seq<Gob>)
    requires Filled(pane0, before, gobs, room, start, n) && n < |gobs| && gobs[n] == g && index == start + n
    requires Waiting(gobs, n, world) && ParentMap(world) == Reparent(parent, Elements(gobs[..n]), gob)
    modifies g`parent
    ensures ok <==> g !in gobs[..n]
    ensures !ok ==> pane == pane0 && ParentMap(world) == old(ParentMap(world))
    ensures ok ==> Filled(pane, before, gobs, room, start, n + 1) && Waiting(gobs, n + 1, world)
    ensures ok ==> ParentMap(world) == Reparent(parent, Elements(gobs[..n + 1]), gob)
  {
    ok, pane := true, pane0;
    if g.parent != null {
      return false, pane;
    }
    FilledMore(pane, before, gobs, room, start, n);
    pane := pane[index := g];
    SetParent(g, gob, world);
    ReparentOneMore(parent, gobs, n, gob);
    assert gobs[..n + 1] == gobs[..n] + [g];
  }

  // Lines 257-274: fill the cells, and set the parents, up to a gob that has one.
  method FillCells(gob: Gob, args: seq<Arg<Gob>>, pane0: seq<Gob>, index: int, ghost before: seq<Gob>,
                   ghost gobs: seq<Gob>, ghost room: seq<Gob>, ghost start: nat, ghost world: set<Gob>)
      returns (ok: bool, pane: seq<Gob>)
    requires |gobs| == |args| && forall j :: 0 <= j < |args| ==> args[j] == IsGob(gobs[j])
    requires Waiting(gobs, 0, world)
    requires Filled(pane0, before, gobs, room, start, 0) && (|args| > 0 ==> index == start)
    modifies world`parent
    ensures ok <==> Ops.FirstRepeat(gobs) == |gobs|
    ensures var m := Ops.FirstRepeat(gobs);
            && pane == before[..start] + gobs[..m] + room[m..] + before[start..]
            && ParentMap(world) == Reparent(old(ParentMap(world)), Elements(gobs[..m]), gob)
  {
    ghost var parent := ParentMap(world);
    ok, pane := true, pane0;
    var n := 0;
    ReparentNone(parent, gob);
    while n < |args|
      invariant 0 <= n <= |args| && NoDup(gobs[..n])
      invariant Filled(pane, before, gobs, room, start, n) && Waiting(gobs, n, world)
      invariant ParentMap(world) == Reparent(parent, Elements(gobs[..n]), gob)
    {
      var g := args[n].gob;
      ok, pane := PutOne(gob, pane, index + n, g, before, gobs, room, start, n, parent, world);
      if !ok {
        Ops.FirstRepeatIs(gobs, n);
        return;
      }
      NoDupMore(gobs, n);
      n := n + 1;
    }
    ok := true;
    Ops.FirstRepeatIs(gobs, |gobs|);
  }

  lemma NoDupMore(gobs: seq<Gob>, n: nat)
    requires n < |gobs| && NoDup(gobs[..n]) && gobs[n] !in gobs[..n]
    ensures NoDup(gobs[..n + 1])
  {
    assert gobs[..n + 1][..n] == gobs[..n];
    Ops.RepeatFree(gobs[..n + 1]);
    assert gobs[..n + 1][..n + 1] == gobs[..n + 1];
  }

  lemma AllWaiting(args: seq<Arg<Gob>>, world: set<Gob>)
    requires Known(args, world) && Ops.AllGobs(args)
    requires forall j :: 0 <= j < |args| ==> args[j].gob.parent == null
    ensures forall j :: 0 <= j < |args| ==> args[j] == IsGob(GobsOf(args)[j])
    ensures Waiting(GobsOf(args), 0, world)
  {
    assert forall j :: 0 <= j < |args| ==> args[j] in args;
  }

  // The second pass, lines 235-276: make room in the pane, and fill it. A pane that
  // the gob had is changed in place even if it fails; a new one is dropped.
  method PutIn(gob: Gob, args: seq<Arg<Gob>>, start: nat, room: seq<Gob>, ghost world: set<Gob>)
      returns (outcome: Outcome)
    requires gob in world && Known(args, world) && BlankPanes(world)
    requires Ops.AllGobs(args) && |room| == |args|
    requires forall j :: 0 <= j < |args| ==> args[j].gob.parent == null
    requires start <= |gob.pane|
    modifies world`parent, gob`pane, gob`paned
    ensures (Links(world), outcome)
            == Ops.PlaceAny(old(Links(world)), gob, GobsOf(args), start, old(gob.paned), room)
    ensures BlankPanes(world)
  {
    AllWaiting(args, world);
    ghost var gobs, st := GobsOf(args), Links(world);
    var ok, pane := FillPane(gob, args, start, room, gobs, world);
    IsPlaced(st, gob, gobs, start, gob.paned, room, ok, pane, ParentMap(world));
    KeepPane(gob, pane, ok, world);
    outcome := if ok then Inserted else HasParent;
  }

  // Lines 237-274: the pane with the cells filled, as far as that goes.
  method FillPane(gob: Gob, args: seq<Arg<Gob>>, start: nat, room: seq<Gob>, ghost gobs: seq<Gob>,
                  ghost world: set<Gob>) returns (ok: bool, pane: seq<Gob>)
    requires gob in world && BlankPanes(world) && start <= |gob.pane| && |room| == |args| == |gobs|
    requires Waiting(gobs, 0, world) && forall j :: 0 <= j < |args| ==> args[j] == IsGob(gobs[j])
    modifies world`parent
    ensures ok <==> Ops.FirstRepeat(gobs) == |gobs|
    ensures pane == HalfFilled(gob.pane, gobs, start, room, Ops.FirstRepeat(gobs))
    ensures ParentMap(world) == Reparent(old(ParentMap(world)), Elements(gobs[..Ops.FirstRepeat(gobs)]), gob)
  {
    var index;
    pane, index := MakeRoom(gob, start, room);
    FilledNone(pane, gob.pane, gobs, room, start);
    ok, pane := FillCells(gob, args, pane, index, gob.pane, gobs, room, start, world);
  }

  ghost function HalfFilled(pane: seq<Gob>, gobs: seq<Gob>, start: nat, room: seq<Gob>, m: nat): seq<Gob>
    requires start <= |pane| && m <= |gobs| == |room|
  {
    pane[..start] + gobs[..m] + room[m..] + pane[start..]
  }

  // Line 276; without it only the pane that the gob had is changed.
  method KeepPane(gob: Gob, pane: seq<Gob>, ok: bool, ghost world: set<Gob>)
    requires gob in world && BlankPanes(world)
    modifies gob`pane, gob`paned
    ensures PaneMap(world) == if ok || old(gob.paned) then old(PaneMap(world))[gob := pane] else old(PaneMap(world))
    ensures BlankPanes(world)
  {
    if ok || gob.paned {
      SetPane(gob, pane, world);
      gob.paned := true;
    }
  }

  lemma IsPlaced(st: State<Gob>, gob: Gob, gobs: seq<Gob>, start: nat, paned: bool, room: seq<Gob>, ok: bool,
                 pane: seq<Gob>, parent: map<Gob, Gob>)
    requires gob in st.pane && start <= |st.pane[gob]| && |room| == |gobs|
    requires ok <==> Ops.FirstRepeat(gobs) == |gobs|
    requires pane == HalfFilled(st.pane[gob], gobs, start, room, Ops.FirstRepeat(gobs))
    requires parent == Reparent(st.parent, Elements(gobs[..Ops.FirstRepeat(gobs)]), gob)
    ensures Ops.PlaceAny(st, gob, gobs, start, paned, room)
            == (State(parent, if ok || paned then st.pane[gob := pane] else st.pane),
                if ok then Inserted else HasParent)
  {
    AllPlaced(st.pane[gob], gobs, room, start);
  }

  lemma AllPlaced(pane: seq<Gob>, gobs: seq<Gob>, room: seq<Gob>, start: nat)
    requires start <= |pane| && |room| == |gobs|
    ensures gobs[..|gobs|] == gobs
    ensures pane[..start] + gobs + room[|gobs|..] + pane[start..] == pane[..start] + gobs + pane[start..]
  {
    assert pane[..start] + gobs + [] == pane[..start] + gobs;
  }

  // The first n of the new cells hold the first n gobs, and the others what they held.
  ghost predicate Filled(pane: seq<Gob>, before: seq<Gob>, gobs: seq<Gob>, room: seq<Gob>, start: nat, n: nat) {
    && start <= |before| && n <= |gobs| == |room|
    && pane == before[..start] + gobs[..n] + room[n..] + before[start..]
  }

  lemma FilledNone(pane: seq<Gob>, before: seq<Gob>, gobs: seq<Gob>, room: seq<Gob>, start: nat)
    requires start <= |before| && |gobs| == |room| && pane == before[..start] + room + before[start..]
    ensures Filled(pane, before, gobs, room, start, 0)
  {
    assert before[..start] + [] + room == before[..start] + room;
  }

  lemma FilledMore(pane: seq<Gob>, before: seq<Gob>, gobs: seq<Gob>, room: seq<Gob>, start: nat, n: nat)
    requires Filled(pane, before, gobs, room, start, n) && n < |gobs|
    ensures start + n < |pane| && Filled(pane[start + n := gobs[n]], before, gobs, room, start, n + 1)
  {
    assert room[n..] == [room[n]] + room[n + 1..] && gobs[..n + 1] == gobs[..n] + [gobs[n]];
  }

  lemma ReparentNone(parent: map<Gob, Gob>, to: Gob)
    ensures Reparent(parent, {}, to) == parent
  {
  }

  lemma ReparentOneMore(parent: map<Gob, Gob>, gobs: seq<Gob>, n: nat, to: Gob)
    requires n < |gobs|
    ensures Reparent(parent, Elements(gobs[..n]), to)[gobs[n] := to]
            == Reparent(parent, Elements(gobs[..n + 1]), to)
  {
    assert gobs[..n + 1] == gobs[..n] + [gobs[n]];
  }

  // Insert_Gobs. `room` is what the cells hold that the pane is expanded by.
  method InsertGobs(gob: Gob, args: seq<Arg<Gob>>, index: nat, room: seq<Gob>, ghost world: set<Gob>)
      returns (outcome: Outcome)
    requires gob in world && Known(args, world) && Linked(Links(world)) && BlankPanes(world)
    requires index <= |gob.pane| && |room| == |args|
    modifies world`parent, world`pane, gob`paned
    ensures (Links(world), outcome) == Ops.InsertAny(old(Links(world)), gob, args, index, old(gob.paned), room)
    ensures BlankPanes(world)
  {
    Ops.ScanGetsThrough(Links(world), gob, args, index);
    var at;
    at, outcome := TakeOut(gob, args, index, world);
    if outcome == Inserted {
      outcome := PutIn(gob, args, at, room, world);
    }
  }

  // ---- the actions ----------------------------------------------------------

  // INSERT on a gob value at an index, and APPEND, which falls through to it.
  method Insert(gob: Gob, args: seq<Arg<Gob>>, index: nat, append: bool, room: seq<Gob>, ghost world: set<Gob>)
    requires gob in world && Known(args, world) && Linked(Links(world)) && BlankPanes(world)
    requires (append || index <= |gob.pane|) && |room| == |args|
    modifies world`parent, world`pane, gob`paned
    ensures Links(world) == Ops.InsertAny(old(Links(world)), gob, args, if append then |old(gob.pane)| else index,
                                          old(gob.paned), room).0
    ensures Ops.Distinct(args) ==>
              Links(world) == Ops.Step(old(Links(world)), if append then Ops.Append(gob, args)
                                                          else Ops.Insert(gob, args, index))
    ensures BlankPanes(world)
  {
    var tail := if gob.paned then |gob.pane| else 0;
    var at := if append then tail else index;
    Ops.InsertAnyIs(Links(world), gob, args, at, gob.paned, room);
    var outcome := InsertGobs(gob, args, at, room, world);
  }

  // REMOVE, of one gob or of a part. A length is unsigned, with `modulus` values, so a
  // negative part becomes a large one: `past` says that gobs behind the pane are removed.
  method Remove(gob: Gob, index: nat, part: int, modulus: nat, ghost world: set<Gob>) returns (past: bool)
    requires gob in world && Linked(Links(world)) && BlankPanes(world)
    requires modulus >= 0x1_0000_0000 && -0x8000_0000 <= part < 0x8000_0000
    requires index < 0x8000_0000 && |gob.pane| < 0x8000_0000
    modifies world`parent, gob`pane
    ensures past <==> part < 0 && -part <= index < |old(gob.pane)|
    ensures part >= 0 ==> Links(world) == Ops.Step(old(Links(world)), Ops.Remove(gob, index, part))
    ensures part < 0 && !past ==> Links(world) == Ops.Step(old(Links(world)), Ops.Clear(gob, index))
    ensures BlankPanes(world)
  {
    var len := LengthToRemove(if gob.paned then |gob.pane| else 0, index, part, modulus);
    past := len != 0 && index + len > |gob.pane|;
    if !past && len != 0 {
      RemoveGobs(gob, index, len, world);
    }
  }

  // Lines 1004-1007; 0 if nothing is removed.
  method LengthToRemove(tail: nat, index: nat, part: int, modulus: nat) returns (len: nat)
    requires modulus >= 0x1_0000_0000 && -0x8000_0000 <= part < 0x8000_0000
    requires index < 0x8000_0000 && tail < 0x8000_0000
    ensures index >= tail ==> len == 0
    ensures index < tail && part >= 0 ==> len == if index + part > tail then tail - index else part
    ensures index < tail && part < 0 ==> if -part <= index then len == modulus + part else len == tail - index
  {
    len := AsUnsigned(part, modulus);
    if AsUnsigned(index + len, modulus) > tail {
      len := AsUnsigned(tail - index, modulus);
    }
    if index >= tail {
      len := 0;
    }
  }

  // A sum or difference of lengths wraps around.
  function AsUnsigned(n: int, modulus: int): (r: nat)
    requires modulus > 0 && -modulus <= n < 2 * modulus
    ensures r < modulus && (r == n || r == n + modulus || r == n - modulus)
  {
    if n < 0 then n + modulus else if n >= modulus then n - modulus else n
  }

  // CLEAR, from an index on.
  method Clear(gob: Gob, index: nat, ghost world: set<Gob>)
    requires gob in world && Linked(Links(world)) && BlankPanes(world)
    modifies world`parent, gob`pane
    ensures Links(world) == Ops.Step(old(Links(world)), Ops.Clear(gob, index))
    ensures BlankPanes(world)
  {
    var tail := if gob.paned then |gob.pane| else 0;
    if tail > index {
      RemoveGobs(gob, index, tail - index, world);
    }
  }
}
