// Mapping a point to the deepest gob under it, and back up (mod-gob.c).
// Coordinates are exact numbers here.
module GobMap {
  import opened GobForest
  import opened GobTree

  const MAX_DEPTH: nat := 1000

  // Lines 108-113: the point is on the child, whose parent is at (x, y).
  ghost predicate Hit(child: Gob, xo: real, yo: real, x: real, y: real)
    reads child
  {
    && x + child.x <= xo < x + child.x + child.w
    && y + child.y <= yo < y + child.y + child.h
  }

  // The topmost child that is hit: the last one in the pane; -1 if there is none.
  ghost predicate IsTopHit(pane: seq<Gob>, xo: real, yo: real, x: real, y: real, k: int)
    reads pane
  {
    && -1 <= k < |pane|
    && (k >= 0 ==> Hit(pane[k], xo, yo, x, y))
    && forall j :: k < j < |pane| ==> !Hit(pane[j], xo, yo, x, y)
  }

  ghost function TopHit(pane: seq<Gob>, xo: real, yo: real, x: real, y: real): (k: int)
    reads pane
    ensures IsTopHit(pane, xo, yo, x, y, k)
  {
    if pane == [] then -1
    else if Hit(pane[|pane| - 1], xo, yo, x, y) then |pane| - 1
    else TopHit(pane[..|pane| - 1], xo, yo, x, y)
  }

  lemma TopHitUnique(pane: seq<Gob>, xo: real, yo: real, x: real, y: real, k: int)
    requires IsTopHit(pane, xo, yo, x, y, k)
    ensures k == TopHit(pane, xo, yo, x, y)
  {
  }

  ghost predicate Closed(world: set<Gob>)
    reads world
  {
    forall g, i :: g in world && 0 <= i < |g.pane| ==> g.pane[i] in world
  }

  // The gobs from `gob`, which is at (x, y), down to the deepest one under the point.
  ghost function Descent(gob: Gob, xo: real, yo: real, x: real, y: real, depth: nat, world: set<Gob>): (path: seq<Gob>)
    requires gob in world && Closed(world)
    reads world
    ensures path != [] && path[0] == gob && |path| <= depth + 1
    ensures forall g :: g in path ==> g in world
    decreases depth
  {
    var k := TopHit(gob.pane, xo, yo, x, y);
    if depth == 0 || k < 0 then [gob]
    else [gob] + Descent(gob.pane[k], xo, yo, x + gob.pane[k].x, y + gob.pane[k].y, depth - 1, world)
  }

  // The offset of the last gob of a path from the first.
  ghost function SumX(path: seq<Gob>): real
    reads path
  {
    if |path| <= 1 then 0.0 else path[1].x + SumX(path[1..])
  }

  ghost function SumY(path: seq<Gob>): real
    reads path
  {
    if |path| <= 1 then 0.0 else path[1].y + SumY(path[1..])
  }

  ghost function Last(path: seq<Gob>): Gob
    requires path != []
  {
    path[|path| - 1]
  }

  // Map_Gob_Inner.
  method MapGobInner(start: Gob, xo0: real, yo0: real, ghost world: set<Gob>)
      returns (gob: Gob, xo: real, yo: real)
    requires start in world && Closed(world) && BlankPanes(world)
    ensures var path := Descent(start, xo0, yo0, 0.0, 0.0, MAX_DEPTH, world);
            && gob == Last(path) && xo == xo0 - SumX(path) && yo == yo0 - SumY(path)
            && path[0] == start && |path| <= 1001 && TopmostAllTheWay(path, xo0, yo0, world)
            && (|path| <= 1000 ==>
                  forall c :: c in gob.pane ==> !(c.x <= xo < c.x + c.w && c.y <= yo < c.y + c.h))
  {
    var x, y;
    gob, x, y := WalkDown(start, xo0, yo0, 0.0, 0.0, MAX_DEPTH, world);
    xo := xo0 - x;
    yo := yo0 - y;
    ghost var path := Descent(start, xo0, yo0, 0.0, 0.0, MAX_DEPTH, world);
    DescentIsTopmost(start, xo0, yo0, 0.0, 0.0, xo0, yo0, MAX_DEPTH, world, path);
    if |path| <= 1000 {
      EndsFreeAt(path, xo0, yo0, world);
    }
  }

  // Each gob of the path is the last child of the one before that the point is on, in the
  // coordinates of that gob.
  ghost predicate TopmostAllTheWay(path: seq<Gob>, px: real, py: real, world: set<Gob>)
    requires Closed(world) && forall g :: g in path ==> g in world
    reads world
  {
    |path| > 1 ==>
      && (exists k :: IsTopmost(path[0], path[1], k, px, py))
      && TopmostAllTheWay(path[1..], px - path[1].x, py - path[1].y, world)
  }

  ghost predicate IsTopmost(gob: Gob, child: Gob, k: int, px: real, py: real)
    reads gob, gob.pane
  {
    && 0 <= k < |gob.pane| && gob.pane[k] == child
    && child.x <= px < child.x + child.w && child.y <= py < child.y + child.h
    && forall j :: k < j < |gob.pane| ==>
         var c := gob.pane[j];
         !(c.x <= px < c.x + c.w && c.y <= py < c.y + c.h)
  }

  // No child is under the point.
  ghost predicate NoneUnder(gob: Gob, px: real, py: real)
    reads gob, gob.pane
  {
    forall c :: c in gob.pane ==> !(c.x <= px < c.x + c.w && c.y <= py < c.y + c.h)
  }

  // No child of the last gob is.
  ghost predicate EndsFree(path: seq<Gob>, px: real, py: real, world: set<Gob>)
    requires path != [] && Closed(world) && forall g :: g in path ==> g in world
    reads world
  {
    if |path| == 1 then NoneUnder(path[0], px, py) else EndsFree(path[1..], px - path[1].x, py - path[1].y, world)
  }

  lemma {:induction false} EndsFreeAt(path: seq<Gob>, px: real, py: real, world: set<Gob>)
    requires path != [] && Closed(world) && (forall g :: g in path ==> g in world) && EndsFree(path, px, py, world)
    ensures NoneUnder(Last(path), px - SumX(path), py - SumY(path))
    decreases |path|
  {
    if |path| > 1 {
      var rest := path[1..];
      EndsFreeAt(rest, px - path[1].x, py - path[1].y, world);
      SameNone(Last(rest), px - path[1].x - SumX(rest), px - SumX(path), py - path[1].y - SumY(rest), py - SumY(path));
    }
  }

  lemma SameNone(gob: Gob, ax: real, bx: real, ay: real, bz: real)
    requires ax == bx && ay == bz && NoneUnder(gob, ax, ay)
    ensures NoneUnder(gob, bx, bz)
  {
  }

  lemma {:induction false} DescentIsTopmost(gob: Gob, xo: real, yo: real, x: real, y: real, px: real, py: real,
                                            depth: nat, world: set<Gob>, path: seq<Gob>)
    requires gob in world && Closed(world) && px == xo - x && py == yo - y
    requires path == Descent(gob, xo, yo, x, y, depth, world)
    ensures TopmostAllTheWay(path, px, py, world) && (|path| <= depth ==> EndsFree(path, px, py, world))
    decreases depth
  {
    var k := TopHit(gob.pane, xo, yo, x, y);
    HitsPlainly(gob, xo, yo, x, y, k, px, py);
    if depth > 0 && k >= 0 {
      var rest := DescentRest(gob, xo, yo, x, y, depth, world, k, path);
      var child := path[1];
      DescentIsTopmost(child, xo, yo, x + child.x, y + child.y, px - child.x, py - child.y, depth - 1, world, rest);
      TopmostStep(path, rest, k, px, py, px - child.x, py - child.y, world);
    }
  }

  lemma DescentRest(gob: Gob, xo: real, yo: real, x: real, y: real, depth: nat, world: set<Gob>, k: int,
                    path: seq<Gob>) returns (rest: seq<Gob>)
    requires gob in world && Closed(world) && depth > 0 && k == TopHit(gob.pane, xo, yo, x, y) && k >= 0
    requires path == Descent(gob, xo, yo, x, y, depth, world)
    ensures |path| > 1 && path[0] == gob && path[1] == gob.pane[k] && path[1] in world && rest == path[1..]
    ensures rest == Descent(path[1], xo, yo, x + path[1].x, y + path[1].y, depth - 1, world)
  {
    rest := Descent(gob.pane[k], xo, yo, x + gob.pane[k].x, y + gob.pane[k].y, depth - 1, world);
  }

  lemma TopmostStep(path: seq<Gob>, rest: seq<Gob>, k: int, px: real, py: real, qx: real, qy: real, world: set<Gob>)
    requires Closed(world) && |path| > 1 && rest == path[1..] && forall g :: g in path ==> g in world
    requires IsTopmost(path[0], path[1], k, px, py) && qx == px - path[1].x && qy == py - path[1].y
    requires TopmostAllTheWay(rest, qx, qy, world)
    ensures TopmostAllTheWay(path, px, py, world)
    ensures EndsFree(rest, qx, qy, world) ==> EndsFree(path, px, py, world)
  {
  }

  lemma HitsPlainly(gob: Gob, xo: real, yo: real, x: real, y: real, k: int, px: real, py: real)
    requires k == TopHit(gob.pane, xo, yo, x, y) && px == xo - x && py == yo - y
    ensures k >= 0 ==> IsTopmost(gob, gob.pane[k], k, px, py)
    ensures k < 0 ==> NoneUnder(gob, px, py)
  {
  }

  // Lines 97-122, with the depth and the offset to start from.
  method WalkDown(start: Gob, xo: real, yo: real, x0: real, y0: real, depth: nat, ghost world: set<Gob>)
      returns (gob: Gob, x: real, y: real)
    requires start in world && Closed(world) && BlankPanes(world)
    ensures Ends(start, xo, yo, x0, y0, depth, gob, x, y, world)
  {
    var maxDepth: nat := depth;
    gob, x, y := start, x0, y0;
    while gob.paned && maxDepth > 0
      invariant gob in world && Closed(world) && BlankPanes(world)
      invariant Arrives(start, xo, yo, x0, y0, depth, gob, x, y, maxDepth, world)
      decreases maxDepth
    {
      var found;
      found, gob, x, y, maxDepth := DownTurn(start, xo, yo, x0, y0, depth, gob, x, y, maxDepth, world);
      if !found {
        return;
      }
    }
    ArrivedHere(start, xo, yo, x0, y0, depth, gob, x, y, maxDepth, world);
  }

  // Lines 98-121: from the last child to the first.
  method DownTurn(ghost start: Gob, xo: real, yo: real, ghost x0: real, ghost y0: real, ghost depth0: nat,
                  gob: Gob, x: real, y: real, depth: nat, ghost world: set<Gob>)
      returns (found: bool, gob': Gob, x': real, y': real, depth': nat)
    requires start in world && gob in world && Closed(world) && BlankPanes(world) && depth > 0
    requires Arrives(start, xo, yo, x0, y0, depth0, gob, x, y, depth, world)
    ensures Closed(world) && BlankPanes(world) && gob' in world
    ensures found ==> Arrives(start, xo, yo, x0, y0, depth0, gob', x', y', depth', world) && depth' < depth
    ensures !found ==> Ends(start, xo, yo, x0, y0, depth0, gob', x', y', world)
  {
    var n := |gob.pane| - 1;
    while n >= 0
      invariant -1 <= n < |gob.pane|
      invariant forall j :: n < j < |gob.pane| ==> !Hit(gob.pane[j], xo, yo, x, y)
    {
      var child := gob.pane[n];
      if xo >= x + child.x && xo < x + child.x + child.w && yo >= y + child.y && yo < y + child.y + child.h {
        break;
      }
      n := n - 1;
    }
    TopHitUnique(gob.pane, xo, yo, x, y, n);
    if n < 0 {
      ArrivedHere(start, xo, yo, x0, y0, depth0, gob, x, y, depth, world);
      return false, gob, x, y, depth;
    }
    var child := gob.pane[n];
    ArrivesBelow(start, xo, yo, x0, y0, depth0, gob, x, y, depth, n, world);
    return true, child, x + child.x, y + child.y, depth - 1;
  }

  lemma ArrivedHere(start: Gob, xo: real, yo: real, x0: real, y0: real, depth0: nat,
                    gob: Gob, x: real, y: real, depth: nat, world: set<Gob>)
    requires start in world && gob in world && Closed(world)
    requires Arrives(start, xo, yo, x0, y0, depth0, gob, x, y, depth, world)
    requires gob.pane == [] || depth == 0 || TopHit(gob.pane, xo, yo, x, y) < 0
    ensures Ends(start, xo, yo, x0, y0, depth0, gob, x, y, world)
  {
    StopHere(gob, xo, yo, x, y, depth, world);
  }

  lemma ArrivesBelow(start: Gob, xo: real, yo: real, x0: real, y0: real, depth0: nat,
                     gob: Gob, x: real, y: real, depth: nat, n: int, world: set<Gob>)
    requires start in world && gob in world && Closed(world) && depth > 0
    requires Arrives(start, xo, yo, x0, y0, depth0, gob, x, y, depth, world)
    requires n == TopHit(gob.pane, xo, yo, x, y) && n >= 0
    ensures var child := gob.pane[n];
            Arrives(start, xo, yo, x0, y0, depth0, child, x + child.x, y + child.y, depth - 1, world)
  {
    StepDown(gob, xo, yo, x, y, depth, n, world);
  }

  // The descent from `start` ends at this gob, with the point in its coordinates.
  ghost predicate Ends(start: Gob, xo: real, yo: real, x0: real, y0: real, depth: nat, gob: Gob, x: real, y: real,
                       world: set<Gob>)
    requires start in world && Closed(world)
    reads world
  {
    var path := Descent(start, xo, yo, x0, y0, depth, world);
    gob == Last(path) && x == x0 + SumX(path) && y == y0 + SumY(path)
  }

  // Going on from a later gob gets to the same place.
  ghost predicate Arrives(start: Gob, xo: real, yo: real, x0: real, y0: real, depth0: nat,
                          gob: Gob, x: real, y: real, depth: nat, world: set<Gob>)
    requires start in world && gob in world && Closed(world)
    reads world
  {
    var path, left := Descent(start, xo, yo, x0, y0, depth0, world), Descent(gob, xo, yo, x, y, depth, world);
    Last(left) == Last(path) && x + SumX(left) == x0 + SumX(path) && y + SumY(left) == y0 + SumY(path)
  }

  lemma StepDown(gob: Gob, xo: real, yo: real, x: real, y: real, depth: nat, n: int, world: set<Gob>)
    requires gob in world && Closed(world) && n == TopHit(gob.pane, xo, yo, x, y) && n >= 0 && depth > 0
    ensures var child := gob.pane[n];
            var path, rest := Descent(gob, xo, yo, x, y, depth, world),
                              Descent(child, xo, yo, x + child.x, y + child.y, depth - 1, world);
            Last(path) == Last(rest) && SumX(path) == child.x + SumX(rest) && SumY(path) == child.y + SumY(rest)
  {
    var child := gob.pane[n];
    var rest := Descent(child, xo, yo, x + child.x, y + child.y, depth - 1, world);
    assert ([gob] + rest)[1..] == rest;
  }

  lemma StopHere(gob: Gob, xo: real, yo: real, x: real, y: real, depth: nat, world: set<Gob>)
    requires gob in world && Closed(world)
    requires gob.pane == [] || depth == 0 || TopHit(gob.pane, xo, yo, x, y) < 0
    ensures var path := Descent(gob, xo, yo, x, y, depth, world);
            Last(path) == gob && SumX(path) == 0.0 && SumY(path) == 0.0
  {
  }

  // The deepest gob contains the point, in its own coordinates.
  lemma {:induction false} DeepestContains(gob: Gob, xo: real, yo: real, x: real, y: real, depth: nat, world: set<Gob>)
    requires gob in world && Closed(world)
    ensures var path := Descent(gob, xo, yo, x, y, depth, world);
            |path| > 1 ==>
              && 0.0 <= xo - x - SumX(path) < Last(path).w
              && 0.0 <= yo - y - SumY(path) < Last(path).h
    decreases depth
  {
    var k := TopHit(gob.pane, xo, yo, x, y);
    if depth > 0 && k >= 0 {
      var child := gob.pane[k];
      var rest := Descent(child, xo, yo, x + child.x, y + child.y, depth - 1, world);
      DeepestContains(child, xo, yo, x + child.x, y + child.y, depth - 1, world);
      assert ([gob] + rest)[1..] == rest;
    }
  }

  // ---- back up --------------------------------------------------------------

  // The /reverse walk: add offsets up to a root or a window.
  ghost function Climb(gob: Gob, xo: real, yo: real, depth: nat, world: set<Gob>): (Gob, real, real)
    requires gob in world && ParentsKnown(world)
    reads world
    decreases depth
  {
    if gob.parent == null || depth == 0 || gob.window then (gob, xo, yo)
    else Climb(gob.parent, xo + gob.x, yo + gob.y, depth - 1, world)
  }

  ghost predicate ParentsKnown(world: set<Gob>)
    reads world
  {
    forall g :: g in world && g.parent != null ==> g.parent in world
  }

  // map-gob-offset with /reverse.
  method MapReverse(start: Gob, xo0: real, yo0: real, ghost world: set<Gob>) returns (gob: Gob, xo: real, yo: real)
    requires start in world && ParentsKnown(world)
    ensures (gob, xo, yo) == Climb(start, xo0, yo0, MAX_DEPTH, world)
  {
    var maxDepth: int := MAX_DEPTH;
    gob, xo, yo := start, xo0, yo0;
    while gob.parent != null && maxDepth > 0 && !gob.window
      invariant gob in world && 0 <= maxDepth
      invariant Climb(gob, xo, yo, maxDepth, world) == Climb(start, xo0, yo0, MAX_DEPTH, world)
      decreases maxDepth
    {
      maxDepth := maxDepth - 1;
      xo := xo + gob.x;
      yo := yo + gob.y;
      gob := gob.parent;
    }
  }

  // A path down the tree: each gob is the parent of the next.
  ghost predicate IsChain(path: seq<Gob>)
    reads path
  {
    path != [] && forall i :: 0 <= i < |path| - 1 ==> path[i + 1].parent == path[i]
  }

  lemma {:induction false} DescentIsChain(gob: Gob, xo: real, yo: real, x: real, y: real, depth: nat, world: set<Gob>)
    requires gob in world && Closed(world) && Linked(Links(world))
    ensures IsChain(Descent(gob, xo, yo, x, y, depth, world))
    decreases depth
  {
    var k := TopHit(gob.pane, xo, yo, x, y);
    if depth > 0 && k >= 0 {
      var child := gob.pane[k];
      var rest := Descent(child, xo, yo, x + child.x, y + child.y, depth - 1, world);
      DescentIsChain(child, xo, yo, x + child.x, y + child.y, depth - 1, world);
      ChildOf(child, gob, world);
      var path := [gob] + rest;
      forall i | 0 <= i < |path| - 1
        ensures path[i + 1].parent == path[i]
      {
        if i > 0 {
          assert rest[i].parent == rest[i - 1];
        }
      }
    }
  }

  lemma TailIsChain(path: seq<Gob>)
    requires IsChain(path) && |path| > 1
    ensures IsChain(path[1..])
  {
    var rest := path[1..];
    forall i | 0 <= i < |rest| - 1
      ensures rest[i + 1].parent == rest[i]
    {
      assert path[i + 1 + 1].parent == path[i + 1];
    }
  }

  // No gob of the path below the first is a window.
  ghost predicate NoWindowBelow(path: seq<Gob>)
    reads path
  {
    forall i :: 1 <= i < |path| ==> !path[i].window
  }

  // Climbing from the end of a path without windows leads back to its start.
  lemma {:induction false} ClimbBack(path: seq<Gob>, xo: real, yo: real, depth: nat, world: set<Gob>)
    requires IsChain(path) && NoWindowBelow(path) && |path| - 1 <= depth
    requires ParentsKnown(world) && forall g :: g in path ==> g in world
    ensures Climb(Last(path), xo - SumX(path), yo - SumY(path), depth, world)
            == Climb(path[0], xo, yo, depth - (|path| - 1), world)
    decreases |path|
  {
    if |path| > 1 {
      var rest := path[1..];
      TailIsChain(path);
      assert forall i :: 1 <= i < |rest| ==> rest[i] == path[i + 1];
      ClimbBack(rest, xo - path[1].x, yo - path[1].y, depth, world);
      assert rest[0].parent == path[0];
    }
  }

  // With a window below the start, the climb ends at a gob that has a parent.
  lemma {:induction false} ClimbStops(path: seq<Gob>, xo: real, yo: real, depth: nat, world: set<Gob>)
    requires IsChain(path) && !NoWindowBelow(path) && |path| - 1 <= depth
    requires ParentsKnown(world) && forall g :: g in path ==> g in world
    ensures Climb(Last(path), xo - SumX(path), yo - SumY(path), depth, world).0.parent != null
    decreases |path|
  {
    var rest := path[1..];
    TailIsChain(path);
    assert rest[0].parent == path[0];
    if NoWindowBelow(rest) {
      ClimbBack(rest, xo - path[1].x, yo - path[1].y, depth, world);
      assert rest[0].window by {
        var i :| 1 <= i < |path| && path[i].window;
        assert i > 1 ==> rest[i - 1] == path[i];
      }
    } else {
      ClimbStops(rest, xo - path[1].x, yo - path[1].y, depth, world);
    }
  }

  // Mapping a point down from a root and then back up returns the root and the
  // point, exactly when no gob on the way is a window.
  lemma DownAndUp(root: Gob, xo: real, yo: real, world: set<Gob>)
    requires root in world && Linked(Links(world)) && root.parent == null
    ensures Closed(world) && ParentsKnown(world)
    ensures var path := Descent(root, xo, yo, 0.0, 0.0, MAX_DEPTH, world);
            Climb(Last(path), xo - SumX(path), yo - SumY(path), MAX_DEPTH, world) == (root, xo, yo)
            <==> NoWindowBelow(path)
  {
    LinkedIsClosed(world);
    var path := Descent(root, xo, yo, 0.0, 0.0, MAX_DEPTH, world);
    DescentIsChain(root, xo, yo, 0.0, 0.0, MAX_DEPTH, world);
    if NoWindowBelow(path) {
      ClimbBack(path, xo, yo, MAX_DEPTH, world);
    } else {
      ClimbStops(path, xo, yo, MAX_DEPTH, world);
    }
  }

  lemma LinkedIsClosed(world: set<Gob>)
    requires Linked(Links(world))
    ensures Closed(world) && ParentsKnown(world)
  {
    forall g, i | g in world && 0 <= i < |g.pane|
      ensures g.pane[i] in world
    {
      ChildOf(g.pane[i], g, world);
    }
    forall g | g in world && g.parent != null
      ensures g.parent in world
    {
      InParentsPane(g, world);
    }
  }
}
