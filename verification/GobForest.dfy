// The state of a collection of gobs: who is whose parent, and which children
// each pane lists. The operations of t-gob.c as functions on that state.
module GobForest {
  import opened Wrappers

  // A gob without a parent is not a key of `parent`. Every gob has a pane.
  datatype State<G> = State(parent: map<G, G>, pane: map<G, seq<G>>)

  // ---- ancestors --------------------------------------------------------

  // The n-th ancestor.
  ghost function Up<G>(parent: map<G, G>, g: G, n: nat): Option<G> {
    if n == 0 then Some(g)
    else if g in parent then Up(parent, parent[g], n - 1)
    else None
  }

  ghost predicate AncestorOrSelf<G>(parent: map<G, G>, a: G, g: G) {
    exists n: nat :: Up(parent, g, n) == Some(a)
  }

  ghost predicate Rooted<G>(parent: map<G, G>, g: G) {
    exists n: nat :: Up(parent, g, n) == None
  }

  // Whoever follows the parents from any gob ends at a root.
  ghost predicate Forest<G>(st: State<G>) {
    forall g :: g in st.pane ==> Rooted(st.parent, g)
  }

  lemma {:induction false} UpUp<G>(parent: map<G, G>, g: G, m: nat, n: nat)
    ensures Up(parent, g, m + n) == (if Up(parent, g, m).None? then None else Up(parent, Up(parent, g, m).value, n))
    decreases m
  {
    if m > 0 && g in parent {
      UpUp(parent, parent[g], m - 1, n);
    }
  }

  // Overriding the parents of some gobs.
  ghost function Reparent<G>(parent: map<G, G>, moved: set<G>, to: G): map<G, G> {
    map g | g in parent.Keys + moved :: if g in moved then to else parent[g]
  }

  lemma ParentsAncestors<G>(parent: map<G, G>, a: G, g: G)
    requires g in parent
    ensures AncestorOrSelf(parent, a, parent[g]) ==> AncestorOrSelf(parent, a, g)
  {
    forall k: nat | Up(parent, parent[g], k) == Some(a)
      ensures AncestorOrSelf(parent, a, g)
    {
      assert Up(parent, g, k + 1) == Some(a);
    }
  }

  // A chain that avoids the moved gobs stays as it is.
  lemma {:induction false} ChainKept<G>(parent: map<G, G>, moved: set<G>, to: G, g: G, n: nat)
    requires forall a :: a in moved ==> !AncestorOrSelf(parent, a, g)
    ensures Up(Reparent(parent, moved, to), g, n) == Up(parent, g, n)
    decreases n
  {
    assert Up(parent, g, 0) == Some(g);
    assert g !in moved;
    if n > 0 && g in parent {
      forall a | a in moved
        ensures !AncestorOrSelf(parent, a, parent[g])
      {
        ParentsAncestors(parent, a, g);
      }
      ChainKept(parent, moved, to, parent[g], n - 1);
    }
  }

  lemma {:induction false} StillRooted<G>(parent: map<G, G>, moved: set<G>, to: G, g: G, n: nat)
    requires Up(parent, g, n) == None
    requires Rooted(Reparent(parent, moved, to), to)
    ensures Rooted(Reparent(parent, moved, to), g)
    decreases n
  {
    var parent' := Reparent(parent, moved, to);
    if g in moved {
      var k: nat :| Up(parent', to, k) == None;
      assert Up(parent', g, k + 1) == None;
    } else if g in parent {
      StillRooted(parent, moved, to, parent[g], n - 1);
      var k: nat :| Up(parent', parent[g], k) == None;
      assert Up(parent', g, k + 1) == None;
    } else {
      assert Up(parent', g, 1) == None;
    }
  }

  // The first moved gob met on the way up is still met afterwards.
  lemma {:induction false} FirstMoved<G>(parent: map<G, G>, moved: set<G>, to: G, g: G, k: nat)
      returns (a: G, j: nat)
    requires Up(parent, g, k).Some? && Up(parent, g, k).value in moved
    ensures a in moved && Up(Reparent(parent, moved, to), g, j) == Some(a)
    decreases k
  {
    if g in moved {
      a, j := g, 0;
    } else {
      a, j := FirstMoved(parent, moved, to, parent[g], k - 1);
      j := j + 1;
    }
  }

  // A gob that is its own ancestor has no root.
  lemma {:induction false} CycleNotRooted<G>(parent: map<G, G>, g: G, k: nat, n: nat)
    requires k > 0 && Up(parent, g, k) == Some(g)
    ensures Up(parent, g, n).Some?
    decreases n
  {
    if n >= k {
      UpUp(parent, g, k, n - k);
      CycleNotRooted(parent, g, k, n - k);
    } else {
      UpUp(parent, g, n, k - n);
    }
  }

  // Moving gobs under a target keeps the forest exactly when none of them is the
  // target or one of its ancestors.
  lemma MoveKeepsForest<G>(st: State<G>, moved: set<G>, to: G, st': State<G>)
    requires Forest(st) && to in st.pane && moved <= st.pane.Keys
    requires st'.parent == Reparent(st.parent, moved, to) && st'.pane.Keys == st.pane.Keys
    ensures Forest(st') <==> forall a :: a in moved ==> !AncestorOrSelf(st.parent, a, to)
  {
    if forall a :: a in moved ==> !AncestorOrSelf(st.parent, a, to) {
      var n: nat :| Up(st.parent, to, n) == None;
      ChainKept(st.parent, moved, to, to, n);
      forall g | g in st'.pane
        ensures Rooted(st'.parent, g)
      {
        var k: nat :| Up(st.parent, g, k) == None;
        StillRooted(st.parent, moved, to, g, k);
      }
    } else {
      var a :| a in moved && AncestorOrSelf(st.parent, a, to);
      var k: nat :| Up(st.parent, to, k) == Some(a);
      var b, j := FirstMoved(st.parent, moved, to, to, k);
      assert Up(st'.parent, b, j + 1) == Some(b);
      forall n: nat
        ensures Up(st'.parent, b, n) != None
      {
        CycleNotRooted(st'.parent, b, j + 1, n);
      }
      assert !Rooted(st'.parent, b);
    }
  }

  // Cutting parents away keeps the forest.
  lemma {:induction false} CutRooted<G>(parent: map<G, G>, cut: set<G>, g: G, n: nat)
    requires Up(parent, g, n) == None
    ensures Rooted(parent - cut, g)
    decreases n
  {
    if g in parent && g !in cut {
      CutRooted(parent, cut, parent[g], n - 1);
      var k: nat :| Up(parent - cut, parent[g], k) == None;
      assert Up(parent - cut, g, k + 1) == None;
    } else {
      assert Up(parent - cut, g, 1) == None;
    }
  }

  // ---- panes ------------------------------------------------------------

  ghost predicate NoDup<G>(s: seq<G>) {
    forall i, j :: 0 <= i < j < |s| ==> s[i] != s[j]
  }

  // The elements of s outside `out`, in order.
  ghost function Keep<G>(s: seq<G>, out: set<G>): (r: seq<G>)
    ensures |r| <= |s|
  {
    if s == [] then []
    else (if s[0] in out then [] else [s[0]]) + Keep(s[1..], out)
  }

  lemma {:induction false} KeepConcat<G>(a: seq<G>, b: seq<G>, out: set<G>)
    ensures Keep(a + b, out) == Keep(a, out) + Keep(b, out)
    decreases |a|
  {
    if a == [] {
      assert a + b == b;
    } else {
      assert (a + b)[1..] == a[1..] + b;
      KeepConcat(a[1..], b, out);
    }
  }

  lemma {:induction false} KeepMembers<G>(s: seq<G>, out: set<G>)
    ensures forall g :: g in Keep(s, out) <==> g in s && g !in out
    ensures NoDup(s) ==> NoDup(Keep(s, out))
    decreases |s|
  {
    if s != [] {
      KeepMembers(s[1..], out);
      assert s == [s[0]] + s[1..];
      if NoDup(s) {
        assert s[0] !in s[1..];
      }
    }
  }

  lemma {:induction false} KeepTwice<G>(s: seq<G>, a: set<G>, b: set<G>)
    ensures Keep(Keep(s, a), b) == Keep(s, a + b)
    decreases |s|
  {
    if s != [] {
      KeepTwice(s[1..], a, b);
      KeepConcat(if s[0] in a then [] else [s[0]], Keep(s[1..], a), b);
      assert [s[0]][1..] == [];
      assert Keep([s[0]], b) == if s[0] in b then [] else [s[0]];
    }
  }

  lemma {:induction false} KeepAll<G>(s: seq<G>, out: set<G>)
    requires forall g :: g in s ==> g !in out
    ensures Keep(s, out) == s
    decreases |s|
  {
    if s != [] {
      KeepAll(s[1..], out);
    }
  }

  lemma {:induction false} KeepNone<G>(s: seq<G>, out: set<G>)
    requires forall g :: g in s ==> g in out
    ensures Keep(s, out) == []
    decreases |s|
  {
    if s != [] {
      KeepNone(s[1..], out);
    }
  }

  ghost function Elements<G>(s: seq<G>): set<G> {
    set g | g in s
  }

  lemma SliceDisjoint<G>(s: seq<G>, i: nat, j: nat, g: G)
    requires NoDup(s) && i <= j <= |s|
    requires g in s[..i] || g in s[j..]
    ensures g !in s[i..j]
  {
    var k :| 0 <= k < |s| && !(i <= k < j) && s[k] == g;
    forall l | 0 <= l < j - i
      ensures s[i..j][l] != g
    {
      assert s[i..j][l] == s[i + l];
    }
  }

  lemma KeepMember<G>(s: seq<G>, out: set<G>, g: G)
    ensures g in Keep(s, out) <==> g in s && g !in out
  {
    KeepMembers(s, out);
  }

  // Removing one run of a duplicate-free sequence keeps the rest.
  lemma KeepCut<G>(s: seq<G>, i: nat, j: nat, out: set<G>)
    requires NoDup(s) && i <= j <= |s| && out == Elements(s[i..j])
    ensures Keep(s, out) == s[..i] + s[j..]
  {
    forall g | g in s[..i] || g in s[j..]
      ensures g !in out
    {
      SliceDisjoint(s, i, j, g);
    }
    assert s == s[..i] + (s[i..j] + s[j..]);
    KeepMiddle(s[..i], s[i..j], s[j..], out);
  }

  lemma KeepMiddle<G>(a: seq<G>, b: seq<G>, c: seq<G>, out: set<G>)
    requires forall g :: g in a ==> g !in out
    requires forall g :: g in b ==> g in out
    requires forall g :: g in c ==> g !in out
    ensures Keep(a + (b + c), out) == a + c
  {
    KeepNoneThen(b, c, out);
    KeepAll(c, out);
    KeepAll(a, out);
    KeepConcat(a, b + c, out);
  }

  lemma KeepNoneThen<G>(b: seq<G>, c: seq<G>, out: set<G>)
    requires forall g :: g in b ==> g in out
    ensures Keep(b + c, out) == Keep(c, out)
  {
    KeepConcat(b, c, out);
    KeepNone(b, out);
    assert [] + Keep(c, out) == Keep(c, out);
  }

  // ---- the invariant ----------------------------------------------------

  // A gob is in a pane exactly when its parent is that pane's owner, and then
  // it is there once; and the gobs form a forest.
  ghost predicate Linked<G>(st: State<G>) {
    && (forall g :: g in st.parent ==> g in st.pane && st.parent[g] in st.pane && g in st.pane[st.parent[g]])
    && (forall p, g :: p in st.pane && g in st.pane[p] ==> g in st.parent && st.parent[g] == p)
    && (forall p :: p in st.pane ==> NoDup(st.pane[p]))
  }

  ghost predicate Consistent<G>(st: State<G>) {
    Linked(st) && Forest(st)
  }

  // In those words.
  lemma InPaneIffParent<G>(st: State<G>, g: G, p: G)
    requires Consistent(st) && p in st.pane
    ensures g in st.pane[p] <==> g in st.parent && st.parent[g] == p
    ensures g in st.pane[p] ==> OccursOnce(st.pane[p], g)
  {
    if g in st.pane[p] {
      var i :| 0 <= i < |st.pane[p]| && st.pane[p][i] == g;
      assert OccursAt(st.pane[p], g, i);
    }
  }

  ghost predicate OccursOnce<G>(s: seq<G>, g: G) {
    exists i :: OccursAt(s, g, i)
  }

  ghost predicate OccursAt<G>(s: seq<G>, g: G, i: int) {
    0 <= i < |s| && s[i] == g && forall j :: 0 <= j < |s| && s[j] == g ==> j == i
  }

  // ---- detaching --------------------------------------------------------

  // Some gobs leave their panes and lose their parents.
  ghost function DetachAll<G>(st: State<G>, out: set<G>): State<G> {
    State(st.parent - out, map p | p in st.pane :: Keep(st.pane[p], out))
  }

  lemma DetachAllLinked<G>(st: State<G>, out: set<G>)
    requires Linked(st)
    ensures Linked(DetachAll(st, out))
  {
    var st' := DetachAll(st, out);
    forall p, g | p in st'.pane && g in st'.pane[p]
      ensures g in st'.parent && st'.parent[g] == p
    {
      KeepMember(st.pane[p], out, g);
    }
    forall g | g in st'.parent
      ensures g in st'.pane[st'.parent[g]]
    {
      KeepMembers(st.pane[st.parent[g]], out);
    }
    forall p | p in st'.pane
      ensures NoDup(st'.pane[p])
    {
      KeepMembers(st.pane[p], out);
    }
  }

  lemma DetachAllConsistent<G>(st: State<G>, out: set<G>)
    requires Consistent(st)
    ensures Consistent(DetachAll(st, out))
  {
    DetachAllLinked(st, out);
    var st' := DetachAll(st, out);
    forall g | g in st'.pane
      ensures Rooted(st'.parent, g)
    {
      var n: nat :| Up(st.parent, g, n) == None;
      CutRooted(st.parent, out, g, n);
    }
  }

  // Detaching in two steps is detaching at once.
  lemma DetachTwice<G>(st: State<G>, a: set<G>, b: set<G>)
    ensures DetachAll(DetachAll(st, a), b) == DetachAll(st, a + b)
  {
    forall p | p in st.pane
      ensures Keep(Keep(st.pane[p], a), b) == Keep(st.pane[p], a + b)
    {
      KeepTwice(st.pane[p], a, b);
    }
    assert (st.parent - a) - b == st.parent - (a + b);
    assert DetachAll(DetachAll(st, a), b).pane == DetachAll(st, a + b).pane;
  }

  // Nothing changes for gobs without a parent.
  lemma DetachRoots<G>(st: State<G>, out: set<G>)
    requires Linked(st) && forall g :: g in out ==> g !in st.parent
    ensures DetachAll(st, out) == st
  {
    forall p | p in st.pane
      ensures Keep(st.pane[p], out) == st.pane[p]
    {
      KeepAll(st.pane[p], out);
    }
    assert DetachAll(st, out).pane == st.pane;
    assert st.parent - out == st.parent;
  }

  ghost function IndexOf<G>(s: seq<G>, g: G): (i: int)
    ensures -1 <= i < |s|
    ensures i >= 0 ==> s[i] == g && forall j :: 0 <= j < i ==> s[j] != g
    ensures i < 0 ==> g !in s
  {
    if s == [] then -1
    else if s[0] == g then 0
    else var i := IndexOf(s[1..], g); if i < 0 then -1 else i + 1
  }

  // Detach_Gob: the gob is removed from its parent's pane, if it has a parent.
  ghost function Detach<G>(st: State<G>, g: G): State<G>
    requires Linked(st)
  {
    if g !in st.parent then st
    else
      var p := st.parent[g];
      var i := IndexOf(st.pane[p], g);
      State(st.parent - {g}, st.pane[p := st.pane[p][..i] + st.pane[p][i + 1..]])
  }

  lemma DetachIsDetachAll<G>(st: State<G>, g: G)
    requires Linked(st)
    ensures Detach(st, g) == DetachAll(st, {g})
  {
    if g !in st.parent {
      DetachRoots(st, {g});
    } else {
      forall q | q in st.pane
        ensures Detach(st, g).pane[q] == Keep(st.pane[q], {g})
      {
        DetachedPane(st, g, q);
      }
      assert Detach(st, g).pane == DetachAll(st, {g}).pane;
    }
  }

  lemma DetachedPane<G>(st: State<G>, g: G, q: G)
    requires Linked(st) && g in st.parent && q in st.pane
    ensures Detach(st, g).pane[q] == Keep(st.pane[q], {g})
  {
    var p := st.parent[g];
    if q == p {
      KeepAt(st.pane[p], g, IndexOf(st.pane[p], g));
    } else {
      KeepAll(st.pane[q], {g});
    }
  }

  // ---- inserting --------------------------------------------------------

  // A value in the argument list: a gob, or something else.
  datatype Arg<G> = IsGob(gob: G) | NotGob

  datatype Outcome = Inserted | AlreadyThere | BadValue | HasParent

  // The first pass over the arguments: each gob is taken out of its pane, and the
  // index follows when that is the target's own pane. A gob found just before the
  // insertion point (and not first in the pane) ends the operation; so does a
  // value that is not a gob.
  datatype Scanned<G> = Scanned(st: State<G>, index: int, outcome: Outcome)

  ghost function ScanArgs<G>(st: State<G>, target: G, args: seq<Arg<G>>, index: int): Scanned<G>
    requires Linked(st) && target in st.pane
    decreases |args|
  {
    if args == [] then Scanned(st, index, Inserted)
    else if args[0].NotGob? then Scanned(st, index, BadValue)
    else
      var g := args[0].gob;
      if g !in st.parent then ScanArgs(st, target, args[1..], index)
      else
        var i := if st.parent[g] == target then IndexOf(st.pane[target], g) else -1;
        if i > 0 && i == index - 1 then Scanned(st, index, AlreadyThere)
        else
          DetachIsDetachAll(st, g);
          DetachAllLinked(st, {g});
          ScanArgs(Detach(st, g), target, args[1..], if i >= 0 && index > i then index - 1 else index)
  }

  ghost function GobsOf<G>(args: seq<Arg<G>>): (gobs: seq<G>)
    requires forall a :: a in args ==> a.IsGob?
    ensures |gobs| == |args| && forall i :: 0 <= i < |args| ==> gobs[i] == args[i].gob
  {
    if args == [] then [] else [args[0].gob] + GobsOf(args[1..])
  }

  // The second pass: the gobs go into the pane and get their parent.
  ghost function Place<G>(st: State<G>, target: G, gobs: seq<G>, index: nat): State<G>
    requires target in st.pane && index <= |st.pane[target]|
  {
    State(Reparent(st.parent, Elements(gobs), target),
          st.pane[target := st.pane[target][..index] + gobs + st.pane[target][index..]])
  }

  // ---- what the first pass does -----------------------------------------

  // The gobs among the first m arguments.
  ghost function Out<G>(args: seq<Arg<G>>, m: nat): set<G> {
    set i | 0 <= i < m && i < |args| && args[i].IsGob? :: args[i].gob
  }

  // What is left of the pane in front of the insertion point by then.
  ghost function Before<G>(st: State<G>, target: G, args: seq<Arg<G>>, index: nat, m: nat): seq<G>
    requires target in st.pane && index <= |st.pane[target]|
  {
    Keep(st.pane[target][..index], Out(args, m))
  }

  // The m-th argument is found just before the insertion point, not first.
  ghost predicate JustBefore<G>(st: State<G>, target: G, args: seq<Arg<G>>, index: nat, m: nat)
    requires target in st.pane && index <= |st.pane[target]| && m < |args|
  {
    var left := Before(st, target, args, index, m);
    args[m].IsGob? && |left| >= 2 && left[|left| - 1] == args[m].gob
  }

  // The m-th argument ends the first pass.
  ghost predicate Stops<G>(st: State<G>, target: G, args: seq<Arg<G>>, index: nat, m: nat)
    requires target in st.pane && index <= |st.pane[target]| && m < |args|
  {
    args[m].NotGob? || JustBefore(st, target, args, index, m)
  }

  // The pass detaches the arguments up to the first that stops it, or all.
  ghost predicate ScanResult<G>(st: State<G>, target: G, args: seq<Arg<G>>, index: nat, m: nat, r: Scanned<G>)
    requires target in st.pane && index <= |st.pane[target]| && m <= |args|
  {
    && (forall j :: 0 <= j < m ==> !Stops(st, target, args, index, j))
    && r.st == DetachAll(st, Out(args, m))
    && r.index == |Before(st, target, args, index, m)|
    && (if m == |args| then r.outcome == Inserted
        else Stops(st, target, args, index, m)
             && r.outcome == if args[m].NotGob? then BadValue else AlreadyThere)
  }

  // Taking a gob out of a list that holds it at most once.
  lemma KeepOne<G>(s: seq<G>, g: G, index: nat)
    requires NoDup(s) && index <= |s|
    ensures |Keep(s[..index], {g})| == if IndexOf(s, g) >= 0 && index > IndexOf(s, g) then index - 1 else index
    ensures Keep(s[..index], {g}) <= Keep(s, {g})
  {
    KeepPrefix(s, index, {g});
    var a, i := s[..index], IndexOf(s, g);
    if i >= 0 && index > i {
      KeepAt(a, g, i);
    } else {
      KeepAll(a, {g});
    }
  }

  lemma KeepPrefix<G>(s: seq<G>, index: nat, out: set<G>)
    requires index <= |s|
    ensures Keep(s[..index], out) <= Keep(s, out)
  {
    assert s == s[..index] + s[index..];
    KeepConcat(s[..index], s[index..], out);
  }

  lemma KeepAt<G>(s: seq<G>, g: G, i: nat)
    requires NoDup(s) && i < |s| && s[i] == g
    ensures Keep(s, {g}) == s[..i] + s[i + 1..]
  {
    assert Elements(s[i..i + 1]) == {g} by {
      assert s[i..i + 1] == [g];
    }
    KeepCut(s, i, i + 1, {g});
  }

  lemma {:induction false} ScanIs<G>(st: State<G>, target: G, args: seq<Arg<G>>, index: nat) returns (m: nat)
    requires Linked(st) && target in st.pane && index <= |st.pane[target]|
    ensures m <= |args| && ScanResult(st, target, args, index, m, ScanArgs(st, target, args, index))
    decreases |args|
  {
    if args == [] || Stops(st, target, args, index, 0) {
      ScanBase(st, target, args, index);
      m := 0;
    } else {
      var st2, index2 := AfterFirst(st, target, args, index);
      var m2 := ScanIs(st2, target, args[1..], index2);
      m := m2 + 1;
      ScanStep(st, target, args, index, st2, index2, m2);
    }
  }

  lemma ScanBase<G>(st: State<G>, target: G, args: seq<Arg<G>>, index: nat)
    requires Linked(st) && target in st.pane && index <= |st.pane[target]|
    requires args == [] || Stops(st, target, args, index, 0)
    ensures ScanResult(st, target, args, index, 0, ScanArgs(st, target, args, index))
  {
    ScanNothing(st, target, args, index);
    if args != [] && args[0].IsGob? {
      FirstStops(st, target, args, index);
    }
  }

  lemma ScanStep<G>(st: State<G>, target: G, args: seq<Arg<G>>, index: nat, st2: State<G>, index2: nat, m2: nat)
    requires Linked(st) && Linked(st2) && target in st.pane && index <= |st.pane[target]|
    requires args != [] && args[0].IsGob? && st2 == Detach(st, args[0].gob) == DetachAll(st, {args[0].gob})
    requires index2 == |Keep(st.pane[target][..index], {args[0].gob})| <= |st2.pane[target]|
    requires st2.pane[target][..index2] == Keep(st.pane[target][..index], {args[0].gob})
    requires !Stops(st, target, args, index, 0)
    requires m2 <= |args| - 1
    requires ScanResult(st2, target, args[1..], index2, m2, ScanArgs(st2, target, args[1..], index2))
    ensures ScanResult(st, target, args, index, m2 + 1, ScanArgs(st, target, args, index))
  {
    ScanShift(st, target, args, index, st2, index2, m2, ScanArgs(st2, target, args[1..], index2));
    ScanUnfolds(st, target, args, index, st2, index2);
  }

  // The state and index after the first argument has been detached.
  lemma AfterFirst<G>(st: State<G>, target: G, args: seq<Arg<G>>, index: nat) returns (st2: State<G>, index2: nat)
    requires Linked(st) && target in st.pane && index <= |st.pane[target]|
    requires args != [] && args[0].IsGob?
    ensures st2 == Detach(st, args[0].gob) == DetachAll(st, {args[0].gob}) && Linked(st2)
    ensures index2 == |Keep(st.pane[target][..index], {args[0].gob})| <= |st2.pane[target]|
    ensures st2.pane[target][..index2] == Keep(st.pane[target][..index], {args[0].gob})
  {
    var g := args[0].gob;
    DetachIsDetachAll(st, g);
    DetachAllLinked(st, {g});
    KeepOne(st.pane[target], g, index);
    st2, index2 := DetachAll(st, {g}), |Keep(st.pane[target][..index], {g})|;
  }

  lemma ScanNothing<G>(st: State<G>, target: G, args: seq<Arg<G>>, index: nat)
    requires Linked(st) && target in st.pane && index <= |st.pane[target]|
    ensures DetachAll(st, Out(args, 0)) == st && |Before(st, target, args, index, 0)| == index
    ensures Before(st, target, args, index, 0) == st.pane[target][..index]
  {
    assert Out(args, 0) == {};
    KeepAll(st.pane[target][..index], {});
    DetachRoots(st, {});
  }

  lemma ScanUnfolds<G>(st: State<G>, target: G, args: seq<Arg<G>>, index: nat, st2: State<G>, index2: nat)
    requires Linked(st) && Linked(st2) && target in st.pane && target in st2.pane && index <= |st.pane[target]|
    requires args != [] && args[0].IsGob? && st2 == Detach(st, args[0].gob)
    requires index2 == |Keep(st.pane[target][..index], {args[0].gob})|
    requires !Stops(st, target, args, index, 0)
    ensures ScanArgs(st, target, args, index) == ScanArgs(st2, target, args[1..], index2)
  {
    FirstStops(st, target, args, index);
    KeepOne(st.pane[target], args[0].gob, index);
    var g := args[0].gob;
    var i := IndexOf(st.pane[target], g);
    assert i >= 0 ==> g in st.parent && st.parent[g] == target;
  }

  // The test of the code, in terms of the pane in front of the insertion point.
  lemma FirstStops<G>(st: State<G>, target: G, args: seq<Arg<G>>, index: nat)
    requires Linked(st) && target in st.pane && index <= |st.pane[target]|
    requires args != [] && args[0].IsGob?
    ensures var g := args[0].gob;
            var i := IndexOf(st.pane[target], g);
            Stops(st, target, args, index, 0)
            <==> g in st.parent && st.parent[g] == target && i > 0 && i == index - 1
  {
    ScanNothing(st, target, args, index);
    assert Before(st, target, args, index, 0) == st.pane[target][..index];
    JustBeforeIs(st, target, args[0].gob, index, st.pane[target][..index]);
  }

  lemma JustBeforeIs<G>(st: State<G>, target: G, g: G, index: nat, left: seq<G>)
    requires Linked(st) && target in st.pane && index <= |st.pane[target]|
    requires left == st.pane[target][..index]
    ensures var i := IndexOf(st.pane[target], g);
            |left| >= 2 && left[|left| - 1] == g
            <==> g in st.parent && st.parent[g] == target && i > 0 && i == index - 1
  {
    var pane := st.pane[target];
    if index >= 2 && pane[index - 1] == g {
      assert g in pane;
      assert IndexOf(pane, g) >= 0;
    }
  }

  // What stops the rest of the arguments after the first one has been detached.
  lemma ScanShift<G>(st: State<G>, target: G, args: seq<Arg<G>>, index: nat, st2: State<G>, index2: nat,
                     m2: nat, r: Scanned<G>)
    requires target in st.pane && index <= |st.pane[target]|
    requires args != [] && args[0].IsGob? && st2 == DetachAll(st, {args[0].gob})
    requires index2 <= |st2.pane[target]|
    requires st2.pane[target][..index2] == Keep(st.pane[target][..index], {args[0].gob})
    requires m2 <= |args| - 1 && ScanResult(st2, target, args[1..], index2, m2, r)
    requires !Stops(st, target, args, index, 0)
    ensures ScanResult(st, target, args, index, m2 + 1, r)
  {
    var g, left := args[0].gob, st.pane[target][..index];
    forall k | 0 <= k <= |args| - 1
      ensures Before(st, target, args, index, k + 1) == Before(st2, target, args[1..], index2, k)
    {
      OutShift(args, k);
      KeepTwice(left, {g}, Out(args[1..], k));
    }
    forall j | 0 <= j < m2 + 1
      ensures !Stops(st, target, args, index, j)
    {
      if j > 0 {
        assert !Stops(st2, target, args[1..], index2, j - 1);
        assert args[j] == args[1..][j - 1];
      }
    }
    OutShift(args, m2);
    DetachTwice(st, {g}, Out(args[1..], m2));
  }

  lemma OutShift<G>(args: seq<Arg<G>>, k: nat)
    requires args != [] && args[0].IsGob? && k <= |args| - 1
    ensures Out(args, k + 1) == {args[0].gob} + Out(args[1..], k)
  {
    forall g | g in Out(args, k + 1)
      ensures g in {args[0].gob} + Out(args[1..], k)
    {
      var i :| 0 <= i < k + 1 && args[i].IsGob? && args[i].gob == g;
      assert i > 0 ==> args[1..][i - 1] == args[i];
    }
    forall g | g in Out(args[1..], k)
      ensures g in Out(args, k + 1)
    {
      var i :| 0 <= i < k && args[1..][i].IsGob? && args[1..][i].gob == g;
      assert args[i + 1] == args[1..][i];
    }
  }
}
