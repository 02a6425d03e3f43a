// What TO-LOCAL/FULL means: the path normalised, from the current directory or a root.
module PathNormal {
  import opened PathLocal
  import opened PathResolve

  // The current directory as a file path: `/names.../`, on Windows `/drive/names.../`.
  function Cwd(windows: bool, drive: char, names: seq<Text>): Text {
    (if windows then "/" + [drive] + "/" else "/") + Joined(names, '/')
  }

  function CwdPlace(windows: bool, drive: char, names: seq<Text>): Place {
    Place(if windows then [drive, ':', '\\'] else "/", names)
  }

  // Where a path starts from, and where its first name is.
  function Start(path: Text, windows: bool, here: Place): (r: (Place, nat))
    ensures r.1 <= |path|
  {
    if At(path, 0) != '/' then (here, 0)
    else if windows && |path| > 1 && path[1] != '/' then
      if At(path, 2) == '/' then (Place([path[1], ':', '\\'], []), 3) else (Place("\\\\", []), 1)
    else (Place([Sep(windows)], []), 1)
  }

  // The names of a path after where it starts.
  function PathNames(path: Text, windows: bool): (r: seq<Text>)
    ensures r != []
  {
    Names(path[Start(path, windows, Place([], [])).1..])
  }

  predicate IsCwd(windows: bool, drive: char, names: seq<Text>) {
    && (windows ==> drive !in {NUL, '/', '\\'})
    && forall name :: name in names ==> IsName(name, '/') && IsName(name, Sep(windows))
  }

  lemma DriveIsRoot(c: char)
    ensures IsRoot([c, ':', '\\'], '\\') && IsRoot("\\\\", '\\')
  {
    assert Cut([c, ':', '\\'], '\\', 1) == Cut([c, ':', '\\'], '\\', 0);
  }

  lemma CwdIsPlace(windows: bool, drive: char, names: seq<Text>)
    requires IsCwd(windows, drive, names)
    ensures Local(Cwd(windows, drive, names), false, windows, []) == Show(CwdPlace(windows, drive, names), Sep(windows))
    ensures Proper(CwdPlace(windows, drive, names), Sep(windows))
  {
    var cwd, sep := Cwd(windows, drive, names), Sep(windows);
    var root := CwdPlace(windows, drive, names).root;
    assert cwd[Head(cwd, false, windows, []).1..] == Joined(names, '/');
    if windows {
      JoinedNoBackslash(names);
      DriveIsRoot(drive);
    }
    LoopsSqueeze(root, Joined(names, '/'), sep);
    SqueezedJoined(names, sep);
  }

  lemma {:induction false} JoinedNoBackslash(names: seq<Text>)
    requires forall name :: name in names ==> '\\' !in name
    ensures '\\' !in Joined(names, '/')
  {
    if names != [] {
      assert names[0] in names;
      JoinedNoBackslash(names[1..]);
    }
  }

  // For every path: the in-place editing follows the names from where the path starts.
  lemma FullResolves(path: Text, windows: bool, drive: char, names: seq<Text>)
    requires IsCwd(windows, drive, names) && NoSep(path, Sep(windows))
    ensures Local(path, true, windows, Cwd(windows, drive, names))
            == Resolved(Start(path, windows, CwdPlace(windows, drive, names)).0, PathNames(path, windows),
                false, Sep(windows))
  {
    var (p, i) := Start(path, windows, CwdPlace(windows, drive, names));
    HeadIsStart(path, windows, drive, names);
    assert forall c :: c in path[i..] ==> c in path;
    LoopsResolve(p, path[i..], false, Sep(windows));
  }

  lemma HeadIsStart(path: Text, windows: bool, drive: char, names: seq<Text>)
    requires IsCwd(windows, drive, names)
    ensures var (p, i) := Start(path, windows, CwdPlace(windows, drive, names));
            Proper(p, Sep(windows)) && Head(path, true, windows, Cwd(windows, drive, names))
                == (Show(p, Sep(windows)), i)
  {
    var (p, i) := Start(path, windows, CwdPlace(windows, drive, names));
    CwdIsPlace(windows, drive, names);
    if At(path, 0) == '/' {
      DriveIsRoot(At(path, 1));
      assert Show(p, Sep(windows)) == p.root;
    }
  }

  // ---- whether it is cut right --------------------------------------------------

  // Every cut with FULL is right exactly if each `..` obeyed on the way is.
  lemma FullCutsRight(path: Text, windows: bool, drive: char, names: seq<Text>, prior: nat)
    requires IsCwd(windows, drive, names) && NoSep(path, Sep(windows))
    ensures LocalCuts(path, true, windows, Cwd(windows, drive, names), prior)
            <==> BacksCut(Start(path, windows, CwdPlace(windows, drive, names)).0, PathNames(path, windows), false,
                Sep(windows), prior)
  {
    var (p, i) := Start(path, windows, CwdPlace(windows, drive, names));
    HeadIsStart(path, windows, drive, names);
    assert forall c :: c in path[i..] ==> c in path;
    LoopsCut(p, path[i..], false, Sep(windows), prior);
  }

  predicate IsAscii(s: Text) {
    forall c :: c in s ==> c as int < 0x80
  }

  // In particular if all characters are single bytes.
  lemma AsciiCutsRight(path: Text, windows: bool, drive: char, names: seq<Text>)
    requires IsCwd(windows, drive, names) && NoSep(path, Sep(windows))
    requires IsAscii(path) && forall name :: name in names ==> IsAscii(name)
    ensures LocalCuts(path, true, windows, Cwd(windows, drive, names), 1)
  {
    var (p, i) := Start(path, windows, CwdPlace(windows, drive, names));
    FullCutsRight(path, windows, drive, names, 1);
    HeadIsStart(path, windows, drive, names);
    assert forall c :: c in path[i..] ==> c in path;
    NamesHaveOnly(path[i..], Sep(windows));
    AsciiNames(path[i..]);
    AsciiBacks(p, PathNames(path, windows), false, Sep(windows));
  }

  predicate AsciiRoot(root: Text) {
    |root| > 1 ==> root[|root| - 2] as int < 0x80
  }

  lemma {:induction false} AsciiNames(s: Text)
    requires IsAscii(s)
    ensures forall name :: name in Names(s) ==> IsAscii(name)
    decreases |s|
  {
    var n := SegLen(s);
    assert forall c :: c in s[..n] ==> c in s;
    if n < |s| {
      var rest := s[n + 1..];
      forall c | c in rest
        ensures c as int < 0x80
      {
        assert c in s;
      }
      AsciiNames(rest);
      assert Names(s) == [s[..n]] + Names(rest);
    }
  }

  lemma {:induction false} AsciiBacks(p: Place, names: seq<Text>, literal: bool, sep: char)
    requires Proper(p, sep) && AreNames(names, sep) && AsciiRoot(p.root)
    requires (forall name :: name in p.names ==> IsAscii(name)) && forall name :: name in names ==> IsAscii(name)
    ensures BacksCut(p, names, literal, sep, 1)
    decreases |names|
  {
    if names != [] {
      assert names[0] in names;
      var n := |p.names|;
      assert n > 1 ==> p.names[n - 2] in p.names && p.names[n - 2][|p.names[n - 2]| - 1] in p.names[n - 2];
      AsciiBacks(Enter(p, names[0], literal, sep), names[1..], names[0] == "", sep);
    }
  }

  // From `/\U{E9}/`, going into b and back cuts the text to two bytes, one short of what
  // is left: in the middle of the letter.
  lemma CutWithinCharacter(prior: nat)
    ensures !LocalCuts("b/..", true, false, Cwd(false, 'C', ["\U{E9}"]), prior)
    ensures CutSize("/\U{E9}/b/", 2, prior) == 2 && Bytes("/\U{E9}/b/"[..2]) == 3
  {
    var e: Text, b: Text := "\U{E9}", "b";
    var path: Text := "b/..";
    var names: seq<Text> := [b, ".."];
    assert IsName(e, '/');
    SegLenIs(path, 1);
    SegLenIs("..", 2);
    assert path[..1] == b && path[2..] == ".." && Names(path) == [b] + Names("..") && Names("..") == [".."];
    FullCutsRight(path, false, 'C', [e], prior);
    var p := Place("/", [e]);
    assert names[1..] == [".."] && [e] + [b] == [e, b];
    assert Enter(p, b, false, '/') == Place("/", [e, b]);
    assert !UpCuts(Place("/", [e, b]), prior);
    var out: Text := "/\U{E9}/b/";
    assert out[..1] == "/" && out[..2] == "/\U{E9}" && out[..2][..1] == "/" && out[..1][..0] == "";
  }

  // ---- the plain meaning ------------------------------------------------------

  // `.` stays, `..` goes up, an empty name is skipped, any other name goes down.
  function Walk(p: Place, names: seq<Text>, sep: char): Place
    decreases |names|
  {
    if names == [] then p else Walk(Enter(p, names[0], false, sep), names[1..], sep)
  }

  function Normal(p: Place, names: seq<Text>, sep: char): Text
    requires names != []
  {
    var n := |names| - 1;
    if IsFile(names[n], false) then Show(Walk(p, names[..n], sep), sep) + names[n] else Show(Walk(p, names, sep), sep)
  }

  // No `.` or `..` comes directly after an empty name.
  predicate DotsSeen(names: seq<Text>, literal: bool) {
    && (literal && names != [] ==> !IsDot(names[0]))
    && forall i :: 0 <= i < |names| - 1 && names[i] == "" ==> !IsDot(names[i + 1])
  }

  lemma {:induction false} ResolvedIsNormal(p: Place, names: seq<Text>, literal: bool, sep: char)
    requires names != [] && DotsSeen(names, literal)
    ensures Resolved(p, names, literal, sep) == Normal(p, names, sep)
    decreases |names|
  {
    var next := Enter(p, names[0], literal, sep);
    assert next == Enter(p, names[0], false, sep);
    var rest, n := names[1..], |names| - 1;
    if n > 0 {
      forall i | 0 <= i < |rest| - 1 && rest[i] == ""
        ensures !IsDot(rest[i + 1])
      {
        assert names[i + 1] == rest[i];
      }
      assert rest[0] == names[0 + 1];
      ResolvedIsNormal(next, rest, names[0] == "", sep);
      assert names[..n][1..] == rest[..n - 1];
    } else {
      assert names[..0] == [] && rest == [];
      assert Walk(p, names, sep) == Walk(next, rest, sep) == next;
    }
  }

  lemma SeenIsNormal(path: Text, windows: bool, drive: char, names: seq<Text>)
    requires IsCwd(windows, drive, names) && NoSep(path, Sep(windows))
    requires DotsSeen(PathNames(path, windows), false)
    ensures Local(path, true, windows, Cwd(windows, drive, names))
            == Normal(Start(path, windows, CwdPlace(windows, drive, names)).0, PathNames(path, windows), Sep(windows))
  {
    FullResolves(path, windows, drive, names);
    ResolvedIsNormal(Start(path, windows, CwdPlace(windows, drive, names)).0, PathNames(path, windows), false,
        Sep(windows));
  }

  // Without doubled slashes every dot name is seen.
  lemma {:induction false} NoDoubledNoEmpty(s: Text)
    requires !Doubled(s) && (s == [] || s[0] != '/')
    ensures forall i :: 0 <= i < |Names(s)| - 1 ==> Names(s)[i] != ""
    ensures DotsSeen(Names(s), false)
    decreases |s|
  {
    var n := SegLen(s);
    if n < |s| {
      var rest := s[n + 1..];
      assert rest != [] ==> rest[0] == s[n + 1];
      forall i | 0 <= i < |rest| - 1
        ensures !(rest[i] == '/' == rest[i + 1])
      {
        assert s[n + 1 + i] == rest[i] && s[n + 1 + i + 1] == rest[i + 1];
      }
      NoDoubledNoEmpty(rest);
      assert Names(s)[1..] == Names(rest);
      forall i | 0 <= i < |Names(s)| - 1
        ensures Names(s)[i] != ""
      {
        assert i > 0 ==> Names(s)[i] == Names(rest)[i - 1];
      }
    }
  }

  lemma PlainPathsAreNormalised(path: Text, drive: char, names: seq<Text>)
    requires IsCwd(false, drive, names) && !Doubled(path)
    ensures Local(path, true, false, Cwd(false, drive, names))
            == Normal(if At(path, 0) == '/' then Place("/", []) else Place("/", names), PathNames(path, false), '/')
  {
    var i := Start(path, false, Place([], [])).1;
    var rest := path[i..];
    forall k | 0 <= k < |rest| - 1
      ensures !(rest[k] == '/' == rest[k + 1])
    {
      assert path[i + k] == rest[k] && path[i + k + 1] == rest[k + 1];
    }
    assert i == 1 && rest != [] ==> path[0] == '/' && rest[0] == path[0 + 1];
    NoDoubledNoEmpty(rest);
    SeenIsNormal(path, false, drive, names);
  }

  // ---- how deep the code goes, and how deep the path means ------------------------

  // A number of directories, and whether the walk has been above where it started.
  datatype Level = Level(depth: nat, above: bool)

  function Sink(l: Level, name: Text, literal: bool): Level {
    if name == "" then l
    else if literal || !IsDot(name) then l.(depth := l.depth + 1)
    else if name == "." then l
    else if l.depth == 0 then Level(0, true)
    else l.(depth := l.depth - 1)
  }

  // The code takes a name directly after an empty one literally.
  function CodeLevel(l: Level, names: seq<Text>, literal: bool): Level
    decreases |names|
  {
    if names == [] then l else CodeLevel(Sink(l, names[0], literal), names[1..], names[0] == "")
  }

  function MeantLevel(l: Level, names: seq<Text>): Level
    decreases |names|
  {
    if names == [] then l else MeantLevel(Sink(l, names[0], false), names[1..])
  }

  function CodeWalk(p: Place, names: seq<Text>, literal: bool, sep: char): Place
    decreases |names|
  {
    if names == [] then p else CodeWalk(Enter(p, names[0], literal, sep), names[1..], names[0] == "", sep)
  }

  ghost predicate AtLevel(p: Place, l: Level, root: Text, sep: char) {
    |p.names| == l.depth && p.root == if l.above then [sep] else root
  }

  lemma {:induction false} LevelsOfWalks(p: Place, l: Level, q: Place, m: Level, root: Text, names: seq<Text>,
                                         literal: bool, sep: char)
    requires AtLevel(p, l, root, sep) && AtLevel(q, m, root, sep)
    ensures AtLevel(CodeWalk(p, names, literal, sep), CodeLevel(l, names, literal), root, sep)
    ensures AtLevel(Walk(q, names, sep), MeantLevel(m, names), root, sep)
    decreases |names|
  {
    if names != [] {
      LevelsOfWalks(Enter(p, names[0], literal, sep), Sink(l, names[0], literal), Enter(q, names[0], false, sep),
          Sink(m, names[0], false), root, names[1..], names[0] == "", sep);
    }
  }

  // A sequence is what is left of another when some elements are taken out.
  predicate Within<T(==)>(a: seq<T>, b: seq<T>) {
    a == [] ||
    (b != [] && (Within(a, b[..|b| - 1]) || (a[|a| - 1] == b[|b| - 1] && Within(a[..|a| - 1], b[..|b| - 1]))))
  }

  lemma {:induction false} WithinSame<T>(a: seq<T>, b: seq<T>)
    requires Within(a, b)
    ensures |a| <= |b| && (|a| == |b| ==> a == b)
    decreases |b|
  {
    if a != [] {
      var init := b[..|b| - 1];
      if Within(a, init) {
        WithinSame(a, init);
      } else {
        WithinSame(a[..|a| - 1], init);
        assert a == a[..|a| - 1] + [a[|a| - 1]] && b == init + [b[|b| - 1]];
      }
    }
  }

  lemma {:induction false} WithinShorter<T>(a: seq<T>, b: seq<T>)
    requires a != [] && Within(a, b)
    ensures Within(a[..|a| - 1], b) && Within(a[..|a| - 1], b[..|b| - 1])
    decreases |b|
  {
    if Within(a, b[..|b| - 1]) {
      WithinShorter(a, b[..|b| - 1]);
    }
  }

  lemma WithinPush<T>(a: seq<T>, b: seq<T>, x: T)
    requires Within(a, b)
    ensures Within(a, b + [x]) && Within(a + [x], b + [x])
  {
    assert (b + [x])[..|b|] == b && (a + [x])[..|a|] == a;
  }

  // The directories that the path means are among those that the code puts out.
  lemma {:induction false} WalksNest(p: Place, q: Place, names: seq<Text>, literal: bool, sep: char)
    requires Within(q.names, p.names)
    ensures Within(Walk(q, names, sep).names, CodeWalk(p, names, literal, sep).names)
    decreases |names|
  {
    if names != [] {
      WithinPush(q.names, p.names, names[0]);
      if q.names != [] {
        WithinShorter(q.names, p.names);
      }
      if q.names != [] && literal {
        WithinPush(q.names[..|q.names| - 1], p.names, names[0]);
      }
      WalksNest(Enter(p, names[0], literal, sep), Enter(q, names[0], false, sep), names[1..], names[0] == "", sep);
    }
  }

  lemma {:induction false} WithinItself<T>(a: seq<T>)
    ensures Within(a, a)
  {
    if a != [] {
      WithinItself(a[..|a| - 1]);
    }
  }

  // Code and meaning end in the same directory exactly if they end equally deep, and
  // have both or neither been above a root that is not the only one.
  predicate LevelsAgree(p: Place, names: seq<Text>, literal: bool, sep: char) {
    var code, meant := CodeLevel(Level(|p.names|, false), names, literal), MeantLevel(Level(|p.names|, false), names);
    code.depth == meant.depth && (p.root == [sep] || code.above == meant.above)
  }

  lemma SameDirectory(p: Place, names: seq<Text>, literal: bool, sep: char)
    ensures CodeWalk(p, names, literal, sep) == Walk(p, names, sep) <==> LevelsAgree(p, names, literal, sep)
  {
    var l := Level(|p.names|, false);
    LevelsOfWalks(p, l, p, l, p.root, names, literal, sep);
    WithinItself(p.names);
    WalksNest(p, p, names, literal, sep);
    WithinSame(Walk(p, names, sep).names, CodeWalk(p, names, literal, sep).names);
  }

  // ---- the text of a walk ---------------------------------------------------------

  predicate AfterEmpty(names: seq<Text>, literal: bool, i: nat)
    requires i < |names|
  {
    if i == 0 then literal else names[i - 1] == ""
  }

  lemma {:induction false} ResolvedIsWalk(p: Place, names: seq<Text>, literal: bool, sep: char)
    requires names != []
    ensures var n := |names| - 1;
            var dir, lit := CodeWalk(p, names[..n], literal, sep), AfterEmpty(names, literal, n);
            && CodeWalk(p, names, literal, sep) == Enter(dir, names[n], lit, sep)
            && Resolved(p, names, literal, sep)
               == if IsFile(names[n], lit) then Show(dir, sep) + names[n]
                  else Show(CodeWalk(p, names, literal, sep), sep)
    decreases |names|
  {
    var n := |names| - 1;
    if n > 0 {
      ResolvedIsWalk(Enter(p, names[0], literal, sep), names[1..], names[0] == "", sep);
      assert names[..n][1..] == names[1..][..n - 1];
    }
  }

  lemma {:induction false} WalkSnoc(p: Place, names: seq<Text>, sep: char)
    requires names != []
    ensures Walk(p, names, sep) == Enter(Walk(p, names[..|names| - 1], sep), names[|names| - 1], false, sep)
    decreases |names|
  {
    var n := |names| - 1;
    if n > 0 {
      WalkSnoc(Enter(p, names[0], false, sep), names[1..], sep);
      assert names[..n][1..] == names[1..][..n - 1];
    } else {
      assert names[1..] == [] && names[..0] == [];
    }
  }

  predicate NoneHas(names: seq<Text>, sep: char) {
    forall name :: name in names ==> sep !in name
  }

  lemma FirstCut(x: Text, y: Text, s: Text, t: Text, sep: char)
    requires sep !in x && sep !in y && x + [sep] + s == y + [sep] + t
    ensures x == y && s == t
  {
    var a, b := x + [sep] + s, y + [sep] + t;
    assert a[|x|] == sep && b[|y|] == sep;
    assert forall j :: 0 <= j < |x| ==> a[j] == x[j] != sep;
    assert forall j :: 0 <= j < |y| ==> b[j] == y[j] != sep;
    assert |x| == |y|;
    assert a[..|x|] == x && b[..|y|] == y && a[|x| + 1..] == s && b[|y| + 1..] == t;
  }

  lemma {:induction false} JoinedSame(a: seq<Text>, b: seq<Text>, sep: char)
    requires NoneHas(a, sep) && NoneHas(b, sep) && Joined(a, sep) == Joined(b, sep)
    ensures a == b
  {
    if a != [] && b != [] {
      FirstCut(a[0], b[0], Joined(a[1..], sep), Joined(b[1..], sep), sep);
      JoinedSame(a[1..], b[1..], sep);
      assert a == [a[0]] + a[1..] && b == [b[0]] + b[1..];
    }
  }

  // A root that no directory under [sep] begins with.
  predicate Marked(root: Text, sep: char) {
    root == [sep] || root == [sep, sep] || (root != [] && root[0] != sep)
  }

  predicate Under(p: Place, root: Text, sep: char) {
    Proper(p, sep) && p.root in {root, [sep]}
  }

  lemma ShowSame(p: Place, q: Place, root: Text, sep: char)
    requires Under(p, root, sep) && Under(q, root, sep) && Marked(root, sep)
    ensures Show(p, sep) == Show(q, sep) <==> p == q
  {
    if Show(p, sep) == Show(q, sep) {
      if p.root == q.root {
        assert Show(p, sep)[|p.root|..] == Joined(p.names, sep) && Show(q, sep)[|q.root|..] == Joined(q.names, sep);
        JoinedSame(p.names, q.names, sep);
      } else if p.root == [sep] {
        RootsDiffer(q, p, sep);
      } else {
        RootsDiffer(p, q, sep);
      }
    }
  }

  lemma RootsDiffer(p: Place, q: Place, sep: char)
    requires Proper(p, sep) && Proper(q, sep) && q.root == [sep] != p.root && Marked(p.root, sep)
    ensures Show(p, sep) != Show(q, sep)
  {
    assert Show(p, sep)[..|p.root|] == p.root && Show(q, sep)[0] == sep;
    if p.root == [sep, sep] && q.names != [] {
      assert q.names[0] in q.names;
      assert Show(q, sep)[1] == q.names[0][0] != sep;
    }
  }

  predicate AreNames(names: seq<Text>, sep: char) {
    forall name :: name in names ==> name == "" || IsName(name, sep)
  }

  lemma {:induction false} WalksStayUnder(p: Place, q: Place, root: Text, names: seq<Text>, literal: bool, sep: char)
    requires Under(p, root, sep) && Under(q, root, sep) && AreNames(names, sep)
    ensures Under(CodeWalk(p, names, literal, sep), root, sep) && Under(Walk(q, names, sep), root, sep)
    decreases |names|
  {
    if names != [] {
      assert names[0] in names;
      WalksStayUnder(Enter(p, names[0], literal, sep), Enter(q, names[0], false, sep), root, names[1..],
          names[0] == "", sep);
    }
  }

  lemma EnterSame(p: Place, q: Place, name: Text, sep: char)
    requires !IsDot(name)
    ensures Enter(p, name, false, sep) == Enter(q, name, false, sep) <==> p == q
    ensures Enter(p, name, true, sep) == Enter(p, name, false, sep)
  {
    var a, b := p.names + [name], q.names + [name];
    assert a[..|a| - 1] == p.names && b[..|b| - 1] == q.names;
  }

  // This name is a dot that is copied: it comes directly after an empty one.
  predicate HiddenAt(names: seq<Text>, literal: bool, i: nat)
    requires i < |names|
  {
    IsDot(names[i]) && AfterEmpty(names, literal, i)
  }

  lemma ResolvedExactly(p: Place, names: seq<Text>, literal: bool, sep: char)
    requires names != [] && Proper(p, sep) && Marked(p.root, sep) && AreNames(names, sep) && sep != '.'
    ensures Resolved(p, names, literal, sep) == Normal(p, names, sep)
            <==> !HiddenAt(names, literal, |names| - 1) && LevelsAgree(p, names, literal, sep)
  {
    var n := |names| - 1;
    assert forall name :: name in names[..n] ==> name in names;
    var c, w := CodeWalk(p, names[..n], literal, sep), Walk(p, names[..n], sep);
    ResolvedIsWalk(p, names, literal, sep);
    WalkSnoc(p, names, sep);
    WalksStayUnder(p, p, p.root, names[..n], literal, sep);
    WalksStayUnder(p, p, p.root, names, literal, sep);
    SameDirectory(p, names, literal, sep);
    LastDecides(c, w, names[n], AfterEmpty(names, literal, n), p.root, sep);
  }

  // What a last name adds to two directories.
  lemma LastDecides(c: Place, w: Place, last: Text, literal: bool, root: Text, sep: char)
    requires Under(c, root, sep) && Under(w, root, sep) && Marked(root, sep) && sep != '.'
    requires Under(Enter(c, last, literal, sep), root, sep) && Under(Enter(w, last, false, sep), root, sep)
    ensures var c', w' := Enter(c, last, literal, sep), Enter(w, last, false, sep);
            (if IsFile(last, literal) then Show(c, sep) + last else Show(c', sep))
            == (if IsFile(last, false) then Show(w, sep) + last else Show(w', sep))
            <==> !(IsDot(last) && literal) && c' == w'
  {
    var c', w' := Enter(c, last, literal, sep), Enter(w, last, false, sep);
    if !IsDot(last) {
      EnterSame(c, w, last, sep);
      ShowSame(c, w, root, sep);
      SameSuffix(Show(c, sep), Show(w, sep), last);
    } else if literal {
      ShowEnds(w', sep);
      assert (Show(c, sep) + last)[|Show(c, sep) + last| - 1] == '.';
    } else {
      ShowSame(c', w', root, sep);
    }
  }

  lemma SameSuffix(a: Text, b: Text, s: Text)
    ensures a + s == b + s <==> a == b
  {
    if a + s == b + s {
      assert |a| == |b| && (a + s)[..|a|] == a && (b + s)[..|b|] == b;
    }
  }

  // TO-LOCAL/FULL gives the plain meaning exactly if the last name is no hidden dot,
  // and the names with hidden dots copied end as deep as with all dots obeyed.
  lemma FullIsNormal(path: Text, windows: bool, drive: char, names: seq<Text>)
    requires IsCwd(windows, drive, names) && NoSep(path, Sep(windows))
    ensures var p, all := Start(path, windows, CwdPlace(windows, drive, names)).0, PathNames(path, windows);
            Local(path, true, windows, Cwd(windows, drive, names)) == Normal(p, all, Sep(windows))
            <==> !HiddenAt(all, false, |all| - 1) && LevelsAgree(p, all, false, Sep(windows))
  {
    var (p, i) := Start(path, windows, CwdPlace(windows, drive, names));
    FullResolves(path, windows, drive, names);
    HeadIsStart(path, windows, drive, names);
    StartIsMarked(path, windows, drive, names);
    NamesHaveOnly(path[i..], Sep(windows));
    ResolvedExactly(p, PathNames(path, windows), false, Sep(windows));
  }

  lemma StartIsMarked(path: Text, windows: bool, drive: char, names: seq<Text>)
    requires IsCwd(windows, drive, names) && NoSep(path, Sep(windows))
    ensures Marked(Start(path, windows, CwdPlace(windows, drive, names)).0.root, Sep(windows))
  {
    assert |path| > 1 ==> path[1] in path;
  }

  lemma {:induction false} NamesHaveOnly(s: Text, sep: char)
    requires NoSep(s, sep)
    ensures AreNames(Names(s), sep)
    decreases |s|
  {
    var n := SegLen(s);
    NamesHaveNoSlash(s);
    if n < |s| {
      assert forall c :: c in s[n + 1..] ==> c in s;
      assert forall c :: c in s[..n] ==> c in s;
      NamesHaveOnly(s[n + 1..], sep);
      assert Names(s) == [s[..n]] + Names(s[n + 1..]);
    }
  }

  // ---- the result is normal ---------------------------------------------------

  predicate IsPlain(name: Text) {
    name != "" && '/' !in name && !IsDot(name)
  }

  predicate AllPlain(names: seq<Text>) {
    forall name :: name in names ==> IsPlain(name)
  }

  lemma NamesHaveNoSlash(s: Text)
    ensures forall name :: name in Names(s) ==> '/' !in name
    decreases |s|
  {
    var n := SegLen(s);
    if n < |s| {
      NamesHaveNoSlash(s[n + 1..]);
    } else {
      assert s[..n] == s;
    }
  }

  // On POSIX a walk from plain names ends at plain names under `/`: never above the root.
  lemma {:induction false} WalkStaysPlain(p: Place, names: seq<Text>)
    requires p.root == "/" && AllPlain(p.names) && forall name :: name in names ==> '/' !in name
    ensures Walk(p, names, '/').root == "/" && AllPlain(Walk(p, names, '/').names)
    decreases |names|
  {
    if names != [] {
      assert names[0] in names;
      WalkStaysPlain(Enter(p, names[0], false, '/'), names[1..]);
    }
  }

  lemma NormalIsPlain(p: Place, names: seq<Text>) returns (q: Place, file: Text)
    requires p.root == "/" && AllPlain(p.names) && names != [] && forall name :: name in names ==> '/' !in name
    ensures q.root == "/" && AllPlain(q.names) && (file == "" || IsPlain(file))
    ensures Normal(p, names, '/') == Show(q, '/') + file
  {
    var n := |names| - 1;
    if IsFile(names[n], false) {
      q, file := Walk(p, names[..n], '/'), names[n];
      assert names[n] in names;
      WalkStaysPlain(p, names[..n]);
    } else {
      q, file := Walk(p, names, '/'), "";
      WalkStaysPlain(p, names);
    }
  }

  function Unsplit(names: seq<Text>): Text
    requires names != []
  {
    if |names| == 1 then names[0] else names[0] + ['/'] + Unsplit(names[1..])
  }

  lemma {:induction false} UnsplitIsJoined(names: seq<Text>, file: Text)
    ensures Unsplit(names + [file]) == Joined(names, '/') + file
    decreases |names|
  {
    var all := names + [file];
    if names == [] {
      assert all == [file];
    } else {
      UnsplitIsJoined(names[1..], file);
      assert all[1..] == names[1..] + [file];
      var tail := Joined(names[1..], '/');
      assert names[0] + ['/'] + (tail + file) == names[0] + ['/'] + tail + file;
    }
  }

  lemma NamesStep(name: Text, rest: Text)
    requires '/' !in name
    ensures Names(name + ['/'] + rest) == [name] + Names(rest)
  {
    var s := name + ['/'] + rest;
    assert s[..|name|] == name;
    SegLenIs(s, |name|);
    assert s[|name| + 1..] == rest;
  }

  lemma {:induction false} NamesOfUnsplit(names: seq<Text>)
    requires names != [] && forall name :: name in names ==> '/' !in name
    ensures Names(Unsplit(names)) == names
    decreases |names|
  {
    assert names[0] in names;
    if |names| == 1 {
      SegLenIs(names[0], |names[0]|);
    } else {
      NamesOfUnsplit(names[1..]);
      NamesStep(names[0], Unsplit(names[1..]));
    }
  }

  lemma NamesOfJoined(names: seq<Text>, file: Text)
    requires NoneHas(names, '/') && '/' !in file
    ensures Names(Joined(names, '/') + file) == names + [file]
  {
    UnsplitIsJoined(names, file);
    NamesOfUnsplit(names + [file]);
  }

  lemma {:induction false} PlainWalk(p: Place, names: seq<Text>, file: Text, sep: char)
    requires AllPlain(names) && (file == "" || IsPlain(file))
    ensures Resolved(p, names + [file], false, sep) == Show(p.(names := p.names + names), sep) + file
    decreases |names|
  {
    var all := names + [file];
    if names == [] {
      assert p.names + names == p.names;
    } else {
      assert names[0] in names;
      assert all[1..] == names[1..] + [file];
      var next := p.(names := p.names + [names[0]]);
      PlainWalk(next, names[1..], file, sep);
      assert next.names + names[1..] == p.names + names;
    }
  }

  // Starts at the root; no name is `.` or `..`, and none is empty but perhaps the last.
  predicate IsNormalised(out: Text) {
    && out != [] && out[0] == '/'
    && AllPlain(Init(Names(out[1..])))
    && (Last(Names(out[1..])) == "" || IsPlain(Last(Names(out[1..]))))
  }

  function Init(names: seq<Text>): seq<Text>
    requires names != []
  {
    names[..|names| - 1]
  }

  function Last(names: seq<Text>): Text
    requires names != []
  {
    names[|names| - 1]
  }

  lemma ShownNames(q: Place, file: Text)
    requires q.root == "/" && NoneHas(q.names, '/') && '/' !in file
    ensures var out := Show(q, '/') + file;
            && out != [] && out[0] == '/' && Names(out[1..]) == q.names + [file]
            && PathNames(out, false) == Names(out[1..])
  {
    var out := Show(q, '/') + file;
    assert out[1..] == Joined(q.names, '/') + file;
    NamesOfJoined(q.names, file);
  }

  lemma ShownIsNormalised(q: Place, file: Text)
    requires q.root == "/" && NoneHas(q.names, '/') && '/' !in file
    ensures IsNormalised(Show(q, '/') + file) <==> AllPlain(q.names) && (file == "" || IsPlain(file))
  {
    ShownNames(q, file);
    InitLast(q.names, file);
  }

  lemma InitLast(names: seq<Text>, file: Text)
    ensures Init(names + [file]) == names && Last(names + [file]) == file
  {
  }

  lemma {:induction false} UnsplitNames(s: Text)
    ensures Unsplit(Names(s)) == s
    decreases |s|
  {
    var n := SegLen(s);
    if n < |s| {
      var rest := s[n + 1..];
      UnsplitNames(rest);
      UnsplitStep(s[..n], Names(rest));
      SplitAt(s, n);
    }
  }

  lemma SplitAt(s: Text, n: nat)
    requires n < |s| && s[n] == '/'
    ensures s == s[..n] + ['/'] + s[n + 1..]
  {
  }

  lemma UnsplitStep(name: Text, names: seq<Text>)
    requires names != []
    ensures Unsplit([name] + names) == name + ['/'] + Unsplit(names)
  {
    assert ([name] + names)[1..] == names;
  }

  // A normalised path stays as it is, wherever the current directory is.
  lemma NormalisedIsStable(out: Text, drive: char, names: seq<Text>)
    requires IsCwd(false, drive, names) && IsNormalised(out)
    ensures Local(out, true, false, Cwd(false, drive, names)) == out
  {
    var s := out[1..];
    FullResolves(out, false, drive, names);
    assert Init(Names(s)) + [Last(Names(s))] == Names(s);
    StableNames(Init(Names(s)), Last(Names(s)));
    UnsplitNames(s);
    assert "/" + s == out;
  }

  lemma StableNames(names: seq<Text>, file: Text)
    requires AllPlain(names) && (file == "" || IsPlain(file))
    ensures Resolved(Place("/", []), names + [file], false, '/') == "/" + Unsplit(names + [file])
  {
    PlainWalk(Place("/", []), names, file, '/');
    assert [] + names == names;
    UnsplitIsJoined(names, file);
    var joined := Joined(names, '/');
    assert "/" + joined + file == "/" + (joined + file);
  }

  // ---- when the result is normalised ------------------------------------------------

  // A directory name with this many below it is backed out of by these names.
  predicate BackedOut(names: seq<Text>, literal: bool, depth: nat) {
    CodeLevel(Level(depth, false), names, literal).above
  }

  lemma {:induction false} StaysAbove(l: Level, names: seq<Text>, literal: bool)
    requires l.above
    ensures CodeLevel(l, names, literal).above
    decreases |names|
  {
    if names != [] {
      StaysAbove(Sink(l, names[0], literal), names[1..], names[0] == "");
    }
  }

  // Every hidden dot is backed out of by the names after it.
  predicate HiddenBackedOut(names: seq<Text>, literal: bool) {
    forall i :: 0 <= i < |names| && HiddenAt(names, literal, i) ==> BackedOut(names[i + 1..], false, 0)
  }

  // Every directory name that is a dot is backed out of.
  predicate DotsBackedOut(p: Place, names: seq<Text>, literal: bool) {
    forall k :: 0 <= k < |p.names| && !IsPlain(p.names[k]) ==> BackedOut(names, literal, |p.names| - 1 - k)
  }

  lemma HiddenShift(names: seq<Text>, literal: bool, i: nat)
    requires i < |names| - 1
    ensures HiddenAt(names[1..], names[0] == "", i) <==> HiddenAt(names, literal, i + 1)
    ensures BackedOut(names[1..][i + 1..], false, 0) <==> BackedOut(names[i + 2..], false, 0)
  {
    assert names[1..][i + 1..] == names[i + 2..];
  }

  lemma HiddenLater(names: seq<Text>, literal: bool)
    requires names != []
    ensures HiddenBackedOut(names, literal) <==>
            && (HiddenAt(names, literal, 0) ==> BackedOut(names[1..], false, 0))
            && HiddenBackedOut(names[1..], names[0] == "")
  {
    var rest, lit := names[1..], names[0] == "";
    if HiddenBackedOut(names, literal) {
      forall i | 0 <= i < |rest| && HiddenAt(rest, lit, i)
        ensures BackedOut(rest[i + 1..], false, 0)
      {
        HiddenShift(names, literal, i);
        assert HiddenAt(names, literal, i + 1);
      }
    }
    if HiddenBackedOut(rest, lit) && (HiddenAt(names, literal, 0) ==> BackedOut(rest, false, 0)) {
      forall i | 0 <= i < |names| && HiddenAt(names, literal, i)
        ensures BackedOut(names[i + 1..], false, 0)
      {
        if i > 0 {
          HiddenShift(names, literal, i - 1);
          assert HiddenAt(rest, lit, i - 1);
        }
      }
    }
  }

  lemma DotsLater(p: Place, names: seq<Text>, literal: bool, sep: char)
    requires names != [] && '/' !in names[0]
    ensures DotsBackedOut(p, names, literal) && (HiddenAt(names, literal, 0) ==> BackedOut(names[1..], false, 0))
            <==> DotsBackedOut(Enter(p, names[0], literal, sep), names[1..], names[0] == "")
  {
    var name := names[0];
    if name != "" && (literal || !IsDot(name)) {
      PushedDots(p, Enter(p, name, literal, sep), names, literal);
    } else if name == ".." {
      PoppedDots(p, Enter(p, name, literal, sep), names);
    } else {
      StayingDots(p, names, literal);
    }
  }

  lemma StayingDots(p: Place, names: seq<Text>, literal: bool)
    requires names != [] && (names[0] == "" || (names[0] == "." && !literal))
    ensures DotsBackedOut(p, names, literal) <==> DotsBackedOut(p, names[1..], names[0] == "")
  {
    forall d: nat
      ensures BackedOut(names, literal, d) <==> BackedOut(names[1..], names[0] == "", d)
    {
    }
  }

  lemma PoppedDots(p: Place, q: Place, names: seq<Text>)
    requires names != [] && names[0] == ".."
    requires q.names == if p.names == [] then [] else p.names[..|p.names| - 1]
    ensures DotsBackedOut(p, names, false) <==> DotsBackedOut(q, names[1..], false)
  {
    var n, rest := |p.names|, names[1..];
    StaysAbove(Level(0, true), rest, false);
    assert BackedOut(names, false, 0);
    forall k | 0 <= k < n - 1
      ensures q.names[k] == p.names[k]
      ensures BackedOut(names, false, n - 1 - k) <==> BackedOut(rest, false, |q.names| - 1 - k)
    {
    }
  }

  lemma PushedDots(p: Place, q: Place, names: seq<Text>, literal: bool)
    requires names != [] && '/' !in names[0] && names[0] != "" && (literal || !IsDot(names[0]))
    requires q.names == p.names + [names[0]]
    ensures DotsBackedOut(p, names, literal) && (HiddenAt(names, literal, 0) ==> BackedOut(names[1..], false, 0))
            <==> DotsBackedOut(q, names[1..], false)
  {
    var n, rest := |p.names|, names[1..];
    forall k | 0 <= k < n
      ensures q.names[k] == p.names[k]
      ensures BackedOut(names, literal, n - 1 - k) <==> BackedOut(rest, false, |q.names| - 1 - k)
    {
    }
    assert q.names[n] == names[0];
  }

  lemma {:induction false} WalkPlainExactly(p: Place, names: seq<Text>, literal: bool, sep: char)
    requires forall name :: name in names ==> '/' !in name
    ensures AllPlain(CodeWalk(p, names, literal, sep).names)
            <==> HiddenBackedOut(names, literal) && DotsBackedOut(p, names, literal)
    decreases |names|
  {
    if names != [] {
      assert names[0] in names;
      WalkPlainExactly(Enter(p, names[0], literal, sep), names[1..], names[0] == "", sep);
      HiddenLater(names, literal);
      DotsLater(p, names, literal, sep);
    }
  }

  // Whether the code's walk goes above where the path starts.
  predicate GoesAbove(path: Text, windows: bool, here: Place) {
    CodeLevel(Level(|Start(path, windows, here).0.names|, false), PathNames(path, windows), false).above
  }

  function DepthOf(path: Text, windows: bool, here: Place): nat {
    CodeLevel(Level(|Start(path, windows, here).0.names|, false), PathNames(path, windows), false).depth
  }

  // What TO-LOCAL/FULL puts out: a directory under the start's root or, once above
  // it, under the separator alone; and a file.
  lemma FullShown(path: Text, windows: bool, drive: char, names: seq<Text>) returns (dir: Place, file: Text)
    requires IsCwd(windows, drive, names) && AllPlain(names) && NoSep(path, Sep(windows))
    ensures var here, sep := CwdPlace(windows, drive, names), Sep(windows);
            var root := Start(path, windows, here).0.root;
            && Under(dir, root, sep) && dir.root == (if GoesAbove(path, windows, here) then [sep] else root)
            && |dir.names| + (if file == "" then 0 else 1) == DepthOf(path, windows, here)
            && (file == "" || IsName(file, sep))
            && Local(path, true, windows, Cwd(windows, drive, names)) == Show(dir, sep) + file
    ensures AllPlain(dir.names) && (file == "" || IsPlain(file)) <==> HiddenBackedOut(PathNames(path, windows), false)
    ensures ComeFrom(dir, file, Start(path, windows, CwdPlace(windows, drive, names)).0, PathNames(path, windows))
  {
    var sep := Sep(windows);
    var (p, i) := Start(path, windows, CwdPlace(windows, drive, names));
    FullResolves(path, windows, drive, names);
    HeadIsStart(path, windows, drive, names);
    assert forall c :: c in path[i..] ==> c in path;
    NamesHaveOnly(path[i..], sep);
    NamesHaveNoSlash(path[i..]);
    dir, file := WalkShown(p, PathNames(path, windows), sep);
  }

  // The names put out are the path's or those where it starts.
  predicate ComeFrom(dir: Place, file: Text, p: Place, names: seq<Text>) {
    && (file == "" || file in names)
    && forall name :: name in dir.names ==> name in p.names || name in names
  }

  lemma WalkShown(p: Place, names: seq<Text>, sep: char) returns (dir: Place, file: Text)
    requires names != [] && Proper(p, sep) && AreNames(names, sep) && AllPlain(p.names)
    requires forall name :: name in names ==> '/' !in name
    ensures Under(dir, p.root, sep) && (file == "" || IsName(file, sep)) && ComeFrom(dir, file, p, names)
    ensures AtLevel(if file == "" then dir else dir.(names := dir.names + [file]),
                CodeLevel(Level(|p.names|, false), names, false), p.root, sep)
    ensures Resolved(p, names, false, sep) == Show(dir, sep) + file
    ensures AllPlain(dir.names) && (file == "" || IsPlain(file)) <==> HiddenBackedOut(names, false)
  {
    var n, l := |names| - 1, Level(|p.names|, false);
    var to, last := CodeWalk(p, names, false, sep), names[n];
    LevelsOfWalks(p, l, p, l, p.root, names, false, sep);
    ResolvedIsWalk(p, names, false, sep);
    WalkPlainExactly(p, names, false, sep);
    DotsOfPlain(p, names);
    WalksStayUnder(p, p, p.root, names, false, sep);
    WalkNames(p, names, false, sep);
    if IsFile(last, AfterEmpty(names, false, n)) {
      dir, file := CodeWalk(p, names[..n], false, sep), last;
      FileInLast(dir, last, to, p.root, sep);
    } else {
      dir, file := to, "";
      assert Show(dir, sep) + "" == Show(dir, sep);
    }
  }

  lemma DotsOfPlain(p: Place, names: seq<Text>)
    requires AllPlain(p.names)
    ensures DotsBackedOut(p, names, false)
  {
  }

  // A file is the last name of the directory that it would be.
  lemma FileInLast(dir: Place, file: Text, to: Place, root: Text, sep: char)
    requires to == dir.(names := dir.names + [file]) && Under(to, root, sep)
    ensures Under(dir, root, sep) && IsName(file, sep)
    ensures AllPlain(to.names) <==> AllPlain(dir.names) && IsPlain(file)
    ensures forall name :: name in dir.names + [file] ==> name in to.names
  {
    PlainPush(dir.names, file);
    assert file in to.names && forall name :: name in dir.names ==> name in to.names;
  }

  lemma {:induction false} WalkNames(p: Place, names: seq<Text>, literal: bool, sep: char)
    ensures forall name :: name in CodeWalk(p, names, literal, sep).names ==> name in p.names || name in names
    decreases |names|
  {
    if names != [] {
      WalkNames(Enter(p, names[0], literal, sep), names[1..], names[0] == "", sep);
      assert names == [names[0]] + names[1..];
    }
  }

  lemma PlainPush(names: seq<Text>, name: Text)
    ensures AllPlain(names + [name]) <==> AllPlain(names) && IsPlain(name)
  {
    if AllPlain(names + [name]) {
      assert forall x :: x in names ==> x in names + [name];
      assert name in names + [name];
    }
  }

  // The result is normalised exactly if every hidden dot is backed out of later.
  lemma FullIsNormalised(path: Text, drive: char, names: seq<Text>)
    requires AllPlain(names)
    ensures IsNormalised(Local(path, true, false, Cwd(false, drive, names)))
            <==> HiddenBackedOut(PathNames(path, false), false)
  {
    var dir, file := FullShown(path, false, drive, names);
    ShownIsNormalised(dir, file);
  }

  // Without its final slash the result ends in no other, and the root is empty.
  lemma NoTailSlash(path: Text, drive: char, names: seq<Text>, out: Text)
    requires AllPlain(names)
    requires var text := Local(path, true, false, Cwd(false, drive, names));
             if Ends(text, '/') then out + ['/'] == text else out == text
    ensures !Ends(out, '/')
    ensures out == "" <==> Local(path, true, false, Cwd(false, drive, names)) == "/"
  {
    var dir, file := FullShown(path, false, drive, names);
    if file == "" {
      assert Show(dir, '/') + file == Show(dir, '/');
      DirStripped(dir, out);
    } else {
      assert file[|file| - 1] in file;
    }
  }

  lemma DirStripped(dir: Place, out: Text)
    requires Under(dir, "/", '/') && (if Ends(Show(dir, '/'), '/') then out + ['/'] else out) == Show(dir, '/')
    ensures !Ends(out, '/') && (out == "" <==> Show(dir, '/') == "/")
  {
    var text := Show(dir, '/');
    ShowEnds(dir, '/');
    BeforeLastSep(dir, '/');
    assert out == text[..|text| - 1];
    if dir.names != [] {
      var last := dir.names[|dir.names| - 1];
      assert last in dir.names;
      assert out[|out| - 1] == last[|last| - 1] && last[|last| - 1] in last;
    }
  }

  // Whatever the path, the result of a second pass is normalised.
  lemma SecondPassNormalises(path: Text, drive: char, names: seq<Text>, elsewhere: seq<Text>)
    requires AllPlain(names) && AllPlain(elsewhere)
    ensures var out := Local(path, true, false, Cwd(false, drive, names));
            IsNormalised(Local(out, true, false, Cwd(false, drive, elsewhere)))
  {
    var dir, file := FullShown(path, false, drive, names);
    ShownNames(dir, file);
    var out, all := Show(dir, '/') + file, dir.names + [file];
    assert forall i :: 0 <= i < |all| - 1 ==> all[i] in dir.names;
    SeenIsNormal(out, false, drive, elsewhere);
    NamesHaveNoSlash(out[1..]);
    var q, last := NormalIsPlain(Place("/", []), all);
    ShownIsNormalised(q, last);
  }

  // So a second pass changes nothing exactly if every hidden dot is backed out of.
  lemma FullIsIdempotent(path: Text, drive: char, names: seq<Text>, elsewhere: seq<Text>)
    requires AllPlain(names) && AllPlain(elsewhere)
    ensures var out := Local(path, true, false, Cwd(false, drive, names));
            Local(out, true, false, Cwd(false, drive, elsewhere)) == out
            <==> HiddenBackedOut(PathNames(path, false), false)
  {
    FullIsNormalised(path, drive, names);
    SecondPassNormalises(path, drive, names, elsewhere);
    var out := Local(path, true, false, Cwd(false, drive, names));
    if IsNormalised(out) {
      NormalisedIsStable(out, drive, elsewhere);
    }
  }

  // Starts at this root, with no `.`, `..` or empty name but perhaps an empty last one.
  ghost predicate NormalisedUnder(out: Text, root: Text, sep: char) {
    exists names, file :: IsShown(out, root, names, file, sep)
  }

  predicate IsShown(out: Text, root: Text, names: seq<Text>, file: Text, sep: char) {
    && AllPlain(names) && NoneHas(names, sep) && (file == "" || (IsPlain(file) && sep !in file))
    && out == Show(Place(root, names), sep) + file
  }

  // A text is shown in one way only.
  lemma ShownOnce(p: Place, f: Text, q: Place, g: Text, root: Text, sep: char)
    requires Under(p, root, sep) && Under(q, root, sep) && Marked(root, sep)
    requires (f == "" || IsName(f, sep)) && (g == "" || IsName(g, sep))
    requires Show(p, sep) + f == Show(q, sep) + g
    ensures p == q && f == g
  {
    ShowEnds(p, sep);
    ShowEnds(q, sep);
    var a, b := Show(p, sep) + f, Show(q, sep) + g;
    assert f == "" ==> Ends(a, sep);
    assert g == "" ==> Ends(b, sep);
    assert f != "" ==> a[|a| - 1] == f[|f| - 1] != sep;
    assert g != "" ==> b[|b| - 1] == g[|g| - 1] != sep;
    if f == "" {
      assert a == Show(p, sep) && b == Show(q, sep);
      ShowSame(p, q, root, sep);
    } else {
      var p', q' := p.(names := p.names + [f]), q.(names := q.names + [g]);
      ShowPush(p, f, sep);
      ShowPush(q, g, sep);
      ShowSame(p', q', root, sep);
      assert p'.names[..|p.names|] == p.names && q'.names[..|q.names|] == q.names;
    }
  }

  // With FULL, from a root, a drive, a share or the current directory, the result is
  // normalised under that root exactly if every hidden dot is backed out of, and the
  // walk does not lose the root.
  lemma FullIsNormalisedUnder(path: Text, windows: bool, drive: char, names: seq<Text>)
    requires IsCwd(windows, drive, names) && AllPlain(names) && NoSep(path, Sep(windows))
    ensures var here, sep := CwdPlace(windows, drive, names), Sep(windows);
            var root := Start(path, windows, here).0.root;
            NormalisedUnder(Local(path, true, windows, Cwd(windows, drive, names)), root, sep)
            <==> HiddenBackedOut(PathNames(path, windows), false) && (root == [sep] || !GoesAbove(path, windows, here))
  {
    var here, sep := CwdPlace(windows, drive, names), Sep(windows);
    var root, out := Start(path, windows, here).0.root, Local(path, true, windows, Cwd(windows, drive, names));
    var dir, file := FullShown(path, windows, drive, names);
    StartIsMarked(path, windows, drive, names);
    HeadIsStart(path, windows, drive, names);
    if dir.root == root && AllPlain(dir.names) && (file == "" || IsPlain(file)) {
      assert dir == Place(root, dir.names);
      assert IsShown(out, root, dir.names, file, sep);
    }
    forall ns, f | IsShown(out, root, ns, f, sep)
      ensures dir == Place(root, ns) && file == f
    {
      ShownOnce(dir, file, Place(root, ns), f, root, sep);
    }
  }

  // A dot name directly after a doubled slash is copied, and a second pass changes it.
  lemma DoubledSlashHidesDot(cwd: Text)
    ensures Local("//.", true, false, cwd) == "/."
    ensures Local("/.", true, false, cwd) == "/"
  {
    var s: Text := "/.";
    assert "//."[1..] == s && s[1..] == "." && "."[1..] == "";
    assert SegLen(s) == 0 && s[..0] == "";
    assert Segments("/", s, true, '/') == Segment("/", s, true, '/') == Segment("/", ".", true, '/');
    assert Segment("/", ".", true, '/') == Segment("/" + ['.'], "", true, '/') == "/.";
    SegLenIs(".", 1);
    assert "."[..1] == ".";
  }

  // ---- Windows: above the root of a drive -------------------------------------

  lemma RootAfterWalk(p: Place, names: seq<Text>, literal: bool, sep: char)
    requires names != [] && |p.root| == 3 && p.root[0] != sep
    ensures var above := CodeLevel(Level(|p.names|, false), names, literal).above;
            && (p.root <= Resolved(p, names, literal, sep) <==> !above)
            && (above ==> [sep] <= Resolved(p, names, literal, sep))
  {
    var n := |names| - 1;
    var lit, l := AfterEmpty(names, literal, n), Level(|p.names|, false);
    var dir, to := CodeWalk(p, names[..n], literal, sep), CodeWalk(p, names, literal, sep);
    LevelsOfWalks(p, l, p, l, p.root, names, literal, sep);
    ResolvedIsWalk(p, names, literal, sep);
    assert to.root <= Show(to, sep) && dir.root <= Show(dir, sep) <= Show(dir, sep) + names[n];
    assert IsFile(names[n], lit) ==> to.root == dir.root;
  }

  // `/c/...` keeps its drive exactly if no `..` goes above it; else the drive is lost.
  lemma DriveKept(path: Text, drive: char, names: seq<Text>)
    requires IsCwd(true, drive, names) && '\\' !in path
    requires At(path, 0) == '/' && |path| > 2 && path[1] != '/' && path[2] == '/'
    ensures var out, c := Local(path, true, true, Cwd(true, drive, names)), path[1];
            var above := CodeLevel(Level(0, false), PathNames(path, true), false).above;
            && ([c, ':', '\\'] <= out <==> !above)
            && (above ==> "\\" <= out)
  {
    FullResolves(path, true, drive, names);
    assert path[1] in path;
    RootAfterWalk(Place([path[1], ':', '\\'], []), PathNames(path, true), false, '\\');
  }

  // ---- without FULL on POSIX --------------------------------------------------

  // Runs of slashes become one; a path stays as it is exactly if it has none.
  lemma PosixSqueezes(path: Text, cwd: Text)
    ensures Local(path, false, false, cwd) == Squeezed(path, false, '/')
    ensures Local(path, false, false, cwd) == path <==> !Doubled(path)
  {
    var (out, i) := Head(path, false, false, cwd);
    LoopsSqueeze(out, path[i..], '/');
    SqueezedSame(path, false);
  }
}
