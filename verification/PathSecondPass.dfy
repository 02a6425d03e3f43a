// Local paths taken to their Rebol form and back with FULL on Windows.
module PathSecondPass {
  import opened PathLocal
  import opened PathResolve
  import opened PathNormal
  import opened PathRebol
  import opened PathRoundTrip

  // Names without separators or colons, none of them empty.
  predicate AreSimple(names: seq<Text>) {
    forall name :: name in names ==> name != "" && IsSimple(name)
  }

  predicate IsSimple(name: Text) {
    '/' !in name && '\\' !in name && ':' !in name
  }

  lemma {:induction false} JoinedIsClean(names: seq<Text>, file: Text)
    requires AreSimple(names) && IsSimple(file)
    ensures var s := Joined(names, '/') + file;
            && Clean(s) && (s != [] ==> s[0] != '/')
            && Swap(s, '/', '\\') == Joined(names, '\\') + file
  {
    if names == [] {
      assert Joined(names, '/') + file == file && Joined(names, '\\') + file == file;
      assert forall i :: 0 <= i < |file| ==> file[i] in file;
    } else {
      var name, rest := names[0], Joined(names[1..], '/') + file;
      assert name in names;
      JoinedIsClean(names[1..], file);
      assert Joined(names, '/') + file == name + ['/'] + rest;
      CleanAfterName(name, rest);
      assert Joined(names, '\\') + file == name + ['\\'] + Swap(rest, '/', '\\');
    }
  }

  lemma CleanAfterName(name: Text, rest: Text)
    requires name != "" && IsSimple(name) && Clean(rest) && (rest != [] ==> rest[0] != '/')
    ensures var s := name + ['/'] + rest;
            Clean(s) && s[0] != '/' && Swap(s, '/', '\\') == name + ['\\'] + Swap(rest, '/', '\\')
  {
    var s, n := name + ['/'] + rest, |name|;
    assert forall i :: 0 <= i < n ==> name[i] in name;
    forall i | 0 <= i < |s| - 1
      ensures !(s[i] == '/' == s[i + 1])
    {
      assert i > n ==> s[i] == rest[i - n - 1] && s[i + 1] == rest[i - n - 1 + 1];
    }
  }

  // A drive's path whose names have no colons.
  predicate IsDrivePath(path: Text) {
    && |path| > 2 && path[0] == '/' == path[2] && path[1] !in {'/', ':'}
    && '\\' !in path && ':' !in path[3..]
  }

  lemma {:induction false} NamesAreSimple(s: Text)
    requires '\\' !in s && ':' !in s
    ensures forall name :: name in Names(s) ==> IsSimple(name)
    decreases |s|
  {
    var n := SegLen(s);
    assert forall c :: c in s[..n] ==> c in s;
    if n < |s| {
      var rest := s[n + 1..];
      forall c | c in rest
        ensures c in s
      {
      }
      NamesAreSimple(rest);
      assert Names(s) == [s[..n]] + Names(rest);
    }
  }

  // What TO-LOCAL/FULL puts out for it, and the Rebol form of that.
  lemma DriveShown(path: Text, drive: char, names: seq<Text>) returns (dir: Place, file: Text)
    requires IsCwd(true, drive, names) && AllPlain(names) && IsDrivePath(path)
    ensures AreSimple(dir.names) && IsSimple(file) && (file == "" || IsName(file, '\\'))
    ensures dir.root == if GoesAbove(path, true, CwdPlace(true, drive, names)) then "\\" else [path[1], ':', '\\']
    ensures Under(dir, [path[1], ':', '\\'], '\\')
    ensures Local(path, true, true, Cwd(true, drive, names)) == Show(dir, '\\') + file
    ensures AllPlain(dir.names) && (file == "" || IsPlain(file)) <==> HiddenBackedOut(PathNames(path, true), false)
  {
    dir, file := FullShown(path, true, drive, names);
    forall c | c in path[3..]
      ensures c != '\\'
    {
      assert c in path;
    }
    NamesAreSimple(path[3..]);
    assert PathNames(path, true) == Names(path[3..]);
    assert forall name :: name in dir.names ==> IsName(name, '\\');
  }

  lemma ShownBack(dir: Place, file: Text, x: char)
    requires dir.root in {"\\", [x, ':', '\\']} && AreSimple(dir.names) && IsSimple(file) && x !in {'/', ':', '\\'}
    ensures Rebol(Show(dir, '\\') + file, false)
            == Ok((if dir.root == "\\" then "/" else "/" + [x] + "/") + (Joined(dir.names, '/') + file))
  {
    var rest := Joined(dir.names, '/') + file;
    JoinedIsClean(dir.names, file);
    assert Show(dir, '\\') + file == dir.root + (Joined(dir.names, '\\') + file);
    if dir.root == "\\" {
      RootBack(rest);
    } else {
      DriveBack(x, rest);
    }
  }

  lemma RootBack(rest: Text)
    requires Clean(rest) && (rest != [] ==> rest[0] != '/')
    ensures Rebol("\\" + Swap(rest, '/', '\\'), false) == Ok("/" + rest)
  {
    var p := "/" + rest;
    forall i | 0 <= i < |p| - 1
      ensures !(p[i] == '/' == p[i + 1])
    {
      assert i > 0 ==> p[i] == rest[i - 1] && p[i + 1] == rest[i - 1 + 1];
    }
    SwapBack(p);
    assert Swap(p, '/', '\\') == "\\" + Swap(rest, '/', '\\');
  }

  // Taken to its Rebol form and back with FULL, the result for a drive's path stays as
  // it is exactly if every hidden dot is backed out of and the drive is not lost, or
  // nothing but a backslash is left.
  lemma DriveSecondPass(path: Text, drive: char, names: seq<Text>, elsewhere: seq<Text>)
    requires IsCwd(true, drive, names) && AllPlain(names) && IsDrivePath(path)
    requires IsCwd(true, drive, elsewhere) && AllPlain(elsewhere)
    ensures var out := Local(path, true, true, Cwd(true, drive, names));
            && Rebol(out, false).Ok?
            && (Local(Rebol(out, false).path, true, true, Cwd(true, drive, elsewhere)) == out
                <==> (HiddenBackedOut(PathNames(path, true), false)
                      && !GoesAbove(path, true, CwdPlace(true, drive, names))) || out == "\\")
  {
    var dir, file := DriveShown(path, drive, names);
    assert path[1] in path;
    ShownBack(dir, file, path[1]);
    if dir.root == "\\" {
      LostSecondPass(dir.names, file, drive, elsewhere);
    } else {
      KeptSecondPass(dir, file, path[1], drive, elsewhere);
    }
  }

  lemma NoneHidden(names: seq<Text>, file: Text)
    requires forall name :: name in names ==> name != ""
    ensures HiddenBackedOut(names + [file], false)
  {
    var all := names + [file];
    forall i | 0 <= i < |all|
      ensures !HiddenAt(all, false, i)
    {
      assert i > 0 ==> all[i - 1] in names;
    }
  }

  lemma KeptSecondPass(dir: Place, file: Text, x: char, drive: char, elsewhere: seq<Text>)
    requires IsCwd(true, drive, elsewhere) && AllPlain(elsewhere) && x !in {'/', ':', '\\'}
    requires dir.root == [x, ':', '\\'] && AreSimple(dir.names) && IsSimple(file)
    ensures var out, p := Show(dir, '\\') + file, "/" + [x] + "/" + (Joined(dir.names, '/') + file);
            Local(p, true, true, Cwd(true, drive, elsewhere)) == out
            <==> AllPlain(dir.names) && (file == "" || IsPlain(file))
  {
    var p := "/" + [x] + "/" + (Joined(dir.names, '/') + file);
    DrivePathNames(dir.names, file, x, p);
    if AllPlain(dir.names) && (file == "" || IsPlain(file)) {
      FullResolves(p, true, drive, elsewhere);
      PlainWalk(Place(dir.root, []), dir.names, file, '\\');
      assert [] + dir.names == dir.names && dir == Place(dir.root, dir.names);
    } else {
      HiddenIsChanged(dir, file, x, p, drive, elsewhere);
    }
  }

  lemma DrivePathNames(names: seq<Text>, file: Text, x: char, p: Text)
    requires AreSimple(names) && IsSimple(file) && x !in {'/', ':', '\\'}
    requires p == "/" + [x] + "/" + (Joined(names, '/') + file)
    ensures NoSep(p, '\\') && PathNames(p, true) == names + [file]
    ensures forall here :: Start(p, true, here) == (Place([x, ':', '\\'], []), 3)
  {
    JoinedIsClean(names, file);
    assert p[3..] == Joined(names, '/') + file;
    NamesOfJoined(names, file);
  }

  // The second pass sees the dots that are left, and so puts out something else.
  lemma HiddenIsChanged(dir: Place, file: Text, x: char, p: Text, drive: char, elsewhere: seq<Text>)
    requires IsCwd(true, drive, elsewhere) && AllPlain(elsewhere) && x !in {'/', ':', '\\'}
    requires dir.root == [x, ':', '\\'] && AreSimple(dir.names) && IsSimple(file)
    requires NoSep(p, '\\') && PathNames(p, true) == dir.names + [file]
    requires forall here :: Start(p, true, here) == (Place([x, ':', '\\'], []), 3)
    requires !(AllPlain(dir.names) && (file == "" || IsPlain(file)))
    ensures Local(p, true, true, Cwd(true, drive, elsewhere)) != Show(dir, '\\') + file
  {
    var back, out := FullShown(p, true, drive, elsewhere);
    NoneHidden(dir.names, file);
    DriveIsRoot(x);
    if Show(back, '\\') + out == Show(dir, '\\') + file {
      ShownOnce(back, out, dir, file, dir.root, '\\');
    }
  }

  // How many names are not empty.
  function Count(names: seq<Text>): nat {
    if names == [] then 0 else (if names[0] == "" then 0 else 1) + Count(names[1..])
  }

  // Every directory takes a name, and going above takes one more.
  lemma {:induction false} DepthBound(l: Level, names: seq<Text>, literal: bool)
    ensures var to := CodeLevel(l, names, literal);
            to.depth + (if to.above && !l.above then 1 else 0) <= l.depth + Count(names)
    decreases |names|
  {
    if names != [] {
      DepthBound(Sink(l, names[0], literal), names[1..], names[0] == "");
    }
  }

  lemma {:induction false} CountOf(names: seq<Text>, file: Text)
    ensures Count(names + [file]) <= |names| + if file == "" then 0 else 1
  {
    if names == [] {
      assert [file][1..] == [];
    } else {
      CountOf(names[1..], file);
      assert (names + [file])[1..] == names[1..] + [file];
    }
  }

  // Once the drive is lost, the Rebol form begins with a drive or a share, or is a slash.
  lemma LostSecondPass(names: seq<Text>, file: Text, drive: char, elsewhere: seq<Text>)
    requires IsCwd(true, drive, elsewhere) && AllPlain(elsewhere)
    requires AreSimple(names) && IsSimple(file)
    ensures var out, p := Show(Place("\\", names), '\\') + file, "/" + (Joined(names, '/') + file);
            Local(p, true, true, Cwd(true, drive, elsewhere)) == out <==> out == "\\"
  {
    var rest := Joined(names, '/') + file;
    var p, out := "/" + rest, Show(Place("\\", names), '\\') + file;
    JoinedIsClean(names, file);
    if rest == [] {
      assert Show(Place("\\", names), '\\') == "\\";
    } else {
      LostIsChanged(names, file, p, drive, elsewhere);
    }
  }

  lemma LostIsChanged(names: seq<Text>, file: Text, p: Text, drive: char, elsewhere: seq<Text>)
    requires IsCwd(true, drive, elsewhere) && AllPlain(elsewhere)
    requires AreSimple(names) && IsSimple(file) && p == "/" + (Joined(names, '/') + file) && |p| > 1
    ensures Local(p, true, true, Cwd(true, drive, elsewhere)) != Show(Place("\\", names), '\\') + file
  {
    var here := CwdPlace(true, drive, elsewhere);
    LostNames(names, file, p, here);
    var dir, f := FullShown(p, true, drive, elsewhere);
    StartIsMarked(p, true, drive, elsewhere);
    DepthBound(Level(0, false), PathNames(p, true), false);
    LessDeep(dir, f, Place("\\", names), file, Start(p, true, here).0.root, GoesAbove(p, true, here));
  }

  // A directory under another root, or less deep, is another one.
  lemma LessDeep(dir: Place, f: Text, lost: Place, file: Text, root: Text, above: bool)
    requires Under(dir, root, '\\') && Marked(root, '\\') && root != "\\" && (f == "" || IsName(f, '\\'))
    requires lost.root == "\\" && AreSimple(lost.names) && IsSimple(file)
    requires dir.root == if above then "\\" else root
    requires |dir.names| + (if f == "" then 0 else 1) + (if above then 1 else 0)
             <= |lost.names| + if file == "" then 0 else 1
    ensures Show(dir, '\\') + f != Show(lost, '\\') + file
  {
    if Show(dir, '\\') + f == Show(lost, '\\') + file {
      ShownOnce(dir, f, lost, file, root, '\\');
    }
  }

  lemma LostNames(names: seq<Text>, file: Text, p: Text, here: Place)
    requires AreSimple(names) && IsSimple(file) && p == "/" + (Joined(names, '/') + file) && |p| > 1
    ensures NoSep(p, '\\') && Start(p, true, here).0.names == [] && Start(p, true, here).0.root != "\\"
    ensures Count(PathNames(p, true)) <= |names| + if file == "" then 0 else 1
  {
    var rest := Joined(names, '/') + file;
    assert p[1..] == rest;
    NamesOfJoined(names, file);
    JoinedIsClean(names, file);
    CountOf(names, file);
    if At(p, 2) == '/' {
      assert rest[1] == '/';
      SegLenIs(rest, 1);
      assert Names(rest)[1..] == Names(rest[2..]) && p[3..] == rest[2..];
    }
  }
}
