// Local and Rebol paths, there and back.
module PathRoundTrip {
  import opened PathLocal
  import opened PathResolve
  import opened PathNormal
  import opened PathRebol

  // No colon, no backslash, no slash after a slash.
  predicate Clean(p: Text) {
    ':' !in p && '\\' !in p && !Doubled(p)
  }

  lemma CleanPart(p: Text, i: nat, j: nat)
    requires Clean(p) && i <= j <= |p|
    ensures Clean(p[i..j])
  {
    var s := p[i..j];
    assert forall c :: c in s ==> c in p;
    forall k | 0 <= k < |s| - 1
      ensures !(s[k] == '/' == s[k + 1])
    {
      assert s[k] == p[i + k] && s[k + 1] == p[i + k + 1];
    }
  }

  // ---- POSIX --------------------------------------------------------------------

  lemma DoubledSnoc(s: Text, c: char)
    ensures Doubled(s + [c]) <==> Doubled(s) || (c == '/' && s != [] && s[|s| - 1] == '/')
  {
    var long := s + [c];
    if Doubled(s) {
      var i :| 0 <= i < |s| - 1 && s[i] == '/' == s[i + 1];
      assert long[i] == '/' == long[i + 1];
    }
    if c == '/' && s != [] && s[|s| - 1] == '/' {
      assert long[|s| - 1] == '/' == long[|s| - 1 + 1];
    }
    if Doubled(long) {
      var i :| 0 <= i < |long| - 1 && long[i] == '/' == long[i + 1];
      assert i < |s| - 1 ==> s[i] == '/' == s[i + 1];
    }
  }

  lemma SnocSame(a: Text, t: Text, b: Text, c: char)
    requires |a| <= |b| && |t| <= 1
    ensures a + t == b + [c] <==> a == b && t == [c]
  {
    if a + t == b + [c] {
      assert |a + t| == |b| + 1;
      assert (a + t)[..|b|] == a && (b + [c])[..|b|] == b;
    }
  }

  lemma {:induction false} SlashedSame(s: Text)
    ensures |Slashed(s)| <= |s|
    ensures Slashed(s) == s <==> '\\' !in s && !Doubled(s)
    decreases |s|
  {
    if s != [] {
      var init, c := s[..|s| - 1], s[|s| - 1];
      SlashedSame(init);
      assert s == init + [c];
      DoubledSnoc(init, c);
      SnocSame(Slashed(init), if !IsSlash(c) then [c] else if EndsInSlash(init) then [] else "/", init, c);
    }
  }

  // A volume changes the first character, if there is no error.
  lemma VolumeChanges(s: Text, isDir: bool)
    requires ':' in s && Rebol(s, isDir).Ok?
    ensures s[0] != '/' && Rebol(s, isDir).path != [] && Rebol(s, isDir).path[0] == '/'
  {
    var k := ColonAt(s);
    assert s[..|s|] == s;
    assert k > 0 ==> s[..k][0] in s[..k];
  }

  lemma NoColon(s: Text)
    requires ':' !in s
    ensures ColonAt(s) == |s| && ScanPath(s) == Scanned(Slashed(s), LeftWith(s, NUL))
  {
    assert s[..|s|] == s;
    ColonAtIs(s, |s|);
  }

  // To_REBOL_Path changes nothing exactly in clean paths.
  lemma RebolSame(s: Text)
    ensures Rebol(s, false) == Ok(s) <==> Clean(s)
  {
    if ':' in s {
      if Rebol(s, false).Ok? {
        VolumeChanges(s, false);
      }
    } else {
      NoColon(s);
      SlashedSame(s);
    }
  }

  // On POSIX a file path comes back from its local form exactly if it is clean.
  lemma PosixThereAndBack(p: Text, cwd: Text)
    ensures Rebol(Local(p, false, false, cwd), false) == Ok(p) <==> Clean(p)
  {
    var q := Local(p, false, false, cwd);
    PosixSqueezes(p, cwd);
    RebolSame(p);
    if Doubled(p) {
      if ':' in q {
        if Rebol(q, false).Ok? {
          VolumeChanges(q, false);
          SqueezedFirst(p);
        }
      } else {
        NoColon(q);
        SlashedSame(q);
        SqueezedShorter(p, false);
      }
    }
  }

  lemma SqueezedFirst(p: Text)
    requires p != []
    ensures Squeezed(p, false, '/') != [] && Squeezed(p, false, '/')[0] == p[0]
  {
  }

  lemma SqueezedShorter(s: Text, last: bool)
    requires Doubled(s) || (last && s != [] && s[0] == '/')
    ensures |Squeezed(s, last, '/')| < |s|
  {
    SqueezedSame(s, last);
    if |Squeezed(s, last, '/')| == |s| {
      SqueezedFull(s, last);
    }
  }

  lemma {:induction false} SqueezedFull(s: Text, last: bool)
    requires |Squeezed(s, last, '/')| == |s|
    ensures Squeezed(s, last, '/') == s
  {
    if s != [] {
      SqueezedFull(s[1..], s[0] == '/');
      assert s == [s[0]] + s[1..];
    }
  }

  // And a local path from its Rebol form.
  lemma PosixBackAndThere(q: Text, cwd: Text)
    ensures (Rebol(q, false).Ok? && Local(Rebol(q, false).path, false, false, cwd) == q) <==> Clean(q)
  {
    RebolSame(q);
    if Rebol(q, false).Ok? {
      var r := Rebol(q, false).path;
      PosixSqueezes(r, cwd);
      if ':' in q {
        VolumeChanges(q, false);
        SqueezedFirst(r);
      } else {
        NoColon(q);
        SlashedSame(q);
        SlashedSettles(q);
        SlashedSame(r);
      }
    }
  }

  // One pass is enough for the slashes.
  lemma {:induction false} SlashedSettles(s: Text)
    ensures '\\' !in Slashed(s) && !Doubled(Slashed(s))
    ensures EndsInSlash(Slashed(s)) == EndsInSlash(s)
    decreases |s|
  {
    if s != [] {
      var init, c := s[..|s| - 1], s[|s| - 1];
      SlashedSettles(init);
      DoubledSnoc(Slashed(init), if IsSlash(c) then '/' else c);
    }
  }

  // ---- directories --------------------------------------------------------------

  predicate AllSlashes(s: Text) {
    forall i :: 0 <= i < |s| ==> IsSlash(s[i])
  }

  // Ends in two separators, the last of them a backslash.
  predicate EndsInBackslashRun(s: Text) {
    |s| >= 2 && IsSlash(s[|s| - 2]) && s[|s| - 1] == '\\'
  }

  predicate EndsInTwo(r: Text) {
    |r| >= 2 && r[|r| - 1] == r[|r| - 2] == '/'
  }

  // The directories that get a slash too many: those that end in a run with a
  // backslash last, and those with only separators after the colon, or after the
  // colon and one separator that is dropped.
  predicate SlashTooMany(s: Text) {
    var k := ColonAt(s);
    if k == |s| then EndsInBackslashRun(s)
    else
      var t := s[k + 1..];
      if t == [] then false
      else if !IsSlash(t[0]) then EndsInBackslashRun(t[1..])
      else if |t| == 1 then t[0] == '\\' || k == 0
      else EndsInBackslashRun(t[2..]) || (t[1] == '/' && AllSlashes(t[2..]))
  }

  // The end of a text, when its slashes are put out behind `out`.
  lemma PlainEnds(u: Text, out: Text, c: char)
    requires if out == [] then c == NUL
             else |out| >= 2 && out[|out| - 1] == c && (c == '/' ==> out[|out| - 2] == '/')
    ensures var text := out + Slashed(u);
            var r := if LeftWith(u, c) != '/' then text + "/" else text;
            && r != [] && r[|r| - 1] == '/'
            && (EndsInTwo(r) <==> EndsInBackslashRun(u) || (c == '/' && AllSlashes(u)))
  {
    if u != [] {
      var init, last := u[..|u| - 1], u[|u| - 1];
      SlashedEnd(init);
      if IsSlash(last) && init != [] {
        assert u[|u| - 2] == init[|init| - 1];
        SlashedEnd(u);
      }
    }
  }

  // A converted text ends in at most one slash, and is one slash if all are separators.
  lemma {:induction false} SlashedEnd(s: Text)
    ensures s != [] ==> Slashed(s) != []
    ensures s != [] ==> Slashed(s)[|Slashed(s)| - 1] == if EndsInSlash(s) then '/' else s[|s| - 1]
    ensures !EndsInTwo(Slashed(s))
    ensures s != [] ==> (Slashed(s) == "/" <==> AllSlashes(s))
    decreases |s|
  {
    if s != [] {
      SlashedEnd(s[..|s| - 1]);
      assert AllSlashes(s) <==> AllSlashes(s[..|s| - 1]) && IsSlash(s[|s| - 1]);
    }
  }

  // A directory always ends in a slash, and in one only unless it is of those.
  lemma DirectoryEndsInSlash(s: Text)
    requires Rebol(s, true).Ok?
    ensures var r := Rebol(s, true).path;
            && r != [] && r[|r| - 1] == '/'
            && (EndsInTwo(r) <==> SlashTooMany(s))
  {
    var k := ColonAt(s);
    if k == |s| {
      PlainEnds(s, [], NUL);
    } else {
      var out := "/" + s[..k] + "/";
      assert k > 0 ==> out[|out| - 2] == s[k - 1] && s[k - 1] in s[..k];
      VolumeEnds(s[k + 1..], out, k);
    }
  }

  // What follows the colon of a volume with a name of k characters.
  lemma VolumeEnds(t: Text, out: Text, k: nat)
    requires |out| == k + 2 && out[k + 1] == '/' && (if k == 0 then out[k] == '/' else out[k] != '/')
    requires AfterVolume(t, out).Scanned?
    ensures var scan := AfterVolume(t, out);
            var r := if scan.c != '/' then scan.text + "/" else scan.text;
            && r != [] && r[|r| - 1] == '/'
            && (EndsInTwo(r) <==>
                if t == [] then false
                else if !IsSlash(t[0]) then EndsInBackslashRun(t[1..])
                else if |t| == 1 then t[0] == '\\' || k == 0
                else EndsInBackslashRun(t[2..]) || (t[1] == '/' && AllSlashes(t[2..])))
  {
    if t != [] && !IsSlash(t[0]) {
      PlainEnds(t[1..], out + [t[0]], t[0]);
    } else if |t| > 1 {
      PlainEnds(t[2..], out + [t[1]], t[1]);
    }
  }

  // A clean path, in particular, gets a final slash if it has none.
  lemma CleanDirectory(s: Text)
    requires Clean(s)
    ensures Rebol(s, true) == Ok(if EndsInSlash(s) then s else s + "/")
    ensures !SlashTooMany(s)
  {
    NoColon(s);
    SlashedSame(s);
    if EndsInSlash(s) {
      var n := |s| - 1;
      assert s[n] in s && s[n] == '/';
    }
  }

  // The root of a drive is one of the others, and so is a doubled backslash.
  lemma DriveRootGetsTwo()
    ensures Rebol("C:\\", true) == Ok("/C//")
    ensures Rebol("a\\\\", true) == Ok("a//")
  {
    DriveRoot('C', "C:\\");
    TwoBackslashes('a', "a\\\\");
  }

  lemma DriveRoot(x: char, s: Text)
    requires x != ':' && !IsSlash(x) && s == [x, ':', '\\']
    ensures Rebol(s, true) == Ok("/" + [x] + "//")
  {
    ColonAtIs(s, 1);
    assert s[..1] == [x] && s[2..] == "\\";
    assert "/" + [x] + "/" + "/" == "/" + [x] + "//";
  }

  lemma TwoBackslashes(x: char, s: Text)
    requires x != ':' && !IsSlash(x) && s == [x, '\\', '\\']
    ensures Rebol(s, true) == Ok([x] + "//")
  {
    NoColon(s);
    assert s[..2] == [x, '\\'] && s[..2][..1] == [x] && [x][..0] == [];
    assert Slashed([x]) == [x];
    assert Slashed(s[..2]) == [x] + "/";
  }

  // ---- Windows --------------------------------------------------------------------

  function Swap(s: Text, a: char, b: char): (r: Text)
    ensures |r| == |s|
    ensures forall i :: 0 <= i < |s| ==> r[i] == if s[i] == a then b else s[i]
  {
    seq(|s|, i requires 0 <= i < |s| => if s[i] == a then b else s[i])
  }

  lemma {:induction false} SqueezedSwaps(s: Text, last: bool)
    requires '\\' !in s && !Doubled(s) && !(last && s != [] && s[0] == '/')
    ensures Squeezed(s, last, '\\') == Swap(s, '/', '\\')
  {
    if s != [] {
      var rest := s[1..];
      assert s == [s[0]] + rest;
      assert rest != [] ==> rest[0] == s[0 + 1];
      forall i | 0 <= i < |rest| - 1
        ensures !(rest[i] == '/' == rest[i + 1])
      {
        assert s[i + 1] == rest[i] && s[i + 1 + 1] == rest[i + 1];
      }
      SqueezedSwaps(rest, s[0] == '/');
      assert Swap(s, '/', '\\') == [if s[0] == '/' then '\\' else s[0]] + Swap(rest, '/', '\\');
    }
  }

  lemma {:induction false} SlashedSwap(s: Text)
    requires Clean(s)
    ensures Slashed(Swap(s, '/', '\\')) == s
    decreases |s|
  {
    if s != [] {
      var n, t := |s| - 1, Swap(s, '/', '\\');
      CleanPart(s, 0, n);
      SlashedSwap(s[..n]);
      assert t[..n] == Swap(s[..n], '/', '\\');
      assert s == s[..n] + [s[n]] && s[n] in s;
      if n > 0 {
        assert s[n - 1] in s && !(s[n - 1] == '/' == s[n - 1 + 1]);
      }
    }
  }

  // A separator before a separator makes no difference.
  lemma {:induction false} SlashedRun(c: char, s: Text)
    requires IsSlash(c) && s != [] && IsSlash(s[0])
    ensures Slashed([c] + s) == Slashed(s)
    decreases |s|
  {
    var n := |s| - 1;
    var long := [c] + s;
    assert long[..|long| - 1] == [c] + s[..n];
    if n == 0 {
      assert Slashed([c]) == "/" by { assert [c][..0] == []; }
    } else {
      SlashedRun(c, s[..n]);
    }
  }

  // The local form on Windows of a clean path: a drive, a share, or only the slashes.
  function WindowsForm(p: Text): Text
    requires Clean(p)
  {
    if |p| > 2 && p[0] == '/' == p[2] then [p[1], ':', '\\'] + Swap(p[3..], '/', '\\')
    else if |p| > 1 && p[0] == '/' then "\\" + Swap(p, '/', '\\')
    else Swap(p, '/', '\\')
  }

  lemma LocalSwaps(p: Text, cwd: Text)
    requires Clean(p)
    ensures var (out, i) := Head(p, false, true, cwd);
            Local(p, false, true, cwd) == out + Swap(p[i..], '/', '\\')
  {
    var (out, i) := Head(p, false, true, cwd);
    var rest := p[i..];
    assert rest == p[i..|p|];
    CleanPart(p, i, |p|);
    assert |p| > 1 ==> !(p[0] == '/' == p[0 + 1]);
    assert i > 0 && rest != [] ==> p[i - 1] == '/' && rest[0] == p[i - 1 + 1];
    LoopsSqueeze(out, rest, '\\');
    SqueezedSwaps(rest, Ends(out, '\\'));
  }

  lemma LocalIsWindowsForm(p: Text, cwd: Text)
    requires Clean(p)
    ensures Local(p, false, true, cwd) == WindowsForm(p)
  {
    var (out, i) := Head(p, false, true, cwd);
    LocalSwaps(p, cwd);
    assert |p| > 1 ==> !(p[0] == '/' == p[0 + 1]);
    if At(p, 0) == '/' && i == 1 {
      assert Swap(p, '/', '\\') == "\\" + Swap(p[1..], '/', '\\');
      assert "\\\\" + Swap(p[1..], '/', '\\') == "\\" + ("\\" + Swap(p[1..], '/', '\\'));
    }
  }

  lemma ScanDrive(x: char, t: Text)
    requires !IsSlash(x) && x != ':'
    ensures ScanPath([x, ':'] + t) == AfterVolume(t, "/" + [x] + "/")
  {
    var q := [x, ':'] + t;
    assert q[..1] == [x] && q[2..] == t;
    ColonAtIs(q, 1);
  }

  lemma AfterSeparator(c: char, v: Text, out: Text)
    ensures AfterVolume(['\\', c] + v, out) == Plain(v, out + [c], c)
  {
    assert (['\\', c] + v)[2..] == v;
  }

  lemma PlainSwap(u: Text, out: Text, c: char)
    requires Clean(u)
    ensures Plain(Swap(u, '/', '\\'), out, c).Scanned? && Plain(Swap(u, '/', '\\'), out, c).text == out + u
  {
    SlashedSwap(u);
  }

  lemma SwapFirst(s: Text)
    requires s != [] && s[0] != '/'
    ensures Swap(s, '/', '\\') == [s[0]] + Swap(s[1..], '/', '\\')
  {
  }

  lemma DriveText(x: char, c: char, v: Text)
    ensures [x, ':', '\\'] + ([c] + v) == [x, ':'] + (['\\', c] + v)
  {
  }

  lemma DriveBack(x: char, rest: Text)
    requires Clean(rest) && !IsSlash(x) && x != ':' && (rest != [] ==> rest[0] != '/')
    ensures Rebol([x, ':', '\\'] + Swap(rest, '/', '\\'), false) == Ok("/" + [x] + "/" + rest)
  {
    var out := "/" + [x] + "/";
    if rest == [] {
      ScanDrive(x, "\\");
      assert [x, ':', '\\'] + [] == [x, ':'] + "\\";
    } else {
      var c, u := rest[0], rest[1..];
      var v := Swap(u, '/', '\\');
      SwapFirst(rest);
      CleanPart(rest, 1, |rest|);
      DriveText(x, c, v);
      ScanDrive(x, ['\\', c] + v);
      AfterSeparator(c, v, out);
      PlainSwap(u, out + [c], c);
      SplitFirst(out, rest);
    }
  }

  lemma SplitFirst(out: Text, s: Text)
    requires s != []
    ensures out + [s[0]] + s[1..] == out + s
  {
  }

  lemma SwapBack(p: Text)
    requires Clean(p)
    ensures Rebol(Swap(p, '/', '\\'), false) == Ok(p)
    ensures p != [] && p[0] == '/' ==> Rebol("\\" + Swap(p, '/', '\\'), false) == Ok(p)
  {
    var q := Swap(p, '/', '\\');
    SlashedSwap(p);
    NoColon(q);
    if p != [] && p[0] == '/' {
      SlashedRun('\\', q);
      NoColon("\\" + q);
    }
  }

  lemma {:induction false} SqueezedKeeps(s: Text, last: bool)
    ensures '/' !in Squeezed(s, last, '\\')
    ensures ':' in Squeezed(s, last, '\\') <==> ':' in s
  {
    if s != [] {
      assert s == [s[0]] + s[1..];
      SqueezedKeeps(s[1..], s[0] == '/' || s[0] == '\\');
    }
  }

  // Squeezed and slashed, a text is what it was exactly if it is clean and loses no
  // first slash.
  lemma SqueezedBack(u: Text, last: bool)
    ensures ':' !in Squeezed(u, last, '\\') && Slashed(Squeezed(u, last, '\\')) == u
            <==> Clean(u) && !(last && u != [] && u[0] == '/')
  {
    var t := Squeezed(u, last, '\\');
    SqueezedKeeps(u, last);
    SlashedSettles(t);
    SlashedSame(t);
    if Clean(u) && !(last && u != [] && u[0] == '/') {
      SqueezedSwaps(u, last);
      SlashedSwap(u);
    }
  }

  // The paths that come back on Windows: clean ones, and after a drive those whose
  // first character is any but a slash, and whose others are clean and lose no slash.
  predicate ComesBack(p: Text) {
    if |p| > 2 && p[0] == '/' == p[2] && p[1] != '/' then
      && p[1] !in {':', '\\'}
      && (|p| > 3 ==> p[3] != '/' && Clean(p[4..]) && !(p[3] == '\\' && |p| > 4 && p[4] == '/'))
    else Clean(p)
  }

  // On Windows a path comes back from its local form exactly if it is one of these.
  lemma WindowsThereAndBack(p: Text, cwd: Text)
    ensures Rebol(Local(p, false, true, cwd), false) == Ok(p) <==> ComesBack(p)
  {
    var (out, i) := Head(p, false, true, cwd);
    LoopsSqueeze(out, p[i..], '\\');
    if |p| > 2 && p[0] == '/' == p[2] && p[1] != '/' {
      DriveReturns(p, Squeezed(p[3..], true, '\\'));
    } else if Clean(p) {
      LocalIsWindowsForm(p, cwd);
      assert |p| > 1 ==> !(p[0] == '/' == p[0 + 1]);
      SwapBack(p);
    } else {
      UncleanStaysOut(p, out, i, Squeezed(p[i..], Ends(out, '\\'), '\\'));
    }
  }

  // Without a drive only clean paths are ever put out.
  lemma UncleanStaysOut(p: Text, out: Text, i: nat, rest: Text)
    requires (out == "" && i == 0 && (p != [] ==> p[0] != '/'))
             || (out in {"\\", "\\\\"} && i == 1 <= |p| && p[0] == '/')
    requires rest == Squeezed(p[i..], Ends(out, '\\'), '\\') && !Clean(p)
    ensures Rebol(out + rest, false) != Ok(p)
  {
    var q := out + rest;
    SqueezedKeeps(p[i..], Ends(out, '\\'));
    assert p == p[..i] + p[i..];
    assert ':' in p <==> ':' in p[i..];
    if ':' in q {
      if Rebol(q, false).Ok? {
        VolumeChanges(q, false);
        VolumeHasNoSlash(q);
      }
    } else {
      NoColon(q);
      SlashedSettles(q);
    }
  }

  lemma VolumeHasNoSlash(q: Text)
    requires ':' in q && Rebol(q, false).Ok?
    ensures !IsSlash(q[0])
  {
    var k := ColonAt(q);
    assert q[..|q|] == q;
    assert k > 0 ==> q[..k][0] in q[..k];
  }

  lemma DriveReturns(p: Text, t: Text)
    requires |p| > 2 && p[0] == '/' == p[2] && p[1] != '/' && t == Squeezed(p[3..], true, '\\')
    ensures Rebol([p[1], ':', '\\'] + t, false) == Ok(p) <==> ComesBack(p)
  {
    var x, rest := p[1], p[3..];
    assert p == "/" + [x] + "/" + rest;
    if x == ':' {
      NoVolumeName(t);
    } else if x == '\\' {
      SlashVolumeName(t);
    } else {
      SqueezedKeeps(rest, true);
      if t == [] {
        ScanDrive(x, "\\");
        assert [x, ':', '\\'] + t == [x, ':'] + "\\";
      } else {
        var c, u := t[0], t[1..];
        assert t == [c] + u;
        DriveText(x, c, u);
        ScanDrive(x, ['\\', c] + u);
        AfterDrive(rest, c, u, "/" + [x] + "/");
      }
    }
  }

  lemma AfterDrive(rest: Text, c: char, u: Text, out: Text)
    requires [c] + u == Squeezed(rest, true, '\\')
    ensures var scan := AfterVolume(['\\', c] + u, out);
            scan.Scanned? && scan.text == out + rest
            <==> rest[0] != '/' && Clean(rest[1..]) && !(rest[0] == '\\' && |rest| > 1 && rest[1] == '/')
  {
    AfterSeparator(c, u, out);
    SamePrefix(out, c, Slashed(u), rest);
    RestBack(rest, c, u);
  }

  lemma SamePrefix(out: Text, c: char, s: Text, rest: Text)
    ensures out + [c] + s == out + rest <==> [c] + s == rest
  {
    assert out + [c] + s == out + ([c] + s);
    assert (out + ([c] + s))[|out|..] == [c] + s && (out + rest)[|out|..] == rest;
  }

  lemma RestBack(rest: Text, c: char, u: Text)
    requires [c] + u == Squeezed(rest, true, '\\')
    ensures ':' !in u && [c] + Slashed(u) == rest
            <==> rest[0] != '/' && Clean(rest[1..]) && !(rest[0] == '\\' && |rest| > 1 && rest[1] == '/')
  {
    SqueezedKeeps(rest, true);
    assert ([c] + u)[0] == c && ([c] + u)[1..] == u;
    if rest[0] != '/' {
      assert rest == [rest[0]] + rest[1..];
      FirstOf(rest, Squeezed(rest[1..], rest[0] == '\\', '\\'), c, u);
      FirstOf(rest, rest[1..], c, Slashed(u));
      SqueezedBack(rest[1..], rest[0] == '\\');
    }
  }

  lemma FirstOf(rest: Text, a: Text, c: char, b: Text)
    requires rest != []
    ensures [rest[0]] + a == [c] + b <==> rest[0] == c && a == b
  {
    assert ([rest[0]] + a)[1..] == a && ([c] + b)[1..] == b;
    assert ([rest[0]] + a)[0] == rest[0] && ([c] + b)[0] == c;
  }

  // A drive named by a colon comes back without a name, one named by a backslash not at all.
  lemma NoVolumeName(t: Text)
    ensures var r := Rebol("::\\" + t, false);
            r.Ok? ==> |r.path| > 1 && r.path[1] == '/'
  {
    var q := "::\\" + t;
    ColonAtIs(q, 0);
    assert q[..0] == "";
  }

  lemma SlashVolumeName(t: Text)
    ensures Rebol("\\:\\" + t, false) == BadColon
  {
    var q := "\\:\\" + t;
    assert q[..1] == "\\";
    ColonAtIs(q, 1);
  }

  // ---- and back on Windows -------------------------------------------------------

  predicate DoubledBack(s: Text) {
    exists i :: 0 <= i < |s| - 1 && s[i] == '\\' == s[i + 1]
  }

  lemma SwapDoubles(s: Text)
    requires '/' !in s
    ensures '\\' !in Swap(s, '\\', '/') && Swap(Swap(s, '\\', '/'), '/', '\\') == s
    ensures Doubled(Swap(s, '\\', '/')) ==> DoubledBack(s)
  {
    var t := Swap(s, '\\', '/');
    assert forall i :: 0 <= i < |s| ==> s[i] in s;
    if Doubled(t) {
      var i :| 0 <= i < |t| - 1 && t[i] == '/' == t[i + 1];
      assert s[i] == '\\' == s[i + 1];
    }
  }

  lemma SwapKeepsSingle(s: Text)
    requires '\\' !in s && !Doubled(s)
    ensures '/' !in Swap(s, '/', '\\') && !DoubledBack(Swap(s, '/', '\\'))
  {
    var t := Swap(s, '/', '\\');
    assert forall i :: 0 <= i < |s| ==> s[i] in s;
    forall i | 0 <= i < |t| - 1
      ensures !(t[i] == '\\' == t[i + 1])
    {
      assert !(s[i] == '/' == s[i + 1]);
    }
  }

  // Slashed and swapped back, a text is what it was exactly if its separators are
  // single backslashes.
  lemma SlashedSwapsBack(s: Text)
    requires ':' !in s
    ensures Swap(Slashed(s), '/', '\\') == s <==> '/' !in s && !DoubledBack(s)
    ensures '/' !in s && !DoubledBack(s) ==> Slashed(s) == Swap(s, '\\', '/')
  {
    SlashedSettles(s);
    SwapKeepsSingle(Slashed(s));
    if '/' !in s && !DoubledBack(s) {
      SwapDoubles(s);
      SlashedSwap(Swap(s, '\\', '/'));
    }
  }

  // And squeezed again, unless a first one is lost.
  lemma SlashedSqueezesBack(u: Text, last: bool)
    requires ':' !in u
    ensures Squeezed(Slashed(u), last, '\\') == u
            <==> '/' !in u && !DoubledBack(u) && !(last && u != [] && u[0] == '\\')
  {
    var w := Slashed(u);
    SlashedSettles(u);
    SlashedSame(u);
    SlashedSwapsBack(u);
    if last && w != [] && w[0] == '/' {
      assert |Squeezed(w, last, '\\')| <= |w| - 1;
    } else {
      SqueezedSwaps(w, last);
    }
  }

  // A local path without a colon: single backslashes, no first one, or two before a
  // share that would not be taken for a drive.
  predicate IsWindowsText(q: Text) {
    && '/' !in q
    && if |q| > 1 && q[0] == '\\' == q[1] then |q| > 2 && !DoubledBack(q[1..]) && !(|q| > 3 && q[3] == '\\')
       else !DoubledBack(q) && (q != [] && q[0] == '\\' ==> |q| == 1)
  }

  predicate ComesBackLocal(q: Text) {
    if ':' in q then
      && |q| > 2 && q[1] == ':' && q[2] == '\\' && q[0] !in {':', '\\'}
      && '/' !in q && !DoubledBack(q[3..]) && (|q| > 4 ==> ':' !in q[4..])
    else IsWindowsText(q)
  }

  // On Windows a local path comes back from its Rebol form exactly if it is one of these.
  lemma WindowsBackAndThere(q: Text, cwd: Text)
    ensures Rebol(q, false).Ok? && Local(Rebol(q, false).path, false, true, cwd) == q <==> ComesBackLocal(q)
  {
    if ':' !in q {
      NoColonReturns(q, cwd);
    } else if ColonAt(q) == 1 && !IsSlash(q[0]) {
      DriveComesBack(q, cwd);
    } else {
      OnlyDrives(q);
      if Rebol(q, false).Ok? {
        OtherVolumeDoesNot(q, cwd);
      }
    }
  }

  lemma NoColonReturns(q: Text, cwd: Text)
    requires ':' !in q
    ensures Rebol(q, false).Ok? && (Local(Rebol(q, false).path, false, true, cwd) == q <==> IsWindowsText(q))
  {
    var r := Slashed(q);
    NoColon(q);
    SlashedSettles(q);
    SlashedKeepsColons(q);
    LocalIsWindowsForm(r, cwd);
    SlashedSwapsBack(q);
    if q != [] {
      SlashedFirst(q);
    }
    if q != [] && IsSlash(q[0]) {
      ShareReturns(q, r);
    }
  }

  lemma {:induction false} SlashedKeepsColons(s: Text)
    ensures ':' in Slashed(s) <==> ':' in s
    decreases |s|
  {
    if s != [] {
      SlashedKeepsColons(s[..|s| - 1]);
      assert s == s[..|s| - 1] + [s[|s| - 1]];
    }
  }

  lemma {:induction false} SlashedFirst(s: Text)
    requires s != []
    ensures Slashed(s) != [] && Slashed(s)[0] == if IsSlash(s[0]) then '/' else s[0]
    decreases |s|
  {
    if |s| > 1 {
      SlashedFirst(s[..|s| - 1]);
    } else {
      assert s[..0] == [];
    }
  }

  // The local form of what a path with a first separator becomes.
  lemma ShareReturns(q: Text, r: Text)
    requires q != [] && IsSlash(q[0]) && ':' !in q && r == Slashed(q) && Clean(r) && r != [] && r[0] == '/'
    ensures WindowsForm(r) == q <==> IsWindowsText(q)
  {
    if |q| == 1 {
      SlashedSame(q);
      RootReturns(q, r);
    } else if IsSlash(q[1]) {
      var s := q[1..];
      assert q == [q[0]] + s;
      SlashedRun(q[0], s);
      TwoFirst(q[0], s, r);
    } else {
      OneFirst(q, r);
    }
  }

  lemma RootReturns(q: Text, r: Text)
    requires |q| == 1 && IsSlash(q[0]) && Clean(r) && |r| == 1 && r[0] == '/'
    ensures WindowsForm(r) == q <==> IsWindowsText(q)
  {
    assert WindowsForm(r)[0] == '\\';
  }

  // One separator before a name comes back as two, or as a drive.
  lemma OneFirst(q: Text, r: Text)
    requires |q| > 1 && !IsSlash(q[1]) && ':' !in q && Clean(r) && r != [] && r[0] == '/'
    ensures WindowsForm(r) != q
  {
    var form := WindowsForm(r);
    if |r| > 2 && r[2] == '/' {
      assert form[1] == ':' && ':' !in q;
    } else if |r| > 1 {
      assert form[1] == '\\';
    } else {
      assert |form| == 1;
    }
  }

  lemma TwoFirst(c: char, s: Text, r: Text)
    requires IsSlash(c) && s != [] && IsSlash(s[0]) && ':' !in s && r == Slashed(s) && Clean(r)
    requires r != [] && r[0] == '/'
    ensures WindowsForm(r) == [c] + s <==> IsWindowsText([c] + s)
  {
    var q := [c] + s;
    assert q[1..] == s;
    assert '/' in q <==> c == '/' || '/' in s;
    SlashedSwapsBack(s);
    SlashedSame(s);
    SamePart("\\", Swap(r, '/', '\\'), s);
    if |r| > 2 && r[2] == '/' {
      assert ':' in WindowsForm(r) && ':' !in q;
      assert '/' !in s && !DoubledBack(s) ==> s[2] == '\\' && q[3] == '\\';
    } else if |r| > 1 {
      if c == '\\' {
        assert q == "\\" + s;
      }
    }
  }

  lemma OnlyDrives(q: Text)
    requires ':' in q
    ensures ComesBackLocal(q) ==> ColonAt(q) == 1 && !IsSlash(q[0])
  {
    if ComesBackLocal(q) {
      assert q[..1] == [q[0]];
      ColonAtIs(q, 1);
    }
  }

  lemma LocalOfDrive(x: char, rest: Text, cwd: Text)
    requires x != '/'
    ensures Local("/" + [x] + "/" + rest, false, true, cwd) == [x, ':', '\\'] + Squeezed(rest, true, '\\')
  {
    var p := "/" + [x] + "/" + rest;
    assert p[3..] == rest;
    LoopsSqueeze([x, ':', '\\'], rest, '\\');
  }

  lemma DriveComesBack(q: Text, cwd: Text)
    requires ColonAt(q) == 1 && |q| > 1 && !IsSlash(q[0])
    ensures Rebol(q, false).Ok? && Local(Rebol(q, false).path, false, true, cwd) == q <==> ComesBackLocal(q)
  {
    var x, t := q[0], q[2..];
    assert q == [x, ':'] + t && q[..1][0] != ':';
    if t == [] {
      ScanDrive(x, t);
      LocalOfDrive(x, ":", cwd);
    } else if t[0] != '\\' {
      if Rebol(q, false).Ok? {
        ThirdIsBackslash(q, cwd);
      }
    } else if |t| == 1 {
      ScanDrive(x, t);
      LocalOfDrive(x, [], cwd);
      assert "/" + [x] + "/" + [] == "/" + [x] + "/" && q[3..] == [];
    } else {
      assert q == [x, ':', '\\', t[1]] + t[2..];
      SeparatedDrive(q, x, t[1], t[2..], cwd);
    }
  }

  lemma SeparatedDrive(q: Text, x: char, c: char, u: Text, cwd: Text)
    requires q == [x, ':', '\\', c] + u && !IsSlash(x) && x != ':'
    ensures Rebol(q, false).Ok? && Local(Rebol(q, false).path, false, true, cwd) == q <==> ComesBackLocal(q)
  {
    var out := "/" + [x] + "/";
    assert q == [x, ':'] + (['\\', c] + u) && q[3..] == [c] + u && q[4..] == u;
    ScanDrive(x, ['\\', c] + u);
    AfterSeparator(c, u, out);
    if ':' !in u {
      assert out + [c] + Slashed(u) == out + ([c] + Slashed(u));
      DriveRest(q, x, c, u, cwd);
    }
  }

  // Without a backslash after the colon it does not come back: one is put there.
  lemma ThirdIsBackslash(q: Text, cwd: Text)
    requires ColonAt(q) == 1 && |q| > 2 && !IsSlash(q[0]) && q[2] != '\\' && Rebol(q, false).Ok?
    ensures Local(Rebol(q, false).path, false, true, cwd) != q
  {
    var r := Rebol(q, false).path;
    VolumeFirst(q);
    var rest := r[3..];
    assert r == "/" + [q[0]] + "/" + rest;
    LocalOfDrive(q[0], rest, cwd);
  }

  lemma VolumeFirst(q: Text)
    requires ':' in q && Rebol(q, false).Ok?
    ensures var k, r := ColonAt(q), Rebol(q, false).path;
            k < |q| && !HasSlash(q[..k]) && "/" + q[..k] + "/" <= r
  {
    assert q[..|q|] == q;
    OutFirst(q[ColonAt(q) + 1..], "/" + q[..ColonAt(q)] + "/");
  }

  lemma OutFirst(t: Text, out: Text)
    ensures AfterVolume(t, out).Scanned? ==> out <= AfterVolume(t, out).text
  {
  }

  lemma DriveRest(q: Text, x: char, c: char, u: Text, cwd: Text)
    requires q == [x, ':', '\\', c] + u && !IsSlash(x) && x != ':' && ':' !in u
    ensures Local("/" + [x] + "/" + ([c] + Slashed(u)), false, true, cwd) == q <==> '/' !in q && !DoubledBack([c] + u)
  {
    var rest := [c] + Slashed(u);
    LocalOfDrive(x, rest, cwd);
    var back := Squeezed(rest, true, '\\');
    SamePart([x, ':', '\\'], back, [c] + u);
    assert q == [x, ':', '\\'] + ([c] + u);
    assert '/' in q <==> c == '/' || '/' in u;
    if c == '/' {
      SqueezedKeeps(rest, true);
      assert ([c] + u)[0] == '/';
    } else {
      assert rest[1..] == Slashed(u);
      SamePart([c], Squeezed(Slashed(u), c == '\\', '\\'), u);
      SlashedSqueezesBack(u, c == '\\');
      DoubledBackCons(c, u);
    }
  }

  lemma SamePart(a: Text, s: Text, t: Text)
    ensures a + s == a + t <==> s == t
  {
    assert (a + s)[|a|..] == s && (a + t)[|a|..] == t;
  }

  lemma DoubledBackCons(c: char, u: Text)
    ensures DoubledBack([c] + u) <==> DoubledBack(u) || (c == '\\' && u != [] && u[0] == '\\')
  {
    var s := [c] + u;
    if DoubledBack(u) {
      var i :| 0 <= i < |u| - 1 && u[i] == '\\' == u[i + 1];
      assert s[i + 1] == '\\' == s[i + 1 + 1];
    }
    if c == '\\' && u != [] && u[0] == '\\' {
      assert s[0] == '\\' == s[0 + 1];
    }
    if DoubledBack(s) {
      var i :| 0 <= i < |s| - 1 && s[i] == '\\' == s[i + 1];
      assert i > 0 ==> u[i - 1] == '\\' == u[i - 1 + 1];
    }
  }

  // A volume with no name, or a longer one, comes back as something else.
  lemma OtherVolumeDoesNot(q: Text, cwd: Text)
    requires ':' in q && Rebol(q, false).Ok? && !(ColonAt(q) == 1 && !IsSlash(q[0]))
    ensures Local(Rebol(q, false).path, false, true, cwd) != q
  {
    var k, r := ColonAt(q), Rebol(q, false).path;
    VolumeFirst(q);
    assert k > 0 ==> q[..k][0] in q[..k];
    assert k > 1 ==> q[..k][1] in q[..k];
    var (out, i) := Head(r, false, true, cwd);
    LoopsSqueeze(out, r[i..], '\\');
    assert r[1] == if k == 0 then '/' else q[0];
    assert k > 1 ==> r[2] == q[1];
    assert out[0] == '\\';
  }

  // X:\rest goes to /X/rest, and back.
  lemma DriveThereAndBack(x: char, rest: Text, cwd: Text)
    requires Clean(rest) && x !in {'/', '\\', ':'} && (rest != [] ==> rest[0] != '/')
    ensures var q := [x, ':', '\\'] + Swap(rest, '/', '\\');
            && Rebol(q, false) == Ok("/" + [x] + "/" + rest)
            && Local("/" + [x] + "/" + rest, false, true, cwd) == q
  {
    var p := "/" + [x] + "/" + rest;
    DriveBack(x, rest);
    assert p[3..] == rest;
    DriveIsClean(x, rest);
    LocalIsWindowsForm(p, cwd);
  }

  lemma DriveIsClean(x: char, rest: Text)
    requires Clean(rest) && x !in {'/', '\\', ':'} && (rest != [] ==> rest[0] != '/')
    ensures Clean("/" + [x] + "/" + rest)
  {
    var p := "/" + [x] + "/" + rest;
    forall i | 0 <= i < |p| - 1
      ensures !(p[i] == '/' == p[i + 1])
    {
      assert i >= 3 ==> p[i] == rest[i - 3] && p[i + 1] == rest[i - 3 + 1];
    }
  }
}
