// From a local file path to a Rebol one (To_REBOL_Path, mod-filesystem.c).
module PathRebol {
  import opened PathLocal

  datatype Result = Ok(path: Text) | BadColon

  predicate IsSlash(c: char) {
    c == '/' || c == '\\'
  }

  predicate HasSlash(s: Text) {
    '/' in s || '\\' in s
  }

  predicate EndsInSlash(s: Text) {
    s != [] && IsSlash(s[|s| - 1])
  }

  // Slashes and backslashes become slashes, and each run of them one slash.
  function Slashed(s: Text): Text {
    if s == [] then []
    else
      var init, c := s[..|s| - 1], s[|s| - 1];
      Slashed(init) + if !IsSlash(c) then [c] else if EndsInSlash(init) then [] else "/"
  }

  // The character the loop is left with: a first slash of a run was made '/'.
  function LeftWith(s: Text, c: char): char {
    if s == [] then c
    else if IsSlash(s[|s| - 1]) && !EndsInSlash(s[..|s| - 1]) then '/'
    else s[|s| - 1]
  }

  // The index of the first colon, or the length.
  function ColonAt(s: Text): (k: nat)
    ensures k <= |s| && ':' !in s[..k] && (k < |s| ==> s[k] == ':')
  {
    if s == [] || s[0] == ':' then 0 else 1 + ColonAt(s[1..])
  }

  lemma {:induction false} ColonAtIs(s: Text, k: nat)
    requires k <= |s| && ':' !in s[..k] && (k < |s| ==> s[k] == ':')
    ensures ColonAt(s) == k
  {
    if k > 0 {
      assert s[0] == s[..k][0];
      assert s[1..][..k - 1] == s[..k][1..];
      ColonAtIs(s[1..], k - 1);
    }
  }

  // The text put out, and the character the loop is left with.
  datatype Scan = BadPath | Scanned(text: Text, c: char)

  // What follows the colon of a volume. A separator there is dropped and the next
  // character is copied whatever it is; with nothing after it, the colon itself is.
  function AfterVolume(t: Text, out: Text): Scan {
    if t == [] then Scanned(out + ":", ':')
    else if IsSlash(t[0]) then
      if |t| == 1 then Scanned(out, t[0]) else Plain(t[2..], out + [t[1]], t[1])
    else Plain(t[1..], out + [t[0]], t[0])
  }

  function Plain(u: Text, out: Text, c: char): Scan {
    if ':' in u then BadPath else Scanned(out + Slashed(u), LeftWith(u, c))
  }

  // `vol:dir/file` becomes `/vol/dir/file`; other paths only change their slashes.
  function ScanPath(s: Text): Scan {
    var k := ColonAt(s);
    if k == |s| then Plain(s, [], NUL)
    else if HasSlash(s[..k]) then BadPath
    else AfterVolume(s[k + 1..], "/" + s[..k] + "/")
  }

  function Rebol(s: Text, isDir: bool): Result {
    match ScanPath(s)
    case BadPath => BadColon
    case Scanned(text, c) => Ok(if isDir && c != '/' then text + "/" else text)
  }

  // ---- To_REBOL_Path ----------------------------------------------------------

  datatype Outcome = Restart | Over(scan: Scan)

  function PassIs(s: Text, leadSlash: bool, out0: Text): Outcome {
    var k := ColonAt(s);
    if k == |s| then Over(Plain(s, out0, NUL))
    else if HasSlash(s[..k]) then Over(BadPath)
    else if !leadSlash then Restart
    else Over(AfterVolume(s[k + 1..], out0 + s[..k] + "/"))
  }

  // Lines 104-163: one pass over the path.
  method Pass(s: Text, leadSlash: bool, out0: Text) returns (r: Outcome)
    ensures r == PassIs(s, leadSlash, out0)
  {
    var sawColon, sawSlash, lastWasSlash := false, false, false;
    var out, c := out0, NUL;
    var i := 0;
    ghost var j, base, c0 := 0, out0, c;
    while i < |s|
      invariant Scanning(s, leadSlash, out0, i, out, c, sawColon, sawSlash, lastWasSlash, j, base, c0)
      decreases |s| - i
    {
      if s[i] != ':' {
        CharStep(s, leadSlash, out0, i, out, c, sawColon, sawSlash, lastWasSlash, j, base, c0);
      }
      c := s[i];
      if c == ':' {
        if sawColon || sawSlash {
          ColonAgain(s, leadSlash, out0, i, out, sawColon, sawSlash, j, base, c0);
          return Over(BadPath);
        }
        FirstColon(s, i, out, out0);
        if !leadSlash {
          return Restart;
        }
        sawColon := true;
        var over;
        over, out, i, c := TakeVolume(s, i + 1, out);
        if over {
          return Over(Scanned(out, c));
        }
        j, base, c0 := i, out, c;
        VolumeStep(s, leadSlash, out0, i, out, c, sawSlash, lastWasSlash);
        continue;
      }
      i := i + 1;
      if c == '\\' || c == '/' {
        if lastWasSlash {
          continue;
        }
        c := '/';
        lastWasSlash := true;
        sawSlash := true;
      } else {
        lastWasSlash := false;
      }
      out := out + [c];
    }
    ScanOver(s, leadSlash, out0, out, c, sawColon, sawSlash, lastWasSlash, j, base, c0);
    return Over(Scanned(out, c));
  }

  // Lines 134-149, and the append of line 162.
  method TakeVolume(s: Text, start: nat, out0: Text) returns (over: bool, out: Text, i: nat, c: char)
    requires 0 < start <= |s| && s[start - 1] == ':'
    ensures start <= i <= |s|
    ensures AfterVolume(s[start..], out0 + "/") == if over then Scanned(out, c) else Plain(s[i..], out, c)
  {
    i := start;
    c := s[i - 1];
    out := out0 + "/";
    if i < |s| {
      c := s[i];
      i := i + 1;
      if c == '\\' || c == '/' {
        if i >= |s| {
          return true, out, i, c;
        }
        c := s[i];
        i := i + 1;
      }
    }
    out := out + [c];
    return false, out, i, c;
  }

  // The plain scan began at index j, with the text `base` and the character c0.
  ghost predicate Scanning(s: Text, leadSlash: bool, out0: Text, i: nat, out: Text, c: char, sawColon: bool,
                           sawSlash: bool, lastWasSlash: bool, j: nat, base: Text, c0: char) {
    && j <= i <= |s| && ':' !in s[j..i]
    && out == base + Slashed(s[j..i]) && c == LeftWith(s[j..i], c0)
    && lastWasSlash == EndsInSlash(s[j..i])
    && (if sawColon then leadSlash && Volume(s, out0, j, base, c0)
        else j == 0 && base == out0 && c0 == NUL && sawSlash == HasSlash(s[..i]))
  }

  ghost predicate Volume(s: Text, out0: Text, j: nat, base: Text, c0: char) {
    var k := ColonAt(s);
    && k < |s| && !HasSlash(s[..k]) && j <= |s|
    && AfterVolume(s[k + 1..], out0 + s[..k] + "/") == Plain(s[j..], base, c0)
  }

  lemma PlainStep(s: Text, leadSlash: bool, out0: Text, i: nat, out: Text, c: char, sawColon: bool,
                  sawSlash: bool, lastWasSlash: bool, j: nat, base: Text, c0: char)
    requires i < |s| && s[i] != ':' && !IsSlash(s[i])
    requires Scanning(s, leadSlash, out0, i, out, c, sawColon, sawSlash, lastWasSlash, j, base, c0)
    ensures Scanning(s, leadSlash, out0, i + 1, out + [s[i]], s[i], sawColon, sawSlash, false, j, base, c0)
  {
    Step(s, j, i, c0);
    HasSlashStep(s, i);
    assert ':' !in s[j..i + 1];
  }

  lemma SlashStep(s: Text, leadSlash: bool, out0: Text, i: nat, out: Text, c: char, sawColon: bool,
                  sawSlash: bool, lastWasSlash: bool, j: nat, base: Text, c0: char)
    requires i < |s| && IsSlash(s[i]) && !lastWasSlash
    requires Scanning(s, leadSlash, out0, i, out, c, sawColon, sawSlash, lastWasSlash, j, base, c0)
    ensures Scanning(s, leadSlash, out0, i + 1, out + ['/'], '/', sawColon, true, true, j, base, c0)
  {
    Step(s, j, i, c0);
    HasSlashStep(s, i);
    assert ':' !in s[j..i + 1];
  }

  lemma RunStep(s: Text, leadSlash: bool, out0: Text, i: nat, out: Text, c: char, sawColon: bool,
                  sawSlash: bool, lastWasSlash: bool, j: nat, base: Text, c0: char)
    requires i < |s| && IsSlash(s[i]) && lastWasSlash
    requires Scanning(s, leadSlash, out0, i, out, c, sawColon, sawSlash, lastWasSlash, j, base, c0)
    ensures Scanning(s, leadSlash, out0, i + 1, out, s[i], sawColon, sawSlash, true, j, base, c0)
  {
    Step(s, j, i, c0);
    HasSlashStep(s, i);
    assert s[j..i][i - 1 - j] == s[i - 1];
    assert ':' !in s[j..i + 1];
  }

  lemma CharStep(s: Text, leadSlash: bool, out0: Text, i: nat, out: Text, c: char, sawColon: bool,
                 sawSlash: bool, lastWasSlash: bool, j: nat, base: Text, c0: char)
    requires i < |s| && s[i] != ':'
    requires Scanning(s, leadSlash, out0, i, out, c, sawColon, sawSlash, lastWasSlash, j, base, c0)
    ensures !IsSlash(s[i]) ==>
              Scanning(s, leadSlash, out0, i + 1, out + [s[i]], s[i], sawColon, sawSlash, false, j, base, c0)
    ensures IsSlash(s[i]) && !lastWasSlash ==>
              Scanning(s, leadSlash, out0, i + 1, out + ['/'], '/', sawColon, true, true, j, base, c0)
    ensures IsSlash(s[i]) && lastWasSlash ==>
              Scanning(s, leadSlash, out0, i + 1, out, s[i], sawColon, sawSlash, true, j, base, c0)
  {
    if !IsSlash(s[i]) {
      PlainStep(s, leadSlash, out0, i, out, c, sawColon, sawSlash, lastWasSlash, j, base, c0);
    } else if lastWasSlash {
      RunStep(s, leadSlash, out0, i, out, c, sawColon, sawSlash, lastWasSlash, j, base, c0);
    } else {
      SlashStep(s, leadSlash, out0, i, out, c, sawColon, sawSlash, lastWasSlash, j, base, c0);
    }
  }

  lemma HasSlashStep(s: Text, i: nat)
    requires i < |s|
    ensures HasSlash(s[..i + 1]) <==> HasSlash(s[..i]) || IsSlash(s[i])
    ensures i > 0 && IsSlash(s[i - 1]) ==> HasSlash(s[..i])
  {
    assert s[..i + 1] == s[..i] + [s[i]];
    assert i > 0 ==> s[..i][i - 1] in s[..i];
  }

  lemma VolumeStep(s: Text, leadSlash: bool, out0: Text, i: nat, out: Text, c: char, sawSlash: bool, lastWasSlash: bool)
    requires leadSlash && i <= |s| && Volume(s, out0, i, out, c) && !lastWasSlash
    ensures Scanning(s, leadSlash, out0, i, out, c, true, sawSlash, lastWasSlash, i, out, c)
  {
    assert s[i..i] == [];
  }

  lemma FirstColon(s: Text, i: nat, out: Text, out0: Text)
    requires i < |s| && s[i] == ':' && ':' !in s[0..i] && !HasSlash(s[..i]) && out == out0 + Slashed(s[0..i])
    ensures ColonAt(s) == i && out == out0 + s[..i] && !EndsInSlash(s[0..i])
  {
    assert s[0..i] == s[..i];
    ColonAtIs(s, i);
    NoSlashSame(s[..i]);
    HasSlashStep(s, i);
  }

  lemma {:induction false} NoSlashSame(s: Text)
    requires !HasSlash(s)
    ensures Slashed(s) == s
  {
    if s != [] {
      var n := |s| - 1;
      assert s[n] in s && s == s[..n] + [s[n]];
      NoSlashSame(s[..n]);
    }
  }

  lemma ScanOver(s: Text, leadSlash: bool, out0: Text, out: Text, c: char, sawColon: bool,
                 sawSlash: bool, lastWasSlash: bool, j: nat, base: Text, c0: char)
    requires Scanning(s, leadSlash, out0, |s|, out, c, sawColon, sawSlash, lastWasSlash, j, base, c0)
    ensures PassIs(s, leadSlash, out0) == Over(Scanned(out, c))
  {
    assert s[j..|s|] == s[j..];
    if !sawColon {
      assert s[0..] == s && s[..|s|] == s;
      ColonAtIs(s, |s|);
    }
  }

  lemma Step(s: Text, j: nat, i: nat, c0: char)
    requires j <= i < |s|
    ensures Slashed(s[j..i + 1]) ==
            Slashed(s[j..i]) + if !IsSlash(s[i]) then [s[i]] else if EndsInSlash(s[j..i]) then [] else "/"
    ensures LeftWith(s[j..i + 1], c0) == if IsSlash(s[i]) && !EndsInSlash(s[j..i]) then '/' else s[i]
    ensures EndsInSlash(s[j..i + 1]) == IsSlash(s[i])
    ensures s[j..i + 1] == s[j..i] + [s[i]]
  {
    assert s[j..i + 1][..i - j] == s[j..i];
  }

  lemma ColonAgain(s: Text, leadSlash: bool, out0: Text, i: nat, out: Text, sawColon: bool, sawSlash: bool,
                   j: nat, base: Text, c0: char)
    requires j <= i < |s| && s[i] == ':' && ':' !in s[j..i] && (sawColon || sawSlash)
    requires if sawColon then leadSlash && Volume(s, out0, j, base, c0) else j == 0 && sawSlash == HasSlash(s[..i])
    ensures PassIs(s, leadSlash, out0) == Over(BadPath)
  {
    if sawColon {
      assert s[i] == s[j..][i - j];
    } else {
      assert s[0..i] == s[..i];
      ColonAtIs(s, i);
    }
  }

  method ToRebolPath(s: Text, isDir: bool) returns (r: Result)
    ensures r == Rebol(s, isDir)
  {
    var leadSlash := false;
    var pass := Pass(s, leadSlash, []);
    if pass == Restart {
      leadSlash := true;
      pass := Pass(s, leadSlash, "/");
    }
    match pass.scan
    case BadPath =>
      r := BadColon;
    case Scanned(out, c) =>
      r := Ok(if isDir && c != '/' then out + "/" else out);
  }

  // ---- in plain terms ---------------------------------------------------------

  // A run of separators between two texts becomes one slash; what has no separators is
  // kept (NoSlashSame).
  lemma {:induction false} RunIsOneSlash(a: Text, run: Text, b: Text)
    requires run != [] && forall i :: 0 <= i < |run| ==> IsSlash(run[i])
    requires !EndsInSlash(a) && (b != [] ==> !IsSlash(b[0]))
    ensures Slashed(a + run + b) == Slashed(a) + "/" + Slashed(b)
    decreases |run| + |b|
  {
    var s := a + run + b;
    if b != [] {
      var init := b[..|b| - 1];
      assert s[..|s| - 1] == a + run + init;
      RunIsOneSlash(a, run, init);
      assert EndsInSlash(a + run + init) <==> init == [] || EndsInSlash(init);
    } else {
      assert s == a + run && s[..|s| - 1] == a + run[..|run| - 1];
      if |run| == 1 {
        assert a + run[..0] == a;
      } else {
        RunIsOneSlash(a, run[..|run| - 1], []);
        assert a + run[..|run| - 1] + [] == a + run[..|run| - 1];
      }
    }
  }

  // What is converted of a path with a volume: the index of the character after the
  // colon that is copied as it is, behind at most one separator.
  function CopiedAt(s: Text, k: nat): nat {
    if k + 1 < |s| && IsSlash(s[k + 1]) then k + 2 else k + 1
  }

  // The error comes exactly if a colon has a separator before it in a path whose first
  // colon has one, or another colon stands behind the character copied.
  lemma BadColonWhen(s: Text, isDir: bool, k: nat)
    requires k < |s| && s[k] == ':' && ':' !in s[..k]
    ensures Rebol(s, isDir).BadColon? <==>
            HasSlash(s[..k]) || exists i :: CopiedAt(s, k) < i < |s| && s[i] == ':'
  {
    ColonAtIs(s, k);
    var t, at := s[k + 1..], CopiedAt(s, k);
    assert t != [] ==> t[0] == s[k + 1];
    if at < |s| {
      var u := s[at + 1..];
      assert u == if at == k + 1 then t[1..] else t[2..];
      assert ':' in u <==> exists i :: at < i < |s| && s[i] == ':' by {
        forall i | at < i < |s| && s[i] == ':'
          ensures ':' in u
        {
          assert u[i - at - 1] == ':';
        }
      }
    }
  }

  // The volume in front: its name, and the rest with its separators converted.
  lemma VolumeIs(name: Text, t: Text, out: Text)
    requires ':' !in name && !HasSlash(name) && ':' !in t && out == "/" + name + "/"
    ensures t == [] ==> Rebol(name + ":" + t, false) == Ok(out + ":")
    ensures t == "/" || t == "\\" ==> Rebol(name + ":" + t, false) == Ok(out)
    ensures t != [] && !IsSlash(t[0]) ==> Rebol(name + ":" + t, false) == Ok(out + Slashed(t))
    ensures |t| > 1 && IsSlash(t[0]) && !IsSlash(t[1]) ==>
              Rebol(name + ":" + t, false) == Ok(out + Slashed(t[1..]))
  {
    VolumeScan(name, t);
    if t != [] && !IsSlash(t[0]) {
      KeptBehind(t, out);
    } else if |t| > 1 && !IsSlash(t[1]) {
      KeptBehind(t[1..], out);
      assert t[1..][1..] == t[2..];
    }
  }

  lemma KeptBehind(s: Text, out: Text)
    requires s != [] && !IsSlash(s[0]) && ':' !in s
    ensures Plain(s[1..], out + [s[0]], s[0]).Scanned?
    ensures Plain(s[1..], out + [s[0]], s[0]).text == out + Slashed(s)
  {
    FirstKept(s);
    assert out + [s[0]] + Slashed(s[1..]) == out + ([s[0]] + Slashed(s[1..]));
  }

  lemma VolumeScan(name: Text, t: Text)
    requires ':' !in name && !HasSlash(name)
    ensures ScanPath(name + ":" + t) == AfterVolume(t, "/" + name + "/")
  {
    var s, k := name + ":" + t, |name|;
    assert s[..k] == name && s[k + 1..] == t;
    ColonAtIs(s, k);
  }

  lemma {:induction false} FirstKept(s: Text)
    requires s != [] && !IsSlash(s[0])
    ensures Slashed(s) == [s[0]] + Slashed(s[1..])
    decreases |s|
  {
    var init := s[..|s| - 1];
    if |s| == 1 {
      assert init == [] && s[1..] == [];
    } else {
      FirstKept(init);
      assert init[1..] == s[1..][..|s| - 2];
      assert EndsInSlash(init) <==> EndsInSlash(init[1..]);
    }
  }

  // A directory is converted like a file, but for a slash at the end.
  lemma DirectoryAdds(s: Text)
    ensures Rebol(s, true).BadColon? <==> Rebol(s, false).BadColon?
    ensures Rebol(s, true).Ok? ==> Rebol(s, true).path in {Rebol(s, false).path, Rebol(s, false).path + "/"}
  {
  }
}
