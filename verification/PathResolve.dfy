// What editing the mold buffer in place comes to: a walk over directories.
module PathResolve {
  import opened PathLocal

  // A directory: what it starts with, and the names on the way to it.
  datatype Place = Place(root: Text, names: seq<Text>)

  function Joined(names: seq<Text>, sep: char): Text {
    if names == [] then [] else names[0] + [sep] + Joined(names[1..], sep)
  }

  function Show(p: Place, sep: char): Text {
    p.root + Joined(p.names, sep)
  }

  // A path cut at its slashes; a final slash leaves an empty last name.
  function Names(s: Text): (r: seq<Text>)
    ensures r != []
    decreases |s|
  {
    var n := SegLen(s);
    if n == |s| then [s] else [s[..n]] + Names(s[n + 1..])
  }

  predicate IsDot(name: Text) {
    name == "." || name == ".."
  }

  function Up(p: Place, sep: char): Place {
    if p.names == [] then Place([sep], []) else p.(names := p.names[..|p.names| - 1])
  }

  // A literal name is a name even if it is a dot.
  function Enter(p: Place, name: Text, literal: bool, sep: char): Place {
    if name == "" then p
    else if literal || !IsDot(name) then p.(names := p.names + [name])
    else if name == "." then p
    else Up(p, sep)
  }

  predicate IsFile(name: Text, literal: bool) {
    name != "" && (literal || !IsDot(name))
  }

  // Follow the names; a name directly after an empty one (a doubled slash) is literal.
  function Resolved(p: Place, names: seq<Text>, literal: bool, sep: char): Text
    requires names != []
    decreases |names|
  {
    if |names| > 1 then Resolved(Enter(p, names[0], literal, sep), names[1..], names[0] == "", sep)
    else if IsFile(names[0], literal) then Show(p, sep) + names[0]
    else Show(Enter(p, names[0], literal, sep), sep)
  }

  // A root ends in a separator and has no directory above it but [sep].
  predicate IsRoot(root: Text, sep: char) {
    Ends(root, sep) && BackUp(root, sep) == [sep]
  }

  predicate IsName(name: Text, sep: char) {
    name != "" && '/' !in name && sep !in name
  }

  predicate Proper(p: Place, sep: char) {
    IsRoot(p.root, sep) && forall name :: name in p.names ==> IsName(name, sep)
  }

  // On Windows, names with a backslash in them are outside.
  predicate NoSep(s: Text, sep: char) {
    sep == '/' || sep !in s
  }

  lemma {:induction false} JoinedPush(names: seq<Text>, name: Text, sep: char)
    ensures Joined(names + [name], sep) == Joined(names, sep) + name + [sep]
  {
    if names == [] {
      assert Joined([name], sep) == name + [sep] + Joined([], sep);
    } else {
      assert (names + [name])[1..] == names[1..] + [name];
      JoinedPush(names[1..], name, sep);
      assert names[0] + [sep] + (Joined(names[1..], sep) + name + [sep])
             == names[0] + [sep] + Joined(names[1..], sep) + name + [sep];
    }
  }

  lemma ShowPush(p: Place, name: Text, sep: char)
    ensures Show(p.(names := p.names + [name]), sep) == Show(p, sep) + name + [sep]
  {
    JoinedPush(p.names, name, sep);
  }

  lemma ShowEnds(p: Place, sep: char)
    requires Proper(p, sep)
    ensures Ends(Show(p, sep), sep)
  {
    if p.names != [] {
      var k := |p.names| - 1;
      assert p.names == p.names[..k] + [p.names[k]];
      ShowPush(p.(names := p.names[..k]), p.names[k], sep);
    }
  }

  // ---- backing up -----------------------------------------------------------

  lemma {:induction false} CutStops(out: Text, sep: char, k: nat, n: nat)
    requires k <= n < |out| && out[k] == sep && forall j :: k < j <= n ==> out[j] != sep
    ensures Cut(out, sep, n) == k
  {
    if n > k {
      CutStops(out, sep, k, n - 1);
    }
  }

  lemma BackUpName(out: Text, name: Text, sep: char)
    requires Ends(out, sep) && IsName(name, sep)
    ensures BackUp(out + name + [sep], sep) == out
  {
    var long := out + name + [sep];
    var k := |out| - 1;
    forall j | k < j <= |long| - 2
      ensures long[j] != sep
    {
      assert long[j] == name[j - |out|];
    }
    CutStops(long, sep, k, |long| - 2);
    assert long[..k] + [sep] == out;
  }

  lemma BackUpIsUp(p: Place, sep: char)
    requires Proper(p, sep)
    ensures BackUp(Show(p, sep), sep) == Show(Up(p, sep), sep)
    ensures Proper(Up(p, sep), sep)
  {
    if p.names == [] {
      assert Show(p, sep) == p.root;
    } else {
      var k := |p.names| - 1;
      var above := p.(names := p.names[..k]);
      assert p.names == p.names[..k] + [p.names[k]];
      ShowPush(above, p.names[k], sep);
      ShowEnds(above, sep);
      BackUpName(Show(above, sep), p.names[k], sep);
    }
  }

  // ---- the loops follow the names -------------------------------------------

  // The first character of a segment is copied, and then the others.
  lemma FirstThenRest(out: Text, s: Text, n: nat)
    requires 0 < n <= |s|
    ensures out + [s[0]] + s[1..][..n - 1] == out + s[..n]
    ensures n < |s| ==> s[1..][n..] == s[n + 1..] && s[1..][n - 1] == s[n]
    ensures out + [s[0]] + s[1..] == out + s
  {
    assert [s[0]] + s[1..][..n - 1] == s[..n] && [s[0]] + s[1..] == s;
  }

  lemma {:induction false} SegmentCopies(out: Text, s: Text, full: bool, sep: char)
    requires SegLen(s) > 0 && NoSep(s, sep)
    ensures var n := SegLen(s);
            Segment(out, s, full, sep) ==
              if n == |s| then out + s else Segments(out + s[..n] + [sep], s[n + 1..], full, sep)
    decreases |s|
  {
    var n := SegLen(s);
    var more, rest := out + [s[0]], s[1..];
    assert Segment(out, s, full, sep) == Segment(more, rest, full, sep);
    FirstThenRest(out, s, n);
    if n == 1 {
      assert more == out + s[..1];
      if |s| > 1 {
        assert s[0] in s && s[0] != sep;
        assert !Ends(more, sep);
      }
    } else {
      SegmentCopies(more, rest, full, sep);
    }
  }

  lemma {:induction false} LoopsResolve(p: Place, s: Text, literal: bool, sep: char)
    requires Proper(p, sep) && NoSep(s, sep)
    ensures (if literal then Segment(Show(p, sep), s, true, sep) else Segments(Show(p, sep), s, true, sep))
            == Resolved(p, Names(s), literal, sep)
    decreases |s|
  {
    var n, out := SegLen(s), Show(p, sep);
    var names := Names(s);
    ShowEnds(p, sep);
    if s == [] {
      assert Names(s) == [s];
    } else if n == |s| {
      LastName(p, s, literal, sep);
    } else {
      var rest := s[n + 1..];
      assert names == [s[..n]] + Names(rest) && names[1..] == Names(rest);
      if n == 0 {
        assert s[..0] == "" && rest == s[1..];
        LoopsResolve(p, rest, true, sep);
      } else if !literal && s[..n] == "." {
        LoopsResolve(p, rest, false, sep);
      } else if !literal && s[..n] == ".." {
        BackUpIsUp(p, sep);
        LoopsResolve(Up(p, sep), rest, false, sep);
      } else {
        SegmentCopies(out, s, true, sep);
        ShowPush(p, s[..n], sep);
        LoopsResolve(p.(names := p.names + [s[..n]]), rest, false, sep);
      }
    }
  }

  lemma LastName(p: Place, s: Text, literal: bool, sep: char)
    requires Proper(p, sep) && NoSep(s, sep) && s != [] && SegLen(s) == |s|
    ensures (if literal then Segment(Show(p, sep), s, true, sep) else Segments(Show(p, sep), s, true, sep))
            == Resolved(p, [s], literal, sep)
  {
    assert s[..|s|] == s;
    if !literal && s == ".." {
      BackUpIsUp(p, sep);
    } else if literal || s != "." {
      SegmentCopies(Show(p, sep), s, true, sep);
    }
  }

  // ---- whether the cuts are right -------------------------------------------------

  // The size in bytes is right when a directory is gone back from: the character
  // before the separator that is cut at, or before the text, is a single byte.
  predicate UpCuts(p: Place, prior: nat) {
    var n := |p.names|;
    if n == 0 || (n == 1 && |p.root| == 1) then prior == 1
    else if n == 1 then |p.root| > 1 && Width(p.root[|p.root| - 2]) == 1
    else p.names[n - 2] != "" && Width(p.names[n - 2][|p.names[n - 2]| - 1]) == 1
  }

  predicate BacksCut(p: Place, names: seq<Text>, literal: bool, sep: char, prior: nat)
    decreases |names|
  {
    names != [] ==>
      && (names[0] == ".." && !literal ==> UpCuts(p, prior))
      && BacksCut(Enter(p, names[0], literal, sep), names[1..], names[0] == "", sep, prior)
  }

  // The separator that is cut at is the one before the last name.
  lemma CutAtSep(p: Place, sep: char)
    requires Proper(p, sep)
    ensures var out := Show(p, sep);
            var n := if |out| == 1 then 0 else Cut(out, sep, |out| - 2);
            n == if p.names == [] then 0 else |Show(p.(names := p.names[..|p.names| - 1]), sep)| - 1
  {
    var out := Show(p, sep);
    if p.names == [] {
      assert out == p.root;
      assert |BackUp(out, sep)| == 1;
    } else {
      var k := |p.names| - 1;
      var above := p.(names := p.names[..k]);
      assert p.names == p.names[..k] + [p.names[k]];
      ShowPush(above, p.names[k], sep);
      ShowEnds(above, sep);
      BackUpName(Show(above, sep), p.names[k], sep);
    }
  }

  // What stands before the last separator of a directory.
  lemma BeforeLastSep(p: Place, sep: char)
    requires Proper(p, sep)
    ensures p.names == [] ==> Show(p, sep) == p.root
    ensures p.names != [] ==>
              var out, last := Show(p, sep), p.names[|p.names| - 1];
              last != "" && |out| > 1 && out[|out| - 2] == last[|last| - 1]
  {
    if p.names != [] {
      var k := |p.names| - 1;
      assert p.names == p.names[..k] + [p.names[k]];
      assert p.names[k] in p.names;
      ShowPush(p.(names := p.names[..k]), p.names[k], sep);
    }
  }

  lemma AboveIsPrefix(p: Place, sep: char)
    requires Proper(p, sep) && p.names != []
    ensures var above := p.(names := p.names[..|p.names| - 1]);
            Proper(above, sep) && Show(above, sep) <= Show(p, sep) && Ends(Show(above, sep), sep)
  {
    var k := |p.names| - 1;
    var above := p.(names := p.names[..k]);
    assert p.names == p.names[..k] + [p.names[k]];
    ShowPush(above, p.names[k], sep);
    ShowEnds(above, sep);
    assert Show(above, sep) + p.names[k] + [sep] == Show(above, sep) + (p.names[k] + [sep]);
  }

  lemma BeforeCut(p: Place, sep: char, n: nat, prior: nat)
    requires Proper(p, sep) && n < |Show(p, sep)|
    requires n == if p.names == [] then 0 else |Show(p.(names := p.names[..|p.names| - 1]), sep)| - 1
    ensures (if n == 0 then prior else Width(Show(p, sep)[n - 1])) == 1 <==> UpCuts(p, prior)
  {
    if p.names != [] {
      var k := |p.names| - 1;
      var above := p.(names := p.names[..k]);
      AboveIsPrefix(p, sep);
      BeforeLastSep(above, sep);
      assert n > 0 ==> Show(p, sep)[n - 1] == Show(above, sep)[n - 1];
      assert k > 0 ==> above.names[k - 1] == p.names[k - 1];
    }
  }

  lemma UpCutsRight(p: Place, sep: char, prior: nat)
    requires Proper(p, sep)
    ensures CutsRight(Show(p, sep), sep, prior) <==> UpCuts(p, prior)
  {
    ShowEnds(p, sep);
    CutAtSep(p, sep);
    var out := Show(p, sep);
    var n := if |out| == 1 then 0 else Cut(out, sep, |out| - 2);
    CutSizeIs(out, n, prior);
    BeforeCut(p, sep, n, prior);
  }

  lemma {:induction false} SegmentCopiesCut(out: Text, s: Text, sep: char, prior: nat)
    requires SegLen(s) > 0 && NoSep(s, sep)
    ensures var n := SegLen(s);
            SegmentCut(out, s, true, sep, prior)
            == (n == |s| || SegmentsCut(out + s[..n] + [sep], s[n + 1..], true, sep, prior))
    decreases |s|
  {
    var n := SegLen(s);
    var more, rest := out + [s[0]], s[1..];
    assert SegmentCut(out, s, true, sep, prior) == SegmentCut(more, rest, true, sep, prior);
    FirstThenRest(out, s, n);
    if n == 1 {
      assert more == out + s[..1];
      if |s| > 1 {
        assert s[0] in s && s[0] != sep;
        assert !Ends(more, sep);
      }
    } else {
      SegmentCopiesCut(more, rest, sep, prior);
    }
  }

  // The loops cut right exactly if each `..` that they obey does.
  lemma {:induction false} LoopsCut(p: Place, s: Text, literal: bool, sep: char, prior: nat)
    requires Proper(p, sep) && NoSep(s, sep)
    ensures (if literal then SegmentCut(Show(p, sep), s, true, sep, prior)
             else SegmentsCut(Show(p, sep), s, true, sep, prior))
            == BacksCut(p, Names(s), literal, sep, prior)
    decreases |s|
  {
    var n, out := SegLen(s), Show(p, sep);
    var names := Names(s);
    ShowEnds(p, sep);
    if s == [] {
      assert Names(s) == [s];
    } else if n == |s| {
      LastNameCut(p, s, literal, sep, prior);
    } else {
      var rest := s[n + 1..];
      assert names == [s[..n]] + Names(rest) && names[1..] == Names(rest);
      if n == 0 {
        assert s[..0] == "" && rest == s[1..];
        LoopsCut(p, rest, true, sep, prior);
      } else if !literal && s[..n] == "." {
        LoopsCut(p, rest, false, sep, prior);
      } else if !literal && s[..n] == ".." {
        BackUpIsUp(p, sep);
        UpCutsRight(p, sep, prior);
        LoopsCut(Up(p, sep), rest, false, sep, prior);
      } else {
        SegmentCopiesCut(out, s, sep, prior);
        ShowPush(p, s[..n], sep);
        LoopsCut(p.(names := p.names + [s[..n]]), rest, false, sep, prior);
      }
    }
  }

  lemma LastNameCut(p: Place, s: Text, literal: bool, sep: char, prior: nat)
    requires Proper(p, sep) && NoSep(s, sep) && s != [] && SegLen(s) == |s|
    ensures (if literal then SegmentCut(Show(p, sep), s, true, sep, prior)
             else SegmentsCut(Show(p, sep), s, true, sep, prior))
            == BacksCut(p, [s], literal, sep, prior)
  {
    assert s[..|s|] == s;
    if !literal && s == ".." {
      UpCutsRight(p, sep, prior);
    } else if literal || s != "." {
      SegmentCopiesCut(Show(p, sep), s, sep, prior);
    }
  }

  // ---- without FULL, slashes are collapsed ------------------------------------

  function Squeezed(s: Text, last: bool, sep: char): (r: Text)
    ensures |r| <= |s|
  {
    if s == [] then []
    else if s[0] != '/' then [s[0]] + Squeezed(s[1..], s[0] == sep, sep)
    else if last then Squeezed(s[1..], true, sep)
    else [sep] + Squeezed(s[1..], true, sep)
  }

  lemma {:induction false} LoopsSqueeze(out: Text, s: Text, sep: char)
    ensures Segments(out, s, false, sep) == out + Squeezed(s, Ends(out, sep), sep)
    decreases |s|
  {
    if s != [] {
      var more := if s[0] != '/' then out + [s[0]] else if Ends(out, sep) then out else out + [sep];
      LoopsSqueeze(more, s[1..], sep);
      assert Segments(out, s, false, sep) == Segment(out, s, false, sep);
      assert Segments(more, s[1..], false, sep) == Segment(more, s[1..], false, sep);
    }
  }

  predicate Doubled(s: Text) {
    exists i :: 0 <= i < |s| - 1 && s[i] == '/' == s[i + 1]
  }

  // Nothing is lost exactly if no slash follows a slash.
  lemma {:induction false} SqueezedSame(s: Text, last: bool)
    ensures Squeezed(s, last, '/') == s <==> !Doubled(s) && !(last && s != [] && s[0] == '/')
  {
    if s != [] {
      var rest := s[1..];
      SqueezedSame(rest, s[0] == '/');
      assert s == [s[0]] + rest;
      if Doubled(rest) {
        var i :| 0 <= i < |rest| - 1 && rest[i] == '/' == rest[i + 1];
        assert s[i + 1] == '/' == s[i + 1 + 1];
      }
      if Doubled(s) {
        var i :| 0 <= i < |s| - 1 && s[i] == '/' == s[i + 1];
        assert i > 0 ==> rest[i - 1] == '/' == rest[i];
      }
    }
  }

  lemma {:induction false} SqueezedName(name: Text, s: Text, last: bool, sep: char)
    requires '/' !in name && sep !in name && name != []
    ensures Squeezed(name + ['/'] + s, last, sep) == name + [sep] + Squeezed(s, true, sep)
    decreases |name|
  {
    var long := name + ['/'] + s;
    assert name[0] in name;
    if |name| == 1 {
      assert long[1..] == ['/'] + s && (['/'] + s)[1..] == s;
      assert Squeezed(['/'] + s, false, sep) == [sep] + Squeezed(s, true, sep);
      assert name == [name[0]];
    } else {
      assert long[1..] == name[1..] + ['/'] + s;
      SqueezedName(name[1..], s, false, sep);
      assert [name[0]] + (name[1..] + [sep] + Squeezed(s, true, sep)) == name + [sep] + Squeezed(s, true, sep) by {
        assert [name[0]] + name[1..] == name;
      }
    }
  }

  lemma {:induction false} SqueezedJoined(names: seq<Text>, sep: char)
    requires forall name :: name in names ==> IsName(name, sep)
    ensures Squeezed(Joined(names, '/'), true, sep) == Joined(names, sep)
  {
    if names != [] {
      assert names[0] in names;
      SqueezedName(names[0], Joined(names[1..], '/'), true, sep);
      SqueezedJoined(names[1..], sep);
    }
  }
}
