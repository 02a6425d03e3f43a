// From a Rebol file path to a local one, in the mold buffer (mod-filesystem.c).
// Text is a sequence of codepoints; reading past its end gives the terminator. The
// buffer holds it as UTF-8, so that going back a directory has two sizes to set.
module PathLocal {

  type Text = seq<char>

  const NUL := '\0'

  function At(s: Text, i: nat): char {
    if i < |s| then s[i] else NUL
  }

  predicate NoNul(s: Text) {
    NUL !in s
  }

  function Sep(windows: bool): char {
    if windows then '\\' else '/'
  }

  // The length of the first segment: up to a slash or the end.
  function SegLen(s: Text): (n: nat)
    ensures n <= |s| && '/' !in s[..n]
    ensures n < |s| ==> s[n] == '/'
  {
    if s == [] || s[0] == '/' then 0 else 1 + SegLen(s[1..])
  }

  lemma {:induction false} SegLenIs(s: Text, n: nat)
    requires n <= |s| && '/' !in s[..n] && (n < |s| ==> s[n] == '/')
    ensures SegLen(s) == n
  {
    if n > 0 {
      assert s[0] == s[..n][0];
      assert s[1..][..n - 1] == s[..n][1..];
      SegLenIs(s[1..], n - 1);
    }
  }

  // ---- sizes in bytes ---------------------------------------------------------

  // The bytes of a codepoint in UTF-8.
  function Width(c: char): (n: nat)
    ensures 1 <= n <= 4
  {
    if c as int < 0x80 then 1 else if c as int < 0x800 then 2 else if c as int < 0x1_0000 then 3 else 4
  }

  function Bytes(s: Text): nat {
    if s == [] then 0 else Bytes(s[..|s| - 1]) + Width(s[|s| - 1])
  }

  // The size set when the text is cut at index n: the code steps back one character
  // more, and adds one. Before the text stands a character of `prior` bytes.
  function CutSize(out: Text, n: nat, prior: nat): int
    requires n <= |out|
  {
    if n == 0 then 1 - prior else Bytes(out[..n - 1]) + 1
  }

  // That is the size of the text exactly if the character before the cut is one byte.
  lemma CutSizeIs(out: Text, n: nat, prior: nat)
    requires n <= |out|
    ensures CutSize(out, n, prior) == Bytes(out[..n]) <==> (if n == 0 then prior else Width(out[n - 1])) == 1
  {
    if n > 0 {
      assert out[..n][..n - 1] == out[..n - 1];
    }
  }

  lemma BytesSnoc(out: Text, n: nat)
    requires n < |out|
    ensures Bytes(out[..n + 1]) == Bytes(out[..n]) + Width(out[n])
  {
    assert out[..n + 1][..n] == out[..n];
  }

  // ---- what the loops compute -----------------------------------------------

  // Where the text is cut to go back a directory: at the separator before the last one.
  function Cut(out: Text, sep: char, n: nat): (r: nat)
    requires n < |out|
    ensures r <= n
  {
    if n == 0 || out[n] == sep then n else Cut(out, sep, n - 1)
  }

  function BackUp(out: Text, sep: char): Text {
    if |out| == 0 then [sep]
    else if |out| == 1 then [sep]
    else out[..Cut(out, sep, |out| - 2)] + [sep]
  }

  // Going back a directory: the text ends in a separator, as the code asserts, and
  // is cut to as many bytes as it has left.
  predicate CutsRight(out: Text, sep: char, prior: nat) {
    out != [] ==>
      var n := if |out| == 1 then 0 else Cut(out, sep, |out| - 2);
      Ends(out, sep) && CutSize(out, n, prior) == Bytes(out[..n])
  }

  // The rest of the path, from the start of a segment.
  function Segments(out: Text, s: Text, full: bool, sep: char): Text
    decreases |s|, 1
  {
    var n := SegLen(s);
    if s == [] then out
    else if full && s[..n] == "." then
      if n == |s| then out else Segments(out, s[n + 1..], full, sep)
    else if full && s[..n] == ".." then
      if n == |s| then BackUp(out, sep) else Segments(BackUp(out, sep), s[n + 1..], full, sep)
    else Segment(out, s, full, sep)
  }

  // The rest of the path, with no look at dots until a separator is put out.
  function Segment(out: Text, s: Text, full: bool, sep: char): Text
    decreases |s|, 0
  {
    if s == [] then out
    else if s[0] != '/' then Segment(out + [s[0]], s[1..], full, sep)
    else if Ends(out, sep) then Segment(out, s[1..], full, sep)
    else Segments(out + [sep], s[1..], full, sep)
  }

  // Every cut on the way is right.
  predicate SegmentsCut(out: Text, s: Text, full: bool, sep: char, prior: nat)
    decreases |s|, 1
  {
    var n := SegLen(s);
    if s == [] then true
    else if full && s[..n] == "." then n == |s| || SegmentsCut(out, s[n + 1..], full, sep, prior)
    else if full && s[..n] == ".." then
      CutsRight(out, sep, prior) && (n == |s| || SegmentsCut(BackUp(out, sep), s[n + 1..], full, sep, prior))
    else SegmentCut(out, s, full, sep, prior)
  }

  predicate SegmentCut(out: Text, s: Text, full: bool, sep: char, prior: nat)
    decreases |s|, 0
  {
    if s == [] then true
    else if s[0] != '/' then SegmentCut(out + [s[0]], s[1..], full, sep, prior)
    else if Ends(out, sep) then SegmentCut(out, s[1..], full, sep, prior)
    else SegmentsCut(out + [sep], s[1..], full, sep, prior)
  }

  // Without FULL nothing is cut.
  lemma {:induction false} NothingCut(out: Text, s: Text, sep: char, prior: nat)
    ensures SegmentsCut(out, s, false, sep, prior) && SegmentCut(out, s, false, sep, prior)
    decreases |s|
  {
    if s != [] {
      var more := if s[0] != '/' then out + [s[0]] else if Ends(out, sep) then out else out + [sep];
      NothingCut(more, s[1..], sep, prior);
    }
  }

  predicate Ends(out: Text, sep: char) {
    out != [] && out[|out| - 1] == sep
  }

  // What is put out before the first segment, and where that segment starts.
  function Head(path: Text, full: bool, windows: bool, cwd: Text): (r: (Text, nat))
    ensures r.1 <= |path|
    decreases full, 0
  {
    if At(path, 0) == '/' then
      if windows && |path| > 1 && path[1] != '/' then
        if At(path, 2) == '/' then ([path[1], ':', '\\'], 3) else ("\\\\", 1)
      else ([Sep(windows)], 1)
    else if full then (Local(cwd, false, windows, []), 0)
    else ([], 0)
  }

  function Local(path: Text, full: bool, windows: bool, cwd: Text): Text
    decreases full, 1
  {
    var (out, i) := Head(path, full, windows, cwd);
    Segments(out, path[i..], full, Sep(windows))
  }

  predicate LocalCuts(path: Text, full: bool, windows: bool, cwd: Text, prior: nat) {
    var (out, i) := Head(path, full, windows, cwd);
    SegmentsCut(out, path[i..], full, Sep(windows), prior)
  }

  // ---- Mold_File_To_Local ---------------------------------------------------

  // Not intact if the text was cut in the middle of a character, or before its start;
  // what becomes of it then is not followed.
  method MoldFileToLocal(path: Text, full: bool, noTailSlash: bool, wild: bool, windows: bool, cwd: Text, prior: nat)
      returns (out: Text, intact: bool)
    requires NoNul(path) && NoNul(cwd)
    ensures intact <==> LocalCuts(path, full, windows, cwd, prior)
    ensures intact && !wild && !noTailSlash ==> out == Local(path, full, windows, cwd)
    ensures intact && !wild && noTailSlash ==>
              var text := Local(path, full, windows, cwd);
              if Ends(text, Sep(windows)) then out + [Sep(windows)] == text else out == text
    ensures intact && wild ==>
              var text := Local(path, full, windows, cwd);
              if noTailSlash && Ends(text, Sep(windows)) then out == text[..|text| - 1] + "*" else out == text + "*"
    decreases full, 1
  {
    var sep := Sep(windows);
    var i;
    out, i := PutHead(path, full, windows, cwd, prior);
    while i < |path|
      invariant i <= |path| + 1
      invariant Segments(out, From(path, i), full, sep) == Local(path, full, windows, cwd)
      invariant SegmentsCut(out, From(path, i), full, sep, prior) == LocalCuts(path, full, windows, cwd, prior)
      decreases |path| + 1 - i
    {
      out, i, intact := OneSegment(path, i, out, full, sep, prior);
      if !intact {
        return;
      }
    }
    intact := true;
    if noTailSlash && Ends(out, sep) {
      out := out[..|out| - 1];
    }
    if wild {
      out := out + "*";
    }
  }

  // Lines 203-263.
  method PutHead(path: Text, full: bool, windows: bool, cwd: Text, prior: nat) returns (out: Text, i: nat)
    requires NoNul(path) && NoNul(cwd)
    ensures i <= |path| && out == Head(path, full, windows, cwd).0 && i == Head(path, full, windows, cwd).1
    decreases full, 0
  {
    var sep := Sep(windows);
    i := 0;
    out := [];
    var c := At(path, i);
    if c == '/' {
      i := i + 1;
      c := At(path, i);
      assert |path| > 1 ==> path[1] in path;
      if windows && c != NUL && c != '/' {
        var d := At(path, i + 1);
        if d == '/' {
          out := [c, ':'];
          i := i + 2;
        } else {
          out := [sep];
        }
      }
      out := out + [sep];
    } else if full {
      var (start, at) := Head(cwd, false, windows, []);
      NothingCut(start, cwd[at..], sep, prior);
      var intact;
      out, intact := MoldFileToLocal(cwd, false, false, false, windows, [], prior);
    }
  }

  function From(s: Text, i: nat): Text {
    if i <= |s| then s[i..] else []
  }

  // Lines 269-398: one turn of the outer loop. After a last `.` it ends past the terminator.
  method OneSegment(path: Text, start: nat, out0: Text, full: bool, sep: char, prior: nat)
      returns (out: Text, i: nat, intact: bool)
    requires start < |path| && NoNul(path)
    ensures start < i <= |path| + 1
    ensures intact ==> Segments(out, From(path, i), full, sep) == Segments(out0, path[start..], full, sep)
    ensures intact ==>
              SegmentsCut(out, From(path, i), full, sep, prior) == SegmentsCut(out0, path[start..], full, sep, prior)
    ensures !intact ==> !SegmentsCut(out0, path[start..], full, sep, prior)
  {
    out, i, intact := out0, start, true;
    var c := At(path, i);
    DotSegment(out, path[start..], full, sep);
    DotSegmentCut(out, path[start..], full, sep, prior);
    if full && c == '.' {
      i := i + 1;
      c := At(path, i);
      if c == NUL || c == '/' {
        i := i + 1;
        return;
      }
      if c != '.' {
        out := out + ".";
      } else {
        i := i + 1;
        c := At(path, i);
        if c == NUL || c == '/' {
          out, intact := BackOneDir(out, sep, prior);
          if i < |path| {
            i := i + 1;
          }
          return;
        }
        out := out + "..";
      }
    }
    out, i := CopySegment(path, i, out, full, sep, prior);
  }

  // What the lookahead of at most two characters tells about a segment.
  lemma DotSegment(out: Text, s: Text, full: bool, sep: char)
    requires s != [] && NoNul(s)
    ensures full && s[0] == '.' && (At(s, 1) == NUL || At(s, 1) == '/') ==>
              Segments(out, s, full, sep) == Segments(out, From(s, 2), full, sep)
    ensures full && s[0] == '.' && At(s, 1) == '.' && (At(s, 2) == NUL || At(s, 2) == '/') ==>
              Segments(out, s, full, sep) == Segments(BackUp(out, sep), From(s, 3), full, sep)
    ensures !full || s[0] != '.' ==> Segments(out, s, full, sep) == Segment(out, s, full, sep)
    ensures s[0] == '.' && At(s, 1) !in {NUL, '/', '.'} ==>
              Segments(out, s, full, sep) == Segment(out + ".", s[1..], full, sep)
    ensures s[0] == '.' && At(s, 1) == '.' && At(s, 2) !in {NUL, '/'} ==>
              Segments(out, s, full, sep) == Segment(out + "..", s[2..], full, sep)
  {
    if s[0] == '.' {
      assert At(s, 1) == NUL <==> |s| == 1;
      if |s| == 1 || s[1] == '/' {
        SegLenIs(s, 1);
      } else if s[1] == '.' && (|s| == 2 || s[2] == '/') {
        SegLenIs(s, 2);
      } else if s[1] == '.' {
        assert SegLen(s) > 2 by {
          assert SegLen(s[1..]) > 1;
        }
        assert s[1..][1..] == s[2..] && (out + ['.']) + ['.'] == out + "..";
        assert Segment(out, s, full, sep) == Segment(out + ['.'], s[1..], full, sep);
      }
    }
  }

  lemma DotSegmentCut(out: Text, s: Text, full: bool, sep: char, prior: nat)
    requires s != [] && NoNul(s)
    ensures full && s[0] == '.' && (At(s, 1) == NUL || At(s, 1) == '/') ==>
              SegmentsCut(out, s, full, sep, prior) == SegmentsCut(out, From(s, 2), full, sep, prior)
    ensures full && s[0] == '.' && At(s, 1) == '.' && (At(s, 2) == NUL || At(s, 2) == '/') ==>
              SegmentsCut(out, s, full, sep, prior)
              == (CutsRight(out, sep, prior) && SegmentsCut(BackUp(out, sep), From(s, 3), full, sep, prior))
    ensures !full || s[0] != '.' ==> SegmentsCut(out, s, full, sep, prior) == SegmentCut(out, s, full, sep, prior)
    ensures s[0] == '.' && At(s, 1) !in {NUL, '/', '.'} ==>
              SegmentsCut(out, s, full, sep, prior) == SegmentCut(out + ".", s[1..], full, sep, prior)
    ensures s[0] == '.' && At(s, 1) == '.' && At(s, 2) !in {NUL, '/'} ==>
              SegmentsCut(out, s, full, sep, prior) == SegmentCut(out + "..", s[2..], full, sep, prior)
  {
    if s[0] == '.' {
      assert At(s, 1) == NUL <==> |s| == 1;
      if |s| == 1 || s[1] == '/' {
        SegLenIs(s, 1);
      } else if s[1] == '.' && (|s| == 2 || s[2] == '/') {
        SegLenIs(s, 2);
      } else if s[1] == '.' {
        assert SegLen(s) > 2 by {
          assert SegLen(s[1..]) > 1;
        }
        assert s[1..][1..] == s[2..] && (out + ['.']) + ['.'] == out + "..";
        assert SegmentCut(out, s, full, sep, prior) == SegmentCut(out + ['.'], s[1..], full, sep, prior);
      }
    }
  }

  // Lines 305-338.
  method BackOneDir(out0: Text, sep: char, prior: nat) returns (out: Text, intact: bool)
    ensures out == BackUp(out0, sep)
    ensures intact <==> CutsRight(out0, sep, prior)
  {
    out, intact := out0, true;
    var n := |out|;
    if n > 0 {
      // tp is the offset of the character at n.
      var tp := Bytes(out);
      n := n - 1;
      var c2 := out[n];
      assert out[..n + 1] == out;
      tp := BackChr(out, n, tp);
      intact := c2 == sep;
      if n > 0 {
        n := n - 1;
        c2 := out[n];
        tp := BackChr(out, n, tp);
      }
      ghost var m := n;
      while n > 0 && c2 != sep
        invariant n <= m && c2 == out[n] && tp == Bytes(out[..n])
        invariant Cut(out, sep, n) == Cut(out, sep, m)
      {
        n := n - 1;
        c2 := out[n];
        tp := BackChr(out, n, tp);
      }
      var size := 1 - prior;
      if n > 0 {
        tp := BackChr(out, n - 1, tp);
        size := tp + 1;
      }
      intact := intact && size == Bytes(out[..n]);
      out := out[..n];
    }
    out := out + [sep];
  }

  // BACK_CHR: from behind the character at n to its start.
  method BackChr(out: Text, n: nat, tp: nat) returns (start: nat)
    requires n < |out| && tp == Bytes(out[..n + 1])
    ensures start == Bytes(out[..n])
  {
    BytesSnoc(out, n);
    start := tp - Width(out[n]);
  }

  // Lines 355-388.
  method CopySegment(path: Text, start: nat, out0: Text, full: bool, sep: char, ghost prior: nat)
      returns (out: Text, i: nat)
    requires start <= |path|
    ensures start <= i <= |path| && (start < |path| ==> start < i)
    ensures Segments(out, path[i..], full, sep) == Segment(out0, path[start..], full, sep)
    ensures SegmentsCut(out, path[i..], full, sep, prior) == SegmentCut(out0, path[start..], full, sep, prior)
  {
    out, i := out0, start;
    while i < |path|
      invariant start <= i <= |path|
      invariant Segment(out, path[i..], full, sep) == Segment(out0, path[start..], full, sep)
      invariant SegmentCut(out, path[i..], full, sep, prior) == SegmentCut(out0, path[start..], full, sep, prior)
    {
      var c := At(path, i);
      i := i + 1;
      if c != '/' {
        out := out + [c];
      } else if !Ends(out, sep) {
        out := out + [sep];
        return;
      }
    }
  }
}
