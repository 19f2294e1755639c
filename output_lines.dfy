/** How the monitor cuts a command's standard output into lines: it strips the
    output and splits it on a separator. The source passes the two-character
    string backslash-`n` (`AsWrittenSeparator`), not a newline, so the real
    multi-line output of `git status --porcelain` and `df -h /` is never cut.
    The parsing functions take the separator as a parameter; the lemmas here say
    what each separator yields. */
module OutputLines {
  import opened PyStrings

  /** The separator as written at project_health_monitor.py lines 129 and 211. */
  const AsWrittenSeparator := "\\n"

  /** The separator evidently intended there. */
  const LineSeparator := "\n"

  /** `out.strip().split(sep)` */
  function Pieces(out: string, sep: string): (ps: seq<string>)
    requires sep != []
    ensures |ps| >= 1
    ensures Join(ps, sep) == Strip(out)
    ensures forall i :: 0 <= i < |ps| ==> !Contains(ps[i], sep)
  {
    Split(Strip(out), sep)
  }

  /** As written: output without a backslash, such as any output of `git` or
      `df`, is one piece, however many lines it has. */
  lemma NoBackslashOnePiece(out: string)
    requires '\\' !in out
    ensures Pieces(out, AsWrittenSeparator) == [Strip(out)]
  {
    var t := Strip(out);
    AbsentFromSubstring(out, t, '\\');
    forall i: nat ensures !OccursAt(t, AsWrittenSeparator, i) {
      if i + 2 <= |t| { assert t[i..i + 2][0] == t[i]; }
    }
    assert Find(t, AsWrittenSeparator).None?;
  }

  /** A line that holds something besides whitespace. */
  predicate NonBlank(line: string) {
    !AllSpace(line)
  }

  /** What stripping the joined lines leaves of each line: the first loses its
      leading whitespace, the last its trailing whitespace. */
  function Trimmed(lines: seq<string>): (ts: seq<string>)
    requires |lines| >= 1
    ensures |ts| == |lines|
  {
    if |lines| == 1 then [Strip(lines[0])]
    else [StripLeft(lines[0])] + lines[1..|lines| - 1] + [StripRight(lines[|lines| - 1])]
  }

  lemma {:induction false} StripRightJoin(lines: seq<string>, sep: string)
    requires |lines| >= 2 && NonBlank(lines[|lines| - 1])
    ensures StripRight(Join(lines, sep)) == Join(lines[..|lines| - 1] + [StripRight(lines[|lines| - 1])], sep)
  {
    var n := |lines| - 1;
    var last := lines[n];
    if |lines| == 2 {
      assert Join(lines, sep) == lines[0] + sep + last;
      StripRightAppend(lines[0] + sep, last);
      assert lines[..n] + [StripRight(last)] == [lines[0], StripRight(last)];
    } else {
      StripRightJoin(lines[1..], sep);
      assert lines[1..][..|lines[1..]| - 1] == lines[1..n];
      var rest := lines[1..n] + [StripRight(last)];
      assert Join(lines, sep) == lines[0] + sep + Join(lines[1..], sep);
      var j := Join(lines[1..], sep);
      JoinNonBlankTail(lines[1..], sep);
      StripRightAppend(lines[0] + sep, j);
      assert lines[..n] + [StripRight(last)] == [lines[0]] + rest;
    }
  }

  lemma {:induction false} JoinNonBlankTail(lines: seq<string>, sep: string)
    requires |lines| >= 1 && NonBlank(lines[|lines| - 1])
    ensures NonBlank(Join(lines, sep))
  {
    if |lines| > 1 {
      JoinNonBlankTail(lines[1..], sep);
      var a, j := lines[0] + sep, Join(lines[1..], sep);
      var i :| 0 <= i < |j| && !IsSpace(j[i]);
      assert (a + j)[|a| + i] == j[i];
    }
  }

  lemma StripKeepsNonBlank(s: string)
    ensures AllSpace(StripLeft(s)) ==> AllSpace(s)
    ensures AllSpace(StripRight(s)) ==> AllSpace(s)
  {
    var l, r := StripLeft(s), StripRight(s);
    if AllSpace(l) {
      assert s[|s| - |l|..] == l;
      AllSpaceHalves(s, |s| - |l|);
    }
    if AllSpace(r) {
      assert s[..|r|] == r;
      AllSpaceHalves(s, |r|);
    }
  }

  lemma AbsentFromSlice(s: string, i: nat, j: nat, c: char)
    requires i <= j <= |s| && c !in s
    ensures c !in s[i..j]
  {
    forall k | 0 <= k < j - i ensures s[i..j][k] != c { assert s[i..j][k] == s[i + k]; }
  }

  /** Stripping the left end of joined lines trims only the first line. */
  lemma StripLeftJoin(lines: seq<string>, sep: string)
    requires |lines| >= 2 && NonBlank(lines[0])
    ensures StripLeft(Join(lines, sep)) == Join([StripLeft(lines[0])] + lines[1..], sep)
  {
    var t := Join(lines[1..], sep);
    var a := StripLeft(lines[0]);
    var ls := [a] + lines[1..];
    assert ls[0] == a && ls[1..] == lines[1..];
    assert Join(lines, sep) == lines[0] + sep + t == lines[0] + (sep + t);
    assert Join(ls, sep) == a + sep + t == a + (sep + t);
    StripLeftAppend(lines[0], sep + t);
  }

  lemma ReplaceEnds<T>(xs: seq<T>, a: T, b: T)
    requires |xs| >= 2
    ensures var ys, n := [a] + xs[1..], |xs| - 1;
      ys[n] == xs[n] && ys[..n] + [b] == [a] + xs[1..n] + [b]
  {
    var ys, n := [a] + xs[1..], |xs| - 1;
    assert ys[..n] == [a] + xs[1..n];
  }

  lemma TrimmedOfLeft(lines: seq<string>)
    requires |lines| >= 2
    ensures var ls, n := [StripLeft(lines[0])] + lines[1..], |lines| - 1;
      ls[..n] + [StripRight(ls[n])] == Trimmed(lines)
  {
    var n := |lines| - 1;
    ReplaceEnds(lines, StripLeft(lines[0]), StripRight(lines[n]));
  }

  /** Stripping joined non-blank lines trims only the first and the last. */
  lemma StripJoin(lines: seq<string>, sep: string)
    requires |lines| >= 1
    requires forall i :: 0 <= i < |lines| ==> NonBlank(lines[i])
    ensures Strip(Join(lines, sep)) == Join(Trimmed(lines), sep)
  {
    var n := |lines| - 1;
    if n > 0 {
      var ls := [StripLeft(lines[0])] + lines[1..];
      StripLeftJoin(lines, sep);
      assert ls[n] == lines[n];
      StripRightJoin(ls, sep);
      TrimmedOfLeft(lines);
    }
  }

  /** Corrected: with a newline separator, stripped output made of non-blank
      lines without newlines is cut back into exactly those lines, trimmed at
      the two ends, and each piece is still non-blank. */
  lemma NewlineSplitsLines(lines: seq<string>)
    requires |lines| >= 1
    requires forall i :: 0 <= i < |lines| ==> NonBlank(lines[i]) && '\n' !in lines[i]
    ensures Pieces(Join(lines, LineSeparator), LineSeparator) == Trimmed(lines)
    ensures forall i :: 0 <= i < |lines| ==> NonBlank(Trimmed(lines)[i])
  {
    StripJoin(lines, LineSeparator);
    var ts := Trimmed(lines);
    forall i | 0 <= i < |lines| ensures NonBlank(ts[i]) && '\n' !in ts[i] {
      TrimmedLine(lines, i);
    }
    SplitJoin(ts, LineSeparator);
  }

  lemma TrimmedLine(lines: seq<string>, i: nat)
    requires i < |lines|
    requires NonBlank(lines[i]) && '\n' !in lines[i]
    ensures NonBlank(Trimmed(lines)[i]) && '\n' !in Trimmed(lines)[i]
  {
    var l := lines[i];
    TrimmedAt(lines, i);
    StripKeepsLine(l);
  }

  /** Which trimming line `i` undergoes. */
  lemma TrimmedAt(lines: seq<string>, i: nat)
    requires i < |lines|
    ensures Trimmed(lines)[i] ==
      if |lines| == 1 then Strip(lines[i])
      else if i == 0 then StripLeft(lines[i])
      else if i == |lines| - 1 then StripRight(lines[i])
      else lines[i]
  {
    var n := |lines| - 1;
    if n > 0 {
      var mid := lines[1..n];
      var ts := [StripLeft(lines[0])] + mid + [StripRight(lines[n])];
      assert Trimmed(lines) == ts;
      if 0 < i < n { assert ts[i] == mid[i - 1]; }
    }
  }

  /** Trimming keeps a non-blank line without newlines so. */
  lemma StripKeepsLine(l: string)
    requires NonBlank(l) && '\n' !in l
    ensures NonBlank(Strip(l)) && '\n' !in Strip(l)
    ensures NonBlank(StripLeft(l)) && '\n' !in StripLeft(l)
    ensures NonBlank(StripRight(l)) && '\n' !in StripRight(l)
  {
    StripKeepsNonBlank(l);
    AbsentFromSlice(l, |l| - |StripLeft(l)|, |l|, '\n');
    AbsentFromSlice(l, 0, |StripRight(l)|, '\n');
    AbsentFromSubstring(l, Strip(l), '\n');
    var t := Strip(l);
    assert t != [] && !IsSpace(t[0]);
  }
}
