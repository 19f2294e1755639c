/** The few Python string operations the two tools rely on, as functions on
    `string` (a sequence of Unicode code points): `str.isspace`, `str.strip`,
    `sub in s`, `s[:n]`, `str.split(sep)`, `str.split()`, `str(n)`,
    `str.replace` of one character and `str.title` on ASCII letters. */
module PyStrings {
  import opened Wrappers

  /** The characters for which Python's `str.isspace()` is true. */
  const Whitespace: set<char> := {
    ' ', '\t', '\n', '\U{b}', '\U{c}', '\r', '\U{1c}', '\U{1d}', '\U{1e}', '\U{1f}',
    '\U{85}', '\U{a0}', '\U{1680}', '\U{2000}', '\U{2001}', '\U{2002}', '\U{2003}',
    '\U{2004}', '\U{2005}', '\U{2006}', '\U{2007}', '\U{2008}', '\U{2009}', '\U{200a}',
    '\U{2028}', '\U{2029}', '\U{202f}', '\U{205f}', '\U{3000}'
  }

  predicate IsSpace(c: char) {
    c in Whitespace
  }

  predicate AllSpace(s: string) {
    forall i :: 0 <= i < |s| ==> IsSpace(s[i])
  }

  /** `sub` occurs in `s` starting at position `i`. */
  predicate OccursAt(s: string, sub: string, i: nat) {
    i + |sub| <= |s| && s[i..i + |sub|] == sub
  }

  /** `sub in s` */
  predicate Contains(s: string, sub: string) {
    exists i: nat | i <= |s| :: OccursAt(s, sub, i)
  }

  /** `s[:n]` for a non-negative `n`, on strings and lists alike. */
  function Take<T>(s: seq<T>, n: nat): (r: seq<T>)
    ensures |r| <= n && |r| <= |s|
    ensures |r| == n || r == s
    ensures r == s[..|r|]
  {
    if n <= |s| then s[..n] else s
  }

  /** How much of an exception's or a response's text the health monitor keeps
      in an error record (`str(e)[:100]`, `response.text[:100]`). */
  const ErrorLength := 100

  /** `s.lstrip()` */
  function StripLeft(s: string): (r: string)
    ensures |r| <= |s| && r == s[|s| - |r|..]
    ensures r == [] || !IsSpace(r[0])
    ensures AllSpace(s[..|s| - |r|])
  {
    if s == [] || !IsSpace(s[0]) then s else StripLeft(s[1..])
  }

  /** `s.rstrip()` */
  function StripRight(s: string): (r: string)
    ensures |r| <= |s| && r == s[..|r|]
    ensures r == [] || !IsSpace(r[|r| - 1])
    ensures AllSpace(s[|r|..])
  {
    if s == [] || !IsSpace(s[|s| - 1]) then s else StripRight(s[..|s| - 1])
  }

  /** `r` is a slice of `s` with only whitespace before and after it. */
  predicate SurroundedBySpace(s: string, r: string) {
    exists i :: 0 <= i && i + |r| <= |s| && r == s[i..i + |r|] && AllSpace(s[..i]) && AllSpace(s[i + |r|..])
  }

  /** `s.strip()`: the whitespace at both ends removed and nothing else. */
  function Strip(s: string): (r: string)
    ensures r == [] <==> AllSpace(s)
    ensures r == [] || (!IsSpace(r[0]) && !IsSpace(r[|r| - 1]))
    ensures Contains(s, r)
  {
    StripFacts(s, StripLeft(s), StripRight(StripLeft(s)));
    StripRight(StripLeft(s))
  }

  /** `strip` removes whitespace at the two ends only: what it returns is a
      slice of the input with nothing but whitespace before and after it. */
  lemma StripOnlyEnds(s: string)
    ensures SurroundedBySpace(s, Strip(s))
  {
    StripFacts(s, StripLeft(s), StripRight(StripLeft(s)));
  }

  /** What `Strip` promises, from what `StripLeft` and `StripRight` promise:
      `l` is `s` without its leading whitespace, `r` is `l` without its
      trailing whitespace. */
  lemma StripFacts(s: string, l: string, r: string)
    requires |l| <= |s| && l == s[|s| - |l|..] && (l == [] || !IsSpace(l[0])) && AllSpace(s[..|s| - |l|])
    requires |r| <= |l| && r == l[..|r|] && (r == [] || !IsSpace(r[|r| - 1])) && AllSpace(l[|r|..])
    ensures r == [] <==> AllSpace(s)
    ensures r == [] || (!IsSpace(r[0]) && !IsSpace(r[|r| - 1]))
    ensures Contains(s, r)
    ensures SurroundedBySpace(s, r)
  {
    var k := |s| - |l|;
    assert s[k..k + |r|] == r by {
      forall j | 0 <= j < |r| ensures s[k..k + |r|][j] == r[j] {
        assert r[j] == l[j] == s[k + j];
      }
    }
    assert OccursAt(s, r, k);
    assert s[k + |r|..] == l[|r|..];
    if r == [] {
      assert l == [] by { assert l[0..] == l; }
      assert s[..k] == s;
    } else {
      assert r[0] == l[0] == s[k];
    }
  }

  lemma AllSpaceHalves(s: string, k: nat)
    requires k <= |s| && AllSpace(s[..k]) && AllSpace(s[k..])
    ensures AllSpace(s)
  {
    forall i | 0 <= i < |s| ensures IsSpace(s[i]) {
      if i < k { assert s[i] == s[..k][i]; } else { assert s[i] == s[k..][i - k]; }
    }
  }

  lemma {:induction false} StripRightOfStripped(s: string)
    requires s == [] || !IsSpace(s[|s| - 1])
    ensures StripRight(s) == s
  {
  }

  /** Stripping the left end of `a + b` stops inside `a` when `a` is not all whitespace. */
  lemma {:induction false} StripLeftAppend(a: string, b: string)
    requires !AllSpace(a)
    ensures StripLeft(a + b) == StripLeft(a) + b
  {
    assert (a + b)[0] == a[0];
    if IsSpace(a[0]) {
      assert (a + b)[1..] == a[1..] + b;
      assert !AllSpace(a[1..]) by {
        var i :| 0 <= i < |a| && !IsSpace(a[i]);
        assert i > 0 && a[1..][i - 1] == a[i];
      }
      StripLeftAppend(a[1..], b);
    }
  }

  /** Stripping the right end of `a + b` stops inside `b` when `b` is not all whitespace. */
  lemma {:induction false} StripRightAppend(a: string, b: string)
    requires !AllSpace(b)
    ensures StripRight(a + b) == a + StripRight(b)
  {
    var n := |b| - 1;
    if IsSpace(b[n]) {
      assert (a + b)[..|a + b| - 1] == a + b[..n];
      assert !AllSpace(b[..n]) by {
        var i :| 0 <= i < |b| && !IsSpace(b[i]);
        assert b[..n][i] == b[i];
      }
      StripRightAppend(a, b[..n]);
    }
  }

  /** Trailing whitespace disappears under `rstrip`. */
  lemma {:induction false} StripRightSpaces(a: string, t: string)
    requires AllSpace(t)
    ensures StripRight(a + t) == StripRight(a)
  {
    if t != [] {
      var n := |t| - 1;
      assert (a + t)[..|a + t| - 1] == a + t[..n];
      assert AllSpace(t[..n]) by {
        forall i | 0 <= i < n ensures IsSpace(t[..n][i]) { assert t[..n][i] == t[i]; }
      }
      StripRightSpaces(a, t[..n]);
    } else {
      assert a + t == a;
    }
  }

  /** A character absent from `s` is absent from every substring of it. */
  lemma AbsentFromSubstring(s: string, t: string, c: char)
    requires Contains(s, t) && c !in s
    ensures c !in t
  {
    var i: nat :| i <= |s| && OccursAt(s, t, i);
    forall j | 0 <= j < |t| ensures t[j] != c {
      assert t[j] == s[i + j];
    }
  }

  /** The first position at or after `k` where `sub` occurs in `s`, if any. */
  function FindFrom(s: string, sub: string, k: nat): (r: Option<nat>)
    requires k <= |s|
    ensures r.Some? ==> k <= r.value && OccursAt(s, sub, r.value)
    ensures forall j: nat :: k <= j && (r.None? || j < r.value) ==> !OccursAt(s, sub, j)
    decreases |s| - k
  {
    if k + |sub| > |s| then None
    else if OccursAt(s, sub, k) then Some(k)
    else FindFrom(s, sub, k + 1)
  }

  /** `s.find(sub)`, with `None` for -1. */
  function Find(s: string, sub: string): (r: Option<nat>)
    ensures r.None? <==> !Contains(s, sub)
    ensures r.Some? ==> OccursAt(s, sub, r.value)
    ensures r.Some? ==> forall j: nat :: j < r.value ==> !OccursAt(s, sub, j)
  {
    FindFrom(s, sub, 0)
  }

  /** The pieces joined back with `sep` between consecutive ones: `sep.join(parts)`. */
  function Join(parts: seq<string>, sep: string): string
  {
    if |parts| == 0 then []
    else if |parts| == 1 then parts[0]
    else parts[0] + sep + Join(parts[1..], sep)
  }

  /** `s.split(sep)` for a non-empty separator: the text between the
      non-overlapping occurrences of `sep`, scanned from the left. */
  function Split(s: string, sep: string): (r: seq<string>)
    requires sep != []
    ensures |r| >= 1
    ensures forall i :: 0 <= i < |r| ==> !Contains(r[i], sep)
    ensures Join(r, sep) == s
    decreases |s|
  {
    match Find(s, sep)
    case None => [s]
    case Some(i) =>
      var head := s[..i];
      var rest := Split(s[i + |sep|..], sep);
      assert !Contains(head, sep) by {
        forall j: nat ensures !OccursAt(head, sep, j) {
          if j + |sep| <= |head| {
            assert head[j..j + |sep|] == s[j..j + |sep|];
            assert !OccursAt(s, sep, j);
          }
        }
      }
      assert s == head + sep + s[i + |sep|..] by {
        assert s[i..i + |sep|] == sep;
        assert s == s[..i] + s[i..i + |sep|] + s[i + |sep|..];
      }
      [head] + rest
  }

  /** Where `sep` is one character that no piece contains, splitting undoes joining. */
  lemma {:induction false} SplitJoin(parts: seq<string>, sep: string)
    requires |sep| == 1 && |parts| >= 1
    requires forall i :: 0 <= i < |parts| ==> sep[0] !in parts[i]
    ensures Split(Join(parts, sep), sep) == parts
  {
    var s := Join(parts, sep);
    if |parts| == 1 {
      assert !Contains(s, sep) by {
        forall j: nat ensures !OccursAt(s, sep, j) {
          if j + 1 <= |s| { assert s[j..j + 1][0] == s[j]; }
        }
      }
    } else {
      var a, b := parts[0], Join(parts[1..], sep);
      assert s == a + sep + b;
      assert s[|a|..|a| + 1] == sep;
      assert OccursAt(s, sep, |a|);
      var f := Find(s, sep);
      assert f.Some?;
      forall j: nat | j < |a| ensures !OccursAt(s, sep, j) {
        assert s[j] == a[j];
        assert s[j..j + 1][0] == s[j];
      }
      assert f.value == |a|;
      assert s[..|a|] == a;
      assert s[|a| + 1..] == b;
      SplitJoin(parts[1..], sep);
    }
  }

  /** The longest prefix of `s` without whitespace. */
  function Word(s: string): (w: string)
    ensures |w| <= |s| && w == s[..|w|]
    ensures forall j :: 0 <= j < |w| ==> !IsSpace(w[j])
    ensures |w| == |s| || IsSpace(s[|w|])
  {
    if s == [] || IsSpace(s[0]) then [] else [s[0]] + Word(s[1..])
  }

  /** `s` with every whitespace character removed. */
  function NonSpace(s: string): string
  {
    if s == [] then [] else (if IsSpace(s[0]) then [] else [s[0]]) + NonSpace(s[1..])
  }

  function Concat(parts: seq<string>): string
  {
    if parts == [] then [] else parts[0] + Concat(parts[1..])
  }

  lemma {:induction false} NonSpaceAppend(a: string, b: string)
    ensures NonSpace(a + b) == NonSpace(a) + NonSpace(b)
  {
    if a != [] {
      assert (a + b)[1..] == a[1..] + b;
      NonSpaceAppend(a[1..], b);
    } else {
      assert a + b == b;
    }
  }

  lemma {:induction false} NonSpaceOfWord(w: string)
    requires forall j :: 0 <= j < |w| ==> !IsSpace(w[j])
    ensures NonSpace(w) == w
  {
    if w != [] { NonSpaceOfWord(w[1..]); }
  }

  /** `s.split()`: the maximal runs of non-whitespace characters, in order;
      they are non-empty and together hold every non-whitespace character of `s`. */
  function SplitWhitespace(s: string): (r: seq<string>)
    ensures r == [] <==> AllSpace(s)
    ensures forall i :: 0 <= i < |r| ==> r[i] != [] && forall j :: 0 <= j < |r[i]| ==> !IsSpace(r[i][j])
    ensures Concat(r) == NonSpace(s)
    decreases |s|
  {
    if s == [] then []
    else if IsSpace(s[0]) then
      var r := SplitWhitespace(s[1..]);
      assert AllSpace(s[1..]) ==> AllSpace(s) by {
        if AllSpace(s[1..]) {
          forall i | 0 <= i < |s| ensures IsSpace(s[i]) { if i > 0 { assert s[i] == s[1..][i - 1]; } }
        }
      }
      r
    else
      var w := Word(s);
      var rest := SplitWhitespace(s[|w|..]);
      assert s == w + s[|w|..];
      NonSpaceAppend(w, s[|w|..]);
      NonSpaceOfWord(w);
      [w] + rest
  }

  predicate NoSpace(w: string) {
    forall j :: 0 <= j < |w| ==> !IsSpace(w[j])
  }

  lemma {:induction false} WordOf(w: string, t: string)
    requires NoSpace(w) && (t == [] || IsSpace(t[0]))
    ensures Word(w + t) == w
  {
    if w != [] {
      assert (w + t)[1..] == w[1..] + t;
      WordOf(w[1..], t);
    } else {
      assert w + t == t;
    }
  }

  /** Words laid out with whitespace around them: `gaps[0]` comes before the
      first word, `gaps[i]` between word `i - 1` and word `i`, and the last gap
      after the last word. */
  function Spaced(words: seq<string>, gaps: seq<string>): string
    requires |gaps| == |words| + 1
  {
    if words == [] then gaps[0] else gaps[0] + words[0] + Spaced(words[1..], gaps[1..])
  }

  /** The words are non-empty and hold no whitespace, the gaps hold nothing
      but whitespace, and the gaps between two words are not empty. */
  predicate WordLayout(words: seq<string>, gaps: seq<string>) {
    && |gaps| == |words| + 1
    && (forall i :: 0 <= i < |words| ==> words[i] != [] && NoSpace(words[i]))
    && (forall i :: 0 <= i < |gaps| ==> AllSpace(gaps[i]))
    && (forall i :: 0 < i < |words| ==> gaps[i] != [])
  }

  /** Leading whitespace yields no word. */
  lemma {:induction false} SplitWhitespaceSkip(g: string, t: string)
    requires AllSpace(g)
    ensures SplitWhitespace(g + t) == SplitWhitespace(t)
  {
    if g != [] {
      assert (g + t)[0] == g[0];
      assert (g + t)[1..] == g[1..] + t;
      SplitWhitespaceSkip(g[1..], t);
    } else {
      assert g + t == t;
    }
  }

  /** A word followed by whitespace or by nothing is the first field. */
  lemma SplitWhitespaceWord(w: string, t: string)
    requires w != [] && NoSpace(w) && (t == [] || IsSpace(t[0]))
    ensures SplitWhitespace(w + t) == [w] + SplitWhitespace(t)
  {
    WordOf(w, t);
    assert (w + t)[0] == w[0];
    assert (w + t)[|w|..] == t;
  }

  /** Whitespace, a word and what follows it split into the word and the
      fields of what follows. */
  lemma SpacedStep(g: string, w: string, rest: string, tail: seq<string>)
    requires AllSpace(g) && w != [] && NoSpace(w) && (rest == [] || IsSpace(rest[0]))
    requires SplitWhitespace(rest) == tail
    ensures SplitWhitespace(g + w + rest) == [w] + tail
  {
    SplitWhitespaceWord(w, rest);
    assert g + w + rest == g + (w + rest);
    SplitWhitespaceSkip(g, w + rest);
  }

  /** `split()` cuts at every run of whitespace, however long, and ignores
      whitespace at the two ends: it gives back the laid-out words. */
  lemma {:induction false} SplitWhitespaceSpaced(words: seq<string>, gaps: seq<string>)
    requires WordLayout(words, gaps)
    ensures SplitWhitespace(Spaced(words, gaps)) == words
  {
    if words == [] {
      SplitWhitespaceSkip(gaps[0], []);
      assert gaps[0] + [] == gaps[0];
    } else {
      var rest := Spaced(words[1..], gaps[1..]);
      LayoutTail(words, gaps);
      SplitWhitespaceSpaced(words[1..], gaps[1..]);
      SpacedStep(gaps[0], words[0], rest, words[1..]);
      assert words == [words[0]] + words[1..];
    }
  }

  /** What follows the first word of a layout is a layout of the other words,
      and it is empty or starts with whitespace. */
  lemma LayoutTail(words: seq<string>, gaps: seq<string>)
    requires WordLayout(words, gaps) && words != []
    ensures WordLayout(words[1..], gaps[1..])
    ensures var rest := Spaced(words[1..], gaps[1..]); rest == [] || IsSpace(rest[0])
  {
    forall i | 0 < i < |words[1..]| ensures gaps[1..][i] != [] { assert gaps[1..][i] == gaps[i + 1]; }
    var rest := Spaced(words[1..], gaps[1..]);
    if |words| > 1 {
      assert rest[0] == gaps[1][0];
    } else {
      assert rest == gaps[1];
    }
  }

  /** The fields of a string are the words of any layout of it. */
  lemma SplitWhitespaceLayouts(s: string)
    ensures forall words, gaps :: WordLayout(words, gaps) && s == Spaced(words, gaps) ==> SplitWhitespace(s) == words
  {
    forall words, gaps | WordLayout(words, gaps) && s == Spaced(words, gaps)
      ensures SplitWhitespace(s) == words
    {
      SplitWhitespaceSpaced(words, gaps);
    }
  }

  function Digit(d: nat): (c: char)
    requires d < 10
    ensures '0' <= c <= '9'
  {
    ['0', '1', '2', '3', '4', '5', '6', '7', '8', '9'][d]
  }

  predicate IsDigits(s: string) {
    forall i :: 0 <= i < |s| ==> '0' <= s[i] <= '9'
  }

  /** The number a string of decimal digits denotes. */
  function DecimalValue(s: string): nat
    requires IsDigits(s)
  {
    if s == [] then 0 else 10 * DecimalValue(s[..|s| - 1]) + (s[|s| - 1] as int - '0' as int)
  }

  /** `str(n)` for `n >= 0`: decimal digits without leading zeros. */
  function NatToString(n: nat): (r: string)
    ensures r != [] && IsDigits(r)
    ensures r[0] == '0' <==> n == 0
    ensures n == 0 ==> r == "0"
    decreases n
  {
    if n < 10 then [Digit(n)] else NatToString(n / 10) + [Digit(n % 10)]
  }

  /** `str(n)` denotes `n`: reading its digits back gives the number. */
  lemma {:induction false} NatToStringValue(n: nat)
    ensures DecimalValue(NatToString(n)) == n
  {
    var r := NatToString(n);
    if n < 10 {
      assert r[..0] == [];
    } else {
      assert r[..|r| - 1] == NatToString(n / 10);
      NatToStringValue(n / 10);
    }
  }

  /** `str(n)` */
  function IntToString(n: int): (r: string)
    ensures r != []
    ensures n >= 0 ==> IsDigits(r)
    ensures n < 0 ==> r[0] == '-' && IsDigits(r[1..])
  {
    if n < 0 then "-" + NatToString(-n) else NatToString(n)
  }

  /** `s.replace(from, to)` where both are single characters. */
  function ReplaceChar(s: string, from: char, to: char): (r: string)
    ensures |r| == |s|
    ensures from != to ==> from !in r
    ensures forall i :: 0 <= i < |s| && s[i] != from ==> r[i] == s[i]
    ensures forall i :: 0 <= i < |s| && s[i] == from ==> r[i] == to
  {
    seq(|s|, i requires 0 <= i < |s| => if s[i] == from then to else s[i])
  }

  // `str.title()` on ASCII letters: a letter is upper-cased when it starts a
  // run of letters and lower-cased otherwise; every other character is kept.

  predicate IsUpper(c: char) { 'A' <= c <= 'Z' }
  predicate IsLower(c: char) { 'a' <= c <= 'z' }
  predicate IsCased(c: char) { IsUpper(c) || IsLower(c) }

  function ToUpper(c: char): (u: char)
    ensures IsLower(c) ==> IsUpper(u)
    ensures !IsLower(c) ==> u == c
  {
    if IsLower(c) then (c as int - 32) as char else c
  }

  function ToLower(c: char): (l: char)
    ensures IsUpper(c) ==> IsLower(l)
    ensures !IsUpper(c) ==> l == c
  {
    if IsUpper(c) then (c as int + 32) as char else c
  }

  function TitleFrom(s: string, afterCased: bool): (r: string)
  {
    if s == [] then []
    else
      var c := s[0];
      var t := if !IsCased(c) then c else if afterCased then ToLower(c) else ToUpper(c);
      [t] + TitleFrom(s[1..], IsCased(c))
  }

  /** `s.title()` */
  function Title(s: string): string
  {
    TitleFrom(s, false)
  }

  /** Whether position `i` of `s` starts a run of letters. */
  predicate StartsWord(s: string, i: nat)
    requires i < |s|
  {
    IsCased(s[i]) && (i == 0 || !IsCased(s[i - 1]))
  }

  lemma {:induction false} TitleFromAt(s: string, afterCased: bool, i: nat)
    requires i < |s|
    ensures |TitleFrom(s, afterCased)| == |s|
    ensures var t := TitleFrom(s, afterCased);
            var first := IsCased(s[i]) && (if i == 0 then !afterCased else !IsCased(s[i - 1]));
            (!IsCased(s[i]) ==> t[i] == s[i]) &&
            (IsCased(s[i]) ==> IsCased(t[i]) && (IsUpper(t[i]) <==> first) && ToLower(t[i]) == ToLower(s[i]))
  {
    if i > 0 {
      TitleFromAt(s[1..], IsCased(s[0]), i - 1);
      assert s[1..][i - 1] == s[i];
      assert i - 1 > 0 ==> s[1..][i - 2] == s[i - 1];
    } else if s[1..] != [] {
      TitleFromAt(s[1..], IsCased(s[0]), 0);
    }
  }

  /** What `title` does to each position: the length is kept, a non-letter is
      kept, and a letter keeps its identity up to case and is upper-case exactly
      when it starts a run of letters. */
  lemma TitleAt(s: string, i: nat)
    requires i < |s|
    ensures |Title(s)| == |s|
    ensures !IsCased(s[i]) ==> Title(s)[i] == s[i]
    ensures IsCased(s[i]) ==> IsCased(Title(s)[i]) && ToLower(Title(s)[i]) == ToLower(s[i])
    ensures IsUpper(Title(s)[i]) <==> StartsWord(s, i)
  {
    TitleFromAt(s, false, i);
  }

  /** Title-casing twice is title-casing once. */
  lemma TitleIdempotent(s: string)
    ensures Title(Title(s)) == Title(s)
  {
    var t := Title(s);
    if s != [] {
      TitleAt(s, 0);
      TitleAt(t, 0);
      forall i | 0 <= i < |s| ensures Title(t)[i] == t[i] {
        TitleAt(s, i);
        TitleAt(t, i);
        if i > 0 { TitleAt(s, i - 1); }
      }
    }
  }
}
