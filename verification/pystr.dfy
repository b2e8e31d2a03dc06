/**
 The parts of Python's `str` that the core relies on: `strip`, `lstrip`, `startswith`,
 `split` with a limit, `splitlines`, `lower`/`upper`, `join`, ordering and `sorted`,
 and `str()` of a non-negative int.
 */
module PyStr {
  import opened Outcomes

  /** Python's `str.isspace()` for one character: bidirectional class WS, B or S, or category Zs. */
  predicate IsSpace(c: char) {
    InRanges(c, SpaceRanges)
  }

  /** The whitespace code points, as closed ranges. */
  const SpaceRanges: seq<(char, char)> := [
    ('\t', '\r'), ('\U{1c}', '\U{1f}'), (' ', ' '), ('\U{85}', '\U{85}'), ('\U{a0}', '\U{a0}'),
    ('\U{1680}', '\U{1680}'), ('\U{2000}', '\U{200a}'), ('\U{2028}', '\U{2029}'),
    ('\U{202f}', '\U{202f}'), ('\U{205f}', '\U{205f}'), ('\U{3000}', '\U{3000}')
  ]

  predicate InRanges(c: char, ranges: seq<(char, char)>) {
    |ranges| > 0 && (ranges[0].0 <= c <= ranges[0].1 || InRanges(c, ranges[1..]))
  }

  lemma {:induction false} OutsideRanges(c: char, ranges: seq<(char, char)>)
    requires forall i :: 0 <= i < |ranges| ==> !(ranges[i].0 <= c <= ranges[i].1)
    ensures !InRanges(c, ranges)
    decreases |ranges|
  {
    if |ranges| > 0 {
      assert forall i :: 0 <= i < |ranges| - 1 ==> ranges[1..][i] == ranges[i + 1];
      OutsideRanges(c, ranges[1..]);
    }
  }

  /** Printable ASCII characters other than the space are not whitespace. */
  lemma PrintableNotSpace(c: char)
    requires '!' <= c <= '~'
    ensures !IsSpace(c)
  {
    OutsideRanges(c, SpaceRanges);
  }

  /** The newline and the space are whitespace. */
  lemma NewlineSpace()
    ensures IsSpace('\n') && IsSpace(' ')
  {
    assert SpaceRanges[0] == ('\t', '\r') && SpaceRanges[2] == (' ', ' ');
    assert InRanges(' ', SpaceRanges[2..]);
    assert SpaceRanges[1..][1..] == SpaceRanges[2..];
  }

  /** `s.lstrip()`: the suffix left after dropping leading whitespace. */
  function LStrip(s: string): (r: string)
    ensures |r| <= |s| && r == s[|s| - |r|..]
    ensures forall i :: 0 <= i < |s| - |r| ==> IsSpace(s[i])
    ensures r == [] || !IsSpace(r[0])
  {
    if |s| > 0 && IsSpace(s[0]) then
      var r := LStrip(s[1..]);
      assert s[1..][|s| - 1 - |r|..] == s[|s| - |r|..];
      assert forall i :: 1 <= i < |s| - |r| ==> s[i] == s[1..][i - 1];
      r
    else s
  }

  /** `s.rstrip()`: the prefix left after dropping trailing whitespace. */
  function RStrip(s: string): (r: string)
    ensures |r| <= |s| && r == s[..|r|]
    ensures forall i :: |r| <= i < |s| ==> IsSpace(s[i])
    ensures r == [] || !IsSpace(r[|r| - 1])
  {
    if |s| > 0 && IsSpace(s[|s| - 1]) then RStrip(s[..|s| - 1]) else s
  }

  /** The number of leading whitespace characters of `s`. */
  function LeadingSpaces(s: string): (n: nat)
    ensures n <= |s|
  {
    |s| - |LStrip(s)|
  }

  /** `s.strip()`: the middle of `s` between its leading and its trailing whitespace. */
  function Strip(s: string): (r: string)
    ensures r == [] || (!IsSpace(r[0]) && !IsSpace(r[|r| - 1]))
    ensures LeadingSpaces(s) + |r| <= |s| && r == s[LeadingSpaces(s)..LeadingSpaces(s) + |r|]
    ensures forall i :: 0 <= i < LeadingSpaces(s) ==> IsSpace(s[i])
    ensures forall i :: LeadingSpaces(s) + |r| <= i < |s| ==> IsSpace(s[i])
  {
    var l := LStrip(s);
    var r := RStrip(l);
    assert r != [] ==> r[0] == l[0];
    ShiftSpaces(s, LeadingSpaces(s), l, |r|);
    r
  }

  /** Whitespace at the end of the suffix `s[n..]` is whitespace at the end of `s`. */
  lemma ShiftSpaces(s: string, n: nat, l: string, m: nat)
    requires n <= |s| && l == s[n..] && m <= |l|
    requires forall i :: m <= i < |l| ==> IsSpace(l[i])
    ensures forall i :: n + m <= i < |s| ==> IsSpace(s[i])
  {
    forall i | n + m <= i < |s| ensures IsSpace(s[i]) {
      assert s[i] == l[i - n];
    }
  }

  /** A string whose two ends are not whitespace is its own strip. */
  lemma {:induction false} StripTrimmed(s: string)
    requires s == [] || (!IsSpace(s[0]) && !IsSpace(s[|s| - 1]))
    ensures Strip(s) == s
  {
    assert LStrip(s) == s;
    assert RStrip(s) == s;
  }

  lemma StripIdempotent(s: string)
    ensures Strip(Strip(s)) == Strip(s)
  {
    StripTrimmed(Strip(s));
  }

  /** Appending trailing whitespace to a stripped string does not change its strip. */
  lemma {:induction false} StripAppendSpace(f: string, c: char)
    requires f == Strip(f) && IsSpace(c)
    ensures Strip(f + [c]) == f
  {
    var g := f + [c];
    if f == [] {
      assert LStrip(g) == LStrip([]);
    } else {
      assert !IsSpace(f[0]) && g[0] == f[0];
      assert LStrip(g) == g;
      assert g[..|g| - 1] == f && IsSpace(g[|g| - 1]);
      assert RStrip(g) == RStrip(f);
      assert LStrip(f) == f;
    }
  }

  /** `s.lstrip(c)` for one character `c`. */
  function LStripChar(s: string, c: char): (r: string)
    ensures |r| <= |s| && r == s[|s| - |r|..]
    ensures forall i :: 0 <= i < |s| - |r| ==> s[i] == c
    ensures r == [] || r[0] != c
  {
    if |s| > 0 && s[0] == c then LStripChar(s[1..], c) else s
  }

  predicate StartsWith(s: string, prefix: string) {
    |prefix| <= |s| && s[..|prefix|] == prefix
  }

  predicate EndsWith(s: string, suffix: string) {
    |suffix| <= |s| && s[|s| - |suffix|..] == suffix
  }

  /** `pat` occurs in `s` starting at index `i`. */
  predicate OccursAt(s: string, pat: string, i: int) {
    0 <= i && i + |pat| <= |s| && s[i..i + |pat|] == pat
  }

  /** `s.find(pat, start)`: the first occurrence at or after `start`, if any. */
  function FindFrom(s: string, pat: string, start: nat): (r: Option<nat>)
    ensures r.Some? ==> start <= r.value && OccursAt(s, pat, r.value)
    ensures r.Some? ==> forall i :: start <= i < r.value ==> !OccursAt(s, pat, i)
    ensures r.None? ==> forall i :: start <= i ==> !OccursAt(s, pat, i)
    decreases |s| - start
  {
    if start + |pat| > |s| then None
    else if s[start..start + |pat|] == pat then Some(start)
    else FindFrom(s, pat, start + 1)
  }

  predicate Contains(s: string, pat: string) {
    FindFrom(s, pat, 0).Some?
  }

  /** An occurrence with none before it (from `start` on) is the one `find` reports. */
  lemma {:induction false} FindFromAt(s: string, pat: string, start: nat, j: nat)
    requires start <= j && OccursAt(s, pat, j)
    requires forall i :: start <= i < j ==> !OccursAt(s, pat, i)
    ensures FindFrom(s, pat, start) == Some(j)
    decreases j - start
  {
    if start < j {
      assert !OccursAt(s, pat, start);
      FindFromAt(s, pat, start + 1, j);
    }
  }

  lemma {:induction false} FindFromNone(s: string, pat: string, start: nat)
    requires forall i :: start <= i ==> !OccursAt(s, pat, i)
    ensures FindFrom(s, pat, start).None?
    decreases |s| - start
  {
    if start + |pat| <= |s| {
      assert !OccursAt(s, pat, start);
      FindFromNone(s, pat, start + 1);
    }
  }

  /** A prefix that ends before the first occurrence holds no occurrence. */
  lemma NotContainsAt(s: string, pat: string, i: nat)
    requires !Contains(s, pat)
    ensures !OccursAt(s, pat, i)
  {
    assert FindFrom(s, pat, 0).None?;
  }

  lemma PrefixBeforeFirst(s: string, pat: string, i: nat)
    requires pat != "" && i <= |s| && forall j :: 0 <= j < i ==> !OccursAt(s, pat, j)
    ensures !Contains(s[..i], pat)
  {
    var t := s[..i];
    forall j: nat ensures !OccursAt(t, pat, j) {
      if j + |pat| <= |t| {
        assert t[j..j + |pat|] == s[j..j + |pat|];
        assert !OccursAt(s, pat, j);
      }
    }
    FindFromNone(t, pat, 0);
  }

  /** `sep.join(parts)`. */
  function Join(sep: string, parts: seq<string>): string
    decreases |parts|
  {
    if |parts| == 0 then ""
    else if |parts| == 1 then parts[0]
    else parts[0] + sep + Join(sep, parts[1..])
  }

  /** `"".join(parts)`. */
  function Concat(parts: seq<string>): string
    decreases |parts|
  {
    if |parts| == 0 then "" else parts[0] + Concat(parts[1..])
  }

  /**
   `s.split(sep, maxsplit)` with a non-empty separator; a negative `maxsplit` means no limit,
   as in Python.
   */
  function Split(s: string, sep: string, maxsplit: int): (r: seq<string>)
    requires sep != ""
    ensures |r| >= 1
    ensures maxsplit >= 0 ==> |r| <= maxsplit + 1
    ensures FindFrom(s, sep, 0).Some? && maxsplit != 0 ==> |r| >= 2
    ensures FindFrom(s, sep, 0).Some? && maxsplit != 0 ==> r[0] == s[..FindFrom(s, sep, 0).value]
    ensures Join(sep, r) == s
    decreases |s|
  {
    match FindFrom(s, sep, 0)
    case None => [s]
    case Some(i) =>
      if maxsplit == 0 then [s]
      else
        var rest := Split(s[i + |sep|..], sep, if maxsplit > 0 then maxsplit - 1 else maxsplit);
        SplitAround(s, sep, i);
        var r := [s[..i]] + rest;
        assert r[0] == s[..i] && r[1..] == rest;
        r
  }

  /** With splits left, the first occurrence of `sep` at `i` cuts off the first piece. */
  lemma SplitStep(s: string, sep: string, i: nat, maxsplit: nat)
    requires sep != "" && maxsplit > 0 && OccursAt(s, sep, i)
    requires forall j :: 0 <= j < i ==> !OccursAt(s, sep, j)
    ensures Split(s, sep, maxsplit) == [s[..i]] + Split(s[i + |sep|..], sep, maxsplit - 1)
  {
    FindFromAt(s, sep, 0, i);
  }

  /** A string is its text before an occurrence of `sep`, `sep`, and its text after. */
  lemma SplitAround(s: string, sep: string, i: nat)
    requires OccursAt(s, sep, i)
    ensures s == s[..i] + sep + s[i + |sep|..]
  {
    assert s[i..i + |sep|] == sep;
    assert s == s[..i] + s[i..i + |sep|] + s[i + |sep|..];
  }

  /** Every piece but the last is free of the separator. */
  lemma {:induction false} SplitPiecesClean(s: string, sep: string, maxsplit: int)
    requires sep != ""
    ensures forall k :: 0 <= k < |Split(s, sep, maxsplit)| - 1 ==> !Contains(Split(s, sep, maxsplit)[k], sep)
    decreases |s|
  {
    match FindFrom(s, sep, 0)
    case None =>
    case Some(i) =>
      if maxsplit != 0 {
        var m := if maxsplit > 0 then maxsplit - 1 else maxsplit;
        PrefixBeforeFirst(s, sep, i);
        SplitPiecesClean(s[i + |sep|..], sep, m);
        assert Split(s, sep, maxsplit) == [s[..i]] + Split(s[i + |sep|..], sep, m);
      }
  }

  /** Python's line boundaries for `str.splitlines()`. */
  predicate IsLineBreak(c: char) {
    || c == '\n' || c == '\r' || c == '\U{0b}' || c == '\U{0c}'
    || c == '\U{1c}' || c == '\U{1d}' || c == '\U{1e}'
    || c == '\U{85}' || c == '\U{2028}' || c == '\U{2029}'
  }

  /** The first line boundary at or after `i`, or `|s|`. */
  function LineEnd(s: string, i: nat): (e: nat)
    requires i <= |s|
    ensures i <= e <= |s|
    ensures e < |s| ==> IsLineBreak(s[e])
    ensures forall j :: i <= j < e ==> !IsLineBreak(s[j])
    decreases |s| - i
  {
    if i == |s| || IsLineBreak(s[i]) then i else LineEnd(s, i + 1)
  }

  /** `s.splitlines()`: "\r\n" is one boundary, and a final boundary adds no empty line. */
  function SplitLines(s: string): (r: seq<string>)
    ensures forall k, j :: 0 <= k < |r| && 0 <= j < |r[k]| ==> !IsLineBreak(r[k][j])
    ensures s == "" <==> r == []
    decreases |s|
  {
    if s == "" then []
    else
      var e := LineEnd(s, 0);
      if e == |s| then [s]
      else
        var next := if s[e] == '\r' && e + 1 < |s| && s[e + 1] == '\n' then e + 2 else e + 1;
        [s[..e]] + SplitLines(s[next..])
  }

  /** Concatenation regrouped, a step the solver is slow to find inside larger terms. */
  lemma Reassociate(x: string, y: string, z: string)
    ensures x + y + z == x + (y + z)
  {
  }

  /** `line` holds no line boundary. */
  predicate NoBreak(line: string) {
    forall j :: 0 <= j < |line| ==> !IsLineBreak(line[j])
  }

  /** The first boundary from `i` on is the one at `e`, when none comes before it. */
  lemma {:induction false} LineEndAt(s: string, i: nat, e: nat)
    requires i <= e < |s| && IsLineBreak(s[e])
    requires forall j :: i <= j < e ==> !IsLineBreak(s[j])
    ensures LineEnd(s, i) == e
    decreases e - i
  {
    if i < e {
      LineEndAt(s, i + 1, e);
    }
  }

  /** With no boundary from `i` on, the line runs to the end. */
  lemma {:induction false} LineEndNone(s: string, i: nat)
    requires i <= |s|
    requires forall j :: i <= j < |s| ==> !IsLineBreak(s[j])
    ensures LineEnd(s, i) == |s|
    decreases |s| - i
  {
    if i < |s| {
      LineEndNone(s, i + 1);
    }
  }

  /** A line ended by "\n" is the first line, ahead of the lines of what follows. */
  lemma SplitLinesCons(line: string, rest: string)
    requires NoBreak(line)
    ensures SplitLines(line + "\n" + rest) == [line] + SplitLines(rest)
  {
    var s := line + "\n" + rest;
    LineEndAt(s, 0, |line|);
    assert s[..|line|] == line;
    assert s[|line| + 1..] == rest;
  }

  /** A non-empty text without a boundary is one line. */
  lemma SplitLinesOne(line: string)
    requires line != "" && NoBreak(line)
    ensures SplitLines(line) == [line]
  {
    LineEndNone(line, 0);
  }

  /**
   Lines without boundaries joined by "\n" split back into themselves, as long as the last
   one is not empty (a final empty line leaves only a trailing boundary, which adds no line).
   */
  lemma {:induction false} SplitLinesJoin(lines: seq<string>)
    requires forall k :: 0 <= k < |lines| ==> NoBreak(lines[k])
    requires |lines| > 0 ==> lines[|lines| - 1] != ""
    ensures SplitLines(Join("\n", lines)) == lines
    decreases |lines|
  {
    if |lines| == 1 {
      SplitLinesOne(lines[0]);
    } else if |lines| > 1 {
      var rest := Join("\n", lines[1..]);
      calc {
        SplitLines(Join("\n", lines));
        SplitLines(lines[0] + "\n" + rest);
        { SplitLinesCons(lines[0], rest); }
        [lines[0]] + SplitLines(rest);
        { SplitLinesJoin(lines[1..]); }
        [lines[0]] + lines[1..];
      }
    }
  }

  /** Lines without boundaries, each ended by "\n", split back into themselves. */
  lemma {:induction false} SplitLinesTerminated(lines: seq<string>)
    requires |lines| > 0
    requires forall k :: 0 <= k < |lines| ==> NoBreak(lines[k])
    ensures SplitLines(Join("\n", lines) + "\n") == lines
    decreases |lines|
  {
    if |lines| == 1 {
      SplitLinesCons(lines[0], "");
      assert Join("\n", lines) + "\n" == lines[0] + "\n" + "";
    } else {
      var tail := Join("\n", lines[1..]) + "\n";
      calc {
        SplitLines(Join("\n", lines) + "\n");
        SplitLines(lines[0] + "\n" + Join("\n", lines[1..]) + "\n");
        { assert lines[0] + "\n" + Join("\n", lines[1..]) + "\n" == lines[0] + "\n" + tail; }
        SplitLines(lines[0] + "\n" + tail);
        { SplitLinesCons(lines[0], tail); }
        [lines[0]] + SplitLines(tail);
        { SplitLinesTerminated(lines[1..]); }
        [lines[0]] + lines[1..];
      }
    }
  }

  /** `w` holds no whitespace character. */
  predicate NoSpace(w: string) {
    forall j :: 0 <= j < |w| ==> !IsSpace(w[j])
  }

  /** `s.split()` with no separator: the maximal runs of non-whitespace. */
  function SplitWhitespace(s: string): (r: seq<string>)
    ensures s == [] ==> r == []
    decreases |s|
  {
    var t := LStrip(s);
    if t == "" then []
    else
      var e := SpaceEnd(t, 0);
      assert e > 0 by {
        assert !IsSpace(t[0]);
      }
      [t[..e]] + SplitWhitespace(t[e..])
  }

  /** Non-empty pieces without whitespace. */
  predicate Words(r: seq<string>) {
    forall k :: 0 <= k < |r| ==> r[k] != "" && NoSpace(r[k])
  }

  lemma WordsCons(word: string, rest: seq<string>)
    requires word != "" && NoSpace(word) && Words(rest)
    ensures Words([word] + rest)
  {
    var r := [word] + rest;
    forall k | 0 <= k < |r| ensures r[k] != "" && NoSpace(r[k]) {
      if k > 0 {
        assert r[k] == rest[k - 1];
      }
    }
  }

  /** The prefix of `t` before its first whitespace character holds no whitespace. */
  lemma NoSpaceBeforeSpaceEnd(t: string)
    ensures NoSpace(t[..SpaceEnd(t, 0)])
  {
    var word := t[..SpaceEnd(t, 0)];
    forall j | 0 <= j < |word| ensures !IsSpace(word[j]) {
      assert word[j] == t[j];
    }
  }

  /** Every piece `split()` returns is a non-empty word without whitespace. */
  lemma {:induction false} SplitWhitespaceWords(s: string)
    ensures Words(SplitWhitespace(s))
    decreases |s|
  {
    var t := LStrip(s);
    if t != "" {
      var e := SpaceEnd(t, 0);
      assert !IsSpace(t[0]);
      NoSpaceBeforeSpaceEnd(t);
      SplitWhitespaceWords(t[e..]);
      WordsCons(t[..e], SplitWhitespace(t[e..]));
    }
  }

  /** The first whitespace character at or after `i`, or `|s|`. */
  function SpaceEnd(s: string, i: nat): (e: nat)
    requires i <= |s|
    ensures i <= e <= |s|
    ensures e < |s| ==> IsSpace(s[e])
    ensures forall j :: i <= j < e ==> !IsSpace(s[j])
    decreases |s| - i
  {
    if i == |s| || IsSpace(s[i]) then i else SpaceEnd(s, i + 1)
  }

  /**
   `str.lower()` and `str.upper()`, restricted to the ASCII letters (non-ASCII case mapping
   is not modelled).
   */
  function LowerChar(c: char): char {
    if 'A' <= c <= 'Z' then (c as int + 32) as char else c
  }

  function UpperChar(c: char): char {
    if 'a' <= c <= 'z' then (c as int - 32) as char else c
  }

  function Lower(s: string): (r: string)
    ensures |r| == |s|
    ensures forall i :: 0 <= i < |s| ==> r[i] == LowerChar(s[i])
  {
    seq(|s|, i requires 0 <= i < |s| => LowerChar(s[i]))
  }

  function Upper(s: string): (r: string)
    ensures |r| == |s|
    ensures forall i :: 0 <= i < |s| ==> r[i] == UpperChar(s[i])
  {
    seq(|s|, i requires 0 <= i < |s| => UpperChar(s[i]))
  }

  /** Lowering is insensitive to a prior `lower()` or `upper()`. */
  lemma LowerAbsorbs(s: string)
    ensures Lower(Lower(s)) == Lower(s)
    ensures Lower(Upper(s)) == Lower(s)
  {
    assert forall i :: 0 <= i < |s| ==> LowerChar(LowerChar(s[i])) == LowerChar(s[i]);
    assert forall i :: 0 <= i < |s| ==> LowerChar(UpperChar(s[i])) == LowerChar(s[i]);
  }

  /** Python's `a <= b` on strings: lexicographic by code point. */
  predicate LessEq(a: string, b: string)
    decreases |a|
  {
    |a| == 0 || (|b| > 0 && (a[0] < b[0] || (a[0] == b[0] && LessEq(a[1..], b[1..]))))
  }

  lemma {:induction false} LessEqTotal(a: string, b: string)
    ensures LessEq(a, b) || LessEq(b, a)
    decreases |a|
  {
    if |a| > 0 && |b| > 0 && a[0] == b[0] {
      LessEqTotal(a[1..], b[1..]);
    }
  }

  lemma {:induction false} LessEqAntisymmetric(a: string, b: string)
    requires LessEq(a, b) && LessEq(b, a)
    ensures a == b
    decreases |a|
  {
    if |a| > 0 {
      LessEqAntisymmetric(a[1..], b[1..]);
      assert a == [a[0]] + a[1..];
      assert b == [b[0]] + b[1..];
    }
  }

  lemma {:induction false} LessEqTransitive(a: string, b: string, c: string)
    requires LessEq(a, b) && LessEq(b, c)
    ensures LessEq(a, c)
    decreases |a|
  {
    if |a| > 0 && a[0] == b[0] && b[0] == c[0] {
      LessEqTransitive(a[1..], b[1..], c[1..]);
    }
  }

  predicate IsLeast(m: string, s: set<string>) {
    forall x :: x in s ==> LessEq(m, x)
  }

  lemma {:induction false} LeastExists(s: set<string>)
    requires s != {}
    ensures exists m :: m in s && IsLeast(m, s)
    decreases |s|
  {
    var x :| x in s;
    if s == {x} {
      assert IsLeast(x, s) by {
        forall y | y in s ensures LessEq(x, y) {
          LessEqTotal(x, y);
        }
      }
    } else {
      LeastExists(s - {x});
      var m :| m in s - {x} && IsLeast(m, s - {x});
      LessEqTotal(x, m);
      if LessEq(x, m) {
        LeastBelowLeast(x, m, s);
      } else {
        assert IsLeast(m, s);
      }
    }
  }

  /** An element below the least of the others is the least of all. */
  lemma LeastBelowLeast(x: string, m: string, s: set<string>)
    requires x in s && LessEq(x, m) && IsLeast(m, s - {x})
    ensures IsLeast(x, s)
  {
    forall y | y in s ensures LessEq(x, y) {
      if y != x {
        LessEqTransitive(x, m, y);
      } else {
        LessEqTotal(x, x);
      }
    }
  }

  lemma LeastUnique(s: set<string>)
    ensures forall a, b :: a in s && b in s && IsLeast(a, s) && IsLeast(b, s) ==> a == b
  {
    forall a, b | a in s && b in s && IsLeast(a, s) && IsLeast(b, s) ensures a == b {
      LessEqAntisymmetric(a, b);
    }
  }

  /** Strictly ascending in Python's string order. */
  predicate Ascending(xs: seq<string>) {
    forall i, j :: 0 <= i < j < |xs| ==> LessEq(xs[i], xs[j]) && xs[i] != xs[j]
  }

  /** `sorted(s)` for a set of strings (the keys of a dict). */
  function SortedElems(s: set<string>): (r: seq<string>)
    ensures Ascending(r)
    ensures |r| == |s|
    ensures forall x :: x in r <==> x in s
    decreases |s|
  {
    if s == {} then []
    else
      LeastExists(s);
      LeastUnique(s);
      var m :| m in s && IsLeast(m, s);
      var rest := SortedElems(s - {m});
      AscendingCons(m, rest, s);
      [m] + rest
  }

  /** The least element of `s` followed by the rest of `s` in ascending order is ascending. */
  lemma AscendingCons(m: string, rest: seq<string>, s: set<string>)
    requires m in s && IsLeast(m, s) && Ascending(rest)
    requires forall x :: x in rest <==> x in s - {m}
    ensures Ascending([m] + rest)
  {
    var r := [m] + rest;
    forall i, j | 0 <= i < j < |r| ensures LessEq(r[i], r[j]) && r[i] != r[j] {
      assert r[j] == rest[j - 1];
      if i > 0 {
        assert r[i] == rest[i - 1];
      } else {
        assert rest[j - 1] in s - {m};
      }
    }
  }

  /** An ascending sequence is determined by its elements: `sorted` has one answer. */
  lemma {:induction false} AscendingUnique(xs: seq<string>, ys: seq<string>)
    requires Ascending(xs) && Ascending(ys)
    requires forall x :: x in xs <==> x in ys
    ensures xs == ys
    decreases |xs|
  {
    if |xs| > 0 && |ys| > 0 {
      assert xs[0] in xs && ys[0] in ys;
      if xs[0] != ys[0] {
        var i :| 0 <= i < |ys| && ys[i] == xs[0];
        var j :| 0 <= j < |xs| && xs[j] == ys[0];
        assert LessEq(ys[0], xs[0]);
        assert LessEq(xs[0], ys[0]);
        LessEqAntisymmetric(xs[0], ys[0]);
      }
      forall x ensures x in xs[1..] <==> x in ys[1..] {
        if x in xs[1..] {
          var j :| 1 <= j < |xs| && xs[j] == x;
          assert x != xs[0];
          assert x in ys;
          var k :| 0 <= k < |ys| && ys[k] == x;
          assert k != 0;
          assert ys[1..][k - 1] == x;
        }
        if x in ys[1..] {
          var j :| 1 <= j < |ys| && ys[j] == x;
          assert x != ys[0];
          assert x in xs;
          var k :| 0 <= k < |xs| && xs[k] == x;
          assert k != 0;
          assert xs[1..][k - 1] == x;
        }
      }
      AscendingUnique(xs[1..], ys[1..]);
      assert xs == [xs[0]] + xs[1..];
      assert ys == [ys[0]] + ys[1..];
    } else if |xs| > 0 {
      HeadIn(xs);
      assert false;
    } else if |ys| > 0 {
      HeadIn(ys);
      assert false;
    }
  }

  lemma HeadIn(xs: seq<string>)
    requires |xs| > 0
    ensures xs[0] in xs
  {
  }

  function DigitChar(d: nat): char
    requires d < 10
  {
    "0123456789"[d]
  }

  lemma DigitCharInjective(d: nat, e: nat)
    requires d < 10 && e < 10 && DigitChar(d) == DigitChar(e)
    ensures d == e
  {
  }

  /** `str(n)` for a non-negative int: its decimal digits. */
  function NatToString(n: nat): (r: string)
    ensures |r| >= 1
    ensures |r| == 1 <==> n < 10
    decreases n
  {
    if n < 10 then [DigitChar(n)] else NatToString(n / 10) + [DigitChar(n % 10)]
  }

  /** Distinct numbers print differently. */
  lemma {:induction false} NatToStringInjective(n: nat, m: nat)
    requires NatToString(n) == NatToString(m)
    ensures n == m
    decreases n
  {
    if n >= 10 && m >= 10 {
      var a := NatToString(n);
      assert a[..|a| - 1] == NatToString(n / 10);
      assert a[|a| - 1] == DigitChar(n % 10) == DigitChar(m % 10);
      DigitCharInjective(n % 10, m % 10);
      NatToStringInjective(n / 10, m / 10);
    } else if n < 10 && m < 10 {
      DigitCharInjective(n, m);
    }
  }

  /** The key `Name` strips and lower-cases to `name`. */
  lemma NameKeyLower()
    ensures Lower(Strip("Name")) == "name"
  {
    StripName();
    LowerName();
  }

  lemma StripName()
    ensures Strip("Name") == "Name"
  {
    PrintableNotSpace('N');
    PrintableNotSpace('e');
    StripTrimmed("Name");
  }

  lemma LowerName()
    ensures Lower("Name") == "name"
  {
    var l := Lower("Name");
    assert l[0] == 'n' && l[1] == 'a' && l[2] == 'm' && l[3] == 'e';
  }

  lemma ConcatPair(x: string, y: string)
    ensures Concat([x, y]) == x + y
  {
    assert [x, y][1..] == [y];
    assert Concat([y]) == y + Concat([]);
    assert y + "" == y;
  }

  /** `sorted({"a.md", "b.md"})`. */
  lemma SortedPair(s: set<string>)
    requires s == {"a.md", "b.md"}
    ensures SortedElems(s) == ["a.md", "b.md"]
  {
    var keys := ["a.md", "b.md"];
    assert Ascending(keys) by {
      assert LessEq("a.md", "b.md");
    }
    assert forall x :: x in keys <==> x in s;
    AscendingUnique(SortedElems(s), keys);
  }
}
