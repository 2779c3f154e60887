/**
  The Python `str` operations the generator relies on: `isspace`, `strip`,
  `splitlines`, `in` / `find`, `replace` (all occurrences and first only)
  and `join`, over `string` (a sequence of Unicode scalar values).
 */
module PyStr {

  /** `c.isspace()`: the characters Python classifies as whitespace. */
  predicate IsSpace(c: char) {
    ('\t' <= c <= '\r') || ('\U{1C}' <= c <= '\U{1F}') || c == ' '
    || c == '\U{85}' || c == '\U{A0}' || c == '\U{1680}'
    || ('\U{2000}' <= c <= '\U{200A}') || c == '\U{2028}' || c == '\U{2029}'
    || c == '\U{202F}' || c == '\U{205F}' || c == '\U{3000}'
  }

  /** `not s.strip()`: the string has no character other than whitespace. */
  predicate IsBlank(s: string) {
    forall i | 0 <= i < |s| :: IsSpace(s[i])
  }

  /** Characters at which `str.splitlines` ends a line. */
  predicate IsLineBreak(c: char) {
    c == '\n' || c == '\r' || c == '\U{0B}' || c == '\U{0C}'
    || c == '\U{1C}' || c == '\U{1D}' || c == '\U{1E}'
    || c == '\U{85}' || c == '\U{2028}' || c == '\U{2029}'
  }

  predicate NoLineBreak(s: string) {
    forall i | 0 <= i < |s| :: !IsLineBreak(s[i])
  }

  /** Drops leading whitespace (the left half of `str.strip`). */
  function TrimStart(s: string): (r: string)
    ensures |r| <= |s| && r == s[|s| - |r|..]
    ensures IsBlank(s[..|s| - |r|])
    ensures r == [] || !IsSpace(r[0])
    decreases |s|
  {
    if s != [] && IsSpace(s[0]) then
      var r := TrimStart(s[1..]);
      assert s[..|s| - |r|] == [s[0]] + s[1..][..|s| - 1 - |r|];
      r
    else s
  }

  /** Drops trailing whitespace (the right half of `str.strip`). */
  function TrimEnd(s: string): (r: string)
    ensures |r| <= |s| && r == s[..|r|]
    ensures IsBlank(s[|r|..])
    ensures r == [] || !IsSpace(r[|r| - 1])
    decreases |s|
  {
    if s != [] && IsSpace(s[|s| - 1]) then
      var r := TrimEnd(s[..|s| - 1]);
      assert s[|r|..] == s[..|s| - 1][|r|..] + [s[|s| - 1]];
      r
    else s
  }

  /**
    `s.strip()` with no argument: empty exactly for blank text, and
    otherwise neither starting nor ending with whitespace.
   */
  function Strip(s: string): (r: string)
    ensures r == [] <==> IsBlank(s)
    ensures r != [] ==> !IsSpace(r[0]) && !IsSpace(r[|r| - 1])
  {
    StripShape(s);
    TrimEnd(TrimStart(s))
  }

  lemma StripShape(s: string)
    ensures var r := TrimEnd(TrimStart(s));
      (r == [] <==> IsBlank(s)) && (r != [] ==> !IsSpace(r[0]) && !IsSpace(r[|r| - 1]))
  {
    StripEmpty(s);
    TrimEndFirst(TrimStart(s));
  }

  /** Stripping leaves nothing exactly for blank text. */
  lemma StripEmpty(s: string)
    ensures TrimEnd(TrimStart(s)) == [] <==> IsBlank(s)
  {
    BlankTrimStart(s);
    TrimEndEmpty(TrimStart(s));
  }

  /** Trimming the start keeps text blank or non-blank. */
  lemma BlankTrimStart(s: string)
    ensures IsBlank(s) <==> IsBlank(TrimStart(s))
  {
    var t := TrimStart(s);
    BlankAfterBlank(s, |s| - |t|);
  }

  /** Trimming the end keeps a non-space first character. */
  lemma TrimEndFirst(t: string)
    requires t == [] || !IsSpace(t[0])
    ensures TrimEnd(t) == [] || !IsSpace(TrimEnd(t)[0])
  {
    var r := TrimEnd(t);
    if r != [] {
      assert r[0] == t[0];
    }
  }

  /** After a blank prefix, text is blank exactly when the rest is. */
  lemma BlankAfterBlank(s: string, k: nat)
    requires k <= |s| && IsBlank(s[..k])
    ensures IsBlank(s) <==> IsBlank(s[k..])
  {
    assert forall i | k <= i < |s| :: s[i] == s[k..][i - k];
    assert forall i | 0 <= i < k :: s[i] == s[..k][i];
  }

  /** Trimming the end leaves nothing exactly for blank text. */
  lemma TrimEndEmpty(t: string)
    ensures TrimEnd(t) == [] <==> IsBlank(t)
  {
    var r := TrimEnd(t);
    assert t[0..] == t;
    if r != [] {
      assert t[|r| - 1] == r[|r| - 1];
    }
  }

  /** Index of the first line break of `s`, or `|s|` when there is none. */
  function LineEnd(s: string): (i: nat)
    ensures i <= |s|
    ensures NoLineBreak(s[..i])
    ensures i < |s| ==> IsLineBreak(s[i])
    decreases |s|
  {
    if s == [] || IsLineBreak(s[0]) then 0
    else
      var k := LineEnd(s[1..]);
      assert s[..k + 1] == [s[0]] + s[1..][..k];
      k + 1
  }

  /**
    `s.splitlines()`: the lines of `s` without their terminators; "\r\n"
    ends one line, and a final terminator does not start an empty line.
   */
  function SplitLines(s: string): (lines: seq<string>)
    ensures forall k | 0 <= k < |lines| :: NoLineBreak(lines[k])
    ensures s != [] ==> lines != []
    decreases |s|
  {
    if s == [] then []
    else
      var i := LineEnd(s);
      if i == |s| then [s]
      else [s[..i]] + SplitLines(s[i + BreakWidth(s, i)..])
  }

  /** Length of the line terminator at `s[i]`: two for "\r\n", otherwise one. */
  function BreakWidth(s: string, i: nat): (w: nat)
    requires i < |s|
    ensures 1 <= w && i + w <= |s|
  {
    if s[i] == '\r' && i + 1 < |s| && s[i + 1] == '\n' then 2 else 1
  }

  /** `sep.join(xs)`. */
  function Join(sep: string, xs: seq<string>): string
    decreases |xs|
  {
    if xs == [] then []
    else if |xs| == 1 then xs[0]
    else xs[0] + sep + Join(sep, xs[1..])
  }

  /** `p` occurs in `s` starting at index `i`. */
  predicate OccursAt(s: string, p: string, i: int) {
    0 <= i && i + |p| <= |s| && s[i..i + |p|] == p
  }

  lemma OccursAtTail(s: string, p: string, i: int)
    requires s != [] && 0 <= i
    ensures OccursAt(s, p, i + 1) <==> OccursAt(s[1..], p, i)
  {
    if i + 1 + |p| <= |s| {
      assert s[i + 1..i + 1 + |p|] == s[1..][i..i + |p|];
    }
  }

  /** `s.find(p)`: the lowest index at which `p` occurs in `s`, or -1. */
  function Find(s: string, p: string): (r: int)
    ensures r == -1 || OccursAt(s, p, r)
    ensures forall i | 0 <= i && (r == -1 || i < r) :: !OccursAt(s, p, i)
    decreases |s|
  {
    if |p| <= |s| && s[..|p|] == p then 0
    else if s == [] then -1
    else
      var k := Find(s[1..], p);
      assert forall i | 1 <= i :: OccursAt(s, p, i) <==> OccursAt(s[1..], p, i - 1) by {
        forall i | 1 <= i ensures OccursAt(s, p, i) <==> OccursAt(s[1..], p, i - 1) {
          OccursAtTail(s, p, i - 1);
        }
      }
      if k == -1 then -1 else k + 1
  }

  /** `p in s`. */
  predicate Contains(s: string, p: string) {
    Find(s, p) >= 0
  }

  /** Any occurrence witnesses containment. */
  lemma OccursContains(s: string, p: string, i: int)
    requires OccursAt(s, p, i)
    ensures Contains(s, p) && 0 <= Find(s, p) <= i
  {
  }

  /** A character that never appears cannot be found. */
  lemma CharNotFound(s: string, c: char)
    requires c !in s
    ensures !Contains(s, [c])
  {
    forall i | 0 <= i < |s| ensures !OccursAt(s, [c], i) {
      assert s[i..i + 1] == [s[i]];
    }
  }

  /** A one-character pattern is found iff the character appears. */
  lemma {:induction false} CharContains(s: string, c: char)
    ensures Contains(s, [c]) <==> c in s
  {
    if c in s {
      var i :| 0 <= i < |s| && s[i] == c;
      assert s[i..i + 1] == [c];
      OccursContains(s, [c], i);
    } else {
      CharNotFound(s, c);
    }
  }

  /** An occurrence in a suffix of `s` is an occurrence in `s`, shifted. */
  lemma OccursInSuffix(s: string, m: nat, p: string, j: int)
    requires m <= |s| && OccursAt(s[m..], p, j)
    ensures OccursAt(s, p, m + j)
  {
    assert s[m + j..m + j + |p|] == s[m..][j..j + |p|];
  }

  /** An occurrence of `p + q` contains an occurrence of `p` at the same place. */
  lemma OccursPrefix(s: string, p: string, q: string, i: int)
    requires OccursAt(s, p + q, i)
    ensures OccursAt(s, p, i)
  {
    assert s[i..i + |p|] == s[i..i + |p + q|][..|p|];
  }

  /** `s.replace(p, q, 1)`: replaces the first occurrence of `p`, if any. */
  function ReplaceFirst(s: string, p: string, q: string): (r: string)
    ensures !Contains(s, p) ==> r == s
    ensures Contains(s, p) ==> |r| == |s| - |p| + |q| && OccursAt(r, q, Find(s, p))
  {
    var i := Find(s, p);
    if i < 0 then s else s[..i] + q + s[i + |p|..]
  }

  /**
    `s.replace(p, q)` for a non-empty `p`: scans left to right and
    replaces every non-overlapping occurrence.
   */
  function ReplaceAll(s: string, p: string, q: string): string
    requires p != []
    decreases |s|
  {
    if |s| < |p| then s
    else if s[..|p|] == p then q + ReplaceAll(s[|p|..], p, q)
    else [s[0]] + ReplaceAll(s[1..], p, q)
  }

  /** With no occurrence of the pattern, `replace` changes nothing. */
  lemma {:induction false} ReplaceAllAbsent(s: string, p: string, q: string)
    requires p != [] && !Contains(s, p)
    ensures ReplaceAll(s, p, q) == s
    decreases |s|
  {
    if |s| >= |p| {
      assert !OccursAt(s, p, 0);
      ReplaceAllAbsent(s[1..], p, q);
    }
  }

  /** A character absent from the input and the replacement is absent from the output. */
  lemma {:induction false} ReplaceAllKeepsOut(s: string, p: string, q: string, c: char)
    requires p != [] && c !in s && c !in q
    ensures c !in ReplaceAll(s, p, q)
    decreases |s|
  {
    if |s| >= |p| {
      if s[..|p|] == p {
        ReplaceAllKeepsOut(s[|p|..], p, q, c);
      } else {
        ReplaceAllKeepsOut(s[1..], p, q, c);
      }
    }
  }

  /** Replacing a one-character pattern removes that character when the replacement lacks it. */
  lemma {:induction false} ReplaceAllRemovesChar(s: string, c: char, q: string)
    requires c !in q
    ensures c !in ReplaceAll(s, [c], q)
    decreases |s|
  {
    if |s| >= 1 {
      ReplaceAllRemovesChar(s[1..], c, q);
      if s[..1] != [c] {
        assert s[0] != c;
      }
    }
  }

  /** One step of `replace` with a one-character pattern. */
  lemma ReplaceAllCharStep(s: string, c: char, q: string)
    requires s != []
    ensures ReplaceAll(s, [c], q)
         == (if s[0] == c then q else [s[0]]) + ReplaceAll(s[1..], [c], q)
  {
    assert s[..1] == [s[0]];
  }

  /** A leading occurrence of the pattern is replaced and the scan resumes after it. */
  lemma ReplaceAllLeading(p: string, t: string, q: string)
    requires p != []
    ensures ReplaceAll(p + t, p, q) == q + ReplaceAll(t, p, q)
  {
    assert (p + t)[..|p|] == p;
    assert (p + t)[|p|..] == t;
  }

  /** A leading character that cannot start the pattern is copied unchanged. */
  lemma ReplaceAllSkip(c: char, t: string, p: string, q: string)
    requires p != [] && c != p[0]
    ensures ReplaceAll([c] + t, p, q) == [c] + ReplaceAll(t, p, q)
  {
    assert ([c] + t)[1..] == t;
    if |[c] + t| >= |p| {
      assert ([c] + t)[..|p|][0] == c;
    }
  }

  /** The first line break of `head + "\n" + tail` is the one after `head`. */
  lemma LineEndAfter(head: string, tail: string)
    requires NoLineBreak(head)
    ensures LineEnd(head + "\n" + tail) == |head|
  {
    var s := head + "\n" + tail;
    var i := LineEnd(s);
    assert IsLineBreak(s[|head|]);
    assert forall j | 0 <= j < |head| :: s[j] == head[j];
    assert forall j | 0 <= j < i :: s[..i][j] == s[j];
  }

  /** The first line of `s.splitlines()` is `s` up to its first line break. */
  lemma FirstLine(s: string)
    requires s != []
    ensures SplitLines(s)[0] == s[..LineEnd(s)]
  {
  }

  /** Past the first line break, `splitlines` goes on with the rest of `s`. */
  lemma {:induction false} LaterLine(s: string, k: nat)
    requires LineEnd(s) < |s| && 0 < k < |SplitLines(s)|
    ensures var m := LineEnd(s) + BreakWidth(s, LineEnd(s));
      k - 1 < |SplitLines(s[m..])| && SplitLines(s)[k] == SplitLines(s[m..])[k - 1]
  {
  }

  /** Every prefix of `s` occurs at its start. */
  lemma OccursAtStart(s: string, n: nat)
    requires n <= |s|
    ensures OccursAt(s, s[..n], 0)
  {
    assert s[0..n] == s[..n];
  }

  /** Every line of `s.splitlines()` occurs in `s`, at the index returned. */
  lemma {:induction false} LineOccurs(s: string, k: nat) returns (at: nat)
    requires k < |SplitLines(s)|
    ensures OccursAt(s, SplitLines(s)[k], at)
    decreases |s|
  {
    var i := LineEnd(s);
    if i == |s| || k == 0 {
      FirstLine(s);
      assert k == 0;
      OccursAtStart(s, i);
      at := 0;
    } else {
      var m := i + BreakWidth(s, i);
      LaterLine(s, k);
      var j := LineOccurs(s[m..], k - 1);
      OccursInSuffix(s, m, SplitLines(s)[k], j);
      at := m + j;
    }
  }

  /**
    Joining non-empty lines that hold no line break with "\n" and splitting
    the result again gives back the same lines.
   */
  lemma {:induction false} SplitJoinedLines(lines: seq<string>)
    requires forall k | 0 <= k < |lines| :: lines[k] != [] && NoLineBreak(lines[k])
    ensures SplitLines(Join("\n", lines)) == lines
    decreases |lines|
  {
    if |lines| == 1 {
      var s := lines[0];
      assert LineEnd(s) == |s|;
    } else if |lines| > 1 {
      var head, tail := lines[0], Join("\n", lines[1..]);
      var s := head + "\n" + tail;
      assert Join("\n", lines) == s;
      LineEndAfter(head, tail);
      assert s[|head|] == '\n';
      assert BreakWidth(s, |head|) == 1;
      assert s[..|head|] == head;
      assert s[|head| + 1..] == tail;
      assert SplitLines(s) == [head] + SplitLines(tail);
      SplitJoinedLines(lines[1..]);
      assert lines == [head] + lines[1..];
    }
  }

  /** Text whose only line-break character is "\n". */
  predicate OnlyNewlineBreaks(s: string)
    decreases |s|
  {
    s == [] || ((s[0] == '\n' || !IsLineBreak(s[0])) && OnlyNewlineBreaks(s[1..]))
  }

  /** In such text every line break is a "\n". */
  lemma {:induction false} OnlyNewlineBreaksAt(s: string, i: nat)
    requires OnlyNewlineBreaks(s) && i < |s| && IsLineBreak(s[i])
    ensures s[i] == '\n'
    decreases i
  {
    if i > 0 {
      OnlyNewlineBreaksAt(s[1..], i - 1);
    }
  }

  /** Every suffix of such text is such text. */
  lemma {:induction false} OnlyNewlineBreaksSuffix(s: string, m: nat)
    requires OnlyNewlineBreaks(s) && m <= |s|
    ensures OnlyNewlineBreaks(s[m..])
    decreases m
  {
    if m > 0 {
      OnlyNewlineBreaksSuffix(s[1..], m - 1);
      assert s[1..][m - 1..] == s[m..];
    }
  }

  /** Text after a line break does not move the first one. */
  lemma LineEndExtend(s: string, x: string)
    requires LineEnd(s) < |s|
    ensures LineEnd(s + x) == LineEnd(s)
  {
    var i, t := LineEnd(s), s + x;
    var j := LineEnd(t);
    assert IsLineBreak(t[i]);
    assert forall k | 0 <= k < i :: t[k] == s[..i][k];
    assert forall k | 0 <= k < j :: t[..j][k] == t[k];
  }

  /** Joining a line in front of a non-empty list puts one separator after it. */
  lemma JoinCons(sep: string, x: string, ys: seq<string>)
    requires ys != []
    ensures Join(sep, [x] + ys) == x + sep + Join(sep, ys)
  {
    assert ([x] + ys)[1..] == ys;
  }

  /** `s` is the text before index `i`, the character there, and the rest. */
  lemma SplitAround(s: string, i: nat)
    requires i < |s|
    ensures s == s[..i] + [s[i]] + s[i + 1..]
  {
  }

  /** A non-empty suffix ends where the text ends. */
  lemma SuffixLast(s: string, m: nat)
    requires m < |s|
    ensures s[m..] != [] && s[m..][|s[m..]| - 1] == s[|s| - 1]
  {
  }

  /** A first line ended by "\n" is split off with the rest following it. */
  lemma SplitAtNewline(s: string)
    requires LineEnd(s) < |s| && s[LineEnd(s)] == '\n'
    ensures SplitLines(s) == [s[..LineEnd(s)]] + SplitLines(s[LineEnd(s) + 1..])
  {
    assert BreakWidth(s, LineEnd(s)) == 1;
  }

  /**
    For text that breaks lines only at "\n" and does not end in one,
    `"\n".join(s.splitlines())` gives back `s`: empty lines included,
    nothing is lost.
   */
  lemma {:induction false} SplitLinesJoin(s: string)
    requires OnlyNewlineBreaks(s) && (s == [] || s[|s| - 1] != '\n')
    ensures Join("\n", SplitLines(s)) == s
    decreases |s|
  {
    if LineEnd(s) == |s| {
      OneLineJoin(s);
    } else {
      var i := NewlineStep(s);
      SplitLinesJoin(s[i + 1..]);
      JoinAtNewline(s, i);
    }
  }

  /** Text without a line break is its own single line. */
  lemma OneLineJoin(s: string)
    requires LineEnd(s) == |s|
    ensures Join("\n", SplitLines(s)) == s
  {
  }

  /** Joining the first line back onto the rejoined rest restores the text. */
  lemma JoinAtNewline(s: string, i: nat)
    requires i + 1 < |s| && i == LineEnd(s) && s[i] == '\n'
    requires Join("\n", SplitLines(s[i + 1..])) == s[i + 1..]
    ensures Join("\n", SplitLines(s)) == s
  {
    SplitAtNewline(s);
    JoinCons("\n", s[..i], SplitLines(s[i + 1..]));
    SplitAround(s, i);
  }

  /** The inductive step of `SplitLinesJoin`: the text splits at its first "\n". */
  lemma NewlineStep(s: string) returns (i: nat)
    requires OnlyNewlineBreaks(s) && s != [] && s[|s| - 1] != '\n' && LineEnd(s) < |s|
    ensures i + 1 < |s| && s[i] == '\n'
    ensures OnlyNewlineBreaks(s[i + 1..]) && s[i + 1..][|s[i + 1..]| - 1] != '\n'
    ensures i == LineEnd(s)
  {
    i := LineEnd(s);
    OnlyNewlineBreaksAt(s, i);
    OnlyNewlineBreaksSuffix(s, i + 1);
    SuffixLast(s, i + 1);
  }

  /** A final line break does not add an empty line to `splitlines`. */
  lemma {:induction false} SplitLinesTrailingNewline(s: string)
    requires s != [] && !IsLineBreak(s[|s| - 1])
    ensures SplitLines(s + "\n") == SplitLines(s)
    decreases |s|
  {
    var i := LineEnd(s);
    if i == |s| {
      LastLineNewline(s);
    } else {
      var m := BreakBeforeLastLine(s);
      LineEndExtend(s, "\n");
      SplitLinesTrailingNewline(s[m..]);
      TrailingStep(s, i, m);
    }
  }

  /** Both texts split at the same first line break, after which their rests agree. */
  lemma TrailingStep(s: string, i: nat, m: nat)
    requires i == LineEnd(s) < |s| && m == i + BreakWidth(s, i)
    requires i == LineEnd(s + "\n") && m == i + BreakWidth(s + "\n", i)
    requires SplitLines(s[m..] + "\n") == SplitLines(s[m..])
    ensures SplitLines(s + "\n") == SplitLines(s)
  {
    SplitLinesAt(s, i, m);
    SplitLinesAt(s + "\n", i, m);
    AppendSlices(s, "\n", i, m);
  }

  /** Text without a line break keeps its single line when "\n" is appended. */
  lemma LastLineNewline(s: string)
    requires s != [] && LineEnd(s) == |s|
    ensures SplitLines(s + "\n") == SplitLines(s)
  {
    var t := s + "\n";
    LineEndNewline(s);
    assert BreakWidth(t, |s|) == 1;
    assert t[..|s|] == s && t[|s| + 1..] == [];
  }

  /** Appending "\n" to text without a line break puts its first break at the end. */
  lemma LineEndNewline(s: string)
    requires LineEnd(s) == |s|
    ensures LineEnd(s + "\n") == |s|
  {
    var t := s + "\n";
    var j := LineEnd(t);
    assert IsLineBreak(t[|s|]);
    assert forall k | 0 <= k < |s| :: t[k] == s[..|s|][k];
    assert forall k | 0 <= k < j :: t[..j][k] == t[k];
  }

  /**
    A first line break that ends before the last character of `s` ends at
    `m`, which is left unchanged by appending "\n"; the rest from `m` on
    again does not end in a line break.
   */
  lemma BreakBeforeLastLine(s: string) returns (m: nat)
    requires s != [] && !IsLineBreak(s[|s| - 1]) && LineEnd(s) < |s|
    ensures m == LineEnd(s) + BreakWidth(s, LineEnd(s))
    ensures m == LineEnd(s) + BreakWidth(s + "\n", LineEnd(s))
    ensures m < |s| && !IsLineBreak(s[m..][|s[m..]| - 1])
  {
    var i := LineEnd(s);
    assert i + 1 < |s|;
    m := i + BreakWidth(s, i);
    assert (s + "\n")[i] == s[i] && (s + "\n")[i + 1] == s[i + 1];
    SuffixLast(s, m);
  }

  /** `splitlines` past a first line break that ends at `m`. */
  lemma SplitLinesAt(t: string, i: nat, m: nat)
    requires i == LineEnd(t) < |t| && m == i + BreakWidth(t, i)
    ensures SplitLines(t) == [t[..i]] + SplitLines(t[m..])
  {
  }

  /** Slices of `s + x` that end or start within `s`. */
  lemma AppendSlices(s: string, x: string, i: nat, m: nat)
    requires i <= m <= |s|
    ensures (s + x)[..i] == s[..i] && (s + x)[m..] == s[m..] + x
  {
  }
}
