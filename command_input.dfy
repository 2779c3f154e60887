/**
  The command normaliser `parse_command_input` and the caller's rewrite of
  every newline into a backslash-newline. `shlex.split(line)[0]`, the first
  word of a line under POSIX lexing, is the parameter `firstToken`.
 */
module CommandInput {
  import opened Wrappers
  import opened PyStr
  import opened ShellQuote

  datatype CommandError = TooManyLines   // several lines without shell mode

  /** Stands in for the shell's path until the command is joined. */
  const Placeholder: string := "/REPLACE/ME"
  /** Shell text that the target host expands to the path of `sh`. */
  const WhichSh: string := "$(which sh)"

  /** The list comprehension dropping lines that `strip()` would empty, order kept. */
  function KeepNonBlank(lines: seq<string>): (r: seq<string>)
    ensures forall x :: x in r <==> x in lines && !IsBlank(x)
    ensures lines == [] ==> r == []
    ensures |lines| == 1 ==> r == (if IsBlank(lines[0]) then [] else lines)
  {
    if lines == [] then []
    else if IsBlank(lines[0]) then KeepNonBlank(lines[1..])
    else [lines[0]] + KeepNonBlank(lines[1..])
  }

  /**
    Filtering distributes over concatenation. With the one-line case of
    `KeepNonBlank`'s contract this fixes the result entirely: each
    non-blank line is kept once, in input order.
   */
  lemma {:induction false} KeepNonBlankAppend(a: seq<string>, b: seq<string>)
    ensures KeepNonBlank(a + b) == KeepNonBlank(a) + KeepNonBlank(b)
    decreases |a|
  {
    if a == [] {
      assert a + b == b;
    } else {
      assert (a + b)[0] == a[0];
      assert (a + b)[1..] == a[1..] + b;
      KeepNonBlankAppend(a[1..], b);
    }
  }

  function NonBlankLines(text: string): seq<string> {
    KeepNonBlank(SplitLines(text))
  }

  /**
    `line.replace(tok, "$(which tok)", 1)` with `tok` the line's first word:
    only the first literal occurrence of `tok` is rewritten.
   */
  function RewriteExec(line: string, firstToken: string -> string): (r: string)
    ensures |r| == if Contains(line, firstToken(line)) then |line| + |"$(which )"| else |line|
  {
    var tok := firstToken(line);
    ReplaceFirst(line, tok, "$(which " + tok + ")")
  }

  function RewriteAll(lines: seq<string>, firstToken: string -> string): (r: seq<string>)
    ensures |r| == |lines|
    ensures forall k | 0 <= k < |lines| :: r[k] == RewriteExec(lines[k], firstToken)
  {
    if lines == [] then [] else [RewriteExec(lines[0], firstToken)] + RewriteAll(lines[1..], firstToken)
  }

  /** `parse_command_input(text, shell)`. */
  function ParseCommandInput(text: string, shell: bool, firstToken: string -> string)
    : (r: Result<string, CommandError>)
    ensures NonBlankLines(text) == [] ==> r == Ok("")
    ensures shell ==> r.Ok?
    ensures r.Err? ==> |NonBlankLines(text)| > 1
  {
    var lines := NonBlankLines(text);
    if lines == [] then Ok("")
    else if |lines| > 1 && !shell then Err(TooManyLines)
    else
      var rewritten := RewriteAll(lines, firstToken);
      if !shell then Ok(rewritten[0])
      else
        var joined := Join("\n", rewritten);
        Ok(ReplaceAll(ShlexJoin([Placeholder, "-c", joined]), Placeholder, WhichSh))
  }

  /** The caller's `.replace("\n", "\\\n")` on the parsed command. */
  function ContinueLines(command: string): (r: string)
    ensures r == [] <==> command == []
    ensures '\n' !in command ==> r == command
  {
    var r := ReplaceAll(command, "\n", "\\\n");
    assert '\n' !in command ==> r == command by {
      if '\n' !in command {
        CharNotFound(command, '\n');
        ReplaceAllAbsent(command, "\n", "\\\n");
      }
    }
    r
  }

  /**
    The rewrite touches exactly the first literal occurrence of the first
    word, and leaves the line alone when that word does not occur as written.
   */
  lemma RewriteFirstOccurrence(line: string, firstToken: string -> string, i: int)
    requires OccursAt(line, firstToken(line), i)
    requires forall j | 0 <= j < i :: !OccursAt(line, firstToken(line), j)
    ensures RewriteExec(line, firstToken)
         == line[..i] + "$(which " + firstToken(line) + ")" + line[i + |firstToken(line)|..]
  {
    OccursContains(line, firstToken(line), i);
  }

  lemma RewriteAbsentToken(line: string, firstToken: string -> string)
    requires !Contains(line, firstToken(line))
    ensures RewriteExec(line, firstToken) == line
  {
  }

  /** Splicing `$(which tok)` over an occurrence adds no character outside it. */
  lemma SpliceShape(line: string, tok: string, i: nat, c: char)
    requires i + |tok| <= |line| && c !in line && c !in tok && c != '$' && c != '(' && c != ')'
      && c != 'w' && c != 'h' && c != 'i' && c != 'c' && c != ' '
    ensures var r := line[..i] + ("$(which " + tok + ")") + line[i + |tok|..];
      r != [] && c !in r
  {
    assert c !in line[..i] && c !in line[i + |tok|..];
    assert c !in "$(which " + tok + ")";
  }

  /** A rewritten line is never empty, and keeps a line free of a character that its first word lacks. */
  lemma RewriteShape(line: string, firstToken: string -> string, c: char)
    requires line != [] && c !in line && c !in firstToken(line) && c != '$' && c != '(' && c != ')'
      && c != 'w' && c != 'h' && c != 'i' && c != 'c' && c != ' '
    ensures RewriteExec(line, firstToken) != []
    ensures c !in RewriteExec(line, firstToken)
  {
    var tok := firstToken(line);
    var i := Find(line, tok);
    if i >= 0 {
      SpliceShape(line, tok, i, c);
    }
  }

  /** Every line the normaliser keeps holds no line break and is not blank. */
  lemma NonBlankLinesShape(text: string, k: nat)
    requires k < |NonBlankLines(text)|
    ensures NoLineBreak(NonBlankLines(text)[k]) && !IsBlank(NonBlankLines(text)[k])
    ensures NonBlankLines(text)[k] != []
  {
    var line := NonBlankLines(text)[k];
    assert line in SplitLines(text);
  }

  lemma PlaceholderIsSafe()
    ensures AllSafe(Placeholder) && AllSafe("-c")
  {
    var p := Placeholder;
    assert p == ['/', 'R', 'E', 'P', 'L', 'A', 'C', 'E', '/', 'M', 'E'];
    forall i | 0 <= i < |p| ensures IsSafeChar(p[i]) {
      assert p[i] in {'/', 'R', 'E', 'P', 'L', 'A', 'C', 'M'};
    }
    assert "-c" == ['-', 'c'];
  }

  /**
    Shell mode: the joined lines become the single quoted argument after
    `$(which sh) -c`, and then EVERY `/REPLACE/ME` in that quoted text,
    including any the user typed, is also rewritten to `$(which sh)`.
   */
  lemma ShellModeShape(text: string, firstToken: string -> string)
    requires NonBlankLines(text) != []
    ensures var joined := Join("\n", RewriteAll(NonBlankLines(text), firstToken));
      ParseCommandInput(text, true, firstToken)
        == Ok(WhichSh + " -c " + ReplaceAll(Quote(joined), Placeholder, WhichSh))
  {
    ShellCommandShape(Join("\n", RewriteAll(NonBlankLines(text), firstToken)));
  }

  /** The `shlex.join` of the placeholder, `-c` and the text, after the placeholder rewrite. */
  lemma ShellCommandShape(joined: string)
    ensures ReplaceAll(ShlexJoin([Placeholder, "-c", joined]), Placeholder, WhichSh)
         == WhichSh + " -c " + ReplaceAll(Quote(joined), Placeholder, WhichSh)
  {
    var q := Quote(joined);
    PlaceholderIsSafe();
    assert AllSafe(Placeholder) && AllSafe("-c");
    var quoted := QuoteAll([Placeholder, "-c", joined]);
    assert quoted[0] == Placeholder && quoted[1] == "-c" && quoted[2] == q;
    assert quoted == [Placeholder, "-c", q];
    JoinThree(Placeholder, "-c", q);
    assert " " + "-c" + " " + q == " -c " + q;
    assert ShlexJoin([Placeholder, "-c", joined]) == Placeholder + (" -c " + q);
    RewriteAfterPlaceholder(q);
  }

  lemma JoinThree(a: string, b: string, c: string)
    ensures Join(" ", [a, b, c]) == a + (" " + b + " " + c)
  {
    calc {
      Join(" ", [a, b, c]);
      { assert [a, b, c][1..] == [b, c]; }
      a + " " + Join(" ", [b, c]);
      { assert [b, c][1..] == [c]; }
      a + " " + (b + " " + c);
      a + (" " + b + " " + c);
    }
  }

  /** The leading placeholder becomes `$(which sh)`; ` -c ` is copied; the rest is rewritten in turn. */
  lemma RewriteAfterPlaceholder(q: string)
    ensures ReplaceAll(Placeholder + (" -c " + q), Placeholder, WhichSh)
         == WhichSh + " -c " + ReplaceAll(q, Placeholder, WhichSh)
  {
    var p, r := Placeholder, WhichSh;
    assert p[0] == '/';
    ReplaceAllLeading(p, " -c " + q, r);
    assert " -c " + q == [' '] + ("-c " + q);
    ReplaceAllSkip(' ', "-c " + q, p, r);
    assert "-c " + q == ['-'] + ("c " + q);
    ReplaceAllSkip('-', "c " + q, p, r);
    assert "c " + q == ['c'] + (" " + q);
    ReplaceAllSkip('c', " " + q, p, r);
    assert " " + q == [' '] + q;
    ReplaceAllSkip(' ', q, p, r);
  }

  /**
    When the joined lines hold no `/REPLACE/ME`, shell mode yields
    `$(which sh) -c <word>` where `<word>` is read by the shell as exactly
    one word, the joined lines.
   */
  lemma ShellModeSingleArgument(text: string, firstToken: string -> string)
    requires NonBlankLines(text) != []
    requires !Contains(Join("\n", RewriteAll(NonBlankLines(text), firstToken)), Placeholder)
    ensures var joined := Join("\n", RewriteAll(NonBlankLines(text), firstToken));
      exists word ::
        ParseCommandInput(text, true, firstToken) == Ok(WhichSh + " -c " + word)
        && Words(word) == Some([joined])
  {
    var joined := Join("\n", RewriteAll(NonBlankLines(text), firstToken));
    ShellModeShape(text, firstToken);
    QuotedKeepsNoPlaceholder(joined);
    QuoteIsOneWord(joined);
    assert ParseCommandInput(text, true, firstToken) == Ok(WhichSh + " -c " + Quote(joined));
  }

  /** Without a placeholder in the text, the placeholder rewrite leaves its quoted form alone. */
  lemma QuotedKeepsNoPlaceholder(joined: string)
    requires !Contains(joined, Placeholder)
    ensures ReplaceAll(Quote(joined), Placeholder, WhichSh) == Quote(joined)
  {
    assert QuoteFree(Placeholder) by {
      assert Placeholder == ['/', 'R', 'E', 'P', 'L', 'A', 'C', 'E', '/', 'M', 'E'];
    }
    QuoteKeepsOut(joined, Placeholder);
    ReplaceAllAbsent(Quote(joined), Placeholder, WhichSh);
  }

  /**
    Shell mode: when no first word holds a line break, the `-c` text splits
    back into exactly the rewritten lines, in input order.
   */
  lemma ShellModeKeepsLines(text: string, firstToken: string -> string)
    requires forall k | 0 <= k < |NonBlankLines(text)| :: NoLineBreak(firstToken(NonBlankLines(text)[k]))
    ensures var rewritten := RewriteAll(NonBlankLines(text), firstToken);
      SplitLines(Join("\n", rewritten)) == rewritten
  {
    var lines := NonBlankLines(text);
    var rewritten := RewriteAll(lines, firstToken);
    forall k | 0 <= k < |rewritten| ensures rewritten[k] != [] && NoLineBreak(rewritten[k]) {
      NonBlankLinesShape(text, k);
      RewriteKeepsNoBreak(lines[k], firstToken);
    }
    SplitJoinedLines(rewritten);
  }

  lemma RewriteKeepsNoBreak(line: string, firstToken: string -> string)
    requires line != [] && NoLineBreak(line) && NoLineBreak(firstToken(line))
    ensures RewriteExec(line, firstToken) != [] && NoLineBreak(RewriteExec(line, firstToken))
  {
    var tok := firstToken(line);
    var w := "$(which " + tok + ")";
    assert NoLineBreak(w) by {
      forall i | 0 <= i < |w| ensures !IsLineBreak(w[i]) {
        if 8 <= i < 8 + |tok| {
          assert w[i] == tok[i - 8];
        }
      }
    }
    var i := Find(line, tok);
    if i >= 0 {
      var a, b := line[..i], line[i + |tok|..];
      assert NoLineBreak(a) && NoLineBreak(b) by {
        forall j | 0 <= j < |a| ensures !IsLineBreak(a[j]) { assert a[j] == line[j]; }
        forall j | 0 <= j < |b| ensures !IsLineBreak(b[j]) { assert b[j] == line[i + |tok| + j]; }
      }
      var r := a + w + b;
      forall j | 0 <= j < |r| ensures !IsLineBreak(r[j]) {
        if j < |a| { assert r[j] == a[j]; }
        else if j < |a| + |w| { assert r[j] == w[j - |a|]; }
        else { assert r[j] == b[j - |a| - |w|]; }
      }
    }
  }

  /**
    What the normaliser yields: the empty command exactly when every line
    is blank (the command is then not rejected), the too-many-lines error
    exactly for several lines without shell mode, and in direct mode the
    single line with its first word rewritten.
   */
  lemma ParseOutcomes(text: string, shell: bool, firstToken: string -> string)
    ensures ParseCommandInput(text, shell, firstToken) == Ok("")
        <==> forall k | 0 <= k < |SplitLines(text)| :: IsBlank(SplitLines(text)[k])
    ensures ParseCommandInput(text, shell, firstToken) == Err(TooManyLines)
        <==> !shell && |NonBlankLines(text)| > 1
    ensures !shell && |NonBlankLines(text)| == 1
        ==> ParseCommandInput(text, shell, firstToken) == Ok(RewriteExec(NonBlankLines(text)[0], firstToken))
  {
    var lines := NonBlankLines(text);
    if lines != [] {
      assert lines[0] in lines;
      assert exists k | 0 <= k < |SplitLines(text)| :: !IsBlank(SplitLines(text)[k]);
      if shell {
        ShellModeShape(text, firstToken);
      } else if |lines| == 1 {
        NonBlankLinesShape(text, 0);
        var tok := firstToken(lines[0]);
        var i := Find(lines[0], tok);
        if i >= 0 {
          assert |RewriteExec(lines[0], firstToken)| >= |"$(which " + tok + ")"|;
        }
      }
    } else {
      forall k | 0 <= k < |SplitLines(text)| ensures IsBlank(SplitLines(text)[k]) {
        assert SplitLines(text)[k] in SplitLines(text);
      }
    }
  }

  /** After the caller's rewrite every newline is preceded by a backslash. */
  lemma {:induction false} NewlinesContinued(command: string)
    ensures var r := ContinueLines(command);
      forall i | 0 <= i < |r| && r[i] == '\n' :: 0 < i && r[i - 1] == '\\'
    decreases |command|
  {
    if command != [] {
      ReplaceAllCharStep(command, '\n', "\\\n");
      NewlinesContinued(command[1..]);
      var head := if command[0] == '\n' then "\\\n" else [command[0]];
      var rest := ContinueLines(command[1..]);
      var r := head + rest;
      assert ContinueLines(command) == r;
      forall i | 0 <= i < |r| && r[i] == '\n' ensures 0 < i && r[i - 1] == '\\' {
        if i >= |head| {
          assert r[i] == rest[i - |head|];
          assert r[i - 1] == rest[i - |head| - 1];
        }
      }
    }
  }

  /** The rewrite never yields a string that starts with a newline. */
  lemma ContinueLinesHead(command: string)
    requires command != []
    ensures ContinueLines(command) != [] && ContinueLines(command)[0] != '\n'
  {
    ReplaceAllCharStep(command, '\n', "\\\n");
  }

  /** The rewrite loses nothing: turning each backslash-newline back into a newline restores the command. */
  lemma {:induction false} ContinueLinesRoundTrip(command: string)
    ensures ReplaceAll(ContinueLines(command), "\\\n", "\n") == command
    decreases |command|
  {
    if command != [] {
      ReplaceAllCharStep(command, '\n', "\\\n");
      var rest := ContinueLines(command[1..]);
      ContinueLinesRoundTrip(command[1..]);
      if command[0] == '\n' {
        ReplaceAllLeading("\\\n", rest, "\n");
      } else if command[0] != '\\' {
        ReplaceAllSkip(command[0], rest, "\\\n", "\n");
      } else if rest == [] {
        assert ContinueLines(command) == [command[0]];
      } else {
        ContinueLinesHead(command[1..]);
        var s := [command[0]] + rest;
        assert s[..2] != "\\\n" by { assert s[..2][1] == rest[0]; }
        assert s[1..] == rest;
      }
      assert command == [command[0]] + command[1..];
    }
  }

  /** In direct mode the caller's rewrite changes nothing when the first word holds no newline. */
  lemma DirectModeUnaffected(text: string, firstToken: string -> string)
    requires |NonBlankLines(text)| == 1
    requires '\n' !in firstToken(NonBlankLines(text)[0])
    ensures ParseCommandInput(text, false, firstToken).Ok?
    ensures var cmd := ParseCommandInput(text, false, firstToken).value;
      ContinueLines(cmd) == cmd
  {
    var line := NonBlankLines(text)[0];
    NonBlankLinesShape(text, 0);
    assert '\n' !in line;
    RewriteShape(line, firstToken, '\n');
    CharNotFound(RewriteExec(line, firstToken), '\n');
    ReplaceAllAbsent(RewriteExec(line, firstToken), "\n", "\\\n");
  }
}
