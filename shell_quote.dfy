/**
  `shlex.quote` and `shlex.join` from the Python standard library, and a
  reference reader for the part of POSIX shell word syntax that their
  output uses, against which the quoting is proved to round-trip.
 */
module ShellQuote {
  import opened Wrappers
  import opened PyStr

  /** Characters `shlex.quote` leaves unquoted: ASCII letters, digits and `%+,-./:=@_`. */
  predicate IsSafeChar(c: char) {
    ('a' <= c <= 'z') || ('A' <= c <= 'Z') || ('0' <= c <= '9')
    || c == '%' || c == '+' || c == ',' || c == '-' || c == '.' || c == '/'
    || c == ':' || c == '=' || c == '@' || c == '_'
  }

  predicate AllSafe(s: string) {
    forall i | 0 <= i < |s| :: IsSafeChar(s[i])
  }

  /** What `shlex.quote` puts in place of each single quote inside single quotes. */
  const QuotedQuote: string := "'\"'\"'"

  /**
    `shlex.quote(s)`: `''` for the empty string, `s` itself when every
    character is safe, and otherwise `s` in single quotes with every `'`
    closed, double-quoted and reopened.
   */
  function Quote(s: string): (r: string)
    ensures r != [] && r[0] != ' '
    ensures s != [] && AllSafe(s) ==> r == s
  {
    assert s != [] && AllSafe(s) ==> IsSafeChar(s[0]);
    if s == [] then "''"
    else if AllSafe(s) then s
    else "'" + ReplaceAll(s, "'", QuotedQuote) + "'"
  }

  function QuoteAll(ts: seq<string>): (r: seq<string>)
    ensures |r| == |ts|
    ensures forall k | 0 <= k < |ts| :: r[k] == Quote(ts[k])
  {
    if ts == [] then [] else [Quote(ts[0])] + QuoteAll(ts[1..])
  }

  /** `shlex.join(ts)`: the quoted words separated by single spaces. */
  function ShlexJoin(ts: seq<string>): (r: string)
    ensures r == [] <==> ts == []
  {
    Join(" ", QuoteAll(ts))
  }

  /** The quoting state of the reference reader. */
  datatype Mode = Bare | InSingle | InDouble

  function Prepend(t: string, o: Option<(string, string)>): Option<(string, string)> {
    match o
    case None => None
    case Some((w, rest)) => Some((t + w, rest))
  }

  /**
    Reads one shell word from `w` in quoting state `m`, up to an unquoted
    space or the end of the input, and gives the word's value and the
    unread rest. Inside single quotes every character is literal; inside
    double quotes `$`, backquote and backslash would be special and are
    refused here, as is every unquoted character that is not safe: the
    reader covers only what quoted output contains. An unterminated quote
    is refused.
   */
  function ReadWord(w: string, m: Mode): (r: Option<(string, string)>)
    ensures r.Some? ==> |r.value.1| <= |w|
    ensures r.Some? ==> r.value.1 == [] || r.value.1[0] == ' '
    ensures r.Some? && w != [] && (m != Bare || w[0] != ' ') ==> |r.value.1| < |w|
    decreases |w|
  {
    if w == [] then (if m == Bare then Some(([], [])) else None)
    else
      var c := w[0];
      match m
      case Bare =>
        if c == ' ' then Some(([], w))
        else if c == '\'' then ReadWord(w[1..], InSingle)
        else if c == '"' then ReadWord(w[1..], InDouble)
        else if IsSafeChar(c) then Prepend([c], ReadWord(w[1..], Bare))
        else None
      case InSingle =>
        if c == '\'' then ReadWord(w[1..], Bare)
        else Prepend([c], ReadWord(w[1..], InSingle))
      case InDouble =>
        if c == '"' then ReadWord(w[1..], Bare)
        else if c == '$' || c == '`' || c == '\\' then None
        else Prepend([c], ReadWord(w[1..], InDouble))
  }

  /** Splits a command line into words, skipping the spaces between them. */
  function Words(cmd: string): Option<seq<string>>
    decreases |cmd|
  {
    if cmd == [] then Some([])
    else if cmd[0] == ' ' then Words(cmd[1..])
    else
      match ReadWord(cmd, Bare)
      case None => None
      case Some((word, rest)) =>
        match Words(rest)
        case None => None
        case Some(ws) => Some([word] + ws)
  }

  /** Safe characters read back as themselves outside quotes. */
  lemma {:induction false} ReadSafe(t: string, tail: string)
    requires AllSafe(t) && (tail == [] || tail[0] == ' ')
    ensures ReadWord(t + tail, Bare) == Some((t, tail))
    decreases |t|
  {
    if t == [] {
      assert t + tail == tail;
    } else {
      assert (t + tail)[0] == t[0];
      assert (t + tail)[1..] == t[1..] + tail;
      ReadSafe(t[1..], tail);
      assert [t[0]] + t[1..] == t;
    }
  }

  lemma PrependPrepend(a: string, b: string, x: Option<(string, string)>)
    ensures Prepend(a, Prepend(b, x)) == Prepend(a + b, x)
  {
    match x {
      case None =>
      case Some((w, rest)) => assert a + (b + w) == (a + b) + w;
    }
  }

  /** Inside single quotes, `QuotedQuote` reads as one literal `'` and reopens the quotes. */
  lemma ReadQuotedQuote(r: string)
    ensures ReadWord(QuotedQuote + r, InSingle) == Prepend("'", ReadWord(r, InSingle))
  {
    var s0 := QuotedQuote + r;
    var s1, s2, s3, s4 := "\"'\"'" + r, "'\"'" + r, "\"'" + r, "'" + r;
    assert s0[0] == '\'' && s0[1..] == s1;
    assert s1[0] == '"' && s1[1..] == s2;
    assert s2[0] == '\'' && s2[1..] == s3;
    assert s3[0] == '"' && s3[1..] == s4;
    assert s4[0] == '\'' && s4[1..] == r;
    calc {
      ReadWord(s0, InSingle);
      ReadWord(s1, Bare);
      ReadWord(s2, InDouble);
      Prepend("'", ReadWord(s3, InDouble));
      Prepend("'", ReadWord(s4, Bare));
      Prepend("'", ReadWord(r, InSingle));
    }
  }

  /**
    Inside single quotes, the escaped body of `t` reads back as `t`:
    each `'` becomes close-quote, a double-quoted `'`, and reopen-quote.
   */
  lemma {:induction false} ReadEscaped(t: string, u: string)
    ensures ReadWord(ReplaceAll(t, "'", QuotedQuote) + u, InSingle)
         == Prepend(t, ReadWord(u, InSingle))
    decreases |t|
  {
    if t == [] {
      assert ReplaceAll(t, "'", QuotedQuote) + u == u;
      PrependPrepend([], [], ReadWord(u, InSingle));
      match ReadWord(u, InSingle) {
        case None =>
        case Some((w, rest)) => assert t + w == w;
      }
    } else {
      var e := ReplaceAll(t[1..], "'", QuotedQuote);
      ReplaceAllCharStep(t, '\'', QuotedQuote);
      ReadEscaped(t[1..], u);
      if t[0] == '\'' {
        assert ReplaceAll(t, "'", QuotedQuote) + u == QuotedQuote + (e + u);
        ReadQuotedQuote(e + u);
      } else {
        var s := [t[0]] + (e + u);
        assert ReplaceAll(t, "'", QuotedQuote) + u == s;
        assert s[1..] == e + u;
      }
      PrependPrepend([t[0]], t[1..], ReadWord(u, InSingle));
      assert [t[0]] + t[1..] == t;
    }
  }

  /** A quoted word, followed by a space or nothing, reads back as the original string. */
  lemma ReadQuoted(t: string, tail: string)
    requires tail == [] || tail[0] == ' '
    ensures ReadWord(Quote(t) + tail, Bare) == Some((t, tail))
  {
    if t == [] {
      var s := "''" + tail;
      assert Quote(t) + tail == s;
      assert s[0] == '\'' && s[1..] == "'" + tail;
      assert s[1..][0] == '\'' && s[1..][1..] == tail;
      assert ReadWord(tail, Bare) == Some(([], tail));
      assert ReadWord(s[1..], InSingle) == ReadWord(tail, Bare);
      assert ReadWord(s, Bare) == ReadWord(s[1..], InSingle);
    } else if AllSafe(t) {
      ReadSafe(t, tail);
    } else {
      var e := ReplaceAll(t, "'", QuotedQuote);
      var s := "'" + (e + ("'" + tail));
      assert Quote(t) + tail == s;
      assert s[1..] == e + ("'" + tail);
      ReadEscaped(t, "'" + tail);
      assert ("'" + tail)[1..] == tail;
      assert ReadWord("'" + tail, InSingle) == ReadWord(tail, Bare);
      assert ReadWord(tail, Bare) == Some(([], tail));
      assert t + [] == t;
    }
  }

  /**
    The round trip the generated scripts rely on: splitting the output of
    `shlex.join(ts)` into shell words gives back exactly `ts`.
   */
  lemma {:induction false} JoinRoundTrip(ts: seq<string>)
    ensures Words(ShlexJoin(ts)) == Some(ts)
    decreases |ts|
  {
    if ts != [] {
      var q := QuoteAll(ts);
      var head := Quote(ts[0]);
      if |ts| == 1 {
        assert QuoteAll(ts) == [head];
        assert ShlexJoin(ts) == head;
        ReadQuoted(ts[0], []);
        assert head + [] == head;
        assert ReadWord(head, Bare) == Some((ts[0], []));
        assert Words(head) == Some([ts[0]] + []);
        assert [ts[0]] + [] == ts;
      } else {
        var rest := ShlexJoin(ts[1..]);
        var tail := " " + rest;
        assert QuoteAll(ts)[1..] == QuoteAll(ts[1..]);
        assert ShlexJoin(ts) == head + tail;
        ReadQuoted(ts[0], tail);
        assert (head + tail)[0] == head[0];
        JoinRoundTrip(ts[1..]);
        assert tail[1..] == rest;
        assert ts == [ts[0]] + ts[1..];
      }
    }
  }

  /** A single quoted string is read as exactly one word. */
  lemma QuoteIsOneWord(t: string)
    ensures Words(Quote(t)) == Some([t])
  {
    JoinRoundTrip([t]);
    assert ShlexJoin([t]) == Quote(t);
  }

  /** Quoting adds only quote characters: any other character absent from `t` stays absent. */
  lemma QuoteAddsOnlyQuotes(t: string, c: char)
    requires c !in t && c != '\'' && c != '"'
    ensures c !in Quote(t)
  {
    if t != [] && !AllSafe(t) {
      ReplaceAllKeepsOut(t, "'", QuotedQuote, c);
    }
  }

  /** `u` holds neither a single nor a double quote. */
  predicate QuoteFree(u: string) {
    forall k | 0 <= k < |u| :: u[k] != '\'' && u[k] != '"'
  }

  /** `QuotedQuote` consists of quote characters only. */
  lemma QuotedQuoteQuotes()
    ensures forall k | 0 <= k < |QuotedQuote| :: QuotedQuote[k] == '\'' || QuotedQuote[k] == '"'
  {
  }

  /** An occurrence starts with the pattern's first character. */
  lemma OccursStartChar(x: string, u: string, i: int)
    requires u != [] && OccursAt(x, u, i)
    ensures x[i] == u[0]
  {
    assert x[i..i + |u|][0] == x[i];
  }

  /** An occurrence past `head` is an occurrence in what follows it. */
  lemma OccursAfter(head: string, rest: string, u: string, i: int)
    requires OccursAt(head + rest, u, i) && |head| <= i
    ensures OccursAt(rest, u, i - |head|)
  {
    assert (head + rest)[|head|..] == rest;
    assert rest[i - |head|..i - |head| + |u|] == (head + rest)[|head|..][i - |head|..i - |head| + |u|];
  }

  /** Matching at the start, one character at a time. */
  lemma OccursAtStartStep(x: string, u: string)
    requires x != [] && u != []
    ensures OccursAt(x, u, 0) <==> x[0] == u[0] && OccursAt(x[1..], u[1..], 0)
  {
    if |u| <= |x| {
      assert x[0..|u|] == [x[0]] + x[1..][0..|u| - 1];
      assert u == [u[0]] + u[1..];
    }
  }

  /** A quote-free string at the start of the escaped body of `t` is at the start of `t`. */
  lemma {:induction false} EscapedPrefix(t: string, u: string)
    requires QuoteFree(u) && OccursAt(ReplaceAll(t, "'", QuotedQuote), u, 0)
    ensures OccursAt(t, u, 0)
    decreases |t|
  {
    if u != [] {
      assert t != [];
      ReplaceAllCharStep(t, '\'', QuotedQuote);
      var head := if t[0] == '\'' then QuotedQuote else [t[0]];
      var e1 := ReplaceAll(t[1..], "'", QuotedQuote);
      OccursStartChar(head + e1, u, 0);
      QuotedQuoteQuotes();
      assert t[0] != '\'' && t[0] == u[0];
      OccursAtStartStep([t[0]] + e1, u);
      assert ([t[0]] + e1)[1..] == e1;
      EscapedPrefix(t[1..], u[1..]);
      OccursAtStartStep(t, u);
    }
  }

  /** Every occurrence of a quote-free string in the escaped body of `t` comes from one in `t`. */
  lemma {:induction false} EscapedOccurs(t: string, u: string, i: nat) returns (j: nat)
    requires u != [] && QuoteFree(u) && OccursAt(ReplaceAll(t, "'", QuotedQuote), u, i)
    ensures OccursAt(t, u, j)
    decreases |t|
  {
    assert t != [];
    ReplaceAllCharStep(t, '\'', QuotedQuote);
    var head := if t[0] == '\'' then QuotedQuote else [t[0]];
    var e1 := ReplaceAll(t[1..], "'", QuotedQuote);
    if i < |head| {
      OccursStartChar(head + e1, u, i);
      QuotedQuoteQuotes();
      assert (head + e1)[i] == head[i];
      assert t[0] != '\'' && i == 0;
      EscapedPrefix(t, u);
      j := 0;
    } else {
      OccursAfter(head, e1, u, i);
      var j1 := EscapedOccurs(t[1..], u, i - |head|);
      OccursInSuffix(t, 1, u, j1);
      j := 1 + j1;
    }
  }

  /** Quoting creates no occurrence of a non-empty quote-free string. */
  lemma QuoteKeepsOut(t: string, u: string)
    requires u != [] && QuoteFree(u)
    ensures Contains(Quote(t), u) ==> Contains(t, u)
  {
    if t == [] {
      EmptyQuoteKeepsOut(u);
    } else if !AllSafe(t) {
      EscapedKeepsOut(t, u);
    }
  }

  /** `''`, the quoted empty string, holds no quote-free string. */
  lemma EmptyQuoteKeepsOut(u: string)
    requires u != [] && QuoteFree(u)
    ensures !Contains("''", u)
  {
    forall i | 0 <= i ensures !OccursAt("''", u, i) {
      if i < 2 {
        assert "''"[i] != u[0];
      }
    }
  }

  /** A quote-free string found in `'e'` lies within `e`. */
  lemma InsideQuotes(e: string, u: string, i: int)
    requires u != [] && QuoteFree(u) && OccursAt("'" + e + "'", u, i)
    ensures 1 <= i && OccursAt(e, u, i - 1)
  {
    var q := "'" + e + "'";
    assert 1 <= i by {
      assert q[0] == '\'' && q[i] == u[0];
    }
    assert i + |u| < |q| by {
      assert q[|q| - 1] == '\'' && q[i + |u| - 1] == u[|u| - 1];
    }
    assert q[1..|q| - 1] == e;
    assert e[i - 1..i - 1 + |u|] == q[1..|q| - 1][i - 1..i - 1 + |u|] == q[i..i + |u|];
  }

  /** An occurrence in single-quoted, escaped text lies inside the escaped body. */
  lemma EscapedKeepsOut(t: string, u: string)
    requires u != [] && QuoteFree(u)
    ensures Contains("'" + ReplaceAll(t, "'", QuotedQuote) + "'", u) ==> Contains(t, u)
  {
    var e := ReplaceAll(t, "'", QuotedQuote);
    var q := "'" + e + "'";
    if Contains(q, u) {
      var i := Find(q, u);
      InsideQuotes(e, u, i);
      var j := EscapedOccurs(t, u, i - 1);
      OccursContains(t, u, j);
    }
  }
}
