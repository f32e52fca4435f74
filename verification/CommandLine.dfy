/** The shell's command line parser (parseline in sp_02_shelllab/tsh.c): what it splits a line into,
    and the loop that does so in place, cutting a copy of the line with NULs. */
module CommandLine {

  const MAXLINE := 1024
  const MAXARGS := 128
  const NUL := '\0'
  const SPACE := ' '
  const QUOTE := '\''
  const NULL := -1

  // ----- what a line means

  /** strchr: the first c in s, or |s|. */
  function Find(s: string, c: char): (k: nat)
    ensures k <= |s| && c !in s[..k] && (k < |s| ==> s[k] == c)
  {
    if s == [] || s[0] == c then 0
    else
      var k := Find(s[1..], c);
      assert s[..k + 1] == [s[0]] + s[1..][..k];
      k + 1
  }

  function Skip(s: string): (r: string)
    ensures |r| <= |s| && (r != [] ==> r[0] != SPACE)
  {
    if s != [] && s[0] == SPACE then Skip(s[1..]) else s
  }

  /** The arguments on a line: runs of non-spaces that end in a space, or text between quotes. */
  function Tokens(s: string): seq<string>
    decreases |s|
  {
    var t := Skip(s);
    if t != [] && t[0] == QUOTE then
      var k := Find(t[1..], QUOTE);
      if k == |t| - 1 then [] else [t[1..1 + k]] + Tokens(t[k + 2..])
    else
      var k := Find(t, SPACE);
      if k == |t| then [] else [t[..k]] + Tokens(t[k + 1..])
  }

  predicate Ampersand(t: string)
  {
    t != [] && t[0] == '&'
  }

  /** The arguments proper and whether the line asks for a background job; blank lines do. */
  function Split(ts: seq<string>): (seq<string>, bool)
  {
    if ts == [] then ([], true)
    else if Ampersand(ts[|ts| - 1]) then (ts[..|ts| - 1], true)
    else (ts, false)
  }

  /** The line parseline works on: its last character, the newline, becomes a space. */
  function Line(cmdline: string): string
    requires cmdline != []
  {
    cmdline[..|cmdline| - 1] + [SPACE]
  }

  function Parsed(cmdline: string): (seq<string>, bool)
    requires cmdline != []
  {
    Split(Tokens(Line(cmdline)))
  }

  // ----- printing arguments so that they parse back

  predicate NeedsQuotes(a: string)
  {
    a == [] || SPACE in a
  }

  function Quoted(a: string): string
  {
    if NeedsQuotes(a) then [QUOTE] + a + [QUOTE] else a
  }

  function Printed(args: seq<string>): (r: string)
    ensures args != [] ==> r != []
  {
    if args == [] then []
    else if |args| == 1 then Quoted(args[0]) + ['\n']
    else Quoted(args[0]) + [SPACE] + Printed(args[1..])
  }

  /** A quoted argument may not contain a quote; an unquoted one may not start with one. */
  predicate Printable(a: string)
  {
    if NeedsQuotes(a) then QUOTE !in a else a[0] != QUOTE
  }

  lemma FindAfter(a: string, c: char, rest: string)
    requires c !in a
    ensures Find(a + [c] + rest, c) == |a|
  {
    var s := a + [c] + rest;
    assert s[|a|] == c && s[..|a|] == a;
    FindIsFirst(s, c, |a|);
  }

  lemma {:induction false} FindIsFirst(s: string, c: char, k: nat)
    requires k < |s| && s[k] == c && c !in s[..k]
    ensures Find(s, c) == k
  {
    if k > 0 {
      assert s[0] == s[..k][0];
      assert s[1..][..k - 1] == s[..k][1..];
      FindIsFirst(s[1..], c, k - 1);
    }
  }

  lemma {:induction false} TokensQuote(s: string, k: nat)
    requires s != [] && s[0] == QUOTE && Find(s[1..], QUOTE) == k
    ensures Tokens(s) == if k == |s| - 1 then [] else [s[1..1 + k]] + Tokens(s[k + 2..])
  {
    SkipNothing(s);
    hide Find, Skip;
  }

  lemma SkipNothing(s: string)
    requires s != [] ==> s[0] != SPACE
    ensures Skip(s) == s
  {
  }

  lemma {:induction false} TokensSpace(s: string, k: nat)
    requires (s != [] ==> s[0] != QUOTE && s[0] != SPACE) && Find(s, SPACE) == k
    ensures Tokens(s) == if k == |s| then [] else [s[..k]] + Tokens(s[k + 1..])
  {
    SkipNothing(s);
    hide Find, Skip;
  }

  lemma {:induction false} SkipSpaces(s: string)
    ensures Skip([SPACE] + s) == Skip(s)
  {
    assert ([SPACE] + s)[1..] == s;
  }

  lemma TokensAfterSpace(s: string)
    ensures Tokens([SPACE] + s) == Tokens(s)
  {
    SkipSpaces(s);
  }

  lemma TokenQuoted(a: string, rest: string)
    requires QUOTE !in a
    ensures Tokens([QUOTE] + a + [QUOTE] + [SPACE] + rest) == [a] + Tokens(rest)
  {
    hide Tokens, Find, Skip;
    var s := [QUOTE] + a + [QUOTE] + [SPACE] + rest;
    FindAfter(a, QUOTE, [SPACE] + rest);
    assert s[1..] == a + [QUOTE] + ([SPACE] + rest);
    TokensQuote(s, |a|);
    assert s[1..1 + |a|] == a && s[|a| + 2..] == [SPACE] + rest;
    TokensAfterSpace(rest);
  }

  lemma TokenPlain(a: string, rest: string)
    requires a != [] && SPACE !in a && a[0] != QUOTE
    ensures Tokens(a + [SPACE] + rest) == [a] + Tokens(rest)
  {
    hide Tokens, Find, Skip;
    var s := a + [SPACE] + rest;
    FindAfter(a, SPACE, rest);
    TokensSpace(s, |a|);
    assert s[..|a|] == a && s[|a| + 1..] == rest;
  }

  /** A printable argument in front of a line is its first token. */
  lemma TokenPrinted(a: string, rest: string)
    requires Printable(a)
    ensures Tokens(Quoted(a) + [SPACE] + rest) == [a] + Tokens(rest)
  {
    hide Tokens;
    if NeedsQuotes(a) {
      TokenQuoted(a, rest);
    } else {
      TokenPlain(a, rest);
    }
  }

  /** An argument that is not printable is not the first token of a line that starts with it. */
  lemma TokenMangled(a: string, rest: string)
    requires !Printable(a)
    ensures var ts := Tokens(Quoted(a) + [SPACE] + rest); ts == [] || ts[0] != a
  {
    var s := Quoted(a) + [SPACE] + rest;
    var k := Find(s[1..], QUOTE);
    if !NeedsQuotes(a) {
      assert a[0] == QUOTE;
    }
    if k < |s| - 1 {
      assert QUOTE !in s[1..1 + k] by {
        assert s[1..][..k] == s[1..1 + k];
      }
    }
  }

  lemma LineAppend(a: string, p: string)
    requires p != []
    ensures Line(a + p) == a + Line(p)
  {
    assert (a + p)[..|a + p| - 1] == a + p[..|p| - 1];
  }

  lemma PrintedLine(args: seq<string>)
    requires args != []
    ensures Line(Printed(args)) == if |args| == 1 then Quoted(args[0]) + [SPACE] + []
                                   else Quoted(args[0]) + [SPACE] + Line(Printed(args[1..]))
  {
    hide Quoted, Line;
    if |args| == 1 {
      LineAppend(Quoted(args[0]), ['\n']);
      LineEnd();
    } else {
      LineAppend(Quoted(args[0]) + [SPACE], Printed(args[1..]));
    }
  }

  lemma LineEnd()
    ensures Line(['\n']) == [SPACE]
  {
  }

  /** Printed arguments split back into themselves exactly when all of them are printable. */
  lemma {:induction false} TokensOfPrinted(args: seq<string>)
    requires args != []
    ensures Tokens(Line(Printed(args))) == args <==> forall a :: a in args ==> Printable(a)
  {
    PrintedLine(args);
    var rest := if |args| == 1 then [] else Line(Printed(args[1..]));
    assert args == [args[0]] + args[1..];
    if Printable(args[0]) {
      TokenPrinted(args[0], rest);
      if |args| == 1 {
        assert Tokens([]) == [];
      } else {
        TokensOfPrinted(args[1..]);
        assert ([args[0]] + Tokens(rest))[1..] == Tokens(rest);
      }
    } else {
      TokenMangled(args[0], rest);
    }
  }

  /** The round trip: printing and parsing gives the arguments back; a last argument that starts with
      an ampersand, quoted or not, is dropped and makes it a background job. */
  lemma PrintParse(args: seq<string>)
    requires args != [] && forall a :: a in args ==> Printable(a)
    ensures Parsed(Printed(args)) ==
            if Ampersand(args[|args| - 1]) then (args[..|args| - 1], true) else (args, false)
  {
    TokensOfPrinted(args);
  }

  // ----- lines without arguments

  lemma {:induction false} SkipExact(s: string) returns (k: nat)
    ensures k <= |s| && Skip(s) == s[k..] && forall i :: 0 <= i < k ==> s[i] == SPACE
  {
    k := 0;
    if s != [] && s[0] == SPACE {
      var k0 := SkipExact(s[1..]);
      k := k0 + 1;
      assert forall i :: 0 < i < k ==> s[i] == s[1..][i - 1];
    }
  }

  /** After spaces only, a quote that is never closed. */
  ghost predicate OpenQuote(s: string, i: int)
  {
    0 <= i < |s| && s[i] == QUOTE && QUOTE !in s[i + 1..] && forall j :: 0 <= j < i ==> s[j] == SPACE
  }

  ghost predicate Blank(s: string)
  {
    forall i :: 0 <= i < |s| ==> s[i] == SPACE
  }

  /** A line has no arguments exactly when it is blank or starts with a quote that is never closed; it
      then asks for a background job. */
  lemma NoArguments(cmdline: string)
    requires cmdline != []
    ensures var front := cmdline[..|cmdline| - 1];
      Tokens(Line(cmdline)) == [] <==> Blank(front) || exists i :: OpenQuote(front, i)
    ensures Tokens(Line(cmdline)) == [] ==> Parsed(cmdline) == ([], true)
  {
    var front, s := cmdline[..|cmdline| - 1], Line(cmdline);
    var k := SkipExact(s);
    assert s == front + [SPACE] && s[|front|] == SPACE && forall i :: 0 <= i < |front| ==> s[i] == front[i];
    if k < |s| {
      assert s[k] != SPACE && k < |front|;
      if s[k] == QUOTE {
        UnclosedQuote(front, k);
        assert QUOTE !in front[k + 1..] ==> OpenQuote(front, k);
      } else {
        SpaceFound(s[k..]);
      }
    }
  }

  /** The token that starts with the quote at k ends at the next quote, if there is one. */
  lemma UnclosedQuote(front: string, k: nat)
    requires k < |front|
    ensures Find((front + [SPACE])[k..][1..], QUOTE) == |front| - k <==> QUOTE !in front[k + 1..]
  {
    var t := front[k + 1..] + [SPACE];
    assert (front + [SPACE])[k..][1..] == t;
    assert QUOTE in t <==> QUOTE in front[k + 1..];
    assert t[..|t|] == t;
  }

  lemma SpaceFound(t: string)
    requires t != [] && t[|t| - 1] == SPACE
    ensures Find(t, SPACE) < |t|
  {
    assert t[..|t|] == t;
  }

  // ----- cutting the line in place

  /** b holds the C string t at a. */
  ghost predicate StringAt(b: seq<char>, a: int, t: string)
  {
    0 <= a && a + |t| < |b| && b[a..a + |t|] == t && NUL !in t && b[a + |t|] == NUL
  }

  /** The C string at a. */
  function CString(b: seq<char>, a: int): string
    requires 0 <= a <= |b|
  {
    b[a..][..Find(b[a..], NUL)]
  }

  lemma StringAtIs(b: seq<char>, a: int, t: string)
    requires StringAt(b, a, t)
    ensures CString(b, a) == t
  {
    assert b[a..] == t + [NUL] + b[a + |t| + 1..];
    FindAfter(t, NUL, b[a + |t| + 1..]);
  }

  /** argv points to the C strings ts, all of them before limit. */
  ghost predicate Points(b: seq<char>, argv: seq<int>, ts: seq<string>, limit: int)
  {
    |ts| <= |argv| && forall i :: 0 <= i < |ts| ==> StringAt(b, argv[i], ts[i]) && argv[i] + |ts[i]| < limit
  }

  class Parser {
    const buf: array<char>

    constructor ()
      ensures buf.Length == MAXLINE && fresh(buf)
    {
      buf := new char[MAXLINE](_ => NUL);
    }

    /** strcpy into the local copy, with the trailing newline replaced by a space. */
    method CopyLine(cmdline: string)
      requires cmdline != [] && |cmdline| < buf.Length
      modifies buf
      ensures buf[..|cmdline|] == Line(cmdline) && buf[|cmdline|] == NUL
    {
      for i := 0 to |cmdline|
        invariant buf[..i] == cmdline[..i]
      {
        buf[i] := cmdline[i];
      }
      buf[|cmdline|] := NUL;
      buf[|cmdline| - 1] := SPACE;
    }

    /** strchr from p in a string that ends at n. */
    method StrChr(p: nat, c: char, ghost n: nat) returns (r: int)
      requires p <= n < buf.Length && NUL !in buf[p..n] && buf[n] == NUL && c != NUL
      ensures var k := Find(buf[p..n], c); r == if k < n - p then p + k else NULL
    {
      r := p;
      while buf[r] != NUL && buf[r] != c
        invariant p <= r <= n && c !in buf[p..r]
        decreases n - r
      {
        assert buf[p..r + 1] == buf[p..r] + [buf[r]];
        InPlain(buf[..], p, n, r);
        r := r + 1;
      }
      FindIs(buf[..], p, n, c, r);
      if buf[r] == NUL {
        r := NULL;
      }
    }

    /** Skip spaces, step over an opening quote, and look for what ends the argument. */
    method NextArgument(p: nat, ghost n: nat) returns (start: nat, delim: int)
      requires p <= n < buf.Length && NUL !in buf[p..n] && buf[n] == NUL
      ensures p <= start && (delim == NULL ==> Tokens(buf[p..n]) == [])
      ensures delim != NULL ==> p <= start <= delim < n
      ensures delim != NULL ==> Tokens(buf[p..n]) == [buf[start..delim]] + Tokens(buf[delim + 1..n])
    {
      hide Tokens, Find, Skip;
      start := p;
      while buf[start] != NUL && buf[start] == SPACE
        invariant p <= start <= n && Tokens(buf[p..n]) == Tokens(buf[start..n])
        decreases n - start
      {
        InPlain(buf[..], p, n, start);
        TokensAfterSpace(buf[start + 1..n]);
        assert buf[start..n] == [SPACE] + buf[start + 1..n];
        start := start + 1;
      }
      ArgumentAt(buf[..], start, n);
      if buf[start] == QUOTE {
        start := start + 1;
        delim := StrChr(start, QUOTE, n);
      } else {
        delim := StrChr(start, SPACE, n);
      }
    }

    /** The loop of parseline: argv points to the tokens, each cut off by a NUL. */
    method Cut(cmdline: string, argv: array<int>) returns (argc: nat)
      requires 0 < |cmdline| < buf.Length && NUL !in cmdline
      requires argv.Length == MAXARGS && |Tokens(Line(cmdline))| < MAXARGS
      modifies buf, argv
      ensures argc == |Tokens(Line(cmdline))| && Points(buf[..], argv[..], Tokens(Line(cmdline)), buf.Length)
    {
      hide Tokens, Find, Skip, Line, Points;
      ghost var n, ts := |cmdline|, Tokens(Line(cmdline));
      CopyLine(cmdline);
      LinePlain(cmdline);
      argc := 0;
      ghost var done: seq<string> := [];
      PointsNone(buf[..], argv[..]);
      var start, delim := NextArgument(0, n);
      while delim != NULL
        invariant 0 <= argc == |done| < MAXARGS && Points(buf[..], argv[..], done, start)
        invariant delim != NULL ==> 0 <= start <= delim < n && NUL !in buf[start..n] && buf[n] == NUL
        invariant delim != NULL ==> ts == done + ([buf[start..delim]] + Tokens(buf[delim + 1..n]))
        invariant delim == NULL ==> ts == done
        decreases if delim == NULL then 0 else n - delim
      {
        ghost var b, av, t, rest := buf[..], argv[..], buf[start..delim], Tokens(buf[delim + 1..n]);
        argv[argc] := start;
        argc := argc + 1;
        buf[delim] := NUL;
        PointsMore(b, buf[..], av, argv[..], done, start, delim, n);
        PlainAfter(b, buf[..], start, delim, n);
        assert done + ([t] + rest) == (done + [t]) + rest;
        done := done + [t];
        start, delim := NextArgument(delim + 1, n);
      }
      PointsWeaker(buf[..], argv[..], done, start);
    }

    /** parseline: argv[..argc] are the C strings of the arguments, argv[argc] is NULL. */
    method ParseLine(cmdline: string, argv: array<int>) returns (argc: nat, bg: bool)
      requires 0 < |cmdline| < buf.Length && NUL !in cmdline
      requires argv.Length == MAXARGS && |Tokens(Line(cmdline))| < MAXARGS
      modifies buf, argv
      ensures argc < MAXARGS && argc == |Parsed(cmdline).0| && argv[argc] == NULL && bg == Parsed(cmdline).1
      ensures forall i :: 0 <= i < argc ==> 0 <= argv[i] < buf.Length && CString(buf[..], argv[i]) == Parsed(cmdline).0[i]
    {
      hide Tokens, Find, Skip, Line, Points, CString;
      argc := Cut(cmdline, argv);
      PointsStrings(buf[..], argv[..], Tokens(Line(cmdline)), buf.Length);
      argv[argc] := NULL;
      if argc == 0 {
        return 0, true;
      }
      bg := buf[argv[argc - 1]] == '&';
      if bg {
        argc := argc - 1;
        argv[argc] := NULL;
      }
    }
  }

  lemma LinePlain(cmdline: string)
    requires cmdline != [] && NUL !in cmdline
    ensures NUL !in Line(cmdline)
  {
  }

  lemma PointsNone(b: seq<char>, argv: seq<int>)
    ensures forall limit :: Points(b, argv, [], limit)
  {
  }

  lemma PointsWeaker(b: seq<char>, argv: seq<int>, ts: seq<string>, limit: int)
    requires Points(b, argv, ts, limit)
    ensures Points(b, argv, ts, |b|)
  {
  }

  lemma PlainAfter(b: seq<char>, c: seq<char>, start: nat, delim: nat, n: nat)
    requires start <= delim < n < |b| && NUL !in b[start..n] && c == b[delim := NUL]
    ensures NUL !in c[delim + 1..n] && c[n] == b[n] && c[delim + 1..n] == b[delim + 1..n]
  {
    assert c[delim + 1..n] == b[delim + 1..n];
    Within(b, start, n, delim + 1 - start, n - start);
  }

  /** Cutting the line at delim makes what was between start and delim the next C string, and leaves
      the earlier ones alone. */
  lemma PointsMore(b: seq<char>, c: seq<char>, av: seq<int>, argv: seq<int>, done: seq<string>, start: nat, delim: nat, n: nat)
    requires start <= delim < n < |b| && NUL !in b[start..n] && c == b[delim := NUL]
    requires |done| < |av| && argv == av[|done| := start] && Points(b, av, done, start)
    ensures forall limit :: delim < limit ==> Points(c, argv, done + [b[start..delim]], limit)
  {
    hide StringAt;
    var ts := done + [b[start..delim]];
    forall i | 0 <= i < |ts|
      ensures StringAt(c, argv[i], ts[i]) && argv[i] + |ts[i]| < delim + 1
    {
      if i < |done| {
        StringKept(b, c, av[i], done[i], delim);
      } else {
        StringCut(b, c, start, delim, n);
      }
    }
  }

  lemma StringKept(b: seq<char>, c: seq<char>, a: int, t: string, delim: nat)
    requires StringAt(b, a, t) && a + |t| < delim < |b| && c == b[delim := NUL]
    ensures StringAt(c, a, t)
  {
    assert c[a..a + |t|] == b[a..a + |t|];
  }

  lemma StringCut(b: seq<char>, c: seq<char>, start: nat, delim: nat, n: nat)
    requires start <= delim < n < |b| && NUL !in b[start..n] && c == b[delim := NUL]
    ensures StringAt(c, start, b[start..delim])
  {
    assert c[start..delim] == b[start..delim];
    Within(b, start, n, 0, delim - start);
  }

  lemma PointsStrings(b: seq<char>, argv: seq<int>, ts: seq<string>, limit: int)
    requires Points(b, argv, ts, limit)
    ensures forall i :: 0 <= i < |ts| ==> 0 <= argv[i] < |b| && CString(b, argv[i]) == ts[i]
    ensures ts != [] ==> (b[argv[|ts| - 1]] == '&' <==> Ampersand(ts[|ts| - 1]))
  {
    forall i | 0 <= i < |ts|
      ensures 0 <= argv[i] < |b| && CString(b, argv[i]) == ts[i]
    {
      StringAtIs(b, argv[i], ts[i]);
    }
  }

  lemma Within(b: seq<char>, p: nat, n: nat, i: nat, j: nat)
    requires p <= n <= |b| && i <= j <= n - p
    ensures b[p..n][i..j] == b[p + i..p + j]
  {
    var x, y := b[p..n][i..j], b[p + i..p + j];
    assert forall k :: 0 <= k < j - i ==> x[k] == y[k];
  }

  /** Where the argument that begins at p ends. */
  lemma ArgumentAt(b: seq<char>, p: nat, n: nat)
    requires p <= n < |b| && b[p] != SPACE && b[n] == NUL
    ensures b[p] == QUOTE ==> p < n && var k := Find(b[p + 1..n], QUOTE);
      Tokens(b[p..n]) == if p + 1 + k == n then [] else [b[p + 1..p + 1 + k]] + Tokens(b[p + k + 2..n])
    ensures b[p] != QUOTE ==> var k := Find(b[p..n], SPACE);
      Tokens(b[p..n]) == if p + k == n then [] else [b[p..p + k]] + Tokens(b[p + k + 1..n])
  {
    hide Tokens, Find, Skip;
    var s := b[p..n];
    if b[p] == QUOTE {
      assert s[0] == QUOTE && s[1..] == b[p + 1..n];
      var k := Find(b[p + 1..n], QUOTE);
      TokensQuote(s, k);
      if p + 1 + k < n {
        Within(b, p, n, 1, 1 + k);
        Within(b, p, n, k + 2, n - p);
      }
    } else {
      var k := Find(s, SPACE);
      TokensSpace(s, k);
      if p + k < n {
        Within(b, p, n, 0, k);
        Within(b, p, n, k + 1, n - p);
      }
    }
  }

  lemma InPlain(b: seq<char>, p: nat, n: nat, r: nat)
    requires p <= r < |b| && r <= n < |b| && NUL !in b[p..n] && b[n] == NUL && b[r] != NUL
    ensures r < n
  {
  }

  /** The scan of strchr stops at the first c, or at the end. */
  lemma FindIs(b: seq<char>, p: nat, n: nat, c: char, r: nat)
    requires p <= r <= n < |b| && c !in b[p..r] && (b[r] == c || b[r] == NUL) && c != NUL
    requires NUL !in b[p..n] && b[n] == NUL
    ensures r < n <==> b[r] == c
    ensures Find(b[p..n], c) == r - p
  {
    if r < n {
      assert b[r] == b[p..n][r - p];
      assert b[p..n] == b[p..r] + [c] + b[r + 1..n];
      FindAfter(b[p..r], c, b[r + 1..n]);
    }
  }
}
