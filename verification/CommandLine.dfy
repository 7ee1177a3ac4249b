/** The Windows command line of a child started from an argv, and the C runtime that
    takes it apart again.
 */
module CommandLine {

  // ----- quoting -----

  function Slashes(n: nat): (r: string)
    ensures |r| == n
  {
    seq(n, _ => '\\')
  }

  predicate Special(c: char) { c == ' ' || c == '\t' || c == '\n' || c == '\U{0B}' || c == '"' }

  predicate Bare(s: string) { s != "" && forall i :: 0 <= i < |s| ==> !Special(s[i]) }

  /** What is still to be written, quote included, after n unwritten backslashes. */
  function QuoteFrom(n: nat, s: string): string
    decreases |s|
  {
    if s == "" then Slashes(2 * n) + "\""
    else if s[0] == '\\' then QuoteFrom(n + 1, s[1..])
    else if s[0] == '"' then Slashes(2 * n + 1) + "\"" + QuoteFrom(0, s[1..])
    else Slashes(n) + [s[0]] + QuoteFrom(0, s[1..])
  }

  function Quoted(s: string): string { if Bare(s) then s else "\"" + QuoteFrom(0, s) }

  /** quoteArg. */
  method QuoteArg(s: string) returns (out: string)
    ensures out == Quoted(s)
  {
    hide Slashes;
    var special := false;
    for i := 0 to |s|
      invariant special <==> exists k :: 0 <= k < i && Special(s[k])
    {
      special := special || Special(s[i]);
    }
    if s != "" && !special { return s; }
    out := "\"";
    var backslashes := 0;
    for i := 0 to |s|
      invariant out + QuoteFrom(backslashes, s[i..]) == "\"" + QuoteFrom(0, s)
    {
      var c := s[i];
      assert s[i..][0] == c && s[i..][1..] == s[i + 1..];
      if c == '\\' {
        backslashes := backslashes + 1;
        continue;
      }
      if c == '"' {
        out := out + Slashes(backslashes * 2 + 1) + "\"";
      } else {
        out := out + Slashes(backslashes) + [c];
      }
      backslashes := 0;
    }
    assert s[|s|..] == "";
    out := out + Slashes(backslashes * 2) + "\"";
  }

  function Line(argv: seq<string>): string
    requires argv != []
  {
    if |argv| == 1 then Quoted(argv[0])
    else Line(argv[..|argv| - 1]) + " " + Quoted(argv[|argv| - 1])
  }

  lemma QuotedIsNotEmpty(s: string)
    ensures Quoted(s) != ""
  {
  }

  /** runCommand's command line. */
  method BuildLine(argv: seq<string>) returns (cmdLine: string)
    requires argv != []
    ensures cmdLine == Line(argv)
  {
    hide Quoted;
    cmdLine := "";
    for k := 0 to |argv|
      invariant k == 0 ==> cmdLine == ""
      invariant k > 0 ==> cmdLine == Line(argv[..k]) && cmdLine != ""
    {
      assert argv[..k + 1][..k] == argv[..k] && argv[..k + 1][k] == argv[k];
      if cmdLine != "" { cmdLine := cmdLine + " "; }
      var q := QuoteArg(argv[k]);
      QuotedIsNotEmpty(argv[k]);
      cmdLine := cmdLine + q;
    }
    assert argv[..|argv|] == argv;
  }

  // ----- the C runtime's reading of a command line -----

  predicate Blank(c: char) { c == ' ' || c == '\t' }

  /** An argument and the text behind it. */
  datatype Piece = Piece(arg: string, rest: string)

  function Before(head: string, p: Piece): Piece { p.(arg := head + p.arg) }

  /** The program name: quotes group, backslashes are ordinary. */
  function ScanProgram(s: string, inQuotes: bool): (p: Piece)
    ensures |p.rest| <= |s|
    decreases |s|
  {
    if s == "" || (Blank(s[0]) && !inQuotes) then Piece("", s)
    else if s[0] == '"' then ScanProgram(s[1..], !inQuotes)
    else Before([s[0]], ScanProgram(s[1..], inQuotes))
  }

  /** Any other argument, n backslashes in: before a quote 2n of them are n and the
      quote groups, 2n + 1 are n and a plain quote; elsewhere they are themselves; and
      a doubled quote inside a group is a plain one. */
  function ScanArg(n: nat, s: string, inQuotes: bool): (p: Piece)
    ensures |p.rest| <= |s| && (s != "" && !Blank(s[0]) ==> |p.rest| < |s|)
    decreases |s|
  {
    if s == "" || (Blank(s[0]) && !inQuotes) then Piece(Slashes(n), s)
    else if s[0] == '\\' then ScanArg(n + 1, s[1..], inQuotes)
    else if s[0] != '"' then Before(Slashes(n) + [s[0]], ScanArg(0, s[1..], inQuotes))
    else if n % 2 == 1 then Before(Slashes(n / 2) + "\"", ScanArg(0, s[1..], inQuotes))
    else if inQuotes && |s| > 1 && s[1] == '"' then Before(Slashes(n / 2) + "\"", ScanArg(0, s[2..], inQuotes))
    else Before(Slashes(n / 2), ScanArg(0, s[1..], !inQuotes))
  }

  function SkipBlanks(s: string): (r: string)
    ensures |r| <= |s| && (r != "" ==> !Blank(r[0]))
  {
    if s != "" && Blank(s[0]) then SkipBlanks(s[1..]) else s
  }

  function SplitArgs(s: string): seq<string>
    decreases |s|
  {
    var t := SkipBlanks(s);
    if t == "" then []
    else
      var p := ScanArg(0, t, false);
      [p.arg] + SplitArgs(p.rest)
  }

  /** The line is handed over as a zero-terminated string. */
  function UpToNul(s: string): (r: string)
    ensures |r| <= |s|
  {
    if s == "" || s[0] == '\0' then "" else [s[0]] + UpToNul(s[1..])
  }

  function SplitLine(line: string): seq<string> {
    var p := ScanProgram(UpToNul(line), false);
    [p.arg] + SplitArgs(p.rest)
  }

  // ----- reading back what was written -----

  lemma SlashesMore(n: nat)
    ensures Slashes(n + 1) == Slashes(n) + "\\" == "\\" + Slashes(n)
    ensures Slashes(0) == ""
  {
  }

  lemma {:induction false} ScanSlashes(n: nat, k: nat, s: string, inQuotes: bool)
    ensures ScanArg(n, Slashes(k) + s, inQuotes) == ScanArg(n + k, s, inQuotes)
    decreases k
  {
    SlashesMore(0);
    if k == 0 {
      assert Slashes(0) + s == s;
    } else {
      SlashesMore(k - 1);
      var t := Slashes(k) + s;
      assert t[0] == '\\' && t[1..] == Slashes(k - 1) + s;
      ScanSlashes(n + 1, k - 1, s, inQuotes);
    }
  }

  predicate AtEnd(tail: string) { tail == "" || tail[0] == ' ' }

  lemma ScanClosing(n: nat, tail: string)
    requires AtEnd(tail)
    ensures ScanArg(2 * n, "\"" + tail, true) == Piece(Slashes(n), tail)
  {
    hide Slashes;
    var t := "\"" + tail;
    assert t[1..] == tail && t[0] == '"' && (|t| > 1 ==> t[1] == tail[0]);
    SlashesMore(0);
    assert Slashes(n) + "" == Slashes(n);
    assert ScanArg(0, tail, false) == Piece("", tail);
  }

  lemma ScanInnerQuote(n: nat, s: string)
    ensures ScanArg(2 * n + 1, "\"" + s, true) == Before(Slashes(n) + "\"", ScanArg(0, s, true))
  {
    hide Slashes;
    var t := "\"" + s;
    assert t[1..] == s && t[0] == '"';
  }

  lemma ScanOther(n: nat, c: char, s: string)
    requires c != '\\' && c != '"'
    ensures ScanArg(n, [c] + s, true) == Before(Slashes(n) + [c], ScanArg(0, s, true))
  {
    hide Slashes;
    var t := [c] + s;
    assert t[1..] == s && t[0] == c;
  }

  lemma BeforePiece(head: string, arg: string, tail: string)
    ensures Before(head, Piece(arg, tail)) == Piece(head + arg, tail)
  {
  }

  lemma Assoc(a: string, b: string, c: string)
    ensures a + b + c == a + (b + c)
  {
  }

  lemma QuoteCases(n: nat, c: char, more: string)
    ensures QuoteFrom(n, "") == Slashes(2 * n) + "\""
    ensures QuoteFrom(n, "\\" + more) == QuoteFrom(n + 1, more)
    ensures QuoteFrom(n, "\"" + more) == Slashes(2 * n + 1) + "\"" + QuoteFrom(0, more)
    ensures c != '\\' && c != '"' ==> QuoteFrom(n, [c] + more) == Slashes(n) + [c] + QuoteFrom(0, more)
  {
    assert ("\\" + more)[1..] == more && ("\"" + more)[1..] == more && ([c] + more)[1..] == more;
  }

  lemma EmptyFront(s: string)
    ensures Slashes(0) + s == s && "" + s == s && s + "" == s
  {
    SlashesMore(0);
  }

  lemma SlashIn(n: nat, more: string)
    ensures Slashes(n + 1) + more == Slashes(n) + ("\\" + more)
  {
    hide Slashes;
    SlashesMore(n);
    Assoc(Slashes(n), "\\", more);
  }

  /** The body of a quoted argument is read as the argument. */
  lemma {:induction false} ScanQuoted(n: nat, s: string, tail: string)
    requires AtEnd(tail)
    ensures ScanArg(0, QuoteFrom(n, s) + tail, true) == Piece(Slashes(n) + s, tail)
    decreases |s|
  {
    hide *;
    if s == "" {
      QuoteCases(n, ' ', "");
      EmptyFront(Slashes(n));
      Assoc(Slashes(2 * n), "\"", tail);
      ScanSlashes(0, 2 * n, "\"" + tail, true);
      ScanClosing(n, tail);
    } else {
      var c, more := s[0], s[1..];
      assert s == [c] + more;
      QuoteCases(n, c, more);
      if c == '\\' {
        ScanQuoted(n + 1, more, tail);
        SlashIn(n, more);
      } else {
        ScanQuoted(0, more, tail);
        EmptyFront(more);
        ScanQuotedStep(n, c, more, tail);
      }
    }
  }

  lemma ScanQuotedStep(n: nat, c: char, more: string, tail: string)
    requires c != '\\' && ScanArg(0, QuoteFrom(0, more) + tail, true) == Piece(more, tail)
    ensures ScanArg(0, QuoteFrom(n, [c] + more) + tail, true) == Piece(Slashes(n) + ([c] + more), tail)
  {
    hide *;
    var rest := QuoteFrom(0, more) + tail;
    QuoteCases(n, c, more);
    BeforePiece(Slashes(n) + [c], more, tail);
    Assoc(Slashes(n), [c], more);
    var k := if c == '"' then 2 * n + 1 else n;
    Assoc(Slashes(k) + [c], QuoteFrom(0, more), tail);
    Assoc(Slashes(k), [c], rest);
    ScanSlashes(0, k, [c] + rest, true);
    if c == '"' { ScanInnerQuote(n, rest); } else { ScanOther(n, c, rest); }
  }

  predicate NoSpecial(s: string) { forall i :: 0 <= i < |s| ==> !Special(s[i]) }

  lemma BareCases(n: nat, c: char, s: string)
    ensures ScanArg(n, "\\" + s, false) == ScanArg(n + 1, s, false)
    ensures c != '\\' && !Special(c) ==> ScanArg(n, [c] + s, false) == Before(Slashes(n) + [c], ScanArg(0, s, false))
    ensures AtEnd(s) ==> ScanArg(n, s, false) == Piece(Slashes(n), s)
  {
    hide Slashes;
    assert ("\\" + s)[1..] == s && ([c] + s)[1..] == s;
  }

  lemma {:induction false} ScanBare(n: nat, s: string, tail: string)
    requires NoSpecial(s) && AtEnd(tail)
    ensures ScanArg(n, s + tail, false) == Piece(Slashes(n) + s, tail)
    decreases |s|
  {
    hide Slashes, ScanArg, Before, Special;
    if s == "" {
      EmptyFront(tail);
      EmptyFront(Slashes(n));
      BareCases(n, ' ', tail);
    } else {
      var c, more := s[0], s[1..];
      assert s == [c] + more && !Special(c);
      Assoc([c], more, tail);
      BareCases(n, c, more + tail);
      if c == '\\' {
        ScanBare(n + 1, more, tail);
        SlashIn(n, more);
      } else {
        ScanBare(0, more, tail);
        EmptyFront(more);
        BeforePiece(Slashes(n) + [c], more, tail);
        Assoc(Slashes(n), [c], more);
      }
    }
  }

  /** One argument is read back, whatever is in it, up to the space behind it. */
  lemma ScanOfQuoted(s: string, tail: string)
    requires AtEnd(tail)
    ensures ScanArg(0, Quoted(s) + tail, false) == Piece(s, tail)
    ensures !Blank(Quoted(s)[0])
  {
    hide Slashes, QuoteFrom;
    SlashesMore(0);
    assert Slashes(0) + s == s;
    if Bare(s) {
      ScanBare(0, s, tail);
      assert !Special(s[0]);
    } else {
      var t := Quoted(s) + tail;
      assert t[0] == '"' && t[1..] == QuoteFrom(0, s) + tail;
      ScanQuoted(0, s, tail);
      BeforePiece("", s, tail);
      assert Slashes(0 / 2) == "" && "" + s == s;
    }
  }

  /** Each argument behind a space. */
  function Tail(args: seq<string>): string {
    if args == [] then "" else " " + Quoted(args[0]) + Tail(args[1..])
  }

  lemma {:induction false} LineIsTail(argv: seq<string>)
    requires argv != []
    ensures Line(argv) == Quoted(argv[0]) + Tail(argv[1..])
    decreases |argv|
  {
    hide Quoted;
    if |argv| > 1 {
      var init, last := argv[..|argv| - 1], argv[|argv| - 1];
      LineIsTail(init);
      TailMore(init[1..], last);
      assert argv[1..] == init[1..] + [last];
    }
  }

  lemma {:induction false} TailMore(args: seq<string>, last: string)
    ensures Tail(args + [last]) == Tail(args) + " " + Quoted(last)
    decreases |args|
  {
    hide Quoted;
    if args != [] {
      TailMore(args[1..], last);
      assert (args + [last])[1..] == args[1..] + [last];
    }
  }

  /** Splitting what follows the program name gives back the arguments. */
  lemma {:induction false} SplitOfTail(args: seq<string>)
    ensures SplitArgs(Tail(args)) == args
    decreases |args|
  {
    hide Quoted, ScanArg;
    if args != [] {
      var s := Tail(args);
      var t := Quoted(args[0]) + Tail(args[1..]);
      QuotedIsNotEmpty(args[0]);
      ScanOfQuoted(args[0], Tail(args[1..]));
      assert s[0] == ' ' && s[1..] == t && t[0] == Quoted(args[0])[0];
      assert SkipBlanks(t) == t && SkipBlanks(s) == t;
      SplitOfTail(args[1..]);
    }
  }

  // ----- the program name -----

  predicate Free(s: string, c: char) { forall i :: 0 <= i < |s| ==> s[i] != c }

  /** What the program name comes back as. */
  function Program(s: string): string
    requires Free(s, '"')
  {
    if Bare(s) then s else Doubled(s)
  }

  /** The backslashes at the end, twice. */
  function Doubled(s: string): string {
    if s != "" && s[|s| - 1] == '\\' then Doubled(s[..|s| - 1]) + "\\\\" else s
  }

  lemma {:induction false} QuoteFromPlain(n: nat, s: string)
    requires Free(s, '"')
    ensures QuoteFrom(n, s) == Doubled(Slashes(n) + s) + "\""
    decreases |s|
  {
    hide Slashes, QuoteFrom, Doubled;
    if s == "" {
      DoubledSlashes(n);
      QuoteCases(n, ' ', "");
      EmptyFront(Slashes(n));
    } else {
      var c, more := s[0], s[1..];
      assert s == [c] + more;
      QuoteCases(n, c, more);
      if c == '\\' {
        QuoteFromPlain(n + 1, more);
        SlashIn(n, more);
      } else {
        QuoteFromPlain(0, more);
        EmptyFront(more);
        var head := Slashes(n) + [c];
        DoubledBehind(head, more);
        Assoc(Slashes(n), [c], more);
        Assoc(head, Doubled(more), "\"");
      }
    }
  }

  lemma {:induction false} DoubledSlashes(n: nat)
    ensures Doubled(Slashes(n)) == Slashes(2 * n)
  {
    hide Slashes;
    if n == 0 {
      SlashesMore(0);
    } else {
      var less := Slashes(n - 1);
      DoubledSlashes(n - 1);
      SlashesMore(n - 1);
      SlashesMore(2 * (n - 1));
      SlashesMore(2 * (n - 1) + 1);
      assert Slashes(n) == less + "\\" && Slashes(n)[..|Slashes(n)| - 1] == less;
      Assoc(Slashes(2 * (n - 1)), "\\", "\\");
    }
  }

  lemma {:induction false} DoubledBehind(head: string, s: string)
    requires head != "" && head[|head| - 1] != '\\'
    ensures Doubled(head + s) == head + Doubled(s)
    decreases |s|
  {
    if s == "" {
      assert head + s == head;
    } else if s[|s| - 1] == '\\' {
      var init := s[..|s| - 1];
      DoubledBehind(head, init);
      assert (head + s)[..|head + s| - 1] == head + init;
    }
  }

  lemma {:induction false} ScanProgramPlain(s: string, tail: string, inQuotes: bool)
    requires Free(s, '"') && (inQuotes || NoSpecial(s))
    ensures ScanProgram(s + tail, inQuotes) == Before(s, ScanProgram(tail, inQuotes))
    decreases |s|
  {
    if s == "" {
      assert s + tail == tail;
    } else {
      assert (s + tail)[0] == s[0] && (s + tail)[1..] == s[1..] + tail && s == [s[0]] + s[1..];
      ScanProgramPlain(s[1..], tail, inQuotes);
    }
  }

  lemma {:induction false} DoubledFree(s: string)
    requires Free(s, '"')
    ensures Free(Doubled(s), '"')
  {
    if s != "" && s[|s| - 1] == '\\' { DoubledFree(s[..|s| - 1]); }
  }

  lemma ScanOfProgram(s: string, tail: string)
    requires Free(s, '"') && AtEnd(tail)
    ensures ScanProgram(Quoted(s) + tail, false) == Piece(Program(s), tail)
  {
    hide Slashes, QuoteFrom, Doubled, Special;
    assert ScanProgram(tail, false) == Piece("", tail);
    EmptyFront(s);
    if Bare(s) {
      ScanProgramPlain(s, tail, false);
    } else {
      QuoteFromPlain(0, s);
      DoubledFree(s);
      Assoc(Doubled(s), "\"", tail);
      Assoc("\"", QuoteFrom(0, s), tail);
      ScanGroup(Doubled(s), tail);
    }
  }

  lemma ScanGroup(d: string, tail: string)
    requires Free(d, '"') && AtEnd(tail)
    ensures ScanProgram("\"" + (d + ("\"" + tail)), false) == Piece(d, tail)
  {
    var behind := "\"" + tail;
    assert behind[1..] == tail && ("\"" + (d + behind))[1..] == d + behind;
    ScanProgramPlain(d, behind, true);
    assert ScanProgram(tail, false) == Piece("", tail);
    EmptyFront(d);
  }

  lemma {:induction false} DoubledIsLonger(s: string)
    ensures |Doubled(s)| >= |s|
    ensures Doubled(s) == s <==> s == "" || s[|s| - 1] != '\\'
  {
    if s != "" && s[|s| - 1] == '\\' { DoubledIsLonger(s[..|s| - 1]); }
  }

  // ----- the whole line -----

  predicate NoNul(argv: seq<string>) { forall k :: 0 <= k < |argv| ==> Free(argv[k], '\0') }

  lemma {:induction false} UpToNulWhole(s: string)
    requires Free(s, '\0')
    ensures UpToNul(s) == s
  {
    if s != "" { UpToNulWhole(s[1..]); }
  }

  lemma {:induction false} QuoteFromFree(n: nat, s: string)
    requires Free(s, '\0')
    ensures Free(QuoteFrom(n, s), '\0')
    decreases |s|
  {
    if s != "" {
      QuoteFromFree(n + 1, s[1..]);
      QuoteFromFree(0, s[1..]);
    }
  }

  lemma {:induction false} TailFree(args: seq<string>)
    requires NoNul(args)
    ensures Free(Tail(args), '\0')
    decreases |args|
  {
    if args != [] {
      assert Free(args[0], '\0');
      QuotedFree(args[0]);
      TailFree(args[1..]);
    }
  }

  lemma QuotedFree(s: string)
    requires Free(s, '\0')
    ensures Free(Quoted(s), '\0')
  {
    QuoteFromFree(0, s);
  }

  lemma SplitOfLine(argv: seq<string>)
    requires argv != [] && Free(argv[0], '"') && NoNul(argv)
    ensures SplitLine(Line(argv)) == [Program(argv[0])] + argv[1..]
  {
    hide Quoted, Free, Tail, ScanProgram;
    LineIsTail(argv);
    QuotedFree(argv[0]);
    TailFree(argv[1..]);
    BothFree(Quoted(argv[0]), Tail(argv[1..]), '\0');
    UpToNulWhole(Line(argv));
    TailEnds(argv[1..]);
    ScanOfProgram(argv[0], Tail(argv[1..]));
    SplitOfTail(argv[1..]);
  }

  lemma BothFree(a: string, b: string, c: char)
    requires Free(a, c) && Free(b, c)
    ensures Free(a + b, c)
  {
  }

  lemma TailEnds(args: seq<string>)
    ensures AtEnd(Tail(args))
  {
  }

  /** Read as a program name, q ends outside quotes with no blank met there. */
  predicate Closed(q: string, inQuotes: bool) {
    if q == "" then !inQuotes
    else if Blank(q[0]) && !inQuotes then false
    else Closed(q[1..], if q[0] == '"' then !inQuotes else inQuotes)
  }

  lemma {:induction false} ScanOfClosed(q: string, tail: string, inQuotes: bool)
    requires Closed(q, inQuotes) && AtEnd(tail)
    ensures ScanProgram(q + tail, inQuotes).rest == tail
    decreases |q|
  {
    if q == "" {
      assert q + tail == tail;
    } else {
      assert (q + tail)[0] == q[0] && (q + tail)[1..] == q[1..] + tail;
      ScanOfClosed(q[1..], tail, if q[0] == '"' then !inQuotes else inQuotes);
    }
  }

  lemma {:induction false} ClosedBehind(s: string, tail: string, inQuotes: bool)
    requires Free(s, '"') && (inQuotes || NoSpecial(s))
    ensures Closed(s + tail, inQuotes) == Closed(tail, inQuotes)
    decreases |s|
  {
    if s == "" {
      assert s + tail == tail;
    } else {
      assert (s + tail)[0] == s[0] && (s + tail)[1..] == s[1..] + tail;
      ClosedBehind(s[1..], tail, inQuotes);
    }
  }

  /** Every program name without a quote is closed once it is quoted. */
  lemma PlainNamesClose(s: string)
    requires Free(s, '"')
    ensures Closed(Quoted(s), false)
  {
    hide Slashes, QuoteFrom, Doubled, Special;
    EmptyFront(s);
    if Bare(s) {
      ClosedBehind(s, "", false);
    } else {
      QuoteFromPlain(0, s);
      DoubledFree(s);
      ClosedBehind(Doubled(s), "\"", true);
      var q := "\"" + (Doubled(s) + "\"");
      assert q[0] == '"' && q[1..] == Doubled(s) + "\"" && "\""[1..] == "";
    }
  }

  /** A name that is not closed: what is behind its inner quote becomes an argument. */
  lemma OpenNameSpills()
    ensures Line(["a\" b"]) == "\"a\\\" b\""
    ensures SplitLine("\"a\\\" b\"") == ["a\\", "b"]
  {
    hide *;
    OpenNameLine();
    OpenNameSplit();
  }

  lemma OpenNameLine()
    ensures Line(["a\" b"]) == "\"a\\\" b\""
  {
    hide Slashes, QuoteFrom;
    var s := "a\" b";
    assert !Bare(s) by { assert Special(s[1]); }
    QuoteCases(0, 'a', "\" b");
    QuoteCases(0, ' ', " b");
    QuoteCases(0, ' ', "b");
    QuoteCases(0, 'b', "");
    SlashesMore(0);
    assert s == ['a'] + "\" b" && "\" b" == "\"" + " b" && " b" == [' '] + "b" && "b" == ['b'] + "";
    assert Slashes(1) == "\\";
  }

  lemma OpenNameSplit()
    ensures SplitLine("\"a\\\" b\"") == ["a\\", "b"]
  {
    hide ScanArg, SplitArgs, UpToNul, ScanProgram;
    var line := "\"a\\\" b\"";
    UpToNulWhole(line);
    OpenNameProgram();
    OpenNameRest();
  }

  lemma OpenNameProgram()
    ensures ScanProgram("\"a\\\" b\"", false) == Piece("a\\", " b\"")
  {
    var line := "\"a\\\" b\"";
    var inner := "a\\";
    assert line[1..] == inner + "\" b\"";
    ScanProgramPlain(inner, "\" b\"", true);
    assert "\" b\""[1..] == " b\"";
    assert ScanProgram(" b\"", false) == Piece("", " b\"");
  }

  lemma OpenNameRest()
    ensures SplitArgs(" b\"") == ["b"]
  {
    hide Slashes;
    SlashesMore(0);
    var t := "b\"";
    assert " b\""[1..] == t && SkipBlanks(t) == t && SkipBlanks(" b\"") == t;
    assert t[1..] == "\"" && "\""[1..] == "";
    assert ScanArg(0, "", true) == Piece("", "");
    assert ScanArg(0, "\"", false) == Piece("", "");
    assert ScanArg(0, t, false) == Piece("b", "");
    assert SplitArgs("") == [];
  }

  // ----- what is quoted -----

  lemma {:induction false} QuoteFromIsLonger(n: nat, s: string)
    ensures |QuoteFrom(n, s)| > n + |s| && QuoteFrom(n, s)[|QuoteFrom(n, s)| - 1] == '"'
    decreases |s|
  {
    hide Slashes;
    if s != "" { QuoteFromIsLonger(if s[0] == '\\' then n + 1 else 0, s[1..]); }
  }

  /** An argument is left as it is if and only if it is not empty and holds no space, tab,
      line feed, vertical tab or quote; otherwise it is put between quotes. */
  lemma QuotedWhen(s: string)
    ensures Quoted(s) == s <==> s != "" && ' ' !in s && '\t' !in s && '\n' !in s && '\U{0B}' !in s && '"' !in s
    ensures Quoted(s) != s ==> |Quoted(s)| > 1 && Quoted(s)[0] == '"' && Quoted(s)[|Quoted(s)| - 1] == '"'
  {
    hide QuoteFrom;
    QuoteFromIsLonger(0, s);
  }

  /** The command line of two argument lists is theirs with one space between. */
  lemma {:induction false} LineOfBoth(a: seq<string>, b: seq<string>)
    requires a != [] && b != []
    ensures Line(a + b) == Line(a) + " " + Line(b) && Line([a[0]]) == Quoted(a[0])
    decreases |b|
  {
    hide Quoted;
    var init, last := b[..|b| - 1], b[|b| - 1];
    assert b == init + [last] && (a + b)[..|a + b| - 1] == a + init;
    if init == [] {
      assert a + init == a;
    } else {
      LineOfBoth(a, init);
      assert Line(a) + " " + Line(init) + " " + Quoted(last) == Line(a) + " " + (Line(init) + " " + Quoted(last));
    }
  }

  // ----- nothing else can come back -----

  lemma {:induction false} ProgramHasNoQuote(s: string, inQuotes: bool)
    requires Free(s, '\0')
    ensures Free(ScanProgram(s, inQuotes).arg, '"') && Free(ScanProgram(s, inQuotes).arg, '\0')
    ensures Free(ScanProgram(s, inQuotes).rest, '\0')
    decreases |s|
  {
    if s != "" {
      ProgramHasNoQuote(s[1..], inQuotes);
      ProgramHasNoQuote(s[1..], !inQuotes);
    }
  }

  lemma {:induction false} ArgHasNoNul(n: nat, s: string, inQuotes: bool)
    requires Free(s, '\0')
    ensures Free(ScanArg(n, s, inQuotes).arg, '\0') && Free(ScanArg(n, s, inQuotes).rest, '\0')
    decreases |s|
  {
    hide Slashes;
    SlashesFree(n);
    SlashesFree(n / 2);
    if s != "" {
      ArgHasNoNul(n + 1, s[1..], inQuotes);
      ArgHasNoNul(0, s[1..], inQuotes);
      ArgHasNoNul(0, s[1..], !inQuotes);
      if |s| > 1 { ArgHasNoNul(0, s[2..], inQuotes); }
    }
  }

  lemma SlashesFree(n: nat)
    ensures Free(Slashes(n), '\0')
  {
  }

  lemma {:induction false} ArgsHaveNoNul(s: string)
    requires Free(s, '\0')
    ensures NoNul(SplitArgs(s))
    decreases |s|
  {
    hide ScanArg, Free;
    SkipFree(s);
    var t := SkipBlanks(s);
    if t != "" {
      var p := ScanArg(0, t, false);
      ArgHasNoNul(0, t, false);
      ArgsHaveNoNul(p.rest);
    }
  }

  lemma {:induction false} SkipFree(s: string)
    requires Free(s, '\0')
    ensures Free(SkipBlanks(s), '\0')
  {
    if s != "" && Blank(s[0]) { SkipFree(s[1..]); }
  }

  lemma {:induction false} UpToNulFree(s: string)
    ensures Free(UpToNul(s), '\0')
  {
    if s != "" && s[0] != '\0' { UpToNulFree(s[1..]); }
  }

  /** The whole argv comes back, program name included, exactly when nothing holds a
      NUL, the program name holds no quote, and it does not end in a backslash if it
      had to be quoted. */
  lemma ArgvComesBack(argv: seq<string>)
    requires argv != []
    ensures SplitLine(Line(argv)) == argv
        <==> NoNul(argv) && Free(argv[0], '"') && (Bare(argv[0]) || argv[0] == "" || argv[0][|argv[0]| - 1] != '\\')
  {
    hide Free, Bare, ScanProgram, SplitArgs, Line;
    var line := UpToNul(Line(argv));
    if NoNul(argv) && Free(argv[0], '"') {
      SplitOfLine(argv);
      DoubledIsLonger(argv[0]);
      assert [argv[0]] + argv[1..] == argv;
      assert ([Program(argv[0])] + argv[1..])[0] == Program(argv[0]);
    } else {
      UpToNulFree(Line(argv));
      ProgramHasNoQuote(line, false);
      ArgsHaveNoNul(ScanProgram(line, false).rest);
    }
  }
}
