/** When the arguments behind the program name come back: what of a command line reaches
    the arguments, counted.
 */
module CommandCounts {
  import opened CommandLine

  predicate StartsBlank(s: string) { s == "" || Blank(s[0]) }

  // ----- no more than there is -----

  /** Characters that are neither quotes nor backslashes. */
  function Plain(s: string): nat {
    if s == "" then 0 else (if s[0] == '"' || s[0] == '\\' then 0 else 1) + Plain(s[1..])
  }

  /** The plain characters of the arguments, and one blank in front of each. */
  function PlainIn(args: seq<string>): nat {
    if args == [] then 0 else 1 + Plain(args[0]) + PlainIn(args[1..])
  }

  lemma {:induction false} PlainBoth(a: string, b: string)
    ensures Plain(a + b) == Plain(a) + Plain(b)
    decreases |a|
  {
    if a == "" {
      assert a + b == b;
    } else {
      PlainBoth(a[1..], b);
      assert (a + b)[1..] == a[1..] + b;
    }
  }

  lemma {:induction false} PlainSlashes(n: nat)
    ensures Plain(Slashes(n)) == 0
  {
    if n > 0 {
      PlainSlashes(n - 1);
      assert Slashes(n)[1..] == Slashes(n - 1);
    }
  }

  lemma PlainStep(n: nat, c: char, s: string)
    ensures Plain(Slashes(n) + [c] + s) == (if c == '"' || c == '\\' then 0 else 1) + Plain(s)
    ensures Plain([c] + s) == (if c == '"' || c == '\\' then 0 else 1) + Plain(s)
    ensures Plain(Slashes(n) + [c]) == if c == '"' || c == '\\' then 0 else 1
  {
    hide Slashes;
    PlainSlashes(n);
    PlainBoth(Slashes(n), [c]);
    PlainBoth(Slashes(n) + [c], s);
    assert ([c] + s)[1..] == s && [c][1..] == "";
  }

  lemma {:induction false} PlainScanned(n: nat, s: string, inQuotes: bool)
    ensures var p := ScanArg(n, s, inQuotes); Plain(p.arg) + Plain(p.rest) == Plain(s) && StartsBlank(p.rest)
    decreases |s|
  {
    hide Slashes;
    PlainSlashes(n);
    PlainSlashes(n / 2);
    if s == "" || (Blank(s[0]) && !inQuotes) {
    } else if s[0] == '\\' {
      PlainScanned(n + 1, s[1..], inQuotes);
    } else if s[0] != '"' {
      PlainScanned(0, s[1..], inQuotes);
      PlainStep(n, s[0], ScanArg(0, s[1..], inQuotes).arg);
    } else if n % 2 == 1 {
      PlainScanned(0, s[1..], inQuotes);
      PlainStep(n / 2, '"', ScanArg(0, s[1..], inQuotes).arg);
    } else if inQuotes && |s| > 1 && s[1] == '"' {
      PlainScanned(0, s[2..], inQuotes);
      PlainStep(n / 2, '"', ScanArg(0, s[2..], inQuotes).arg);
      assert s[1..][1..] == s[2..];
    } else {
      PlainScanned(0, s[1..], !inQuotes);
      PlainBoth(Slashes(n / 2), ScanArg(0, s[1..], !inQuotes).arg);
    }
  }

  lemma {:induction false} PlainSkipped(s: string)
    ensures Plain(SkipBlanks(s)) <= Plain(s)
    ensures s != "" && Blank(s[0]) ==> Plain(SkipBlanks(s)) < Plain(s)
  {
    if s != "" && Blank(s[0]) { PlainSkipped(s[1..]); }
  }

  lemma {:induction false} PlainSplit(s: string)
    requires StartsBlank(s)
    ensures PlainIn(SplitArgs(s)) <= Plain(s)
    decreases |s|
  {
    hide Plain, ScanArg;
    var t := SkipBlanks(s);
    PlainSkipped(s);
    if t != "" {
      var p := ScanArg(0, t, false);
      PlainScanned(0, t, false);
      PlainSplit(p.rest);
      assert ([p.arg] + SplitArgs(p.rest))[1..] == SplitArgs(p.rest);
    }
  }

  lemma {:induction false} PlainQuoteFrom(n: nat, s: string)
    ensures Plain(QuoteFrom(n, s)) == Plain(s)
    decreases |s|
  {
    hide Slashes;
    if s == "" {
      PlainStep(2 * n, '"', "");
      assert Slashes(2 * n) + "\"" + "" == Slashes(2 * n) + "\"";
    } else if s[0] == '\\' {
      PlainQuoteFrom(n + 1, s[1..]);
    } else {
      PlainQuoteFrom(0, s[1..]);
      PlainStep(if s[0] == '"' then 2 * n + 1 else n, s[0], QuoteFrom(0, s[1..]));
    }
  }

  lemma PlainQuoted(s: string)
    ensures Plain(Quoted(s)) == Plain(s)
  {
    hide QuoteFrom, Plain;
    PlainQuoteFrom(0, s);
    PlainStep(0, '"', QuoteFrom(0, s));
  }

  lemma {:induction false} PlainTail(args: seq<string>)
    ensures Plain(Tail(args)) == PlainIn(args)
    decreases |args|
  {
    hide Quoted, Plain;
    if args == [] {
      PlainNothing();
    } else {
      PlainTail(args[1..]);
      PlainQuoted(args[0]);
      PlainStep(0, ' ', Quoted(args[0]));
      PlainBoth(" " + Quoted(args[0]), Tail(args[1..]));
    }
  }

  lemma PlainNothing()
    ensures Plain("") == 0
  {
  }

  /** A shorter end of the arguments' text does not hold them. */
  lemma TooLittle(args: seq<string>, k: nat)
    requires 0 < k <= |Tail(args)| && StartsBlank(Tail(args)[k..])
    ensures SplitArgs(Tail(args)[k..]) != args
  {
    hide Plain, SplitArgs, Quoted, PlainIn;
    var t := Tail(args);
    assert t == t[..k] + t[k..];
    PlainBoth(t[..k], t[k..]);
    PlainSplit(t[k..]);
    PlainTail(args);
    assert t[..k] == [' '] + t[1..k];
    PlainStep(0, ' ', t[1..k]);
  }

  // ----- no less -----

  /** Characters that are not blanks. */
  function Dark(s: string): nat {
    if s == "" then 0 else (if Blank(s[0]) then 0 else 1) + Dark(s[1..])
  }

  function DarkIn(args: seq<string>): nat { if args == [] then 0 else Dark(args[0]) + DarkIn(args[1..]) }

  /** Those that a text, n backslashes in, puts into arguments wherever its groups are:
      all but quotes that group and the backslashes in front of quotes that are taken as
      escapes. */
  function Literal(n: nat, s: string): nat
    decreases |s|
  {
    if s == "" then n
    else if s[0] == '\\' then Literal(n + 1, s[1..])
    else if s[0] == '"' then n / 2 + n % 2 + Literal(0, s[1..])
    else n + (if Blank(s[0]) then 0 else 1) + Literal(0, s[1..])
  }

  lemma {:induction false} DarkBoth(a: string, b: string)
    ensures Dark(a + b) == Dark(a) + Dark(b)
    decreases |a|
  {
    if a == "" {
      assert a + b == b;
    } else {
      DarkBoth(a[1..], b);
      assert (a + b)[1..] == a[1..] + b;
    }
  }

  lemma {:induction false} DarkSlashes(n: nat)
    ensures Dark(Slashes(n)) == n
  {
    if n > 0 {
      DarkSlashes(n - 1);
      assert Slashes(n)[1..] == Slashes(n - 1);
    }
  }

  lemma DarkStep(n: nat, c: char, s: string)
    ensures Dark(Slashes(n) + [c] + s) == n + (if Blank(c) then 0 else 1) + Dark(s)
    ensures Dark([c] + s) == (if Blank(c) then 0 else 1) + Dark(s)
  {
    hide Slashes;
    DarkSlashes(n);
    DarkBoth(Slashes(n), [c]);
    DarkBoth(Slashes(n) + [c], s);
    assert ([c] + s)[1..] == s && [c][1..] == "";
  }

  lemma {:induction false} LiteralScanned(n: nat, s: string, inQuotes: bool)
    ensures var p := ScanArg(n, s, inQuotes); Dark(p.arg) + Literal(0, p.rest) >= Literal(n, s)
    decreases |s|
  {
    hide Slashes, Dark;
    DarkSlashes(n);
    DarkSlashes(n / 2);
    if s == "" || (Blank(s[0]) && !inQuotes) {
    } else if s[0] == '\\' {
      LiteralScanned(n + 1, s[1..], inQuotes);
    } else if s[0] != '"' {
      LiteralScanned(0, s[1..], inQuotes);
      DarkStep(n, s[0], ScanArg(0, s[1..], inQuotes).arg);
    } else if n % 2 == 1 {
      LiteralScanned(0, s[1..], inQuotes);
      DarkStep(n / 2, '"', ScanArg(0, s[1..], inQuotes).arg);
    } else if inQuotes && |s| > 1 && s[1] == '"' {
      LiteralScanned(0, s[2..], inQuotes);
      DarkStep(n / 2, '"', ScanArg(0, s[2..], inQuotes).arg);
      assert s[1..][1..] == s[2..];
    } else {
      LiteralScanned(0, s[1..], !inQuotes);
      DarkBoth(Slashes(n / 2), ScanArg(0, s[1..], !inQuotes).arg);
    }
  }

  lemma {:induction false} LiteralSkipped(s: string)
    ensures Literal(0, SkipBlanks(s)) == Literal(0, s)
  {
    if s != "" && Blank(s[0]) { LiteralSkipped(s[1..]); }
  }

  lemma {:induction false} LiteralSplit(s: string)
    ensures DarkIn(SplitArgs(s)) >= Literal(0, s)
    decreases |s|
  {
    hide Dark, ScanArg;
    var t := SkipBlanks(s);
    LiteralSkipped(s);
    if t != "" {
      var p := ScanArg(0, t, false);
      LiteralScanned(0, t, false);
      LiteralSplit(p.rest);
      assert ([p.arg] + SplitArgs(p.rest))[1..] == SplitArgs(p.rest);
    }
  }

  lemma {:induction false} LiteralBoth(n: nat, a: string, b: string)
    requires StartsBlank(b)
    ensures Literal(n, a + b) == Literal(n, a) + Literal(0, b)
    decreases |a|
  {
    if a == "" {
      assert a + b == b;
    } else {
      assert (a + b)[1..] == a[1..] + b;
      LiteralBoth(n + 1, a[1..], b);
      LiteralBoth(0, a[1..], b);
    }
  }

  lemma LiteralCases(n: nat, c: char, s: string)
    ensures Literal(n, "\\" + s) == Literal(n + 1, s)
    ensures Literal(n, "\"" + s) == n / 2 + n % 2 + Literal(0, s)
    ensures c != '\\' && c != '"' ==> Literal(n, [c] + s) == n + (if Blank(c) then 0 else 1) + Literal(0, s)
    ensures Literal(n, "") == n
  {
    assert ("\\" + s)[1..] == s && ("\"" + s)[1..] == s && ([c] + s)[1..] == s;
  }

  lemma {:induction false} LiteralSlashes(n: nat, k: nat, s: string)
    ensures Literal(n, Slashes(k) + s) == Literal(n + k, s)
    decreases k
  {
    hide Slashes, Literal;
    SlashesMore(0);
    if k == 0 {
      EmptyFront(s);
    } else {
      SlashesMore(k - 1);
      assert Slashes(k) + s == "\\" + (Slashes(k - 1) + s);
      LiteralCases(n, ' ', Slashes(k - 1) + s);
      LiteralSlashes(n + 1, k - 1, s);
    }
  }

  lemma LiteralStep(k: nat, c: char, s: string)
    requires c != '\\'
    ensures Literal(0, Slashes(k) + [c] + s)
         == if c == '"' then k / 2 + k % 2 + Literal(0, s) else k + (if Blank(c) then 0 else 1) + Literal(0, s)
  {
    hide *;
    Assoc(Slashes(k), [c], s);
    LiteralSlashes(0, k, [c] + s);
    LiteralCases(k, c, s);
  }

  lemma {:induction false} LiteralQuoteFrom(n: nat, s: string)
    ensures Literal(0, QuoteFrom(n, s)) == n + Dark(s)
    decreases |s|
  {
    hide *;
    if s == "" {
      QuoteCases(n, ' ', "");
      EmptyFront(Slashes(2 * n) + "\"");
      LiteralStep(2 * n, '"', "");
      LiteralCases(0, ' ', "");
      NothingDark();
    } else {
      var c, more := s[0], s[1..];
      assert s == [c] + more;
      QuoteCases(n, c, more);
      DarkStep(0, c, more);
      NoBlanks();
      if c == '\\' {
        LiteralQuoteFrom(n + 1, more);
      } else {
        LiteralQuoteFrom(0, more);
        LiteralStep(if c == '"' then 2 * n + 1 else n, c, QuoteFrom(0, more));
      }
    }
  }

  lemma NothingDark()
    ensures Dark("") == 0
  {
  }

  lemma NoBlanks()
    ensures !Blank('"') && !Blank('\\') && Blank(' ')
  {
  }

  lemma {:induction false} LiteralBare(n: nat, s: string)
    requires NoSpecial(s)
    ensures Literal(n, s) == n + Dark(s)
    decreases |s|
  {
    if s != "" {
      LiteralBare(n + 1, s[1..]);
      LiteralBare(0, s[1..]);
    }
  }

  lemma LiteralQuoted(s: string)
    ensures Literal(0, Quoted(s)) == Dark(s)
  {
    hide QuoteFrom, Dark, Literal;
    if Bare(s) {
      LiteralBare(0, s);
    } else {
      LiteralCases(0, ' ', QuoteFrom(0, s));
      LiteralQuoteFrom(0, s);
    }
  }

  lemma {:induction false} LiteralTail(args: seq<string>)
    ensures Literal(0, Tail(args)) == DarkIn(args)
    decreases |args|
  {
    hide *;
    TailIs(args);
    TailStartsBlank(args);
    LiteralCases(0, ' ', "");
    DarkInIs(args);
    if args != [] {
      var q, tail := Quoted(args[0]), Tail(args[1..]);
      TailStartsBlank(args[1..]);
      LiteralTail(args[1..]);
      LiteralQuoted(args[0]);
      Assoc(" ", q, tail);
      LiteralCases(0, ' ', q + tail);
      LiteralBoth(0, q, tail);
      NoBlanks();
    }
  }

  lemma TailIs(args: seq<string>)
    ensures Tail(args) == if args == [] then "" else " " + Quoted(args[0]) + Tail(args[1..])
  {
    hide Quoted;
  }

  lemma DarkInIs(args: seq<string>)
    ensures DarkIn(args) == if args == [] then 0 else Dark(args[0]) + DarkIn(args[1..])
  {
    hide Dark;
  }

  lemma TailStartsBlank(args: seq<string>)
    ensures StartsBlank(Tail(args)) && (args != [] ==> Tail(args) != "" && Tail(args)[0] == ' ')
  {
    hide Quoted;
  }

  // ----- a name that is left too early -----

  predicate BlanksAndQuotes(s: string) { forall i :: 0 <= i < |s| ==> Blank(s[i]) || s[i] == '"' }

  lemma {:induction false} NothingLiteral(n: nat, s: string)
    requires Literal(n, s) == 0
    ensures n == 0 && BlanksAndQuotes(s)
    decreases |s|
  {
    if s != "" {
      NothingLiteral(if s[0] == '\\' then n + 1 else 0, s[1..]);
      assert s == [s[0]] + s[1..];
    }
  }

  /** A quote inside has a backslash in front. */
  predicate Escaped(s: string) {
    && s != "" && s[|s| - 1] == '"'
    && forall i :: 0 <= i < |s| - 1 && s[i] == '"' ==> i > 0 && s[i - 1] == '\\'
  }

  lemma {:induction false} QuotesEscaped(n: nat, s: string)
    ensures Escaped(QuoteFrom(n, s))
    decreases |s|
  {
    hide QuoteFrom, Slashes;
    if s == "" {
      QuoteCases(n, ' ', "");
      EscapedEnd(2 * n);
    } else {
      var c, more := s[0], s[1..];
      assert s == [c] + more;
      QuoteCases(n, c, more);
      if c == '\\' {
        QuotesEscaped(n + 1, more);
      } else {
        QuotesEscaped(0, more);
        EscapedStep(if c == '"' then 2 * n + 1 else n, c, QuoteFrom(0, more));
      }
    }
  }

  lemma EscapedEnd(n: nat)
    ensures Escaped(Slashes(n) + "\"")
  {
  }

  lemma EscapedStep(k: nat, c: char, s: string)
    requires Escaped(s) && (c == '"' ==> k > 0)
    ensures Escaped(Slashes(k) + [c] + s)
  {
    var t := Slashes(k) + [c] + s;
    forall i | 0 <= i < |t| - 1 && t[i] == '"'
      ensures i > 0 && t[i - 1] == '\\'
    {
      if i > k { assert t[i] == s[i - k - 1]; }
    }
  }

  predicate Blanks(s: string) { forall i :: 0 <= i < |s| ==> Blank(s[i]) }

  lemma HasBlank(s: string, k: nat)
    requires k < |Quoted(s)| && Blank(Quoted(s)[k])
    ensures !Bare(s)
  {
    hide QuoteFrom;
  }

  /** What is left of a quoted name is blanks and its last quote, if none of it is literal. */
  lemma BlanksThenQuote(s: string, k: nat) returns (blanks: string)
    requires k < |Quoted(s)| && Blank(Quoted(s)[k]) && Literal(0, Quoted(s)[k..]) == 0
    ensures blanks != "" && Blanks(blanks) && Quoted(s)[k..] == blanks + "\""
  {
    hide QuoteFrom, Literal;
    var q := Quoted(s);
    var left := q[k..];
    NothingLiteral(0, left);
    assert left[0] == q[k];
    HasBlank(s, k);
    QuotesEscaped(0, s);
    blanks := left[..|left| - 1];
    assert q == "\"" + QuoteFrom(0, s) && k > 0;
    forall i | 0 <= i < |blanks|
      ensures Blank(blanks[i])
    {
      assert blanks[i] == left[i] == QuoteFrom(0, s)[k - 1 + i];
      assert i > 0 ==> left[i - 1] == QuoteFrom(0, s)[k - 1 + i - 1];
    }
    assert left[|left| - 1] == '"';
  }

  lemma {:induction false} SkipsAll(blanks: string, s: string)
    requires Blanks(blanks) && StartsBlank(s) == (s == "")
    ensures SkipBlanks(blanks + s) == s
  {
    if blanks == "" {
      assert blanks + s == s;
    } else {
      assert (blanks + s)[0] == blanks[0] && (blanks + s)[1..] == blanks[1..] + s;
      SkipsAll(blanks[1..], s);
    }
  }

  /** Behind an open quote the arguments do not come back: the first would have to be the
      blank in front of it, and then so on. */
  lemma {:induction false} OpenQuoteNever(blanks: string, args: seq<string>)
    requires Blanks(blanks)
    ensures SplitArgs(blanks + "\"" + Tail(args)) != args
    decreases |args|
  {
    hide *;
    var t := "\"" + Tail(args);
    Assoc(blanks, "\"", Tail(args));
    QuoteIsNotBlank(t);
    SkipsAll(blanks, t);
    SplitsOff(blanks + t, t);
    TailIs(args);
    TailStartsBlank(args);
    if args != [] {
      GroupOpens(Tail(args));
      assert Tail(args)[1..] == Quoted(args[0]) + Tail(args[1..]);
      var q, tail := Quoted(args[0]), Tail(args[1..]);
      Assoc(" ", q, tail);
      if ScanArg(0, t, false).arg == args[0] {
        BlankInFront(q + tail);
        BlankIsQuoted(args[0]);
        var more := QuoteFrom(0, args[0]) + tail;
        Assoc("\"", QuoteFrom(0, args[0]), tail);
        GroupCloses(more);
        BeforePiece(" ", "", more);
        EmptyFront(" ");
        assert args[0] == " ";
        JustABlank();
        OneBlank();
        OpenQuoteNever(" ", args[1..]);
      }
    }
  }

  lemma OneBlank()
    ensures Blanks(" ")
  {
  }

  lemma QuoteIsNotBlank(t: string)
    requires t != "" && t[0] == '"'
    ensures !StartsBlank(t)
  {
  }

  lemma SplitsOff(s: string, t: string)
    requires SkipBlanks(s) == t && t != ""
    ensures SplitArgs(s) == [ScanArg(0, t, false).arg] + SplitArgs(ScanArg(0, t, false).rest)
    ensures SplitArgs(s) != [] && SplitArgs(s)[0] == ScanArg(0, t, false).arg
    ensures SplitArgs(s)[1..] == SplitArgs(ScanArg(0, t, false).rest)
  {
    hide ScanArg;
  }

  lemma GroupOpens(tail: string)
    requires tail != "" && tail[0] == ' '
    ensures ScanArg(0, "\"" + tail, false) == Before(" ", ScanArg(0, tail[1..], true))
  {
    hide Slashes;
    SlashesMore(0);
    assert ("\"" + tail)[1..] == tail;
    EmptyFront(" ");
    var p := ScanArg(0, tail, true);
    assert p == Before(" ", ScanArg(0, tail[1..], true));
    EmptyFront(p.arg);
  }

  lemma BlankInFront(s: string)
    ensures Before(" ", ScanArg(0, s, true)).arg != "" && Before(" ", ScanArg(0, s, true)).arg[0] == ' '
  {
    hide ScanArg;
  }

  lemma BlankIsQuoted(s: string)
    requires s != "" && s[0] == ' '
    ensures Quoted(s) == "\"" + QuoteFrom(0, s)
    ensures QuoteFrom(0, s) != "" && QuoteFrom(0, s)[0] == ' '
  {
    assert Special(s[0]);
    SlashesMore(0);
    assert Slashes(0) + [' '] == " ";
  }

  lemma GroupCloses(more: string)
    requires more != "" && more[0] == ' '
    ensures ScanArg(0, "\"" + more, true) == Piece("", more)
  {
    hide Slashes;
    SlashesMore(0);
    var t := "\"" + more;
    assert t[1..] == more && t[1] == ' ';
    assert ScanArg(0, more, false) == Piece(Slashes(0), more);
    EmptyFront("");
  }

  lemma JustABlank()
    ensures QuoteFrom(0, " ") == " " + "\""
  {
    hide Slashes;
    SlashesMore(0);
    assert " "[1..] == "";
    assert QuoteFrom(0, "") == "\"";
    assert Slashes(0) + [' '] + "\"" == " \"";
  }

  // ----- the arguments behind the program name -----

  lemma {:induction false} RestIsSuffix(s: string, inQuotes: bool)
    ensures var r := ScanProgram(s, inQuotes).rest; r == s[|s| - |r|..] && StartsBlank(r)
    decreases |s|
  {
    if !(s == "" || (Blank(s[0]) && !inQuotes)) {
      RestIsSuffix(s[1..], if s[0] == '"' then !inQuotes else inQuotes);
    }
  }

  /** The splitting goes on right behind the quoted name exactly if the name closes. */
  lemma {:induction false} ScanOfOpen(q: string, tail: string, inQuotes: bool)
    requires !Closed(q, inQuotes) && tail != "" && Blank(tail[0])
    ensures |ScanProgram(q + tail, inQuotes).rest| != |tail|
    decreases |q|
  {
    if q == "" {
      assert q + tail == tail && tail[0] != '"';
    } else {
      assert (q + tail)[0] == q[0] && (q + tail)[1..] == q[1..] + tail;
      if !(Blank(q[0]) && !inQuotes) { ScanOfOpen(q[1..], tail, if q[0] == '"' then !inQuotes else inQuotes); }
    }
  }

  lemma TooMuch(s: string, k: nat, args: seq<string>)
    requires k < |Quoted(s)| && Blank(Quoted(s)[k])
    ensures SplitArgs(Quoted(s)[k..] + Tail(args)) != args
  {
    hide *;
    var left := Quoted(s)[k..];
    if SplitArgs(left + Tail(args)) == args {
      LiteralSplit(left + Tail(args));
      TailStartsBlank(args);
      LiteralBoth(0, left, Tail(args));
      LiteralTail(args);
      var blanks := BlanksThenQuote(s, k);
      OpenQuoteNever(blanks, args);
    }
  }

  /** The arguments are split off only from their own text. */
  lemma SplitOnlyTail(s: string, args: seq<string>)
    ensures var rest := ScanProgram(Quoted(s) + Tail(args), false).rest;
      SplitArgs(rest) == args <==> rest == Tail(args)
  {
    hide Quoted, Tail, ScanProgram, SplitArgs, Blank;
    var q, t := Quoted(s), Tail(args);
    var rest := ScanProgram(q + t, false).rest;
    RestIsSuffix(q + t, false);
    SplitOfTail(args);
    if |rest| < |t| {
      var k := |t| - |rest|;
      assert rest == t[k..];
      TooLittle(args, k);
    } else if |rest| > |t| {
      var k := |q| - (|rest| - |t|);
      assert rest == q[k..] + t && rest[0] == q[k];
      TooMuch(s, k, args);
    } else {
      assert rest == t;
    }
  }

  predicate ReadThrough(argv: seq<string>)
    requires argv != []
  {
    var q := Quoted(argv[0]);
    if |argv| == 1 then ScanProgram(q, false).rest == "" else Closed(q, false)
  }

  /** The child's arguments behind argv[0] are the caller's if and only if none of them
      holds a NUL and the quoted program name is read to its end: out of its quotes, or
      in them when nothing follows. */
  lemma ArgumentsComeBack(argv: seq<string>)
    requires argv != [] && Free(argv[0], '\0')
    ensures SplitLine(Line(argv))[1..] == argv[1..]
        <==> NoNul(argv[1..]) && ReadThrough(argv)
  {
    hide Quoted, Free, Tail, ScanProgram, Closed, Line, SplitArgs, UpToNul, NoNul;
    var line, q, t := UpToNul(Line(argv)), Quoted(argv[0]), Tail(argv[1..]);
    if NoNul(argv[1..]) {
      LineIsTail(argv);
      QuotedFree(argv[0]);
      TailFree(argv[1..]);
      BothFree(q, t, '\0');
      UpToNulWhole(Line(argv));
      SplitOnlyTail(argv[0], argv[1..]);
      TailStartsBlank(argv[1..]);
      EmptyFront(q);
      if |argv| > 1 { ReadToTheEnd(q, t); } else { TailIs([]); }
    } else {
      UpToNulFree(Line(argv));
      ProgramHasNoQuote(line, false);
      ArgsHaveNoNul(ScanProgram(line, false).rest);
    }
  }

  lemma ReadToTheEnd(q: string, t: string)
    requires t != "" && t[0] == ' '
    ensures ScanProgram(q + t, false).rest == t <==> Closed(q, false)
  {
    hide ScanProgram, Closed;
    if Closed(q, false) { ScanOfClosed(q, t, false); } else { ScanOfOpen(q, t, false); }
  }
}
