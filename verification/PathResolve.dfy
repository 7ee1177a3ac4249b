/** path.resolve: parts gathered from the right until one is absolute. */
module PathResolve {
  import opened PathNormal
  import opened PathLaws
  import opened PathJoin
  import opened PathSecond
  import opened PathFirst
  import opened PathJoinLaws

  predicate ResolvesAbsolute(pl: Platform, p: string) {
    if pl.Windows? then |p| >= 3 && p[1] == ':' && IsSep(p[2]) else p != "" && p[0] == '/'
  }

  /** The text js_resolve normalizes, when `resolved` has been gathered already. */
  function Gathered(pl: Platform, cwd: string, parts: seq<string>, resolved: string): string
    decreases |parts|
  {
    if parts == [] then cwd + [Sep(pl)] + resolved
    else
      var p, init := parts[|parts| - 1], parts[..|parts| - 1];
      if p == "" then Gathered(pl, cwd, init, resolved)
      else if ResolvesAbsolute(pl, p) then p + [Sep(pl)] + resolved
      else Gathered(pl, cwd, init, p + [Sep(pl)] + resolved)
  }

  function ResolvePaths(pl: Platform, cwd: string, parts: seq<string>): string {
    Normalize(pl, Gathered(pl, cwd, parts, ""))
  }

  /** js_resolve over its string arguments. */
  method Resolve(pl: Platform, cwd: string, parts: seq<string>) returns (out: string)
    ensures out == ResolvePaths(pl, cwd, parts)
  {
    var resolved, absolute, k := "", false, |parts|;
    assert parts[..k] == parts;
    while k > 0 && !absolute
      invariant 0 <= k <= |parts|
      invariant !absolute ==> Gathered(pl, cwd, parts, "") == Gathered(pl, cwd, parts[..k], resolved)
      invariant absolute ==> Gathered(pl, cwd, parts, "") == resolved
    {
      k := k - 1;
      var p := parts[k];
      assert parts[..k + 1][..k] == parts[..k] && parts[..k + 1][k] == p;
      if p == "" { continue; }
      resolved := p + [Sep(pl)] + resolved;
      absolute := ResolvesAbsolute(pl, p);
    }
    if !absolute { resolved := cwd + [Sep(pl)] + resolved; }
    out := NormalizeInto(pl, resolved);
  }

  lemma {:induction false} GatheredTail(pl: Platform, cwd: string, parts: seq<string>, resolved: string)
    ensures Gathered(pl, cwd, parts, resolved) == Gathered(pl, cwd, parts, "") + resolved
    ensures Gathered(pl, cwd, parts, "") != ""
    ensures var g := Gathered(pl, cwd, parts, ""); g[|g| - 1] == Sep(pl)
    decreases |parts|
  {
    if parts != [] {
      var p, init := parts[|parts| - 1], parts[..|parts| - 1];
      if p == "" {
        GatheredTail(pl, cwd, init, resolved);
      } else if !ResolvesAbsolute(pl, p) {
        GatheredTail(pl, cwd, init, p + [Sep(pl)] + resolved);
        GatheredTail(pl, cwd, init, p + [Sep(pl)] + "");
        assert p + [Sep(pl)] + "" + resolved == p + [Sep(pl)] + resolved;
      }
    }
  }

  /** A path with a separator after it is the path as it is seen in front of more. */
  lemma TrailingSep(pl: Platform, p: string)
    requires p != ""
    ensures Parse(pl, p + [Sep(pl)]) == Seen(pl, p)
  {
    hide Fold, Segs;
    SeenBehind(pl, p, "");
    assert p + [Sep(pl)] + "" == p + [Sep(pl)];
    FoldNothing(Seen(pl, p).absolute, Seen(pl, p).stack);
  }

  /** A part that makes a drive with the separator in front of it. */
  predicate MakesDrive(pl: Platform, g: string, p: string) { pl.Windows? && g == "\\" && p != "" && p[0] == ':' }

  /** Gathered text with one more part is that part applied to it. */
  lemma OnePartMore(pl: Platform, g: string, p: string)
    requires g != "" && g[|g| - 1] == Sep(pl) && p != "" && !MakesDrive(pl, g, p)
    ensures Normalize(pl, g + p + [Sep(pl)]) == Normalize(pl, g + [Sep(pl)] + p)
  {
    hide Fold, Segs, Render;
    TrailingSep(pl, g + p);
    SeenBehind(pl, g, p);
    var init := g[..|g| - 1];
    assert g == init + [Sep(pl)];
    if init != "" {
      TrailingSep(pl, init);
      SeenBehind(pl, init, p);
      assert g + p == init + [Sep(pl)] + p && !Bare(pl, g) && !Bare(pl, g + p);
    } else {
      assert g + p == [Sep(pl)] + p;
      RootThen(pl, p);
    }
  }

  lemma RootThen(pl: Platform, p: string)
    requires !HasDrive(pl, [Sep(pl)] + p)
    ensures Parse(pl, [Sep(pl)] + p) == Path("", true, Fold(true, [], Segs(p)))
    ensures Seen(pl, [Sep(pl)]) == Path("", true, [])
  {
    hide Fold, Segs;
    assert Body(pl, [Sep(pl)] + p) == p && Body(pl, [Sep(pl)]) == "";
    FoldNothing(true, []);
  }

  /** Applying a part to a normal form is joining in two steps. */
  lemma UnderNormal(pl: Platform, g: string, p: string)
    requires g != "" && p != ""
    ensures Normalize(pl, Normalize(pl, g) + [Sep(pl)] + p) == Normalize(pl, g + [Sep(pl)] + p) <==> Flattens(pl, g, p)
  {
    hide Normalize, Flattens;
    TextOfPair(pl, g, "");
    JoinOfThree(pl, g, "", p);
    JoinFlattens(pl, g, "", p);
    NormalNotEmpty(pl, g);
    TextOfPair(pl, Normalize(pl, g), p);
    TextOfPair(pl, g, p);
  }

  // ----- a part that makes a drive -----

  lemma DriveUnderRoot(p: string)
    requires MakesDrive(Windows, "\\", p)
    ensures Normalize(Windows, "\\" + p + "\\") == Normalize(Windows, "\\" + "\\" + p) <==> p != ":" && Stays(p[1..])
  {
    hide Fold, Segs, Clean, JoinSep, Climb, Lead, Leads, Merged, Stays;
    var c, t := "\\" + p, p[1..];
    assert c[..2] == "\\" + ":" && c[2..] == t && c == ['\\'] + p;
    TrailingSep(Windows, c);
    SeenClean(Windows, c);
    SeenBehind(Windows, "\\", p);
    RootThen(Windows, "");
    RootedStack(p);
    RelRooted('\\', p);
    var x, y := Path("", true, Tail(Rel(c))), Seen(Windows, c);
    ColonLeads();
    TextsMeet("\\", ":", x, y);
    if t != "" { DriveMerges(c); }
  }

  lemma ColonLeads()
    ensures Leads(":") && Lead("\\" + ":") == ":"
  {
  }

  lemma DriveMerges(c: string)
    requires |c| > 2 && c[..2] == "\\" + ":"
    ensures var y := Parse(Windows, c);
      (y.absolute ==> y.stack != []) && Tail(Rel(c)) == Merged(":", y.absolute, y.stack) <==> Stays(c[2..])
  {
    hide Fold, Segs, Clean, JoinSep, Climb, Lead, Leads, Merged, Climbs, Reduce, Tail, Rel;
    var t, y := c[2..], Parse(Windows, c);
    ColonLeads();
    DrivenNormal(c);
    if Rooted(t) {
      KindRooted(c);
      RootedStack(c[3..]);
      assert t[1..] == c[3..];
      ClimbsIs(t);
      RootedTail(":", Rel(t), Rel(c));
    } else {
      KindRelative(c);
      ClimbsIs(More(t));
      NothingBehindNothing(t);
      RelativeTail(":", First(t), Rel(More(t)), Rel(c), y.stack);
    }
  }

  lemma RootedTail(q: string, m: seq<string>, r: seq<string>)
    requires Leads(q) && Clean(false, m) && r == (if Climb(m) == 0 then [q] + m else m[1..])
    ensures Tail(r) == Merged(q, true, Tail(m)) <==> Climb(m) == 0
    ensures Climb(m) == 0 ==> Tail(m) == m
  {
    hide Clean, Leads, Climb;
    RootedMerge(q, m, r);
    if Climb(m) > 0 {
      ClimbTail(m);
    } else {
      LedIsName(q, "");
      assert q + "" == q;
      NameInFront(q, m);
    }
  }

  lemma RelativeTail(q: string, r0: string, m: seq<string>, r: seq<string>, stack: seq<string>)
    requires Leads(q) && NoSep(r0) && Clean(false, m) && Clean(false, stack) && (r0 == "" ==> m == [])
    requires r == (if Climb(m) == 0 then [q + r0] + m else m[1..])
    requires stack == Fold(false, Reduce(false, [], r0), m)
    ensures Tail(r) == Merged(q, false, stack) <==> r0 != "." && Climb(m) == 0
  {
    hide Clean, Leads, Fold, Reduce, Climb, Merged;
    RelativeMerge(q, r0, m, r, stack);
    if Climb(m) > 0 {
      ClimbTail(m);
      RelativePast(q, r0, m, stack);
    } else {
      LedIsName(q, r0);
      NameInFront(q + r0, m);
    }
  }

  /** The drive is climbed past: its text is in what is merged, and gone from the rest. */
  lemma RelativePast(q: string, r0: string, m: seq<string>, stack: seq<string>)
    requires Leads(q) && NoSep(r0) && Clean(false, m) && Climb(m) > 0 && r0 != ""
    requires stack == Fold(false, Reduce(false, [], r0), m)
    ensures Tail(m) != Merged(q, false, stack)
  {
    hide Clean, Leads, Fold, Reduce;
    if r0 == ".." {
      UpFold(m);
    } else if r0 == "." {
      DotFold(m);
    } else {
      NameAlone(r0);
      assert Name(r0);
      FoldBehindName(r0, m);
      ClimbTail(m);
      if stack != [] { Longer(q, stack[0]); }
    }
  }

  // ----- Windows: everything hangs under a drive's root -----

  predicate Anchored(x: string) { |x| >= 3 && x[1] == ':' && IsSep(x[2]) }

  function AnchoredPath(x: string): Path
    requires Anchored(x)
  {
    Path(x[..2], true, Fold(true, [], Segs(x[3..])))
  }

  lemma AnchoredParse(x: string)
    requires Anchored(x)
    ensures Parse(Windows, x) == AnchoredPath(x)
  {
    hide Fold, Segs;
  }

  lemma NormalIsAnchored(text: string)
    requires Anchored(text)
    ensures Anchored(Normalize(Windows, text)) && AnchoredPath(Normalize(Windows, text)) == AnchoredPath(text)
  {
    hide Fold, Segs, JoinSep;
    AnchoredParse(text);
    ParseClean(Windows, text);
    var out := Normalize(Windows, text);
    assert out == text[..2] + "\\" + JoinSep(Windows, AnchoredPath(text).stack);
    ParseOfRender(Windows, AnchoredPath(text));
    AnchoredParse(out);
  }

  lemma {:induction false} GatheredAnchored(cwd: string, parts: seq<string>, resolved: string)
    requires ResolvesAbsolute(Windows, cwd)
    ensures Anchored(Gathered(Windows, cwd, parts, resolved))
    decreases |parts|
  {
    if parts != [] {
      var p, init := parts[|parts| - 1], parts[..|parts| - 1];
      if p == "" { GatheredAnchored(cwd, init, resolved); }
      else if !ResolvesAbsolute(Windows, p) { GatheredAnchored(cwd, init, p + ['\\'] + resolved); }
    }
  }

  // ----- both platforms -----

  /** Going on from the gathered text g is going on from its normal form. */
  predicate GoesOn(pl: Platform, g: string, p: string) {
    if MakesDrive(pl, g, p) then p != ":" && Stays(p[1..]) else Flattens(pl, g, p)
  }

  lemma RelativePart(pl: Platform, cwd: string, parts: seq<string>, p: string)
    requires p != "" && !ResolvesAbsolute(pl, p)
    ensures ResolvePaths(pl, cwd, parts + [p]) == Normalize(pl, ResolvePaths(pl, cwd, parts) + [Sep(pl)] + p)
        <==> GoesOn(pl, Gathered(pl, cwd, parts, ""), p)
  {
    hide Normalize, Flattens, Stays;
    assert (parts + [p])[..|parts|] == parts;
    assert p + [Sep(pl)] + "" == p + [Sep(pl)];
    GatheredTail(pl, cwd, parts, p + [Sep(pl)]);
    var g := Gathered(pl, cwd, parts, "");
    assert g + (p + [Sep(pl)]) == g + p + [Sep(pl)];
    if MakesDrive(pl, g, p) {
      DriveUnderRoot(p);
      RootIsNormal();
    } else {
      OnePartMore(pl, g, p);
      UnderNormal(pl, g, p);
    }
  }

  lemma RootIsNormal()
    ensures Normalize(Windows, "\\") == "\\"
  {
    hide Segs, Fold;
    RootThen(Windows, "");
    assert "\\" + "" == "\\";
  }

  lemma AbsolutePart(pl: Platform, cwd: string, parts: seq<string>, p: string)
    requires ResolvesAbsolute(pl, p)
    ensures ResolvePaths(pl, cwd, parts + [p]) == Normalize(pl, p)
  {
    hide Parse, Render;
    assert (parts + [p])[|parts|] == p;
    assert p + [Sep(pl)] + "" == p + [Sep(pl)];
    TrailingSep(pl, p);
  }

  lemma EmptyPart(pl: Platform, cwd: string, parts: seq<string>)
    ensures ResolvePaths(pl, cwd, parts + [""]) == ResolvePaths(pl, cwd, parts)
  {
    assert (parts + [""])[..|parts|] == parts;
  }

  /** p starts at a root: on Windows one behind a drive. */
  predicate FromRoot(pl: Platform, p: string) {
    if pl.Windows? then |p| >= 3 && p[1] == ':' && (p[2] == '/' || p[2] == '\\') else p != "" && p[0] == '/'
  }

  lemma FromRootIs(pl: Platform, p: string)
    ensures FromRoot(pl, p) <==> ResolvesAbsolute(pl, p)
  {
  }

  /** Where p leads from r. */
  function Changed(pl: Platform, r: string, p: string): string {
    if p == "" then r
    else if FromRoot(pl, p) then Normalize(pl, p)
    else Normalize(pl, r + (if pl.Windows? then "\\" else "/") + p)
  }

  /** resolve is changing directory part by part, if and only if the part goes on from
      the text gathered before it. */
  lemma ResolveIsChangingDirectory(pl: Platform, cwd: string, parts: seq<string>, p: string)
    ensures ResolvePaths(pl, cwd, []) == Normalize(pl, cwd + (if pl.Windows? then "\\" else "/"))
    ensures ResolvePaths(pl, cwd, parts + [p]) == Changed(pl, ResolvePaths(pl, cwd, parts), p)
        <==> p == "" || FromRoot(pl, p) || GoesOn(pl, Gathered(pl, cwd, parts, ""), p)
  {
    hide Normalize, ResolvesAbsolute, FromRoot, GoesOn;
    assert cwd + [Sep(pl)] + "" == cwd + [Sep(pl)];
    FromRootIs(pl, p);
    if p == "" {
      EmptyPart(pl, cwd, parts);
    } else if ResolvesAbsolute(pl, p) {
      AbsolutePart(pl, cwd, parts, p);
    } else {
      RelativePart(pl, cwd, parts, p);
    }
  }

  /** It does on POSIX, and on Windows under a directory on a drive. */
  lemma ResolveUnderDirectory(pl: Platform, cwd: string, parts: seq<string>, p: string)
    requires pl.Windows? ==> FromRoot(pl, cwd)
    ensures ResolvePaths(pl, cwd, parts + [p]) == Changed(pl, ResolvePaths(pl, cwd, parts), p)
  {
    hide Parse, Render;
    var g := Gathered(pl, cwd, parts, "");
    ResolveIsChangingDirectory(pl, cwd, parts, p);
    GatheredTail(pl, cwd, parts, "");
    if pl.Windows? {
      GatheredAnchored(cwd, parts, "");
      NormalIsAnchored(g);
    }
  }

  /** Under an absolute directory the result is absolute and already normal. */
  lemma ResolveIsAbsoluteAndNormal(pl: Platform, cwd: string, parts: seq<string>)
    requires FromRoot(pl, cwd)
    ensures var r := ResolvePaths(pl, cwd, parts); FromRoot(pl, r) && Normalize(pl, r) == r
  {
    hide Fold, Segs, JoinSep;
    var g := Gathered(pl, cwd, parts, "");
    if pl.Windows? {
      GatheredAnchored(cwd, parts, "");
      NormalIsAnchored(g);
      AnchoredParse(g);
      AnchoredParse(Normalize(pl, g));
    } else {
      GatheredRooted(cwd, parts, "");
      NormalizeTwice(Posix, g);
      GatheredTail(Posix, cwd, parts, "");
      NormalIsNotEmpty(g);
    }
  }

  lemma {:induction false} GatheredRooted(cwd: string, parts: seq<string>, resolved: string)
    requires cwd != "" && cwd[0] == '/'
    ensures var g := Gathered(Posix, cwd, parts, resolved); g != "" && g[0] == '/'
    decreases |parts|
  {
    if parts != [] {
      var p, init := parts[|parts| - 1], parts[..|parts| - 1];
      if p == "" { GatheredRooted(cwd, init, resolved); }
      else if !ResolvesAbsolute(Posix, p) { GatheredRooted(cwd, init, p + ['/'] + resolved); }
    }
  }
}
