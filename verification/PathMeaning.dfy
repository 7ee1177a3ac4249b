/** What normalizing and joining paths mean, told by the text: which texts are the same path,
    which are normal already, and how Windows differs from POSIX.
 */
module PathMeaning {
  import opened PathNormal
  import opened PathLaws
  import opened PathJoin

  // ----- Windows and POSIX -----

  /** s with its slashes turned into backslashes. */
  function Backslashed(s: string): (r: string)
    ensures |r| == |s|
  {
    seq(|s|, i requires 0 <= i < |s| => if s[i] == '/' then '\\' else s[i])
  }

  /** s with its backslashes turned into slashes. */
  function Slashed(s: string): (r: string)
    ensures |r| == |s|
  {
    seq(|s|, i requires 0 <= i < |s| => if s[i] == '\\' then '/' else s[i])
  }

  lemma BackslashedBoth(a: string, b: string)
    ensures Backslashed(a + b) == Backslashed(a) + Backslashed(b)
  {
  }

  lemma BackslashedName(s: string)
    requires NoSep(s)
    ensures Backslashed(s) == s
  {
  }

  lemma {:induction false} JoinBackslashed(segs: seq<string>)
    requires AllNoSep(segs)
    ensures JoinSep(Windows, segs) == Backslashed(JoinSep(Posix, segs))
  {
    hide JoinSep, Backslashed;
    if segs == [] {
      NothingJoined();
    } else {
      var init, last := segs[..|segs| - 1], segs[|segs| - 1];
      assert segs == init + [last];
      BackslashedName(last);
      if init == [] {
        assert segs == [last];
        JoinOne(Windows, last);
        JoinOne(Posix, last);
      } else {
        JoinBackslashed(init);
        JoinMore(Windows, init, last);
        JoinMore(Posix, init, last);
        BackslashedBoth(JoinSep(Posix, init) + "/", last);
        BackslashedBoth(JoinSep(Posix, init), "/");
        OneSlash();
      }
    }
  }

  lemma NothingJoined()
    ensures JoinSep(Windows, []) == JoinSep(Posix, []) == "" == Backslashed("")
  {
  }

  lemma OneSlash()
    ensures Backslashed("/") == "\\" && Backslashed(".") == "." && Backslashed("") == ""
    ensures Sep(Windows) == '\\' && Sep(Posix) == '/'
  {
  }

  lemma ParseBehindDrive(p: string)
    ensures var n := if |p| >= 2 && p[1] == ':' then 2 else 0;
            var w, q := Parse(Windows, p), Parse(Posix, p[n..]);
      w.drive == p[..n] && q.drive == "" && w.absolute == q.absolute && w.stack == q.stack
  {
    hide Segs, Fold;
    var n := if |p| >= 2 && p[1] == ':' then 2 else 0;
    assert Body(Windows, p) == Body(Posix, p[n..]);
  }

  /** On Windows two characters that end in a colon stay in front; the rest, or all of a
      path without them, is normalized as on POSIX and written with backslashes. */
  lemma WindowsIsPosix(p: string)
    ensures var n := if |p| >= 2 && p[1] == ':' then 2 else 0;
            var posix := Normalize(Posix, p[n..]);
      Normalize(Windows, p) == p[..n] + if n == 2 && posix == "." then "" else Backslashed(posix)
  {
    hide Segs, Fold, JoinSep, Parse, Backslashed;
    var n := if |p| >= 2 && p[1] == ':' then 2 else 0;
    var q := Parse(Posix, p[n..]);
    ParseBehindDrive(p);
    ParsedClean(p[n..]);
    JoinBackslashed(q.stack);
    OneSlash();
    var js := JoinSep(Posix, q.stack);
    NotDot(Posix, q.absolute, q.stack);
    BackslashedBoth("/", js);
    assert p[..n] + "\\" + Backslashed(js) == p[..n] + ("\\" + Backslashed(js));
    assert p[..n] + "" + Backslashed(js) == p[..n] + Backslashed(js) && "" + "" + js == js && "" + "/" + js == "/" + js;
    if js == "" && !q.absolute {
      assert Render(Posix, q) == ".";
      assert p[..n] + "" == p[..n];
      assert p[..0] == "" && "" + "." == ".";
    } else {
      RenderIs(q, js);
    }
  }

  lemma ParsedClean(p: string)
    ensures var q := Parse(Posix, p); Clean(q.absolute, q.stack) && AllNoSep(q.stack)
  {
    hide Segs, Fold, Clean;
    ParseClean(Posix, p);
    CleanNoSep(Parse(Posix, p).absolute, Parse(Posix, p).stack);
  }

  lemma RenderIs(q: Path, js: string)
    requires q.drive == "" && js == JoinSep(Posix, q.stack) && (q.absolute || js != "") && js != "."
    ensures Render(Posix, q) == (if q.absolute then "/" else "") + js && Render(Posix, q) != "."
  {
    hide JoinSep;
    assert "" + "/" == "/" && "" + "" == "" && "" + js == js && ("/" + js)[0] == '/';
  }

  lemma {:induction false} SegsSlashed(s: string)
    ensures Segs(Slashed(s)) == Segs(s)
    decreases |s|
  {
    hide Segs;
    var k, t := FirstSep(s), Slashed(s);
    assert t[..k] == s[..k] && s[..|s|] == s && t[..|t|] == t;
    FirstSepIs(t, k);
    SegsOnce(s);
    SegsOnce(t);
    if k < |s| {
      SegsSlashed(s[k + 1..]);
      assert t[k + 1..] == Slashed(s[k + 1..]);
    }
  }

  /** A backslash separates on POSIX as a slash does. */
  lemma EitherSlash(p: string)
    ensures Normalize(Posix, p) == Normalize(Posix, Slashed(p))
  {
    hide Segs, Fold;
    var q := Slashed(p);
    var n := if Absolute(Posix, p) then 1 else 0;
    assert p != "" ==> q[0] == if p[0] == '\\' then '/' else p[0];
    assert Body(Posix, p) == p[n..] && Body(Posix, q) == q[n..] == Slashed(p[n..]);
    SegsSlashed(p[n..]);
  }

  // ----- texts of one path -----

  lemma FirstSegment(x: string, b: string)
    requires NoSep(x)
    ensures Segs(x + "/" + b) == [x] + Segs(b)
  {
    hide Segs;
    SegsConcat(x, '/', b);
    OneSeg(x);
  }

  lemma FoldFirst(absolute: bool, stack: seq<string>, x: string, rest: seq<string>)
    ensures Fold(absolute, stack, [x] + rest) == Fold(absolute, Reduce(absolute, stack, x), rest)
  {
    hide Reduce;
    assert ([x] + rest)[1..] == rest;
  }

  /** Two texts behind a that make the same of its stack. */
  lemma SameBehind(a: string, b: string, c: string)
    requires a != ""
    requires Fold(Parse(Posix, a).absolute, Parse(Posix, a).stack, Segs(b))
          == Fold(Parse(Posix, a).absolute, Parse(Posix, a).stack, Segs(c))
    ensures Normalize(Posix, a + "/" + b) == Normalize(Posix, a + "/" + c)
  {
    hide Segs, Fold, Parse;
    SeenBehind(Posix, a, b);
    SeenBehind(Posix, a, c);
    OneSlash();
  }

  /** A slash more, a dot, a name with ".." behind it, and a slash at the end are no matter. */
  lemma SamePath(a: string, x: string, b: string)
    requires a != "" && x != "" && x != "." && x != ".." && '/' !in x && '\\' !in x
    ensures Normalize(Posix, a + "/" + ("/" + b)) == Normalize(Posix, a + "/" + b)
    ensures Normalize(Posix, a + "/" + ("./" + b)) == Normalize(Posix, a + "/" + b)
    ensures Normalize(Posix, a + "/" + (x + "/" + ("../" + b))) == Normalize(Posix, a + "/" + b)
    ensures Normalize(Posix, a + "/") == Normalize(Posix, a)
  {
    hide Segs, Fold, Normalize, Parse;
    var path := Parse(Posix, a);
    FirstSegment("", b);
    FirstSegment(".", b);
    FirstSegment(x, "../" + b);
    FirstSegment("..", b);
    assert "" + "/" + b == "/" + b && "." + "/" + b == "./" + b && ".." + "/" + b == "../" + b;
    FoldFirst(path.absolute, path.stack, "", Segs(b));
    FoldFirst(path.absolute, path.stack, ".", Segs(b));
    FoldFirst(path.absolute, path.stack, x, [".."] + Segs(b));
    FoldFirst(path.absolute, path.stack + [x], "..", Segs(b));
    assert (path.stack + [x])[..|path.stack|] == path.stack;
    SameBehind(a, "/" + b, b);
    SameBehind(a, "./" + b, b);
    SameBehind(a, x + "/" + ("../" + b), b);
    SlashBehind(a);
  }

  lemma SlashBehind(a: string)
    requires a != ""
    ensures Normalize(Posix, a + "/") == Normalize(Posix, a)
  {
    hide Segs, Fold, Parse;
    SeenBehind(Posix, a, "");
    OneSlash();
    assert a + "/" + "" == a + "/";
    FoldNothing(Parse(Posix, a).absolute, Parse(Posix, a).stack);
  }

  lemma ParsePlain(p: string)
    ensures p == "" || (p[0] != '/' && p[0] != '\\') ==> Parse(Posix, p) == Path("", false, Fold(false, [], Segs(p)))
    ensures Parse(Posix, "/" + p) == Path("", true, Fold(true, [], Segs(p)))
  {
    hide Segs, Fold;
    assert Body(Posix, "/" + p) == p;
  }

  /** The same at the front: the root stops ".." and more slashes, and a relative path starts
      with no dot or name that comes to nothing. */
  lemma SameStart(x: string, b: string)
    requires x != "" && x != "." && x != ".." && '/' !in x && '\\' !in x
    ensures Normalize(Posix, "/" + ("../" + b)) == Normalize(Posix, "/" + b)
    ensures Normalize(Posix, "/" + ("/" + b)) == Normalize(Posix, "/" + b)
    ensures Normalize(Posix, "/" + ("./" + b)) == Normalize(Posix, "/" + b)
    ensures Normalize(Posix, "/" + (x + "/" + ("../" + b))) == Normalize(Posix, "/" + b)
    ensures b == "" || (b[0] != '/' && b[0] != '\\') ==>
      && Normalize(Posix, "./" + b) == Normalize(Posix, b)
      && Normalize(Posix, x + "/" + ("../" + b)) == Normalize(Posix, b)
  {
    hide *;
    ParsePlain("../" + b);
    ParsePlain("/" + b);
    ParsePlain("./" + b);
    ParsePlain(x + "/" + ("../" + b));
    ParsePlain(b);
    AtTheStart(false, x, b);
    AtTheStart(true, x, b);
    NotRootedAtStart(x, b);
    NormalizeIs("/" + ("../" + b));
    NormalizeIs("/" + ("/" + b));
    NormalizeIs("/" + ("./" + b));
    NormalizeIs("/" + (x + "/" + ("../" + b)));
    NormalizeIs("/" + b);
    NormalizeIs("./" + b);
    NormalizeIs(x + "/" + ("../" + b));
    NormalizeIs(b);
  }

  lemma NormalizeIs(p: string)
    ensures Normalize(Posix, p) == Render(Posix, Parse(Posix, p))
  {
  }

  lemma NotRootedAtStart(x: string, b: string)
    requires x != "" && '/' !in x && '\\' !in x
    ensures var p := x + "/" + ("../" + b); p != "" && p[0] != '/' && p[0] != '\\'
    ensures var p := "./" + b; p != "" && p[0] != '/' && p[0] != '\\'
  {
    assert x[0] in x;
    assert (x + "/" + ("../" + b))[0] == x[0];
  }

  lemma AtTheStart(absolute: bool, x: string, b: string)
    requires x != "" && x != "." && x != ".." && '/' !in x && '\\' !in x
    ensures Fold(absolute, [], Segs("/" + b)) == Fold(absolute, [], Segs("./" + b)) == Fold(absolute, [], Segs(b))
    ensures Fold(absolute, [], Segs(x + "/" + ("../" + b))) == Fold(absolute, [], Segs(b))
    ensures absolute ==> Fold(absolute, [], Segs("../" + b)) == Fold(absolute, [], Segs(b))
  {
    hide Segs, Fold;
    FirstSegment("", b);
    FirstSegment(".", b);
    FirstSegment(x, "../" + b);
    FirstSegment("..", b);
    assert "" + "/" + b == "/" + b && "." + "/" + b == "./" + b && ".." + "/" + b == "../" + b;
    FoldFirst(absolute, [], "", Segs(b));
    FoldFirst(absolute, [], ".", Segs(b));
    FoldFirst(absolute, [], "..", Segs(b));
    FoldFirst(absolute, [], x, [".."] + Segs(b));
    FoldFirst(absolute, [x], "..", Segs(b));
    assert [] + [x] == [x] && [x][..0] == [];
  }

  // ----- normal texts -----

  /** The segments with a slash between each two. */
  function Slashes(segs: seq<string>): string {
    if segs == [] then "" else if |segs| == 1 then segs[0] else segs[0] + "/" + Slashes(segs[1..])
  }

  /** A name, or a ".." with nothing but such in front of it, and no root. */
  predicate NormalSeg(rooted: bool, segs: seq<string>, i: nat)
    requires i < |segs|
  {
    && segs[i] != "" && segs[i] != "." && '/' !in segs[i] && '\\' !in segs[i]
    && (segs[i] == ".." ==> !rooted && (i > 0 ==> segs[i - 1] == ".."))
  }

  predicate NormalSegs(rooted: bool, segs: seq<string>) { forall i :: 0 <= i < |segs| ==> NormalSeg(rooted, segs, i) }

  ghost predicate NormalText(p: string) {
    || p == "." || p == "/"
    || exists segs :: segs != [] && (|| (NormalSegs(false, segs) && p == Slashes(segs))
                                     || (NormalSegs(true, segs) && p == "/" + Slashes(segs)))
  }

  lemma {:induction false} SlashesIsJoin(segs: seq<string>)
    ensures Slashes(segs) == JoinSep(Posix, segs)
  {
    hide JoinSep;
    if segs == [] {
      NothingJoined();
    } else if |segs| == 1 {
      assert segs == [segs[0]];
      JoinOne(Posix, segs[0]);
    } else {
      SlashesIsJoin(segs[1..]);
      JoinFront(Posix, segs[0], segs[1..]);
      assert [segs[0]] + segs[1..] == segs;
      OneSlash();
      var rest := Slashes(segs[1..]);
      assert segs[0] + ("/" + rest) == segs[0] + "/" + rest;
    }
  }

  lemma NameIs(x: string)
    ensures Name(x) <==> x != "" && x != "." && '/' !in x && '\\' !in x
  {
    if x != "" && x != "." && '/' !in x && '\\' !in x {
      forall i | 0 <= i < |x|
        ensures !IsSep(x[i])
      {
        assert x[i] in x;
      }
    }
  }

  lemma NormalIsClean(rooted: bool, segs: seq<string>)
    ensures NormalSegs(rooted, segs) <==> Clean(rooted, segs)
  {
    hide Name, NormalSeg;
    forall i | 0 <= i < |segs|
      ensures NormalSeg(rooted, segs, i) <==> Name(segs[i]) && (rooted ==> segs[i] != "..") && Placed(segs, i)
    {
      NormalIsPlaced(rooted, segs, i);
    }
  }

  lemma NormalIsPlaced(rooted: bool, segs: seq<string>, i: nat)
    requires i < |segs|
    ensures NormalSeg(rooted, segs, i) <==> Name(segs[i]) && (rooted ==> segs[i] != "..") && Placed(segs, i)
  {
    hide Name;
    NameIs(segs[i]);
  }

  /** A path's normal form is its own if and only if it is ".", the root, or names behind
      ".." or behind the root with a slash between each two. */
  lemma NormalTexts(p: string)
    ensures Normalize(Posix, p) == p <==> NormalText(p)
  {
    hide Segs, Fold, JoinSep, Clean, NormalSegs, Slashes;
    if Normalize(Posix, p) == p {
      NormalIsNormal(p);
    }
    if NormalText(p) {
      if p == "." || p == "/" {
        DotAndRoot();
      } else {
        var segs :| segs != [] && (|| (NormalSegs(false, segs) && p == Slashes(segs))
                                   || (NormalSegs(true, segs) && p == "/" + Slashes(segs)));
        var rooted := !(NormalSegs(false, segs) && p == Slashes(segs));
        NormalIsClean(rooted, segs);
        SlashesIsJoin(segs);
        RenderedAgain(Path("", rooted, segs), p);
      }
    }
  }

  lemma RenderedAgain(path: Path, p: string)
    requires path.drive == "" && path.stack != [] && Clean(path.absolute, path.stack)
    requires p == (if path.absolute then "/" else "") + JoinSep(Posix, path.stack)
    ensures Normalize(Posix, p) == p
  {
    hide Segs, Fold, JoinSep, Clean;
    BodyStarts(Posix, path.absolute, path.stack);
    assert Render(Posix, path) == p;
    ParseOfRender(Posix, path);
  }

  lemma DotAndRoot()
    ensures Normalize(Posix, ".") == "." && Normalize(Posix, "/") == "/"
  {
    hide Segs, Fold;
    DotAlone(Posix);
    ParsePlain("");
    FoldNothing(true, []);
    assert "/" + "" == "/";
  }

  lemma NormalIsNormal(p: string)
    ensures NormalText(Normalize(Posix, p))
  {
    hide Segs, Fold, JoinSep, Clean, NormalSegs, Slashes;
    var path := Parse(Posix, p);
    ParseClean(Posix, p);
    NormalIsClean(path.absolute, path.stack);
    SlashesIsJoin(path.stack);
    NothingJoined();
    BodyStarts(Posix, path.absolute, path.stack);
    assert "" + "/" + JoinSep(Posix, path.stack) == "/" + JoinSep(Posix, path.stack);
    assert "" + "" + JoinSep(Posix, path.stack) == JoinSep(Posix, path.stack);
  }

  // ----- join -----

  function Glued(pl: Platform, x: string, y: string): string {
    if x == "" then y else if y == "" then x else x + (if pl.Windows? then "\\" else "/") + y
  }

  lemma GluedTwice(pl: Platform, x: string, y: string, z: string)
    ensures Glued(pl, Glued(pl, x, y), z) == Glued(pl, x, Glued(pl, y, z))
  {
    var sep := if pl.Windows? then "\\" else "/";
    assert x + sep + y + sep + z == x + sep + (y + sep + z);
  }

  lemma {:induction false} TextOfBoth(pl: Platform, a: seq<string>, b: seq<string>)
    ensures JoinText(pl, a + b) == Glued(pl, JoinText(pl, a), JoinText(pl, b))
    decreases |b|
  {
    hide Glued;
    if b == [] {
      assert a + b == a;
      GluedNothing(pl, JoinText(pl, a));
    } else {
      var init, last := b[..|b| - 1], b[|b| - 1];
      assert b == init + [last] && a + b == (a + init) + [last];
      TextOfBoth(pl, a, init);
      TextMore(pl, init, last);
      TextMore(pl, a + init, last);
      GluedTwice(pl, JoinText(pl, a), JoinText(pl, init), last);
    }
  }

  lemma GluedNothing(pl: Platform, x: string)
    ensures Glued(pl, x, "") == x && Glued(pl, "", x) == x
  {
  }

  lemma TextMore(pl: Platform, parts: seq<string>, last: string)
    ensures JoinText(pl, parts + [last]) == Glued(pl, JoinText(pl, parts), last)
  {
    assert (parts + [last])[..|parts|] == parts;
  }

  lemma TextOfOne(pl: Platform, x: string)
    ensures JoinText(pl, [x]) == x
  {
    assert [x][..0] == [];
  }

  /** Joining nothing is "."; joining one path is normalizing it; an empty part among others
      is no matter; and two parts that are not empty may be put together with the
      platform's separator first. */
  lemma JoinIsGluing(pl: Platform, a: seq<string>, b: seq<string>, x: string, y: string)
    requires x != "" && y != ""
    ensures JoinPaths(pl, []) == "." && JoinPaths(pl, [x]) == Normalize(pl, x)
    ensures JoinPaths(pl, a + [""] + b) == JoinPaths(pl, a + b)
    ensures JoinPaths(pl, a + [x, y] + b) == JoinPaths(pl, a + [x + (if pl.Windows? then "\\" else "/") + y] + b)
  {
    hide Normalize;
    EmptyPath(pl);
    TextOfOne(pl, x);
    TextOfOne(pl, "");
    var xy := x + (if pl.Windows? then "\\" else "/") + y;
    TextOfOne(pl, xy);
    TextOfPair(pl, x, y);
    TextOfBoth(pl, a, b);
    TextOfBoth(pl, a + [""], b);
    TextOfBoth(pl, a, [""]);
    TextOfBoth(pl, a + [x, y], b);
    TextOfBoth(pl, a, [x, y]);
    TextOfBoth(pl, a + [xy], b);
    TextOfBoth(pl, a, [xy]);
    GluedNothing(pl, JoinText(pl, a));
  }
}
