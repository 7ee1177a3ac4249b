/** What normalize, join and resolve promise about each other. */
module PathLaws {
  import opened PathNormal

  // ----- normalizing twice -----

  predicate DriveText(pl: Platform, d: string) { d == "" || (pl.Windows? && |d| == 2 && d[1] == ':') }

  /** What was written is read back, unless the reader sees a drive that was not one. */
  lemma ParseOfRender(pl: Platform, path: Path)
    requires DriveText(pl, path.drive) && Clean(path.absolute, path.stack)
    requires HasDrive(pl, Render(pl, path)) ==> path.drive != ""
    ensures Parse(pl, Render(pl, path)) == path
  {
    hide Fold, Segs, JoinSep, Clean;
    var body := JoinSep(pl, path.stack);
    var text := Root(pl, path) + body;
    BodyStarts(pl, path.absolute, path.stack);
    FoldOfJoin(pl, path.absolute, path.stack);
    if text == "" {
      DotAlone(pl);
    } else {
      assert Drive(pl, text) == path.drive;
      assert Absolute(pl, text) == path.absolute;
      assert Body(pl, text) == body;
    }
  }

  lemma DotAlone(pl: Platform)
    ensures Parse(pl, ".") == Path("", false, [])
  {
    assert Segs(".") == ["."] && ["."][1..] == [];
    assert Fold(false, Reduce(false, [], "."), []) == [];
  }

  lemma BodyStarts(pl: Platform, absolute: bool, stack: seq<string>)
    requires Clean(absolute, stack)
    ensures stack == [] <==> JoinSep(pl, stack) == ""
    ensures stack != [] ==> !IsSep(JoinSep(pl, stack)[0])
  {
    if stack != [] {
      JoinStarts(pl, stack);
      assert Name(stack[0]) && stack[0][0] == JoinSep(pl, stack)[..|stack[0]|][0];
    }
  }

  lemma {:induction false} JoinFront(pl: Platform, first: string, rest: seq<string>)
    ensures JoinSep(pl, [first] + rest) == first + if rest == [] then "" else [Sep(pl)] + JoinSep(pl, rest)
    decreases |rest|
  {
    hide *;
    if rest == [] {
      assert [first] + rest == [first];
      JoinOne(pl, first);
    } else {
      var init, last := rest[..|rest| - 1], rest[|rest| - 1];
      assert rest == init + [last] && [first] + rest == ([first] + init) + [last];
      JoinFront(pl, first, init);
      JoinMore(pl, [first] + init, last);
      JoinMore(pl, init, last);
      JoinOne(pl, first);
      if init == [] {
        assert "" + "" + last == last && first + "" == first;
        Reassociate(first, [Sep(pl)], last);
      } else {
        JoinGrown(first, [Sep(pl)], JoinSep(pl, init), [Sep(pl)], last);
      }
    }
  }

  lemma JoinOne(pl: Platform, first: string)
    ensures JoinSep(pl, [first]) == first == first + "" && JoinSep(pl, []) == ""
  {
  }

  lemma JoinGrown(a: string, b: string, c: string, d: string, e: string)
    ensures a + (b + c) + d + e == a + (b + (c + d + e))
  {
  }

  /** Text that reads back as having a drive: `first` is what follows the colon. */
  lemma ReparsedAsDrive(drive: string, first: string, rest: seq<string>)
    requires |drive| == 2 && drive[1] == ':' && NoSep(first) && Clean(true, rest)
    ensures var out := drive + JoinSep(Windows, [first] + rest);
      Normalize(Windows, out) == out <==> first != "."
  {
    hide Fold, Segs, JoinSep;
    var out := drive + JoinSep(Windows, [first] + rest);
    JoinFront(Windows, first, rest);
    assert Drive(Windows, out) == drive;
    BodyStarts(Windows, true, rest);
    FoldOfJoin(Windows, true, rest);
    if first == "" {
      if rest != [] {
        assert Body(Windows, out) == JoinSep(Windows, rest);
        assert Parse(Windows, out) == Path(drive, true, rest);
      } else {
        assert out == drive && Body(Windows, out) == "" == JoinSep(Windows, rest);
        FoldOfJoin(Windows, false, rest);
      }
    } else {
      assert !Absolute(Windows, out) && Body(Windows, out) == JoinSep(Windows, [first] + rest);
      RelativeBody(first, rest);
    }
  }

  lemma RelativeBody(first: string, rest: seq<string>)
    requires first != "" && NoSep(first) && Clean(true, rest)
    ensures Fold(false, [], Segs(JoinSep(Windows, [first] + rest))) == if first == "." then rest else [first] + rest
  {
    hide JoinSep, Segs;
    var segs := [first] + rest;
    SegsOfJoin(Windows, segs);
    assert segs[1..] == rest;
    if first == "." {
      assert [] + rest == rest && Clean(false, rest);
      FoldOfClean(false, [], rest);
      assert Reduce(false, [], first) == [];
    } else {
      forall i | 0 <= i < |segs|
        ensures Name(segs[i]) && (segs[i] == ".." ==> i == 0)
      {
        if i > 0 { NoClimbAt(true, rest, i - 1); }
      }
      assert [] + segs == segs;
      FoldOfClean(false, [], segs);
    }
  }

  /** The path has no drive, but written out it starts with one character and ":.". */
  predicate TakenForDrive(path: Path) {
    && path.drive == "" && path.stack != []
    && if path.absolute then path.stack[0] == ":." else |path.stack[0]| == 3 && path.stack[0][1..] == ":."
  }

  /** The text behind the first two characters of a path that had no drive. */
  lemma LooksLikeDrive(p: string) returns (drive: string, first: string, rest: seq<string>)
    requires !HasDrive(Windows, p) && HasDrive(Windows, Normalize(Windows, p))
    ensures |drive| == 2 && drive[1] == ':' && NoSep(first) && Clean(true, rest)
    ensures Normalize(Windows, p) == drive + JoinSep(Windows, [first] + rest)
    ensures first == "." <==> TakenForDrive(Parse(Windows, p))
    ensures var path := Parse(Windows, p);
      && path.drive == "" && (path.absolute ==> drive[0] == '\\')
      && path.stack == [(if path.absolute then drive[1..] else drive) + first] + rest
  {
    hide *;
    var path := Parse(Windows, p);
    var out := Normalize(Windows, p);
    assert path.drive == "" && out == Render(Windows, path) && |out| >= 2 && out[1] == ':' by { Undriven(p); }
    assert Clean(path.absolute, path.stack) by { WindowsClean(p); }
    LongEnough(path, out);
    var seg := path.stack[0];
    rest := path.stack[1..];
    var at := if path.absolute then 1 else 2;
    drive, first := out[..2], seg[at..];
    Halves(path, out, at);
    assert out[..2][1..] == out[1..2];
    assert path.stack == [seg] + rest;
    SegParts(path, seg);
    NoClimb(path.absolute, seg, rest);
    ColonThen(path, out, first);
  }

  lemma Undriven(p: string)
    requires !HasDrive(Windows, p) && HasDrive(Windows, Normalize(Windows, p))
    ensures var out := Normalize(Windows, p);
      Parse(Windows, p).drive == "" && out == Render(Windows, Parse(Windows, p)) && |out| >= 2 && out[1] == ':'
  {
    hide Fold, Segs, JoinSep;
  }

  lemma WindowsClean(p: string)
    ensures Clean(Parse(Windows, p).absolute, Parse(Windows, p).stack)
  {
    ParseClean(Windows, p);
  }

  /** The text is the root and a first segment, of two characters if there is no root. */
  lemma LongEnough(path: Path, out: string)
    requires path.drive == "" && Clean(path.absolute, path.stack)
    requires out == Render(Windows, path) && |out| >= 2 && out[1] == ':'
    ensures path.stack != [] && out == (if path.absolute then "\\" else "") + JoinSep(Windows, path.stack)
    ensures |path.stack[0]| >= if path.absolute then 1 else 2
  {
    hide JoinSep;
    BodyStarts(Windows, path.absolute, path.stack);
    if path.stack != [] {
      JoinStarts(Windows, path.stack);
      assert Name(path.stack[0]);
    }
  }

  lemma SegParts(path: Path, seg: string)
    requires path.stack != [] && seg == path.stack[0] && Clean(path.absolute, path.stack)
    requires path.absolute || (|seg| >= 2 && seg[1] == ':')
    requires path.absolute ==> seg[0] == ':'
    ensures seg != ".." && forall i :: 0 <= i <= |seg| ==> NoSep(seg[i..])
  {
    assert Name(seg);
  }

  /** The first two characters, and what is behind them in the first segment. */
  lemma Halves(path: Path, out: string, at: nat)
    requires path.stack != [] && out == (if path.absolute then "\\" else "") + JoinSep(Windows, path.stack)
    requires at == (if path.absolute then 1 else 2) && (path.absolute || |path.stack[0]| >= 2)
    requires |path.stack[0]| >= at && |out| >= 2 && out[1] == ':'
    ensures var seg := path.stack[0];
      && out == out[..2] + JoinSep(Windows, [seg[at..]] + path.stack[1..])
      && seg == (if path.absolute then out[1..2] else out[..2]) + seg[at..]
      && (if path.absolute then seg[0] == ':' else seg[1] == ':')
  {
    hide JoinSep;
    var seg, rest := path.stack[0], path.stack[1..];
    var tail := if rest == [] then "" else [Sep(Windows)] + JoinSep(Windows, rest);
    assert path.stack == [seg] + rest;
    JoinFront(Windows, seg, rest);
    JoinFront(Windows, seg[at..], rest);
    var root := if path.absolute then "\\" else "";
    assert out == root + (seg + tail);
    Cut(root, seg, tail, at);
  }

  lemma Cut(root: string, seg: string, tail: string, at: nat)
    requires at <= |seg| && |root| + at == 2
    ensures var out := root + (seg + tail);
      && |out| >= 2 && out[..2] == root + seg[..at] && out == out[..2] + (seg[at..] + tail)
      && seg == seg[..at] + seg[at..] && seg[..at] == out[|root|..2]
  {
    assert seg == seg[..at] + seg[at..];
  }

  lemma ColonThen(path: Path, out: string, first: string)
    requires path.drive == "" && path.stack != [] && |out| >= 2 && out[1] == ':'
    requires path.stack[0] == (if path.absolute then out[1..2] else out[..2]) + first
    ensures first == "." <==> TakenForDrive(path)
  {
    var seg := path.stack[0];
    if path.absolute {
      assert seg == ":" + first && first == seg[1..];
    } else {
      assert seg[1..] == ":" + first && first == seg[2..];
      if seg[1..] == ":." { assert first == seg[1..][1..]; }
    }
  }

  /** What is taken for a drive looks like one. */
  lemma TakenHasDrive(p: string)
    requires TakenForDrive(Parse(Windows, p))
    ensures HasDrive(Windows, Normalize(Windows, p))
  {
    hide Fold, Segs, JoinSep, FirstSep;
    var path := Parse(Windows, p);
    JoinStarts(Windows, path.stack);
    var body, seg := JoinSep(Windows, path.stack), path.stack[0];
    assert body[..|seg|][0] == seg[0] && body[..|seg|][1] == seg[1];
    if !path.absolute { assert seg[1] == seg[1..][0]; }
  }

  lemma NoClimb(absolute: bool, seg: string, rest: seq<string>)
    requires Clean(absolute, [seg] + rest) && seg != ".."
    ensures Clean(true, rest)
    decreases |rest|
  {
    var all := [seg] + rest;
    forall i | 0 <= i < |rest|
      ensures Name(rest[i]) && rest[i] != ".."
    {
      assert all[i + 1] == rest[i];
      NoClimbAt(absolute, all, i + 1);
    }
  }

  lemma {:induction false} NoClimbAt(absolute: bool, all: seq<string>, i: nat)
    requires Clean(absolute, all) && i < |all| && (absolute || all[0] != "..")
    ensures Name(all[i]) && all[i] != ".."
  {
    assert Placed(all, i);
    if i > 0 { NoClimbAt(absolute, all, i - 1); }
  }

  /** Normalizing is idempotent, except that on Windows a path without a drive whose
      first kept segment is ":." under the root, or one character and ":." without
      one, is taken for a drive the second time. */
  lemma NormalizeTwice(pl: Platform, p: string)
    ensures Normalize(pl, Normalize(pl, p)) == Normalize(pl, p) <==> !(pl.Windows? && TakenForDrive(Parse(pl, p)))
  {
    hide Fold, Segs, JoinSep, Clean, FirstSep, TakenForDrive;
    var out := Normalize(pl, p);
    if HasDrive(pl, out) && !HasDrive(pl, p) {
      var drive, first, rest := LooksLikeDrive(p);
      ReparsedAsDrive(drive, first, rest);
    } else {
      ParseClean(pl, p);
      ParseOfRender(pl, Parse(pl, p));
      NotTaken(pl, p);
    }
  }

  lemma NotTaken(pl: Platform, p: string)
    ensures pl.Windows? && TakenForDrive(Parse(pl, p)) ==> HasDrive(pl, Normalize(pl, p)) && !HasDrive(pl, p)
  {
    hide Fold, Segs, JoinSep;
    if pl.Windows? && TakenForDrive(Parse(pl, p)) { TakenHasDrive(p); }
  }

  /** Such a path: its dot goes the second time. */
  lemma DotLostTheSecondTime()
    ensures Normalize(Windows, ".\\C:.") == "C:." && Normalize(Windows, "C:.") == "C:"
  {
    hide *;
    DotThenSeg();
    DotBehindDrive();
  }

  lemma DotThenSeg()
    ensures Normalize(Windows, ".\\C:.") == "C:."
  {
    hide Segs, Fold, JoinSep, Reduce;
    var p := ".\\C:.";
    assert p == "." + ['\\'] + "C:.";
    SegsConcat(".", '\\', "C:.");
    OneSeg(".");
    OneSeg("C:.");
    assert Body(Windows, p) == p && ["."] + ["C:."] == [".", "C:."];
    FoldTwo(".", "C:.");
    DotThenName("C:.");
    JoinOne(Windows, "C:.");
  }

  lemma DotBehindDrive()
    ensures Normalize(Windows, "C:.") == "C:"
  {
    hide Segs, Fold, JoinSep;
    var p := "C:.";
    assert Drive(Windows, p) == "C:" && Body(Windows, p) == ".";
    RootAlone(false, []);
    JoinOne(Windows, p);
  }

  lemma DotThenName(name: string)
    requires name != "" && name != "." && name != ".."
    ensures Reduce(false, Reduce(false, [], "."), name) == [name]
  {
  }

  lemma FoldTwo(x: string, y: string)
    ensures Fold(false, [], [x, y]) == Reduce(false, Reduce(false, [], x), y)
  {
    hide Reduce;
    assert [x, y][1..] == [y] && [y][1..] == [];
    assert Fold(false, Reduce(false, Reduce(false, [], x), y), []) == Reduce(false, Reduce(false, [], x), y);
  }

  lemma OneSeg(s: string)
    requires NoSep(s)
    ensures Segs(s) == [s]
  {
    assert s[..|s|] == s;
    FirstSepIs(s, |s|);
  }

  // ----- join -----

  function JoinText(pl: Platform, parts: seq<string>): string {
    if parts == [] then ""
    else
      var text, last := JoinText(pl, parts[..|parts| - 1]), parts[|parts| - 1];
      if last == "" then text else if text == "" then last else text + [Sep(pl)] + last
  }

  function JoinPaths(pl: Platform, parts: seq<string>): string { Normalize(pl, JoinText(pl, parts)) }

  /** js_join over its string arguments. */
  method Join(pl: Platform, parts: seq<string>) returns (out: string)
    ensures out == JoinPaths(pl, parts)
  {
    var joined := "";
    for k := 0 to |parts|
      invariant joined == JoinText(pl, parts[..k])
    {
      assert parts[..k + 1][..k] == parts[..k];
      if parts[k] == "" { continue; }
      if joined != "" { joined := joined + [Sep(pl)]; }
      joined := joined + parts[k];
    }
    assert parts[..|parts|] == parts;
    if joined == "" {
      EmptyPath(pl);
      return ".";
    }
    out := NormalizeInto(pl, joined);
  }

  predicate AllNoSep(segs: seq<string>) { forall i :: 0 <= i < |segs| ==> NoSep(segs[i]) }

  lemma {:induction false} SegsNoSep(s: string)
    ensures AllNoSep(Segs(s))
    decreases |s|
  {
    var k := FirstSep(s);
    if k < |s| {
      SegsNoSep(s[k + 1..]);
    }
  }

  lemma FoldOne(absolute: bool, stack: seq<string>, segs: seq<string>, x: string)
    ensures Fold(absolute, stack, segs + [x]) == Reduce(absolute, Fold(absolute, stack, segs), x)
  {
    hide Reduce;
    FoldConcat(absolute, stack, segs, [x]);
    assert [x][1..] == [];
    assert Fold(absolute, Reduce(absolute, Fold(absolute, stack, segs), x), [])
        == Reduce(absolute, Fold(absolute, stack, segs), x);
  }

  /** Reducing first and replaying the result is replaying, one segment on. */
  lemma ReplayOne(absolute: bool, under: seq<string>, reduced: seq<string>, x: string)
    ensures Fold(absolute, under, Reduce(false, reduced, x)) == Reduce(absolute, Fold(absolute, under, reduced), x)
      || x == ".." || x == "" || x == "."
    ensures x == "" || x == "." ==> Reduce(false, reduced, x) == reduced
    ensures Clean(false, reduced) ==>
      Fold(absolute, under, Reduce(false, reduced, x)) == Reduce(absolute, Fold(absolute, under, reduced), x)
  {
    hide Fold, Clean;
    FoldOne(absolute, under, reduced, x);
    if x == ".." && reduced != [] && reduced[|reduced| - 1] != ".." && Clean(false, reduced) {
      var init, last := reduced[..|reduced| - 1], reduced[|reduced| - 1];
      assert reduced == init + [last];
      FoldOne(absolute, under, init, last);
      LastIsName(false, reduced);
    }
  }

  lemma LastIsName(absolute: bool, stack: seq<string>)
    requires Clean(absolute, stack) && stack != []
    ensures Name(stack[|stack| - 1])
  {
  }

  /** A relative path may be reduced on its own before it is applied. */
  lemma {:induction false} Replay(absolute: bool, under: seq<string>, reduced: seq<string>, segs: seq<string>)
    requires Clean(false, reduced) && AllNoSep(segs)
    ensures Fold(absolute, under, Fold(false, reduced, segs)) == Fold(absolute, Fold(absolute, under, reduced), segs)
    decreases |segs|
  {
    hide Reduce, Clean;
    if segs != [] {
      ReplayOne(absolute, under, reduced, segs[0]);
      ReduceClean(false, reduced, segs[0]);
      Replay(absolute, under, Reduce(false, reduced, segs[0]), segs[1..]);
    }
  }

  function StackOf(p: string): seq<string> { Parse(Posix, p).stack }

  function Rooted(p: string): bool { p != "" && IsSep(p[0]) }

  lemma FoldNothing(absolute: bool, stack: seq<string>)
    ensures Fold(absolute, stack, Segs("")) == stack
  {
    assert Segs("") == [""] && [""][1..] == [];
    assert Fold(absolute, Reduce(absolute, stack, ""), []) == stack;
  }

  lemma NormalIsNotEmpty(p: string)
    ensures Normalize(Posix, p) != "" && Rooted(Normalize(Posix, p)) == Rooted(p)
    ensures StackOf(Normalize(Posix, p)) == StackOf(p)
  {
    hide Fold, Segs, JoinSep;
    ParseClean(Posix, p);
    ParseOfRender(Posix, Parse(Posix, p));
  }

  lemma RootAlone(absolute: bool, under: seq<string>)
    ensures Fold(absolute, under, Segs("/")) == under && Fold(absolute, under, Segs(".")) == under
  {
    assert "/" == "" + ['/'] + "";
    SegsConcat("", '/', "");
    FoldConcat(absolute, under, Segs(""), Segs(""));
    FoldNothing(absolute, under);
    assert Segs(".") == ["."] && ["."][1..] == [];
    assert Fold(absolute, Reduce(absolute, under, "."), []) == under;
  }

  // ----- join and normalize -----

  predicate Ups(segs: seq<string>) { forall i :: 0 <= i < |segs| ==> segs[i] == ".." }

  predicate Downs(segs: seq<string>) { forall i :: 0 <= i < |segs| ==> Name(segs[i]) && segs[i] != ".." }

  /** A clean stack is some ".." and then names. */
  lemma {:induction false} UpsThenDowns(stack: seq<string>) returns (ups: seq<string>, downs: seq<string>)
    requires Clean(false, stack)
    ensures stack == ups + downs && Ups(ups) && Downs(downs)
    ensures downs != [] || stack == ups
    decreases |stack|
  {
    if stack == [] { return [], []; }
    var init, last := stack[..|stack| - 1], stack[|stack| - 1];
    assert stack == init + [last];
    if last == ".." {
      AllUps(stack, |stack| - 1);
      return stack, [];
    }
    InitClean(false, stack);
    ups, downs := UpsThenDowns(init);
    downs := downs + [last];
  }

  lemma {:induction false} AllUps(stack: seq<string>, i: nat)
    requires Clean(false, stack) && i < |stack| && stack[i] == ".."
    ensures Ups(stack[..i + 1])
  {
    if i > 0 {
      assert Placed(stack, i);
      AllUps(stack, i - 1);
      assert stack[..i + 1] == stack[..i] + [stack[i]];
    }
  }

  lemma {:induction false} FoldDowns(absolute: bool, under: seq<string>, downs: seq<string>)
    requires Downs(downs)
    ensures Fold(absolute, under, downs) == under + downs
    decreases |downs|
  {
    if downs == [] {
      assert under + downs == under;
    } else {
      FoldDowns(absolute, under + [downs[0]], downs[1..]);
      assert under + [downs[0]] + downs[1..] == under + downs;
    }
  }

  lemma {:induction false} RootStops(ups: seq<string>)
    requires Ups(ups)
    ensures Fold(true, [], ups) == []
  {
    if ups != [] { RootStops(ups[1..]); }
  }

  /** Names less climbs. */
  function Height(stack: seq<string>): int {
    if stack == [] then 0
    else Height(stack[..|stack| - 1]) + if stack[|stack| - 1] == ".." then -1 else 1
  }

  lemma {:induction false} ClimbingLowers(absolute: bool, under: seq<string>, ups: seq<string>)
    requires Clean(absolute, under) && Ups(ups)
    ensures Height(Fold(absolute, under, ups)) <= Height(under)
    ensures ups != [] && !(absolute && under == []) ==> Height(Fold(absolute, under, ups)) < Height(under)
    decreases |ups|
  {
    if ups != [] {
      var next := Reduce(absolute, under, "..");
      assert NoSep("..");
      ReduceClean(absolute, under, "..");
      ClimbingLowers(absolute, next, ups[1..]);
      if under != [] { LastIsName(absolute, under); }
      assert next == under + [".."] ==> next[..|next| - 1] == under;
    }
  }

  /** The path climbs above where it starts: a ".." is left when it is reduced as a
      relative one. */
  predicate Climbs(b: string) {
    var reduced := Fold(false, [], Segs(b));
    reduced != [] && reduced[0] == ".."
  }

  lemma {:induction false} ReplayClean(absolute: bool, under: seq<string>, rooted: bool, stack: seq<string>)
    requires Clean(absolute, under) && Clean(rooted, stack)
    ensures Clean(absolute, Fold(absolute, under, stack))
    decreases |stack|
  {
    hide Reduce;
    if stack != [] {
      var init, last := stack[..|stack| - 1], stack[|stack| - 1];
      assert stack == init + [last];
      InitClean(rooted, stack);
      ReplayClean(absolute, under, rooted, init);
      FoldOne(absolute, under, init, last);
      LastIsName(rooted, stack);
      ReduceClean(absolute, Fold(absolute, under, init), last);
    }
  }

  lemma InitClean(absolute: bool, stack: seq<string>)
    requires Clean(absolute, stack) && stack != []
    ensures Clean(absolute, stack[..|stack| - 1])
  {
    var init := stack[..|stack| - 1];
    forall i | 0 <= i < |init|
      ensures Placed(init, i)
    {
      assert Placed(stack, i);
    }
  }

  lemma FoldEmpty(absolute: bool, under: seq<string>)
    ensures Fold(absolute, under, []) == under
  {
  }

  lemma SameTail(x: seq<string>, y: seq<string>, tail: seq<string>)
    ensures x + tail == y + tail <==> x == y
  {
    if x + tail == y + tail {
      assert |x| == |y| && x == (x + tail)[..|x|] && y == (y + tail)[..|y|];
    }
  }
}
