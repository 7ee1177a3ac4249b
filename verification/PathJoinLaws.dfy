/** join against normalize, on both platforms: when joining normal forms is joining the
    paths, and when joining in two steps is joining at once.
 */
module PathJoinLaws {
  import opened PathNormal
  import opened PathLaws
  import opened PathJoin
  import opened PathSecond
  import opened PathFirst

  // ----- a first part mistaken for one on a drive -----

  /** What a path without a drive is taken for is still in front after climbing as far as
      r does: a name that is left, no dot behind the colon, and not the drive alone. */
  predicate Survives(path: Path, r: seq<string>) {
    && Climb(r) < |path.stack| && !TakenForDrive(path)
    && (|path.stack[0]| == (if path.absolute then 1 else 2) ==> Climb(r) + 1 < |path.stack| + |Tail(r)|)
  }

  lemma MistakenPair(a: string, r: seq<string>, r': seq<string>)
    requires Mistaken(Windows, a) && Clean(false, r) && Clean(false, r') && Related(r, r')
    ensures var n := Normalize(Windows, a);
      Render(Windows, Apply(Seen(Windows, a), r)) == Render(Windows, Apply(Seen(Windows, n), r'))
      <==> r == r' && Survives(Parse(Windows, a), r)
  {
    hide *;
    var path := Parse(Windows, a);
    assert Seen(Windows, a) == path && HasDrive(Windows, Normalize(Windows, a)) && !HasDrive(Windows, a)
      by { MistakenIs(a); }
    var drive, first, rest := LooksLikeDrive(a);
    SeenMistaken(drive, first, rest);
    var root, q := if path.absolute then "\\" else "", if path.absolute then drive[1..] else drive;
    assert Clean(path.absolute, path.stack) by { WindowsClean(a); }
    LeadOfMistaken(path, drive, rest, first);
    var read := if first == "" || first == "." then rest else [first] + rest;
    var x, y := Apply(path, r), Apply(Path(drive, first == "", read), r');
    assert x == path.(stack := Fold(path.absolute, [q + first] + rest, r)) by { ApplyIs(path, r); }
    var seen := Path(drive, first == "", read);
    assert y == seen.(stack := Fold(first == "", read, r')) by { ApplyIs(seen, r'); }
    ReplayClean(path.absolute, path.stack, false, r);
    assert Clean(first == "", read) by { ReadClean(first, rest); }
    ReplayClean(first == "", read, false, r');
    TextsMeet(root, q, x, y);
    if Climb(r) <= |rest| {
      MergedWhenKept(path.absolute, q, first, rest, r, r');
    } else {
      MergedWhenPast(path.absolute, q, first, rest, r, r');
    }
    SurvivesIs(path, q, first, rest, r);
  }

  lemma MistakenIs(a: string)
    requires Mistaken(Windows, a)
    ensures Seen(Windows, a) == Parse(Windows, a)
    ensures HasDrive(Windows, Normalize(Windows, a)) && !HasDrive(Windows, a)
  {
    hide Parse, Normalize;
  }

  lemma ApplyIs(path: Path, segs: seq<string>)
    ensures Apply(path, segs) == path.(stack := Fold(path.absolute, path.stack, segs))
  {
  }

  lemma LeadOfMistaken(path: Path, drive: string, rest: seq<string>, first: string)
    requires |drive| == 2 && drive[1] == ':' && path.drive == "" && (path.absolute ==> drive[0] == '\\')
    requires path.stack == [(if path.absolute then drive[1..] else drive) + first] + rest
    requires Clean(path.absolute, path.stack)
    ensures var root, q := if path.absolute then "\\" else "", if path.absolute then drive[1..] else drive;
      Leads(q) && drive == root + q && |q| == if path.absolute then 1 else 2
  {
    assert Name(path.stack[0]);
    if path.absolute {
      assert drive[1..] == ":";
    } else {
      assert path.stack[0][0] == drive[0];
    }
  }

  lemma ReadClean(first: string, rest: seq<string>)
    requires NoSep(first) && Clean(true, rest)
    ensures Clean(first == "", if first == "" || first == "." then rest else [first] + rest)
  {
    hide Clean;
    RootedIsClean(rest);
    if first != "" && first != "." { FrontClean(first, rest); }
  }

  lemma SurvivesIs(path: Path, q: string, first: string, rest: seq<string>, r: seq<string>)
    requires path.stack == [q + first] + rest && |q| == (if path.absolute then 1 else 2)
    requires first == "." <==> TakenForDrive(path)
    requires Clean(true, rest) && Clean(false, r)
    ensures Survives(path, r) <==>
            Climb(r) <= |rest| && first != "." && (first == "" ==> Fold(true, rest, r) != [])
  {
    hide Clean, Fold, TakenForDrive, Climb;
    assert |path.stack[0]| == |q| + |first|;
    if Climb(r) <= |rest| {
      CleanIsDowns(rest);
      FoldKeepsFront(true, [], rest, r);
      assert [] + rest == rest && [] + Rest(rest, r) == Rest(rest, r);
      assert |Rest(rest, r)| == |rest| - Climb(r) + |Tail(r)|;
    }
  }

  // ----- nothing in front -----

  /** Behind a drive t is read as it is behind the drive's text as a plain segment. */
  predicate Stays(t: string) {
    if Rooted(t) then !Climbs(t) && Rel(t) != [] else First(t) != "." && !Climbs(More(t))
  }

  /** Under "." a path comes to its own normal form. */
  predicate Alone(pl: Platform, c: string) {
    if HasDrive(pl, c) then !IsSep(c[0]) && Stays(c[2..]) else !Rooted(c)
  }

  /** And so does its normal form. */
  predicate AloneNormal(pl: Platform, b: string) {
    if !HasDrive(pl, b) then !Rooted(b)
    else !IsSep(b[0]) && if Rooted(b[2..]) then Parse(pl, b).stack != [] else Climb(Parse(pl, b).stack) <= 1
  }

  /** Text without a root is not a normal form that starts with a separator. */
  lemma SepInFront(pl: Platform, b: string, stack: seq<string>)
    requires b != "" && IsSep(b[0]) && Clean(false, stack)
    ensures Render(pl, Path("", false, stack)) != Normalize(pl, b)
  {
    hide JoinSep, Clean, Fold, Segs;
    BodyStarts(pl, false, stack);
    var text := JoinSep(pl, stack);
    assert "" + "" + text == text;
    assert IsSep(Normalize(pl, b)[0]) by { NormalStartsSo(pl, b); }
  }

  lemma NormalStartsSo(pl: Platform, b: string)
    requires b != "" && IsSep(b[0])
    ensures Normalize(pl, b) != "" && IsSep(Normalize(pl, b)[0])
  {
    hide JoinSep, Fold, Segs;
    if HasDrive(pl, b) {
      DrivenNormal(b);
    } else {
      assert Normalize(pl, b) == [Sep(pl)] + JoinSep(pl, Parse(pl, b).stack);
    }
  }

  lemma DotThen(pl: Platform, c: string)
    ensures Render(pl, Path("", false, Rel(c))) == Normalize(pl, c) <==> Alone(pl, c)
  {
    hide *;
    RelClean(c);
    AloneCases(pl, c);
    if c != "" && IsSep(c[0]) {
      SepInFront(pl, c, Rel(c));
    } else if HasDrive(pl, c) {
      DotThenDrive(c);
    } else {
      UnrootedText(pl, c);
    }
  }

  lemma AloneCases(pl: Platform, c: string)
    ensures c != "" && IsSep(c[0]) ==> !Alone(pl, c) && !AloneNormal(pl, c)
    ensures !(c != "" && IsSep(c[0])) && !HasDrive(pl, c) ==> Alone(pl, c) && AloneNormal(pl, c)
    ensures HasDrive(pl, c) ==> pl.Windows? && c != ""
  {
    hide Parse, Rel, Climbs;
  }

  lemma UnrootedText(pl: Platform, b: string)
    requires !HasDrive(pl, b) && !(b != "" && IsSep(b[0]))
    ensures Render(pl, Path("", false, Rel(b))) == Normalize(pl, b) && Rel(Normalize(pl, b)) == Rel(b)
  {
    hide Segs, Fold, JoinSep;
    UnrootedNormal(pl, b);
    KindUndriven(pl, b);
  }

  lemma DriveLeads(b: string)
    requires HasDrive(Windows, b) && !IsSep(b[0])
    ensures Lead(b[..2]) == b[..2] && Leads(b[..2]) && |b[..2]| == 2
  {
  }

  lemma DotThenDrive(c: string)
    requires HasDrive(Windows, c) && !IsSep(c[0])
    ensures Render(Windows, Path("", false, Rel(c))) == Normalize(Windows, c) <==> Alone(Windows, c)
  {
    hide Segs, JoinSep, Clean, Fold, Climb, Lead, Leads, Merged;
    var d, t, y := c[..2], c[2..], Parse(Windows, c);
    DriveLeads(c);
    RelClean(c);
    ParseClean(Windows, c);
    DrivenNormal(c);
    TextsMeet("", d, Path("", false, Rel(c)), y);
    assert "" + d == d;
    if Rooted(t) {
      KindRooted(c);
      RootedStack(c[3..]);
      assert t[1..] == c[3..];
      ClimbsIs(t);
      RootedMerge(d, Rel(t), Rel(c));
    } else {
      KindRelative(c);
      ClimbsIs(More(t));
      NothingBehindNothing(t);
      RelativeMerge(d, First(t), Rel(More(t)), Rel(c), y.stack);
    }
  }

  lemma RootedMerge(q: string, m: seq<string>, r: seq<string>)
    requires Leads(q) && Clean(false, m) && r == (if Climb(m) == 0 then [q] + m else m[1..])
    ensures r == Merged(q, true, Tail(m)) <==> Climb(m) == 0
    ensures Climb(m) == 0 ==> Tail(m) == m
  {
    hide Clean, Leads;
    LedIsName(q, "");
    assert q + "" == q;
    if Climb(m) > 0 {
      ClimbTail(m);
      if Climb(m) > 1 { assert m[1..][0] == ".."; }
    }
  }

  lemma RelativeMerge(q: string, r0: string, m: seq<string>, r: seq<string>, stack: seq<string>)
    requires Leads(q) && NoSep(r0) && Clean(false, m) && Clean(false, stack) && (r0 == "" ==> m == [])
    requires r == (if Climb(m) == 0 then [q + r0] + m else m[1..])
    requires stack == Fold(false, Reduce(false, [], r0), m)
    ensures r == Merged(q, false, stack) <==> r0 != "." && Climb(m) == 0
  {
    hide Clean, Leads, Fold, Reduce;
    if r0 == "" {
      NothingFolded(m, stack);
      assert q + "" == q;
    } else if r0 == ".." {
      UpFold(m);
      assert stack[0] == ".." && stack[1..] == m;
    } else if r0 == "." {
      DotFold(m);
      if m == [] { NotTheSame(q, ".", ""); assert q + "" == q; }
    } else {
      NameAlone(r0);
      assert NoSep(r0) && Name(r0);
      FoldBehindName(r0, m);
      if Climb(m) == 0 {
        assert stack[0] == r0 && stack[1..] == m;
      } else if stack != [] {
        Longer(q, stack[0]);
      }
    }
  }

  lemma NothingFolded(m: seq<string>, stack: seq<string>)
    requires m == [] && stack == Fold(false, Reduce(false, [], ""), m)
    ensures stack == [] && Climb(m) == 0
  {
  }

  lemma DotThenNormal(pl: Platform, b: string)
    ensures Render(pl, Path("", false, Rel(Normalize(pl, b)))) == Normalize(pl, b) <==> AloneNormal(pl, b)
  {
    hide *;
    RelClean(Normalize(pl, b));
    AloneCases(pl, b);
    if b != "" && IsSep(b[0]) {
      SepInFront(pl, b, Rel(Normalize(pl, b)));
    } else if HasDrive(pl, b) {
      DotThenNormalDrive(b);
    } else {
      UnrootedText(pl, b);
    }
  }

  lemma DotThenNormalDrive(b: string)
    requires HasDrive(Windows, b) && !IsSep(b[0])
    ensures Render(Windows, Path("", false, Rel(Normalize(Windows, b)))) == Normalize(Windows, b)
        <==> AloneNormal(Windows, b)
  {
    hide Segs, JoinSep, Clean, Fold, Climb, Lead, Leads, Brought;
    var d, t, y := b[..2], b[2..], Parse(Windows, b);
    DriveLeads(b);
    RelClean(Normalize(Windows, b));
    ParseClean(Windows, b);
    DrivenNormal(b);
    TextsMeet("", d, Path("", false, Rel(Normalize(Windows, b))), y);
    assert "" + d == d;
    if Rooted(t) {
      KindRooted(b);
      RootedStack(b[3..]);
      assert t[1..] == b[3..];
    } else {
      KindRelative(b);
      BroughtIs(d, y.stack);
    }
  }

  // ----- the laws -----

  /** When joining the normal forms of a and b is joining a and b. On POSIX nothing has a
      drive, so every a is plain. */
  predicate JoinsAsNormal(pl: Platform, a: string, b: string) {
    if a == "" then AloneNormal(pl, b)
    else if b == "" then !Bare(pl, Normalize(pl, a)) && !(pl.Windows? && TakenForDrive(Parse(pl, a)))
    else if Plain(pl, a) then
      Tame(pl, b) || (Deep(pl, b) && Seen(pl, a).absolute && |Seen(pl, a).stack| <= Depth(pl, b))
    else Mistaken(pl, a) && Tame(pl, b) && Survives(Parse(pl, a), Rel(b))
  }

  /** join(normalize(a), normalize(b)) is join(a, b), on either platform, if and only if
      JoinsAsNormal. */
  lemma JoinOfNormals(pl: Platform, a: string, b: string)
    ensures JoinPaths(pl, [Normalize(pl, a), Normalize(pl, b)]) == JoinPaths(pl, [a, b]) <==> JoinsAsNormal(pl, a, b)
  {
    hide *;
    JoinOfNormalPair(pl, a, b);
    JoinsAsNormalIs(pl, a, b);
    Kind(pl, b);
    IsKindIs(pl, b, Rel(b), Rel(Normalize(pl, b)));
    if a == "" {
      NothingSeen(pl, Rel(Normalize(pl, b)));
      JoinOfOne(pl, a, b);
      DotThenNormal(pl, b);
    } else if b == "" {
      JoinOfOne(pl, a, b);
      NothingBehind(pl, a);
    } else {
      JoinOfPair(pl, a, b);
      OneOfThree(pl, a);
      if Plain(pl, a) {
        PlainPair(pl, a, b);
      } else if Dropped(pl, a) {
        assert IsKindClean(Rel(b), Rel(Normalize(pl, b))) by { BothClean(Rel(b), Rel(Normalize(pl, b))); }
        DroppedPair(pl, a, Rel(b), Rel(Normalize(pl, b)));
      } else {
        MistakenOnWindows(pl, a);
        MistakenPair(a, Rel(b), Rel(Normalize(pl, b)));
      }
    }
  }

  lemma JoinsAsNormalIs(pl: Platform, a: string, b: string)
    ensures a == "" ==> JoinsAsNormal(pl, a, b) == AloneNormal(pl, b)
    ensures a != "" && b == "" ==>
      JoinsAsNormal(pl, a, b) == (!Bare(pl, Normalize(pl, a)) && !(pl.Windows? && TakenForDrive(Parse(pl, a))))
    ensures a != "" && b != "" && !Plain(pl, a) ==>
      JoinsAsNormal(pl, a, b) == (Mistaken(pl, a) && Tame(pl, b) && Survives(Parse(pl, a), Rel(b)))
  {
    hide AloneNormal, Normalize, Parse, Tame, Survives, Plain, Mistaken;
  }

  lemma IsKindIs(pl: Platform, b: string, r: seq<string>, r': seq<string>)
    requires IsKind(pl, b, r, r')
    ensures Clean(false, r) && Clean(false, r') && Related(r, r') && (r == r' <==> Tame(pl, b))
  {
    hide Clean, Tame, Related, Deep;
  }

  lemma NothingSeen(pl: Platform, r: seq<string>)
    requires Clean(false, r)
    ensures Seen(pl, Normalize(pl, "")) == Path("", false, [])
    ensures Apply(Seen(pl, Normalize(pl, "")), r) == Path("", false, r)
  {
    hide Clean, Segs;
    EmptyPath(pl);
    DotAlone(pl);
    assert [] + r == r;
    FoldOfClean(false, [], r);
  }

  lemma JoinOfOne(pl: Platform, a: string, b: string)
    requires a == "" || b == ""
    ensures JoinPaths(pl, [a, b]) == Normalize(pl, if b == "" then a else b)
  {
    hide Normalize;
    TextOfPair(pl, a, b);
  }

  /** An empty second part becomes "." and roots a drive that stands alone. */
  lemma NothingBehind(pl: Platform, a: string)
    ensures var n := Normalize(pl, a);
      Render(pl, Apply(Seen(pl, n), Rel(Normalize(pl, "")))) == n
      <==> !Bare(pl, n) && !(pl.Windows? && TakenForDrive(Parse(pl, a)))
  {
    hide Parse, Fold, Segs, TakenForDrive, JoinSep;
    var n := Normalize(pl, a);
    EmptyPath(pl);
    RelOfDot();
    FoldEmpty(Seen(pl, n).absolute, Seen(pl, n).stack);
    NormalizeTwice(pl, a);
    if Bare(pl, n) { JoinOne(pl, n); }
  }

  lemma PlainPair(pl: Platform, a: string, b: string)
    requires a != "" && b != "" && Plain(pl, a) && IsKind(pl, b, Rel(b), Rel(Normalize(pl, b)))
    ensures var r, r' := Rel(b), Rel(Normalize(pl, b));
      Render(pl, Apply(Seen(pl, a), r)) == Render(pl, Apply(Seen(pl, Normalize(pl, a)), r'))
      <==> JoinsAsNormal(pl, a, b)
  {
    hide Parse, Fold, Normalize, Clean, Render, Tame, Deep, Related, Shorter, Plain, Rel, Seen, Depth;
    var r, r', x := Rel(b), Rel(Normalize(pl, b)), Seen(pl, a);
    PlainSeen(pl, a);
    SeenClean(pl, a);
    ReplayClean(x.absolute, x.stack, false, r);
    ReplayClean(x.absolute, x.stack, false, r');
    SameRoot(pl, x, Fold(x.absolute, x.stack, r), Fold(x.absolute, x.stack, r'));
    SameAfter(x.absolute, x.stack, r, r');
  }

  lemma DroppedPair(pl: Platform, a: string, r: seq<string>, r': seq<string>)
    requires Dropped(pl, a) && IsKindClean(r, r')
    ensures Render(pl, Apply(Seen(pl, a), r)) != Render(pl, Apply(Seen(pl, Normalize(pl, a)), r'))
    ensures !Mistaken(pl, a)
  {
    hide Parse, Fold, Normalize, Clean, Render;
    DroppedSeen(a);
    StackOfNothing(pl, false);
    ReplayClean(false, [], false, r);
    DroppedNever(a[..2], Fold(false, [], r), Fold(true, [], r'));
  }

  ghost predicate IsKindClean(r: seq<string>, r': seq<string>) { Clean(false, r) && Clean(false, r') }

  lemma MistakenOnWindows(pl: Platform, a: string)
    requires Mistaken(pl, a)
    ensures pl == Windows
  {
    hide Normalize;
  }

  /** When joining c to the join of the parts whose text is ab is joining all at once. */
  predicate Flattens(pl: Platform, ab: string, c: string) {
    if ab == "" then Alone(pl, c)
    else if c == "" then !(pl.Windows? && TakenForDrive(Parse(pl, ab)))
    else Plain(pl, ab) || (Mistaken(pl, ab) && Survives(Parse(pl, ab), Rel(c)))
  }

  /** join(join(a, b), c) is join(a, b, c), on either platform, if and only if the text of
      a and b flattens before c. */
  lemma JoinFlattens(pl: Platform, a: string, b: string, c: string)
    ensures JoinPaths(pl, [JoinPaths(pl, [a, b]), c]) == JoinPaths(pl, [a, b, c])
        <==> Flattens(pl, JoinText(pl, [a, b]), c)
  {
    hide *;
    var ab := JoinText(pl, [a, b]);
    JoinOfThree(pl, a, b, c);
    FlattensIs(pl, ab, c);
    NormalNotEmpty(pl, ab);
    if c == "" {
      JoinOfOne(pl, Normalize(pl, ab), c);
      JoinOfOne(pl, ab, c);
      NormalizeTwice(pl, ab);
      if ab == "" { NothingTaken(pl, c); }
    } else {
      JoinOfPair(pl, Normalize(pl, ab), c);
      RelClean(c);
      if ab == "" {
        NothingSeen(pl, Rel(c));
        JoinOfOne(pl, ab, c);
        DotThen(pl, c);
      } else {
        JoinOfPair(pl, ab, c);
        OneOfThree(pl, ab);
        if Plain(pl, ab) {
          PlainSeen(pl, ab);
        } else if Dropped(pl, ab) {
          assert IsKindClean(Rel(c), Rel(c)) by { BothClean(Rel(c), Rel(c)); }
          DroppedPair(pl, ab, Rel(c), Rel(c));
        } else {
          MistakenOnWindows(pl, ab);
          SameIsRelated(Rel(c));
          MistakenPair(ab, Rel(c), Rel(c));
        }
      }
    }
  }

  lemma BothClean(r: seq<string>, r': seq<string>)
    requires Clean(false, r) && Clean(false, r')
    ensures IsKindClean(r, r')
  {
  }

  lemma NothingTaken(pl: Platform, c: string)
    requires c == ""
    ensures Alone(pl, c) && !TakenForDrive(Parse(pl, ""))
  {
    assert Segs("") == [""];
    FoldNothing(false, []);
  }

  lemma FlattensIs(pl: Platform, ab: string, c: string)
    ensures ab == "" ==> Flattens(pl, ab, c) == Alone(pl, c)
    ensures ab != "" && c == "" ==> Flattens(pl, ab, c) == !(pl.Windows? && TakenForDrive(Parse(pl, ab)))
    ensures ab != "" && c != "" ==>
      Flattens(pl, ab, c) == (Plain(pl, ab) || (Mistaken(pl, ab) && Survives(Parse(pl, ab), Rel(c))))
  {
    hide Alone, Parse, Survives, Plain, Mistaken, TakenForDrive;
  }

  lemma JoinOfThree(pl: Platform, a: string, b: string, c: string)
    ensures var ab := JoinText(pl, [a, b]);
      JoinPaths(pl, [a, b]) == Normalize(pl, ab) && JoinPaths(pl, [a, b, c]) == JoinPaths(pl, [ab, c])
  {
    hide Normalize;
    var ab := JoinText(pl, [a, b]);
    assert [a, b, c][..2] == [a, b];
    TextOfPair(pl, ab, c);
  }

  // ----- POSIX -----

  /** On POSIX joining normal forms is joining when b does not begin with a separator,
      and when it does, exactly if a is not empty and b does not climb or a is the root
      already. */
  lemma JoinOfNormalsOnPosix(a: string, b: string)
    ensures JoinPaths(Posix, [Normalize(Posix, a), Normalize(Posix, b)]) == JoinPaths(Posix, [a, b])
        <==> (Rooted(b) ==> a != "" && (!Climbs(b) || (Rooted(a) && StackOf(a) == [])))
  {
    hide Normalize, Fold, Segs, JoinPaths, Climbs;
    JoinOfNormals(Posix, a, b);
  }

  /** And joining in two steps is joining at once, unless the first two parts are empty
      and the third begins with a separator. */
  lemma JoinFlattensOnPosix(a: string, b: string, c: string)
    ensures JoinPaths(Posix, [JoinPaths(Posix, [a, b]), c]) == JoinPaths(Posix, [a, b, c])
        <==> a != "" || b != "" || !Rooted(c)
  {
    hide Normalize, Parse, JoinPaths, Climbs, Survives;
    JoinFlattens(Posix, a, b, c);
    TextOfPair(Posix, a, b);
  }
}
