/** The first part of a join: how its normal form is read in front of more. */
module PathFirst {
  import opened PathNormal
  import opened PathLaws
  import opened PathJoin
  import opened PathSecond

  /** The normal form has a drive only if the path has one, and is a drive alone only
      if the path is. */
  predicate Plain(pl: Platform, a: string) {
    && (HasDrive(pl, Normalize(pl, a)) ==> HasDrive(pl, a))
    && (Bare(pl, Normalize(pl, a)) ==> Bare(pl, a))
  }

  /** A path on a drive, not rooted, that comes to nothing. */
  predicate Dropped(pl: Platform, a: string) {
    HasDrive(pl, a) && Bare(pl, Normalize(pl, a)) && !Bare(pl, a)
  }

  /** A path without a drive that has one once it is normalized. */
  predicate Mistaken(pl: Platform, a: string) { HasDrive(pl, Normalize(pl, a)) && !HasDrive(pl, a) }

  lemma OneOfThree(pl: Platform, a: string)
    ensures Plain(pl, a) || Dropped(pl, a) || Mistaken(pl, a)
    ensures Plain(pl, a) ==> !Dropped(pl, a) && !Mistaken(pl, a)
  {
    hide Normalize;
  }

  lemma PlainSeen(pl: Platform, a: string)
    requires Plain(pl, a)
    ensures Seen(pl, Normalize(pl, a)) == Seen(pl, a)
  {
    hide Segs, JoinSep, Fold, Clean;
    ParseClean(pl, a);
    ParseOfRender(pl, Parse(pl, a));
    if Bare(pl, a) {
      FoldNothing(false, []);
      assert Body(pl, a) == "";
      JoinOne(pl, a);
      assert Parse(pl, a) == Path(a, false, []);
      assert a + "" + "" == a;
    }
  }

  lemma DroppedSeen(a: string)
    requires Dropped(Windows, a)
    ensures Seen(Windows, a) == Path(a[..2], false, [])
    ensures Seen(Windows, Normalize(Windows, a)) == Path(a[..2], true, []) && Normalize(Windows, a) == a[..2]
  {
    hide Segs, JoinSep, Fold, Clean;
    ParseClean(Windows, a);
    var path := Parse(Windows, a);
    BodyStarts(Windows, path.absolute, path.stack);
    assert path.drive == a[..2];
    assert Normalize(Windows, a) == path.drive + ((if path.absolute then "\\" else "") + JoinSep(Windows, path.stack));
  }

  /** Behind the drive one text has a separator and the other has none. */
  lemma DroppedNever(d: string, s: seq<string>, t: seq<string>)
    requires |d| == 2 && Clean(false, s)
    ensures Render(Windows, Path(d, false, s)) != Render(Windows, Path(d, true, t))
  {
    hide JoinSep, Clean;
    BodyStarts(Windows, false, s);
    var x, y := Render(Windows, Path(d, false, s)), Render(Windows, Path(d, true, t));
    assert y == d + (['\\'] + JoinSep(Windows, t)) && y[2] == '\\';
    assert x == d + JoinSep(Windows, s);
    if s != [] { assert x[2] == JoinSep(Windows, s)[0]; }
  }

  // ----- a first part mistaken for one on a drive -----

  /** What a segment in front and a stack read behind it come to, written out. */
  function Merged(q: string, rooted: bool, stack: seq<string>): seq<string> {
    if rooted then [q] + stack else if stack == [] then [q] else [q + stack[0]] + stack[1..]
  }

  lemma SeenMistaken(drive: string, first: string, rest: seq<string>)
    requires |drive| == 2 && drive[1] == ':' && NoSep(first) && Clean(true, rest)
    ensures Seen(Windows, drive + JoinSep(Windows, [first] + rest))
         == Path(drive, first == "", if first == "" || first == "." then rest else [first] + rest)
  {
    hide Fold, Segs, JoinSep, Clean;
    var out := drive + JoinSep(Windows, [first] + rest);
    JoinFront(Windows, first, rest);
    assert Drive(Windows, out) == drive;
    BodyStarts(Windows, true, rest);
    FoldOfJoin(Windows, true, rest);
    if first == "" {
      if rest != [] { assert Body(Windows, out) == JoinSep(Windows, rest); }
    } else {
      assert !Absolute(Windows, out) && Body(Windows, out) == JoinSep(Windows, [first] + rest);
      RelativeBody(first, rest);
    }
  }

  lemma MergedText(root: string, q: string, rooted: bool, stack: seq<string>)
    requires rooted ==> stack != []
    ensures root + q + ((if rooted then "\\" else "") + JoinSep(Windows, stack))
         == root + JoinSep(Windows, Merged(q, rooted, stack))
  {
    hide JoinSep;
    var js := JoinSep(Windows, stack);
    if rooted {
      JoinFront(Windows, q, stack);
      assert root + q + ("\\" + js) == root + (q + ("\\" + js));
    } else if stack == [] {
      JoinOne(Windows, q);
      assert root + q + ("" + "") == root + q;
    } else {
      assert stack == [stack[0]] + stack[1..];
      JoinFront(Windows, stack[0], stack[1..]);
      JoinFront(Windows, q + stack[0], stack[1..]);
      var tail := if stack[1..] == [] then "" else "\\" + JoinSep(Windows, stack[1..]);
      assert root + q + ("" + (stack[0] + tail)) == root + (q + stack[0] + tail);
    }
  }

  lemma MergedNoSep(q: string, rooted: bool, stack: seq<string>)
    requires NoSep(q) && AllNoSep(stack)
    ensures Merged(q, rooted, stack) != [] && AllNoSep(Merged(q, rooted, stack))
  {
    if !rooted && stack != [] {
      var x := q + stack[0];
      assert NoSep(stack[0]);
      forall i | 0 <= i < |x|
        ensures !IsSep(x[i])
      {
        if i >= |q| { assert x[i] == stack[0][i - |q|]; }
      }
    }
  }

  /** The two texts are the same exactly if what is merged is the stack of the one. */
  lemma TextsMeet(root: string, q: string, x: Path, y: Path)
    requires x.drive == "" && y.drive == root + q && |y.drive| == 2 && root == (if x.absolute then "\\" else "")
    requires Leads(q) && Clean(x.absolute, x.stack) && Clean(y.absolute, y.stack)
    ensures Render(Windows, x) == Render(Windows, y)
        <==> (y.absolute ==> y.stack != []) && x.stack == Merged(q, y.absolute, y.stack)
  {
    hide JoinSep, Clean, Segs;
    var jx, jy := JoinSep(Windows, x.stack), JoinSep(Windows, y.stack);
    CleanNoSep(x.absolute, x.stack);
    CleanNoSep(y.absolute, y.stack);
    BodyStarts(Windows, x.absolute, x.stack);
    LeadNoSep(q);
    MergedNoSep(q, y.absolute, y.stack);
    var m := Merged(q, y.absolute, y.stack);
    assert Render(Windows, y) == root + q + ((if y.absolute then "\\" else "") + jy);
    if x.stack == [] {
      assert |Render(Windows, x)| <= 1;
    } else {
      assert Render(Windows, x) == root + jx;
      if y.absolute && y.stack == [] {
        JoinOne(Windows, q);
        EndsInSep(q, x.absolute, x.stack);
        assert root + q + ("\\" + "") == root + (q + "\\");
        Behind(root, jx, q + "\\");
      } else {
        MergedText(root, q, y.absolute, y.stack);
        Behind(root, jx, JoinSep(Windows, m));
        if jx == JoinSep(Windows, m) { JoinInjective(Windows, x.stack, m); }
      }
    }
  }

  lemma LeadNoSep(q: string)
    requires Leads(q)
    ensures NoSep(q)
  {
    assert !IsSep(':');
  }

  lemma Behind<T>(front: seq<T>, s: seq<T>, t: seq<T>)
    ensures front + s == front + t <==> s == t
  {
    assert (front + s)[|front|..] == s && (front + t)[|front|..] == t;
  }

  /** No clean stack is written with a separator at its end. */
  lemma EndsInSep(q: string, absolute: bool, stack: seq<string>)
    requires NoSep(q) && Clean(absolute, stack) && stack != []
    ensures JoinSep(Windows, stack) != q + "\\"
  {
    hide JoinSep, Clean, Segs;
    CleanNoSep(absolute, stack);
    SegsOfJoin(Windows, stack);
    assert q + "\\" == q + ['\\'] + "";
    SegsConcat(q, '\\', "");
    OneSeg(q);
    OneSeg("");
    if JoinSep(Windows, stack) == q + "\\" {
      assert stack == [q] + [""] && stack[1] == "";
      SecondIsName(absolute, stack);
    }
  }

  lemma SecondIsName(absolute: bool, stack: seq<string>)
    requires Clean(absolute, stack) && |stack| > 1
    ensures stack[1] != ""
  {
    assert Name(stack[1]);
  }

  // ----- the stacks on both sides -----

  /** Climbing less than there are names takes names off. */
  lemma {:induction false} TakeOff(absolute: bool, front: seq<string>, names: seq<string>, ups: seq<string>)
    requires Downs(names) && Ups(ups) && |ups| <= |names|
    ensures Fold(absolute, front + names, ups) == front + names[..|names| - |ups|]
    decreases |ups|
  {
    if ups == [] {
      assert names[..|names|] == names;
    } else {
      var init := names[..|names| - 1];
      assert (front + names)[|front + names| - 1] == names[|names| - 1];
      assert (front + names)[..|front + names| - 1] == front + init;
      TakeOff(absolute, front, init, ups[1..]);
      assert init[..|init| - |ups[1..]|] == names[..|names| - |ups|];
    }
  }

  /** What is left behind x of the names, and the names r brings. */
  function Rest(names: seq<string>, r: seq<string>): seq<string>
    requires Climb(r) <= |names|
  {
    names[..|names| - Climb(r)] + Tail(r)
  }

  lemma FoldKeepsFront(absolute: bool, front: seq<string>, names: seq<string>, r: seq<string>)
    requires Downs(names) && Clean(false, r) && Climb(r) <= |names|
    ensures Fold(absolute, front + names, r) == front + Rest(names, r)
  {
    hide Fold, Downs, Ups, Clean;
    Parts(r);
    FoldParts(absolute, front + names, r);
    TakeOff(absolute, front, names, r[..Climb(r)]);
    assert front + names[..|names| - Climb(r)] + Tail(r) == front + Rest(names, r);
  }

  /** Climbing past all names leaves the climbs over, or under a root nothing. */
  lemma FoldPast(absolute: bool, names: seq<string>, r: seq<string>)
    requires Downs(names) && Clean(false, r) && Climb(r) > |names|
    ensures Fold(absolute, names, r) == (if absolute then [] else r[|names|..Climb(r)]) + Tail(r)
    ensures Ups(r[|names|..Climb(r)])
  {
    hide Fold, Downs, Ups, Clean;
    Parts(r);
    FoldParts(absolute, names, r);
    var ups := r[..Climb(r)];
    var near, far := ups[..|names|], ups[|names|..];
    assert ups == near + far && far == r[|names|..Climb(r)];
    UpsParts(ups, |names|);
    FoldConcat(absolute, names, near, far);
    TakeOff(absolute, [], names, near);
    assert [] + names == names && [] + names[..0] == [];
    if absolute {
      RootStops(far);
    } else {
      UpsClean(far);
      assert [] + far == far;
      FoldOfClean(false, [], far);
    }
  }

  lemma UpsParts(ups: seq<string>, n: nat)
    requires Ups(ups) && n <= |ups|
    ensures Ups(ups[..n]) && Ups(ups[n..])
  {
  }

  /** The first part's names stay in front. */
  lemma MergedWhenKept(absolute: bool, q: string, f: string, rest: seq<string>, r: seq<string>, r': seq<string>)
    requires Leads(q) && NoSep(f) && Clean(true, rest)
    requires Clean(false, r) && Clean(false, r') && Related(r, r') && Climb(r) <= |rest|
    ensures var rooted := f == "";
            var read := if f == "" || f == "." then rest else [f] + rest;
      Fold(absolute, [q + f] + rest, r) == Merged(q, rooted, Fold(rooted, read, r')) <==> r == r' && f != "."
  {
    hide Fold, Clean, Leads, Climb, Related, Rest;
    CleanIsDowns(rest);
    FoldKeepsFront(absolute, [q + f], rest, r);
    var kept := [q + f] + Rest(rest, r);
    if f == "" {
      assert q + "" == q;
      assert [] + rest == rest;
      FoldKeepsFront(true, [], rest, r);
      assert [] + Rest(rest, r) == Rest(rest, r);
      RelatedUnderMore(true, rest, r, r', |rest|);
      Behind([q], Rest(rest, r), Fold(true, rest, r'));
    } else if f == "." {
      assert Clean(false, Fold(false, rest, r')) by {
        RootedIsClean(rest);
        ReplayClean(false, rest, false, r');
      }
      DotIsNotMerged(q, Fold(false, rest, r'), kept);
    } else {
      FoldKeepsFront(false, [f], rest, r);
      LedIsName(q, f);
      assert Clean(false, [f] + rest) by { FrontClean(f, rest); }
      RelatedUnderMore(false, [f] + rest, r, r', |rest| + 1);
      MergedIsFront(q, f, Rest(rest, r), Fold(false, [f] + rest, r'));
    }
  }

  lemma CleanIsDowns(stack: seq<string>)
    requires Clean(true, stack)
    ensures Downs(stack)
  {
  }

  lemma RootedIsClean(stack: seq<string>)
    requires Clean(true, stack)
    ensures Clean(false, stack)
  {
  }

  lemma FrontClean(f: string, rest: seq<string>)
    requires NoSep(f) && f != "" && f != "." && Clean(true, rest)
    ensures Clean(false, [f] + rest)
  {
    var s := [f] + rest;
    forall i | 0 <= i < |s|
      ensures Name(s[i]) && Placed(s, i)
    {
      if i > 0 { RootedNames(rest, i - 1); }
    }
  }

  lemma RelatedUnderMore(absolute: bool, under: seq<string>, r: seq<string>, r': seq<string>, n: nat)
    requires Clean(absolute, under) && Clean(false, r) && Clean(false, r') && Related(r, r')
    requires absolute ==> Climb(r) <= |under|
    ensures Fold(absolute, under, r) == Fold(absolute, under, r') <==> r == r'
  {
    hide Fold, Clean, Related;
    SameAfter(absolute, under, r, r');
    if Shorter(r, r') { assert Climb(r') < Climb(r); }
  }

  lemma DotIsNotMerged(q: string, stack: seq<string>, kept: seq<string>)
    requires Clean(false, stack) && kept != [] && kept[0] == q + "."
    ensures kept != Merged(q, false, stack)
  {
    NotTheSame(q, ".", "");
    assert q + "" == q;
    if stack != [] {
      FirstIsName(false, stack);
      NotTheSame(q, ".", stack[0]);
    }
  }

  lemma MergedIsFront(q: string, f: string, behind: seq<string>, stack: seq<string>)
    requires q + f != q
    ensures [q + f] + behind == Merged(q, false, stack) <==> [f] + behind == stack
  {
    if stack != [] {
      if f != stack[0] { NotTheSame(q, f, stack[0]); }
      assert stack == [stack[0]] + stack[1..];
      Behind([q + f], behind, stack[1..]);
      assert ([q + f] + behind)[0] == q + f && ([f] + behind)[0] == f;
      Behind([f], behind, stack[1..]);
    } else {
      assert ([q + f] + behind)[0] == q + f;
    }
  }

  /** The names in front are climbed past: what is left is never what is merged. */
  lemma MergedWhenPast(absolute: bool, q: string, f: string, rest: seq<string>, r: seq<string>, r': seq<string>)
    requires Leads(q) && NoSep(f) && Clean(true, rest)
    requires Clean(false, r) && Clean(false, r') && Related(r, r') && Climb(r) > |rest|
    ensures var rooted := f == "";
            var read := if f == "" || f == "." then rest else [f] + rest;
      Fold(absolute, [q + f] + rest, r) != Merged(q, rooted, Fold(rooted, read, r'))
  {
    hide Fold, Clean, Leads, Climb, Tail, Related;
    var x := [q + f] + rest;
    var rooted := f == "";
    var read := if f == "" || f == "." then rest else [f] + rest;
    LedIsName(q, f);
    CleanIsDowns(rest);
    NamesInFront(q + f, rest);
    var left := Fold(absolute, x, r);
    var g := Fold(rooted, read, r');
    assert Clean(rooted, read) by {
      if f != "" && f != "." { FrontClean(f, rest); } else { RootedIsClean(rest); }
    }
    assert Clean(rooted, g) by { ReplayClean(rooted, read, false, r'); }
    FoldParts(rooted, read, r');
    Enough(r, r');
    if Climb(r) > |x| {
      FoldPast(absolute, x, r);
      PastIsNotMerged(absolute, q, rooted, g, r[|x|..Climb(r)], r, r', left);
    } else {
      FoldKeepsFront(absolute, [], x, r);
      assert [] + x == x && left == Tail(r) by { NothingKept(x, r); }
      PastIsNotMerged(true, q, rooted, g, [], r, r', left);
    }
  }

  lemma NamesInFront(x: string, rest: seq<string>)
    requires Name(x) && x != ".." && Downs(rest)
    ensures Downs([x] + rest)
  {
  }

  lemma NothingKept(x: seq<string>, r: seq<string>)
    requires Climb(r) == |x|
    ensures [] + Rest(x, r) == Tail(r)
  {
    assert x[..0] == [];
  }

  /** If r climbs, r' brings its names or more. */
  lemma Enough(r: seq<string>, r': seq<string>)
    requires Related(r, r') && Climb(r) > 0
    ensures |Tail(r')| > |Tail(r)| || Tail(r') == Tail(r)
  {
  }

  lemma PastIsNotMerged(absolute: bool, q: string, rooted: bool, g: seq<string>, far: seq<string>,
                        r: seq<string>, r': seq<string>, left: seq<string>)
    requires Leads(q) && Ups(far) && Clean(rooted, g) && left == (if absolute then [] else far) + Tail(r)
    requires |g| >= |Tail(r')| && g[|g| - |Tail(r')|..] == Tail(r')
    requires |Tail(r')| > |Tail(r)| || Tail(r') == Tail(r)
    ensures left != Merged(q, rooted, g)
  {
    hide Clean, Leads, Climb, Tail;
    var m := Merged(q, rooted, g);
    if !absolute && far != [] {
      assert left[0] == "..";
      MergedStarts(q, rooted, g);
    } else {
      assert [] + Tail(r) == Tail(r) && left == Tail(r);
      if !rooted && g != [] && |g| == |Tail(r)| {
        assert g == Tail(r);
        Longer(q, g[0]);
        assert m[0] == q + g[0];
      }
    }
  }

  lemma MergedStarts(q: string, rooted: bool, stack: seq<string>)
    requires Leads(q) && Clean(rooted, stack)
    ensures var m := Merged(q, rooted, stack); m != [] && m[0] != ".."
  {
    hide Clean, Leads;
    LedIsName(q, "");
    assert q + "" == q;
    if stack != [] {
      FirstIsName(rooted, stack);
      LedIsName(q, stack[0]);
    }
  }
}
