/** path.join and path.normalize together, on both platforms. A stack splits into the
    ".." at its front and the names behind them; a second part may hold a drive that
    joining makes a plain segment; and a first part may, once normalized, be read as
    having a drive.
 */
module PathJoin {
  import opened PathNormal
  import opened PathLaws

  // ----- climbs and names -----

  /** How many ".." a stack starts with. */
  function Climb(stack: seq<string>): (k: nat)
    ensures k <= |stack|
  {
    if stack == [] || stack[0] != ".." then 0 else 1 + Climb(stack[1..])
  }

  function Tail(stack: seq<string>): seq<string> { stack[Climb(stack)..] }

  lemma {:induction false} ClimbIs(ups: seq<string>, downs: seq<string>)
    requires Ups(ups) && Downs(downs)
    ensures Climb(ups + downs) == |ups|
    decreases |ups|
  {
    if ups == [] {
      assert ups + downs == downs;
    } else {
      assert (ups + downs)[1..] == ups[1..] + downs;
      ClimbIs(ups[1..], downs);
    }
  }

  lemma Parts(stack: seq<string>)
    requires Clean(false, stack)
    ensures Ups(stack[..Climb(stack)]) && Downs(Tail(stack)) && stack == stack[..Climb(stack)] + Tail(stack)
  {
    var ups, downs := UpsThenDowns(stack);
    ClimbIs(ups, downs);
    assert (ups + downs)[..|ups|] == ups && (ups + downs)[|ups|..] == downs;
  }

  lemma FoldParts(absolute: bool, under: seq<string>, stack: seq<string>)
    requires Clean(false, stack)
    ensures Fold(absolute, under, stack) == Fold(absolute, under, stack[..Climb(stack)]) + Tail(stack)
  {
    hide *;
    Parts(stack);
    FoldConcat(absolute, under, stack[..Climb(stack)], Tail(stack));
    FoldDowns(absolute, Fold(absolute, under, stack[..Climb(stack)]), Tail(stack));
  }

  lemma {:induction false} HeightMore(under: seq<string>, downs: seq<string>)
    requires Downs(downs)
    ensures Height(under + downs) == Height(under) + |downs|
    decreases |downs|
  {
    if downs == [] {
      assert under + downs == under;
    } else {
      var init := downs[..|downs| - 1];
      assert (under + downs)[..|under + downs| - 1] == under + init;
      HeightMore(under, init);
    }
  }

  /** Under a root, climbing takes names off until there are none. */
  lemma {:induction false} RootClimb(under: seq<string>, ups: seq<string>)
    requires Clean(true, under) && Ups(ups)
    ensures Fold(true, under, ups) == under[..if |ups| <= |under| then |under| - |ups| else 0]
    decreases |ups|
  {
    hide Clean;
    if ups == [] {
      assert under[..|under|] == under;
    } else if under == [] {
      RootStops(ups);
    } else {
      LastIsName(true, under);
      assert under[|under| - 1] != ".." by { RootedNames(under, |under| - 1); }
      InitClean(true, under);
      RootClimb(under[..|under| - 1], ups[1..]);
    }
  }

  lemma RootedNames(under: seq<string>, i: nat)
    requires Clean(true, under) && i < |under|
    ensures Name(under[i]) && under[i] != ".."
  {
  }

  lemma {:induction false} SameUps(a: seq<string>, b: seq<string>)
    requires Ups(a) && Ups(b) && |a| <= |b|
    ensures b[..|a|] == a && Ups(b[|a|..])
  {
  }

  // ----- two stacks applied to one -----

  /** The same names behind fewer climbs. */
  predicate Shorter(r: seq<string>, r': seq<string>) { Climb(r') < Climb(r) && Tail(r') == Tail(r) }

  /** No climbs and more names, or other ones. */
  predicate Other(r: seq<string>, r': seq<string>) {
    Climb(r') == 0 && ((Climb(r) == 0 && r != r') || |Tail(r')| > |Tail(r)|)
  }

  predicate Related(r: seq<string>, r': seq<string>) { r == r' || Shorter(r, r') || Other(r, r') }

  lemma SameUnderShorter(absolute: bool, under: seq<string>, r: seq<string>, r': seq<string>)
    requires Clean(absolute, under) && Clean(false, r) && Clean(false, r') && Shorter(r, r')
    ensures Fold(absolute, under, r) == Fold(absolute, under, r') <==> absolute && |under| <= Climb(r')
  {
    hide Clean, Fold, Ups, Downs;
    var ups, ups' := r[..Climb(r)], r'[..Climb(r')];
    Parts(r);
    Parts(r');
    SameUps(ups', ups);
    var more := ups[|ups'|..];
    assert ups == ups' + more && more != [];
    var mid := Fold(absolute, under, ups');
    FoldParts(absolute, under, r);
    FoldParts(absolute, under, r');
    FoldConcat(absolute, under, ups', more);
    assert Clean(absolute, mid) by {
      UpsClean(ups');
      ReplayClean(absolute, under, false, ups');
    }
    SameTail(Fold(absolute, mid, more), mid, Tail(r));
    ClimbingLowers(absolute, mid, more);
    if absolute {
      RootClimb(under, ups');
      if mid == [] { RootStops(more); }
    }
  }

  lemma UpsClean(ups: seq<string>)
    requires Ups(ups)
    ensures Clean(false, ups)
  {
    assert Name("..");
  }

  lemma DifferUnderOther(absolute: bool, under: seq<string>, r: seq<string>, r': seq<string>)
    requires Clean(absolute, under) && Clean(false, r) && Clean(false, r') && Other(r, r')
    ensures Fold(absolute, under, r) != Fold(absolute, under, r')
  {
    hide Clean, Fold, Ups, Downs;
    var ups := r[..Climb(r)];
    Parts(r);
    Parts(r');
    FoldParts(absolute, under, r);
    FoldParts(absolute, under, r');
    assert r'[..0] == [] && Tail(r') == r';
    FoldEmpty(absolute, under);
    var mid := Fold(absolute, under, ups);
    if Climb(r) == 0 {
      assert ups == [] && Tail(r) == r;
      assert under == (under + r)[..|under|];
      assert r == (under + r)[|under|..] && r' == (under + r')[|under|..];
    } else {
      ClimbingLowers(absolute, under, ups);
      HeightMore(mid, Tail(r));
      HeightMore(under, Tail(r'));
    }
  }

  lemma SameAfter(absolute: bool, under: seq<string>, r: seq<string>, r': seq<string>)
    requires Clean(absolute, under) && Clean(false, r) && Clean(false, r') && Related(r, r')
    ensures Fold(absolute, under, r) == Fold(absolute, under, r')
        <==> r == r' || (Shorter(r, r') && absolute && |under| <= Climb(r'))
  {
    hide Clean, Fold;
    if Shorter(r, r') {
      SameUnderShorter(absolute, under, r, r');
    } else if Other(r, r') {
      DifferUnderOther(absolute, under, r, r');
    }
  }

  // ----- one path in front of another -----

  predicate Bare(pl: Platform, x: string) { pl.Windows? && |x| == 2 && x[1] == ':' }

  /** How a path is read in front of a separator: a drive alone becomes its root. */
  function Seen(pl: Platform, x: string): Path { if Bare(pl, x) then Path(x, true, []) else Parse(pl, x) }

  function Apply(path: Path, segs: seq<string>): Path { path.(stack := Fold(path.absolute, path.stack, segs)) }

  /** A path's segments reduced on their own. */
  function Rel(x: string): seq<string> { Fold(false, [], Segs(x)) }

  lemma SeenClean(pl: Platform, x: string)
    ensures Clean(Seen(pl, x).absolute, Seen(pl, x).stack)
  {
    ParseClean(pl, x);
  }

  lemma RelClean(x: string)
    ensures Clean(false, Rel(x))
  {
    FoldKeepsClean(false, [], x);
  }

  /** Only the reduced segments matter. */
  lemma RelIsEnough(absolute: bool, under: seq<string>, x: string)
    ensures Fold(absolute, under, Segs(x)) == Fold(absolute, under, Rel(x))
  {
    hide Segs;
    SegsNoSep(x);
    FoldEmpty(absolute, under);
    Replay(absolute, under, [], Segs(x));
  }

  lemma SeenBehind(pl: Platform, a: string, b: string)
    requires a != ""
    ensures Parse(pl, a + [Sep(pl)] + b) == Apply(Seen(pl, a), Segs(b))
  {
    hide Segs, Fold;
    var text := a + [Sep(pl)] + b;
    assert Drive(pl, text) == Drive(pl, a);
    if Bare(pl, a) {
      assert Body(pl, text) == b;
    } else {
      assert Absolute(pl, text) == Absolute(pl, a);
      assert Body(pl, text) == Body(pl, a) + [Sep(pl)] + b;
      SegsConcat(Body(pl, a), Sep(pl), b);
      FoldConcat(Absolute(pl, a), [], Segs(Body(pl, a)), Segs(b));
    }
  }

  lemma TextOfPair(pl: Platform, a: string, b: string)
    ensures JoinText(pl, [a, b]) == if b == "" then a else if a == "" then b else a + [Sep(pl)] + b
  {
    assert [a, b][..1] == [a] && [a][..0] == [];
    assert JoinText(pl, [a]) == a;
  }

  lemma JoinOfPair(pl: Platform, a: string, b: string)
    requires a != "" && b != ""
    ensures JoinPaths(pl, [a, b]) == Render(pl, Apply(Seen(pl, a), Rel(b)))
  {
    hide Segs, Fold, Render, Parse;
    TextOfPair(pl, a, b);
    SeenBehind(pl, a, b);
    RelIsEnough(Seen(pl, a).absolute, Seen(pl, a).stack, b);
  }

  lemma NormalNotEmpty(pl: Platform, x: string)
    ensures Normalize(pl, x) != ""
  {
    hide Parse, JoinSep;
  }

  lemma JoinOfNormalPair(pl: Platform, a: string, b: string)
    ensures JoinPaths(pl, [Normalize(pl, a), Normalize(pl, b)])
         == Render(pl, Apply(Seen(pl, Normalize(pl, a)), Rel(Normalize(pl, b))))
  {
    hide *;
    NormalNotEmpty(pl, a);
    NormalNotEmpty(pl, b);
    JoinOfPair(pl, Normalize(pl, a), Normalize(pl, b));
  }

  // ----- texts and stacks -----

  lemma JoinInjective(pl: Platform, s: seq<string>, t: seq<string>)
    requires AllNoSep(s) && AllNoSep(t) && s != [] && t != [] && JoinSep(pl, s) == JoinSep(pl, t)
    ensures s == t
  {
    hide JoinSep, Segs;
    SegsOfJoin(pl, s);
    SegsOfJoin(pl, t);
  }

  lemma CleanNoSep(absolute: bool, stack: seq<string>)
    requires Clean(absolute, stack)
    ensures AllNoSep(stack)
  {
    forall i | 0 <= i < |stack|
      ensures NoSep(stack[i])
    {
      assert Name(stack[i]);
    }
  }

  /** Behind one root, texts are equal exactly if the stacks are. */
  lemma SameRoot(pl: Platform, path: Path, s: seq<string>, t: seq<string>)
    requires Clean(path.absolute, s) && Clean(path.absolute, t)
    ensures Render(pl, path.(stack := s)) == Render(pl, path.(stack := t)) <==> s == t
  {
    hide JoinSep, Clean;
    var root := Root(pl, path);
    var js, jt := JoinSep(pl, s), JoinSep(pl, t);
    BodyStarts(pl, path.absolute, s);
    BodyStarts(pl, path.absolute, t);
    CleanNoSep(path.absolute, s);
    CleanNoSep(path.absolute, t);
    NotDot(pl, path.absolute, s);
    NotDot(pl, path.absolute, t);
    if Render(pl, path.(stack := s)) == Render(pl, path.(stack := t)) {
      if root + js != "" && root + jt != "" {
        assert js == (root + js)[|root|..] && jt == (root + jt)[|root|..];
      }
      assert js == jt;
      if s != [] { JoinInjective(pl, s, t); }
    }
  }

  /** "." stands for nothing only. */
  lemma NotDot(pl: Platform, absolute: bool, stack: seq<string>)
    requires Clean(absolute, stack)
    ensures JoinSep(pl, stack) != "."
  {
    hide JoinSep, Clean;
    CleanNoSep(absolute, stack);
    JoinOne(pl, ".");
    assert NoSep(".");
    if stack != [] {
      FirstIsName(absolute, stack);
      if JoinSep(pl, stack) == "." { JoinInjective(pl, stack, ["."]); }
    }
  }

  lemma FirstIsName(absolute: bool, stack: seq<string>)
    requires Clean(absolute, stack) && stack != []
    ensures Name(stack[0])
  {
  }
}
