/** The second part of a join: what its normal form does to the segments it brings. */
module PathSecond {
  import opened PathNormal
  import opened PathLaws
  import opened PathJoin

  // ----- a drive in front of segments -----

  /** What is left of a drive as part of a segment: a separator in it ends one. */
  function Lead(d: string): string
    requires |d| == 2
  {
    if IsSep(d[0]) then d[1..] else d
  }

  /** No segment that starts with it is "", "." or "..". */
  predicate Leads(q: string) { q == ":" || (|q| == 2 && !IsSep(q[0]) && q[1] == ':') }

  lemma LeadLeads(d: string)
    requires |d| == 2 && d[1] == ':'
    ensures Leads(Lead(d))
  {
    assert !IsSep(':');
    if IsSep(d[0]) { assert d[1..] == ":"; }
  }

  lemma LedIsName(q: string, s: string)
    requires Leads(q) && NoSep(s)
    ensures Name(q + s) && q + s != ".." && (s != "" ==> q + s != q)
  {
    assert !IsSep(':');
    forall i | 0 <= i < |q + s|
      ensures !IsSep((q + s)[i])
    {
      if i >= |q| { assert (q + s)[i] == s[i - |q|]; }
    }
    assert (q + s)[|q| - 1] == ':';
  }

  lemma FirstSepBehind(p: string, t: string)
    requires NoSep(p)
    ensures FirstSep(p + t) == |p| + FirstSep(t)
  {
    hide IsSep;
    var k, s := FirstSep(t), p + t;
    assert s[..|p| + k] == p + t[..k];
    FirstSepIs(s, |p| + k);
  }

  lemma SegsPrefix(p: string, t: string)
    requires NoSep(p)
    ensures Segs(t) != [] && Segs(p + t) == [p + Segs(t)[0]] + Segs(t)[1..]
  {
    hide *;
    var k, s := FirstSep(t), p + t;
    FirstSepBehind(p, t);
    SegsOnce(s);
    SegsOnce(t);
    if k < |t| {
      assert s[..|p| + k] == p + t[..k] && s[|p| + k + 1..] == t[k + 1..];
      assert Segs(t)[1..] == Segs(t[k + 1..]);
    }
  }

  /** A text behind a drive, as segments of a joined path. */
  lemma RelOfDriven(d: string, t: string)
    requires |d| == 2 && d[1] == ':'
    ensures Segs(t) != [] && Rel(d + t) == Fold(false, [Lead(d) + Segs(t)[0]], Segs(t)[1..])
  {
    hide Segs;
    var q := Lead(d);
    LeadLeads(d);
    SegsNoSep(t);
    assert NoSep(q) by { assert !IsSep(':'); }
    SegsPrefix(q, t);
    var first, rest := q + Segs(t)[0], Segs(t)[1..];
    LedIsName(q, Segs(t)[0]);
    assert ([first] + rest)[1..] == rest && Reduce(false, [], first) == [first];
    if IsSep(d[0]) {
      assert d + t == "" + [d[0]] + (q + t);
      SegsConcat("", d[0], q + t);
      FoldConcat(false, [], Segs(""), Segs(q + t));
      FoldNothing(false, []);
    }
  }

  /** A name and then a clean relative stack. */
  lemma FoldBehindName(x: string, stack: seq<string>)
    requires Name(x) && x != ".." && Clean(false, stack)
    ensures Fold(false, [x], stack) == if Climb(stack) == 0 then [x] + stack else stack[1..]
    ensures Climb(stack) > 0 ==> stack != [] && Clean(false, stack[1..])
  {
    hide Clean, Ups, Downs;
    if Climb(stack) == 0 {
      Parts(stack);
      assert stack[..0] == [] && Tail(stack) == stack;
      FoldDowns(false, [x], stack);
    } else {
      RestClean(stack);
      assert Reduce(false, [x], "..") == [];
      assert [] + stack[1..] == stack[1..];
      FoldOfClean(false, [], stack[1..]);
    }
  }

  lemma RestClean(stack: seq<string>)
    requires Clean(false, stack) && stack != [] && stack[0] == ".."
    ensures Clean(false, stack[1..])
  {
    var rest := stack[1..];
    forall i | 0 <= i < |rest|
      ensures Name(rest[i]) && Placed(rest, i)
    {
      assert rest[i] == stack[i + 1] && Placed(stack, i + 1);
    }
  }

  lemma ClimbTail(stack: seq<string>)
    requires Climb(stack) > 0
    ensures stack != [] && Climb(stack[1..]) == Climb(stack) - 1 && Tail(stack[1..]) == Tail(stack)
  {
  }

  lemma NameInFront(x: string, stack: seq<string>)
    requires x != ".."
    ensures Climb([x] + stack) == 0 && Tail([x] + stack) == [x] + stack
  {
  }

  /** The relative stack of a text's segments, first one led. */
  lemma RelBehindLead(x: string, segs: seq<string>)
    requires Name(x) && x != ".." && AllNoSep(segs)
    ensures Fold(false, [x], segs) == Fold(false, [x], Fold(false, [], segs))
    ensures Clean(false, Fold(false, [], segs))
  {
    FoldEmpty(false, [x]);
    Replay(false, [x], [], segs);
    FoldClean(segs);
  }

  lemma {:induction false} FoldClean(segs: seq<string>)
    requires AllNoSep(segs)
    ensures Clean(false, Fold(false, [], segs))
  {
    FoldCleanFrom([], segs);
  }

  lemma {:induction false} FoldCleanFrom(under: seq<string>, segs: seq<string>)
    requires Clean(false, under) && AllNoSep(segs)
    ensures Clean(false, Fold(false, under, segs))
    decreases |segs|
  {
    hide Clean, Reduce;
    if segs != [] {
      ReduceClean(false, under, segs[0]);
      FoldCleanFrom(Reduce(false, under, segs[0]), segs[1..]);
    }
  }

  // ----- a normal form behind a drive -----

  /** What a drive and a stack written behind it bring. */
  function Brought(q: string, stack: seq<string>): seq<string> {
    if stack == [] then [q] else Fold(false, [q + stack[0]], stack[1..])
  }

  lemma BroughtIs(q: string, stack: seq<string>)
    requires Leads(q) && Clean(false, stack)
    ensures var r := Brought(q, stack);
      && (stack == [] ==> r == [q] && Climb(r) == 0)
      && (stack != [] && Climb(stack) <= 1 ==> r == [q + stack[0]] + stack[1..] && Climb(r) == 0)
      && (Climb(stack) >= 2 ==> r == stack[2..] && Climb(r) == Climb(stack) - 2 && Tail(r) == Tail(stack))
    ensures Climb(stack) == 1 ==> stack != [] && stack[1..] == Tail(stack)
  {
    hide Clean;
    LedIsName(q, "");
    assert q + "" == q;
    if stack == [] {
      NameInFront(q, []);
      assert [q] + [] == [q];
    } else {
      RestOfClean(stack);
      assert NoSep(stack[0]) by { FirstIsName(false, stack); }
      LedIsName(q, stack[0]);
      var rest := stack[1..];
      FoldBehindName(q + stack[0], rest);
      NameInFront(q + stack[0], rest);
      if Climb(stack) == 0 { RestDoesNotClimb(stack); } else { ClimbTail(stack); }
      if Climb(stack) >= 2 {
        ClimbTail(rest);
        assert rest[1..] == stack[2..];
      }
    }
  }

  lemma RestOfClean(stack: seq<string>)
    requires Clean(false, stack) && stack != []
    ensures Clean(false, stack[1..])
  {
    if stack[0] == ".." {
      RestClean(stack);
    } else {
      NoClimbBehind(stack);
    }
  }

  lemma NoClimbBehind(stack: seq<string>)
    requires Clean(false, stack) && stack != [] && stack[0] != ".."
    ensures Clean(false, stack[1..])
  {
    assert stack == [stack[0]] + stack[1..];
    NoClimb(false, stack[0], stack[1..]);
    var rest := stack[1..];
    assert forall i :: 0 <= i < |rest| ==> Placed(rest, i);
  }

  lemma RestDoesNotClimb(stack: seq<string>)
    requires Clean(false, stack) && stack != [] && Climb(stack) == 0
    ensures Climb(stack[1..]) == 0
  {
    if |stack| > 1 { NoClimbAt(false, stack, 1); }
  }

  // ----- what a normal form brings -----

  function First(t: string): string { t[..FirstSep(t)] }

  function More(t: string): string { if FirstSep(t) < |t| then t[FirstSep(t) + 1..] else "" }

  /** Normalizing leaves the segments, once reduced, as they were: a root does if what
      follows does not climb, behind a drive or not; and what stands directly behind a
      drive does unless it is a "." or a name that is climbed past. */
  predicate Tame(pl: Platform, b: string) {
    if !HasDrive(pl, b) then Rooted(b) ==> !Climbs(b)
    else
      var t := b[2..];
      if Rooted(t) then !Climbs(t)
      else First(t) == "" || First(t) == ".." || (First(t) != "." && !Climbs(More(t)))
  }

  /** If not, normalizing leaves the names and takes climbs away. */
  predicate Deep(pl: Platform, b: string) {
    !Tame(pl, b) && (HasDrive(pl, b) ==> !Rooted(b[2..]) && Climb(Parse(pl, b).stack) >= 2)
  }

  /** The climbs that are left then. */
  function Depth(pl: Platform, b: string): nat
    requires Deep(pl, b)
  {
    if HasDrive(pl, b) then Climb(Parse(pl, b).stack) - 2 else 0
  }

  lemma ClimbsIs(x: string)
    ensures Climbs(x) <==> Climb(Rel(x)) > 0
  {
  }

  lemma RelOfJoin(pl: Platform, stack: seq<string>)
    requires Clean(false, stack)
    ensures Rel(JoinSep(pl, stack)) == stack
  {
    FoldOfJoin(pl, false, stack);
  }

  lemma RelOfDot()
    ensures Rel(".") == []
  {
    RootAlone(false, []);
  }

  lemma RelRooted(c: char, x: string)
    requires IsSep(c)
    ensures Rel([c] + x) == Rel(x) && Segs([c] + x) == [""] + Segs(x)
  {
    hide Segs;
    assert [c] + x == "" + [c] + x;
    SegsConcat("", c, x);
    OneSeg("");
    FoldConcat(false, [], Segs(""), Segs(x));
    FoldNothing(false, []);
  }

  /** Under a root only the names of a relative stack are left. */
  lemma RootedStack(x: string)
    ensures Fold(true, [], Segs(x)) == Tail(Rel(x))
    ensures Clean(true, Tail(Rel(x))) && Clean(false, Tail(Rel(x)))
    ensures Climb(Tail(Rel(x))) == 0 && Tail(Tail(Rel(x))) == Tail(Rel(x))
  {
    hide Segs, Clean, Ups;
    var r := Rel(x);
    RelClean(x);
    RelIsEnough(true, [], x);
    Parts(r);
    FoldParts(true, [], r);
    RootStops(r[..Climb(r)]);
    assert [] + Tail(r) == Tail(r);
    DownsClean(Tail(r));
  }

  lemma DownsClean(downs: seq<string>)
    requires Downs(downs)
    ensures Clean(true, downs) && Clean(false, downs) && Climb(downs) == 0 && Tail(downs) == downs
  {
  }

  lemma KindUndriven(pl: Platform, b: string)
    requires !HasDrive(pl, b)
    ensures var r, r' := Rel(b), Rel(Normalize(pl, b));
      r' == if Rooted(b) then Tail(r) else r
  {
    hide Segs, JoinSep, Clean, Fold, Climb;
    var stack := Parse(pl, b).stack;
    if Rooted(b) {
      var x := b[1..];
      assert b == [b[0]] + x;
      RelRooted(b[0], x);
      RootedStack(x);
      assert stack == Tail(Rel(x));
      assert Normalize(pl, b) == [Sep(pl)] + JoinSep(pl, stack);
      RelRooted(Sep(pl), JoinSep(pl, stack));
      RelOfJoin(pl, stack);
    } else {
      RelClean(b);
      UnrootedNormal(pl, b);
      RelOfJoin(pl, stack);
      BodyStarts(pl, false, stack);
      if stack == [] { RelOfDot(); }
    }
  }

  lemma UnrootedNormal(pl: Platform, b: string)
    requires !HasDrive(pl, b) && !Rooted(b)
    ensures Parse(pl, b) == Path("", false, Rel(b))
    ensures var text := JoinSep(pl, Rel(b)); Normalize(pl, b) == if text == "" then "." else text
  {
    hide Segs, JoinSep, Fold;
    assert Body(pl, b) == b;
    assert "" + "" + JoinSep(pl, Rel(b)) == JoinSep(pl, Rel(b));
  }

  /** The normal form of a path with a drive. */
  lemma DrivenNormal(b: string)
    requires HasDrive(Windows, b)
    ensures var path := Parse(Windows, b);
            var t := b[2..];
      && path.drive == b[..2] && path.absolute == Rooted(t)
      && path.stack == Fold(Rooted(t), [], Segs(if Rooted(t) then t[1..] else t))
      && Normalize(Windows, b) == b[..2] + ((if Rooted(t) then "\\" else "") + JoinSep(Windows, path.stack))
  {
    hide Segs, JoinSep, Fold;
    var t := b[2..];
    assert Rooted(t) ==> t[1..] == b[3..];
  }

  lemma KindRooted(b: string)
    requires HasDrive(Windows, b) && Rooted(b[2..])
    ensures var q := Lead(b[..2]);
            var m := Rel(b[3..]);
      && Leads(q) && Clean(false, m) && m == Rel(b[2..])
      && Rel(b) == (if Climb(m) == 0 then [q] + m else m[1..])
      && Rel(Normalize(Windows, b)) == [q] + Tail(m)
  {
    hide Segs, JoinSep, Clean, Fold, Climb, Lead, Leads;
    var d, t, x := b[..2], b[2..], b[3..];
    var q, m := Lead(d), Rel(x);
    assert b == d + t && t == [t[0]] + x;
    LeadLeads(d);
    LedIsName(q, "");
    assert q + "" == q;
    RelClean(x);
    RelRooted(t[0], x);
    RelOfDriven(d, t);
    assert Segs(t)[1..] == Segs(x);
    SegsNoSep(x);
    RelBehindLead(q, Segs(x));
    FoldBehindName(q, m);
    DrivenNormal(b);
    RootedStack(x);
    var js := JoinSep(Windows, Tail(m));
    RelOfDriven(d, "\\" + js);
    RelRooted('\\', js);
    assert Segs("\\" + js)[1..] == Segs(js);
    SegsNoSep(js);
    RelBehindLead(q, Segs(js));
    RelOfJoin(Windows, Tail(m));
    FoldBehindName(q, Tail(m));
  }

  lemma KindRelative(b: string)
    requires HasDrive(Windows, b) && !Rooted(b[2..])
    ensures var q := Lead(b[..2]);
            var t := b[2..];
            var m := Rel(More(t));
      && Leads(q) && Clean(false, m) && NoSep(First(t))
      && Rel(b) == (if Climb(m) == 0 then [q + First(t)] + m else m[1..])
      && Parse(Windows, b).stack == Fold(false, Reduce(false, [], First(t)), m)
      && Clean(false, Parse(Windows, b).stack)
      && Rel(Normalize(Windows, b)) == Brought(q, Parse(Windows, b).stack)
  {
    hide Segs, JoinSep, Clean, Fold, Climb, Lead, Leads, Reduce;
    var d, t := b[..2], b[2..];
    var q, m, r0 := Lead(d), Rel(More(t)), First(t);
    assert b == d + t;
    LeadLeads(d);
    RelClean(More(t));
    FirstAndMore(t);
    LedIsName(q, r0);
    RelOfDriven(d, t);
    SegsNoSep(t);
    RestNoSep(Segs(t));
    RelBehindLead(q + r0, Segs(t)[1..]);
    FoldBehindName(q + r0, m);
    DrivenNormal(b);
    var stack := Parse(Windows, b).stack;
    ParseClean(Windows, b);
    FoldFirst(false, Segs(t));
    RelOfRest(Reduce(false, [], r0), t);
    var js := JoinSep(Windows, stack);
    assert "" + js == js;
    RelOfDriven(d, js);
    SegsOfStack(stack);
    LedIsName(q, "");
    assert q + "" == q;
    BroughtSegs(q, stack);
  }

  lemma RestNoSep(segs: seq<string>)
    requires AllNoSep(segs) && segs != []
    ensures AllNoSep(segs[1..]) && NoSep(segs[0])
  {
  }

  lemma FoldFirst(absolute: bool, segs: seq<string>)
    requires segs != []
    ensures Fold(absolute, [], segs) == Fold(absolute, Reduce(absolute, [], segs[0]), segs[1..])
  {
    hide Reduce;
  }

  /** A text's first segment, and the relative stack of the others. */
  lemma FirstAndMore(t: string)
    ensures Segs(t) != [] && Segs(t)[0] == First(t) && NoSep(First(t))
    ensures Fold(false, [], Segs(t)[1..]) == Rel(More(t))
  {
    hide Segs, Fold, FirstSep, IsSep;
    SegsOnce(t);
    FirstHasNoSep(t);
    var k := FirstSep(t);
    if k == |t| {
      assert t[..k] == t && [t][1..] == [];
      FoldNothing(false, []);
      FoldEmpty(false, []);
    } else {
      assert ([t[..k]] + Segs(t[k + 1..]))[1..] == Segs(t[k + 1..]);
    }
  }

  lemma FirstHasNoSep(t: string)
    ensures NoSep(First(t))
  {
    hide IsSep;
  }

  lemma RelOfRest(under: seq<string>, t: string)
    ensures Segs(t) != [] && Fold(false, under, Segs(t)[1..]) == Fold(false, under, Rel(More(t)))
  {
    hide Segs;
    FirstAndMore(t);
    SegsNoSep(t);
    RestNoSep(Segs(t));
    FoldEmpty(false, under);
    Replay(false, under, [], Segs(t)[1..]);
  }

  lemma SegsOfStack(stack: seq<string>)
    requires Clean(false, stack)
    ensures Segs(JoinSep(Windows, stack)) == if stack == [] then [""] else stack
  {
    hide JoinSep;
    CleanNoSep(false, stack);
    if stack == [] {
      JoinOne(Windows, "");
      OneSeg("");
    } else {
      SegsOfJoin(Windows, stack);
    }
  }

  lemma BroughtSegs(q: string, stack: seq<string>)
    ensures var segs := if stack == [] then [""] else stack;
      Fold(false, [q + segs[0]], segs[1..]) == Brought(q, stack)
  {
    if stack == [] {
      assert q + "" == q && [""][1..] == [];
      FoldEmpty(false, [q]);
    }
  }

  // ----- the kinds of second parts -----

  /** Rel(b) and Rel(normalize(b)), by what b is. */
  ghost predicate IsKind(pl: Platform, b: string, r: seq<string>, r': seq<string>) {
    && Clean(false, r) && Clean(false, r') && Related(r, r')
    && (r == r' <==> Tame(pl, b)) && (Shorter(r, r') <==> Deep(pl, b))
    && (Deep(pl, b) ==> Climb(r') == Depth(pl, b))
  }

  lemma RootedKind(q: string, m: seq<string>, r: seq<string>, r': seq<string>)
    requires Leads(q) && Clean(false, m)
    requires r == (if Climb(m) == 0 then [q] + m else m[1..]) && r' == [q] + Tail(m)
    ensures Related(r, r') && !Shorter(r, r') && (r == r' <==> Climb(m) == 0)
  {
    LedIsName(q, "");
    assert q + "" == q;
    NameInFront(q, Tail(m));
    if Climb(m) == 0 {
      assert Tail(m) == m;
    } else {
      ClimbTail(m);
    }
  }

  /** A drive with a first segment r0 that is "", "." or ".." or a name, and m behind. */
  lemma RelativeKind(q: string, r0: string, m: seq<string>, r: seq<string>, stack: seq<string>)
    requires Leads(q) && NoSep(r0) && Clean(false, m) && Clean(false, stack) && (r0 == "" ==> m == [])
    requires r == (if Climb(m) == 0 then [q + r0] + m else m[1..])
    requires stack == Fold(false, Reduce(false, [], r0), m)
    ensures var r' := Brought(q, stack);
            var tame := r0 == "" || r0 == ".." || (r0 != "." && Climb(m) == 0);
      && Related(r, r') && (r == r' <==> tame)
      && (Shorter(r, r') <==> !tame && Climb(stack) >= 2)
      && (Climb(stack) >= 2 ==> Climb(r') == Climb(stack) - 2)
  {
    hide Clean, Leads, Brought;
    BroughtIs(q, stack);
    LedIsName(q, r0);
    NameInFront(q + r0, m);
    if Climb(m) > 0 { ClimbTail(m); }
    if r0 == "" {
      FoldEmpty(false, []);
      assert q + "" == q && [q] + [] == [q];
    } else if r0 == ".." {
      UpInFront(m);
      UpFold(m);
      assert stack[0] == ".." && stack[1..] == m;
      UpIsKept(q, m, r);
    } else if r0 == "." {
      DotFold(m);
      DotKind(q, m, r);
    } else {
      assert Reduce(false, [], r0) == [r0] by { NameAlone(r0); }
      FoldBehindName(r0, m);
      NameKind(q, r0, m, r, stack);
    }
  }

  lemma NameAlone(r0: string)
    requires r0 != "" && r0 != "." && r0 != ".."
    ensures Reduce(false, [], r0) == [r0]
  {
  }

  lemma UpFold(m: seq<string>)
    requires Clean(false, m)
    ensures Fold(false, Reduce(false, [], ".."), m) == [".."] + m
  {
    assert Reduce(false, [], "..") == [".."];
    UpInFront(m);
    FoldOfClean(false, [".."], m);
  }

  lemma UpInFront(m: seq<string>)
    requires Clean(false, m)
    ensures Clean(false, [".."] + m) && Climb([".."] + m) == 1 + Climb(m)
  {
    var s := [".."] + m;
    assert s[1..] == m && Name("..");
    forall i | 0 <= i < |s|
      ensures Name(s[i]) && Placed(s, i)
    {
      if i > 0 { assert s[i] == m[i - 1] && Placed(m, i - 1); }
    }
  }

  lemma UpIsKept(q: string, m: seq<string>, r: seq<string>)
    requires Leads(q) && Clean(false, m) && r == (if Climb(m) == 0 then [q + ".."] + m else m[1..])
    ensures Brought(q, [".."] + m) == r
  {
    hide Clean, Leads;
    assert ([".."] + m)[1..] == m;
    assert NoSep("..");
    LedIsName(q, "..");
    FoldBehindName(q + "..", m);
  }

  lemma DotFold(m: seq<string>)
    requires Clean(false, m)
    ensures Fold(false, Reduce(false, [], "."), m) == m
  {
    assert Reduce(false, [], ".") == [] && [] + m == m;
    FoldOfClean(false, [], m);
  }

  lemma DotKind(q: string, m: seq<string>, r: seq<string>)
    requires Leads(q) && Clean(false, m) && r == (if Climb(m) == 0 then [q + "."] + m else m[1..])
    ensures var r' := Brought(q, m);
      Related(r, r') && r != r' && (Shorter(r, r') <==> Climb(m) >= 2)
  {
    hide Leads, Brought, Clean;
    BroughtIs(q, m);
    assert NoSep(".");
    LedIsName(q, ".");
    NameInFront(q + ".", m);
    var r' := Brought(q, m);
    if Climb(m) == 0 {
      if m != [] {
        FirstIsName(false, m);
        NotTheSame(q, ".", m[0]);
        assert r[0] != r'[0];
      }
    } else {
      ClimbTail(m);
      assert Climb(m) == 1 ==> m[1..] == Tail(m);
    }
  }

  lemma NotTheSame(q: string, s: string, t: string)
    requires s != t
    ensures q + s != q + t
  {
    assert (q + s)[|q|..] == s && (q + t)[|q|..] == t;
  }

  lemma NameKind(q: string, r0: string, m: seq<string>, r: seq<string>, stack: seq<string>)
    requires Leads(q) && NoSep(r0) && r0 != "" && Clean(false, m) && Clean(false, stack)
    requires r == (if Climb(m) == 0 then [q + r0] + m else m[1..])
    requires stack == (if Climb(m) == 0 then [r0] + m else m[1..]) && r0 != ".."
    ensures var r' := Brought(q, stack);
      && Related(r, r') && (r == r' <==> Climb(m) == 0)
      && (Shorter(r, r') <==> Climb(m) > 0 && Climb(stack) >= 2)
  {
    hide *;
    if Climb(m) == 0 {
      NameInFront(r0, m);
      BroughtIs(q, stack);
      assert stack[0] == r0 && stack[1..] == m;
      SameIsRelated(r);
    } else {
      assert r == stack by { FoldBehindClimb(r, m, stack); }
      BroughtAgain(q, stack);
    }
  }

  lemma FoldBehindClimb(r: seq<string>, m: seq<string>, stack: seq<string>)
    requires m != [] && r == m[1..] && stack == m[1..]
    ensures r == stack
  {
  }

  lemma SameIsRelated(r: seq<string>)
    ensures Related(r, r) && !Shorter(r, r)
  {
  }

  /** A relative stack behind the drive again. */
  lemma BroughtAgain(q: string, stack: seq<string>)
    requires Leads(q) && Clean(false, stack)
    ensures var r := Brought(q, stack);
      Related(stack, r) && stack != r && (Shorter(stack, r) <==> Climb(stack) >= 2)
  {
    hide *;
    BroughtIs(q, stack);
    var r := Brought(q, stack);
    if stack == [] {
      OtherIs(stack, r);
      NoTail();
      WholeTail(r);
    } else if Climb(stack) == 0 {
      Longer(q, stack[0]);
      assert r[0] != stack[0];
      OtherIs(stack, r);
    } else if Climb(stack) == 1 {
      WholeTail(r);
      OtherIs(stack, r);
    } else {
      ShorterIs(stack, r);
    }
  }

  lemma NoTail()
    ensures Climb([]) == 0 && Tail([]) == []
  {
  }

  lemma WholeTail(r: seq<string>)
    ensures Climb(r) == 0 ==> Tail(r) == r
  {
  }

  lemma OtherIs(r: seq<string>, r': seq<string>)
    ensures Climb(r') == 0 && Climb(r) == 0 && r != r' ==> Related(r, r') && !Shorter(r, r')
    ensures Climb(r') == 0 && |Tail(r')| > |Tail(r)| ==> Related(r, r') && !Shorter(r, r')
  {
  }

  lemma ShorterIs(r: seq<string>, r': seq<string>)
    ensures Climb(r') < Climb(r) && Tail(r') == Tail(r) ==> Related(r, r') && Shorter(r, r')
  {
  }

  lemma Longer(q: string, s: string)
    requires Leads(q)
    ensures q + s != s
  {
    assert |q + s| > |s|;
  }

  lemma Kind(pl: Platform, b: string)
    ensures IsKind(pl, b, Rel(b), Rel(Normalize(pl, b)))
  {
    hide Segs, JoinSep, Clean, Fold, Climb, Lead, Leads, Brought, Related, Shorter, Other, Parse;
    var r, r' := Rel(b), Rel(Normalize(pl, b));
    RelClean(b);
    RelClean(Normalize(pl, b));
    ClimbsIs(b);
    if !HasDrive(pl, b) {
      KindUndriven(pl, b);
      TailKind(r);
    } else if Rooted(b[2..]) {
      ClimbsIs(b[2..]);
      KindRooted(b);
      RootedKind(Lead(b[..2]), Rel(b[3..]), r, r');
    } else {
      var t := b[2..];
      ClimbsIs(More(t));
      KindRelative(b);
      NothingBehindNothing(t);
      RelativeKind(Lead(b[..2]), First(t), Rel(More(t)), r, Parse(Windows, b).stack);
    }
  }

  lemma NothingBehindNothing(t: string)
    ensures !Rooted(t) && First(t) == "" ==> Rel(More(t)) == []
  {
    hide Segs;
    if !Rooted(t) && First(t) == "" {
      assert t == "";
      FoldNothing(false, []);
    }
  }

  lemma TailKind(r: seq<string>)
    requires Clean(false, r)
    ensures Related(r, Tail(r)) && (r == Tail(r) <==> Climb(r) == 0) && (Shorter(r, Tail(r)) <==> Climb(r) > 0)
    ensures Climb(Tail(r)) == 0 && Related(r, r) && !Shorter(r, r)
  {
    hide Clean;
    Parts(r);
    DownsClean(Tail(r));
  }
}
