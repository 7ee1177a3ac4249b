/** path.normalize, path.join and path.resolve: one pass over a text buffer, against
    a stack of segments.
 */
module PathNormal {

  datatype Platform = Posix | Windows

  function Sep(pl: Platform): char { if pl.Windows? then '\\' else '/' }

  predicate IsSep(c: char) { c == '/' || c == '\\' }

  predicate HasDrive(pl: Platform, p: string) { pl.Windows? && |p| >= 2 && p[1] == ':' }

  // ----- segments -----

  function FirstSep(s: string): (k: nat)
    ensures k <= |s| && (k < |s| ==> IsSep(s[k])) && forall i :: 0 <= i < k ==> !IsSep(s[i])
  {
    if s == [] || IsSep(s[0]) then 0 else 1 + FirstSep(s[1..])
  }

  function Segs(s: string): (r: seq<string>)
    decreases |s|
  {
    var k := FirstSep(s);
    if k == |s| then [s] else [s[..k]] + Segs(s[k + 1..])
  }

  predicate NoSep(s: string) { forall i :: 0 <= i < |s| ==> !IsSep(s[i]) }

  lemma {:induction false} FirstSepIs(s: string, k: nat)
    requires k <= |s| && NoSep(s[..k]) && (k < |s| ==> IsSep(s[k]))
    ensures FirstSep(s) == k
  {
    forall i | 0 <= i < k
      ensures !IsSep(s[i])
    {
      assert s[..k][i] == s[i];
    }
  }

  lemma {:induction false} SegsConcat(a: string, c: char, b: string)
    requires IsSep(c)
    ensures Segs(a + [c] + b) == Segs(a) + Segs(b)
    decreases |a|
  {
    hide *;
    var k := FirstSep(a);
    var s := a + [c] + b;
    FirstSepBefore(a, c, b);
    SegsOnce(a);
    SegsOnce(s);
    if k == |a| {
      assert s[k + 1..] == b && s[..k] == a;
    } else {
      SegsConcat(a[k + 1..], c, b);
      assert s[..k] == a[..k] && s[k + 1..] == a[k + 1..] + [c] + b;
      Reassociate([a[..k]], Segs(a[k + 1..]), Segs(b));
    }
  }

  lemma SegsOnce(s: string)
    ensures var k := FirstSep(s); Segs(s) == if k == |s| then [s] else [s[..k]] + Segs(s[k + 1..])
  {
    hide FirstSep, IsSep;
  }

  lemma Reassociate<T>(a: seq<T>, b: seq<T>, c: seq<T>)
    ensures a + (b + c) == a + b + c
  {
  }

  lemma FirstSepBefore(a: string, c: char, b: string)
    requires IsSep(c)
    ensures FirstSep(a + [c] + b) == FirstSep(a)
  {
    hide IsSep;
    var k := FirstSep(a);
    assert (a + [c] + b)[..k] == a[..k];
    FirstSepIs(a + [c] + b, k);
  }

  // ----- the stack -----

  function Reduce(absolute: bool, stack: seq<string>, seg: string): seq<string> {
    if seg == "" || seg == "." then stack
    else if seg != ".." then stack + [seg]
    else if stack != [] && stack[|stack| - 1] != ".." then stack[..|stack| - 1]
    else if absolute then stack
    else stack + [".."]
  }

  function Fold(absolute: bool, stack: seq<string>, segs: seq<string>): seq<string>
    decreases |segs|
  {
    if segs == [] then stack else Fold(absolute, Reduce(absolute, stack, segs[0]), segs[1..])
  }

  lemma {:induction false} FoldConcat(absolute: bool, stack: seq<string>, a: seq<string>, b: seq<string>)
    ensures Fold(absolute, stack, a + b) == Fold(absolute, Fold(absolute, stack, a), b)
    decreases |a|
  {
    hide Reduce;
    if a == [] {
      assert a + b == b;
    } else {
      FoldConcat(absolute, Reduce(absolute, stack, a[0]), a[1..], b);
      assert (a + b)[1..] == a[1..] + b;
    }
  }

  predicate Name(seg: string) { seg != "" && seg != "." && NoSep(seg) }

  /** Names, with ".." only at the front, and not there under an absolute root. */
  predicate Clean(absolute: bool, stack: seq<string>) {
    && (forall i :: 0 <= i < |stack| ==> Name(stack[i]) && (absolute ==> stack[i] != ".."))
    && (forall i :: 0 <= i < |stack| ==> Placed(stack, i))
  }

  predicate Placed(stack: seq<string>, i: nat)
    requires i < |stack|
  {
    stack[i] == ".." ==> i == 0 || stack[i - 1] == ".."
  }

  lemma ReduceClean(absolute: bool, stack: seq<string>, seg: string)
    requires Clean(absolute, stack) && NoSep(seg)
    ensures Clean(absolute, Reduce(absolute, stack, seg))
  {
    var next := Reduce(absolute, stack, seg);
    forall i | 0 <= i < |next|
      ensures Placed(next, i)
    {
      if i < |stack| { assert Placed(stack, i); }
    }
  }

  lemma {:induction false} FoldKeepsClean(absolute: bool, stack: seq<string>, s: string)
    requires Clean(absolute, stack)
    ensures Clean(absolute, Fold(absolute, stack, Segs(s)))
    decreases |s|
  {
    hide Clean, Reduce;
    var k := FirstSep(s);
    ReduceClean(absolute, stack, s[..k]);
    if k == |s| {
      assert s[..k] == s;
      assert Segs(s)[1..] == [];
    } else {
      assert Segs(s)[1..] == Segs(s[k + 1..]);
      FoldKeepsClean(absolute, Reduce(absolute, stack, s[..k]), s[k + 1..]);
    }
  }

  /** A clean stack is pushed as it stands. */
  lemma {:induction false} FoldOfClean(absolute: bool, stack: seq<string>, segs: seq<string>)
    requires Clean(absolute, stack + segs)
    ensures Fold(absolute, stack, segs) == stack + segs
    decreases |segs|
  {
    if segs == [] {
      assert stack + segs == stack;
    } else {
      var all := stack + segs;
      assert all[|stack|] == segs[0] && Placed(all, |stack|);
      assert stack != [] ==> all[|stack| - 1] == stack[|stack| - 1];
      assert stack + [segs[0]] + segs[1..] == all;
      FoldOfClean(absolute, stack + [segs[0]], segs[1..]);
    }
  }

  // ----- text -----

  function JoinSep(pl: Platform, stack: seq<string>): string {
    if stack == [] then ""
    else if |stack| == 1 then stack[0]
    else JoinSep(pl, stack[..|stack| - 1]) + [Sep(pl)] + stack[|stack| - 1]
  }

  /** A path taken apart: the drive, whether it is rooted, and the reduced stack. */
  datatype Path = Path(drive: string, absolute: bool, stack: seq<string>)

  function Drive(pl: Platform, p: string): string { if HasDrive(pl, p) then p[..2] else "" }

  function Absolute(pl: Platform, p: string): bool {
    |Drive(pl, p)| < |p| && IsSep(p[|Drive(pl, p)|])
  }

  function Body(pl: Platform, p: string): string {
    p[|Drive(pl, p)| + if Absolute(pl, p) then 1 else 0..]
  }

  function Parse(pl: Platform, p: string): Path {
    Path(Drive(pl, p), Absolute(pl, p), Fold(Absolute(pl, p), [], Segs(Body(pl, p))))
  }

  function Root(pl: Platform, path: Path): string { path.drive + if path.absolute then [Sep(pl)] else "" }

  function Render(pl: Platform, path: Path): string {
    var out := Root(pl, path) + JoinSep(pl, path.stack);
    if out == "" then "." else out
  }

  function Normalize(pl: Platform, p: string): string { Render(pl, Parse(pl, p)) }

  // ----- the pass over the buffer -----

  /** normalizeInto. */
  method NormalizeInto(pl: Platform, p: string) returns (out: string)
    ensures out == Normalize(pl, p)
  {
    hide *;
    if p == "" {
      EmptyPath(pl);
      return ".";
    }
    out := "";
    var i := 0;
    if HasDrive(pl, p) {
      assert |p| >= 2 by { DriveIsTwo(pl, p); }
      out, i := out + p[..2], 2;
    }
    var absolute := false;
    if i < |p| && IsSep(p[i]) { absolute, out, i := true, out + [Sep(pl)], i + 1; }
    RootIs(pl, p, i, absolute, out);
    ghost var root, whole := out, Parse(pl, p);
    ghost var stack: seq<string> := [];
    StackOfNothing(pl, absolute);
    assert root + "" == root;
    var rootLen, kept, dotdots := |out|, 0, 0;
    while i < |p|
      invariant 0 <= i <= |p| + 1
      invariant out == root + JoinSep(pl, stack) && rootLen == |root|
      invariant FoldFrom(absolute, stack, p, i) == whole.stack
      invariant Clean(absolute, stack) && kept == |stack| && Dotdots(stack, dotdots)
    {
      var j := i;
      while j < |p| && !IsSep(p[j])
        invariant i <= j <= |p| && forall k :: i <= k < j ==> !IsSep(p[k])
      {
        j := j + 1;
      }
      var seg := p[i..j];
      NextSeg(absolute, stack, p, i, j);
      ReduceClean(absolute, stack, seg);
      DotdotsFold(absolute, stack, dotdots, seg);
      i := j + 1;
      if seg == "" || seg == "." { continue; }
      if seg == ".." {
        if kept > dotdots {
          out := DropLast(pl, absolute, root, stack, out, rootLen);
          stack := stack[..kept - 1];
          kept := kept - 1;
        } else if !absolute {
          out := PutSeg(pl, root, stack, out, kept, "..");
          stack := stack + [".."];
          kept, dotdots := kept + 1, dotdots + 1;
        }
        continue;
      }
      out := PutSeg(pl, root, stack, out, kept, seg);
      stack := stack + [seg];
      kept := kept + 1;
    }
    FoldRest(absolute, stack, p, i);
    Rendered(pl, p);
    if out == "" { out := "."; }
  }

  lemma DriveIsTwo(pl: Platform, p: string)
    ensures HasDrive(pl, p) ==> |p| >= 2
  {
  }

  lemma RootIs(pl: Platform, p: string, i: nat, absolute: bool, root: string)
    requires var d := if HasDrive(pl, p) then 2 else 0;
      absolute == (d < |p| && IsSep(p[d])) && i == (if absolute then d + 1 else d)
      && root == p[..d] + if absolute then [Sep(pl)] else ""
    ensures root == Root(pl, Parse(pl, p)) && i <= |p| && FoldFrom(absolute, [], p, i) == Parse(pl, p).stack
  {
    assert p[i..] == Body(pl, p);
  }

  lemma Rendered(pl: Platform, p: string)
    ensures var out := Root(pl, Parse(pl, p)) + JoinSep(pl, Parse(pl, p).stack);
      Normalize(pl, p) == if out == "" then "." else out
  {
  }

  method PutSeg(pl: Platform, ghost root: string, ghost stack: seq<string>, out: string, kept: nat, seg: string)
    returns (out': string)
    requires out == root + JoinSep(pl, stack) && kept == |stack|
    ensures out' == root + JoinSep(pl, stack + [seg])
  {
    JoinMore(pl, stack, seg);
    out' := out;
    if kept != 0 { out' := out' + [Sep(pl)]; }
    out' := out' + seg;
  }

  /** Drops the last segment and the separator before it. */
  method DropLast(pl: Platform, ghost absolute: bool, ghost root: string, ghost stack: seq<string>,
                  out: string, rootLen: nat)
    returns (out': string)
    requires out == root + JoinSep(pl, stack) && rootLen == |root| && stack != [] && Clean(absolute, stack)
    ensures out' == root + JoinSep(pl, stack[..|stack| - 1])
  {
    var cut := FindLast(pl, out);
    assert Name(stack[|stack| - 1]);
    CutIsLast(pl, root, stack, cut);
    if cut < rootLen { cut := rootLen; }
    out' := out[..cut];
  }

  /** The first n segments are "..", and no other is. */
  predicate Dotdots(stack: seq<string>, n: nat) {
    n <= |stack| && forall k :: 0 <= k < |stack| ==> (stack[k] == ".." <==> k < n)
  }

  function FoldFrom(absolute: bool, stack: seq<string>, p: string, i: nat): seq<string> {
    if i <= |p| then Fold(absolute, stack, Segs(p[i..])) else stack
  }

  lemma StackOfNothing(pl: Platform, absolute: bool)
    ensures JoinSep(pl, []) == "" && Clean(absolute, []) && Dotdots([], 0)
  {
  }

  lemma DotdotsFold(absolute: bool, stack: seq<string>, n: nat, seg: string)
    requires Dotdots(stack, n)
    ensures var next := Reduce(absolute, stack, seg);
      if seg == "" || seg == "." then next == stack
      else if seg != ".." then next == stack + [seg] && Dotdots(next, n)
      else if |stack| > n then next == stack[..|stack| - 1] && Dotdots(next, n)
      else if absolute then next == stack
      else next == stack + [".."] && Dotdots(next, n + 1)
  {
  }

  lemma EmptyPath(pl: Platform)
    ensures Normalize(pl, "") == "."
  {
    assert Segs("") == [""] && Fold(false, [], [""]) == [];
  }

  lemma NextSeg(absolute: bool, stack: seq<string>, p: string, i: nat, j: nat)
    requires i <= j <= |p| && i < |p| && (forall k :: i <= k < j ==> !IsSep(p[k])) && (j < |p| ==> IsSep(p[j]))
    ensures NoSep(p[i..j])
    ensures FoldFrom(absolute, stack, p, i) == FoldFrom(absolute, Reduce(absolute, stack, p[i..j]), p, j + 1)
  {
    var s := p[i..];
    assert s[..j - i] == p[i..j];
    FirstSepIs(s, j - i);
    if j < |p| {
      assert s[j - i + 1..] == p[j + 1..];
      assert Segs(s)[1..] == Segs(p[j + 1..]);
    } else {
      assert s == p[i..j] && Segs(s)[1..] == [];
      assert Fold(absolute, Reduce(absolute, stack, s), []) == Reduce(absolute, stack, s);
    }
  }

  lemma FoldRest(absolute: bool, stack: seq<string>, p: string, i: nat)
    requires |p| <= i
    ensures FoldFrom(absolute, stack, p, i) == stack
  {
    if i == |p| {
      assert p[i..] == "" && Segs("") == [""] && [""][1..] == [];
      assert Fold(absolute, Reduce(absolute, stack, ""), []) == stack;
    }
  }

  lemma JoinMore(pl: Platform, stack: seq<string>, seg: string)
    ensures JoinSep(pl, stack + [seg]) == JoinSep(pl, stack) + (if stack != [] then [Sep(pl)] else "") + seg
  {
    assert (stack + [seg])[..|stack|] == stack;
  }

  /** find_last_of, -1 for npos. */
  method FindLast(pl: Platform, out: string) returns (cut: int)
    ensures LastSep(pl, out, cut)
  {
    cut := |out| - 1;
    while cut >= 0 && out[cut] != Sep(pl)
      invariant -1 <= cut < |out| && forall k :: cut < k < |out| ==> out[k] != Sep(pl)
    {
      cut := cut - 1;
    }
  }

  /** The last separator of out is at cut; there is none when cut is -1. */
  predicate LastSep(pl: Platform, out: string, cut: int) {
    -1 <= cut < |out| && (cut >= 0 ==> out[cut] == Sep(pl)) && forall k :: cut < k < |out| ==> out[k] != Sep(pl)
  }

  lemma SepBefore(pl: Platform, head: string, last: string, cut: int)
    requires NoSep(last) && LastSep(pl, head + last, cut)
    ensures cut < |head|
    ensures head != "" && head[|head| - 1] == Sep(pl) ==> cut == |head| - 1
  {
    var out := head + last;
    forall k | |head| <= k < |out|
      ensures out[k] != Sep(pl)
    {
      assert out[k] == last[k - |head|];
    }
    if head != "" { assert out[|head| - 1] == head[|head| - 1]; }
  }

  /** The last separator is the one before the last segment, if it is past the root. */
  lemma CutIsLast(pl: Platform, root: string, stack: seq<string>, cut: int)
    requires stack != [] && NoSep(stack[|stack| - 1]) && LastSep(pl, root + JoinSep(pl, stack), cut)
    ensures var out := root + JoinSep(pl, stack);
            var at := if cut < |root| then |root| else cut;
      at <= |out| && out[..at] == root + JoinSep(pl, stack[..|stack| - 1])
  {
    hide *;
    var init, last := stack[..|stack| - 1], stack[|stack| - 1];
    assert stack == init + [last];
    JoinMore(pl, init, last);
    StackOfNothing(pl, false);
    var kept := root + JoinSep(pl, init);
    var head := kept + if init != [] then [Sep(pl)] else "";
    Regroup(root, JoinSep(pl, init), if init != [] then [Sep(pl)] else "", last);
    SepBefore(pl, head, last, cut);
    FrontOf(kept, if init != [] then [Sep(pl)] else "", last);
  }

  lemma Regroup(a: string, b: string, c: string, d: string)
    ensures a + (b + c + d) == a + b + c + d
  {
  }

  lemma FrontOf(a: string, b: string, c: string)
    ensures |a| <= |a + b + c| && (a + b + c)[..|a|] == a
    ensures b == "" ==> a + b == a
    ensures b != "" ==> (a + b)[|a + b| - 1] == b[|b| - 1]
  {
  }

  // ----- the stack of what was written -----

  lemma ParseClean(pl: Platform, p: string)
    ensures Clean(Absolute(pl, p), Parse(pl, p).stack)
  {
    FoldKeepsClean(Absolute(pl, p), [], Body(pl, p));
  }

  lemma {:induction false} SegsOfJoin(pl: Platform, stack: seq<string>)
    requires stack != [] && forall i :: 0 <= i < |stack| ==> NoSep(stack[i])
    ensures Segs(JoinSep(pl, stack)) == stack
    decreases |stack|
  {
    var init, last := stack[..|stack| - 1], stack[|stack| - 1];
    assert stack == init + [last];
    assert last[..|last|] == last;
    FirstSepIs(last, |last|);
    if init == [] {
      assert JoinSep(pl, stack) == last;
    } else {
      SegsOfJoin(pl, init);
      SegsConcat(JoinSep(pl, init), Sep(pl), last);
    }
  }

  lemma {:induction false} JoinStarts(pl: Platform, stack: seq<string>)
    requires stack != []
    ensures |JoinSep(pl, stack)| >= |stack[0]| && JoinSep(pl, stack)[..|stack[0]|] == stack[0]
    ensures |stack| == 1 ==> JoinSep(pl, stack) == stack[0]
    ensures |stack| > 1 ==> |JoinSep(pl, stack)| > |stack[0]| && JoinSep(pl, stack)[|stack[0]|] == Sep(pl)
    decreases |stack|
  {
    if |stack| > 1 { JoinStarts(pl, stack[..|stack| - 1]); }
  }

  lemma FoldOfJoin(pl: Platform, absolute: bool, stack: seq<string>)
    requires Clean(absolute, stack)
    ensures Fold(absolute, [], Segs(JoinSep(pl, stack))) == stack
  {
    if stack == [] {
      assert Segs("") == [""];
      assert Fold(absolute, [], [""]) == [];
    } else {
      SegsOfJoin(pl, stack);
      assert [] + stack == stack;
      FoldOfClean(absolute, [], stack);
    }
  }
}
