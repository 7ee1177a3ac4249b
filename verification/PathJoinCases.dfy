/** Paths at which joining normal forms is not joining the paths, and at which joining in
    two steps is not joining at once: one of each family.
 */
module PathJoinCases {
  import opened PathNormal
  import opened PathLaws
  import opened PathJoin
  import opened PathResolve

  // ----- paths written out -----

  lemma FoldOn(absolute: bool, stack: seq<string>, x: string, rest: seq<string>)
    ensures Fold(absolute, stack, [x] + rest) == Fold(absolute, Reduce(absolute, stack, x), rest)
  {
    hide Reduce;
    assert ([x] + rest)[1..] == rest;
  }

  lemma FoldThree(absolute: bool, x: string, y: string, z: string)
    ensures Fold(absolute, [], [x]) == Reduce(absolute, [], x)
    ensures Fold(absolute, [], [x, y]) == Reduce(absolute, Reduce(absolute, [], x), y)
    ensures Fold(absolute, [], [x, y, z]) == Reduce(absolute, Reduce(absolute, Reduce(absolute, [], x), y), z)
  {
    hide Reduce;
    var s1 := Reduce(absolute, [], x);
    var s2 := Reduce(absolute, s1, y);
    assert [x] + [] == [x] && [x] + [y] == [x, y] && [y] + [] == [y];
    assert [x] + [y, z] == [x, y, z] && [y] + [z] == [y, z] && [z] + [] == [z];
    FoldOn(absolute, [], x, []);
    FoldOn(absolute, [], x, [y]);
    FoldOn(absolute, [], x, [y, z]);
    FoldOn(absolute, s1, y, []);
    FoldOn(absolute, s1, y, [z]);
    FoldOn(absolute, s2, z, []);
    FoldEmpty(absolute, s1);
    FoldEmpty(absolute, s2);
    FoldEmpty(absolute, Reduce(absolute, s2, z));
  }

  lemma FoldFour(absolute: bool, x: string, y: string, z: string, w: string)
    ensures Fold(absolute, [], [x, y, z, w])
         == Reduce(absolute, Reduce(absolute, Reduce(absolute, Reduce(absolute, [], x), y), z), w)
  {
    hide Reduce;
    FoldThree(absolute, x, y, z);
    assert [x, y, z] + [w] == [x, y, z, w];
    FoldOne(absolute, [], [x, y, z], w);
  }

  lemma JoinTwoNames(pl: Platform, x: string, y: string)
    ensures JoinSep(pl, [x, y]) == x + [Sep(pl)] + y
  {
    assert [x] + [y] == [x, y];
    JoinMore(pl, [x], y);
    JoinOne(pl, x);
  }

  lemma JoinThreeNames(pl: Platform, x: string, y: string, z: string)
    ensures JoinSep(pl, [x, y, z]) == x + [Sep(pl)] + y + [Sep(pl)] + z
  {
    assert [x, y] + [z] == [x, y, z];
    JoinTwoNames(pl, x, y);
    JoinMore(pl, [x, y], z);
  }

  lemma JoinFourNames(pl: Platform, x: string, y: string, z: string, w: string)
    ensures JoinSep(pl, [x, y, z, w]) == x + [Sep(pl)] + y + [Sep(pl)] + z + [Sep(pl)] + w
  {
    assert [x, y, z] + [w] == [x, y, z, w];
    JoinThreeNames(pl, x, y, z);
    JoinMore(pl, [x, y, z], w);
  }

  /** A path given by its drive, its root and the segments it is written with. */
  lemma Written(pl: Platform, p: string, path: Path, segs: seq<string>)
    requires segs != [] && AllNoSep(segs) && Fold(path.absolute, [], segs) == path.stack
    requires p == path.drive + ((if path.absolute then [Sep(pl)] else "") + JoinSep(pl, segs))
    requires Drive(pl, p) == path.drive && Absolute(pl, p) == path.absolute
    ensures Normalize(pl, p) == Render(pl, path)
  {
    hide JoinSep, Segs, Fold;
    SegsOfJoin(pl, segs);
    assert Body(pl, p) == JoinSep(pl, segs);
  }

  // ----- the first family: a dot directly behind a drive -----

  lemma SegmentsHere()
    ensures NoSep("a") && NoSep("b") && NoSep("x") && NoSep(".") && NoSep("..") && NoSep("")
    ensures NoSep("C:") && NoSep("C:.") && NoSep("C:x")
  {
  }

  /** join("a", "C:.") keeps the dot, and the join of the normal forms does not. */
  lemma DotBehindDriveIsLost()
    ensures JoinPaths(Windows, ["a", "C:."]) == "a\\C:."
    ensures JoinPaths(Windows, [Normalize(Windows, "a"), Normalize(Windows, "C:.")]) == "a\\C:"
  {
    hide *;
    OneName(Windows, "a");
    DotBehindDrive();
    TwoNames("a", "C:.");
    TwoNames("a", "C:");
  }

  lemma OneName(pl: Platform, x: string)
    requires x == "a" || x == "x" || x == "b"
    ensures Normalize(pl, x) == x
  {
    hide JoinSep, Segs, Fold;
    SegmentsHere();
    FoldThree(false, x, "", "");
    assert [] + [x] == [x];
    JoinOne(pl, x);
    Written(pl, x, Path("", false, [x]), [x]);
  }

  /** Two names joined on Windows, whatever the second looks like. */
  lemma TwoNames(x: string, y: string)
    requires x == "a" && (y == "C:." || y == "C:")
    ensures JoinPaths(Windows, [x, y]) == x + "\\" + y
  {
    hide JoinSep, Segs, Fold;
    SegmentsHere();
    TextOfPair(Windows, x, y);
    FoldThree(false, x, y, "");
    assert [] + [x] == [x] && [x] + [y] == [x, y];
    JoinTwoNames(Windows, x, y);
    Written(Windows, x + "\\" + y, Path("", false, [x, y]), [x, y]);
  }

  // ----- behind a drive's root: what follows climbs -----

  lemma ClimbBehindDriveIsLost()
    ensures JoinPaths(Windows, ["a", "C:\\..\\x"]) == "a\\x"
    ensures JoinPaths(Windows, [Normalize(Windows, "a"), Normalize(Windows, "C:\\..\\x")]) == "a\\C:\\x"
  {
    hide *;
    OneName(Windows, "a");
    ClimbedDrive();
    DriveAmongNames();
    ClimbThroughDrive();
  }

  lemma ClimbThroughDrive()
    ensures JoinPaths(Windows, ["a", "C:\\..\\x"]) == "a\\x"
  {
    hide *;
    SepIs();
    SegmentsHere();
    TextOfPair(Windows, "a", "C:\\..\\x");
    var p := "a\\C:\\..\\x";
    assert "a" + "\\" + "C:\\..\\x" == p == "a" + "\\" + "C:" + "\\" + ".." + "\\" + "x";
    FoldFour(false, "a", "C:", "..", "x");
    ThroughDrive();
    JoinFourNames(Windows, "a", "C:", "..", "x");
    JoinTwoNames(Windows, "a", "x");
    NoSepsIn(["a", "C:", "..", "x"]);
    OffDriveIs(p);
    assert p == "" + ("" + p);
    Written(Windows, p, Path("", false, ["a", "x"]), ["a", "C:", "..", "x"]);
    OffDriveRendered(["a", "x"], "a\\x");
    assert "a" + "\\" + "x" == "a\\x";
    Joined(Windows, "a", "C:\\..\\x", p);
  }

  lemma ClimbedDrive()
    ensures Normalize(Windows, "C:\\..\\x") == "C:\\x"
  {
    hide JoinSep, Segs, Fold;
    SegmentsHere();
    var p := "C:\\..\\x";
    FoldThree(true, "..", "x", "");
    assert [] + ["x"] == ["x"];
    JoinTwoNames(Windows, "..", "x");
    JoinOne(Windows, "x");
    assert p == "C:" + ("\\" + (".." + "\\" + "x")) && p[..2] == "C:";
    Written(Windows, p, Path("C:", true, ["x"]), ["..", "x"]);
  }

  lemma DriveAmongNames()
    ensures JoinPaths(Windows, ["a", "C:\\x"]) == "a\\C:\\x"
  {
    hide JoinSep, Segs, Fold;
    SegmentsHere();
    TextOfPair(Windows, "a", "C:\\x");
    var p := "a\\C:\\x";
    assert "a" + "\\" + "C:\\x" == p == "a" + "\\" + "C:" + "\\" + "x";
    FoldThree(false, "a", "C:", "x");
    assert [] + ["a"] == ["a"] && ["a"] + ["C:"] == ["a", "C:"] && ["a", "C:"] + ["x"] == ["a", "C:", "x"];
    JoinThreeNames(Windows, "a", "C:", "x");
    Written(Windows, p, Path("", false, ["a", "C:", "x"]), ["a", "C:", "x"]);
  }

  // ----- a first part that comes to its drive alone -----

  lemma DriveAloneIsRooted()
    ensures JoinPaths(Windows, ["C:.", "x"]) == "C:x"
    ensures JoinPaths(Windows, [Normalize(Windows, "C:."), Normalize(Windows, "x")]) == "C:\\x"
  {
    hide *;
    OneName(Windows, "x");
    DotBehindDrive();
    OnDrive("x");
    UnderDrive();
  }

  lemma SepIs()
    ensures Sep(Windows) == '\\'
  {
  }

  lemma OnDriveIs(p: string)
    requires p == "C:.\\x" || p == "C:x\\.."
    ensures Drive(Windows, p) == "C:" && !Absolute(Windows, p)
  {
  }

  lemma OffDriveIs(p: string)
    requires |p| > 1 && p[1] != ':' && !IsSep(p[0])
    ensures Drive(Windows, p) == "" && !Absolute(Windows, p)
  {
  }

  lemma NoSepsIn(segs: seq<string>)
    requires forall i :: 0 <= i < |segs| ==> NoSep(segs[i])
    ensures AllNoSep(segs)
  {
  }

  lemma DriveRendered(stack: seq<string>, text: string)
    requires JoinSep(Windows, stack) == text
    ensures Render(Windows, Path("C:", false, stack)) == "C:" + text
  {
    hide JoinSep;
    assert "C:" + "" + text == "C:" + text;
  }

  lemma OffDriveRendered(stack: seq<string>, text: string)
    requires JoinSep(Windows, stack) == text && text != ""
    ensures Render(Windows, Path("", false, stack)) == text
  {
    hide JoinSep;
    assert "" + "" + text == text;
  }

  lemma NameThenUp(name: string)
    requires name != "" && name != "." && name != ".."
    ensures Reduce(false, Reduce(false, [], name), "..") == []
  {
    assert [] + [name] == [name];
  }

  lemma ThroughDrive()
    ensures Reduce(false, Reduce(false, Reduce(false, Reduce(false, [], "a"), "C:"), ".."), "x") == ["a", "x"]
  {
    assert [] + ["a"] == ["a"] && ["a"] + ["C:"] == ["a", "C:"];
    assert ["a", "C:"][..1] == ["a"] && ["a"] + ["x"] == ["a", "x"];
  }

  lemma Joined(pl: Platform, a: string, b: string, p: string)
    requires JoinText(pl, [a, b]) == p
    ensures JoinPaths(pl, [a, b]) == Normalize(pl, p)
  {
    hide Normalize;
  }

  lemma OnDrive(x: string)
    requires x == "x"
    ensures JoinPaths(Windows, ["C:.", x]) == "C:x"
  {
    hide *;
    SepIs();
    SegmentsHere();
    TextOfPair(Windows, "C:.", x);
    var p := "C:.\\x";
    assert "C:." + "\\" + x == p == "C:" + ("" + (".\\x"));
    FoldThree(false, ".", "x", "");
    DotThenName("x");
    JoinTwoNames(Windows, ".", "x");
    assert "." + "\\" + "x" == ".\\x";
    OnDriveIs(p);
    NoSepsIn([".", "x"]);
    Written(Windows, p, Path("C:", false, ["x"]), [".", "x"]);
    JoinOne(Windows, "x");
    DriveRendered(["x"], "x");
    Joined(Windows, "C:.", x, p);
  }

  lemma UnderDrive()
    ensures JoinPaths(Windows, ["C:", "x"]) == "C:\\x"
  {
    hide JoinSep, Segs, Fold;
    SegmentsHere();
    TextOfPair(Windows, "C:", "x");
    var p := "C:\\x";
    assert "C:" + "\\" + "x" == p;
    FoldThree(true, "x", "", "");
    assert [] + ["x"] == ["x"];
    JoinOne(Windows, "x");
    assert p == "C:" + ("\\" + "x") && p[..2] == "C:";
    Written(Windows, p, Path("C:", true, ["x"]), ["x"]);
  }

  // ----- a first part that is taken for one on a drive -----

  /** join(".", "C:x", "..") is ".", and in two steps it is "C:"; so it is for join of
      the normal forms of ".\C:x" and "..". */
  lemma NameTakenForDrive()
    ensures JoinPaths(Windows, [".", "C:x", ".."]) == "."
    ensures JoinPaths(Windows, [JoinPaths(Windows, [".", "C:x"]), ".."]) == "C:"
    ensures JoinPaths(Windows, [".\\C:x", ".."]) == "."
    ensures JoinPaths(Windows, [Normalize(Windows, ".\\C:x"), Normalize(Windows, "..")]) == "C:"
  {
    hide *;
    DotThenDriveName();
    UpAlone();
    UpOnDrive();
    UpFromName();
    TextsOfThree();
  }

  lemma TextsOfThree()
    ensures JoinPaths(Windows, [".", "C:x"]) == Normalize(Windows, ".\\C:x")
    ensures JoinPaths(Windows, [".", "C:x", ".."]) == Normalize(Windows, ".\\C:x\\..")
    ensures JoinPaths(Windows, [".\\C:x", ".."]) == Normalize(Windows, ".\\C:x\\..")
  {
    hide Normalize;
    TextOfPair(Windows, ".", "C:x");
    assert "." + "\\" + "C:x" == ".\\C:x";
    TextOfPair(Windows, ".\\C:x", "..");
    assert [".", "C:x", ".."][..2] == [".", "C:x"];
    assert ".\\C:x" + "\\" + ".." == ".\\C:x\\..";
  }

  lemma DotThenDriveName()
    ensures Normalize(Windows, ".\\C:x") == "C:x"
  {
    hide JoinSep, Segs, Fold;
    SegmentsHere();
    FoldThree(false, ".", "C:x", "");
    assert [] + ["C:x"] == ["C:x"];
    JoinTwoNames(Windows, ".", "C:x");
    JoinOne(Windows, "C:x");
    assert ".\\C:x" == "." + "\\" + "C:x";
    Written(Windows, ".\\C:x", Path("", false, ["C:x"]), [".", "C:x"]);
  }

  lemma UpAlone()
    ensures Normalize(Windows, "..") == ".."
  {
    hide JoinSep, Segs, Fold;
    SegmentsHere();
    FoldThree(false, "..", "", "");
    assert [] + [".."] == [".."];
    JoinOne(Windows, "..");
    Written(Windows, "..", Path("", false, [".."]), [".."]);
  }

  lemma UpOnDrive()
    ensures JoinPaths(Windows, ["C:x", ".."]) == "C:"
  {
    hide *;
    SepIs();
    SegmentsHere();
    TextOfPair(Windows, "C:x", "..");
    var p := "C:x\\..";
    assert "C:x" + "\\" + ".." == p == "C:" + ("" + ("x\\.."));
    FoldThree(false, "x", "..", "");
    NameThenUp("x");
    JoinTwoNames(Windows, "x", "..");
    assert "x" + "\\" + ".." == "x\\..";
    OnDriveIs(p);
    NoSepsIn(["x", ".."]);
    Written(Windows, p, Path("C:", false, []), ["x", ".."]);
    JoinOne(Windows, "");
    DriveRendered([], "");
    Joined(Windows, "C:x", "..", p);
  }

  lemma UpFromName()
    ensures Normalize(Windows, ".\\C:x\\..") == "."
  {
    hide JoinSep, Segs, Fold;
    SegmentsHere();
    var p := ".\\C:x\\..";
    FoldThree(false, ".", "C:x", "..");
    assert [] + ["C:x"] == ["C:x"] && ["C:x"][..0] == [];
    JoinThreeNames(Windows, ".", "C:x", "..");
    JoinOne(Windows, "");
    assert p == "." + "\\" + "C:x" + "\\" + "..";
    Written(Windows, p, Path("", false, []), [".", "C:x", ".."]);
  }

  // ----- POSIX: a rooted second part that climbs -----

  lemma ClimbBehindRootIsLost()
    ensures JoinPaths(Posix, ["a", "/../b"]) == "b"
    ensures JoinPaths(Posix, [Normalize(Posix, "a"), Normalize(Posix, "/../b")]) == "a/b"
  {
    hide *;
    OneName(Posix, "a");
    ClimbThroughRoot();
    ClimbedRoot();
    RootAmongNames();
  }

  lemma ClimbThroughRoot()
    ensures JoinPaths(Posix, ["a", "/../b"]) == "b"
  {
    hide JoinSep, Segs, Fold;
    SegmentsHere();
    TextOfPair(Posix, "a", "/../b");
    var p := "a//../b";
    assert "a" + "/" + "/../b" == p == "a" + "/" + "" + "/" + ".." + "/" + "b";
    FoldFour(false, "a", "", "..", "b");
    assert [] + ["a"] == ["a"] && ["a"][..0] == [] && [] + ["b"] == ["b"];
    JoinFourNames(Posix, "a", "", "..", "b");
    JoinOne(Posix, "b");
    Written(Posix, p, Path("", false, ["b"]), ["a", "", "..", "b"]);
  }

  lemma ClimbedRoot()
    ensures Normalize(Posix, "/../b") == "/b"
  {
    hide JoinSep, Segs, Fold;
    SegmentsHere();
    FoldThree(true, "..", "b", "");
    assert [] + ["b"] == ["b"];
    JoinTwoNames(Posix, "..", "b");
    JoinOne(Posix, "b");
    assert "/../b" == "" + ("/" + (".." + "/" + "b"));
    Written(Posix, "/../b", Path("", true, ["b"]), ["..", "b"]);
  }

  lemma RootAmongNames()
    ensures JoinPaths(Posix, ["a", "/b"]) == "a/b"
  {
    hide JoinSep, Segs, Fold;
    SegmentsHere();
    TextOfPair(Posix, "a", "/b");
    var p := "a//b";
    assert "a" + "/" + "/b" == p == "a" + "/" + "" + "/" + "b";
    FoldThree(false, "a", "", "b");
    assert [] + ["a"] == ["a"] && ["a"] + ["b"] == ["a", "b"];
    JoinThreeNames(Posix, "a", "", "b");
    JoinTwoNames(Posix, "a", "b");
    Written(Posix, p, Path("", false, ["a", "b"]), ["a", "", "b"]);
  }

  // ----- resolve: a share whose directory is taken for a drive -----

  /** "..", in a directory that is taken for a drive once it is normalized. */
  lemma ShareTakenForDrive()
    ensures ResolvePaths(Windows, "\\\\:a", [".."]) == "\\"
    ensures Changed(Windows, ResolvePaths(Windows, "\\\\:a", []), "..") == "\\:"
  {
    hide *;
    var cwd := "\\\\:a";
    ShareGathered();
    ShareAlone();
    ShareLeft();
    DriveLeft();
    UpIsRelative();
  }

  lemma UpIsRelative()
    ensures Changed(Windows, "\\:a", "..") == Normalize(Windows, "\\:a\\..")
  {
    hide Normalize;
    assert "\\:a" + "\\" + ".." == "\\:a\\..";
  }

  lemma ShareGathered()
    ensures ResolvePaths(Windows, "\\\\:a", []) == Normalize(Windows, "\\\\:a\\")
    ensures ResolvePaths(Windows, "\\\\:a", [".."]) == Normalize(Windows, "\\\\:a\\..\\")
  {
    hide Normalize;
    assert [".."][..0] == [];
    assert "\\\\:a" + "\\" + "" == "\\\\:a\\";
    assert "\\\\:a" + "\\" + (".." + "\\" + "") == "\\\\:a\\..\\";
  }

  lemma ShareAlone()
    ensures Normalize(Windows, "\\\\:a\\") == "\\:a"
  {
    hide JoinSep, Segs, Fold;
    FoldThree(true, "", ":a", "");
    assert [] + [":a"] == [":a"];
    JoinThreeNames(Windows, "", ":a", "");
    JoinOne(Windows, ":a");
    assert "\\\\:a\\" == "" + ("\\" + ("" + "\\" + ":a" + "\\" + ""));
    Written(Windows, "\\\\:a\\", Path("", true, [":a"]), ["", ":a", ""]);
  }

  lemma ShareLeft()
    ensures Normalize(Windows, "\\\\:a\\..\\") == "\\"
  {
    hide JoinSep, Segs, Fold;
    FoldFour(true, "", ":a", "..", "");
    assert [] + [":a"] == [":a"] && [":a"][..0] == [];
    JoinFourNames(Windows, "", ":a", "..", "");
    JoinOne(Windows, "");
    assert "\\\\:a\\..\\" == "" + ("\\" + ("" + "\\" + ":a" + "\\" + ".." + "\\" + ""));
    Written(Windows, "\\\\:a\\..\\", Path("", true, []), ["", ":a", "..", ""]);
  }

  lemma DriveLeft()
    ensures Normalize(Windows, "\\:a\\..") == "\\:"
  {
    hide JoinSep, Segs, Fold;
    FoldThree(false, "a", "..", "");
    assert [] + ["a"] == ["a"] && ["a"][..0] == [];
    JoinTwoNames(Windows, "a", "..");
    JoinOne(Windows, "");
    assert "\\:a\\.." == "\\:" + ("" + ("a" + "\\" + ".."));
    Written(Windows, "\\:a\\..", Path("\\:", false, []), ["a", ".."]);
  }
}
