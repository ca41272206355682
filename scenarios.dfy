/** The header's worked examples for normalization, and the model's own
    examples of splitting, of the leading run of "..", of an invalid character
    inside a name and of relative paths, each stated on the model. */
module Scenarios {
  import opened Grammar
  import opened Normalization
  import opened HeadTail
  import opened ComponentPaths

  /** The elements of three separator-free pieces joined by separators. */
  lemma {:induction false} ElementsOfThree(x: string, y: string, z: string)
    requires Separator !in x && Separator !in y && Separator !in z
    ensures Elements(x + [Separator] + y + [Separator] + z) == [x, y, z]
  {
    ElementsOfName(x);
    ElementsAppend(x, y);
    ElementsAppend(x + [Separator] + y, z);
  }

  /** The elements of four separator-free pieces joined by separators. */
  lemma {:induction false} ElementsOfFour(x: string, y: string, z: string, u: string)
    requires Separator !in x && Separator !in y && Separator !in z && Separator !in u
    ensures Elements(x + [Separator] + y + [Separator] + z + [Separator] + u) == [x, y, z, u]
  {
    ElementsOfThree(x, y, z);
    ElementsAppend(x + [Separator] + y + [Separator] + z, u);
  }

  /** A walk over two elements is two steps from the start. */
  lemma {:induction false} WalkTwo(e0: string, e1: string, absolute: bool, w1: Walk, r: Result<Walk>)
    requires Step(Start, e0, absolute) == Ok(w1) && Step(w1, e1, absolute) == r
    ensures WalkFrom(Start, [e0, e1], absolute) == r
  {
    WalkOneMore(Start, [], e0, absolute);
    assert [] + [e0] == [e0];
    WalkOneMore(Start, [e0], e1, absolute);
    assert [e0] + [e1] == [e0, e1];
  }

  /** A walk over three elements is three steps from the start. */
  lemma {:induction false} WalkThree(e0: string, e1: string, e2: string, absolute: bool, w1: Walk, w2: Walk, r: Result<Walk>)
    requires Step(Start, e0, absolute) == Ok(w1) && Step(w1, e1, absolute) == Ok(w2)
    requires Step(w2, e2, absolute) == r
    ensures WalkFrom(Start, [e0, e1, e2], absolute) == r
  {
    WalkTwo(e0, e1, absolute, w1, Ok(w2));
    WalkOneMore(Start, [e0, e1], e2, absolute);
    assert [e0, e1] + [e2] == [e0, e1, e2];
  }

  /** A walk over four elements is four steps from the start. */
  lemma {:induction false} WalkFour(e0: string, e1: string, e2: string, e3: string, absolute: bool,
                 w1: Walk, w2: Walk, w3: Walk, r: Result<Walk>)
    requires Step(Start, e0, absolute) == Ok(w1) && Step(w1, e1, absolute) == Ok(w2)
    requires Step(w2, e2, absolute) == Ok(w3) && Step(w3, e3, absolute) == r
    ensures WalkFrom(Start, [e0, e1, e2, e3], absolute) == r
  {
    WalkThree(e0, e1, e2, absolute, w1, w2, Ok(w3));
    WalkOneMore(Start, [e0, e1, e2], e3, absolute);
    assert [e0, e1, e2] + [e3] == [e0, e1, e2, e3];
  }

  /** Reading a concrete name pushes it and records that a name was read. */
  lemma {:induction false} StepName(w: Walk, e: string, absolute: bool)
    requires IsName(e)
    ensures Step(w, e, absolute) == Ok(Walk(w.stack + [e], true))
  {
  }

  // ---------------------------------------------------------------------------
  // "a///b" normalizes to "a/b"

  lemma WalkOfRepeated()
    ensures WalkFrom(Start, ["a", "", "", "b"], false) == Ok(Walk(["a", "b"], true))
  {
    var w1 := Walk(["a"], true);
    assert IsName("a") && IsName("b");
    StepName(Start, "a", false);
    assert [] + ["a"] == ["a"];
    StepName(w1, "b", false);
    assert ["a"] + ["b"] == ["a", "b"];
    WalkFour("a", "", "", "b", false, w1, w1, w1, Ok(Walk(["a", "b"], true)));
  }

  /** Repeated separators collapse into one. */
  lemma CollapsesRepeatedSeparators()
    ensures Normalized("a///b") == Ok("a/b")
  {
    ElementsOfFour("a", "", "", "b");
    assert "a" + [Separator] + "" + [Separator] + "" + [Separator] + "b" == "a///b";
    WalkOfRepeated();
    assert Join(["a", "b"]) == "a/b";
  }

  // ---------------------------------------------------------------------------
  // "a/b/c/" normalizes to "a/b/c"

  lemma WalkOfTrailing()
    ensures WalkFrom(Start, ["a", "b", "c", ""], false) == Ok(Walk(["a", "b", "c"], true))
  {
    assert IsName("a") && IsName("b") && IsName("c");
    WalkNames(Start, ["a", "b", "c"], false);
    assert Start.stack + ["a", "b", "c"] == ["a", "b", "c"];
    NamedStaysRelative(["a", "b", "c"]);
    WalkOneMore(Start, ["a", "b", "c"], "", false);
    assert ["a", "b", "c"] + [""] == ["a", "b", "c", ""];
  }

  /** A relative walk over one or more concrete names ends having read a name. */
  lemma {:induction false} NamedStaysRelative(names: seq<string>)
    requires names != [] && forall i :: 0 <= i < |names| ==> IsName(names[i])
    ensures WalkFrom(Start, names, false).Ok? && WalkFrom(Start, names, false).value.named
  {
    var init := names[..|names| - 1];
    WalkNames(Start, init, false);
    WalkOneMore(Start, init, names[|names| - 1], false);
    assert init + [names[|names| - 1]] == names;
  }

  /** A trailing separator is dropped. */
  lemma DropsTrailingSeparator()
    ensures Normalized("a/b/c/") == Ok("a/b/c")
  {
    ElementsOfFour("a", "b", "c", "");
    assert "a" + [Separator] + "b" + [Separator] + "c" + [Separator] + "" == "a/b/c/";
    WalkOfTrailing();
    ElementsOfThree("a", "b", "c");
    assert "a" + [Separator] + "b" + [Separator] + "c" == "a/b/c";
    JoinElements("a/b/c");
  }

  // ---------------------------------------------------------------------------
  // "/./a/../" normalizes to the root "/"

  lemma WalkOfBackToRoot()
    ensures WalkFrom(Start, [".", "a", "..", ""], true) == Ok(Walk([], true))
  {
    var w2 := Walk(["a"], true);
    assert IsName("a");
    StepName(Start, "a", true);
    assert [] + ["a"] == ["a"];
    assert ["a"][..0] == [];
    assert Step(w2, "..", true) == Ok(Walk([], true));
    WalkFour(".", "a", "..", "", true, Start, w2, Walk([], true), Ok(Walk([], true)));
  }

  /** A path that climbs back to the root normalizes to the root. */
  lemma ResolvesToRoot()
    ensures Normalized("/./a/../") == Ok("/")
  {
    assert Body("/./a/../") == "./a/../";
    ElementsOfFour(".", "a", "..", "");
    assert "." + [Separator] + "a" + [Separator] + ".." + [Separator] + "" == "./a/../";
    WalkOfBackToRoot();
    assert IsAbsoluteText("/./a/../");
    assert WalkFrom(Start, Elements(Body("/./a/../")), true) == Ok(Walk([], true));
    assert Join([]) == "";
    assert Render([], true) == "/";
  }

  // ---------------------------------------------------------------------------
  // "a/../.." climbs above the root of the expression

  lemma WalkOfAboveRoot()
    ensures WalkFrom(Start, ["a", "..", ".."], false) == Err(AboveRoot)
  {
    var w1 := Walk(["a"], true);
    assert IsName("a");
    StepName(Start, "a", false);
    assert [] + ["a"] == ["a"];
    assert ["a"][..0] == [];
    assert Step(w1, "..", false) == Ok(Walk([], true));
    WalkThree("a", "..", "..", false, w1, Walk([], true), Err(AboveRoot));
  }

  /** A relative path may not climb above its own start once it has named a component. */
  lemma RelativeAboveRootFails()
    ensures Normalized("a/../..") == Err(AboveRoot)
  {
    ElementsOfThree("a", "..", "..");
    assert "a" + [Separator] + ".." + [Separator] + ".." == "a/../..";
    WalkOfAboveRoot();
  }

  // ---------------------------------------------------------------------------
  // "/../a/b" is invalid

  /** An absolute path may not start with "..". */
  lemma AbsoluteUpFromRootFails()
    ensures Normalized("/../a/b") == Err(AboveRoot)
  {
    assert Body("/../a/b") == "../a/b";
    ElementsOfThree("..", "a", "b");
    assert ".." + [Separator] + "a" + [Separator] + "b" == "../a/b";
    WalkOneMore(Start, [], "..", true);
    assert [] + [".."] == [".."];
    assert WalkFrom(Start, [".."], true) == Err(AboveRoot);
    WalkOneMore(Start, [".."], "a", true);
    assert [".."] + ["a"] == ["..", "a"];
    WalkOneMore(Start, ["..", "a"], "b", true);
    assert ["..", "a"] + ["b"] == ["..", "a", "b"];
  }

  /** A relative path may start with "..", and is then already normalized. */
  lemma RelativeMayStartWithUp()
    ensures Normalized("../a/b") == Ok("../a/b")
  {
    ElementsOfThree("..", "a", "b");
    assert ".." + [Separator] + "a" + [Separator] + "b" == "../a/b";
    assert IsName("a") && IsName("b");
    assert Canonical(["..", "a", "b"], false);
    NormalFormIsFixpoint("../a/b");
  }

  // ---------------------------------------------------------------------------
  // "../a/../.." climbs back into the leading run of ".."

  lemma WalkOfBackIntoRun()
    ensures WalkFrom(Start, ["..", "a", "..", ".."], false) == Err(AboveRoot)
  {
    var w1 := Walk([".."], false);
    var w2 := Walk(["..", "a"], true);
    var w3 := Walk([".."], true);
    assert [] + [".."] == [".."];
    assert Step(Start, "..", false) == Ok(w1);
    assert IsName("a");
    StepName(w1, "a", false);
    assert [".."] + ["a"] == ["..", "a"];
    assert ["..", "a"][..1] == [".."];
    assert Step(w2, "..", false) == Ok(w3);
    WalkFour("..", "a", "..", "..", false, w1, w2, w3, Err(AboveRoot));
  }

  /** Once a name has been read, a ".." may cancel it but may not climb back
      into the leading run of "..". */
  lemma UpAfterNameFails()
    ensures Normalized("../a/../..") == Err(AboveRoot)
  {
    ElementsOfFour("..", "a", "..", "..");
    assert ".." + [Separator] + "a" + [Separator] + ".." + [Separator] + ".." == "../a/../..";
    WalkOfBackIntoRun();
  }

  // ---------------------------------------------------------------------------
  // Invalid characters

  /** An element holding an invalid character is rejected by name. */
  lemma RejectsAsterisk()
    ensures Normalized("a/b*c") == Err(InvalidCharacter("b*c"))
  {
    ElementsOfName("a");
    assert Separator !in "b*c";
    ElementsAppend("a", "b*c");
    assert "a" + [Separator] + "b*c" == "a/b*c";
    var w1 := Walk(["a"], true);
    assert IsName("a");
    StepName(Start, "a", false);
    assert [] + ["a"] == ["a"];
    assert "b*c"[1] in InvalidChars;
    WalkTwo("a", "b*c", false, w1, Err(InvalidCharacter("b*c")));
  }

  // ---------------------------------------------------------------------------
  // Splitting

  /** A text ending in a separator has an empty tail and a stripped head. */
  lemma SplitTrailing()
    ensures SplitPath("a/b/c/") == ("a/b/c", "")
  {
    assert AfterLastSeparator("a/b/c/") == 6;
    assert "a/b/c/"[..6] == "a/b/c/";
    assert "a/b/c/"[..5] == "a/b/c";
    assert StripTrailing("a/b/c/") == "a/b/c";
    assert "a/b/c/"[6..] == "";
  }

  /** A name just below the root splits into the root and the name. */
  lemma SplitBelowRoot()
    ensures SplitPath("/a") == ("/", "a")
  {
    assert "/a"[..1] == "/";
    assert AfterLastSeparator("/a") == 1;
  }

  /** Text without a separator is all tail. */
  lemma SplitNoSeparator()
    ensures SplitPath("abc") == ("", "abc")
  {
    assert Separator !in "abc";
  }

  // ---------------------------------------------------------------------------
  // Resolution

  /** From "/a/x/y" to "/a/b/c" is "../../b/c", and back again. */
  lemma RelativeBetweenSiblings()
    ensures FormRelativePath(ComponentPath(["a", "b", "c"], true), ComponentPath(["a", "x", "y"], true))
      == Ok(ComponentPath(["..", "..", "b", "c"], false))
    ensures FormAbsolutePath(ComponentPath(["..", "..", "b", "c"], false), ComponentPath(["a", "x", "y"], true))
      == Ok(ComponentPath(["a", "b", "c"], true))
  {
    var p := ComponentPath(["a", "b", "c"], true);
    var other := ComponentPath(["a", "x", "y"], true);
    assert ["a", "b", "c"][1..] == ["b", "c"];
    assert ["a", "x", "y"][1..] == ["x", "y"];
    assert CommonPrefixLength(["b", "c"], ["x", "y"]) == 0;
    assert CommonPrefixLength(p.levels, other.levels) == 1;
    assert Ups(2) == ["..", ".."];
    assert p.levels[1..] == ["b", "c"];
    assert ["..", ".."] + ["b", "c"] == ["..", "..", "b", "c"];
    assert IsName("a") && IsName("b") && IsName("c") && IsName("x") && IsName("y");
    assert Valid(p) && Valid(other);
    RelativeThenAbsolute(p, other);
  }
}
