/** The component path value: the levels of a normalized path and whether it
    starts at the root, with its constructors, resolution between two paths,
    and accessors. Every operation here returns a fresh value. */
module ComponentPaths {
  import opened Grammar
  import opened Normalization
  import opened HeadTail

  /** A component path. Its text is its levels joined with the separator,
      after a leading separator when it is absolute. */
  datatype ComponentPath = ComponentPath(levels: seq<string>, isAbsolute: bool)

  /** The levels of every constructed path are in normal form: concrete
      names, preceded in a relative path by a run of "..". */
  predicate Valid(p: ComponentPath) {
    Canonical(p.levels, p.isAbsolute)
  }

  /** The canonical text of a path. */
  function ToString(p: ComponentPath): string {
    Render(p.levels, p.isAbsolute)
  }

  // ---------------------------------------------------------------------------
  // Constructors

  /** The default-constructed path: its text is empty. */
  function Empty(): (p: ComponentPath)
    ensures Valid(p) && ToString(p) == ""
  {
    ComponentPath([], false)
  }

  /** Construction from text: the text is normalized, and construction fails
      exactly when normalization does, with the same error. */
  function FromString(text: string): (r: Result<ComponentPath>)
    ensures r.Ok? ==> Valid(r.value) && r.value.isAbsolute == IsAbsoluteText(text)
    ensures r.Ok? ==> Normalized(text) == Ok(ToString(r.value))
    ensures r.Err? ==> Normalized(text) == Err(r.error)
  {
    var absolute := IsAbsoluteText(text);
    match WalkFrom(Start, Elements(Body(text)), absolute)
    case Err(e) => Err(e)
    case Ok(w) => Ok(ComponentPath(w.stack, absolute))
  }

  /** Construction from a list of names and an absolute flag. The names are
      resolved exactly as the elements of a text are: empty and "." names are
      dropped, ".." is resolved, and a name holding an invalid character
      (the separator among them) is rejected. */
  function FromLevels(names: seq<string>, isAbsolute: bool): (r: Result<ComponentPath>)
    ensures r.Ok? ==> Valid(r.value) && r.value.isAbsolute == isAbsolute
    ensures r.Ok? ==> forall i :: 0 <= i < |names| ==> !HasInvalidChar(names[i])
  {
    match WalkFrom(Start, names, isAbsolute)
    case Err(e) => Err(e)
    case Ok(w) =>
      WalkAcceptsOnlyValid(Start, names, isAbsolute);
      Ok(ComponentPath(w.stack, isAbsolute))
  }

  /** The text of a valid path constructs that same path again, so a valid
      path is the only path its text constructs. */
  lemma {:induction false} FromStringToString(p: ComponentPath)
    ensures Valid(p) ==> FromString(ToString(p)) == Ok(p)
  {
    if Valid(p) {
      var s := ToString(p);
      RenderParts(p.levels, p.isAbsolute);
      if p.levels == [] {
        assert Elements(Body(s)) == [""];
        assert [""][..0] == [];
        assert WalkFrom(Start, [""], p.isAbsolute) == Ok(Start);
      } else {
        CanonicalWalk(p.levels, p.isAbsolute);
      }
    }
  }

  /** Constructing from names is constructing from the text those names
      spell, when every name is a non-empty piece of text between separators. */
  lemma {:induction false} FromLevelsIsFromString(names: seq<string>, isAbsolute: bool)
    requires forall i :: 0 <= i < |names| ==> names[i] != "" && Separator !in names[i]
    ensures FromLevels(names, isAbsolute) == FromString(Render(names, isAbsolute))
  {
    var s := Render(names, isAbsolute);
    if names == [] {
      assert Body(s) == "";
      assert Elements("") == [""];
      assert [""][..0] == [];
      assert WalkFrom(Start, [""], isAbsolute) == Ok(Start);
    } else {
      JoinWellSeparated(names);
      ElementsJoin(names);
      if isAbsolute {
        assert s[1..] == Join(names);
      }
      assert IsAbsoluteText(s) == isAbsolute;
      assert Body(s) == Join(names);
    }
  }

  /** Names that are all concrete construct a path with exactly those levels. */
  lemma {:induction false} FromLevelsOfNames(names: seq<string>, isAbsolute: bool)
    requires forall i :: 0 <= i < |names| ==> IsName(names[i])
    ensures FromLevels(names, isAbsolute) == Ok(ComponentPath(names, isAbsolute))
  {
    WalkNames(Start, names, isAbsolute);
    assert Start.stack + names == names;
  }

  // ---------------------------------------------------------------------------
  // Equality

  /** Two paths are equal when their texts are equal. On valid paths that is
      exactly equality of levels and absolute flag. */
  predicate Equal(p: ComponentPath, q: ComponentPath): (r: bool)
    ensures Valid(p) && Valid(q) ==> (r <==> p == q)
  {
    FromStringToString(p);
    FromStringToString(q);
    ToString(p) == ToString(q)
  }

  /** Two paths differ when their texts differ: the exact negation of `Equal`. */
  predicate NotEqual(p: ComponentPath, q: ComponentPath): (r: bool)
    ensures r <==> !Equal(p, q)
    ensures Valid(p) && Valid(q) ==> (r <==> p != q)
  {
    ToString(p) != ToString(q)
  }

  // ---------------------------------------------------------------------------
  // Resolution between two paths

  /** Resolves `p` against the absolute path `base`: an absolute `p` is
      returned unchanged; otherwise the levels of `p` are walked down from
      `base`, failing when a ".." climbs above the root. A relative `base`
      is an error. */
  function FormAbsolutePath(p: ComponentPath, base: ComponentPath): (r: Result<ComponentPath>)
    ensures p.isAbsolute ==> r == Ok(p)
    ensures !p.isAbsolute && !base.isAbsolute ==> r == Err(NotAbsolute)
    ensures r.Ok? ==> r.value.isAbsolute
    ensures Valid(p) && Valid(base) && r.Ok? ==> Valid(r.value)
  {
    if p.isAbsolute then Ok(p)
    else if !base.isAbsolute then Err(NotAbsolute)
    else
      match WalkFrom(Start, base.levels + p.levels, true)
      case Err(e) => Err(e)
      case Ok(w) =>
        assert Canonical(Start.stack, true);
        Ok(ComponentPath(w.stack, true))
  }

  /** Resolving a relative path against an absolute base is following its
      levels down from the base: it yields the location reached when that
      never climbs above the root, and fails with AboveRoot when it does. */
  lemma {:induction false} FormAbsolutePathFollows(p: ComponentPath, base: ComponentPath)
    requires Valid(p) && Valid(base) && !p.isAbsolute && base.isAbsolute
    ensures Follow(base.levels, p.levels).None? ==> FormAbsolutePath(p, base) == Err(AboveRoot)
    ensures Follow(base.levels, p.levels).Some? ==>
      FormAbsolutePath(p, base) == Ok(ComponentPath(Follow(base.levels, p.levels).value, true))
  {
    var es := base.levels + p.levels;
    forall i | 0 <= i < |es| ensures !HasInvalidChar(es[i]) {
      if i < |base.levels| {
        assert es[i] == base.levels[i];
      } else {
        assert es[i] == p.levels[i - |base.levels|];
        assert !HasInvalidChar("..") by {
          forall k | 0 <= k < 2 ensures ".."[k] !in InvalidChars { }
        }
      }
    }
    assert Canonical(Start.stack, true);
    AbsoluteWalkIsFollow(Start, es);
    FollowAppend([], base.levels, p.levels);
    FollowNames([], base.levels);
    assert [] + base.levels == base.levels;
  }

  /** The length of the longest common beginning of `a` and `b`. */
  function CommonPrefixLength(a: seq<string>, b: seq<string>): (n: nat)
    ensures n <= |a| && n <= |b|
    ensures a[..n] == b[..n]
    ensures n < |a| && n < |b| ==> a[n] != b[n]
    decreases |a|
  {
    if a == [] || b == [] || a[0] != b[0] then 0
    else 1 + CommonPrefixLength(a[1..], b[1..])
  }

  /** The relative path that leads from the absolute path `other` to the
      absolute path `p`: one ".." for each level of `other` below their
      common beginning, then the levels of `p` below it. Both must be absolute. */
  function FormRelativePath(p: ComponentPath, other: ComponentPath): (r: Result<ComponentPath>)
    ensures r.Err? <==> !p.isAbsolute || !other.isAbsolute
    ensures r.Err? ==> r.error == NotAbsolute
    ensures r.Ok? ==> !r.value.isAbsolute
    ensures Valid(p) && Valid(other) && r.Ok? ==> Valid(r.value)
  {
    if !p.isAbsolute || !other.isAbsolute then Err(NotAbsolute)
    else
      var c := CommonPrefixLength(p.levels, other.levels);
      var r := ComponentPath(Ups(|other.levels| - c) + p.levels[c..], false);
      assert Valid(p) ==> Valid(r) by {
        if Valid(p) {
          UpsThenNames(|other.levels| - c, p.levels[c..]);
        }
      }
      Ok(r)
  }

  /** A run of ".." followed by concrete names is the level list of a valid relative path. */
  lemma {:induction false} UpsThenNames(k: nat, names: seq<string>)
    requires forall i :: 0 <= i < |names| ==> IsName(names[i])
    ensures Canonical(Ups(k) + names, false)
  {
    var ls := Ups(k) + names;
    forall i | 0 <= i < |ls| ensures IsName(ls[i]) || ls[i] == ".." {
      if i >= k { assert ls[i] == names[i - k]; }
    }
    forall j | k <= j < |ls| ensures ls[j] != ".." {
      assert ls[j] == names[j - k];
    }
  }

  /** Resolving the relative path from `other` to `p` against `other` gives
      `p` back. */
  lemma {:induction false} RelativeThenAbsolute(p: ComponentPath, other: ComponentPath)
    requires Valid(p) && Valid(other) && p.isAbsolute && other.isAbsolute
    ensures FormRelativePath(p, other).Ok?
    ensures FormAbsolutePath(FormRelativePath(p, other).value, other) == Ok(p)
  {
    var c := CommonPrefixLength(p.levels, other.levels);
    var r := FormRelativePath(p, other).value;
    assert r.levels == Ups(|other.levels| - c) + p.levels[c..];
    WalkBack(p.levels, other.levels, c);
  }

  /** The absolute walk down `other`, up to its first `c` levels, and down
      the rest of `target` ends on `target`. */
  lemma {:induction false} WalkBack(target: seq<string>, other: seq<string>, c: nat)
    requires Canonical(target, true) && Canonical(other, true)
    requires c <= |target| && c <= |other| && target[..c] == other[..c]
    ensures WalkFrom(Start, other + (Ups(|other| - c) + target[c..]), true).Ok?
    ensures WalkFrom(Start, other + (Ups(|other| - c) + target[c..]), true).value.stack == target
  {
    var k := |other| - c;
    var rest := target[c..];
    assert other + (Ups(k) + rest) == (other + Ups(k)) + rest;
    WalkAppend(Start, other + Ups(k), rest, true);
    var w2 := WalkUpFrom(other, k);
    WalkNames(w2, rest, true);
    assert target[..c] + rest == target;
  }

  /** The absolute walk down `other` and then up `k` levels ends on its first levels. */
  lemma {:induction false} WalkUpFrom(other: seq<string>, k: nat) returns (w: Walk)
    requires Canonical(other, true) && k <= |other|
    ensures WalkFrom(Start, other + Ups(k), true) == Ok(w)
    ensures w.stack == other[..|other| - k]
  {
    WalkAppend(Start, other, Ups(k), true);
    WalkNames(Start, other, true);
    var w1 := WalkFrom(Start, other, true).value;
    assert w1.stack == other;
    WalkUps(w1, k);
    w := WalkFrom(w1, Ups(k), true).value;
  }

  /** The relative path from `other` to `p` is the shortest one: every valid
      relative path that leads from `other` to `p` has at least as many levels. */
  lemma {:induction false} RelativePathIsShortest(p: ComponentPath, other: ComponentPath, q: ComponentPath)
    requires Valid(p) && Valid(other) && p.isAbsolute && other.isAbsolute
    requires Valid(q) && !q.isAbsolute && FormAbsolutePath(q, other) == Ok(p)
    ensures FormRelativePath(p, other).Ok?
    ensures |FormRelativePath(p, other).value.levels| <= |q.levels|
  {
    FormAbsolutePathFollows(q, other);
    var k := ResolvedShape(other.levels, q.levels);
    var m := |other.levels| - k;
    CommonPrefixAtLeast(p.levels, other.levels, m);
    var c := CommonPrefixLength(p.levels, other.levels);
    assert |FormRelativePath(p, other).value.levels| == (|other.levels| - c) + (|p.levels| - c);
  }

  /** Following a valid relative path of `k` leading ".." from `base` keeps
      the first `|base| - k` levels of `base` and adds `|levels| - k` more. */
  lemma {:induction false} ResolvedShape(base: seq<string>, levels: seq<string>) returns (k: nat)
    requires Canonical(levels, false) && Follow(base, levels).Some?
    ensures k <= |levels| && k <= |base|
    ensures |Follow(base, levels).value| == (|base| - k) + (|levels| - k)
    ensures Follow(base, levels).value[..|base| - k] == base[..|base| - k]
  {
    k := LeadingUps(levels);
    var names := levels[k..];
    assert levels == Ups(k) + names;
    FollowAppend(base, Ups(k), names);
    FollowUps(base, k);
    var m := |base| - k;
    FollowNames(base[..m], names);
    assert Follow(base, levels).value == base[..m] + names;
  }

  /** The levels of a valid relative path are a run of "..", then concrete names. */
  lemma {:induction false} LeadingUps(ls: seq<string>) returns (k: nat)
    requires Canonical(ls, false)
    ensures k <= |ls| && ls[..k] == Ups(k)
    ensures forall i :: k <= i < |ls| ==> IsName(ls[i])
    decreases |ls|
  {
    if ls == [] {
      k := 0;
    } else if ls[|ls| - 1] == ".." {
      k := |ls|;
      assert forall i :: 0 <= i < |ls| ==> ls[i] == "..";
    } else {
      var init := ls[..|ls| - 1];
      k := LeadingUps(init);
      assert ls[..k] == init[..k];
    }
  }

  /** Climbing `k` levels from `base` reaches its first levels, or climbs
      above the root when `base` has fewer than `k` levels. */
  lemma {:induction false} FollowUps(base: seq<string>, k: nat)
    ensures k <= |base| ==> Follow(base, Ups(k)) == Some(base[..|base| - k])
    ensures k > |base| ==> Follow(base, Ups(k)) == None
  {
    if k == 0 {
      assert base[..|base|] == base;
    } else {
      var up := Ups(k - 1);
      assert Ups(k) == up + [".."];
      FollowUps(base, k - 1);
      FollowOneMore(base, up, "..");
      if k <= |base| {
        var loc := base[..|base| - (k - 1)];
        assert loc[..|loc| - 1] == base[..|base| - k];
      }
    }
  }

  /** Two sequences sharing their first `m` elements share a common beginning
      of at least `m`. */
  lemma {:induction false} CommonPrefixAtLeast(a: seq<string>, b: seq<string>, m: nat)
    requires m <= |a| && m <= |b| && a[..m] == b[..m]
    ensures CommonPrefixLength(a, b) >= m
  {
    forall i | 0 <= i < m ensures a[i] == b[i] {
      assert a[..m][i] == a[i] && b[..m][i] == b[i];
    }
  }

  /** The path from a path to itself is the empty path. */
  lemma {:induction false} RelativeToItself(p: ComponentPath)
    requires p.isAbsolute
    ensures FormRelativePath(p, p) == Ok(Empty())
  {
    CommonPrefixOfItself(p.levels);
    var c := CommonPrefixLength(p.levels, p.levels);
    assert Ups(|p.levels| - c) + p.levels[c..] == [];
    assert FormRelativePath(p, p) == Ok(ComponentPath([], false));
  }

  /** A sequence shares all of itself with itself. */
  lemma {:induction false} CommonPrefixOfItself(a: seq<string>)
    ensures CommonPrefixLength(a, a) == |a|
    decreases |a|
  {
    if a != [] {
      CommonPrefixOfItself(a[1..]);
    }
  }

  // ---------------------------------------------------------------------------
  // Accessors

  /** The name of the component a path leads to: its last level, or empty
      text for a path with no levels. */
  function ComponentName(p: ComponentPath): (name: string)
    ensures p.levels == [] ==> name == ""
    ensures p.levels != [] ==> SubcomponentNameAtLevel(p, |p.levels| - 1) == Ok(name)
  {
    if p.levels == [] then "" else p.levels[|p.levels| - 1]
  }

  /** The path of all levels but the last; a path with no levels is its own parent. */
  function ParentPath(p: ComponentPath): (r: ComponentPath)
    ensures r.isAbsolute == p.isAbsolute
    ensures p.levels != [] ==> r.levels + [ComponentName(p)] == p.levels
    ensures p.levels == [] ==> r == p
    ensures Valid(p) ==> Valid(r)
  {
    if p.levels == [] then p
    else ComponentPath(p.levels[..|p.levels| - 1], p.isAbsolute)
  }

  /** The text of the parent path; it constructs the parent path again. */
  function ParentPathString(p: ComponentPath): (s: string)
    ensures Valid(p) ==> FromString(s) == Ok(ParentPath(p))
  {
    var parent := ParentPath(p);
    FromStringToString(parent);
    ToString(parent)
  }

  /** The name at level `index`, counted from 0 at the top; an index at or
      past the number of levels is an error. */
  function SubcomponentNameAtLevel(p: ComponentPath, index: nat): (r: Result<string>)
    ensures r.Err? <==> index >= |p.levels|
    ensures r.Err? ==> r.error == IndexOutOfRange(index, |p.levels|)
    ensures Valid(p) && r.Ok? ==>
      index < |Elements(Body(ToString(p)))| && r.value == Elements(Body(ToString(p)))[index]
  {
    if index >= |p.levels| then Err(IndexOutOfRange(index, |p.levels|))
    else
      RenderPartsAt(p);
      Ok(p.levels[index])
  }

  /** A valid path with levels reads back its levels from its text: the fourth
      ensures of `RenderParts` behind an implication, so that the body of
      `SubcomponentNameAtLevel` can call it on any path. */
  lemma {:induction false} RenderPartsAt(p: ComponentPath)
    ensures Valid(p) && p.levels != [] ==> Elements(Body(ToString(p))) == p.levels
  {
    if Valid(p) {
      RenderParts(p.levels, p.isAbsolute);
    }
  }

  /** Splitting the text of a valid path gives the text of its parent and the
      name of its component. */
  lemma {:induction false} SplitOfPath(p: ComponentPath)
    requires Valid(p)
    ensures SplitPath(ToString(p)) == (ParentPathString(p), ComponentName(p))
  {
    SplitOfPathHolds(p);
    SplitPathIsTheSplit(ToString(p), ParentPathString(p), ComponentName(p));
  }

  /** The parent text and the component name meet the description of a split of the path's text. */
  lemma {:induction false} SplitOfPathHolds(p: ComponentPath)
    requires Valid(p)
    ensures IsSplit(ToString(p), ParentPathString(p), ComponentName(p))
  {
    var ls := p.levels;
    if ls == [] {
      assert ParentPathString(p) == ToString(p);
      if p.isAbsolute {
        assert ToString(p) == [Separator];
      } else {
        assert ToString(p) == "";
      }
    } else {
      var init := ls[..|ls| - 1];
      var last := ls[|ls| - 1];
      assert init + [last] == ls;
      assert ParentPathString(p) == Render(init, p.isAbsolute);
      SplitOfLevels(init, last, p.isAbsolute);
    }
  }

  /** The text of canonical levels splits into the text of all but the last
      level and the last level. */
  lemma {:induction false} SplitOfLevels(init: seq<string>, last: string, absolute: bool)
    requires Canonical(init + [last], absolute)
    ensures IsSplit(Render(init + [last], absolute), Render(init, absolute), last)
  {
    var ls := init + [last];
    CanonicalSolid(ls, absolute);
    assert ls[|ls| - 1] == last;
    assert Separator !in last;
    assert ls[..|ls| - 1] == init;
    CanonicalPrefix(ls, |ls| - 1, absolute);
    if init == [] {
      assert Join(ls) == last;
      if absolute {
        assert Render(ls, absolute) == [Separator] + last;
        assert Render(init, absolute) == [Separator];
        SplitAfterRoot(last);
      } else {
        assert Render(ls, absolute) == last;
        assert Render(init, absolute) == "";
      }
    } else {
      RenderParts(init, absolute);
      RenderLast(init, last, absolute);
      SplitAfterHead(Render(init, absolute), last);
    }
  }

  /** The text of levels with one more at the end is the text of the first
      levels, a separator and the last level. */
  lemma {:induction false} RenderLast(init: seq<string>, last: string, absolute: bool)
    requires init != []
    ensures Render(init + [last], absolute) == Render(init, absolute) + [Separator] + last
  {
    var ls := init + [last];
    assert ls[..|ls| - 1] == init;
    var j := Join(init);
    assert Join(ls) == j + [Separator] + last;
    if absolute {
      assert [Separator] + (j + [Separator] + last) == ([Separator] + j) + [Separator] + last;
    }
  }

  /** The first levels of a canonical list are canonical. */
  lemma {:induction false} CanonicalPrefix(ls: seq<string>, n: nat, absolute: bool)
    requires Canonical(ls, absolute) && n <= |ls|
    ensures Canonical(ls[..n], absolute)
  {
  }

  /** The root followed by a name splits into the root and the name. */
  lemma {:induction false} SplitAfterRoot(last: string)
    requires Separator !in last
    ensures IsSplit([Separator] + last, [Separator], last)
  {
    var s := [Separator] + last;
    assert s[0] == Separator;
    assert s[1..] == last;
  }

  /** A head that does not end in a separator, a separator and a name split
      into that head and that name. */
  lemma {:induction false} SplitAfterHead(head: string, last: string)
    requires |head| >= 1 && head[|head| - 1] != Separator
    requires Separator !in last
    ensures IsSplit(head + [Separator] + last, head, last)
  {
    var s := head + [Separator] + last;
    assert s[|head|] == Separator;
    assert s[|head| + 1..] == last;
    assert s[..|head|] == head;
  }
}
