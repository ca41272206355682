/** Normalization of component-path text: "." and empty elements are
    dropped, ".." cancels the concrete name before it, a relative path keeps
    its leading run of "..", and any other ".." that would climb above the
    root of the expression is an error, never a clamp. */
module Normalization {
  import opened Grammar

  /** The state of the left-to-right walk over the elements of a path: the
      stack of output elements, and whether a concrete name has been read. */
  datatype Walk = Walk(stack: seq<string>, named: bool)

  const Start: Walk := Walk([], false)

  /** A text is absolute when it starts with the separator. */
  predicate IsAbsoluteText(t: string) {
    |t| > 0 && t[0] == Separator
  }

  /** The text after the absolute marker, if there is one. */
  function Body(t: string): string {
    if IsAbsoluteText(t) then t[1..] else t
  }

  /** The elements of a normalized path: concrete names, preceded (in a
      relative path only) by a run of "..". A ".." is never preceded by a name. */
  predicate Canonical(ls: seq<string>, absolute: bool) {
    && (forall i :: 0 <= i < |ls| ==> IsName(ls[i]) || (ls[i] == ".." && !absolute))
    && (forall i, j :: 0 <= i < j < |ls| && ls[j] == ".." ==> ls[i] == "..")
  }

  /** One element of the walk. The rule for "..": it pops the concrete name on
      top of the stack; with no name to pop it is kept only in a relative path
      whose walk has not yet read any concrete name (the leading run of "..");
      anywhere else it climbs above the root of the expression. */
  function Step(w: Walk, e: string, absolute: bool): (r: Result<Walk>)
    ensures Canonical(w.stack, absolute) && r.Ok? ==> Canonical(r.value.stack, absolute)
  {
    if e == "" || e == "." then Ok(w)
    else if e == ".." then
      if |w.stack| > 0 && w.stack[|w.stack| - 1] != ".." then
        Ok(Walk(w.stack[..|w.stack| - 1], w.named))
      else if !absolute && !w.named then
        Ok(Walk(w.stack + [".."], false))
      else
        Err(AboveRoot)
    else if HasInvalidChar(e) then Err(InvalidCharacter(e))
    else Ok(Walk(w.stack + [e], true))
  }

  /** The walk over a sequence of elements, left to right, stopping at the first error. */
  function WalkFrom(w: Walk, es: seq<string>, absolute: bool): (r: Result<Walk>)
    ensures Canonical(w.stack, absolute) && r.Ok? ==> Canonical(r.value.stack, absolute)
    decreases |es|
  {
    if es == [] then Ok(w)
    else
      match WalkFrom(w, es[..|es| - 1], absolute)
      case Err(e) => Err(e)
      case Ok(v) => Step(v, es[|es| - 1], absolute)
  }

  /** The text of a path given by its elements and absolute flag. */
  function Render(ls: seq<string>, absolute: bool): string {
    if absolute then [Separator] + Join(ls) else Join(ls)
  }

  /** The normalized form of a path text, or the error normalizing it raises. */
  function Normalized(t: string): Result<string> {
    match WalkFrom(Start, Elements(Body(t)), IsAbsoluteText(t))
    case Err(e) => Err(e)
    case Ok(w) => Ok(Render(w.stack, IsAbsoluteText(t)))
  }

  /** Text in normal form: empty, root, or canonical elements after the optional root marker. */
  predicate NormalForm(s: string) {
    Body(s) == "" || Canonical(Elements(Body(s)), IsAbsoluteText(s))
  }

  // ---------------------------------------------------------------------------
  // Reference semantics: following elements from a location in the tree

  /** Where one element leads from the location `loc` (a list of names from the root). */
  function Descend(loc: seq<string>, e: string): Option<seq<string>> {
    if e == "" || e == "." then Some(loc)
    else if e == ".." then (if loc == [] then None else Some(loc[..|loc| - 1]))
    else Some(loc + [e])
  }

  /** Where a sequence of elements leads from `base`, or None if it climbs above the root. */
  function Follow(base: seq<string>, es: seq<string>): Option<seq<string>>
    decreases |es|
  {
    if es == [] then Some(base)
    else
      match Follow(base, es[..|es| - 1])
      case None => None
      case Some(loc) => Descend(loc, es[|es| - 1])
  }

  // ---------------------------------------------------------------------------
  // The scanning implementation

  /** Normalizes `path` in one left-to-right scan of its characters, keeping a
      stack of output elements that each complete element pushes to, pops
      from or leaves alone by one `Step`; throws (returns Err)
      at the first element that is invalid or climbs above the root. */
  method Normalize(path: string) returns (r: Result<string>)
    ensures r == Normalized(path)
  {
    var absolute := |path| > 0 && path[0] == Separator;
    var body := if absolute then path[1..] else path;
    var stack: seq<string> := [];
    var named := false;
    var current: string := "";
    ghost var done: seq<string> := [];
    var i := 0;
    assert body[..0] == [];
    while i <= |body|
      invariant 0 <= i <= |body| + 1
      invariant i <= |body| ==> Elements(body[..i]) == done + [current]
      invariant i > |body| ==> Elements(body) == done
      invariant WalkFrom(Start, done, absolute) == Ok(Walk(stack, named))
      decreases |body| + 1 - i
    {
      if i < |body| && body[i] != Separator {
        ElementsAddChar(body, i, done, current);
        current := current + [body[i]];
      } else {
        // `current` is complete: apply it to the stack
        CloseElement(body, i, done, current, Walk(stack, named), absolute);
        var next := Step(Walk(stack, named), current, absolute);
        if next.Err? {
          r := Err(next.error);
          return;
        }
        stack, named := next.value.stack, next.value.named;
        done := done + [current];
        current := "";
      }
      i := i + 1;
    }
    r := Ok(Render(stack, absolute));
  }

  /** Walking one more element is one more step. */
  lemma {:induction false} WalkOneMore(w: Walk, done: seq<string>, e: string, absolute: bool)
    ensures WalkFrom(w, done + [e], absolute) ==
      match WalkFrom(w, done, absolute)
      case Err(err) => Err(err)
      case Ok(v) => Step(v, e, absolute)
  {
    assert (done + [e])[..|done|] == done;
  }

  /** Reading a character other than the separator extends the current element. */
  lemma {:induction false} ElementsAddChar(body: string, i: nat, done: seq<string>, current: string)
    requires i < |body| && body[i] != Separator
    requires Elements(body[..i]) == done + [current]
    ensures Elements(body[..i + 1]) == done + [current + [body[i]]]
  {
    assert body[..i + 1][..i] == body[..i];
    assert (done + [current])[..|done|] == done;
  }

  /** Reading a separator closes the current element and opens an empty one. */
  lemma {:induction false} ElementsAddSeparator(body: string, i: nat, done: seq<string>, current: string)
    requires i < |body| && body[i] == Separator
    requires Elements(body[..i]) == done + [current]
    ensures Elements(body[..i + 1]) == done + [current] + [""]
  {
    assert body[..i + 1][..i] == body[..i];
  }

  /** An element closed by a separator or by the end of the text is an element of the whole text. */
  lemma {:induction false} CompletedElements(body: string, i: nat, done: seq<string>, current: string)
    requires i <= |body| && Elements(body[..i]) == done + [current]
    requires i < |body| ==> body[i] == Separator
    ensures |done| + 1 <= |Elements(body)|
    ensures Elements(body)[..|done| + 1] == done + [current]
  {
    if i == |body| {
      assert body[..i] == body;
    } else {
      var p := body[..i + 1];
      var m := |done| + 2;
      assert Elements(p) == done + [current] + [""] by {
        ElementsAddSeparator(body, i, done, current);
      }
      assert |Elements(body)| >= m && Elements(body)[..m - 1] == Elements(p)[..m - 1] by {
        ElementsExtend(p, body[i + 1..]);
        assert p + body[i + 1..] == body;
      }
      assert (done + [current] + [""])[..m - 1] == done + [current];
    }
  }

  /** Closing an element at a separator or at the end of the text: the walk
      takes one more step, a failure there is the failure of the whole text,
      and the scan goes on with a fresh empty element. */
  lemma {:induction false} CloseElement(body: string, i: nat, done: seq<string>, current: string, w: Walk, absolute: bool)
    requires i <= |body| && (i < |body| ==> body[i] == Separator)
    requires Elements(body[..i]) == done + [current]
    requires WalkFrom(Start, done, absolute) == Ok(w)
    ensures WalkFrom(Start, done + [current], absolute) == Step(w, current, absolute)
    ensures Step(w, current, absolute).Err? ==>
      WalkFrom(Start, Elements(body), absolute) == Step(w, current, absolute)
    ensures i < |body| ==> Elements(body[..i + 1]) == done + [current] + [""]
    ensures i == |body| ==> Elements(body) == done + [current]
  {
    CompletedElements(body, i, done, current);
    WalkOneMore(Start, done, current, absolute);
    if Step(w, current, absolute).Err? {
      ErrorPersists(body, done + [current], absolute);
    }
    if i < |body| {
      ElementsAddSeparator(body, i, done, current);
    } else {
      assert body[..i] == body;
    }
  }

  /** Once the walk over a prefix of the elements fails, the whole walk fails the same way. */
  lemma {:induction false} ErrorPersists(body: string, seen: seq<string>, absolute: bool)
    requires |seen| <= |Elements(body)| && Elements(body)[..|seen|] == seen
    requires WalkFrom(Start, seen, absolute).Err?
    ensures WalkFrom(Start, Elements(body), absolute) == WalkFrom(Start, seen, absolute)
  {
    var es := Elements(body);
    assert es == seen + es[|seen|..];
    WalkAppend(Start, seen, es[|seen|..], absolute);
  }

  // ---------------------------------------------------------------------------
  // Lemmas about the walk

  /** Walking two sequences one after the other is walking their concatenation. */
  lemma {:induction false} WalkAppend(w: Walk, xs: seq<string>, ys: seq<string>, absolute: bool)
    ensures WalkFrom(w, xs + ys, absolute) ==
      match WalkFrom(w, xs, absolute)
      case Err(e) => Err(e)
      case Ok(v) => WalkFrom(v, ys, absolute)
    decreases |ys|
  {
    if ys == [] {
      assert xs + ys == xs;
    } else {
      var ys' := ys[..|ys| - 1];
      WalkAppend(w, xs, ys', absolute);
      assert (xs + ys)[..|xs + ys| - 1] == xs + ys';
    }
  }

  /** Following two sequences one after the other is following their concatenation. */
  lemma {:induction false} FollowAppend(base: seq<string>, xs: seq<string>, ys: seq<string>)
    ensures Follow(base, xs + ys) ==
      match Follow(base, xs)
      case None => None
      case Some(loc) => Follow(loc, ys)
    decreases |ys|
  {
    if ys == [] {
      assert xs + ys == xs;
    } else {
      var ys' := ys[..|ys| - 1];
      FollowAppend(base, xs, ys');
      assert (xs + ys)[..|xs + ys| - 1] == xs + ys';
    }
  }

  /** Following concrete names from `base` descends through exactly those names. */
  lemma {:induction false} FollowNames(base: seq<string>, names: seq<string>)
    requires forall i :: 0 <= i < |names| ==> IsName(names[i])
    ensures Follow(base, names) == Some(base + names)
    decreases |names|
  {
    if names != [] {
      var init := names[..|names| - 1];
      FollowNames(base, init);
      assert IsName(names[|names| - 1]);
      assert base + init + [names[|names| - 1]] == base + names;
    } else {
      assert base + names == base;
    }
  }

  /** One step of the walk leads to the same places as the element it reads. */
  lemma {:induction false} StepMeaning(v: Walk, e: string, absolute: bool, base: seq<string>)
    requires Canonical(v.stack, absolute)
    requires Step(v, e, absolute).Ok?
    ensures Follow(base, v.stack + [e]) == Follow(base, Step(v, e, absolute).value.stack)
  {
    var s := v.stack + [e];
    assert s[..|s| - 1] == v.stack;
    if e == ".." && |v.stack| > 0 && v.stack[|v.stack| - 1] != ".." {
      var top := v.stack[|v.stack| - 1];
      var below := v.stack[..|v.stack| - 1];
      assert IsName(top);
      assert below + [top] == v.stack;
      FollowAppend(base, below, [top]);
      assert [top][..0] == [];
      match Follow(base, below)
      case None =>
      case Some(loc) =>
        assert (loc + [top])[..|loc|] == loc;
    }
  }

  /** Following one more element is one more descent. */
  lemma {:induction false} FollowOneMore(base: seq<string>, xs: seq<string>, e: string)
    ensures Follow(base, xs + [e]) ==
      match Follow(base, xs)
      case None => None
      case Some(loc) => Descend(loc, e)
  {
    assert (xs + [e])[..|xs|] == xs;
  }

  /** The walk preserves meaning: from any location, the elements it reads and
      the stack it leaves lead to the same place. */
  lemma {:induction false} WalkMeaning(w: Walk, es: seq<string>, absolute: bool, base: seq<string>)
    requires Canonical(w.stack, absolute)
    requires WalkFrom(w, es, absolute).Ok?
    ensures Follow(base, w.stack + es) == Follow(base, WalkFrom(w, es, absolute).value.stack)
    decreases |es|
  {
    if es == [] {
      assert w.stack + es == w.stack;
    } else {
      var init := es[..|es| - 1];
      var e := es[|es| - 1];
      assert es == init + [e];
      var v := WalkFrom(w, init, absolute).value;
      assert WalkFrom(w, es, absolute) == Step(v, e, absolute);
      WalkMeaning(w, init, absolute, base);
      assert w.stack + es == (w.stack + init) + [e];
      FollowOneMore(base, w.stack + init, e);
      FollowOneMore(base, v.stack, e);
      StepMeaning(v, e, absolute, base);
    }
  }

  /** The absolute walk agrees with following the elements from the root: it
      succeeds exactly when following never climbs above the root, ends on the
      same location, and otherwise fails with AboveRoot (it never clamps). */
  lemma {:induction false} AbsoluteWalkIsFollow(w: Walk, es: seq<string>)
    requires Canonical(w.stack, true)
    requires forall i :: 0 <= i < |es| ==> !HasInvalidChar(es[i])
    ensures Follow(w.stack, es).None? ==> WalkFrom(w, es, true) == Err(AboveRoot)
    ensures Follow(w.stack, es).Some? ==>
      WalkFrom(w, es, true).Ok? && WalkFrom(w, es, true).value.stack == Follow(w.stack, es).value
    decreases |es|
  {
    if es != [] {
      var init := es[..|es| - 1];
      var e := es[|es| - 1];
      AbsoluteWalkIsFollow(w, init);
      if Follow(w.stack, init).Some? {
        var v := WalkFrom(w, init, true).value;
        assert Canonical(v.stack, true);
        if e == ".." && |v.stack| > 0 {
          assert IsName(v.stack[|v.stack| - 1]);
        }
      }
    }
  }

  /** Walking a canonical sequence changes nothing: it is its own stack. */
  lemma {:induction false} CanonicalWalk(ls: seq<string>, absolute: bool)
    requires Canonical(ls, absolute)
    ensures WalkFrom(Start, ls, absolute) == Ok(Walk(ls, ls != [] && ls[|ls| - 1] != ".."))
    decreases |ls|
  {
    if ls != [] {
      var init := ls[..|ls| - 1];
      CanonicalWalk(init, absolute);
      assert init + [ls[|ls| - 1]] == ls;
    }
  }

  /** Pushing concrete names onto any walk state succeeds and appends them. */
  lemma {:induction false} WalkNames(w: Walk, names: seq<string>, absolute: bool)
    requires forall i :: 0 <= i < |names| ==> IsName(names[i])
    ensures WalkFrom(w, names, absolute).Ok?
    ensures WalkFrom(w, names, absolute).value.stack == w.stack + names
    decreases |names|
  {
    if names != [] {
      var init := names[..|names| - 1];
      WalkNames(w, init, absolute);
      assert w.stack + init + [names[|names| - 1]] == w.stack + names;
    }
  }

  /** `k` copies of "..". */
  function Ups(k: nat): (r: seq<string>)
    ensures |r| == k && forall i :: 0 <= i < k ==> r[i] == ".."
  {
    if k == 0 then [] else Ups(k - 1) + [".."]
  }

  /** In an absolute walk over concrete names, `k` ".." remove the last `k` names. */
  lemma {:induction false} WalkUps(w: Walk, k: nat)
    requires Canonical(w.stack, true) && k <= |w.stack|
    ensures WalkFrom(w, Ups(k), true).Ok?
    ensures WalkFrom(w, Ups(k), true).value.stack == w.stack[..|w.stack| - k]
  {
    if k > 0 {
      WalkUps(w, k - 1);
      assert Ups(k)[..k - 1] == Ups(k - 1);
      var v := WalkFrom(w, Ups(k - 1), true).value;
      assert v.stack[|v.stack| - 1] == w.stack[|w.stack| - k];
      assert IsName(w.stack[|w.stack| - k]);
      assert v.stack[..|v.stack| - 1] == w.stack[..|w.stack| - k];
    }
  }

  /** Every element a successful walk reads is free of invalid characters. */
  lemma {:induction false} WalkAcceptsOnlyValid(w: Walk, es: seq<string>, absolute: bool)
    requires WalkFrom(w, es, absolute).Ok?
    ensures forall i :: 0 <= i < |es| ==> !HasInvalidChar(es[i])
    decreases |es|
  {
    if es != [] {
      var init := es[..|es| - 1];
      WalkAcceptsOnlyValid(w, init, absolute);
      forall i | 0 <= i < |es| ensures !HasInvalidChar(es[i]) {
        if i < |init| { assert es[i] == init[i]; }
      }
    }
  }

  /** An InvalidCharacter error names an element of the walk that holds an invalid character. */
  lemma {:induction false} WalkInvalidNamesElement(w: Walk, es: seq<string>, absolute: bool, n: string)
    requires WalkFrom(w, es, absolute) == Err(InvalidCharacter(n))
    ensures HasInvalidChar(n) && n in es
    decreases |es|
  {
    var init := es[..|es| - 1];
    if WalkFrom(w, init, absolute).Err? {
      WalkInvalidNamesElement(w, init, absolute, n);
    }
  }

  /** The number of ".." among `es`. */
  function UpCount(es: seq<string>): nat
    decreases |es|
  {
    if es == [] then 0
    else UpCount(es[..|es| - 1]) + (if es[|es| - 1] == ".." then 1 else 0)
  }

  /** A relative walk keeps the leading run of ".." (dropping the "." and
      empty elements among it) and treats everything from the first other
      element on as an absolute walk below those "..": a later ".." may cancel
      names read after the run but may never climb back into it. */
  lemma {:induction false} RelativeIsLeadingUpsThenAbsolute(lead: seq<string>, rest: seq<string>)
    requires forall i :: 0 <= i < |lead| ==> lead[i] == "" || lead[i] == "." || lead[i] == ".."
    requires rest != [] ==> rest[0] != "" && rest[0] != "." && rest[0] != ".."
    ensures WalkFrom(Start, lead + rest, false) ==
      match WalkFrom(Start, rest, true)
      case Err(e) => Err(e)
      case Ok(v) => Ok(Walk(Ups(UpCount(lead)) + v.stack, v.named))
  {
    LeadingRun(lead);
    var u := Walk(Ups(UpCount(lead)), false);
    WalkAppend(Start, lead, rest, false);
    if rest == [] {
      assert lead + rest == lead;
      assert u.stack + [] == u.stack;
    } else {
      var first := rest[0];
      WalkAppend(Start, [first], rest[1..], true);
      WalkAppend(u, [first], rest[1..], false);
      assert [first] + rest[1..] == rest;
      assert [first][..0] == [];
      if !HasInvalidChar(first) {
        var a := Walk([first], true);
        assert WalkFrom(Start, [], true) == Ok(Start);
        assert Start.stack + [first] == [first];
        assert Step(Start, first, true) == Ok(a);
        assert WalkFrom(Start, [first], true) == Ok(a);
        assert WalkFrom(u, [], false) == Ok(u);
        assert WalkFrom(u, [first], false) == Ok(Walk(u.stack + a.stack, true));
        RelativeTracksAbsolute(u.stack, a, rest[1..]);
      }
    }
  }

  /** Walking only "", "." and ".." relatively keeps every "..", and reads no name. */
  lemma {:induction false} LeadingRun(lead: seq<string>)
    requires forall i :: 0 <= i < |lead| ==> lead[i] == "" || lead[i] == "." || lead[i] == ".."
    ensures WalkFrom(Start, lead, false) == Ok(Walk(Ups(UpCount(lead)), false))
    decreases |lead|
  {
    if lead != [] {
      LeadingRun(lead[..|lead| - 1]);
    }
  }

  /** One step of a relative walk over `ups + v.stack`, after a name has been
      read, is the absolute step over `v.stack` with the same "..": on top. */
  lemma {:induction false} StepTracksAbsolute(ups: seq<string>, v: Walk, e: string)
    requires forall i :: 0 <= i < |ups| ==> ups[i] == ".."
    requires v.named && Canonical(v.stack, true)
    ensures Step(Walk(ups + v.stack, true), e, false) ==
      match Step(v, e, true)
      case Err(err) => Err(err)
      case Ok(x) => Ok(Walk(ups + x.stack, x.named))
  {
    var s := ups + v.stack;
    assert s + [e] == ups + (v.stack + [e]);
    if |v.stack| > 0 {
      assert s[|s| - 1] == v.stack[|v.stack| - 1];
      assert IsName(v.stack[|v.stack| - 1]);
      assert s[..|s| - 1] == ups + v.stack[..|v.stack| - 1];
    } else {
      assert s == ups;
      assert |ups| > 0 ==> ups[|ups| - 1] == "..";
    }
  }

  /** Once a name has been read, a relative walk over a stack `ups + s` moves
      exactly like an absolute walk over `s`. */
  lemma {:induction false} RelativeTracksAbsolute(ups: seq<string>, a: Walk, es: seq<string>)
    requires forall i :: 0 <= i < |ups| ==> ups[i] == ".."
    requires a.named && Canonical(a.stack, true)
    ensures WalkFrom(Walk(ups + a.stack, true), es, false) ==
      match WalkFrom(a, es, true)
      case Err(e) => Err(e)
      case Ok(v) => Ok(Walk(ups + v.stack, v.named))
    decreases |es|
  {
    if es != [] {
      var init := es[..|es| - 1];
      RelativeTracksAbsolute(ups, a, init);
      match WalkFrom(a, init, true)
      case Err(_) =>
      case Ok(v) =>
        NamedStays(a, init);
        StepTracksAbsolute(ups, v, es[|es| - 1]);
    }
  }

  /** Once a name has been read, the walk remembers it. */
  lemma {:induction false} NamedStays(w: Walk, es: seq<string>)
    requires w.named && WalkFrom(w, es, true).Ok?
    ensures WalkFrom(w, es, true).value.named
    decreases |es|
  {
    if es != [] {
      NamedStays(w, es[..|es| - 1]);
    }
  }

  // ---------------------------------------------------------------------------
  // Properties of normalization

  /** Canonical elements are non-empty and hold no separator. */
  lemma {:induction false} CanonicalSolid(ls: seq<string>, absolute: bool)
    requires Canonical(ls, absolute)
    ensures SolidElements(ls)
  {
    forall i | 0 <= i < |ls| ensures ls[i] != "" && Separator !in ls[i] {
      forall k | 0 <= k < |ls[i]| ensures ls[i][k] != Separator {
        assert Separator in InvalidChars;
      }
    }
  }

  /** The text of canonical elements reads back as the same absolute flag and elements. */
  lemma {:induction false} RenderParts(ls: seq<string>, absolute: bool)
    requires Canonical(ls, absolute)
    ensures IsAbsoluteText(Render(ls, absolute)) == absolute
    ensures Body(Render(ls, absolute)) == Join(ls)
    ensures ls == [] <==> Join(ls) == ""
    ensures ls != [] ==> Elements(Join(ls)) == ls
    ensures NoRepeatedSeparator(Render(ls, absolute))
    ensures |Render(ls, absolute)| > 0 && Render(ls, absolute)[|Render(ls, absolute)| - 1] == Separator
      ==> Render(ls, absolute) == [Separator]
  {
    CanonicalSolid(ls, absolute);
    var r := Render(ls, absolute);
    if ls == [] {
      assert Join(ls) == "";
      assert r == (if absolute then [Separator] else "");
    } else {
      JoinWellSeparated(ls);
      ElementsJoin(ls);
      var j := Join(ls);
      if absolute {
        assert r == [Separator] + j;
        assert r[1..] == j;
        forall i | 0 <= i < |r| - 1 ensures !(r[i] == Separator && r[i + 1] == Separator) {
          if i == 0 {
            assert r[1] == j[0];
          } else {
            assert r[i] == j[i - 1] && r[i + 1] == j[i];
          }
        }
        assert r[|r| - 1] == j[|j| - 1];
      }
    }
  }

  /** A successful normalization is in normal form: no "." element, no empty
      element (so no repeated separator and no trailing separator unless the
      result is the root), names free of invalid characters, and ".." only as
      the leading run of a relative path. The absolute flag is kept. */
  lemma {:induction false} NormalizedIsNormalForm(t: string)
    requires Normalized(t).Ok?
    ensures NormalForm(Normalized(t).value)
    ensures IsAbsoluteText(Normalized(t).value) == IsAbsoluteText(t)
    ensures NoRepeatedSeparator(Normalized(t).value)
    ensures var s := Normalized(t).value; |s| > 0 && s[|s| - 1] == Separator ==> s == [Separator]
  {
    var absolute := IsAbsoluteText(t);
    var w := WalkFrom(Start, Elements(Body(t)), absolute).value;
    RenderParts(w.stack, absolute);
  }

  /** Text in normal form is left unchanged by normalization. */
  lemma {:induction false} NormalFormIsFixpoint(s: string)
    requires NormalForm(s)
    ensures Normalized(s) == Ok(s)
  {
    var absolute := IsAbsoluteText(s);
    var b := Body(s);
    assert absolute ==> s == [Separator] + b;
    var ls := Elements(b);
    if b == "" {
      assert ls == [""];
      assert [""][..0] == [];
      assert WalkFrom(Start, ls, absolute) == Ok(Start);
      assert Join([]) == "";
      assert Render([], absolute) == s;
    } else {
      CanonicalWalk(ls, absolute);
      JoinElements(b);
      assert Render(ls, absolute) == s;
    }
  }

  /** Normalization is idempotent, and a text is its own normal form exactly when it is in normal form. */
  lemma {:induction false} NormalizedIdempotent(t: string)
    ensures Normalized(t).Ok? ==> Normalized(Normalized(t).value) == Normalized(t)
    ensures Normalized(t) == Ok(t) <==> NormalForm(t)
  {
    if Normalized(t).Ok? {
      NormalizedIsNormalForm(t);
      NormalFormIsFixpoint(Normalized(t).value);
    }
    if NormalForm(t) {
      NormalFormIsFixpoint(t);
    }
  }

  /** Normalization succeeds only on text free of invalid characters, and an
      InvalidCharacter error names an element of the text that holds one. */
  lemma {:induction false} NormalizedRejectsInvalid(t: string)
    ensures Normalized(t).Ok? ==> forall c :: c in t && c != Separator ==> c !in InvalidChars
    ensures Normalized(t).Err? && Normalized(t).error.InvalidCharacter? ==>
      HasInvalidChar(Normalized(t).error.name) && Normalized(t).error.name in Elements(Body(t))
  {
    var absolute := IsAbsoluteText(t);
    var es := Elements(Body(t));
    match WalkFrom(Start, es, absolute)
    case Ok(_) =>
      WalkAcceptsOnlyValid(Start, es, absolute);
      JoinElements(Body(t));
      forall c | c in t && c != Separator ensures c !in InvalidChars {
        assert c in Body(t) by {
          if absolute {
            assert t == [t[0]] + Body(t);
          }
        }
        JoinOfValidIsValid(es, c);
      }
    case Err(e) =>
      if e.InvalidCharacter? {
        WalkInvalidNamesElement(Start, es, absolute, e.name);
      }
  }

  /** A character of a join of elements free of invalid characters is not invalid. */
  lemma {:induction false} JoinOfValidIsValid(es: seq<string>, c: char)
    requires forall i :: 0 <= i < |es| ==> !HasInvalidChar(es[i])
    requires c in Join(es) && c != Separator
    ensures c !in InvalidChars
  {
    JoinCovers(es, c);
    var k :| 0 <= k < |es| && c in es[k];
    var j :| 0 <= j < |es[k]| && es[k][j] == c;
    assert !HasInvalidChar(es[k]);
  }

  /** Every element of a text is made of characters of the text other than the separator. */
  lemma {:induction false} ElementCharsFromText(t: string)
    ensures forall i, k :: 0 <= i < |Elements(Body(t))| && 0 <= k < |Elements(Body(t))[i]| ==>
      Elements(Body(t))[i][k] in t && Elements(Body(t))[i][k] != Separator
  {
    var es := Elements(Body(t));
    JoinElements(Body(t));
    forall i, k | 0 <= i < |es| && 0 <= k < |es[i]| ensures es[i][k] in t && es[i][k] != Separator {
      assert es[i][k] in es[i];
      JoinContains(es, i, es[i][k]);
      if IsAbsoluteText(t) {
        assert t == [t[0]] + Body(t);
      }
    }
  }

  /** A text free of invalid characters has elements free of them. */
  lemma {:induction false} ValidTextValidElements(t: string)
    requires forall c :: c in t ==> c == Separator || c !in InvalidChars
    ensures forall i :: 0 <= i < |Elements(Body(t))| ==> !HasInvalidChar(Elements(Body(t))[i])
  {
    ElementCharsFromText(t);
  }

  /** A walk over elements free of invalid characters never fails with InvalidCharacter. */
  lemma {:induction false} WalkValidElements(w: Walk, es: seq<string>, absolute: bool)
    requires forall i :: 0 <= i < |es| ==> !HasInvalidChar(es[i])
    ensures !(WalkFrom(w, es, absolute).Err? && WalkFrom(w, es, absolute).error.InvalidCharacter?)
    decreases |es|
  {
    if es != [] {
      WalkValidElements(w, es[..|es| - 1], absolute);
    }
  }

  /** Text free of invalid characters never fails with InvalidCharacter. */
  lemma {:induction false} NormalizedAcceptsValid(t: string)
    requires forall c :: c in t ==> c == Separator || c !in InvalidChars
    ensures !(Normalized(t).Err? && Normalized(t).error.InvalidCharacter?)
  {
    ValidTextValidElements(t);
    WalkValidElements(Start, Elements(Body(t)), IsAbsoluteText(t));
  }

  /** For an absolute text free of invalid characters, normalization is
      exactly following its elements down from the root: it yields the
      location reached when that never climbs above the root, and fails with
      AboveRoot (never clamping to the root) when it does. */
  lemma {:induction false} NormalizedAbsoluteIsFollow(t: string)
    requires IsAbsoluteText(t)
    requires forall c :: c in t ==> c == Separator || c !in InvalidChars
    ensures Follow([], Elements(Body(t))).None? ==> Normalized(t) == Err(AboveRoot)
    ensures Follow([], Elements(Body(t))).Some? ==>
      Normalized(t) == Ok(Render(Follow([], Elements(Body(t))).value, true))
  {
    ValidTextValidElements(t);
    AbsoluteWalkIsFollow(Start, Elements(Body(t)));
  }

  /** Normalization preserves meaning: from any location, the elements of the
      text and of its normal form lead to the same place. */
  lemma {:induction false} NormalizedPreservesMeaning(t: string, base: seq<string>)
    requires Normalized(t).Ok?
    ensures Follow(base, Elements(Body(t))) == Follow(base, Elements(Body(Normalized(t).value)))
  {
    var absolute := IsAbsoluteText(t);
    var es := Elements(Body(t));
    var w := WalkFrom(Start, es, absolute).value;
    WalkMeaning(Start, es, absolute, base);
    assert Start.stack + es == es;
    var s := Render(w.stack, absolute);
    assert Normalized(t).value == s;
    RenderParts(w.stack, absolute);
    if w.stack == [] {
      assert Elements(Body(s)) == [""];
      assert [""][..0] == [];
      assert Follow(base, [""]) == Some(base);
    } else {
      assert Elements(Body(s)) == w.stack;
    }
  }
}
