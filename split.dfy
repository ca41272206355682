/** Splitting a path text into the head before its last component and the
    tail that is its last component. The split neither resolves relative
    elements nor checks for invalid characters. */
module HeadTail {
  import opened Grammar

  /** The position just after the last separator of `s`, or 0 when `s` has none. */
  function AfterLastSeparator(s: string): (k: nat)
    ensures k <= |s|
    ensures k > 0 ==> s[k - 1] == Separator
    ensures forall i :: k <= i < |s| ==> s[i] != Separator
    ensures k == 0 ==> Separator !in s
    decreases |s|
  {
    if s == [] then 0
    else if s[|s| - 1] == Separator then |s|
    else AfterLastSeparator(s[..|s| - 1])
  }

  /** `s` without its trailing separators, except that a text made only of
      separators keeps one: the root. */
  function StripTrailing(s: string): (r: string)
    ensures |r| <= |s| && r == s[..|r|]
    ensures |s| >= 1 ==> |r| >= 1
    ensures forall i :: |r| <= i < |s| ==> s[i] == Separator
    ensures |r| >= 1 && r[|r| - 1] == Separator ==> r == [Separator]
    decreases |s|
  {
    if |s| > 1 && s[|s| - 1] == Separator then StripTrailing(s[..|s| - 1]) else s
  }

  /** The (head, tail) pair of a path text. */
  function SplitPath(path: string): (string, string)
  {
    var k := AfterLastSeparator(path);
    if k == 0 then ("", path) else (StripTrailing(path[..k]), path[k..])
  }

  /** What a split promises, stated without computing it: with no separator,
      the head is empty and the tail is the whole text; otherwise the tail is
      the separator-free end of the text after a separator, the head is a
      non-empty beginning of the text that does not end in a separator unless
      it is the root, and only separators stand between head and tail. */
  ghost predicate IsSplit(path: string, head: string, tail: string) {
    if Separator !in path then head == "" && tail == path
    else
      && Separator !in tail
      && |tail| < |path|
      && tail == path[|path| - |tail|..]
      && path[|path| - |tail| - 1] == Separator
      && 1 <= |head| <= |path| - |tail|
      && head == path[..|head|]
      && (forall i :: |head| <= i < |path| - |tail| ==> path[i] == Separator)
      && (head[|head| - 1] == Separator ==> head == [Separator])
  }

  /** The properties of a split, one by one: the tail never holds a
      separator; it is empty when the text ends in a separator; the head is
      empty when the text has no separator; both are empty for empty text;
      and trailing separators are stripped from the head unless it is the root. */
  lemma {:induction false} SplitProperties(path: string)
    ensures Separator !in SplitPath(path).1
    ensures |path| > 0 && path[|path| - 1] == Separator ==> SplitPath(path).1 == ""
    ensures Separator !in path ==> SplitPath(path).0 == ""
    ensures path == "" ==> SplitPath(path) == ("", "")
    ensures var h := SplitPath(path).0; |h| > 0 && h[|h| - 1] == Separator ==> h == [Separator]
  {
    var k := AfterLastSeparator(path);
    if k > 0 {
      var tail := path[k..];
      assert Separator !in tail by {
        forall j | 0 <= j < |tail| ensures tail[j] != Separator { assert tail[j] == path[k + j]; }
      }
    }
  }

  /** SplitPath meets the description of a split, and it is the only pair that does. */
  lemma {:induction false} SplitPathIsTheSplit(path: string, head: string, tail: string)
    ensures IsSplit(path, SplitPath(path).0, SplitPath(path).1)
    ensures IsSplit(path, head, tail) <==> (head, tail) == SplitPath(path)
  {
    SplitProperties(path);
    var k := AfterLastSeparator(path);
    if k > 0 {
      var h := StripTrailing(path[..k]);
      var t := path[k..];
      assert |t| == |path| - k;
      assert forall i :: |h| <= i < k ==> path[i] == path[..k][i];
      assert IsSplit(path, h, t);
      if IsSplit(path, head, tail) {
        // the tail starts just after the last separator
        var m := |path| - |tail|;
        assert forall i :: m <= i < |path| ==> path[i] != Separator by {
          forall i | m <= i < |path| ensures path[i] != Separator {
            assert path[i] == tail[i - m];
            assert tail[i - m] in tail;
          }
        }
        assert path[k - 1] == Separator && path[m - 1] == Separator;
        assert m == k;
        assert tail == t;
        // the head is the stripped text before it
        assert h[|h| - 1] == path[|h| - 1];
        assert head[|head| - 1] == path[|head| - 1];
        assert |head| == |h|;
        assert head == h;
      }
    }
  }

  /** Splits `path` as the source does: find the last separator scanning back
      from the end, take what follows it as the tail, then strip the trailing
      separators from what precedes it, keeping a lone root. */
  method Split(path: string) returns (head: string, tail: string)
    ensures (head, tail) == SplitPath(path)
  {
    var k := FindAfterLastSeparator(path);
    if k == 0 {
      head, tail := "", path;
      return;
    }
    tail := path[k..];
    var j := FindStripped(path[..k]);
    head := path[..k][..j];
  }

  /** Scans back from the end of `path` to just after its last separator. */
  method FindAfterLastSeparator(path: string) returns (k: nat)
    ensures k == AfterLastSeparator(path)
  {
    k := |path|;
    while k > 0 && path[k - 1] != Separator
      invariant k <= |path|
      invariant AfterLastSeparator(path[..k]) == AfterLastSeparator(path)
    {
      assert path[..k][..k - 1] == path[..k - 1];
      k := k - 1;
    }
    assert path[..k][..k] == path[..k];
  }

  /** Scans back over the trailing separators of `s`, stopping at its first
      character: the length of `s` with them stripped. */
  method FindStripped(s: string) returns (j: nat)
    requires |s| >= 1
    ensures j <= |s| && s[..j] == StripTrailing(s)
  {
    j := |s|;
    while j > 1 && s[j - 1] == Separator
      invariant 1 <= j <= |s|
      invariant StripTrailing(s[..j]) == StripTrailing(s)
    {
      assert s[..j][..j - 1] == s[..j - 1];
      j := j - 1;
    }
  }
}
