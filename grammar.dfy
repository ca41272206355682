/** The textual grammar of component paths: the separator, the characters a
    component name may not contain, the errors the path engine reports, and
    the correspondence between a text and the elements between its
    separators. */
module Grammar {

  /** A component path always separates its levels with a forward slash. */
  const Separator: char := '/'

  /** Characters that may not appear inside a component name. */
  const InvalidChars: set<char> := {'\\', '/', '*', '+'}

  datatype Option<T> = None | Some(value: T)

  /** The ways building or transforming a component path can fail. */
  datatype PathError =
    | InvalidCharacter(name: string)          // an element holds one of InvalidChars
    | AboveRoot                               // a ".." would climb above the root of the expression
    | NotAbsolute                             // an operand that must be absolute is relative
    | IndexOutOfRange(index: nat, levels: nat) // a level index at or past the number of levels

  datatype Result<T> = Ok(value: T) | Err(error: PathError)

  predicate HasInvalidChar(e: string) {
    exists i :: 0 <= i < |e| && e[i] in InvalidChars
  }

  /** A concrete component name: not empty, not a relative element, and free
      of invalid characters. */
  predicate IsName(e: string) {
    e != "" && e != "." && e != ".." && !HasInvalidChar(e)
  }

  /** The elements of `s` between its separators, read left to right: "a//b/"
      has the elements "a", "", "b" and "". There is always at least one. */
  function Elements(s: string): (es: seq<string>)
    ensures |es| >= 1
    ensures forall i :: 0 <= i < |es| ==> Separator !in es[i]
    decreases |s|
  {
    if s == [] then [""]
    else
      var prev := Elements(s[..|s| - 1]);
      var c := s[|s| - 1];
      if c == Separator then prev + [""]
      else prev[..|prev| - 1] + [prev[|prev| - 1] + [c]]
  }

  /** The elements joined with the separator between each two. */
  function Join(es: seq<string>): string
    decreases |es|
  {
    if |es| == 0 then ""
    else if |es| == 1 then es[0]
    else Join(es[..|es| - 1]) + [Separator] + es[|es| - 1]
  }

  /** No two separators stand next to each other. */
  predicate NoRepeatedSeparator(s: string) {
    forall i :: 0 <= i < |s| - 1 ==> !(s[i] == Separator && s[i + 1] == Separator)
  }

  /** Every element is non-empty and free of the separator. */
  predicate SolidElements(es: seq<string>) {
    forall i :: 0 <= i < |es| ==> es[i] != "" && Separator !in es[i]
  }

  /** Splitting a text into its elements and joining them again gives the text back. */
  lemma {:induction false} JoinElements(s: string)
    ensures Join(Elements(s)) == s
    decreases |s|
  {
    if s != [] {
      var p := s[..|s| - 1];
      var c := s[|s| - 1];
      JoinElements(p);
      var prev := Elements(p);
      var n := |prev|;
      assert s == p + [c];
      if c == Separator {
        assert Elements(s) == prev + [""];
        assert (prev + [""])[..n] == prev;
      } else {
        var es := prev[..n - 1] + [prev[n - 1] + [c]];
        assert Elements(s) == es;
        if n == 1 {
          assert Join(es) == prev[0] + [c];
        } else {
          assert es[..n - 1] == prev[..n - 1];
          assert Join(prev) == Join(prev[..n - 1]) + [Separator] + prev[n - 1];
          assert Join(es) == Join(prev[..n - 1]) + [Separator] + (prev[n - 1] + [c]);
        }
      }
    }
  }

  /** A text without a separator is a single element. */
  lemma {:induction false} ElementsOfName(b: string)
    requires Separator !in b
    ensures Elements(b) == [b]
    decreases |b|
  {
    if b != [] {
      var p := b[..|b| - 1];
      assert Separator !in p by {
        forall j | 0 <= j < |p| ensures p[j] != Separator { assert p[j] == b[j]; }
      }
      ElementsOfName(p);
      assert p + [b[|b| - 1]] == b;
    }
  }

  /** Appending a separator and a separator-free text adds exactly one element. */
  lemma {:induction false} ElementsAppend(a: string, b: string)
    requires Separator !in b
    ensures Elements(a + [Separator] + b) == Elements(a) + [b]
    decreases |b|
  {
    var s := a + [Separator] + b;
    if b == [] {
      assert s == a + [Separator];
      assert s[..|s| - 1] == a;
    } else {
      var b' := b[..|b| - 1];
      var c := b[|b| - 1];
      assert Separator !in b' by {
        forall j | 0 <= j < |b'| ensures b'[j] != Separator { assert b'[j] == b[j]; }
      }
      ElementsAppend(a, b');
      assert s[..|s| - 1] == a + [Separator] + b';
      assert c != Separator;
      assert b' + [c] == b;
      var prev := Elements(a) + [b'];
      assert Elements(s) == prev[..|prev| - 1] + [prev[|prev| - 1] + [c]];
      assert prev[..|prev| - 1] == Elements(a);
    }
  }

  /** Joining separator-free elements and splitting the result gives the elements back. */
  lemma {:induction false} ElementsJoin(es: seq<string>)
    requires |es| >= 1
    requires forall i :: 0 <= i < |es| ==> Separator !in es[i]
    ensures Elements(Join(es)) == es
    decreases |es|
  {
    if |es| == 1 {
      ElementsOfName(es[0]);
    } else {
      var init := es[..|es| - 1];
      ElementsJoin(init);
      ElementsAppend(Join(init), es[|es| - 1]);
      assert init + [es[|es| - 1]] == es;
    }
  }

  /** Extending a text never changes its elements before the last one. */
  lemma {:induction false} ElementsExtend(p: string, q: string)
    ensures |Elements(p + q)| >= |Elements(p)|
    ensures Elements(p + q)[..|Elements(p)| - 1] == Elements(p)[..|Elements(p)| - 1]
    decreases |q|
  {
    if q == [] {
      assert p + q == p;
    } else {
      var q' := q[..|q| - 1];
      ElementsExtend(p, q');
      var s := p + q;
      assert s[..|s| - 1] == p + q';
      var prev := Elements(p + q');
      var m := |Elements(p)|;
      if s[|s| - 1] == Separator {
        assert Elements(s) == prev + [""];
        assert (prev + [""])[..m - 1] == prev[..m - 1];
      } else {
        var es := prev[..|prev| - 1] + [prev[|prev| - 1] + [s[|s| - 1]]];
        assert Elements(s) == es;
        assert es[..m - 1] == prev[..m - 1];
      }
    }
  }

  /** A join of solid elements begins with the first character of the first element. */
  lemma {:induction false} JoinFront(es: seq<string>)
    requires |es| >= 1 && es[0] != ""
    ensures |Join(es)| >= 1 && Join(es)[0] == es[0][0]
    decreases |es|
  {
    if |es| > 1 {
      JoinFront(es[..|es| - 1]);
    }
  }

  /** Every character of an element appears in the join. */
  lemma {:induction false} JoinContains(es: seq<string>, k: nat, c: char)
    requires k < |es| && c in es[k]
    ensures c in Join(es)
    decreases |es|
  {
    if |es| > 1 && k < |es| - 1 {
      JoinContains(es[..|es| - 1], k, c);
    }
  }

  /** Every character of a join other than the separator comes from an element. */
  lemma {:induction false} JoinCovers(es: seq<string>, c: char)
    requires c in Join(es) && c != Separator
    ensures exists k :: 0 <= k < |es| && c in es[k]
    decreases |es|
  {
    if |es| > 1 {
      var init := es[..|es| - 1];
      var last := es[|es| - 1];
      assert Join(es) == Join(init) + [Separator] + last;
      if c in Join(init) {
        JoinCovers(init, c);
        var k :| 0 <= k < |init| && c in init[k];
        assert es[k] == init[k];
      } else {
        assert c in last;
      }
    }
  }

  /** A join of solid elements has no repeated separator and does not end in one. */
  lemma {:induction false} JoinWellSeparated(es: seq<string>)
    requires |es| >= 1 && SolidElements(es)
    ensures |Join(es)| >= 1
    ensures Join(es)[|Join(es)| - 1] != Separator
    ensures Join(es)[0] != Separator
    ensures NoRepeatedSeparator(Join(es))
    decreases |es|
  {
    JoinFront(es);
    assert Separator !in es[0];
    var last := es[|es| - 1];
    assert last != "" && Separator !in last;
    if |es| == 1 {
      assert Join(es) == es[0];
      forall i | 0 <= i < |last| - 1 ensures !(last[i] == Separator && last[i + 1] == Separator) {
        assert last[i] in last;
      }
      assert last[|last| - 1] in last;
    } else {
      var init := es[..|es| - 1];
      JoinWellSeparated(init);
      var a := Join(init);
      var s := a + [Separator] + last;
      assert Join(es) == s;
      assert s[|s| - 1] == last[|last| - 1];
      assert last[|last| - 1] in last;
      assert s[0] == a[0];
      forall i | 0 <= i < |s| - 1 ensures !(s[i] == Separator && s[i + 1] == Separator) {
        if i < |a| - 1 {
          assert s[i] == a[i] && s[i + 1] == a[i + 1];
        } else if i == |a| - 1 {
          assert s[i] == a[|a| - 1];
        } else if i == |a| {
          assert s[i + 1] == last[0];
          assert last[0] in last;
        } else {
          assert s[i] == last[i - |a| - 1];
          assert last[i - |a| - 1] in last;
        }
      }
    }
  }
}
