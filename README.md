# OpenSim component paths in Dafny

This project models `OpenSim::ComponentPath`, the value type OpenSim uses to
address a component in its nested model tree. A component path is written
with `/` between the levels, for example `/model/arm/elbow`. A leading `/`
makes the path absolute, starting at the root of the tree. Without it the
path is relative. The model covers:

- the static text algorithms `normalize` and `split`;
- the three constructors;
- equality and inequality;
- resolution between two paths (`formAbsolutePath`, `formRelativePath`);
- the accessors: parent path, parent text, name at a level, component name.

The files are:

- `grammar.dfy` (module `Grammar`). The separator and the invalid characters
  (`\`, `/`, `*`, `+`) are constants. The four ways an operation can fail are
  one error datatype (invalid character, above the root, not absolute, index
  out of range). `Elements` and `Join` relate a text to the pieces between its
  separators, and the lemmas prove that the two undo each other.
- `normalize.dfy` (module `Normalization`). Normalization is specified as a
  left-to-right walk over the elements of the text (`Step`, `WalkFrom`,
  `Normalized`). `Normalize` is the character scan that keeps a stack of
  output elements, proved equal to the walk. The properties the header
  promises are lemmas about the walk. A separate reference semantics,
  `Follow`, moves through a tree of names without any of the walk's
  bookkeeping. The lemmas tie normalization to it: normalization keeps the
  meaning of a path, and an absolute path climbing above the root is an
  error, not a clamp.
- `split.dfy` (module `HeadTail`). `Split` is the backward scan. It is proved
  equal to `SplitPath`. `SplitPath` is proved to be the only (head, tail)
  pair that meets the description of a split, `IsSplit`.
- `component_path.dfy` (module `ComponentPaths`). A path is a datatype: its
  levels plus the absolute flag. Its text is `ToString`. The constructors,
  equality, resolution and accessors are functions, each with lemmas that
  tie it to normalization, to `split`, or to its inverse.
- `scenarios.dfy` (module `Scenarios`). The header's worked examples for
  `normalize` (ComponentPath.h:50-61), plus the model's own examples of the
  split rules (ComponentPath.h:74-78), of the leading-run rule (`../a/../..`),
  of an invalid character inside a name (`a/b*c`) and of `formRelativePath`,
  each proved about the model.

The rule for `..` in this model is stated once, in `Normalization.Step`:

- a `..` cancels the concrete name on top of the output stack;
- with no name to cancel, a `..` is kept only in a relative path that has not
  yet read a concrete name. This is the leading run of `..` allowed by
  ComponentPath.h:51;
- every other `..` climbs above the root of the expression, and
  normalization fails with `AboveRoot`.

So `../a/b` stays as it is, while `/../a/b`, `a/../..` and `../a/../..` all
fail. ComponentPath.h:51 could also be read as letting a relative path keep
any `..` that has no concrete name left to cancel, so that `a/../..` would
give `..` and `../a/../..` would give `../..`. The model rejects that reading,
because ComponentPath.h:60-61 says that `a/../..` throws. `.` and empty elements are dropped wherever they
appear, so they do not end the leading run. When a text has several
problems, the error reported is the first one met reading left to right.

## Model

| member | source | states |
|---|---|---|
| Grammar.JoinElements | OpenSim/Common/ComponentPath.h:63-66 | Splitting a path text into the elements between its separators and joining them back gives the text again. |
| Grammar.ElementsJoin | OpenSim/Common/ComponentPath.h:63-66 | Joining separator-free elements with the separator and splitting the result gives the same elements back. |
| Grammar.JoinWellSeparated | OpenSim/Common/ComponentPath.h:55-56 | Joining non-empty, separator-free names gives text with no repeated separator, none at the start and none at the end. |
| Normalization.Normalize | OpenSim/Common/ComponentPath.h:47-68 | The character scan with its stack of output elements returns exactly the normal form given by the element walk, or the same error. |
| Normalization.Step | OpenSim/Common/ComponentPath.h:48-61 | One element of the walk keeps the output canonical: only concrete names, plus a leading run of `..` in a relative path. |
| Normalization.WalkFrom | OpenSim/Common/ComponentPath.h:48-61 | The whole walk keeps the output canonical. |
| Normalization.NormalizedIsNormalForm | OpenSim/Common/ComponentPath.h:48-58 | A successful normalization is in normal form. It has no `.` or empty element, no repeated separator, no trailing separator unless it is the root, and `..` only as the leading run of a relative path. It keeps the absolute flag. |
| Normalization.NormalFormIsFixpoint | OpenSim/Common/ComponentPath.h:63-66 | Text already in normal form is left unchanged. |
| Normalization.NormalizedIdempotent | OpenSim/Common/ComponentPath.h:47-66 | Normalizing twice is normalizing once. A text is its own normalization exactly when it is in normal form. |
| Normalization.NormalizedRejectsInvalid | OpenSim/Common/ComponentPath.h:33-54 | A normalized text has no invalid character apart from the separator. An invalid-character error names an element of the input that holds one. |
| Normalization.NormalizedAcceptsValid | OpenSim/Common/ComponentPath.h:33-54 | Text free of invalid characters never fails with an invalid-character error. |
| Normalization.NormalizedAbsoluteIsFollow | OpenSim/Common/ComponentPath.h:52-61 | For an absolute text free of invalid characters, normalization gives the tree location reached by following its elements from the root. When that climbs above the root, it fails with AboveRoot and never clamps. |
| Normalization.AbsoluteWalkIsFollow | OpenSim/Common/ComponentPath.h:60-61 | The absolute walk fails with AboveRoot exactly when following the elements from its stack climbs above the root. Otherwise it ends on the same location. |
| Normalization.NormalizedPreservesMeaning | OpenSim/Common/ComponentPath.h:48-50 | From any location in the tree, a text and its normal form lead to the same place. |
| Normalization.WalkMeaning | OpenSim/Common/ComponentPath.h:48-50 | Each successful walk leads to the same place as the elements it read. |
| Normalization.RelativeIsLeadingUpsThenAbsolute | OpenSim/Common/ComponentPath.h:50-61 | A relative walk keeps its leading run of `..` and walks the rest as an absolute path below them. A later `..` may cancel names but never climbs back into the run. |
| Normalization.CanonicalWalk | OpenSim/Common/ComponentPath.h:48-53 | Walking canonical elements leaves them unchanged. |
| Normalization.RenderParts | OpenSim/Common/ComponentPath.h:55-58 | The text of canonical elements reads back as the same absolute flag and elements. It has no repeated separator and no trailing separator unless it is the root. |
| HeadTail.Split | OpenSim/Common/ComponentPath.h:70-83 | The backward scan returns exactly `SplitPath`. |
| HeadTail.FindAfterLastSeparator | OpenSim/Common/ComponentPath.h:71-75 | Scanning back from the end stops just after the last separator, or at 0 when there is none. |
| HeadTail.FindStripped | OpenSim/Common/ComponentPath.h:78 | Scanning back over trailing separators leaves the text stripped of them, keeping a lone root. |
| HeadTail.AfterLastSeparator | OpenSim/Common/ComponentPath.h:71-76 | The position found is just after a separator, and no separator follows it. It is 0 only when the text has no separator. |
| HeadTail.StripTrailing | OpenSim/Common/ComponentPath.h:78 | The result is a non-empty beginning of the text, followed only by separators. It ends in a separator only if it is the root. |
| HeadTail.SplitProperties | OpenSim/Common/ComponentPath.h:74-78 | The tail never holds a separator. The tail is empty when the text ends in a separator. The head is empty when there is no separator. Both are empty for empty text. The head has no trailing separators unless it is the root. |
| HeadTail.SplitPathIsTheSplit | OpenSim/Common/ComponentPath.h:70-81 | `SplitPath` meets the description of a split, and it is the only pair that does (both directions). |
| ComponentPaths.Empty | OpenSim/Common/ComponentPath.h:86-87 | The default path is valid and its text is empty. |
| ComponentPaths.FromString | OpenSim/Common/ComponentPath.h:89-91 | Construction from text succeeds exactly when normalization does, and fails with the same error. The path's text is the normalized text, and the path is valid and keeps the absolute flag. |
| ComponentPaths.FromStringToString | OpenSim/Common/ComponentPath.h:89-91 | Constructing from the text of a valid path gives that same path back, so a valid path is the only path its text constructs; this is why comparing texts compares paths (lines 98-106). |
| ComponentPaths.FromLevels | OpenSim/Common/ComponentPath.h:93-95 | Construction from names gives a valid path with the requested absolute flag. It succeeds only when no name holds an invalid character. |
| ComponentPaths.FromLevelsIsFromString | OpenSim/Common/ComponentPath.h:93-95 | Constructing from non-empty, separator-free names is constructing from the text those names spell. |
| ComponentPaths.FromLevelsOfNames | OpenSim/Common/ComponentPath.h:93-95 | Concrete names give a path with exactly those levels. |
| ComponentPaths.Equal | OpenSim/Common/ComponentPath.h:98-101 | Equality compares texts; on valid paths it holds exactly when the levels and the absolute flag are equal (both directions). |
| ComponentPaths.NotEqual | OpenSim/Common/ComponentPath.h:103-106 | Inequality is the exact negation of `Equal`; on valid paths it holds exactly when the levels or the absolute flag differ. |
| ComponentPaths.FormAbsolutePath | OpenSim/Common/ComponentPath.h:112-114 | An absolute path is returned unchanged. A relative path against a relative base is an error. A result is absolute, and it is valid when both inputs are. |
| ComponentPaths.FormAbsolutePathFollows | OpenSim/Common/ComponentPath.h:112-114 | Resolving a relative path against an absolute base is following its levels from the base. It fails with AboveRoot exactly when that climbs above the root. |
| ComponentPaths.CommonPrefixLength | OpenSim/Common/ComponentPath.h:116-119 | The result is the length of the longest common beginning of two level lists. |
| ComponentPaths.FormRelativePath | OpenSim/Common/ComponentPath.h:116-119 | It fails with NotAbsolute exactly when either path is relative. Otherwise the result is a valid relative path. |
| ComponentPaths.RelativeThenAbsolute | OpenSim/Common/ComponentPath.h:112-119 | Resolving the relative path from `other` to `p` against `other` gives `p` back. |
| ComponentPaths.RelativeToItself | OpenSim/Common/ComponentPath.h:116-119 | The relative path from an absolute path to itself is the empty path. |
| ComponentPaths.RelativePathIsShortest | OpenSim/Common/ComponentPath.h:116-119 | The relative path from `other` to `p` has no more levels than any valid relative path that resolves against `other` to `p`. |
| ComponentPaths.ResolvedShape | OpenSim/Common/ComponentPath.h:112-114 | Resolving a valid relative path with `k` leading `..` keeps the first `|base| - k` levels of the base and adds the path's remaining names. |
| ComponentPaths.LeadingUps | OpenSim/Common/ComponentPath.h:49-51 | The levels of a valid relative path are a leading run of `..` followed only by concrete names. |
| ComponentPaths.FollowUps | OpenSim/Common/ComponentPath.h:60-61 | `k` times `..` removes the last `k` levels, and fails above the root when there are fewer than `k`. |
| ComponentPaths.CommonPrefixAtLeast | OpenSim/Common/ComponentPath.h:116-119 | Two level lists that agree on their first `m` levels have a common beginning of at least `m` levels. |
| ComponentPaths.ParentPath | OpenSim/Common/ComponentPath.h:121-123 | The parent has every level but the last, followed by the component name. It keeps the absolute flag and stays valid. A path with no levels is its own parent. |
| ComponentPaths.ParentPathString | OpenSim/Common/ComponentPath.h:125-126 | The parent text constructs the parent path again. |
| ComponentPaths.SubcomponentNameAtLevel | OpenSim/Common/ComponentPath.h:128-130 | It fails with IndexOutOfRange exactly when the index is at or past the number of levels. Otherwise it returns the element at that 0-based position of the path's text. |
| ComponentPaths.ComponentName | OpenSim/Common/ComponentPath.h:132-134 | The name is the level at the last index, or empty text when there are no levels. |
| ComponentPaths.SplitOfPath | OpenSim/Common/ComponentPath.h:121-134 | Splitting a valid path's text gives the parent text and the component name. |
| Scenarios.CollapsesRepeatedSeparators | OpenSim/Common/ComponentPath.h:55 | `a///b` normalizes to `a/b`. |
| Scenarios.DropsTrailingSeparator | OpenSim/Common/ComponentPath.h:56-57 | `a/b/c/` normalizes to `a/b/c`. |
| Scenarios.ResolvesToRoot | OpenSim/Common/ComponentPath.h:57-58 | `/./a/../` normalizes to `/`. |
| Scenarios.RelativeMayStartWithUp | OpenSim/Common/ComponentPath.h:51 | `../a/b` is already normalized. |
| Scenarios.AbsoluteUpFromRootFails | OpenSim/Common/ComponentPath.h:52-53 | `/../a/b` fails with AboveRoot. |
| Scenarios.RelativeAboveRootFails | OpenSim/Common/ComponentPath.h:60-61 | `a/../..` fails with AboveRoot. |
| Scenarios.UpAfterNameFails | OpenSim/Common/ComponentPath.h:60-61 | `../a/../..` fails with AboveRoot: the `a` cancels, and the next `..` may not climb back into the leading run. |
| Scenarios.RejectsAsterisk | OpenSim/Common/ComponentPath.h:54 | `a/b*c` fails with an invalid-character error naming `b*c`. |
| Scenarios.SplitTrailing | OpenSim/Common/ComponentPath.h:75 | `a/b/c/` splits into `a/b/c` and an empty tail. |
| Scenarios.SplitBelowRoot | OpenSim/Common/ComponentPath.h:78 | `/a` splits into the root `/` and `a`. |
| Scenarios.SplitNoSeparator | OpenSim/Common/ComponentPath.h:76 | `abc` splits into an empty head and `abc`. |
| Scenarios.RelativeBetweenSiblings | OpenSim/Common/ComponentPath.h:116-119 | From `/a/x/y` to `/a/b/c` is `../../b/c`, and resolving that against `/a/x/y` gives `/a/b/c` back. |

## Left out

- The base class `Path` (Path.h is not part of this model) is left out, along with its virtual `getSeparator` and `getInvalidChars`. The separator and the invalid-character set are the constants declared at ComponentPath.h:137-138, with the values listed at ComponentPath.h:34-40.
- `toString` is modelled as `ComponentPaths.ToString`: the levels joined with the separator, after a leading separator for an absolute path. The base class's own implementation is not visible.
- The C++ exceptions are the `PathError` datatype. Their message texts are not modelled.
- The source files of the constructors and the other members (ComponentPath.cpp) are not part of this model. Their behaviour is taken from the header's documentation, with these choices where it is silent:
  - `formAbsolutePath` with a relative base fails with `NotAbsolute`;
  - the parent of a path with no levels is the path itself;
  - the component name of a path with no levels is empty text.
- ComponentPaths.FromLevels resolves its names with the same walk as normalization: empty and `.` names are dropped, `..` is resolved, and a name holding an invalid character fails. It does not reject `.` and `..` names outright. The header (ComponentPath.h:93-95) only says the vector holds node names.
- Everything that consumes paths is out of scope: component lookup in the model tree, socket connection, and serialisation.
- `size_t` indices are natural numbers. No index here can overflow.
