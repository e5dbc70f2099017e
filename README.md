# Path — a verified model of the path value engine

This project models the string-level core of `path.ts`: a small TypeScript (Deno)
library of Rust-style immutable path values over POSIX path text. A `Path` wraps a string.
Every operation on it comes from that text and the POSIX `parse`, `basename`, `dirname`,
`isAbsolute` and `resolve` helpers of the Deno standard library:

- parent and root queries;
- the `Ancestors` cursor, a walk from a path up to its root;
- the component sequence `iter()`;
- whole-component `startsWith`, `endsWith` and `stripPrefix`;
- file-name decomposition (`fileName`, `fileStem`, `extension`);
- path algebra (`customJoin`, `join`, `withFileName`, `withExtension`).

Modules:

- `Wrappers` (wrappers.dfy) — `Option` and `Result`. `Failure` carries the text of a thrown
  `TypeError`.
- `Builtins` (builtins.dfy) — the JavaScript built-ins the code relies on:
  - `reverse`, `map` and `join`;
  - `split`, proved to invert `join`.
  - It also defines `LastIndexOf`, a helper that locates the last occurrence of a character.
    `split`, `fileStem` and `extension` are specified in terms of it; the code never calls
    it.
- `Posix` (posix.dfy) — the standard library's POSIX helpers, written as the library's
  right-to-left scans. It also defines `Segments`, the reference list of a path's names (the
  non-empty runs between separators). Its lemmas connect each helper's answer to
  `Segments`.
- `Paths` (path.dfy) — the core:
  - the `Path` datatype and its operations;
  - the `Ancestors` class, whose field `current` is the source's private `startPath` and
    which its `Next` method overwrites;
  - the loops `collect`, `filterMap`, `customJoin` and the shared `startsWith`/`endsWith`
    loop, as methods with invariants, each proved against a reference function
    (`AncestorList`, `Kept`, `Joined`, `PrefixMatch`/`SuffixMatch`);
  - `Components`, the reference component sequence: the root marker `"/"` for an absolute
    path, then its names.
- `PathCases` (path_cases.dfy) — the examples of the test suite `test.ts`, stated about the
  model. Each is first stated over arbitrary names, then instantiated.

`fileName` calls `path.resolve`, which reads the process working directory. Every operation
built on it (`FileName`, `FileStem`, `Extension`, `WithExtension`) therefore takes an
absolute `cwd` parameter.

Behaviours of the code that a reader might not expect, all kept in the model:

- A dot-less file name gets `fileStem` `""` and an `extension` equal to the whole name. The
  code splits on `.` and keeps all but the last piece (path.ts:133-144). Rust's `file_stem`,
  which the library otherwise imitates (path.ts:42), gives the whole name as the stem instead.
- `startsWith` and `endsWith` can throw. The index loop reads `self`'s component at every
  index of `other`'s components (path.ts:113-118, path.ts:126-131). It hands `undefined` to
  `path.parse`, which throws a `TypeError`, in one case only: when `self`'s components are a
  proper prefix of `other`'s (for `endsWith`, a proper suffix).
  - Any earlier mismatch answers `false` first, so `"/a".startsWith("/b/c")` is `false`.
  - The model returns `Failure` in the throwing case.
  - `stripPrefix` passes the failure on, since it calls `startsWith` first.
- `hasRoot` is exactly "has a parent" (path.ts:26-28). That holds exactly when the text has
  at least one name, so the relative `"foo"` has a root and `"/"` has none.
- `fileName` can return the defined text `""`. A base of `"."` is resolved against the
  working directory, so a path that resolves to the root gets `""`: `"/."` always does, and
  `"."` does when the working directory is `"/"`. See "## Findings".

## Model

| member | source | states |
|---|---|---|
| Paths.Components | path.ts:68-82 | the component sequence is well formed: only its first entry may be the root marker "/", every other entry is a non-empty, separator-free name |
| Paths.Path.IsAbsolute | path.ts:20-22 | a path is absolute exactly when its component sequence starts with the root marker |
| Paths.Path.IsRelative | path.ts:23-25 | a path is relative exactly when its component sequence does not start with the root marker |
| Paths.Path.HasRoot | path.ts:26-28 | `hasRoot` (defined as "parent is defined") holds exactly when the text contains at least one name |
| Paths.Path.Parent | path.ts:29-35 | a parent, when there is one, is strictly shorter than the path, which is why the ancestor walk ends |
| Paths.ParentComponents | path.ts:29-35 | `parent` is undefined exactly when the path has no names; otherwise the parent's components followed by the parsed base are the path's components |
| Posix.ParseLastSegment | path.ts:29-35 | when `parse` finds a base, the names of the path are the names of `dir` followed by the base, and `dir` is absolute exactly when the path is |
| Paths.Path.AncestorCursor | path.ts:36-38 | `ancestors()` gives a fresh cursor whose pending walk is the ancestor list of the path |
| Paths.Ancestors.constructor | path.ts:184-186 | a new cursor holds its start path |
| Paths.Ancestors.Next | path.ts:187-195 | `next` yields the current path and moves to its parent; once the walk is over it yields nothing and stays over; the pending walk loses exactly the yielded path |
| Paths.AncestorChain | path.ts:187-195 | the ancestor list starts at the path, each entry is followed by its parent, and the last entry has no parent |
| Paths.AncestorCount | path.ts:187-195 | the walk has one more entry than the path has names |
| Paths.Collect | path.ts:214-222 | draining a cursor returns exactly the paths it had yet to yield, in order, and leaves it exhausted |
| Paths.FilterMap | path.ts:224-235 | the result is the defined results of the function over the array, in order |
| Paths.KeptOfMap | path.ts:81 | mapping and then keeping the defined entries equals keeping the defined results of the mapped function |
| Paths.WalkSpellsComponents | path.ts:68-82 | naming the reversed ancestor walk (basename, or dirname unless ".", for an unnamed ancestor) gives exactly the component sequence |
| Paths.Path.Iter | path.ts:68-82 | `iter()` produces the component sequence: the root marker for an absolute path, then the names in order |
| Posix.BasenameIsBase | path.ts:71 | `basename` and the `base` field of `parse` agree on every text |
| Posix.DirnameOfSeps | path.ts:72-76 | `dirname` of a text made only of separators is "." for "" and "/" otherwise |
| Paths.SameComponent | path.ts:114 | on components, `equals` of the two single-component paths holds exactly when the texts are equal |
| Paths.MatchFront | path.ts:113-118 | the index loop answers true when `other` is a prefix of `me`, throws when `me` is a proper prefix of `other`, and answers false otherwise |
| Paths.Path.StartsWith | path.ts:107-119 | `startsWith` is the prefix test on the two component sequences: true when `other`'s are a prefix of `self`'s, the throw exactly when `self`'s are a proper prefix of `other`'s, false otherwise |
| Paths.Path.EndsWith | path.ts:120-132 | `endsWith` is the suffix test on the two component sequences: true when `other`'s are a suffix of `self`'s, the throw exactly when `self`'s are a proper suffix of `other`'s, false otherwise |
| Paths.ReversedPrefixMatch | path.ts:124-131 | the prefix test on reversed sequences equals the suffix test on the originals |
| Paths.Path.StripPrefix | path.ts:83-100 | fails exactly when `self`'s components are a proper prefix of the prefix's; it is undefined exactly when `startsWith` answers false; otherwise it gives "" for equal sequences or the remaining components joined with "/", and the prefix's components followed by the result's are `self`'s |
| Paths.ReduceJoinIsJoinWith | path.ts:95-99 | folding non-empty pieces with `customJoin` joins them with a single "/" between neighbours |
| Paths.ComponentsOfJoined | path.ts:95-99 | a well-formed non-empty component sequence written with "/" between entries reads back as the same sequence |
| Paths.EqualsIsSameParse | path.ts:101-106 | a definitional bridge: `equals` is equality of the two `parse` records, hence reflexive and symmetric |
| Paths.EqualsIgnoresTrailingSeps | path.ts:101-106 | the partner property of `equals`: a non-empty path with separators appended equals the path |
| Posix.ParseIgnoresTrailingSeps | path.ts:101-106 | separators appended to a non-empty text change no field of `parse` |
| Paths.Path.FileName | path.ts:39-46 | undefined exactly when the base is "" or ".."; otherwise a separator-free text other than "." and "..", equal to the base when the base is neither "." nor ".." |
| Paths.FileNameEmpty | path.ts:39-46 | `fileName` is the defined text "" exactly when it is defined and the path resolves to the root |
| Posix.ResolvedName | path.ts:45 | the basename of a resolved path is a separator-free text other than "." and ".."; it is "" exactly when no name survives normalizing (the path resolves to the root), and it is the path's own base whenever that base is a plain name |
| Paths.RootDotFileName | path.ts:39-46 | as written, "/." has the defined file name "" for every working directory, where the intended file name is absent |
| Paths.Path.IntendedFileName | path.ts:39-46 | the corrected file name, with no working directory: when defined, it is a name (non-empty, separator-free, not "." or "..") of the path |
| Paths.IntendedFileNameAgrees | path.ts:39-46 | the corrected and the written file name agree whenever the base is a plain name |
| Posix.ResolveDropsFinalDot | path.ts:45 | when a path ends in a plain name followed by ".", the basename of its resolution is that name |
| Paths.Path.FileStem | path.ts:133-138 | undefined exactly when `fileName` is; otherwise the text before the last dot of the file name, or "" when it has no dot |
| Paths.Path.Extension | path.ts:139-144 | undefined exactly when `fileName` is; otherwise the text after the last dot of the file name (the whole name without a dot), which contains no dot |
| Paths.StemOf | path.ts:134-136 | splitting at the dots, dropping the last piece and rejoining with "." gives the text before the last dot, or "" |
| Paths.ExtensionOf | path.ts:140-142 | the last piece of the split at the dots is the text after the last dot and contains no dot |
| Paths.StemDotExtension | path.ts:133-144 | a dotted file name is stem + "." + extension; a dot-less one has stem "" and is its own extension |
| Builtins.Split | path.ts:134 | `split` gives at least one piece, no piece contains the separator, and the last piece is what follows the last separator |
| Builtins.JoinSplit | path.ts:134-136 | joining the pieces of a split with the same character gives the string back |
| Builtins.ReversedTwice | path.ts:69 | `reverse` is its own inverse |
| Paths.ReversedCons | path.ts:69 | reversing an array with an element in front puts that element last |
| Builtins.MapAppend | path.ts:81 | `map` of a concatenation is the concatenation of the maps |
| Paths.CustomJoin | path.ts:200-212 | `customJoin` returns the non-empty pieces joined with one "/" between neighbours, or "." when there are none |
| Paths.JoinedPair | path.ts:200-212 | `customJoin` of two pieces: the non-empty one, both with one "/" between, or "." when both are empty |
| Paths.JoinComponents | path.ts:61-67 | joining a non-empty path with a text gives the path's components followed by the text's names (no separator collapsing and no special case for an absolute text); an empty path gives the text itself, or "." when the text is also empty |
| Posix.SegmentsAppend | path.ts:207 | a separator between two texts concatenates their name lists |
| Paths.WithFileNameReplacesLast | path.ts:169-171 | `withFileName` replaces the last component by the name; a path without a parent becomes the name alone |
| Paths.WithExtensionRoundTrip | path.ts:172-179 | after `withExtension` with a plain dot-free extension, `fileStem` is unchanged and `extension` is the new one |
| PathCases.DottedWithExtension | path.ts:172-179 | a name `stem.was` becomes `stem` with an empty extension and `stem.ext` otherwise |
| PathCases.NameAfterSep | path.ts:29-46 | after a separator, a name's parent is the text before the separator, and the name is the file name unless it is "." or ".." (".." gives none) |
| PathCases.StripRejected | path.ts:83-86 | `stripPrefix` is undefined once the two component sequences differ at an index both have |
| PathCases.Intro | test.ts:7-19 | "./foo/bar.txt" has parent "./foo", stem "bar" and extension "txt" |
| PathCases.PlainFile | test.ts:21-38 | "foo.txt" survives a round trip through `toString`, and is relative and not absolute |
| PathCases.HasRootCase | test.ts:39-42 | "/etc/passwd" has a root |
| PathCases.ParentCase | test.ts:43-51 | "/foo/bar" has parent "/foo", whose parent is "/", which has none |
| PathCases.AncestorsOfAbsolute | test.ts:53-59 | a cursor on "/foo/bar" yields "/foo/bar", "/foo", "/", then nothing |
| PathCases.AncestorsOfRelative | test.ts:60-67 | the walk from "../foo/bar" is "../foo/bar", "../foo", "..", "" |
| PathCases.FileNameCases | test.ts:69-76 | the six file-name examples, including "foo.txt/.//" naming "foo.txt" and "foo.txt/.." and "/" naming nothing |
| PathCases.StartsWithCases | test.ts:78-90 | the eight `startsWith` answers, including the whole-component rejections of "/e", "/etc/passwd.txt" and "/etc/foo" |
| PathCases.StripPrefixCases | test.ts:92-106 | "/test/haha/foo.txt" without "/", "/test" and "/test/" is "test/haha/foo.txt", "haha/foo.txt" and "haha/foo.txt" |
| PathCases.StripWholeCases | test.ts:98-99 | "/test/haha/foo.txt" without itself, with or without a trailing separator, is "" |
| PathCases.StripRejectedCases | test.ts:101-102 | "test" and "/haha" are not prefixes of "/test/haha/foo.txt" |
| PathCases.EndsWithCases | test.ts:108-113 | "/etc/resolv.conf" ends with "resolv.conf", "etc/resolv.conf" and itself |
| PathCases.EndsWithRejectedCases | test.ts:115-116 | "/etc/resolv.conf" does not end with "/resolv.conf" or "conf" |
| PathCases.StemAndExtensionCases | test.ts:119-126 | "foo.rs" is "foo" and "rs"; "foo.tar.gz" is "foo.tar" and "gz" |
| PathCases.JoinCase | test.ts:127-129 | "/etc" joined with "passwd" is "/etc/passwd" |
| PathCases.WithFileNameCases | test.ts:130-138 | "/tmp/foo.txt" renamed is "/tmp/bar.txt", and "/tmp" renamed to "var" is "//var" |
| PathCases.WithExtensionCases | test.ts:139-152 | the four `withExtension` examples, including "foo.tar.gz" stripped and then given "txt" being "foo.txt" |
| PathCases.IterCase | test.ts:153-160 | `iter` of "/tmp/foo.txt" is exactly "/", "tmp", "foo.txt" |

## Left out

- The filesystem methods `isDir`, `isFile`, `metaData`, `exists`, `isSymlink`, `readLink` and
  `readDir` (path.ts:47-60, path.ts:145-151, path.ts:155-168). Each is one Deno system call
  with no logic of its own.
- `canonicalize` (path.ts:152-154) and its test (test.ts:161-164). It is `path.resolve`
  against the process working directory, which is hidden global state. `resolve` appears
  only inside `fileName`, through the `cwd` parameter.
- `String.prototype.asPath` (path.ts:3-10), which mutates a built-in type globally. It is
  modelled as the `Path` constructor.
- `MAIN_SEPARATOR` (path.ts:198) and all Windows semantics. The separator is fixed as "/".
- The JavaScript iterator protocol (`Symbol.iterator`, `IteratorResult`). `next()` returns an
  `Option`: `None` stands for `{ done: true }`. `iter()` produces the collected sequence.
- The `Path | string` argument unions of `join`, `stripPrefix`, `startsWith` and `endsWith`.
  The model takes the form the code converts to: a `Path`, or a string for `join`.
- path/posix.ts of the Deno standard library (std 0.126.0) is not part of this model.
  - `Posix.Parse`, `Basename`, `Dirname`, `IsAbsolute`, `Normalize` and `Resolve` follow
    Node's POSIX algorithm. `Normalize` is written for an absolute result, the only way
    `resolve` uses it.
  - `Posix.Parse`'s `name`/`ext` split is given, but no operation of the core reads it
    except `equals`.
- Paths.Path.FileName: when the base is "." the contract says only that the result is a
  separator-free text other than "." and ".."; `Paths.FileNameEmpty` adds that it is "" exactly
  when the path resolves to the root. The exact value depends on the names before
  the final "." and on `cwd`. `Posix.ResolveDropsFinalDot` covers the case where a plain
  name precedes the ".".
- Paths.ReduceJoinIsJoinWith: stated for non-empty pieces only. Those are the only pieces
  `stripPrefix` folds, because components are never empty.
- Paths.WithExtensionRoundTrip: stated for a non-empty stem and a plain dot-free extension.
  An extension containing "." or "/" changes which text counts as the stem or the name.
- `Path.Equals`, `Path.Join`, `Path.WithFileName`, `Path.WithExtension` and `Path.ToString`
  carry no contract of their own. Their properties are the lemmas in the table
  (`EqualsIgnoresTrailingSeps`, `JoinComponents`, `WithFileNameReplacesLast`,
  `WithExtensionRoundTrip`).

## Findings

| source | as written | input that shows it | evidently intended | confidence | as-written member | corrected member |
|---|---|---|---|---|---|---|
| path.ts:39-46 | a base of "." sends `fileName` through `path.resolve`, so the answer depends on the working directory, and a path that resolves to the root gets the defined file name "" | `new Path("/.").fileName()` is `""` for every working directory | Rust's `file_name`, which the code cites as its model (path.ts:42): the last name once "." names are dropped, absent when there is none or it is ".." | not executed; medium | Paths.RootDotFileName | Paths.Path.IntendedFileName |

`Paths.Path.FileName` and the operations built on it (`FileStem`, `Extension`,
`WithExtension`) keep the behaviour as written, because they model path.ts.
`Paths.IntendedFileNameAgrees` shows that the two definitions differ only when the base is
".".
