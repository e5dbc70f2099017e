/** The path value of path.ts: an immutable POSIX path text with component-wise algorithms
    (ancestor walk, component sequence, prefix and suffix matching, file-name decomposition,
    joining), all computed from the text alone.

    The source's loops are methods proved against reference functions of this module:
    `Ancestors.Next` and `Collect` against `AncestorList`, `FilterMap` against `Kept`,
    `CustomJoin` against `Joined`, `Iter` against `Components`, and `StartsWith`, `EndsWith`
    and `StripPrefix` against `PrefixMatch` and `SuffixMatch`. Functions, which cannot call
    methods, use the reference functions directly. */
module Paths {
  import opened Wrappers
  import opened Builtins
  import Posix

  /** What `parse` throws when it is handed `undefined`: the component loops of `startsWith`
      and `endsWith` read past the end of `self`'s components when those are a proper prefix
      (for `endsWith`, a proper suffix) of `other`'s; a mismatch earlier answers `false`
      first. */
  const UndefinedPath := "TypeError: Path must be a string. Received undefined"

  /** A component: the root marker "/" or a name. */
  predicate IsComponent(c: string)
  {
    c == "/" || Posix.IsWord(c)
  }

  /** The shape of a component sequence: only the first entry may be the root marker. */
  predicate WellFormed(cs: seq<string>)
  {
    forall i :: 0 <= i < |cs| ==> if i == 0 then IsComponent(cs[i]) else Posix.IsWord(cs[i])
  }

  /** The component sequence of a path: the root marker when the path is absolute, then its
      names in order. Repeated and trailing separators contribute nothing; "." and ".." are
      names like any other. */
  function Components(p: Path): (r: seq<string>)
    ensures WellFormed(r)
  {
    (if Posix.IsAbsolute(p.text) then ["/"] else []) + Posix.Segments(p.text)
  }

  datatype Path = Path(text: string) {

    /** `toString()` */
    function ToString(): string
    {
      text
    }

    /** `isAbsoulte()` (so spelled in the source): a path is absolute exactly when its
        component sequence starts at the root. */
    function IsAbsolute(): (r: bool)
      ensures r <==> (Components(this) != [] && Components(this)[0] == "/")
    {
      var cs := Components(this);
      assert cs != [] && !Posix.IsAbsolute(text) ==> Posix.IsWord(cs[0]) && cs[0][0] != '/';
      Posix.IsAbsolute(text)
    }

    /** `isRelative()` */
    function IsRelative(): (r: bool)
      ensures r <==> !(Components(this) != [] && Components(this)[0] == "/")
    {
      !IsAbsolute()
    }

    /** `hasRoot()`: defined as "has a parent", which holds exactly when the path has at least
        one name; so "foo" has a root and "/" has none. */
    function HasRoot(): (r: bool)
      ensures r <==> Posix.Segments(text) != []
    {
      ParentComponents(this);
      Parent() != None
    }

    /** `parent()`: `undefined` when `parse` finds no base, otherwise the parsed `dir`, a
        strictly shorter text; `ParentComponents` states what it removes. */
    function Parent(): (r: Option<Path>)
      ensures r.Some? ==> |r.value.text| < |text|
    {
      var parsed := Posix.Parse(text);
      if parsed.base == "" then None
      else
        Posix.ParseDirShorter(text);
        Some(Path(parsed.dir))
    }

    /** `equals(other)`: the two `parse` results agree field by field. */
    function Equals(other: Path): bool
    {
      var me := Posix.Parse(text);
      var them := Posix.Parse(other.text);
      me.root == them.root && me.dir == them.dir && me.base == them.base
        && me.ext == them.ext && me.name == them.name
    }

    /** `fileName()`, with the process working directory `cwd` that `path.resolve` reads:
        `undefined` when the base is "" or ".."; otherwise the basename of the resolved path,
        which is never "." or "..", and is the base itself unless the base is "."
        (`FileNameEmpty` states when it is ""). */
    function FileName(cwd: string): (r: Option<string>)
      requires Posix.IsAbsolute(cwd)
      ensures r.None? <==> (Posix.Parse(text).base == "" || Posix.Parse(text).base == "..")
      ensures r.Some? ==> Posix.SepFree(r.value) && r.value != "." && r.value != ".."
      ensures Posix.Parse(text).base !in {"", ".", ".."} ==> r == Some(Posix.Parse(text).base)
    {
      var base := Posix.Parse(text).base;
      if base == "" || base == ".." then None
      else
        Posix.ResolvedName(text, cwd);
        Some(Posix.Basename(Posix.Resolve(text, cwd)))
    }

    /** The file name as Rust's `file_name` gives it, which `fileName` imitates: the last
        name once "." names are dropped, unless there is none or it is ".."; it needs no
        working directory. */
    function IntendedFileName(): (r: Option<string>)
      ensures r.Some? ==> Posix.IsWord(r.value) && r.value != "." && r.value != ".."
      ensures r.Some? ==> r.value in Posix.Segments(text)
    {
      var names := WithoutDots(Posix.Segments(text));
      if names == [] || names[|names| - 1] == ".." then None
      else Some(names[|names| - 1])
    }

    /** `fileStem()`: the file name's dot-separated pieces but the last, rejoined with ".":
        the text before the last dot, or "" for a name without a dot. */
    function FileStem(cwd: string): (r: Option<string>)
      requires Posix.IsAbsolute(cwd)
      ensures r.None? <==> FileName(cwd).None?
      ensures r.Some? ==>
        var n := FileName(cwd).value;
        var k := LastIndexOf(n, '.');
        r.value == if k < 0 then "" else n[..k]
    {
      match FileName(cwd)
      case None => None
      case Some(n) => Some(StemOf(n))
    }

    /** `extension()`: the last dot-separated piece of the file name: the text after the last
        dot, or the whole name when it has no dot. */
    function Extension(cwd: string): (r: Option<string>)
      requires Posix.IsAbsolute(cwd)
      ensures r.None? <==> FileName(cwd).None?
      ensures r.Some? ==>
        var n := FileName(cwd).value;
        r.value == n[LastIndexOf(n, '.') + 1..]
      ensures r.Some? ==> Avoids(r.value, '.')
    {
      match FileName(cwd)
      case None => None
      case Some(n) => Some(ExtensionOf(n))
    }

    /** `join(other)`: `customJoin` of the two texts. */
    function Join(other: string): Path
    {
      Path(Joined([text, other]))
    }

    /** `withFileName(name)`: the parent joined with `name`, or `name` alone when there is
        no parent. */
    function WithFileName(name: string): Path
    {
      match Parent()
      case Some(q) => q.Join(name)
      case None => Path(name)
    }

    /** `withExtension(ext)`: the file stem, followed by "." and `ext` when `ext` is not
        empty; the directory is dropped, and a missing or empty stem gives "". */
    function WithExtension(ext: string, cwd: string): Path
      requires Posix.IsAbsolute(cwd)
    {
      match FileStem(cwd)
      case Some(stem) =>
        if stem != "" then (if ext != "" then Path(stem + "." + ext) else Path(stem))
        else Path("")
      case None => Path("")
    }

    /** `ancestors()`: a fresh cursor that starts at this path. */
    method AncestorCursor() returns (cursor: Ancestors)
      ensures fresh(cursor) && cursor.current == Some(this)
      ensures cursor.Remaining() == AncestorList(this)
    {
      cursor := new Ancestors(this);
    }

    /** `iter()`: collect the ancestors, reverse them, name each one, drop the unnamed. */
    method Iter() returns (parts: seq<string>)
      ensures parts == Components(this)
    {
      var cursor := AncestorCursor();
      var walk := Collect(cursor);
      var paths := Reversed(walk);
      var named := Map(paths, PartName);
      parts := FilterMap(named, Itself);
      KeptOfMap(paths, PartName);
      WalkSpellsComponents(this);
    }

    /** `startsWith(other)`: compares the component sequences index by index over `other`'s
        length, with `equals` on each pair. */
    method StartsWith(other: Path) returns (r: Result<bool>)
      ensures r == PrefixMatch(Components(this), Components(other))
    {
      var me := Iter();
      var them := other.Iter();
      r := MatchFront(me, them);
    }

    /** `endsWith(other)`: the same loop on both component sequences reversed. */
    method EndsWith(other: Path) returns (r: Result<bool>)
      ensures r == SuffixMatch(Components(this), Components(other))
    {
      var mine := Iter();
      var theirs := other.Iter();
      var me := Reversed(mine);
      var them := Reversed(theirs);
      r := MatchFront(me, them);
      ReversedPrefixMatch(mine, theirs);
    }

    /** `stripPrefix(prefix)`: `undefined` unless `startsWith(prefix)`; "" when the two
        component sequences are equal; otherwise the components after the prefix, folded
        with `customJoin`. */
    method StripPrefix(prefix: Path) returns (r: Result<Option<Path>>)
      ensures r.Failure? <==> Components(this) < Components(prefix)
      ensures r == Ok(None) <==> PrefixMatch(Components(this), Components(prefix)) == Ok(false)
      ensures r.Ok? && r.value.Some? ==>
        var cs := Components(this);
        var k := |Components(prefix)|;
        && k <= |cs|
        && r.value.value.text == (if k == |cs| then "" else JoinWith(cs[k..], "/"))
        && Components(prefix) + Components(r.value.value) == cs
    {
      var matched := StartsWith(prefix);
      if matched.Failure? {
        return Failure(matched.error);
      }
      if !matched.value {
        return Ok(None);
      }
      var me := Iter();
      var them := prefix.Iter();
      if forall i | 0 <= i < |me| :: i < |them| && me[i] == them[i] {
        assert them <= me;
        if |me| > 0 {
          ghost var last := me[|me| - 1];
          assert |me| - 1 < |them|;
        }
        assert me == them;
        return Ok(Some(Path("")));
      }
      var rest := me[|them|..];
      RestWellFormed(me, |them|);
      ReduceJoinIsJoinWith(rest);
      ComponentsOfJoined(rest);
      assert me == them + rest;
      return Ok(Some(Path(ReduceJoin(rest))));
    }
  }

  /** `fileStem`'s computation on a file name: split at the dots, drop the last piece, join
      the rest with dots. That is the text before the last dot, or "" without a dot. */
  function StemOf(n: string): (r: string)
    ensures var k := LastIndexOf(n, '.'); r == if k < 0 then "" else n[..k]
  {
    var split := Split(n, '.');
    SplitFront(n, '.');
    JoinWith(split[..|split| - 1], ".")
  }

  /** `extension`'s computation on a file name: the last piece of the split at the dots,
      which is the text after the last dot, or all of `n` without a dot. */
  function ExtensionOf(n: string): (r: string)
    ensures r == n[LastIndexOf(n, '.') + 1..]
    ensures Avoids(r, '.')
  {
    var split := Split(n, '.');
    split[|split| - 1]
  }

  /** The names other than ".", in order. */
  function WithoutDots(segs: seq<string>): (r: seq<string>)
    ensures forall i :: 0 <= i < |r| ==> r[i] in segs && r[i] != "."
  {
    if segs == [] then []
    else
      var front := WithoutDots(segs[..|segs| - 1]);
      var last := segs[|segs| - 1];
      assert forall x :: x in front ==> x in segs;
      if last == "." then front else front + [last]
  }

  /** `fileName` answers the defined text "" exactly when the path has a base other than
      ".." and resolves to the root (no name survives normalizing), as "/." does. */
  lemma FileNameEmpty(p: Path, cwd: string)
    requires Posix.IsAbsolute(cwd)
    ensures p.FileName(cwd) == Some("") <==>
      p.FileName(cwd).Some? && Posix.Normalize(Posix.ResolveNames(p.text, cwd)) == []
  {
    Posix.ResolvedName(p.text, cwd);
  }

  /** `fileName` as written agrees with the intended file name whenever the base is a plain
      name. */
  lemma IntendedFileNameAgrees(p: Path, cwd: string)
    requires Posix.IsAbsolute(cwd)
    requires Posix.Parse(p.text).base !in {"", ".", ".."}
    ensures p.IntendedFileName() == p.FileName(cwd)
  {
    var segs := Posix.Segments(p.text);
    Posix.ParseLastSegment(p.text);
    assert segs[|segs| - 1] == Posix.Parse(p.text).base;
  }

  /** `fileName` as written, on "/.": the base "." sends it through `resolve`, which lands on
      the root, so it answers the defined name "" where the intended file name is absent. */
  lemma RootDotFileName(cwd: string)
    requires Posix.IsAbsolute(cwd)
    ensures Path("/.").FileName(cwd) == Some("")
    ensures Path("/.").IntendedFileName() == None
  {
    RootDotNames();
    Posix.ParseRootWord(".");
    assert Posix.ResolveNames("/.", cwd) == ["."];
    assert Posix.Normalize(["."]) == [];
    assert WithoutDots(["."]) == [];
  }

  lemma RootDotNames()
    ensures Posix.Segments("/.") == ["."]
  {
    Posix.SegmentsAppend("", ".");
    assert "" + "/" + "." == "/.";
    Posix.SegmentsOfWord(".");
    Posix.SegmentsOfSeps("");
  }

  /** `iter`'s `partName`: the basename, or for an ancestor without one the dirname, unless
      that is ".". */
  function PartName(part: Path): Option<string>
  {
    var baseName := Posix.Basename(part.text);
    if baseName == "" then
      (if Posix.Dirname(part.text) == "." then None else Some(Posix.Dirname(part.text)))
    else Some(baseName)
  }

  /** `parent` takes away exactly the last name: there is none to take exactly when the path
      has no names, and otherwise the parent's components followed by the base are the
      path's. */
  lemma ParentComponents(p: Path)
    ensures p.Parent().None? <==> Posix.Segments(p.text) == []
    ensures p.Parent().Some? ==>
      Components(p.Parent().value) + [Posix.Parse(p.text).base] == Components(p)
  {
    if Posix.Parse(p.text).base == "" {
      Posix.SegmentsOfSeps(p.text);
    } else {
      Posix.ParseLastSegment(p.text);
    }
  }

  /** The paths an ancestor cursor yields from `p`: `p`, then each parent in turn, up to the
      first path that has no parent (which is yielded too); `AncestorChain` states the
      parent links between neighbours. */
  function AncestorList(p: Path): seq<Path>
    decreases |p.text|
  {
    var up := p.Parent();
    if up.None? then [p] else [p] + AncestorList(up.value)
  }

  /** The ancestor list starts at `p`, each of its paths is followed by its parent, and the
      last one has none. */
  lemma {:induction false} AncestorChain(p: Path)
    ensures var r := AncestorList(p); |r| >= 1 && r[0] == p
    ensures var r := AncestorList(p);
      forall i :: 0 <= i < |r| - 1 ==> r[i].Parent() == Some(r[i + 1])
    ensures var r := AncestorList(p); r[|r| - 1].Parent() == None
    decreases |p.text|
  {
    var up := p.Parent();
    if up.Some? {
      var rest := AncestorList(up.value);
      AncestorChain(up.value);
      ChainCons(p, rest);
      assert AncestorList(p) == [p] + rest;
    }
  }

  /** The walk is one step longer than the path has names: each `parent` removes exactly one
      name, and the walk ends at the first path with none. */
  lemma {:induction false} AncestorCount(p: Path)
    ensures |AncestorList(p)| == |Posix.Segments(p.text)| + 1
    decreases |p.text|
  {
    ParentComponents(p);
    match p.Parent()
    case None =>
    case Some(q) =>
      Posix.ParseLastSegment(p.text);
      AncestorCount(q);
  }

  /** A parent chain stays one when the child of its head is put in front. */
  lemma ChainCons(p: Path, rest: seq<Path>)
    requires |rest| >= 1 && p.Parent() == Some(rest[0])
    requires forall i :: 0 <= i < |rest| - 1 ==> rest[i].Parent() == Some(rest[i + 1])
    ensures forall i :: 0 <= i < |rest| ==> ([p] + rest)[i].Parent() == Some(([p] + rest)[i + 1])
    ensures ([p] + rest)[|rest|].Parent() == rest[|rest| - 1].Parent()
  {
    var r := [p] + rest;
    assert r[|rest|] == rest[|rest| - 1];
    forall i | 0 <= i < |rest|
      ensures r[i].Parent() == Some(r[i + 1])
    {
      if i > 0 {
        assert r[i] == rest[i - 1];
      }
    }
  }

  /** `Ancestors`: the cursor walking a path toward its root; `current` is the source's
      private `startPath`, or `None` once the walk is over. */
  class Ancestors {
    var current: Option<Path>

    constructor (startPath: Path)
      ensures current == Some(startPath)
    {
      current := Some(startPath);
    }

    /** The paths this cursor has yet to yield, in order. */
    function Remaining(): seq<Path>
      reads this
    {
      match current
      case None => []
      case Some(p) => AncestorList(p)
    }

    /** `next()`: yields the current path and moves to its parent; once the walk is over it
        yields nothing (the iterator's `done`) every time. */
    method Next() returns (r: Option<Path>)
      modifies this
      ensures r == old(current)
      ensures current == (if r.Some? then r.value.Parent() else None)
      ensures old(Remaining()) == (if r.Some? then [r.value] + Remaining() else [])
    {
      var nextPath := current;
      if current.Some? {
        current := current.value.Parent();
        r := nextPath;
      } else {
        r := None;
      }
    }
  }

  /** `collect(iter)`: calls `next()` until it is done, keeping what it yields. */
  method Collect(cursor: Ancestors) returns (r: seq<Path>)
    modifies cursor
    ensures r == old(cursor.Remaining())
    ensures cursor.current == None
  {
    ghost var walk := cursor.Remaining();
    r := [];
    var i := cursor.Next();
    ghost var rest := cursor.Remaining();
    CollectStart(walk, i, rest);
    while i.Some?
      invariant rest == cursor.Remaining()
      invariant i.Some? ==> walk == r + [i.value] + rest
      invariant i.None? ==> walk == r && cursor.current == None
      decreases |walk| - |r|
    {
      ghost var ahead := rest;
      r := r + [i.value];
      i := cursor.Next();
      rest := cursor.Remaining();
      CollectStep(walk, r, i, ahead, rest);
    }
  }

  /** Before `collect`'s loop: nothing collected, the first path pending. */
  lemma CollectStart<T>(walk: seq<T>, i: Option<T>, rest: seq<T>)
    requires walk == (if i.Some? then [i.value] + rest else [])
    ensures i.Some? ==> walk == [] + [i.value] + rest
    ensures i.None? ==> walk == []
  {
  }

  /** One round of `collect`'s loop: pushing the yielded path and fetching the next keeps
      "collected so far, then the pending path, then the rest" equal to the whole walk. */
  lemma CollectStep<T>(walk: seq<T>, r: seq<T>, i: Option<T>, ahead: seq<T>, rest: seq<T>)
    requires |r| > 0 && walk == r[..|r| - 1] + [r[|r| - 1]] + ahead
    requires ahead == (if i.Some? then [i.value] + rest else [])
    ensures i.Some? ==> walk == r + [i.value] + rest
    ensures i.None? ==> walk == r
  {
    assert r[..|r| - 1] + [r[|r| - 1]] == r;
  }

  /** The defined results of `f` over `xs`, in order. */
  function Kept<A, B>(xs: seq<A>, f: A -> Option<B>): seq<B>
  {
    if xs == [] then []
    else
      Kept(xs[..|xs| - 1], f)
        + (match f(xs[|xs| - 1]) case Some(b) => [b] case None => [])
  }

  /** `iter`'s `(e) => e`, passed to `filterMap`. */
  function Itself(e: Option<string>): Option<string>
  {
    e
  }

  /** `filterMap(array, fun)` */
  method FilterMap<A, B>(xs: seq<A>, f: A -> Option<B>) returns (r: seq<B>)
    ensures r == Kept(xs, f)
  {
    r := [];
    for i := 0 to |xs|
      invariant r == Kept(xs[..i], f)
    {
      assert xs[..i + 1][..i] == xs[..i];
      if f(xs[i]).Some? {
        r := r + [f(xs[i]).value];
      }
    }
    assert xs[..|xs|] == xs;
  }

  /** The non-empty pieces, in order. */
  function NonEmpty(xs: seq<string>): (r: seq<string>)
    ensures forall i :: 0 <= i < |r| ==> r[i] != ""
  {
    if xs == [] then []
    else
      var front := NonEmpty(xs[..|xs| - 1]);
      var last := xs[|xs| - 1];
      var r := if last != "" then front + [last] else front;
      assert forall i :: 0 <= i < |front| ==> r[i] == front[i];
      r
  }

  /** What `customJoin` computes: the non-empty pieces with one separator between
      neighbours, or "." when there are none. */
  function Joined(paths: seq<string>): string
  {
    var pieces := NonEmpty(paths);
    if pieces == [] then "." else JoinWith(pieces, "/")
  }

  /** `customJoin(...paths)` */
  method CustomJoin(paths: seq<string>) returns (r: string)
    ensures r == Joined(paths)
  {
    if |paths| == 0 {
      return ".";
    }
    var joined := "";  // "" stands for the source's `undefined`: both are falsy
    for i := 0 to |paths|
      invariant joined == JoinWith(NonEmpty(paths[..i]), "/")
      invariant joined == "" <==> NonEmpty(paths[..i]) == []
    {
      assert paths[..i + 1][..i] == paths[..i];
      var path := paths[i];
      if |path| > 0 {
        if joined == "" {
          joined := path;
        } else {
          joined := joined + "/" + path;
        }
      }
    }
    assert paths[..|paths|] == paths;
    if joined == "" {
      return ".";
    }
    return joined;
  }

  /** `parts.reduce((p, c) => customJoin(p, c))` over a non-empty array. */
  function ReduceJoin(parts: seq<string>): string
    requires |parts| > 0
  {
    if |parts| == 1 then parts[0]
    else Joined([ReduceJoin(parts[..|parts| - 1]), parts[|parts| - 1]])
  }

  /** The outcome of `startsWith`'s loop: `true` when `other` is a prefix of `me`, a thrown
      TypeError when `me` is a proper prefix of `other`, `false` otherwise. */
  function PrefixMatch(me: seq<string>, other: seq<string>): Result<bool>
  {
    if other <= me then Ok(true)
    else if me < other then Failure(UndefinedPath)
    else Ok(false)
  }

  /** The outcome of `endsWith`'s loop: `true` when `other` is a suffix of `me`, a thrown
      TypeError when `me` is a proper suffix of `other`, `false` otherwise. */
  function SuffixMatch(me: seq<string>, other: seq<string>): Result<bool>
  {
    if |other| <= |me| && me[|me| - |other|..] == other then Ok(true)
    else if |me| < |other| && other[|other| - |me|..] == me then Failure(UndefinedPath)
    else Ok(false)
  }

  /** The loop `startsWith` and `endsWith` share: walk `them` index by index, throwing when
      `me` runs out first and answering `false` at the first pair that `equals` rejects. */
  method MatchFront(me: seq<string>, them: seq<string>) returns (r: Result<bool>)
    requires forall i :: 0 <= i < |me| ==> IsComponent(me[i])
    requires forall i :: 0 <= i < |them| ==> IsComponent(them[i])
    ensures r == PrefixMatch(me, them)
  {
    for i := 0 to |them|
      invariant i <= |me| && me[..i] == them[..i]
    {
      if i >= |me| {
        assert me == them[..|me|];
        return Failure(UndefinedPath);
      }
      var same := SameComponent(me[i], them[i]);
      if !same {
        return Ok(false);
      }
    }
    assert them == me[..|them|];
    return Ok(true);
  }

  /** On components, `equals` is equality of the texts: the root marker has root "/", and a
      name is its own base with no root. */
  method SameComponent(a: string, b: string) returns (same: bool)
    requires IsComponent(a) && IsComponent(b)
    ensures same <==> a == b
  {
    same := Path(a).Equals(Path(b));
    ComponentParse(a);
    ComponentParse(b);
  }

  // ---------------------------------------------------------------------------------------
  // Lemmas

  lemma ComponentParse(c: string)
    requires IsComponent(c)
    ensures Posix.Parse(c).root == (if c == "/" then "/" else "")
    ensures c != "/" ==> Posix.Parse(c).base == c
  {
    if c == "/" {
      Posix.ParseRoot();
    } else {
      Posix.ParseWord(c);
    }
  }

  /** Mapping and then keeping the defined entries is keeping `g`'s defined results. */
  lemma {:induction false} KeptOfMap<A>(xs: seq<A>, g: A -> Option<string>)
    ensures Kept(Map(xs, g), Itself) == Kept(xs, g)
  {
    if xs != [] {
      var n := |xs|;
      var ys := Map(xs, g);
      var front := Map(xs[..n - 1], g);
      assert forall i :: 0 <= i < n - 1 ==> ys[..n - 1][i] == g(xs[i]) == front[i];
      assert ys[..n - 1] == front;
      assert Itself(ys[n - 1]) == g(xs[n - 1]);
      KeptOfMap(xs[..n - 1], g);
    }
  }

  /** The heart of `iter`: naming the reversed ancestor walk gives the component sequence.
      Each step toward the root removes the last name, and the walk ends at "" (no
      component) or at the root (the component "/"). */
  lemma {:induction false} WalkSpellsComponents(p: Path)
    ensures Kept(Reversed(AncestorList(p)), PartName) == Components(p)
    decreases |p.text|
  {
    ParentComponents(p);
    Posix.BasenameIsBase(p.text);
    match p.Parent()
    case None =>
      Posix.SegmentsOfSeps(p.text);
      Posix.DirnameOfSeps(p.text);
      assert Reversed([p]) == [] + [p];
      KeptSnoc([], p, PartName);
    case Some(q) =>
      WalkSpellsComponents(q);
      var rest := AncestorList(q);
      ReversedCons(p, rest);
      KeptSnoc(Reversed(rest), p, PartName);
  }

  lemma ReversedCons<T>(x: T, rest: seq<T>)
    ensures Reversed([x] + rest) == Reversed(rest) + [x]
  {
    var r := Reversed(rest) + [x];
    assert forall i :: 0 <= i < |rest| ==> r[i] == rest[|rest| - 1 - i];
  }

  lemma KeptSnoc<A, B>(xs: seq<A>, x: A, f: A -> Option<B>)
    ensures Kept(xs + [x], f) == Kept(xs, f) + (match f(x) case Some(b) => [b] case None => [])
  {
    assert (xs + [x])[..|xs|] == xs;
  }

  /** Folding non-empty pieces with `customJoin` puts one separator between neighbours. */
  lemma {:induction false} ReduceJoinIsJoinWith(parts: seq<string>)
    requires |parts| > 0
    requires forall i :: 0 <= i < |parts| ==> parts[i] != ""
    ensures ReduceJoin(parts) == JoinWith(parts, "/")
  {
    var n := |parts|;
    if n > 1 {
      ReduceJoinIsJoinWith(parts[..n - 1]);
      JoinWithNonEmpty(parts[..n - 1]);
      JoinedPair(ReduceJoin(parts[..n - 1]), parts[n - 1]);
    }
  }

  /** `customJoin` of two pieces: the one that is not empty, both with a separator between,
      or "." when both are empty. */
  lemma JoinedPair(a: string, b: string)
    ensures Joined([a, b]) ==
      if a == "" && b == "" then "." else if a == "" then b else if b == "" then a else a + "/" + b
  {
    var pair := [a, b];
    assert pair[..1] == [a];
    assert [a][..0] == [];
    assert NonEmpty([a]) == if a != "" then [a] else [];
    assert NonEmpty(pair) == NonEmpty([a]) + if b != "" then [b] else [];
    assert JoinWith(pair, "/") == JoinWith([a], "/") + "/" + b;
  }

  lemma {:induction false} JoinWithNonEmpty(parts: seq<string>)
    requires |parts| > 0 && parts[0] != ""
    ensures JoinWith(parts, "/") != "" && JoinWith(parts, "/")[0] == parts[0][0]
  {
    if |parts| > 1 {
      JoinWithNonEmpty(parts[..|parts| - 1]);
    }
  }

  /** A well-formed non-empty component sequence written out with "/" between entries reads
      back as the same sequence (a leading root marker gives the text "//..."). */
  lemma {:induction false} ComponentsOfJoined(cs: seq<string>)
    requires |cs| > 0 && WellFormed(cs)
    ensures Components(Path(JoinWith(cs, "/"))) == cs
  {
    var n := |cs|;
    if n == 1 {
      ComponentsOfOne(cs[0]);
    } else {
      var front := cs[..n - 1];
      FrontWellFormed(cs);
      ComponentsOfJoined(front);
      JoinWithNonEmpty(front);
      ComponentsAfterSep(JoinWith(front, "/"), cs[n - 1]);
    }
  }

  lemma ComponentsOfOne(c: string)
    requires IsComponent(c)
    ensures Components(Path(JoinWith([c], "/"))) == [c]
  {
    if c == "/" {
      Posix.SegmentsOfSeps("/");
    } else {
      Posix.SegmentsOfWord(c);
    }
  }

  lemma FrontWellFormed(cs: seq<string>)
    requires |cs| > 1 && WellFormed(cs)
    ensures WellFormed(cs[..|cs| - 1]) && cs[..|cs| - 1][0] != "" && Posix.IsWord(cs[|cs| - 1])
  {
    var front := cs[..|cs| - 1];
    assert forall i :: 0 <= i < |front| ==> front[i] == cs[i];
  }

  lemma ComponentsAfterSep(a: string, x: string)
    requires a != "" && Posix.IsWord(x)
    ensures Components(Path(a + "/" + x)) == Components(Path(a)) + [x]
  {
    Posix.SegmentsOfWord(x);
    ComponentsAppend(a, x);
  }

  /** After a non-empty text and a separator, the names of `b` follow `a`'s components. */
  lemma ComponentsAppend(a: string, b: string)
    requires a != ""
    ensures Components(Path(a + "/" + b)) == Components(Path(a)) + Posix.Segments(b)
  {
    var s := a + "/" + b;
    Posix.SegmentsAppend(a, b);
    assert Posix.IsAbsolute(s) == Posix.IsAbsolute(a) by {
      assert s[0] == a[0];
    }
    var root := if Posix.IsAbsolute(a) then ["/"] else [];
    AppendAssoc(root, Posix.Segments(a), Posix.Segments(b));
  }

  lemma AppendAssoc<T>(x: seq<T>, y: seq<T>, z: seq<T>)
    ensures x + (y + z) == (x + y) + z
  {
  }

  lemma RestWellFormed(cs: seq<string>, k: nat)
    requires WellFormed(cs) && k < |cs|
    ensures WellFormed(cs[k..])
    ensures forall i :: 0 <= i < |cs[k..]| ==> cs[k..][i] != ""
  {
    assert forall i :: 0 <= i < |cs[k..]| ==> cs[k..][i] == cs[k + i];
  }

  /** A prefix of the reversal is the reversal of a suffix. */
  lemma ReversedPrefix(a: seq<string>, b: seq<string>)
    ensures Reversed(b) <= Reversed(a) <==> |b| <= |a| && a[|a| - |b|..] == b
  {
    if |b| <= |a| {
      var ra := Reversed(a);
      var rb := Reversed(b);
      var tail := a[|a| - |b|..];
      assert forall j :: 0 <= j < |b| ==> tail[j] == a[|a| - |b| + j];
      assert forall j :: 0 <= j < |b| ==> ra[j] == a[|a| - 1 - j];
      assert forall j :: 0 <= j < |b| ==> rb[j] == b[|b| - 1 - j];
      assert rb <= ra <==> forall j :: 0 <= j < |b| ==> rb[j] == ra[j];
      assert tail == b <==> forall j :: 0 <= j < |b| ==> tail[j] == b[j];
      SameBackwards(tail, b, ra, rb);
    }
  }

  lemma SameBackwards(tail: seq<string>, b: seq<string>, ra: seq<string>, rb: seq<string>)
    requires |tail| == |b| == |rb| <= |ra|
    requires forall j :: 0 <= j < |b| ==> ra[j] == tail[|b| - 1 - j]
    requires forall j :: 0 <= j < |b| ==> rb[j] == b[|b| - 1 - j]
    ensures (forall j :: 0 <= j < |b| ==> rb[j] == ra[j]) <==> (forall j :: 0 <= j < |b| ==> tail[j] == b[j])
  {
    if forall j :: 0 <= j < |b| ==> rb[j] == ra[j] {
      forall j | 0 <= j < |b|
        ensures tail[j] == b[j]
      {
        assert rb[|b| - 1 - j] == ra[|b| - 1 - j];
      }
    }
  }

  /** Matching the reversals from the front is matching the originals from the back. */
  lemma ReversedPrefixMatch(a: seq<string>, b: seq<string>)
    ensures PrefixMatch(Reversed(a), Reversed(b)) == SuffixMatch(a, b)
  {
    ReversedPrefix(a, b);
    ReversedPrefix(b, a);
  }

  /** `equals` holds exactly when the two `parse` results are the same record, so it is an
      equivalence; separators at the end of a non-empty text do not change it. */
  lemma EqualsIsSameParse(p: Path, q: Path)
    ensures p.Equals(q) <==> Posix.Parse(p.text) == Posix.Parse(q.text)
    ensures p.Equals(p) && (p.Equals(q) <==> q.Equals(p))
  {
  }

  lemma EqualsIgnoresTrailingSeps(a: string, t: string)
    requires a != "" && Posix.AllSeps(t, 0, |t|)
    ensures Path(a + t).Equals(Path(a))
  {
    Posix.ParseIgnoresTrailingSeps(a, t);
  }

  /** `join`: the result's components are this path's followed by the names of `other`
      (even when `other` is absolute, as "/tmp" joined with "/var" gives "/tmp//var"); an
      empty path gives `other` itself, and two empty texts give ".". */
  lemma JoinComponents(p: Path, other: string)
    ensures p.text != "" ==> Components(p.Join(other)) == Components(p) + Posix.Segments(other)
    ensures p.text == "" && other != "" ==> p.Join(other) == Path(other)
    ensures p.text == "" && other == "" ==> p.Join(other) == Path(".")
  {
    JoinedPair(p.text, other);
    if p.text != "" {
      if other != "" {
        ComponentsAppend(p.text, other);
      } else {
        Posix.SegmentsOfSeps("");
      }
    }
  }

  /** `withFileName(name)` replaces the last component by `name`; a path without a parent
      becomes `name` alone. */
  lemma WithFileNameReplacesLast(p: Path, name: string)
    requires Posix.IsWord(name)
    ensures p.Parent().Some? ==>
      Components(p.WithFileName(name)) == Components(p)[..|Components(p)| - 1] + [name]
    ensures p.Parent().None? ==> Components(p.WithFileName(name)) == [name]
  {
    Posix.SegmentsOfWord(name);
    ParentComponents(p);
    match p.Parent()
    case None =>
    case Some(q) =>
      JoinComponents(q, name);
      var cs := Components(p);
      assert cs[..|cs| - 1] == Components(q);
      if q.text == "" {
        Posix.SegmentsOfSeps("");
      }
  }

  /** `fileStem` and `extension` take the file name apart at its last dot: a dotted name is
      stem + "." + extension, and a name without a dot has stem "" and is its own
      extension. */
  lemma StemDotExtension(p: Path, cwd: string)
    requires Posix.IsAbsolute(cwd)
    requires p.FileName(cwd).Some?
    ensures var n := p.FileName(cwd).value;
      '.' in n ==> p.FileStem(cwd).value + "." + p.Extension(cwd).value == n
    ensures var n := p.FileName(cwd).value;
      '.' !in n ==> p.FileStem(cwd).value == "" && p.Extension(cwd).value == n
  {
    StemDotExtensionOf(p.FileName(cwd).value);
  }

  lemma StemDotExtensionOf(n: string)
    ensures '.' in n ==> StemOf(n) + "." + ExtensionOf(n) == n
    ensures '.' !in n ==> StemOf(n) == "" && ExtensionOf(n) == n
  {
    var k := LastIndexOf(n, '.');
    if '.' in n {
      assert k >= 0;
      assert n == n[..k] + "." + n[k + 1..];
    } else {
      assert k < 0;
    }
  }

  /** `withExtension(ext)` followed by `fileStem` and `extension` gives back the stem and
      `ext`, for an extension that is a plain dot-free name. */
  lemma WithExtensionRoundTrip(p: Path, ext: string, cwd: string)
    requires Posix.IsAbsolute(cwd)
    requires p.FileStem(cwd).Some? && p.FileStem(cwd).value != ""
    requires Posix.IsWord(ext) && Avoids(ext, '.')
    ensures p.WithExtension(ext, cwd).FileStem(cwd) == p.FileStem(cwd)
    ensures p.WithExtension(ext, cwd).Extension(cwd) == Some(ext)
  {
    var stem := p.FileStem(cwd).value;
    StemIsSepFree(p.FileName(cwd).value);
    var t := stem + "." + ext;
    assert p.WithExtension(ext, cwd) == Path(t);
    DottedName(stem, ext);
    FileNameOfWord(t, cwd);
  }

  lemma StemIsSepFree(n: string)
    requires Posix.SepFree(n)
    ensures Posix.SepFree(StemOf(n))
  {
  }

  /** A dotted name splits back into the stem and the dot-free extension. */
  lemma DottedName(stem: string, ext: string)
    requires Posix.SepFree(stem) && Posix.IsWord(ext) && Avoids(ext, '.')
    ensures var t := stem + "." + ext;
      Posix.IsWord(t) && t != "." && t != ".." && StemOf(t) == stem && ExtensionOf(t) == ext
  {
    var t := stem + "." + ext;
    assert t[|t| - 1] == ext[|ext| - 1];
    var k := LastIndexOf(t, '.');
    assert t[|stem|] == '.';
    assert forall j :: |stem| < j < |t| ==> t[j] == ext[j - |stem| - 1];
    assert k == |stem|;
    assert t[..|stem|] == stem;
    assert t[|stem| + 1..] == ext;
  }

  /** A plain name is its own file name. */
  lemma FileNameOfWord(w: string, cwd: string)
    requires Posix.IsAbsolute(cwd)
    requires Posix.IsWord(w) && w != "." && w != ".."
    ensures Path(w).FileName(cwd) == Some(w)
  {
    Posix.ParseWord(w);
  }
}
