/** The POSIX helpers of the Deno standard library (path/posix.ts of std 0.126.0, which follows
    Node's `path.posix`) that the path value calls: `isAbsolute`, `basename`, `dirname`, `parse`
    and `resolve`. The separator is always '/'. Each function follows the library's right-to-left
    scan: trailing separators are skipped, then the final segment runs back to the previous
    separator.

    `Segments` is this model's own reference definition of a path's names (the non-empty runs
    between separators); the lemmas at the end relate the library's answers to it. */
module Posix {
  import opened Builtins

  /** `isAbsolute`: the path begins with the separator. */
  predicate IsAbsolute(s: string)
  {
    |s| > 0 && s[0] == '/'
  }

  /** No separator occurs in `s`. */
  predicate SepFree(s: string)
  {
    forall k :: 0 <= k < |s| ==> s[k] != '/'
  }

  /** A name: non-empty and free of separators. */
  predicate IsWord(s: string)
  {
    s != [] && SepFree(s)
  }

  /** Every character of `s[lo..hi]` is the separator. */
  predicate AllSeps(s: string, lo: nat, hi: nat)
    requires lo <= hi <= |s|
  {
    forall k :: lo <= k < hi ==> s[k] == '/'
  }

  /** Scanning `s[lo..hi]` from the right past separators: the index just after the last
      character that is not one, or `lo` when there is none. */
  function TrailEnd(s: string, lo: nat, hi: nat): (e: nat)
    requires lo <= hi <= |s|
    ensures lo <= e <= hi
    ensures AllSeps(s, e, hi)
    ensures e > lo ==> s[e - 1] != '/'
    decreases hi
  {
    if hi == lo then lo
    else if s[hi - 1] == '/' then TrailEnd(s, lo, hi - 1)
    else hi
  }

  /** Scanning `s[lo..hi]` from the right up to a separator: the index just after the nearest
      separator, or `lo` when there is none. */
  function RunStart(s: string, lo: nat, hi: nat): (b: nat)
    requires lo <= hi <= |s|
    ensures lo <= b <= hi
    ensures forall k :: b <= k < hi ==> s[k] != '/'
    ensures b > lo ==> s[b - 1] == '/'
    decreases hi
  {
    if hi == lo then lo
    else if s[hi - 1] == '/' then hi
    else RunStart(s, lo, hi - 1)
  }

  /** The two scans are determined by what they promise. */
  lemma TrailEndIs(s: string, lo: nat, hi: nat, e: nat)
    requires lo <= e <= hi <= |s|
    requires AllSeps(s, e, hi)
    requires e > lo ==> s[e - 1] != '/'
    ensures TrailEnd(s, lo, hi) == e
  {
  }

  lemma RunStartIs(s: string, lo: nat, hi: nat, b: nat)
    requires lo <= b <= hi <= |s|
    requires forall k :: b <= k < hi ==> s[k] != '/'
    requires b > lo ==> s[b - 1] == '/'
    ensures RunStart(s, lo, hi) == b
  {
  }

  /** The names of a path, in order: the non-empty runs between separators. */
  function Segments(s: string): (r: seq<string>)
    ensures forall i :: 0 <= i < |r| ==> IsWord(r[i])
    decreases |s|
  {
    var e := TrailEnd(s, 0, |s|);
    if e == 0 then []
    else
      var b := RunStart(s, 0, e);
      var last := s[b..e];
      assert forall k :: 0 <= k < |last| ==> last[k] == s[b + k];
      var front := Segments(s[..b]);
      var r := front + [last];
      assert forall i :: 0 <= i < |front| ==> r[i] == front[i];
      r
  }

  /** `basename(s)`: the final segment, trailing separators ignored; "" when `s` is
      nothing but separators. */
  function Basename(s: string): (b: string)
    ensures SepFree(b)
    ensures b == "" <==> AllSeps(s, 0, |s|)
  {
    var e := TrailEnd(s, 0, |s|);
    if e == 0 then ""
    else
      var start := RunStart(s, 0, e);
      var b := s[start..e];
      assert forall k :: 0 <= k < |b| ==> b[k] == s[start + k];
      assert b[|b| - 1] == s[e - 1];
      b
  }

  /** `dirname(s)`: the text before the separator that precedes the final segment
      (trailing separators ignored; the scan never looks at index 0); "/" or "." when there
      is no such separator, "//" when it sits at index 1 of an absolute path, "." for "". */
  function Dirname(s: string): (d: string)
    ensures d == "." || d <= s
    ensures d != "" && (IsAbsolute(d) <==> IsAbsolute(s))
  {
    if |s| == 0 then "."
    else
      var hasRoot := s[0] == '/';
      var e := TrailEnd(s, 1, |s|);
      var b := RunStart(s, 1, e);
      if b == 1 then (if hasRoot then "/" else ".")
      else if hasRoot && b - 1 == 1 then "//"
      else s[..b - 1]
  }

  /** The result of `parse`. */
  datatype ParsedPath = ParsedPath(root: string, dir: string, base: string, ext: string, name: string)

  /** The (name, ext) split of a final segment: `ext` runs from the last dot, unless there
      is no dot, the only dot leads the segment, or the segment is "..". The library tests
      the ".." case by position, so for a segment that starts right after the root of an
      absolute path (`rootSegment`) ".." is split into "." and ".". */
  function NameAndExt(base: string, rootSegment: bool): (r: (string, string))
    ensures r.0 + r.1 == base
    ensures r.1 == "" || r.1[0] == '.'
  {
    var d := LastIndexOf(base, '.');
    if d <= 0 || (!rootSegment && base == "..") then (base, "")
    else
      assert base == base[..d] + base[d..];
      (base[..d], base[d..])
  }

  /** `parse(s)`: root, directory and final segment. `dir` is the text before the separator
      that precedes the final segment and keeps any separators repeated before it; for a
      one-segment absolute path it is "/". */
  function Parse(s: string): (r: ParsedPath)
    ensures r.root == (if IsAbsolute(s) then "/" else "")
    ensures r.dir <= s
    ensures SepFree(r.base)
    ensures r.base == "" <==> AllSeps(s, 0, |s|)
    ensures r.name + r.ext == r.base
  {
    if |s| == 0 then ParsedPath("", "", "", "", "")
    else
      var abs := s[0] == '/';
      var start := if abs then 1 else 0;
      var root := if abs then "/" else "";
      assert root <= s;
      var end := TrailEnd(s, start, |s|);
      if end == start then ParsedPath(root, root, "", "", "")
      else
        var b := RunStart(s, start, end);
        var base := s[b..end];
        assert forall k :: 0 <= k < |base| ==> base[k] == s[b + k];
        assert base[|base| - 1] == s[end - 1];
        var dir := if b > start then s[..b - 1] else root;
        assert dir <= s;
        var split := NameAndExt(base, abs && b == start);
        ParsedPath(root, dir, base, split.1, split.0)
  }

  /** The stack of names `normalizeString` builds when dot segments may not climb above
      the root: "." is dropped, ".." removes the previous name (or nothing at the root). */
  function Normalize(segs: seq<string>): (r: seq<string>)
    ensures forall i :: 0 <= i < |r| ==> r[i] in segs && r[i] != "." && r[i] != ".."
  {
    if segs == [] then []
    else
      var rest := Normalize(segs[..|segs| - 1]);
      var last := segs[|segs| - 1];
      assert forall x :: x in rest ==> x in segs;
      if last == "." then rest
      else if last == ".." then (if rest == [] then [] else rest[..|rest| - 1])
      else rest + [last]
  }

  /** `resolve(s)` against the working directory `cwd`: `s` itself when absolute, otherwise
      `cwd` followed by `s`, normalized and written with a leading separator. */
  function Resolve(s: string, cwd: string): (r: string)
    requires IsAbsolute(cwd)
    ensures IsAbsolute(r)
  {
    var segs := Normalize(ResolveNames(s, cwd));
    "/" + JoinWith(segs, "/")
  }

  /** The names `resolve` normalizes: those of `cwd` unless `s` is absolute, then those
      of `s`. */
  function ResolveNames(s: string, cwd: string): seq<string>
  {
    (if IsAbsolute(s) then [] else Segments(cwd)) + Segments(s)
  }

  // ---------------------------------------------------------------------------------------
  // How the library's answers relate to Segments

  /** Separators at the end add no name. */
  lemma SegmentsTrailingSeps(a: string, t: string)
    requires AllSeps(t, 0, |t|)
    ensures Segments(a + t) == Segments(a)
  {
    var s := a + t;
    var e := TrailEnd(a, 0, |a|);
    TrailEndIs(s, 0, |s|, e);
    if e > 0 {
      var b := RunStart(a, 0, e);
      RunStartIs(s, 0, e, b);
      assert s[..b] == a[..b];
      assert s[b..e] == a[b..e];
    }
  }

  /** A separator between two texts separates their names. */
  lemma SegmentsAppend(a: string, b: string)
    ensures Segments(a + "/" + b) == Segments(a) + Segments(b)
  {
    var s := a + "/" + b;
    assert s[..|a|] == a;
    assert s[|a| + 1..] == b;
    SegmentsSplit(s, |a|);
  }

  /** Cutting a path at one of its separators splits its names there. */
  lemma {:induction false} SegmentsSplit(s: string, m: nat)
    requires m < |s| && s[m] == '/'
    ensures Segments(s) == Segments(s[..m]) + Segments(s[m + 1..])
    decreases |s|
  {
    var e := TrailEnd(s, 0, |s|);
    if e <= m + 1 {
      SplitBeforeTrailingSeps(s, m);
    } else {
      var b := RunStart(s, 0, e);
      SegmentsStep(s, e, b);
      SplitLast(s, m, b, e);
      SegmentsSplit(s[..b], m);
      SplitPrefixes(s, m, b);
    }
  }

  lemma SplitBeforeTrailingSeps(s: string, m: nat)
    requires m < |s| && s[m] == '/' && TrailEnd(s, 0, |s|) <= m + 1
    ensures Segments(s) == Segments(s[..m]) && Segments(s[m + 1..]) == []
  {
    assert AllSeps(s[m..], 0, |s[m..]|);
    SegmentsTrailingSeps(s[..m], s[m..]);
    assert s == s[..m] + s[m..];
    SegmentsOfSeps(s[m + 1..]);
  }

  lemma SplitPrefixes(s: string, m: nat, b: nat)
    requires m < b <= |s|
    ensures s[..b][..m] == s[..m] && s[..b][m + 1..] == s[m + 1..][..b - m - 1]
  {
  }

  /** The last name of `s` lies after the separator at `m` and is the last name of what
      follows it. */
  lemma SplitLast(s: string, m: nat, b: nat, e: nat)
    requires m < |s| && s[m] == '/'
    requires e == TrailEnd(s, 0, |s|) && m + 1 < e && b == RunStart(s, 0, e)
    ensures m < b
    ensures Segments(s[m + 1..]) == Segments(s[m + 1..][..b - m - 1]) + [s[b..e]]
  {
    SuffixScan(s, m, b, e);
    SuffixSlice(s, m, b, e);
  }

  /** The scans of `s` seen from just after the separator at `m`. */
  lemma SuffixScan(s: string, m: nat, b: nat, e: nat)
    requires m < |s| && s[m] == '/'
    requires e == TrailEnd(s, 0, |s|) && m + 1 < e && b == RunStart(s, 0, e)
    ensures m < b
    ensures TrailEnd(s[m + 1..], 0, |s[m + 1..]|) == e - m - 1
    ensures RunStart(s[m + 1..], 0, e - m - 1) == b - m - 1
  {
    var t := s[m + 1..];
    TrailEndIs(t, 0, |t|, e - m - 1);
    RunStartIs(t, 0, e - m - 1, b - m - 1);
  }

  lemma SuffixSlice(s: string, m: nat, b: nat, e: nat)
    requires m < b <= e <= |s|
    ensures s[m + 1..][b - m - 1..e - m - 1] == s[b..e]
  {
  }

  /** One step of `Segments`, given the two scans. */
  lemma SegmentsStep(s: string, e: nat, b: nat)
    requires e == TrailEnd(s, 0, |s|) && e > 0 && b == RunStart(s, 0, e)
    ensures Segments(s) == Segments(s[..b]) + [s[b..e]]
  {
  }

  /** A single name is its own only segment. */
  lemma SegmentsOfWord(w: string)
    requires IsWord(w)
    ensures Segments(w) == [w]
  {
    TrailEndIs(w, 0, |w|, |w|);
    RunStartIs(w, 0, |w|, 0);
    assert w[..0] == [];
    assert w[0..|w|] == w;
  }

  /** A text that is nothing but separators has no names, and is "" or absolute. This is
      the case of `parse` returning an empty base. */
  lemma SegmentsOfSeps(s: string)
    requires AllSeps(s, 0, |s|)
    ensures Segments(s) == []
    ensures |s| == 0 || IsAbsolute(s)
  {
    TrailEndIs(s, 0, |s|, 0);
  }

  /** `basename` and `parse` agree on the final segment. */
  lemma BasenameIsBase(s: string)
    ensures Basename(s) == Parse(s).base
  {
    if |s| > 0 && s[0] == '/' {
      var e := TrailEnd(s, 1, |s|);
      if e == 1 {
        TrailEndIs(s, 0, |s|, 0);
      } else {
        TrailEndIs(s, 0, |s|, e);
        var b := RunStart(s, 1, e);
        RunStartIs(s, 0, e, b);
      }
    }
  }

  /** The last run of non-separators, between indices `b` and `e`, is the last name. */
  lemma SegmentsEndWith(s: string, b: nat, e: nat)
    requires 0 <= b < e <= |s|
    requires AllSeps(s, e, |s|) && s[e - 1] != '/'
    requires forall k :: b <= k < e ==> s[k] != '/'
    requires b > 0 ==> s[b - 1] == '/'
    ensures Segments(s) == Segments(s[..b]) + [s[b..e]]
  {
    TrailEndIs(s, 0, |s|, e);
    RunStartIs(s, 0, e, b);
  }

  /** With a base, the path's names are those of `dir` followed by `base`; `dir` is
      absolute exactly when the path is, and is shorter. */
  lemma ParseLastSegment(s: string)
    requires Parse(s).base != ""
    ensures Segments(s) == Segments(Parse(s).dir) + [Parse(s).base]
    ensures IsAbsolute(Parse(s).dir) == IsAbsolute(s)
    ensures |Parse(s).dir| < |s|
  {
    var start := if s[0] == '/' then 1 else 0;
    var end := TrailEnd(s, start, |s|);
    var b := RunStart(s, start, end);
    assert Parse(s).base == s[b..end];
    assert Parse(s).dir == if b > start then s[..b - 1] else if start == 1 then "/" else "";
    LastSegmentOf(s, start, end, b);
  }

  /** With a base, `dir` is shorter than the path. */
  lemma ParseDirShorter(s: string)
    requires Parse(s).base != ""
    ensures |Parse(s).dir| < |s|
  {
    var start := if s[0] == '/' then 1 else 0;
    var end := TrailEnd(s, start, |s|);
    assert end > start;
  }

  /** The names of `s` when its final segment, scanned from `start`, is `s[b..end]`. */
  lemma LastSegmentOf(s: string, start: nat, end: nat, b: nat)
    requires start <= b < end <= |s| && start == (if s[0] == '/' then 1 else 0)
    requires AllSeps(s, end, |s|) && s[end - 1] != '/'
    requires forall k :: b <= k < end ==> s[k] != '/'
    requires b > start ==> s[b - 1] == '/'
    ensures Segments(s) == Segments(if b > start then s[..b - 1] else if start == 1 then "/" else "")
      + [s[b..end]]
  {
    if b > start {
      SlashThenWord(s, b, end);
    } else if start == 1 {
      RootThenWord(s, end);
    } else {
      SegmentsEndWith(s, 0, end);
      assert s[..0] == [];
    }
  }

  lemma RootThenWord(s: string, end: nat)
    requires 1 < end <= |s| && s[0] == '/'
    requires AllSeps(s, end, |s|) && s[end - 1] != '/'
    requires forall k :: 1 <= k < end ==> s[k] != '/'
    ensures Segments(s) == Segments("/") + [s[1..end]]
  {
    SegmentsEndWith(s, 1, end);
    assert s[..1] == "/";
  }

  lemma SlashThenWord(s: string, b: nat, end: nat)
    requires 1 < b < end <= |s|
    requires AllSeps(s, end, |s|) && s[end - 1] != '/'
    requires forall k :: b <= k < end ==> s[k] != '/'
    requires s[b - 1] == '/'
    ensures Segments(s) == Segments(s[..b - 1]) + [s[b..end]]
  {
    SegmentsEndWith(s, b, end);
    assert s[..b] == s[..b - 1] + "/";
    SegmentsTrailingSeps(s[..b - 1], "/");
  }

  /** `dirname` of a text that is nothing but separators: "." for "", "/" otherwise. */
  lemma DirnameOfSeps(s: string)
    requires AllSeps(s, 0, |s|)
    ensures Dirname(s) == (if s == "" then "." else "/")
  {
    if |s| > 0 {
      TrailEndIs(s, 1, |s|, 1);
    }
  }

  /** `parse` of a single name, and of the root alone. */
  lemma ParseWord(w: string)
    requires IsWord(w)
    ensures Parse(w).root == "" && Parse(w).dir == "" && Parse(w).base == w
  {
    TrailEndIs(w, 0, |w|, |w|);
    RunStartIs(w, 0, |w|, 0);
  }

  lemma ParseRoot()
    ensures Parse("/") == ParsedPath("/", "/", "", "", "")
  {
  }

  /** The final segment after a separator is the basename. */
  lemma BasenameAfterSep(a: string, x: string)
    requires IsWord(x)
    ensures Basename(a + "/" + x) == x
  {
    var s := a + "/" + x;
    TrailEndIs(s, 0, |s|, |s|);
    RunStartIs(s, 0, |s|, |a| + 1);
    assert s[|a| + 1..|s|] == x;
  }

  /** The basename of a rooted list of names is its last name, or "" for the root alone. */
  lemma BasenameOfRooted(segs: seq<string>)
    requires forall i :: 0 <= i < |segs| ==> IsWord(segs[i])
    ensures Basename("/" + JoinWith(segs, "/")) == (if segs == [] then "" else segs[|segs| - 1])
  {
    var n := |segs|;
    if n == 0 {
      assert "/" + JoinWith(segs, "/") == "/";
    } else {
      var x := segs[n - 1];
      var front := if n == 1 then "" else "/" + JoinWith(segs[..n - 1], "/");
      RootedSplitsLast(segs);
      assert IsWord(x);
      BasenameAfterSep(front, x);
    }
  }

  lemma RootedSplitsLast(segs: seq<string>)
    requires |segs| > 0
    ensures "/" + JoinWith(segs, "/")
      == (if |segs| == 1 then "" else "/" + JoinWith(segs[..|segs| - 1], "/")) + "/" + segs[|segs| - 1]
  {
  }

  /** Normalizing a list that ends in a plain name keeps that name last. */
  lemma NormalizeKeepsLastWord(segs: seq<string>)
    requires segs != [] && segs[|segs| - 1] != "." && segs[|segs| - 1] != ".."
    ensures Normalize(segs) != [] && Normalize(segs)[|Normalize(segs)| - 1] == segs[|segs| - 1]
  {
  }
  /** The basename of a resolved path is never "." or ".."; it is "" exactly when the path
      resolves to the root (no name survives normalizing), and it is the path's own base
      whenever that base is a plain name. */
  lemma ResolvedName(s: string, cwd: string)
    requires IsAbsolute(cwd)
    ensures var n := Basename(Resolve(s, cwd)); SepFree(n) && n != "." && n != ".."
    ensures Basename(Resolve(s, cwd)) == "" <==> Normalize(ResolveNames(s, cwd)) == []
    ensures Parse(s).base !in {"", ".", ".."} ==> Basename(Resolve(s, cwd)) == Parse(s).base
  {
    ResolveLast(s, cwd);
    var segs := Normalize(ResolveNames(s, cwd));
    assert segs != [] ==> IsWord(segs[|segs| - 1]);
    var base := Parse(s).base;
    if base !in {"", ".", ".."} {
      ParseLastSegment(s);
      var segsIn := ResolveNames(s, cwd);
      assert segsIn[|segsIn| - 1] == base;
      NormalizeKeepsLastWord(segsIn);
    }
  }

  /** The basename of `resolve(s)` is the last name left after normalizing. */
  lemma ResolveLast(s: string, cwd: string)
    requires IsAbsolute(cwd)
    ensures var segs := Normalize(ResolveNames(s, cwd));
      Basename(Resolve(s, cwd)) == (if segs == [] then "" else segs[|segs| - 1])
  {
    var segs := Normalize(ResolveNames(s, cwd));
    assert forall i :: 0 <= i < |segs| ==> IsWord(segs[i]);
    BasenameOfRooted(segs);
  }

  /** A final "." is dropped by `resolve`: the last name of the resolved path is the name
      before it, when that is a plain name. */
  lemma ResolveDropsFinalDot(s: string, cwd: string)
    requires IsAbsolute(cwd)
    requires var segs := Segments(s);
      |segs| >= 2 && segs[|segs| - 1] == "." && segs[|segs| - 2] != "." && segs[|segs| - 2] != ".."
    ensures Basename(Resolve(s, cwd)) == Segments(s)[|Segments(s)| - 2]
  {
    ResolveLast(s, cwd);
    DropFinalDot(if IsAbsolute(s) then [] else Segments(cwd), Segments(s));
  }

  /** Normalizing names whose last two are a plain name and "." ends in that name. */
  lemma DropFinalDot(pre: seq<string>, segs: seq<string>)
    requires |segs| >= 2 && segs[|segs| - 1] == "."
    requires segs[|segs| - 2] != "." && segs[|segs| - 2] != ".."
    ensures var all := pre + segs;
      Normalize(all) != [] && Normalize(all)[|Normalize(all)| - 1] == segs[|segs| - 2]
  {
    var all := pre + segs;
    assert all[|all| - 1] == "." && all[|all| - 2] == segs[|segs| - 2];
    var front := all[..|all| - 1];
    assert Normalize(all) == Normalize(front);
    NormalizeKeepsLastWord(front);
  }

  /** `parse` of a name after a separator that follows a non-separator: the name is the
      base and everything before the separator is `dir`. */
  lemma ParseAfterSep(a: string, x: string)
    requires IsWord(x) && a != "" && a[|a| - 1] != '/'
    ensures Parse(a + "/" + x).dir == a && Parse(a + "/" + x).base == x
  {
    var s := a + "/" + x;
    assert forall k :: |a| + 1 <= k < |s| ==> s[k] == x[k - |a| - 1];
    assert s[..|a|] == a;
    assert s[|a| + 1..] == x;
    ParseOfLast(s, |a| + 1, |s|);
  }

  lemma ParseOfLast(s: string, b: nat, e: nat)
    requires 1 < b < e <= |s|
    requires AllSeps(s, e, |s|) && s[e - 1] != '/'
    requires forall k :: b <= k < e ==> s[k] != '/'
    requires s[b - 1] == '/'
    ensures Parse(s).dir == s[..b - 1] && Parse(s).base == s[b..e]
  {
    var start := if s[0] == '/' then 1 else 0;
    TrailEndIs(s, start, |s|, e);
    RunStartIs(s, start, e, b);
  }

  /** `parse` of a single name under the root: `dir` is the root. */
  lemma ParseRootWord(x: string)
    requires IsWord(x)
    ensures Parse("/" + x).dir == "/" && Parse("/" + x).base == x
  {
    var s := "/" + x;
    assert forall k :: 1 <= k < |s| ==> s[k] == x[k - 1];
    TrailEndIs(s, 1, |s|, |s|);
    RunStartIs(s, 1, |s|, 1);
    assert s[1..] == x;
  }

  /** Separators at the end of a non-empty text do not change any field of `parse`. */
  lemma ParseIgnoresTrailingSeps(a: string, t: string)
    requires a != "" && AllSeps(t, 0, |t|)
    ensures Parse(a + t) == Parse(a)
  {
    var s := a + t;
    assert s[0] == a[0];
    var start := if a[0] == '/' then 1 else 0;
    ScansIgnoreTrailingSeps(a, t, start);
    var e := TrailEnd(a, start, |a|);
    if e > start {
      PrefixSlices(a, t, RunStart(a, start, e), e);
    }
  }

  lemma PrefixSlices(a: string, t: string, b: nat, e: nat)
    requires b <= e <= |a|
    ensures (a + t)[b..e] == a[b..e]
    ensures b > 0 ==> (a + t)[..b - 1] == a[..b - 1]
  {
  }

  lemma ScansIgnoreTrailingSeps(a: string, t: string, start: nat)
    requires start <= |a| && AllSeps(t, 0, |t|)
    ensures var e := TrailEnd(a, start, |a|);
      TrailEnd(a + t, start, |a + t|) == e && RunStart(a + t, start, e) == RunStart(a, start, e)
  {
    var s := a + t;
    var e := TrailEnd(a, start, |a|);
    assert forall k :: |a| <= k < |s| ==> s[k] == t[k - |a|];
    TrailEndIs(s, start, |s|, e);
    RunStartIs(s, start, e, RunStart(a, start, e));
  }

  /** Separators at the end do not change the base. */
  lemma BaseIgnoresTrailingSeps(a: string, t: string)
    requires AllSeps(t, 0, |t|)
    ensures Parse(a + t).base == Parse(a).base
  {
    BasenameIsBase(a);
    BasenameIsBase(a + t);
    BasenameIgnoresTrailingSeps(a, t);
  }

  lemma BasenameIgnoresTrailingSeps(a: string, t: string)
    requires AllSeps(t, 0, |t|)
    ensures Basename(a + t) == Basename(a)
  {
    var s := a + t;
    var e := TrailEnd(a, 0, |a|);
    TrailEndIs(s, 0, |s|, e);
    if e > 0 {
      var b := RunStart(a, 0, e);
      RunStartIs(s, 0, e, b);
      assert s[b..e] == a[b..e];
    }
  }
}
