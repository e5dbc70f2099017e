/** The worked examples of the path test suite (test.ts), stated about the model.

    Each example is first stated as a shape over arbitrary names ("/" + a + "/" + b, say),
    proved from the general lemmas, and then instantiated with the test's own text. The
    `cwd` parameters stand for the process working directory that `fileName` reads. */
module PathCases {
  import opened Wrappers
  import opened Builtins
  import Posix
  import opened Paths

  // ---------------------------------------------------------------------------------------
  // Shapes

  /** A name written under the root. */
  lemma RootedOne(a: string)
    requires Posix.IsWord(a)
    ensures Components(Path("/" + a)) == ["/", a]
  {
    Posix.SegmentsAppend("", a);
    assert "" + "/" + a == "/" + a;
    Posix.SegmentsOfWord(a);
    Posix.SegmentsOfSeps("");
  }

  lemma RootedTwo(a: string, b: string)
    requires Posix.IsWord(a) && Posix.IsWord(b)
    ensures Components(Path("/" + a + "/" + b)) == ["/", a, b]
  {
    RootedOne(a);
    ComponentsAfterSep("/" + a, b);
  }

  lemma RootedThree(a: string, b: string, c: string)
    requires Posix.IsWord(a) && Posix.IsWord(b) && Posix.IsWord(c)
    ensures Components(Path("/" + a + "/" + b + "/" + c)) == ["/", a, b, c]
  {
    RootedTwo(a, b);
    ComponentsAfterSep("/" + a + "/" + b, c);
  }

  lemma RelativeOne(a: string)
    requires Posix.IsWord(a)
    ensures Components(Path(a)) == [a]
  {
    Posix.SegmentsOfWord(a);
  }

  lemma RelativeTwo(a: string, b: string)
    requires Posix.IsWord(a) && Posix.IsWord(b)
    ensures Components(Path(a + "/" + b)) == [a, b]
  {
    RelativeOne(a);
    ComponentsAfterSep(a, b);
  }

  lemma RootedOneSeps(a: string, t: string)
    requires Posix.IsWord(a) && Posix.AllSeps(t, 0, |t|)
    ensures Components(Path("/" + a + t)) == ["/", a]
  {
    RootedOne(a);
    TrailingSeps("/" + a, t);
  }

  lemma RootedTwoSeps(a: string, b: string, t: string)
    requires Posix.IsWord(a) && Posix.IsWord(b) && Posix.AllSeps(t, 0, |t|)
    ensures Components(Path("/" + a + "/" + b + t)) == ["/", a, b]
  {
    RootedTwo(a, b);
    TrailingSeps("/" + a + "/" + b, t);
  }

  lemma RootedThreeSeps(a: string, b: string, c: string, t: string)
    requires Posix.IsWord(a) && Posix.IsWord(b) && Posix.IsWord(c) && Posix.AllSeps(t, 0, |t|)
    ensures Components(Path("/" + a + "/" + b + "/" + c + t)) == ["/", a, b, c]
  {
    RootedThree(a, b, c);
    TrailingSeps("/" + a + "/" + b + "/" + c, t);
  }

  /** Separators added at the end of a non-empty text change no component. */
  lemma TrailingSeps(s: string, t: string)
    requires s != "" && Posix.AllSeps(t, 0, |t|)
    ensures Components(Path(s + t)) == Components(Path(s))
  {
    Posix.SegmentsTrailingSeps(s, t);
    assert (s + t)[0] == s[0];
  }

  /** A name after a separator: the parent is the text before the separator, and a plain
      name is the file name. */
  lemma NameAfterSep(a: string, x: string, cwd: string)
    requires Posix.IsAbsolute(cwd)
    requires Posix.IsWord(x) && a != "" && a[|a| - 1] != '/'
    ensures Path(a + "/" + x).Parent() == Some(Path(a))
    ensures x != "." && x != ".." ==> Path(a + "/" + x).FileName(cwd) == Some(x)
    ensures x == ".." ==> Path(a + "/" + x).FileName(cwd) == None
  {
    Posix.ParseAfterSep(a, x);
  }

  /** The file name's parts, once the file name is known. */
  lemma NamedParts(p: Path, cwd: string, n: string)
    requires Posix.IsAbsolute(cwd) && p.FileName(cwd) == Some(n)
    ensures p.FileStem(cwd) == Some(StemOf(n)) && p.Extension(cwd) == Some(ExtensionOf(n))
  {
  }

  /** The ancestors of a path, one parent link at a time. */
  lemma AncestorStep(p: Path, q: Path)
    requires p.Parent() == Some(q)
    ensures AncestorList(p) == [p] + AncestorList(q)
  {
  }

  lemma AncestorEnd(p: Path)
    requires p.Parent() == None
    ensures AncestorList(p) == [p]
  {
  }

  /** An absolute path of two names climbs to the root. */
  lemma RootedParents(a: string, b: string)
    requires Posix.IsWord(a) && Posix.IsWord(b)
    ensures Path("/" + a + "/" + b).Parent() == Some(Path("/" + a))
    ensures Path("/" + a).Parent() == Some(Path("/"))
    ensures Path("/").Parent() == None
  {
    Posix.ParseAfterSep("/" + a, b);
    Posix.ParseRootWord(a);
    Posix.ParseRoot();
  }

  /** A name followed by "." and separators: `parse` sees the base ".", and `resolve`
      drops it, so the file name is the name before it. */
  lemma NameThenDot(x: string, t: string, cwd: string)
    requires Posix.IsAbsolute(cwd)
    requires Posix.IsWord(x) && x != "." && x != ".." && Posix.AllSeps(t, 0, |t|)
    ensures Path(x + "/." + t).FileName(cwd) == Some(x)
  {
    var s := x + "/." + t;
    NameThenDotParts(x, t);
    Posix.ResolveDropsFinalDot(s, cwd);
  }

  lemma NameThenDotParts(x: string, t: string)
    requires Posix.IsWord(x) && Posix.AllSeps(t, 0, |t|)
    ensures Posix.Parse(x + "/." + t).base == "."
    ensures Posix.Segments(x + "/." + t) == [x, "."]
  {
    assert x + "/." + t == x + "/" + "." + t;
    NameThenDotBase(x, t);
    NameThenDotSegments(x, t);
  }

  lemma NameThenDotBase(x: string, t: string)
    requires Posix.IsWord(x) && Posix.AllSeps(t, 0, |t|)
    ensures Posix.Parse(x + "/" + "." + t).base == "."
  {
    Posix.BaseIgnoresTrailingSeps(x + "/" + ".", t);
    Posix.ParseAfterSep(x, ".");
  }

  lemma NameThenDotSegments(x: string, t: string)
    requires Posix.IsWord(x) && Posix.AllSeps(t, 0, |t|)
    ensures Posix.Segments(x + "/" + "." + t) == [x, "."]
  {
    Posix.SegmentsTrailingSeps(x + "/" + ".", t);
    Posix.SegmentsAppend(x, ".");
    Posix.SegmentsOfWord(x);
    Posix.SegmentsOfWord(".");
  }

  /** A name followed by separators names itself. */
  lemma NameThenSeps(a: string, x: string, t: string, cwd: string)
    requires Posix.IsAbsolute(cwd)
    requires Posix.IsWord(x) && x != "." && x != ".." && a != "" && a[|a| - 1] != '/'
    requires Posix.AllSeps(t, 0, |t|)
    ensures Path(a + "/" + x + t).FileName(cwd) == Some(x)
  {
    Posix.BaseIgnoresTrailingSeps(a + "/" + x, t);
    Posix.ParseAfterSep(a, x);
  }

  /** The walk up a relative path of three names. */
  lemma RelativeAncestors(a: string, b: string, c: string)
    requires Posix.IsWord(a) && Posix.IsWord(b) && Posix.IsWord(c)
    ensures AncestorList(Path(a + "/" + b + "/" + c))
      == [Path(a + "/" + b + "/" + c), Path(a + "/" + b), Path(a), Path("")]
  {
    var ab := a + "/" + b;
    assert ab[|ab| - 1] == b[|b| - 1];
    ParentAfterSep(ab, c);
    ParentAfterSep(a, b);
    Posix.ParseWord(a);
    AncestorsOfFour(Path(ab + "/" + c), Path(ab), Path(a), Path(""));
  }

  /** The parent of a name after a separator is the text before the separator. */
  lemma ParentAfterSep(a: string, x: string)
    requires Posix.IsWord(x) && a != "" && a[|a| - 1] != '/'
    ensures Path(a + "/" + x).Parent() == Some(Path(a))
  {
    Posix.ParseAfterSep(a, x);
  }

  /** Three parent links and a path without a parent make a walk of four paths. */
  lemma AncestorsOfFour(p: Path, q: Path, r: Path, z: Path)
    requires p.Parent() == Some(q) && q.Parent() == Some(r) && r.Parent() == Some(z)
    requires z.Parent() == None
    ensures AncestorList(p) == [p, q, r, z]
  {
    AncestorEnd(z);
    AncestorStep(r, z);
    AncestorStep(q, r);
    AncestorStep(p, q);
    ConsFour(p, q, r, z);
  }

  lemma ConsFour<T>(p: T, q: T, r: T, z: T)
    ensures [p] + ([q] + ([r] + [z])) == [p, q, r, z]
  {
  }

  /** `withExtension` on a dotted plain name keeps the stem and puts `ext` after it. */
  lemma DottedWithExtension(stem: string, was: string, ext: string, cwd: string)
    requires Posix.IsAbsolute(cwd)
    requires Posix.IsWord(stem) && Posix.IsWord(was) && Avoids(was, '.')
    ensures Path(stem + "." + was).WithExtension(ext, cwd)
      == if ext == "" then Path(stem) else Path(stem + "." + ext)
  {
    DottedName(stem, was);
    FileNameOfWord(stem + "." + was, cwd);
  }

  // ---------------------------------------------------------------------------------------
  // The test cases

  /** intro: "./foo/bar.txt" has parent "./foo", stem "bar" and extension "txt". */
  lemma Intro(cwd: string)
    requires Posix.IsAbsolute(cwd)
    ensures Path("./foo/bar.txt").Parent() == Some(Path("./foo"))
    ensures Path("./foo/bar.txt").FileStem(cwd) == Some("bar")
    ensures Path("./foo/bar.txt").Extension(cwd) == Some("txt")
  {
    assert "./foo/bar.txt" == "./foo" + "/" + "bar.txt";
    NameAfterSep("./foo", "bar.txt", cwd);
    NamedParts(Path("./foo/bar.txt"), cwd, "bar.txt");
    BarTxt();
  }

  lemma BarTxt()
    ensures StemOf("bar.txt") == "bar" && ExtensionOf("bar.txt") == "txt"
  {
    assert "bar.txt" == "bar" + "." + "txt";
    DottedName("bar", "txt");
  }

  /** constructor, toString, isAbsoulte, isRelative: "foo.txt" reads back as itself and
      is relative. */
  lemma PlainFile()
    ensures Path(Path("foo.txt").ToString()) == Path("foo.txt")
    ensures Path("foo.txt").ToString() == "foo.txt"
    ensures !Path("foo.txt").IsAbsolute() && Path("foo.txt").IsRelative()
  {
    RelativeOne("foo.txt");
  }

  /** hasRoot: "/etc/passwd" has a root. */
  lemma HasRootCase()
    ensures Path("/etc/passwd").HasRoot()
  {
    assert "/etc/passwd" == "/" + "etc" + "/" + "passwd";
    RootedTwo("etc", "passwd");
  }

  /** parent: "/foo/bar", then "/foo", then "/", then nothing. */
  lemma ParentCase()
    ensures Path("/foo/bar").Parent() == Some(Path("/foo"))
    ensures Path("/foo").Parent() == Some(Path("/"))
    ensures Path("/").Parent() == None
  {
    assert "/foo/bar" == "/" + "foo" + "/" + "bar";
    assert "/foo" == "/" + "foo";
    RootedParents("foo", "bar");
  }

  /** ancestors: a cursor on "/foo/bar" yields "/foo/bar", "/foo", "/" and then is done. */
  method AncestorsOfAbsolute() returns (yielded: seq<Option<Path>>)
    ensures yielded == [Some(Path("/foo/bar")), Some(Path("/foo")), Some(Path("/")), None]
  {
    ParentCase();
    var cursor := Path("/foo/bar").AncestorCursor();
    var a := cursor.Next();
    var b := cursor.Next();
    var c := cursor.Next();
    var d := cursor.Next();
    yielded := [a, b, c, d];
  }

  /** ancestors: from "../foo/bar" the walk reaches the empty path and stops there. */
  lemma AncestorsOfRelative()
    ensures AncestorList(Path("../foo/bar"))
      == [Path("../foo/bar"), Path("../foo"), Path(".."), Path("")]
  {
    assert "../foo/bar" == ".." + "/" + "foo" + "/" + "bar";
    assert "../foo" == ".." + "/" + "foo";
    RelativeAncestors("..", "foo", "bar");
  }

  /** fileName: "/usr/bin/" and "tmp/foo.txt" name their last entry; "foo.txt/." and
      "foo.txt/.//" name "foo.txt"; "foo.txt/.." and "/" have no file name. */
  lemma FileNameCases(cwd: string)
    requires Posix.IsAbsolute(cwd)
    ensures Path("/usr/bin/").FileName(cwd) == Some("bin")
    ensures Path("tmp/foo.txt").FileName(cwd) == Some("foo.txt")
    ensures Path("foo.txt/.").FileName(cwd) == Some("foo.txt")
    ensures Path("foo.txt/.//").FileName(cwd) == Some("foo.txt")
    ensures Path("foo.txt/..").FileName(cwd) == None
    ensures Path("/").FileName(cwd) == None
  {
    UsrBin(cwd);
    TmpFooTxt(cwd);
    FooTxtDot(cwd);
    FooTxtDotSeps(cwd);
    FooTxtDotDot(cwd);
    Posix.ParseRoot();
  }

  lemma UsrBin(cwd: string)
    requires Posix.IsAbsolute(cwd)
    ensures Path("/usr/bin/").FileName(cwd) == Some("bin")
  {
    assert "/usr/bin/" == "/usr" + "/" + "bin" + "/";
    NameThenSeps("/usr", "bin", "/", cwd);
  }

  lemma TmpFooTxt(cwd: string)
    requires Posix.IsAbsolute(cwd)
    ensures Path("tmp/foo.txt").FileName(cwd) == Some("foo.txt")
  {
    assert "tmp/foo.txt" == "tmp" + "/" + "foo.txt";
    NameAfterSep("tmp", "foo.txt", cwd);
  }

  lemma FooTxtDot(cwd: string)
    requires Posix.IsAbsolute(cwd)
    ensures Path("foo.txt/.").FileName(cwd) == Some("foo.txt")
  {
    assert "foo.txt/." == "foo.txt" + "/." + "";
    NameThenDot("foo.txt", "", cwd);
  }

  lemma FooTxtDotSeps(cwd: string)
    requires Posix.IsAbsolute(cwd)
    ensures Path("foo.txt/.//").FileName(cwd) == Some("foo.txt")
  {
    assert "foo.txt/.//" == "foo.txt" + "/." + "//";
    NameThenDot("foo.txt", "//", cwd);
  }

  lemma FooTxtDotDot(cwd: string)
    requires Posix.IsAbsolute(cwd)
    ensures Path("foo.txt/..").FileName(cwd) == None
  {
    assert "foo.txt/.." == "foo.txt" + "/" + "..";
    NameAfterSep("foo.txt", "..", cwd);
  }

  /** Two component sequences that disagree at an index they share: neither is a prefix
      of the other. */
  lemma Disagree(me: seq<string>, other: seq<string>, i: nat)
    requires i < |me| && i < |other| && me[i] != other[i]
    ensures PrefixMatch(me, other) == Ok(false)
  {
  }

  /** The answers of the prefix test for a rooted path of two names. */
  lemma RootedPrefixes(a: string, b: string, c: string)
    ensures PrefixMatch(["/", a, b], ["/", a]) == Ok(true)
    ensures PrefixMatch(["/", a, b], ["/", a, b]) == Ok(true)
    ensures c != a ==> PrefixMatch(["/", a, b], ["/", c]) == Ok(false)
    ensures c != b ==> PrefixMatch(["/", a, b], ["/", a, c]) == Ok(false)
  {
    var me := ["/", a, b];
    assert ["/", a] == me[..2];
    if c != a {
      assert ["/", c][1] != me[1];
    }
    if c != b {
      assert ["/", a, c][2] != me[2];
    }
  }

  /** startsWith: "/etc/passwd" starts with "/etc", "/etc/", itself, and itself followed
      by separators, but not with "/e" or "/etc/passwd.txt"; "/etc/foo.rs" does not start
      with "/etc/foo". */
  method StartsWithCases() returns (answers: seq<Result<bool>>)
    ensures answers == [Ok(true), Ok(true), Ok(true), Ok(true), Ok(true), Ok(false), Ok(false), Ok(false)]
  {
    EtcBare();
    EtcSep();
    EtcPasswdBare();
    EtcPasswdSep();
    EtcPasswdSeps();
    E();
    EtcPasswdTxt();
    EtcFooRs();
    EtcFoo();
    RootedPrefixes("etc", "passwd", "e");
    RootedPrefixes("etc", "passwd", "passwd.txt");
    RootedPrefixes("etc", "foo.rs", "foo");
    var p := Path("/etc/passwd");
    var a := p.StartsWith(Path("/etc"));
    var b := p.StartsWith(Path("/etc/"));
    var c := p.StartsWith(Path("/etc/passwd"));
    var d := p.StartsWith(Path("/etc/passwd/"));
    var e := p.StartsWith(Path("/etc/passwd///"));
    var f := p.StartsWith(Path("/e"));
    var g := p.StartsWith(Path("/etc/passwd.txt"));
    var h := Path("/etc/foo.rs").StartsWith(Path("/etc/foo"));
    answers := [a, b, c, d, e, f, g, h];
  }

  lemma EtcBare()
    ensures Components(Path("/etc")) == ["/", "etc"]
  {
    assert "/etc" == "/" + "etc";
    RootedOne("etc");
  }

  lemma EtcSep()
    ensures Components(Path("/etc/")) == ["/", "etc"]
  {
    assert "/etc/" == "/" + "etc" + "/";
    RootedOneSeps("etc", "/");
  }

  lemma EtcPasswdBare()
    ensures Components(Path("/etc/passwd")) == ["/", "etc", "passwd"]
  {
    assert "/etc/passwd" == "/" + "etc" + "/" + "passwd";
    RootedTwo("etc", "passwd");
  }

  lemma EtcPasswdSep()
    ensures Components(Path("/etc/passwd/")) == ["/", "etc", "passwd"]
  {
    assert "/etc/passwd/" == "/" + "etc" + "/" + "passwd" + "/";
    RootedTwoSeps("etc", "passwd", "/");
  }

  lemma EtcPasswdSeps()
    ensures Components(Path("/etc/passwd///")) == ["/", "etc", "passwd"]
  {
    assert "/etc/passwd///" == "/" + "etc" + "/" + "passwd" + "///";
    RootedTwoSeps("etc", "passwd", "///");
  }

  lemma E()
    ensures Components(Path("/e")) == ["/", "e"]
  {
    assert "/e" == "/" + "e";
    RootedOne("e");
  }

  lemma EtcPasswdTxt()
    ensures Components(Path("/etc/passwd.txt")) == ["/", "etc", "passwd.txt"]
  {
    assert "/etc/passwd.txt" == "/" + "etc" + "/" + "passwd.txt";
    RootedTwo("etc", "passwd.txt");
  }

  lemma EtcFooRs()
    ensures Components(Path("/etc/foo.rs")) == ["/", "etc", "foo.rs"]
  {
    assert "/etc/foo.rs" == "/" + "etc" + "/" + "foo.rs";
    RootedTwo("etc", "foo.rs");
  }

  lemma EtcFoo()
    ensures Components(Path("/etc/foo")) == ["/", "etc", "foo"]
  {
    assert "/etc/foo" == "/" + "etc" + "/" + "foo";
    RootedTwo("etc", "foo");
  }

  /** stripPrefix: "/test/haha/foo.txt" without "/", "/test" or "/test/" is the rest of it
      (the last given as a path rather than a string). */
  method StripPrefixCases() returns (answers: seq<Result<Option<Path>>>)
    ensures answers ==
      [Ok(Some(Path("test/haha/foo.txt"))), Ok(Some(Path("haha/foo.txt"))), Ok(Some(Path("haha/foo.txt")))]
  {
    TestHahaBare();
    Posix.SegmentsOfSeps("/");
    TestBare();
    TestSep();
    TestHahaRests();
    var p := Path("/test/haha/foo.txt");
    var a := p.StripPrefix(Path("/"));
    var b := p.StripPrefix(Path("/test"));
    var c := p.StripPrefix(Path("/test/"));
    answers := [a, b, c];
  }

  /** stripPrefix: "/test/haha/foo.txt" without itself, with or without a trailing
      separator, is the empty path. */
  method StripWholeCases() returns (answers: seq<Result<Option<Path>>>)
    ensures answers == [Ok(Some(Path(""))), Ok(Some(Path("")))]
  {
    TestHahaBare();
    TestHahaSep();
    var p := Path("/test/haha/foo.txt");
    var d := p.StripPrefix(Path("/test/haha/foo.txt"));
    var e := p.StripPrefix(Path("/test/haha/foo.txt/"));
    answers := [d, e];
  }

  /** stripPrefix: "test" and "/haha" are not prefixes of "/test/haha/foo.txt". */
  method StripRejectedCases() returns (answers: seq<Result<Option<Path>>>)
    ensures answers == [Ok(None), Ok(None)]
  {
    var f := StripTestRejected();
    var g := StripHahaRejected();
    answers := [f, g];
  }

  method StripTestRejected() returns (r: Result<Option<Path>>)
    ensures r == Ok(None)
  {
    TestHahaBare();
    RelativeOne("test");
    r := StripRejected(Path("/test/haha/foo.txt"), Path("test"),
      ["/", "test", "haha", "foo.txt"], ["test"], 0);
  }

  method StripHahaRejected() returns (r: Result<Option<Path>>)
    ensures r == Ok(None)
  {
    TestHahaBare();
    Haha();
    r := StripRejected(Path("/test/haha/foo.txt"), Path("/haha"),
      ["/", "test", "haha", "foo.txt"], ["/", "haha"], 1);
  }

  /** stripPrefix answers "no" once the two component sequences differ at some index. */
  method StripRejected(p: Path, prefix: Path, me: seq<string>, other: seq<string>, i: nat)
    returns (r: Result<Option<Path>>)
    requires Components(p) == me && Components(prefix) == other
    requires i < |me| && i < |other| && me[i] != other[i]
    ensures r == Ok(None)
  {
    Disagree(me, other, i);
    r := p.StripPrefix(prefix);
  }

  lemma TestHahaBare()
    ensures Components(Path("/test/haha/foo.txt")) == ["/", "test", "haha", "foo.txt"]
  {
    assert "/test/haha/foo.txt" == "/" + "test" + "/" + "haha" + "/" + "foo.txt";
    RootedThree("test", "haha", "foo.txt");
  }

  lemma TestHahaSep()
    ensures Components(Path("/test/haha/foo.txt/")) == ["/", "test", "haha", "foo.txt"]
  {
    assert "/test/haha/foo.txt/" == "/" + "test" + "/" + "haha" + "/" + "foo.txt" + "/";
    RootedThreeSeps("test", "haha", "foo.txt", "/");
  }

  lemma TestBare()
    ensures Components(Path("/test")) == ["/", "test"]
  {
    assert "/test" == "/" + "test";
    RootedOne("test");
  }

  lemma TestSep()
    ensures Components(Path("/test/")) == ["/", "test"]
  {
    assert "/test/" == "/" + "test" + "/";
    RootedOneSeps("test", "/");
  }

  lemma Haha()
    ensures Components(Path("/haha")) == ["/", "haha"]
  {
    assert "/haha" == "/" + "haha";
    RootedOne("haha");
  }

  lemma TestHahaRests()
    ensures JoinWith(["test", "haha", "foo.txt"], "/") == "test/haha/foo.txt"
    ensures JoinWith(["haha", "foo.txt"], "/") == "haha/foo.txt"
  {
    JoinThree("test", "haha", "foo.txt");
  }

  lemma JoinThree(a: string, b: string, c: string)
    ensures JoinWith([a, b], "/") == a + "/" + b
    ensures JoinWith([b, c], "/") == b + "/" + c
    ensures JoinWith([a, b, c], "/") == a + "/" + b + "/" + c
  {
    assert [a, b][..1] == [a];
    assert [b, c][..1] == [b];
    assert [a, b, c][..2] == [a, b];
  }

  /** endsWith: "/etc/resolv.conf" ends with "resolv.conf", "etc/resolv.conf" and
      itself. */
  method EndsWithCases() returns (answers: seq<Result<bool>>)
    ensures answers == [Ok(true), Ok(true), Ok(true)]
  {
    EtcResolvConf();
    RelativeOne("resolv.conf");
    RelativeEtcResolvConf();
    RootedSuffixes("etc", "resolv.conf", "conf");
    var p := Path("/etc/resolv.conf");
    var a := p.EndsWith(Path("resolv.conf"));
    var b := p.EndsWith(Path("etc/resolv.conf"));
    var c := p.EndsWith(Path("/etc/resolv.conf"));
    answers := [a, b, c];
  }

  /** endsWith: "/etc/resolv.conf" does not end with "/resolv.conf", nor with "conf",
      which is only the tail of its last name. */
  method EndsWithRejectedCases() returns (answers: seq<Result<bool>>)
    ensures answers == [Ok(false), Ok(false)]
  {
    EtcResolvConf();
    RootResolvConf();
    RelativeOne("conf");
    RootedSuffixes("etc", "resolv.conf", "conf");
    var p := Path("/etc/resolv.conf");
    var d := p.EndsWith(Path("/resolv.conf"));
    var e := p.EndsWith(Path("conf"));
    answers := [d, e];
  }

  lemma EtcResolvConf()
    ensures Components(Path("/etc/resolv.conf")) == ["/", "etc", "resolv.conf"]
  {
    assert "/etc/resolv.conf" == "/" + "etc" + "/" + "resolv.conf";
    RootedTwo("etc", "resolv.conf");
  }

  lemma RelativeEtcResolvConf()
    ensures Components(Path("etc/resolv.conf")) == ["etc", "resolv.conf"]
  {
    assert "etc/resolv.conf" == "etc" + "/" + "resolv.conf";
    RelativeTwo("etc", "resolv.conf");
  }

  lemma RootResolvConf()
    ensures Components(Path("/resolv.conf")) == ["/", "resolv.conf"]
  {
    assert "/resolv.conf" == "/" + "resolv.conf";
    RootedOne("resolv.conf");
  }

  /** The answers of the suffix test for a rooted path of two names. */
  lemma RootedSuffixes(a: string, b: string, c: string)
    requires a != "/" && c != b
    ensures SuffixMatch(["/", a, b], [b]) == Ok(true)
    ensures SuffixMatch(["/", a, b], [a, b]) == Ok(true)
    ensures SuffixMatch(["/", a, b], ["/", a, b]) == Ok(true)
    ensures SuffixMatch(["/", a, b], ["/", b]) == Ok(false)
    ensures SuffixMatch(["/", a, b], [c]) == Ok(false)
  {
    var me := ["/", a, b];
    assert me[2..] == [b];
    assert me[1..] == [a, b];
    assert me[1..][0] != ["/", b][0];
    assert me[2..][0] != [c][0];
  }

  /** fileStem and extension: "foo.rs" is "foo" and "rs"; "foo.tar.gz" is "foo.tar" and
      "gz". */
  lemma StemAndExtensionCases(cwd: string)
    requires Posix.IsAbsolute(cwd)
    ensures Path("foo.rs").FileStem(cwd) == Some("foo")
    ensures Path("foo.rs").Extension(cwd) == Some("rs")
    ensures Path("foo.tar.gz").FileStem(cwd) == Some("foo.tar")
    ensures Path("foo.tar.gz").Extension(cwd) == Some("gz")
  {
    FooRs(cwd);
    FooTarGz(cwd);
  }

  lemma FooRs(cwd: string)
    requires Posix.IsAbsolute(cwd)
    ensures Path("foo.rs").FileStem(cwd) == Some("foo")
    ensures Path("foo.rs").Extension(cwd) == Some("rs")
  {
    assert "foo.rs" == "foo" + "." + "rs";
    DottedName("foo", "rs");
    FileNameOfWord("foo.rs", cwd);
    NamedParts(Path("foo.rs"), cwd, "foo.rs");
  }

  lemma FooTarGz(cwd: string)
    requires Posix.IsAbsolute(cwd)
    ensures Path("foo.tar.gz").FileStem(cwd) == Some("foo.tar")
    ensures Path("foo.tar.gz").Extension(cwd) == Some("gz")
  {
    assert "foo.tar.gz" == "foo.tar" + "." + "gz";
    DottedName("foo.tar", "gz");
    FileNameOfWord("foo.tar.gz", cwd);
    NamedParts(Path("foo.tar.gz"), cwd, "foo.tar.gz");
  }

  /** join: "/etc" joined with "passwd" is "/etc/passwd". */
  lemma JoinCase()
    ensures Path("/etc").Join("passwd") == Path("/etc/passwd")
  {
    JoinedPair("/etc", "passwd");
  }

  /** withFileName: "/tmp/foo.txt" becomes "/tmp/bar.txt"; "/tmp", whose parent is the
      root, becomes "//var". */
  lemma WithFileNameCases()
    ensures Path("/tmp/foo.txt").WithFileName("bar.txt") == Path("/tmp/bar.txt")
    ensures Path("/tmp").WithFileName("var") == Path("//var")
  {
    TmpFooTxtRenamed();
    TmpRenamed();
  }

  lemma TmpFooTxtRenamed()
    ensures Path("/tmp/foo.txt").WithFileName("bar.txt") == Path("/tmp/bar.txt")
  {
    assert "/tmp/foo.txt" == "/tmp" + "/" + "foo.txt";
    assert "/tmp/bar.txt" == "/tmp" + "/" + "bar.txt";
    RenameAfterSep("/tmp", "foo.txt", "bar.txt");
  }

  lemma RenameAfterSep(a: string, x: string, y: string)
    requires Posix.IsWord(x) && a != "" && a[|a| - 1] != '/' && y != ""
    ensures Path(a + "/" + x).WithFileName(y) == Path(a + "/" + y)
  {
    Posix.ParseAfterSep(a, x);
    JoinedPair(a, y);
  }

  lemma TmpRenamed()
    ensures Path("/tmp").WithFileName("var") == Path("//var")
  {
    assert "/tmp" == "/" + "tmp";
    assert "//var" == "/" + "/" + "var";
    RenameUnderRoot("tmp", "var");
  }

  /** Renaming the only name under the root keeps the root and adds a separator. */
  lemma RenameUnderRoot(x: string, y: string)
    requires Posix.IsWord(x) && y != ""
    ensures Path("/" + x).WithFileName(y) == Path("/" + "/" + y)
  {
    Posix.ParseRootWord(x);
    JoinedPair("/", y);
  }

  /** withExtension: "foo.rs" with "txt" is "foo.txt"; "foo.tar.gz" with "" is "foo.tar"
      and with "xz" is "foo.tar.xz"; "foo.tar" with "txt" is "foo.txt". */
  lemma WithExtensionCases(cwd: string)
    requires Posix.IsAbsolute(cwd)
    ensures Path("foo.rs").WithExtension("txt", cwd) == Path("foo.txt")
    ensures Path("foo.tar.gz").WithExtension("", cwd) == Path("foo.tar")
    ensures Path("foo.tar.gz").WithExtension("xz", cwd) == Path("foo.tar.xz")
    ensures Path("foo.tar.gz").WithExtension("", cwd).WithExtension("txt", cwd) == Path("foo.txt")
  {
    FooRsToTxt(cwd);
    FooTarGzDropped(cwd);
    FooTarGzToXz(cwd);
    FooTarToTxt(cwd);
  }

  lemma FooRsToTxt(cwd: string)
    requires Posix.IsAbsolute(cwd)
    ensures Path("foo.rs").WithExtension("txt", cwd) == Path("foo.txt")
  {
    assert "foo.rs" == "foo" + "." + "rs";
    assert "foo.txt" == "foo" + "." + "txt";
    DottedWithExtension("foo", "rs", "txt", cwd);
  }

  lemma FooTarGzDropped(cwd: string)
    requires Posix.IsAbsolute(cwd)
    ensures Path("foo.tar.gz").WithExtension("", cwd) == Path("foo.tar")
  {
    assert "foo.tar.gz" == "foo.tar" + "." + "gz";
    DottedWithExtension("foo.tar", "gz", "", cwd);
  }

  lemma FooTarGzToXz(cwd: string)
    requires Posix.IsAbsolute(cwd)
    ensures Path("foo.tar.gz").WithExtension("xz", cwd) == Path("foo.tar.xz")
  {
    assert "foo.tar.gz" == "foo.tar" + "." + "gz";
    assert "foo.tar.xz" == "foo.tar" + "." + "xz";
    DottedWithExtension("foo.tar", "gz", "xz", cwd);
  }

  lemma FooTarToTxt(cwd: string)
    requires Posix.IsAbsolute(cwd)
    ensures Path("foo.tar").WithExtension("txt", cwd) == Path("foo.txt")
  {
    assert "foo.tar" == "foo" + "." + "tar";
    assert "foo.txt" == "foo" + "." + "txt";
    DottedWithExtension("foo", "tar", "txt", cwd);
  }

  /** iter: "/tmp/foo.txt" yields the root, "tmp" and "foo.txt", and nothing more. */
  method IterCase() returns (parts: seq<string>)
    ensures parts == ["/", "tmp", "foo.txt"]
  {
    assert "/tmp/foo.txt" == "/" + "tmp" + "/" + "foo.txt";
    RootedTwo("tmp", "foo.txt");
    parts := Path("/tmp/foo.txt").Iter();
  }
}
