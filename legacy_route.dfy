/** The catch-all handler of the older entry point (main.py): redirects
    everything outside `/wiki/` and maps a wiki path to a markdown file.
    Reading the stylesheet and rendering markdown are not modelled; the set of
    existing files stands in for `Path(...).exists()`. */
module LegacyRoute {
  import opened Text
  import opened PathSanitize

  const WikiPrefix: string := "/wiki/"
  /** `FILE_PATH` of main.py. */
  const DataDir: string := "wiki"

  datatype Response =
    | Redirect(location: string)
    | RenderPage(filePath: string)
    | EditStub(pageName: string)

  /** Python's `s.replace(pat, rep, count=1)`: only the first occurrence. */
  function ReplaceFirst(s: string, pat: string, rep: string): string
    requires pat != []
    decreases |s|
  {
    if pat <= s then rep + s[|pat|..]
    else if s == [] then []
    else [s[0]] + ReplaceFirst(s[1..], pat, rep)
  }

  /** Removing the first `/wiki/` from a path that starts with it drops
      exactly that prefix; later occurrences stay. */
  lemma {:induction false} ReplaceFirstAtStart(s: string, pat: string)
    requires pat != [] && pat <= s
    ensures ReplaceFirst(s, pat, []) == s[|pat|..]
    ensures Contains(s[|pat|..], pat) ==> Contains(ReplaceFirst(s, pat, []), pat)
  {
  }

  /** The page path of lines 83-87: prefix removed, parent references
      removed, one trailing `.md` removed. */
  function PagePath(path: string): string
    requires WikiPrefix <= path
  {
    var q := WithoutDotDots(ReplaceFirst(path, WikiPrefix, []));
    if EndsWith(q, ".md") then q[..|q| - 3] else q
  }

  /** The page path holds no `..`; it is the cleaned path with at most one
      `.md` taken off its end. */
  lemma PagePathProperties(path: string)
    requires WikiPrefix <= path
    ensures var q := WithoutDotDots(path[|WikiPrefix|..]); var p := PagePath(path);
      && !Contains(p, DotDot)
      && (EndsWith(q, ".md") ==> p + ".md" == q)
      && (!EndsWith(q, ".md") ==> p == q)
  {
    ReplaceFirstAtStart(path, WikiPrefix);
    var q := WithoutDotDots(path[|WikiPrefix|..]);
    SliceAvoidsPair(q, '.', 0, if EndsWith(q, ".md") then |q| - 3 else |q|);
    assert q[0..|q|] == q;
  }

  /** `page_name`: the last `/`-segment of the page path. */
  function PageName(p: string): (r: string)
    ensures r == Last(Split(p, '/'))
    ensures '/' !in r && EndsWith(p, r)
    ensures |r| < |p| ==> p[|p| - |r| - 1] == '/'
  {
    LastSegmentIsSuffix(p, '/');
    LastOfSplit(p, '/');
    LastSegment(p, '/')
  }

  /** Line 95 as written: `os.path.join(FILE_PATH, path) + ".md"`. */
  function FilePathAsWritten(p: string): string
  {
    PathJoin(DataDir, [p]) + ".md"
  }

  /** A wiki URL with an empty segment right after the prefix makes the page
      path absolute, and `os.path.join` then discards the data directory:
      `/wiki//x` looks up `/x.md`, outside `wiki/`. */
  lemma AbsolutePathEscapes()
    ensures PagePath("/wiki//x") == "/x"
    ensures FilePathAsWritten(PagePath("/wiki//x")) == "/x.md"
    ensures !(DataDir + "/" <= FilePathAsWritten(PagePath("/wiki//x")))
  {
    ReplaceFirstAtStart("/wiki//x", WikiPrefix);
    assert "/wiki//x"[|WikiPrefix|..] == "/x";
    assert !(DotDot <= []) && !Contains([], DotDot);
    assert !(DotDot <= "x") && "x"[1..] == [];
    assert !Contains("x", DotDot);
    assert DotDot[0] != "/x"[0];
    assert !(DotDot <= "/x") && "/x"[1..] == "x";
    assert !Contains("/x", DotDot);
    assert WithoutDotDots("/x") == "/x";
    assert [ '/' ] <= "/x";
    assert PathJoin(DataDir, ["/x"]) == "/x";
    var f := FilePathAsWritten("/x");
    assert f == "/x.md";
    assert f[0] != (DataDir + "/")[0];
  }

  /** The file name as evidently intended: leading slashes of the page path
      are dropped before joining, so the file stays under the data
      directory. */
  function FilePath(p: string): (r: string)
    ensures DataDir + "/" <= r && EndsWith(r, ".md")
    ensures !([ '/' ] <= p) ==> r == FilePathAsWritten(p)
  {
    var rel := LStrip(p, {'/'});
    assert !([ '/' ] <= rel) by {
      if rel != [] { assert rel[0] != '/'; }
    }
    assert PathJoin(DataDir, [rel]) == DataDir + "/" + rel;
    PathJoin(DataDir, [rel]) + ".md"
  }

  /** `catch_all` of main.py, with line 95 corrected as above. */
  method CatchAll(path: string, existing: set<string>) returns (r: Response)
    ensures !(WikiPrefix <= path) ==> r == Redirect("/wiki/")
    ensures WikiPrefix <= path ==>
      var p := PagePath(path);
      r == (if FilePath(p) in existing then RenderPage(FilePath(p)) else EditStub(PageName(p)))
    ensures r.RenderPage? ==>
      r.filePath in existing && DataDir + "/" <= r.filePath && EndsWith(r.filePath, ".md")
  {
    if path == "/" {
      r := Redirect("/wiki/");
    } else if WikiPrefix <= path {
      var p := ReplaceFirst(path, WikiPrefix, []);
      p := StripParentRefs(p);
      if EndsWith(p, ".md") {
        p := p[..|p| - 3];
      }
      assert p == PagePath(path);
      var pageName := PageName(p);
      var filePath := FilePath(p);
      if filePath in existing {
        r := RenderPage(filePath);
      } else {
        r := EditStub(pageName);
      }
    } else {
      r := Redirect("/wiki/");
    }
  }
}
