/** How the wiki application (app/main.py) turns a request path into the file
    it reads or writes: `parse_url_path` and the extension rules of the view,
    edit and save handlers. Percent-decoding (`unquote`) is not modelled: the
    path is taken as already decoded. The set of existing files stands in for
    `Path(...).exists()`. */
module UrlPath {
  import opened Text
  import opened PathSanitize

  /** The five-field record `parse_url_path` returns. */
  datatype UrlPieces = UrlPieces(
    path: string,
    pathList: seq<string>,
    fileName: string,
    fileExt: string,
    fileNameNoExt: string)

  /** `[each for each in parts if each]` */
  function NonEmptyParts(parts: seq<string>): (r: seq<string>)
    ensures forall k :: 0 <= k < |r| ==> r[k] != [] && r[k] in parts
    ensures |r| <= |parts|
  {
    if parts == [] then []
    else (if parts[0] != [] then [parts[0]] else []) + NonEmptyParts(parts[1..])
  }

  /** The filter keeps exactly the non-empty parts. */
  lemma {:induction false} NonEmptyPartsMembers(parts: seq<string>)
    ensures forall x :: x in NonEmptyParts(parts) <==> x in parts && x != []
  {
    if parts != [] {
      NonEmptyPartsMembers(parts[1..]);
      assert forall x :: x in parts <==> x == parts[0] || x in parts[1..];
    }
  }

  /** The filter works part by part and keeps their order: filtering a
      concatenation is concatenating the filtered halves. */
  lemma {:induction false} NonEmptyPartsAppend(a: seq<string>, b: seq<string>)
    ensures NonEmptyParts(a + b) == NonEmptyParts(a) + NonEmptyParts(b)
  {
    if a == [] {
      assert a + b == b;
    } else {
      var ab := a + b;
      assert ab[0] == a[0] && ab[1..] == a[1..] + b;
      var h := if a[0] != [] then [a[0]] else [];
      calc {
        NonEmptyParts(ab);
        h + NonEmptyParts(a[1..] + b);
        { NonEmptyPartsAppend(a[1..], b); }
        h + (NonEmptyParts(a[1..]) + NonEmptyParts(b));
        (h + NonEmptyParts(a[1..])) + NonEmptyParts(b);
        NonEmptyParts(a) + NonEmptyParts(b);
      }
    }
  }

  /** A single part survives the filter exactly when it is non-empty. */
  lemma NonEmptyPartsSingle(x: string)
    ensures NonEmptyParts([x]) == if x == [] then [] else [x]
  {
    assert [x][1..] == [];
  }

  /** The non-empty `/`-segments left once parent references are gone. */
  function Segments(url: string): seq<string>
  {
    NonEmptyParts(Split(WithoutDotDots(url), '/'))
  }

  /** The extension split of `parse_url_path` (lines 142-148): with a dot,
      the text after the last dot and everything before that dot. */
  function SplitExtension(fileName: string): (string, string)
  {
    if |Split(fileName, '.')| > 1 then
      var ext := LastSegment(fileName, '.');
      LastSegmentIsSuffix(fileName, '.');
      (ext, fileName[..|fileName| - 1 - |ext|])
    else ("", fileName)
  }

  /** What `parse_url_path` returns for a (decoded) request path. */
  function Parse(url: string): UrlPieces
  {
    var segs := Segments(url);
    if segs == [] then UrlPieces("", [""], "", "", "")
    else
      var fileName := Last(segs);
      var dirs := if |segs| == 1 then [""] else segs[..|segs| - 1];
      var (ext, noExt) := SplitExtension(fileName);
      UrlPieces(Join(dirs, '/'), dirs, fileName, ext, noExt)
  }

  /** `parse_url_path` as the code runs it: the `..` loop, the split, the
      filter and the `pop()` of the file name. */
  method ParseUrlPath(url: string) returns (pieces: UrlPieces)
    ensures pieces == Parse(url)
  {
    var path := StripParentRefs(url);
    var pathSplit := NonEmptyParts(Split(path, '/'));
    assert pathSplit == Segments(url);
    var fileName, fileExt, fileNameNoExt;
    if pathSplit != [] {
      fileName := Last(pathSplit);
      pathSplit := pathSplit[..|pathSplit| - 1];
      if |pathSplit| == 0 {
        pathSplit := [""];
      }
      var fileNameParts := Split(fileName, '.');
      if |fileNameParts| > 1 {
        fileExt := Last(fileNameParts);
        LastOfSplit(fileName, '.');
        LastSegmentIsSuffix(fileName, '.');
        fileNameNoExt := fileName[..|fileName| - 1 - |fileExt|];
        assert (fileExt, fileNameNoExt) == SplitExtension(fileName);
      } else {
        fileExt := "";
        fileNameNoExt := fileName;
      }
    } else {
      pathSplit := [""];
      fileName := "";
      fileExt := "";
      fileNameNoExt := "";
    }
    pieces := UrlPieces(Join(pathSplit, '/'), pathSplit, fileName, fileExt, fileNameNoExt);
  }

  /** Every segment is non-empty, holds no `/` and no `..`. */
  lemma SegmentsAreClean(url: string)
    ensures forall k :: 0 <= k < |Segments(url)| ==>
      Segments(url)[k] != [] && '/' !in Segments(url)[k] && !Contains(Segments(url)[k], DotDot)
  {
    SplitAvoidsPair(WithoutDotDots(url), '/', '.');
  }

  /** After the loop no parent reference survives: neither the directory
      path nor the file name contains `..`. */
  lemma ParseLeavesNoDotDot(url: string)
    ensures !Contains(Parse(url).path, DotDot) && !Contains(Parse(url).fileName, DotDot)
  {
    var segs := Segments(url);
    SegmentsAreClean(url);
    if segs != [] {
      var dirs := if |segs| == 1 then [""] else segs[..|segs| - 1];
      assert forall k :: 0 <= k < |dirs| ==> !Contains(dirs[k], DotDot) by {
        if |segs| == 1 {
          assert !Contains("", DotDot);
        }
      }
      JoinAvoidsPair(dirs, '/', '.');
    } else {
      assert !Contains("", DotDot);
    }
  }

  /** The directory list is never empty: it is `[""]` or a list of
      non-empty, slash-free segments; the file name is the last non-empty
      segment and the directories are the ones before it, joined by `/`. */
  lemma ParseSegments(url: string)
    ensures var p := Parse(url); var segs := Segments(url);
      && |p.pathList| >= 1
      && (p.pathList == [""] || forall k :: 0 <= k < |p.pathList| ==> p.pathList[k] != [])
      && (forall k :: 0 <= k < |p.pathList| ==> '/' !in p.pathList[k])
      && p.path == Join(p.pathList, '/')
      && '/' !in p.fileName
      && (segs != [] ==>
            && p.fileName == Last(segs)
            && p.pathList == (if |segs| == 1 then [""] else segs[..|segs| - 1]))
      && (segs == [] ==>
            && p.path == "" && p.pathList == [""] && p.fileName == ""
            && p.fileExt == "" && p.fileNameNoExt == "")
  {
    SegmentsAreClean(url);
  }

  /** The extension is the text after the last dot, and putting the stem,
      a dot and the extension together gives the file name back; without a
      dot the extension is empty and the stem is the whole name. */
  lemma SplitExtensionParts(fileName: string)
    ensures var (ext, stem) := SplitExtension(fileName);
      && ('.' in fileName ==>
            ext == LastSegment(fileName, '.') && '.' !in ext && stem + "." + ext == fileName)
      && ('.' !in fileName ==> ext == "" && stem == fileName)
  {
    LastSegmentIsSuffix(fileName, '.');
    if '.' in fileName {
      var ext := LastSegment(fileName, '.');
      assert fileName == fileName[..|fileName| - 1 - |ext|] + "." + ext;
    }
  }

  /** The URL pieces of a parse satisfy all of the above at once. */
  ghost predicate WellFormed(p: UrlPieces)
  {
    && |p.pathList| >= 1
    && (forall k :: 0 <= k < |p.pathList| ==> '/' !in p.pathList[k])
    && '/' !in p.fileName
    && ('.' in p.fileName ==> '.' !in p.fileExt && p.fileNameNoExt + "." + p.fileExt == p.fileName)
    && ('.' !in p.fileName ==> p.fileExt == "" && p.fileNameNoExt == p.fileName)
  }

  lemma ParseIsWellFormed(url: string)
    ensures WellFormed(Parse(url))
  {
    ParseSegments(url);
    var segs := Segments(url);
    if segs != [] {
      SplitExtensionParts(Last(segs));
    }
  }

  /** `path_list.pop(0)`: the route prefix (`wiki`, `edit`, ...) is dropped. */
  function Dirs(p: UrlPieces): seq<string>
    requires |p.pathList| >= 1
  {
    p.pathList[1..]
  }

  /** The markdown file the view and edit handlers open (app/main.py lines
      237-244 and 316-319): no extension means `.md` is appended, `md` means
      the name is used as it is, anything else means no markdown file (`""`). */
  function MarkdownTarget(dataDir: string, p: UrlPieces): string
    requires |p.pathList| >= 1
  {
    if p.fileExt == "" then PathJoin(dataDir, Dirs(p) + [p.fileName]) + ".md"
    else if p.fileExt == "md" then PathJoin(dataDir, Dirs(p) + [p.fileName])
    else ""
  }

  /** The view and edit handlers only ever open `.md` files, they open one
      exactly when the extension is empty or `md`, and the file lies under
      the data directory: `<name>.md` for a name without extension, the
      name itself for a `.md` name. */
  lemma MarkdownTargetIsMarkdown(dataDir: string, p: UrlPieces)
    requires WellFormed(p)
    ensures var t := MarkdownTarget(dataDir, p);
      && (t != "" <==> p.fileExt in {"", "md"})
      && (t != "" ==> EndsWith(t, ".md") && dataDir <= t)
      && (p.fileExt == "" ==> EndsWith(t, p.fileName + ".md"))
      && (p.fileExt == "md" ==> EndsWith(t, p.fileName))
  {
    var j := PathJoin(dataDir, Dirs(p) + [p.fileName]);
    ComponentsRelative(Dirs(p), p.fileName);
    PathJoinConfined(dataDir, Dirs(p) + [p.fileName]);
    if p.fileExt == "md" {
      assert p.fileName == p.fileNameNoExt + ".md";
    }
    TargetShape(dataDir, j, p.fileName, p.fileNameNoExt, p.fileExt);
  }

  /** The case split of the target on the extension, for a joined path `j`
      that starts with the data directory and ends with the file name. */
  lemma TargetShape(dataDir: string, j: string, name: string, stem: string, ext: string)
    requires dataDir <= j && EndsWith(j, name)
    requires ext == "md" ==> name == stem + ".md"
    ensures var t := if ext == "" then j + ".md" else if ext == "md" then j else "";
      && (t != "" <==> ext in {"", "md"})
      && (t != "" ==> EndsWith(t, ".md") && dataDir <= t)
      && (ext == "" ==> EndsWith(t, name + ".md"))
      && (ext == "md" ==> EndsWith(t, name))
  {
    if ext == "md" {
      EndsWithTrans(j, name, ".md");
    } else if ext == "" {
      EndsWithAppend(j, name, ".md");
      EndsWithTrans(j + ".md", name + ".md", ".md");
      assert dataDir <= j + ".md";
    }
  }

  lemma EndsWithTrans(s: string, a: string, b: string)
    requires EndsWith(s, a) && EndsWith(a, b)
    ensures EndsWith(s, b)
  {
    assert s[|s| - |b|..] == a[|a| - |b|..];
  }

  /** Slash-free components never start with `/`. */
  lemma ComponentsRelative(dirs: seq<string>, name: string)
    requires forall k :: 0 <= k < |dirs| ==> '/' !in dirs[k]
    requires '/' !in name
    ensures forall k :: 0 <= k < |dirs + [name]| ==> !([ '/' ] <= (dirs + [name])[k])
  {
    var comps := dirs + [name];
    forall k | 0 <= k < |comps|
      ensures !([ '/' ] <= comps[k])
    {
      if comps[k] != [] {
        assert comps[k][0] in comps[k];
      }
    }
  }

  lemma EndsWithAppend(s: string, suffix: string, tail: string)
    requires EndsWith(s, suffix)
    ensures EndsWith(s + tail, suffix + tail)
  {
    assert (s + tail)[|s + tail| - |suffix + tail|..] == s[|s| - |suffix|..] + tail;
  }

  /** With a plain data directory and non-empty components, the target is
      spelled out: the data directory, the directories and the file name
      joined by `/`, with `.md` appended when the name has no extension. */
  lemma MarkdownTargetPlain(dataDir: string, p: UrlPieces)
    requires WellFormed(p)
    requires dataDir != [] && !EndsWith(dataDir, "/")
    requires p.fileName != [] && forall k :: 0 <= k < |Dirs(p)| ==> Dirs(p)[k] != []
    ensures p.fileExt == "" ==>
      MarkdownTarget(dataDir, p) == dataDir + "/" + Join(Dirs(p) + [p.fileName], '/') + ".md"
    ensures p.fileExt == "md" ==>
      MarkdownTarget(dataDir, p) == dataDir + "/" + Join(Dirs(p) + [p.fileName], '/')
  {
    PathJoinPlain(dataDir, Dirs(p) + [p.fileName]);
  }

  /** The image types the view handler serves straight from disk. */
  const ImageExtensions: set<string> := {"png", "jpg", "jpeg", "gif"}

  /** What `view_document` answers. */
  datatype ViewOutcome =
    | RenderMarkdown(filePath: string, title: string, pageName: string)
    | ServeImage(filePath: string)
    | EditStub(fileName: string)

  /** `view_document` without the template rendering and file reading. */
  function ViewDocument(dataDir: string, p: UrlPieces, existing: set<string>): ViewOutcome
    requires |p.pathList| >= 1
  {
    var filePath := MarkdownTarget(dataDir, p);
    var pageName := if p.fileExt in {"", "md"} then p.fileNameNoExt else p.fileName;
    if |filePath| > 0 && filePath in existing then
      RenderMarkdown(filePath, p.fileNameNoExt, pageName)
    else if p.fileExt in ImageExtensions && PathJoin(dataDir, Dirs(p) + [p.fileName]) in existing then
      ServeImage(PathJoin(dataDir, Dirs(p) + [p.fileName]))
    else EditStub(p.fileName)
  }

  /** Viewing renders only existing `.md` files, serves only existing image
      files, and otherwise falls back to the edit stub. */
  lemma ViewDocumentOutcome(dataDir: string, p: UrlPieces, existing: set<string>)
    requires WellFormed(p)
    ensures var o := ViewDocument(dataDir, p, existing);
      && (o.RenderMarkdown? <==> MarkdownTarget(dataDir, p) != "" && MarkdownTarget(dataDir, p) in existing)
      && (o.RenderMarkdown? ==>
            && o.filePath == MarkdownTarget(dataDir, p) && o.filePath in existing
            && EndsWith(o.filePath, ".md") && dataDir <= o.filePath
            && o.title == p.fileNameNoExt && o.pageName == p.fileNameNoExt)
      && (o.ServeImage? <==>
            !o.RenderMarkdown? && p.fileExt in ImageExtensions
            && PathJoin(dataDir, Dirs(p) + [p.fileName]) in existing)
      && (o.ServeImage? ==>
            o.filePath == PathJoin(dataDir, Dirs(p) + [p.fileName]) && o.filePath in existing && dataDir <= o.filePath)
      && (o.EditStub? <==> !o.RenderMarkdown? && !o.ServeImage?)
      && (o.EditStub? ==> o.fileName == p.fileName)
  {
    MarkdownTargetIsMarkdown(dataDir, p);
    ComponentsRelative(Dirs(p), p.fileName);
    PathJoinConfined(dataDir, Dirs(p) + [p.fileName]);
  }

  /** The edit form: the hidden `document_name` field and the page title. */
  datatype EditForm = EditForm(documentName: string, pageTitle: string)

  /** `edit_document` without the file reading. */
  function EditDocument(dataDir: string, p: UrlPieces, existing: set<string>): EditForm
    requires |p.pathList| >= 1
  {
    var filePath := MarkdownTarget(dataDir, p);
    if |filePath| > 0 && filePath in existing then EditForm(filePath, "Editing " + p.fileName)
    else EditForm(filePath, "Creating " + p.fileName)
  }

  /** The edit form names the markdown file the view handler reads, and it
      says `Editing` exactly when that file exists (otherwise `Creating`). */
  lemma EditDocumentForm(dataDir: string, p: UrlPieces, existing: set<string>)
    requires WellFormed(p)
    ensures var e := EditDocument(dataDir, p, existing);
      && (e.documentName == "" <==> p.fileExt !in {"", "md"})
      && (e.documentName != "" ==> EndsWith(e.documentName, ".md") && dataDir <= e.documentName)
      && (p.fileExt == "" ==> EndsWith(e.documentName, p.fileName + ".md"))
      && (p.fileExt == "md" ==> EndsWith(e.documentName, p.fileName))
      && (e.pageTitle == "Editing " + p.fileName <==> e.documentName != "" && e.documentName in existing)
      && (e.pageTitle != "Editing " + p.fileName ==> e.pageTitle == "Creating " + p.fileName)
  {
    MarkdownTargetIsMarkdown(dataDir, p);
    assert ("Editing " + p.fileName)[0] != ("Creating " + p.fileName)[0];
  }

  /** The view handler renders a page exactly when the edit handler would
      offer that same file for editing. */
  lemma ViewRendersWhatEditEdits(dataDir: string, p: UrlPieces, existing: set<string>)
    requires WellFormed(p)
    ensures var v := ViewDocument(dataDir, p, existing); var e := EditDocument(dataDir, p, existing);
      && (v.RenderMarkdown? <==> e.pageTitle == "Editing " + p.fileName)
      && (v.RenderMarkdown? ==> v.filePath == e.documentName)
  {
    EditDocumentForm(dataDir, p, existing);
  }

  /** What `save_document` writes and where it redirects. */
  datatype SaveAction = SaveAction(filePath: string, savedName: string, redirect: string)

  /** `save_document`: an empty extension gets `.md` appended. */
  function SaveDocument(dataDir: string, p: UrlPieces): SaveAction
    requires |p.pathList| >= 1
  {
    var fileName := if p.fileExt == "" then p.fileName + ".md" else p.fileName;
    SaveAction(PathJoin(dataDir, Dirs(p) + [fileName]), fileName, "/" + p.path + "/" + p.fileNameNoExt)
  }

  /** The saved file's name always carries an extension, it is `.md` when
      the form named none, and the file written is that name under the data
      directory. */
  lemma SavedNameHasExtension(dataDir: string, p: UrlPieces)
    requires WellFormed(p)
    ensures var s := SaveDocument(dataDir, p);
      && '.' in s.savedName
      && (p.fileExt == "" ==> s.savedName == p.fileName + ".md")
      && (p.fileExt != "" ==> s.savedName == p.fileName)
      && dataDir <= s.filePath && EndsWith(s.filePath, s.savedName)
  {
    var s := SaveDocument(dataDir, p);
    if p.fileExt == "" {
      assert s.savedName[|p.fileName|] == '.';
    } else {
      assert '.' in p.fileName;
    }
    var comps := Dirs(p) + [s.savedName];
    assert '/' !in s.savedName;
    forall k | 0 <= k < |comps|
      ensures !([ '/' ] <= comps[k])
    {
      if comps[k] != [] {
        assert comps[k][0] in comps[k];
      }
    }
    PathJoinConfined(dataDir, comps);
  }
}
