/** Wiki-link handling of the markdown extensions (app/src/markdown_extensions.py):
    the page-name and anchor normalisers and the `[[Page#anchor|text]]` inline
    processor. The processor's input is the text the pattern `\[\[([^\]]+)\]\]`
    captured; building the element tree is reduced to a `Link` record. */
module WikiLinks {
  import opened Text
  import opened Wrappers

  // ---------------------------------------------------------------------------
  // normalize_page_name

  /** One part of `normalize_page_name`: `p.strip().replace(" ", "_")`. */
  function CleanPart(p: string): string
  {
    ReplaceAll(Strip(p, Whitespace), " ", "_")
  }

  /** The generator of `normalize_page_name`: clean every part whose stripped
      form is non-empty, drop the others. */
  function CleanParts(parts: seq<string>): seq<string>
  {
    if parts == [] then []
    else
      (if Strip(parts[0], Whitespace) != [] then [CleanPart(parts[0])] else [])
      + CleanParts(parts[1..])
  }

  /** `normalize_page_name`: spaces become underscores, empty and blank
      segments disappear, slashes between the others stay. */
  function NormalizePageName(name: string): string
  {
    Join(CleanParts(Split(name, '/')), '/')
  }

  /** A segment as `normalize_page_name` leaves it: non-empty, no slash, no
      space, and no whitespace at either end. */
  ghost predicate IsCleanSegment(p: string)
  {
    p != [] && '/' !in p && ' ' !in p && p[0] !in Whitespace && p[|p| - 1] !in Whitespace
  }

  lemma CleanPartIsClean(p: string)
    requires '/' !in p && Strip(p, Whitespace) != []
    ensures IsCleanSegment(CleanPart(p))
  {
    var t := Strip(p, Whitespace);
    StripProperties(p, Whitespace);
    StripKeepsChars(p, Whitespace);
    UnderscoredIsClean(t);
  }

  lemma UnderscoredIsClean(t: string)
    requires t != [] && '/' !in t && t[0] !in Whitespace && t[|t| - 1] !in Whitespace
    ensures IsCleanSegment(ReplaceAll(t, " ", "_"))
  {
    assert ' ' in Whitespace;
    ReplaceCharAt(t, ' ', '_');
    ReplaceCharRemovesIt(t, ' ', "_");
    var r := ReplaceAll(t, " ", "_");
    assert r[0] == t[0] && r[|r| - 1] == t[|t| - 1];
    forall i | 0 <= i < |r| ensures r[i] != '/' {
      assert r[i] == t[i] || r[i] == '_';
    }
  }

  lemma {:induction false} CleanPartsAreClean(parts: seq<string>)
    requires forall k :: 0 <= k < |parts| ==> '/' !in parts[k]
    ensures forall k :: 0 <= k < |CleanParts(parts)| ==> IsCleanSegment(CleanParts(parts)[k])
    decreases |parts|
  {
    if parts != [] {
      CleanPartsAreClean(parts[1..]);
      if Strip(parts[0], Whitespace) != [] {
        CleanPartIsClean(parts[0]);
      }
    }
  }

  /** Clean segments pass through the generator unchanged. */
  lemma {:induction false} CleanPartsOfClean(parts: seq<string>)
    requires forall k :: 0 <= k < |parts| ==> IsCleanSegment(parts[k])
    ensures CleanParts(parts) == parts
    decreases |parts|
  {
    if parts != [] {
      var p := parts[0];
      StripIdentity(p, Whitespace);
      ReplaceCharAt(p, ' ', '_');
      assert CleanPart(p) == p;
      CleanPartsOfClean(parts[1..]);
      assert parts == [p] + parts[1..];
    }
  }

  /** Joining clean segments produces no space. */
  lemma {:induction false} JoinAvoidsChar(parts: seq<string>, c: char, x: char)
    requires x != c && forall k :: 0 <= k < |parts| ==> x !in parts[k]
    ensures x !in Join(parts, c)
    decreases |parts|
  {
    if |parts| > 1 {
      JoinAvoidsChar(parts[1..], c, x);
    }
  }

  /** Joining clean segments gives a text that neither starts nor ends
      with `/` or whitespace. */
  lemma {:induction false} JoinCleanEnds(parts: seq<string>)
    requires |parts| >= 1 && forall k :: 0 <= k < |parts| ==> IsCleanSegment(parts[k])
    ensures var r := Join(parts, '/');
      && r != [] && r[0] != '/' && r[0] !in Whitespace
      && r[|r| - 1] != '/' && r[|r| - 1] !in Whitespace
    decreases |parts|
  {
    var p := parts[0];
    assert IsCleanSegment(p);
    if |parts| > 1 {
      var rest := Join(parts[1..], '/');
      JoinCleanEnds(parts[1..]);
      assert Join(parts, '/') == p + ['/'] + rest;
    }
  }

  /** What `normalize_page_name` guarantees: no space, and when non-empty no
      empty segment and no whitespace around a segment, so no leading,
      trailing or doubled slash. */
  lemma NormalizePageNameShape(name: string)
    ensures var r := NormalizePageName(name);
      && ' ' !in r
      && (r != [] ==>
            && (forall k :: 0 <= k < |Split(r, '/')| ==> IsCleanSegment(Split(r, '/')[k]))
            && r[0] != '/' && r[|r| - 1] != '/'
            && r[0] !in Whitespace && r[|r| - 1] !in Whitespace)
  {
    var parts := CleanParts(Split(name, '/'));
    CleanPartsAreClean(Split(name, '/'));
    JoinAvoidsChar(parts, '/', ' ');
    var r := Join(parts, '/');
    if r != [] {
      assert |parts| >= 1;
      SplitJoin(parts, '/');
      JoinCleanEnds(parts);
    }
  }

  /** `normalize_page_name` is idempotent. */
  lemma NormalizePageNameIdempotent(name: string)
    ensures NormalizePageName(NormalizePageName(name)) == NormalizePageName(name)
  {
    var parts := CleanParts(Split(name, '/'));
    CleanPartsAreClean(Split(name, '/'));
    var r := Join(parts, '/');
    if parts == [] {
      assert Split(r, '/') == [""];
      assert Strip("", Whitespace) == [];
    } else {
      SplitJoin(parts, '/');
      CleanPartsOfClean(parts);
    }
  }

  // ---------------------------------------------------------------------------
  // normalize_anchor

  /** The characters `[a-z0-9\-]` that survive `normalize_anchor`. */
  predicate IsAnchorChar(c: char)
  {
    ('a' <= c <= 'z') || ('0' <= c <= '9') || c == '-'
  }

  /** Python's `str.lower()` on one character, as far as it can matter here:
      ASCII capitals, the Kelvin sign (lower-cased to `k`) and the capital I
      with dot above (lower-cased to `i` and a combining dot). Every other
      character whose lower case differs lower-cases to a character that the
      next steps delete anyway. */
  function LowerChar(c: char): string
  {
    if 'A' <= c <= 'Z' then [(c as int + 32) as char]
    else if c == '\U{212A}' then "k"
    else if c == '\U{0130}' then "i\U{0307}"
    else [c]
  }

  function Lower(s: string): string
  {
    if s == [] then [] else LowerChar(s[0]) + Lower(s[1..])
  }

  /** `re.sub(X + "+", c, s)` where `X` is the character class `cs`: every
      maximal run of class characters becomes one `c`. */
  function CollapseRuns(s: string, cs: set<char>, c: char): (r: string)
    ensures forall i :: 0 <= i < |r| ==> r[i] == c || r[i] !in cs
    ensures IsAnchorChar(c) && (forall i :: 0 <= i < |s| ==> IsAnchorChar(s[i])) ==>
      forall i :: 0 <= i < |r| ==> IsAnchorChar(r[i])
    ensures c in cs ==> forall i :: 0 <= i < |r| - 1 ==> !(r[i] == c && r[i + 1] == c)
    ensures c in cs && r != [] && r[0] == c ==> s != [] && s[0] in cs
    decreases |s|
  {
    if s == [] then []
    else if s[0] in cs then [c] + CollapseRuns(LStrip(s[1..], cs), cs, c)
    else [s[0]] + CollapseRuns(s[1..], cs, c)
  }

  /** `re.sub(r"[^a-z0-9\-]", "", s)` */
  function KeepAnchorChars(s: string): (r: string)
    ensures forall i :: 0 <= i < |r| ==> IsAnchorChar(r[i])
  {
    if s == [] then []
    else (if IsAnchorChar(s[0]) then [s[0]] else []) + KeepAnchorChars(s[1..])
  }

  /** `normalize_anchor`: lower-case, whitespace runs to `-`, drop every
      other character outside `[a-z0-9-]`, collapse dash runs, strip dashes. */
  function NormalizeAnchor(anchor: string): string
  {
    var lowered := Lower(anchor);
    var dashed := CollapseRuns(lowered, Whitespace, '-');
    var kept := KeepAnchorChars(dashed);
    var collapsed := CollapseRuns(kept, {'-'}, '-');
    Strip(collapsed, {'-'})
  }

  /** An anchor as `normalize_anchor` leaves it. */
  ghost predicate IsCleanAnchor(a: string)
  {
    && (forall i :: 0 <= i < |a| ==> IsAnchorChar(a[i]))
    && (forall i :: 0 <= i < |a| - 1 ==> !(a[i] == '-' && a[i + 1] == '-'))
    && (a != [] ==> a[0] != '-' && a[|a| - 1] != '-')
  }

  /** `normalize_anchor` yields only `a-z`, `0-9` and `-`, never `--`, and
      no dash at either end. */
  lemma NormalizeAnchorShape(anchor: string)
    ensures IsCleanAnchor(NormalizeAnchor(anchor))
    ensures !Contains(NormalizeAnchor(anchor), "--")
  {
    var kept := KeepAnchorChars(CollapseRuns(Lower(anchor), Whitespace, '-'));
    var collapsed := CollapseRuns(kept, {'-'}, '-');
    StripDashesKeepsClean(collapsed);
    ContainsPairIff(NormalizeAnchor(anchor), '-');
  }

  /** Stripping the end dashes of anchor characters without `--` leaves a
      clean anchor. */
  lemma StripDashesKeepsClean(s: string)
    requires forall i :: 0 <= i < |s| ==> IsAnchorChar(s[i])
    requires forall i :: 0 <= i < |s| - 1 ==> !(s[i] == '-' && s[i + 1] == '-')
    ensures IsCleanAnchor(Strip(s, {'-'}))
  {
    var m := RStrip(s, {'-'});
    var r := LStrip(m, {'-'});
    var a := |m| - |r|;
    forall i | 0 <= i < |r| ensures r[i] == s[a + i] && IsAnchorChar(r[i]) {
      assert r[i] == m[a + i];
    }
    forall i | 0 <= i < |r| - 1 ensures !(r[i] == '-' && r[i + 1] == '-') {
      assert r[i] == s[a + i] && r[i + 1] == s[a + i + 1];
    }
    if r != [] {
      assert r[|r| - 1] == m[|m| - 1];
    }
  }

  lemma {:induction false} LowerOfAnchorChars(s: string)
    requires forall i :: 0 <= i < |s| ==> IsAnchorChar(s[i])
    ensures Lower(s) == s
    decreases |s|
  {
    if s != [] {
      LowerOfAnchorChars(s[1..]);
    }
  }

  lemma {:induction false} CollapseRunsAbsent(s: string, cs: set<char>, c: char)
    requires forall i :: 0 <= i < |s| ==> s[i] !in cs
    ensures CollapseRuns(s, cs, c) == s
    decreases |s|
  {
    if s != [] {
      CollapseRunsAbsent(s[1..], cs, c);
    }
  }

  lemma {:induction false} CollapseRunsSingle(s: string, c: char)
    requires forall i :: 0 <= i < |s| - 1 ==> !(s[i] == c && s[i + 1] == c)
    ensures CollapseRuns(s, {c}, c) == s
    decreases |s|
  {
    if s != [] {
      if s[0] == c {
        var t := s[1..];
        assert LStrip(t, {c}) == t by {
          if t != [] { assert t[0] == s[1]; }
        }
        CollapseRunsSingle(t, c);
      } else {
        CollapseRunsSingle(s[1..], c);
      }
    }
  }

  lemma {:induction false} KeepAnchorCharsOfAnchorChars(s: string)
    requires forall i :: 0 <= i < |s| ==> IsAnchorChar(s[i])
    ensures KeepAnchorChars(s) == s
    decreases |s|
  {
    if s != [] {
      KeepAnchorCharsOfAnchorChars(s[1..]);
    }
  }

  /** A clean anchor is its own normal form, so `normalize_anchor` is
      idempotent. */
  lemma NormalizeAnchorOfClean(a: string)
    requires IsCleanAnchor(a)
    ensures NormalizeAnchor(a) == a
  {
    LowerOfAnchorChars(a);
    assert forall i :: 0 <= i < |a| ==> a[i] !in Whitespace;
    CollapseRunsAbsent(a, Whitespace, '-');
    KeepAnchorCharsOfAnchorChars(a);
    CollapseRunsSingle(a, '-');
    StripIdentity(a, {'-'});
  }

  lemma NormalizeAnchorIdempotent(anchor: string)
    ensures NormalizeAnchor(NormalizeAnchor(anchor)) == NormalizeAnchor(anchor)
  {
    NormalizeAnchorShape(anchor);
    NormalizeAnchorOfClean(NormalizeAnchor(anchor));
  }

  // ---------------------------------------------------------------------------
  // WikiLinkInlineProcessor

  /** The extension's configuration: `base_url`, `current_path` and the
      optional `page_exists_callback`. */
  datatype Config = Config(baseUrl: string, currentPath: string, pageExists: Option<string -> bool>)

  /** `WikiLinkInlineProcessor.__init__`: trailing slashes come off the base
      URL, the rest is kept as configured. */
  function NewProcessor(config: Config): (p: Config)
    ensures p.baseUrl <= config.baseUrl && (p.baseUrl == [] || p.baseUrl[|p.baseUrl| - 1] != '/')
    ensures forall i :: |p.baseUrl| <= i < |config.baseUrl| ==> config.baseUrl[i] == '/'
    ensures p.currentPath == config.currentPath && p.pageExists == config.pageExists
  {
    Config(RStrip(config.baseUrl, {'/'}), config.currentPath, config.pageExists)
  }

  /** `resolve_page_name`: on the stripped name, a leading `/` means "from
      the wiki root" and every leading slash goes; otherwise a non-empty
      current path is put in front; otherwise the name stays. */
  function ResolvePageName(proc: Config, pageName: string): (r: string)
    ensures ResolvesAs(proc.currentPath, Strip(pageName, Whitespace), r)
  {
    var n := Strip(pageName, Whitespace);
    ResolveStripped(proc.currentPath, n)
  }

  /** The three rules of `resolve_page_name` for a stripped name `n`. */
  ghost predicate ResolvesAs(currentPath: string, n: string, r: string)
  {
    && ([ '/' ] <= n ==>
          && |r| < |n| && n[|n| - |r|..] == r && !([ '/' ] <= r)
          && forall i :: 0 <= i < |n| - |r| ==> n[i] == '/')
    && (!([ '/' ] <= n) && currentPath != [] ==> r == currentPath + "/" + n)
    && (!([ '/' ] <= n) && currentPath == [] ==> r == n)
  }

  function ResolveStripped(currentPath: string, n: string): (r: string)
    ensures ResolvesAs(currentPath, n, r)
  {
    if [ '/' ] <= n then
      var r := LStrip(n, {'/'});
      assert n[0] == '/';
      assert LStrip(n, {'/'}) == LStrip(n[1..], {'/'});
      assert !([ '/' ] <= r) by {
        if r != [] { assert r[0] != '/'; }
      }
      r
    else if currentPath != [] then currentPath + "/" + n
    else n
  }

  /** The text before the first `#`, or all of it. */
  function BeforeHash(s: string): (r: string)
    ensures '#' !in r && r <= s
  {
    if '#' in s then SplitOnce(s, '#').0 else s
  }

  /** `default_link_text`: drop the anchor; if what is left contains a slash
      or starts with a dot, keep its last segment. */
  function DefaultLinkText(pagePart: string): (r: string)
    ensures r == LastSegment(BeforeHash(pagePart), '/')
    ensures '/' !in r && '#' !in r && EndsWith(BeforeHash(pagePart), r)
  {
    var p := BeforeHash(pagePart);
    LastSegmentIsSuffix(p, '/');
    if '/' in p || [ '.' ] <= p then LastSegment(p, '/') else p
  }

  /** The pieces of a `[[...]]` reference. */
  datatype WikiRef = WikiRef(
    pagePart: string,
    pageName: string,
    anchor: Option<string>,
    linkText: Option<string>)

  /** The first half of `handleMatch`: strip, split on the first `|` (link
      text after it, both halves stripped), then on the first `#`. */
  function ParseWikiRef(captured: string): (w: WikiRef)
    ensures var raw := Strip(captured, Whitespace);
      && ('|' in raw ==>
            && w.linkText.Some?
            && Strip(SplitOnce(raw, '|').0, Whitespace) == w.pagePart
            && Strip(SplitOnce(raw, '|').1, Whitespace) == w.linkText.value)
      && ('|' !in raw ==> w.linkText.None? && w.pagePart == raw)
    ensures w.anchor.Some? <==> '#' in w.pagePart
    ensures w.anchor.Some? ==> w.pageName + "#" + w.anchor.value == w.pagePart && '#' !in w.pageName
    ensures w.anchor.None? ==> w.pageName == w.pagePart
  {
    var raw := Strip(captured, Whitespace);
    var (pagePart, linkText) :=
      if '|' in raw then
        var halves := SplitOnce(raw, '|');
        (Strip(halves.0, Whitespace), Some(Strip(halves.1, Whitespace)))
      else (raw, None);
    if '#' in pagePart then
      var halves := SplitOnce(pagePart, '#');
      WikiRef(pagePart, halves.0, Some(halves.1), linkText)
    else WikiRef(pagePart, pagePart, None, linkText)
  }

  /** The `<a>` element `handleMatch` builds. */
  datatype Link = Link(href: string, text: string, cssClass: string, title: Option<string>)

  /** Python's truth value of the optional anchor (`if anchor:`). */
  predicate HasAnchor(w: WikiRef)
  {
    w.anchor.Some? && w.anchor.value != []
  }

  /** The page URL: the base URL, `/` and the normalised resolved name. */
  function PageUrl(proc: Config, pageName: string): string
  {
    proc.baseUrl + "/" + NormalizePageName(ResolvePageName(proc, pageName))
  }

  /** The href: the page URL, then `#` and the normalised anchor when the
      anchor is non-empty. */
  function Href(proc: Config, w: WikiRef): string
  {
    if HasAnchor(w) then PageUrl(proc, w.pageName) + "#" + NormalizeAnchor(w.anchor.value)
    else PageUrl(proc, w.pageName)
  }

  /** The link text: the explicit one, or `default_link_text`. */
  function LinkText(w: WikiRef): string
  {
    if w.linkText.Some? then w.linkText.value else DefaultLinkText(w.pagePart)
  }

  /** `missing` when a callback reports the resolved page absent. */
  function CssClass(proc: Config, w: WikiRef): string
  {
    if proc.pageExists.Some? && !proc.pageExists.value(ResolvePageName(proc, w.pageName)) then "missing"
    else "wikilink"
  }

  /** The second half of `handleMatch`: URL, text, class and title. */
  function BuildLink(proc: Config, w: WikiRef): Link
  {
    Link(Href(proc, w), LinkText(w), CssClass(proc, w), if HasAnchor(w) then Some(w.anchor.value) else None)
  }

  /** `handleMatch` on the captured text of `[[...]]`. */
  function HandleMatch(proc: Config, captured: string): Link
  {
    BuildLink(proc, ParseWikiRef(captured))
  }

  /** `normalize_page_name` only keeps characters of its input, `_` and `/`. */
  lemma {:induction false} NormalizePageNameChars(name: string, x: char)
    requires x != '_' && x != '/' && x !in name
    ensures x !in NormalizePageName(name)
  {
    var parts := Split(name, '/');
    forall k | 0 <= k < |parts| ensures x !in parts[k] {
      SplitKeepsChars(name, '/', k);
    }
    CleanPartsAvoid(parts, x);
    JoinAvoidsChar(CleanParts(parts), '/', x);
  }

  lemma {:induction false} SplitKeepsChars(s: string, c: char, k: nat)
    requires k < |Split(s, c)|
    ensures forall i :: 0 <= i < |Split(s, c)[k]| ==> Split(s, c)[k][i] in s
    decreases |s|
  {
    if c in s {
      var i := IndexOf(s, c);
      if k > 0 {
        SplitKeepsChars(s[i + 1..], c, k - 1);
        forall j | 0 <= j < |Split(s, c)[k]| ensures Split(s, c)[k][j] in s {
          var y := Split(s, c)[k][j];
          assert y in s[i + 1..];
          var m :| 0 <= m < |s[i + 1..]| && s[i + 1..][m] == y;
          assert s[i + 1 + m] == y;
        }
      } else {
        forall j | 0 <= j < |s[..i]| ensures s[..i][j] in s {
          assert s[..i][j] == s[j];
        }
      }
    }
  }

  lemma {:induction false} CleanPartsAvoid(parts: seq<string>, x: char)
    requires x != '_' && forall k :: 0 <= k < |parts| ==> x !in parts[k]
    ensures forall k :: 0 <= k < |CleanParts(parts)| ==> x !in CleanParts(parts)[k]
    decreases |parts|
  {
    if parts != [] {
      CleanPartsAvoid(parts[1..], x);
      var t := Strip(parts[0], Whitespace);
      StripKeepsChars(parts[0], Whitespace);
      ReplaceCharAt(t, ' ', '_');
      var r := CleanPart(parts[0]);
      forall i | 0 <= i < |r| ensures r[i] != x {
        assert r[i] == t[i] || r[i] == '_';
      }
    }
  }

  /** Resolving a name adds no character other than `/` and those of the
      current path. */
  lemma ResolvedAvoids(currentPath: string, n: string, r: string, x: char)
    requires ResolvesAs(currentPath, n, r)
    requires x != '/' && x !in n && x !in currentPath
    ensures x !in r
  {
    if [ '/' ] <= n {
      forall i | 0 <= i < |r| ensures r[i] != x {
        assert r[i] == n[|n| - |r|..][i] == n[|n| - |r| + i];
      }
    }
  }

  /** The normalised page name of a reference never holds a space or a `#`
      (when neither the reference's page name nor the current path does). */
  lemma LinkPageClean(proc: Config, pageName: string)
    requires '#' !in proc.currentPath && '#' !in pageName
    ensures var page := NormalizePageName(ResolvePageName(proc, pageName));
      ' ' !in page && '#' !in page
  {
    var resolved := ResolvePageName(proc, pageName);
    var n := Strip(pageName, Whitespace);
    StripKeepsChars(pageName, Whitespace);
    assert '#' !in n;
    ResolvedAvoids(proc.currentPath, n, resolved, '#');
    NormalizePageNameChars(resolved, '#');
    NormalizePageNameShape(resolved);
  }

  /** Where the link points: the href is the base URL, `/` and the
      normalised resolved page name, followed by `#` and the normalised
      anchor exactly when the reference has a non-empty anchor, which is
      also exactly when a title is set (to the raw anchor). */
  lemma LinkShape(proc: Config, w: WikiRef)
    requires '#' !in proc.baseUrl && '#' !in proc.currentPath && '#' !in w.pageName
    ensures var l := BuildLink(proc, w);
      && (l.title.Some? <==> HasAnchor(w))
      && (HasAnchor(w) <==> '#' in l.href)
      && (HasAnchor(w) ==>
            && l.title == w.anchor
            && l.href == PageUrl(proc, w.pageName) + "#" + NormalizeAnchor(w.anchor.value)
            && IsCleanAnchor(NormalizeAnchor(w.anchor.value)))
      && (!HasAnchor(w) ==> l.href == PageUrl(proc, w.pageName))
  {
    LinkPageClean(proc, w.pageName);
    var url := PageUrl(proc, w.pageName);
    assert '#' !in url;
    if HasAnchor(w) {
      NormalizeAnchorShape(w.anchor.value);
      assert (url + "#" + NormalizeAnchor(w.anchor.value))[|url|] == '#';
    }
  }

  /** What the link says: the explicit text after `|`, or the last segment
      of the page part before any `#`; the class is `missing` exactly when
      a callback reports the resolved page absent. */
  lemma LinkLabel(proc: Config, w: WikiRef)
    ensures var l := BuildLink(proc, w);
      && (w.linkText.Some? ==> l.text == w.linkText.value)
      && (w.linkText.None? ==> l.text == LastSegment(BeforeHash(w.pagePart), '/') && '/' !in l.text)
      && (l.cssClass == "missing" <==>
            proc.pageExists.Some? && !proc.pageExists.value(ResolvePageName(proc, w.pageName)))
      && (l.cssClass != "missing" ==> l.cssClass == "wikilink")
  {
  }

  /** `handleMatch` builds its link from a reference whose page name holds no
      `#`, so `LinkShape` applies to every captured text. */
  lemma HandleMatchShape(proc: Config, captured: string)
    requires '#' !in proc.baseUrl && '#' !in proc.currentPath
    ensures var w := ParseWikiRef(captured); var l := HandleMatch(proc, captured);
      && (l.title.Some? <==> '#' in l.href)
      && (l.title.None? ==> l.href == PageUrl(proc, w.pageName))
  {
    var w := ParseWikiRef(captured);
    assert '#' !in w.pageName;
    LinkShape(proc, w);
  }

  /** A non-empty normalised page name starts with neither `/` nor
      whitespace and ends without whitespace. */
  lemma NormalizedPageEnds(page: string)
    requires page != [] && NormalizePageName(page) == page
    ensures page[0] != '/' && page[0] !in Whitespace && page[|page| - 1] !in Whitespace
  {
    NormalizePageNameShape(page);
  }

  /** A name written from the wiki root resolves to itself without the slash,
      whatever the current path. */
  lemma ResolveRooted(proc: Config, page: string)
    requires page != [] && page[0] != '/' && page[0] !in Whitespace && page[|page| - 1] !in Whitespace
    ensures ResolvePageName(proc, "/" + page) == page
  {
    var raw := "/" + page;
    assert '/' !in Whitespace;
    StripIdentity(raw, Whitespace);
    var r := ResolvePageName(proc, raw);
    assert ResolvesAs(proc.currentPath, raw, r);
    assert raw[1] == page[0];
  }

  /** A reference with nothing to strip, no `|` and no `#` is just a page name. */
  lemma ParsePlainRef(raw: string)
    requires Strip(raw, Whitespace) == raw && '|' !in raw && '#' !in raw
    ensures ParseWikiRef(raw) == WikiRef(raw, raw, None, None)
  {
  }

  /** A link without anchor points at the base URL and the normalised
      resolved page name. */
  lemma PlainLinkHref(proc: Config, w: WikiRef)
    requires w.anchor.None?
    ensures BuildLink(proc, w).href == proc.baseUrl + "/" + NormalizePageName(ResolvePageName(proc, w.pageName))
    ensures BuildLink(proc, w).title.None?
  {
  }

  /** A link written from the wiki root, with nothing to strip, no `|` and
      no `#`, points at the normalised name after the slash. */
  lemma RootLinkHref(proc: Config, page: string)
    requires page != [] && page[0] != '/' && page[0] !in Whitespace && page[|page| - 1] !in Whitespace
    requires '#' !in page && '|' !in page
    ensures HandleMatch(proc, "/" + page).href == proc.baseUrl + "/" + NormalizePageName(page)
    ensures HandleMatch(proc, "/" + page).title.None?
  {
    var raw := "/" + page;
    assert '/' !in Whitespace;
    StripIdentity(raw, Whitespace);
    assert '|' !in raw && '#' !in raw;
    ParsePlainRef(raw);
    ResolveRooted(proc, page);
    PlainLinkHref(proc, WikiRef(raw, raw, None, None));
  }

  /** Round trip: a link `[[/page]]` to a page name that `normalize_page_name`
      leaves unchanged points at exactly that page under the base URL. */
  lemma RootLinkToNormalizedPage(proc: Config, page: string)
    requires page != [] && NormalizePageName(page) == page
    requires '#' !in page && '|' !in page
    ensures HandleMatch(proc, "/" + page).href == proc.baseUrl + "/" + page
    ensures HandleMatch(proc, "/" + page).title.None?
  {
    NormalizedPageEnds(page);
    RootLinkHref(proc, page);
  }
}
