/** The Jupyter cell preprocessor (app/src/jupyter_extension.py): every
    ```` ```jupyter ```` fence of a markdown page becomes a cell wrapper that
    holds the escaped code in a textarea and the code again in a
    ```` ```python ```` fence for later highlighting. The SHA-1 digest and the
    markdown library's HTML stash are uninterpreted functions passed in. */
module JupyterCells {
  import opened Text

  /** The opening of a fence, as `RE_FENCE` spells it. */
  const Open: string := "```jupyter\n"

  /** What ends a fence: a newline and three backticks. */
  const Close: string := "\n```"

  /** A SHA-1 hexdigest: forty characters. */
  type HexDigest = s: string | |s| == 40 witness "0000000000000000000000000000000000000000"

  // ---------------------------------------------------------------------------
  // html.escape(code) with quote=True

  /** The characters `html.escape` never lets through unescaped. */
  const Markup: set<char> := {'<', '>', '"', '\''}

  function EscapeChar(c: char): string
  {
    if c == '&' then "&amp;"
    else if c == '<' then "&lt;"
    else if c == '>' then "&gt;"
    else if c == '"' then "&quot;"
    else if c == '\'' then "&#x27;"
    else [c]
  }

  /** `html.escape(s)`: `&`, `<`, `>`, `"` and `'` become character
      references, everything else is kept. */
  function HtmlEscape(s: string): (r: string)
    ensures forall i :: 0 <= i < |r| ==> r[i] !in Markup
    ensures |s| <= |r|
  {
    if s == [] then []
    else
      var e := EscapeChar(s[0]);
      assert forall i :: 0 <= i < |e| ==> e[i] !in Markup;
      e + HtmlEscape(s[1..])
  }

  /** Decoding of the five character references `html.escape` produces, as a
      browser does for the textarea's content. */
  function Unescape(t: string): string
    decreases |t|
  {
    if t == [] then []
    else if "&amp;" <= t then "&" + Unescape(t[5..])
    else if "&lt;" <= t then "<" + Unescape(t[4..])
    else if "&gt;" <= t then ">" + Unescape(t[4..])
    else if "&quot;" <= t then "\"" + Unescape(t[6..])
    else if "&#x27;" <= t then "'" + Unescape(t[6..])
    else [t[0]] + Unescape(t[1..])
  }

  lemma UnescapeChar(c: char, rest: string)
    ensures Unescape(EscapeChar(c) + rest) == [c] + Unescape(rest)
  {
    var t := EscapeChar(c) + rest;
    if c == '&' {
      assert "&amp;" <= t && t[5..] == rest;
    } else if c == '<' {
      assert t[1] == 'l' && t[4..] == rest;
      NotReference(t, "&amp;");
      assert "&lt;" <= t;
    } else if c == '>' {
      assert t[1] == 'g' && t[4..] == rest;
      NotReference(t, "&amp;");
      NotReference(t, "&lt;");
      assert "&gt;" <= t;
    } else if c == '"' {
      assert t[1] == 'q' && t[6..] == rest;
      NotReference(t, "&amp;");
      NotReference(t, "&lt;");
      NotReference(t, "&gt;");
      assert "&quot;" <= t;
    } else if c == '\'' {
      assert t[1] == '#' && t[6..] == rest;
      NotReference(t, "&amp;");
      NotReference(t, "&lt;");
      NotReference(t, "&gt;");
      NotReference(t, "&quot;");
      assert "&#x27;" <= t;
    } else {
      assert t[0] == c && t[1..] == rest;
      NotReference(t, "&amp;");
      NotReference(t, "&lt;");
      NotReference(t, "&gt;");
      NotReference(t, "&quot;");
      NotReference(t, "&#x27;");
    }
  }

  /** A text that differs from a reference in its first two characters does
      not start with it. */
  lemma NotReference(t: string, ref: string)
    requires |ref| >= 2 && |t| >= 1 && (t[0] != ref[0] || (|t| >= 2 && t[1] != ref[1]))
    ensures !(ref <= t)
  {
  }

  /** The textarea shows exactly the code: decoding the escaped text gives
      the code back. */
  lemma {:induction false} UnescapeEscape(s: string)
    ensures Unescape(HtmlEscape(s)) == s
    decreases |s|
  {
    if s != [] {
      UnescapeChar(s[0], HtmlEscape(s[1..]));
      UnescapeEscape(s[1..]);
      assert s == [s[0]] + s[1..];
    }
  }

  // ---------------------------------------------------------------------------
  // repl

  /** `m.group(1).rstrip("\n")`: the captured code without its trailing
      newlines. */
  function CellCode(group: string): (code: string)
    ensures code <= group && (code == [] || code[|code| - 1] != '\n')
    ensures forall i :: |code| <= i < |group| ==> group[i] == '\n'
  {
    RStrip(group, {'\n'})
  }

  /** The part left for the markdown renderer: the code in a python fence. */
  function FormattedCode(code: string): string
  {
    "<div class='jupyter-formatted'>\n```python\n" + code + "\n```\n</div>"
  }

  /** `sha1(code).hexdigest()[:12]`. */
  function CellHash(digest: string -> HexDigest, code: string): (h: string)
    ensures |h| == 12 && h <= digest(code)
  {
    digest(code)[..12]
  }

  const Indent: string := "                    "

  /** The stashed HTML after the escaped code. */
  const ControlsTail: string := "</textarea>\n                "

  function CellStart(hash: string): string
  {
    "<div class=\"jupyter-cell\" data-cell-hash=\"" + hash + "\">"
  }

  /** The HTML handed to the stash: three buttons, the output area and a
      textarea holding the escaped code. */
  function Controls(code: string): string
  {
    "<div class=\"jupyter-button-wrapper\">\n"
    + Indent + "<button title=\"Run\" class=\"jupyter-run\" onclick=\"runJupyterCode(this)\">\U{25B6}\U{FE0F}</button>\n"
    + Indent + "<button title=\"Clear Output\" class=\"jupyter-clear\" onclick=\"runJupyterClear(this)\">\U{1F5D1}\U{FE0F}</button>\n"
    + Indent + "<button title=\"Edit\" class=\"jupyter-edit\" onclick=\"runJupyterEdit(this)\" aria-pressed=\"false\">\U{270F}\U{FE0F}</button>\n"
    + Indent + "</div>\n"
    + Indent + "<div class=\"jupyter-output\" style=\"display:none;\"></div>\n"
    + Indent + "<textarea  style=\"display:none;\" class=\"jupyter-code\" spellcheck=\"false\" autocomplete=\"off\" autocorrect=\"off\" autocaptialize=\"off\">"
    + HtmlEscape(code) + ControlsTail
  }

  /** `repl` on a fence whose captured group is `group`: the wrapper opening
      with the cell hash, the stash placeholder for the controls holding the
      escaped code, the python fence, and the closing `</div>`. */
  function Cell(digest: string -> HexDigest, stash: string -> string, group: string): (r: string)
    ensures var code := CellCode(group);
      && CellStart(CellHash(digest, code)) + stash(Controls(code)) <= r
      && EndsWith(r, FormattedCode(code) + "</div>")
  {
    var code := CellCode(group);
    var head := CellStart(CellHash(digest, code)) + stash(Controls(code));
    var tail := FormattedCode(code) + "</div>";
    var r := head + tail;
    assert r[..|head|] == head && r[|r| - |tail|..] == tail;
    r
  }

  /** The `repl` callback the preprocessor hands to `RE_FENCE.sub`. */
  function Repl(digest: string -> HexDigest, stash: string -> string): string -> string
  {
    group => Cell(digest, stash, group)
  }

  // ---------------------------------------------------------------------------
  // run

  /** `RE_FENCE` matches at the start of `t`: the opening, and a closing
      somewhere after it. */
  predicate FenceAt(t: string)
  {
    Open <= t && Contains(t[|Open|..], Close)
  }

  /** `RE_FENCE` matches at `i`. */
  ghost predicate OpensAt(t: string, i: nat)
  {
    i <= |t| && FenceAt(t[i..])
  }

  /** `RE_FENCE.sub(repl, text)`: scanning from the left, a fence that opens
      here is replaced up to the first closing after its opening, and the
      scan goes on after that closing; otherwise one character is kept. */
  function Rewrite(repl: string -> string, t: string): string
    decreases |t|
  {
    if t == [] then []
    else if FenceAt(t) then
      var body := t[|Open|..];
      var j := Find(body, Close);
      repl(body[..j]) + Rewrite(repl, body[j + |Close|..])
    else [t[0]] + Rewrite(repl, t[1..])
  }

  /** A text without an opening is left as it is. */
  lemma {:induction false} RewriteWithoutFence(repl: string -> string, t: string)
    requires !Contains(t, Open)
    ensures Rewrite(repl, t) == t
    decreases |t|
  {
    if t != [] {
      NotContainsSuffix(t, Open, 0);
      assert t[0..] == t;
      NotContainsSuffix(t, Open, 1);
      RewriteWithoutFence(repl, t[1..]);
      assert t == [t[0]] + t[1..];
    }
  }

  /** Text before the first place a fence matches passes through unchanged. */
  lemma {:induction false} RewriteKeepsPrefix(repl: string -> string, pre: string, rest: string)
    requires forall i :: 0 <= i < |pre| ==> !OpensAt(pre + rest, i)
    ensures Rewrite(repl, pre + rest) == pre + Rewrite(repl, rest)
    decreases |pre|
  {
    if pre != [] {
      var t := pre + rest;
      var t1 := pre[1..] + rest;
      NoOpeningAfterFirst(pre, rest);
      calc {
        Rewrite(repl, t);
        { RewriteKeepsChar(repl, t); }
        [t[0]] + Rewrite(repl, t[1..]);
        { assert t[1..] == t1 && t[0] == pre[0]; }
        [pre[0]] + Rewrite(repl, t1);
        { RewriteKeepsPrefix(repl, pre[1..], rest); }
        [pre[0]] + (pre[1..] + Rewrite(repl, rest));
        pre + Rewrite(repl, rest);
      }
    } else {
      assert pre + rest == rest;
    }
  }

  /** Where no fence opens, the scan keeps one character and moves on. */
  lemma RewriteKeepsChar(repl: string -> string, t: string)
    requires t != [] && !FenceAt(t)
    ensures Rewrite(repl, t) == [t[0]] + Rewrite(repl, t[1..])
  {
  }

  lemma NoOpeningAfterFirst(pre: string, rest: string)
    requires pre != [] && forall i :: 0 <= i < |pre| ==> !OpensAt(pre + rest, i)
    ensures !FenceAt(pre + rest)
    ensures forall i :: 0 <= i < |pre| - 1 ==> !OpensAt(pre[1..] + rest, i)
  {
    var t := pre + rest;
    assert !OpensAt(t, 0) && t[0..] == t;
    forall i | 0 <= i < |pre| - 1 ensures !OpensAt(pre[1..] + rest, i) {
      assert !OpensAt(t, i + 1);
      assert (pre[1..] + rest)[i..] == t[i + 1..];
    }
  }

  /** The first closing in `group + Close + post` is the one after `group`
      when `group` holds none. */
  lemma FindAfterGroup(group: string, post: string)
    requires !Contains(group, Close)
    ensures Contains(group + Close + post, Close)
    ensures Find(group + Close + post, Close) == |group|
  {
    var body := group + Close + post;
    assert body[|group|..|group| + |Close|] == Close;
    ContainsAt(body, Close, |group|);
    forall k | 0 <= k < |group| ensures !(Close <= body[k..]) {
      NoCloseBefore(group, post, k);
    }
    var j := Find(body, Close);
    assert Close <= body[j..];
    assert Close <= body[|group|..];
  }

  /** No closing starts inside a group that holds none, even one that would
      run on into the closing after the group. */
  lemma NoCloseBefore(group: string, post: string, k: nat)
    requires !Contains(group, Close) && k < |group|
    ensures !(Close <= (group + Close + post)[k..])
  {
    var body := group + Close + post;
    if k + |Close| <= |group| {
      NotContainsSuffix(group, Close, k);
      assert body[k..][..|Close|] == group[k..][..|Close|];
    } else {
      assert body[k..][|group| - k] == '\n' != Close[|group| - k];
    }
  }

  /** A fence that opens at the start ends at the first closing after the
      opening (`.*?` is lazy): the code holds no closing, and the rest of the
      text is scanned again afterwards. */
  lemma RewriteFirstCell(repl: string -> string, group: string, post: string)
    requires !Contains(group, Close)
    ensures Rewrite(repl, Open + group + Close + post) == repl(group) + Rewrite(repl, post)
  {
    var t := Open + group + Close + post;
    var body := group + Close + post;
    assert t[..|Open|] == Open && t[|Open|..] == body;
    FindAfterGroup(group, post);
    assert body[..|group|] == group && body[|group| + |Close|..] == post;
  }

  /** `JupyterCellPreprocessor.run`: join the lines, rewrite the fences and
      split again. The flag write compares the text with an unchanged copy of
      itself, so the flag comes back as it was. */
  function Run(digest: string -> HexDigest, stash: string -> string, lines: seq<string>, hasJupyter: bool)
    : (r: (seq<string>, bool))
    ensures Join(r.0, '\n') == Rewrite(Repl(digest, stash), Join(lines, '\n'))
    ensures |r.0| >= 1 && forall k :: 0 <= k < |r.0| ==> '\n' !in r.0[k]
    ensures r.1 == hasJupyter
  {
    var text := Join(lines, '\n');
    var original := text;
    var rewritten := Rewrite(Repl(digest, stash), text);
    JoinSplit(rewritten, '\n');
    (Split(rewritten, '\n'), if text != original then true else hasJupyter)
  }

  /** Lines without a fence come back as they went in. */
  lemma RunWithoutFence(digest: string -> HexDigest, stash: string -> string, lines: seq<string>, hasJupyter: bool)
    requires |lines| >= 1 && forall k :: 0 <= k < |lines| ==> '\n' !in lines[k]
    requires !Contains(Join(lines, '\n'), Open)
    ensures Run(digest, stash, lines, hasJupyter) == (lines, hasJupyter)
  {
    var text := Join(lines, '\n');
    var repl := Repl(digest, stash);
    RewriteWithoutFence(repl, text);
    SplitJoin(lines, '\n');
    assert Run(digest, stash, lines, hasJupyter).0 == Split(text, '\n');
  }
}
