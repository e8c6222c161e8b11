# pymdwiki core, modelled in Dafny

pymdwiki is a small markdown wiki. Pages are `.md` files under a data
directory, links are written as `[[Page#anchor|text]]`, and ```` ```jupyter ````
fences become cells that run on a Jupyter kernel. This project models the
deterministic parts of it in Dafny and proves what they guarantee:

- **URL parsing and file targets** (`app/main.py`), modules `PathSanitize`
  and `UrlPath`.
  - `parse_url_path`: the `while ".." in path` loop, dropping empty segments,
    splitting off the file name and extension.
  - The extension rules of the view, edit and save handlers: which markdown
    file is opened or written.
- **The legacy catch-all route** (`main.py`), module `LegacyRoute`: the
  redirect decision, removing the `/wiki/` prefix, `..` and `.md`, and the
  page name and file path.
- **Wiki links** (`app/src/markdown_extensions.py`), module `WikiLinks`.
  - `normalize_page_name` and `normalize_anchor`.
  - `WikiLinkInlineProcessor`: base-URL trimming, `resolve_page_name`,
    `default_link_text` and `handleMatch`, over the text captured inside
    `[[...]]`.
- **Jupyter fences** (`app/src/jupyter_extension.py`), module `JupyterCells`.
  - `JupyterCellPreprocessor.run` and its `repl`: fence matching, code
    trimming, `html.escape` and assembling the cell wrapper.
  - SHA-1 and `htmlStash.store` are uninterpreted functions passed in.
- **The Jupyter client** (`app/src/jupyter_client.py`), module
  `JupyterClient`.
  - The page-to-kernel registry as a class, `KernelManager`. It holds the
    `kernels` map and the dict's key order.
  - `get_or_create_kernel`, `_delete_kernel`, the `pages` lists of
    `list_kernels`, and the reaper rule of `prune_stale_kernels`.
  - The translation of kernel messages into `{"html": ...}` events by
    `execute_code_stream`.
  - Responses from the Jupyter server are inputs: spawn status and id,
    listing status, kernels with whole idle seconds, which deletions fail,
    and the delivered message sequence.

Shared Python string behaviour is in module `Text`:

- `in`, `replace`, `split` and `join`, `split(c, 1)`, `find`, and the `strip`
  family.
- `str.isspace` as an explicit set of characters.

`Wrappers` holds `Option` and `Result`.

`execute_code_stream` yields rich output in the order plain text, HTML, PNG,
SVG, as at `app/src/jupyter_client.py:160-175`.

`main.py:83` calls `str.replace` with the keyword `count`, which Python
accepts from version 3.13. The model gives it the 3.13 meaning: only the
first occurrence is replaced.

## Model

| member | source | states |
|---|---|---|
| PathSanitize.WithoutDotDots | app/main.py:133-134 | the result of repeatedly deleting every `..` contains no `..` and is no longer than the input |
| PathSanitize.StripParentRefs | app/main.py:133-134 | the `while ".." in path` loop ends with exactly the path `WithoutDotDots` describes |
| PathSanitize.WithoutDotDotsKeepsOthers | app/main.py:133-134 | the loop deletes only dots: every other character occurs as often as before |
| PathSanitize.PathJoinConfined | app/main.py:238 | `os.path.join` of relative components starts with the data directory and ends with the last component |
| PathSanitize.PathJoinPlain | app/main.py:375 | joining non-empty slash-free components to a relative directory is concatenation with `/` between them |
| UrlPath.NonEmptyParts | app/main.py:136 | the filtered list keeps only non-empty segments taken from the split and is no longer than it |
| UrlPath.NonEmptyPartsMembers | app/main.py:136 | a segment is in the filtered list exactly when it is a non-empty segment of the split |
| UrlPath.NonEmptyPartsAppend | app/main.py:136 | the filter works segment by segment and keeps their order: filtering a concatenation concatenates the filtered halves |
| UrlPath.NonEmptyPartsSingle | app/main.py:136 | a single segment survives the filter exactly when it is non-empty |
| UrlPath.ParseUrlPath | app/main.py:131-162 | the imperative `parse_url_path` (loop, filter, `pop`, extension split) returns exactly the record `Parse` describes |
| UrlPath.SegmentsAreClean | app/main.py:133-136 | every kept segment is non-empty and holds neither `/` nor `..` |
| UrlPath.ParseLeavesNoDotDot | app/main.py:133-134 | neither the joined directory path nor the file name contains `..` |
| UrlPath.ParseSegments | app/main.py:135-156 | `path_list` is never empty: `[""]` or non-empty segments; the file name is the last non-empty segment; `path` is the `/`-join of the segments before it; no segment gives all-empty fields |
| UrlPath.SplitExtensionParts | app/main.py:142-148 | with a dot, the extension is the text after the last dot and stem + `.` + extension is the file name; without one, the extension is empty and the stem is the name |
| UrlPath.ParseIsWellFormed | app/main.py:131-162 | every parse result has all of the above properties at once |
| UrlPath.MarkdownTargetIsMarkdown | app/main.py:237-244 | a markdown target exists exactly when the extension is empty or `md`; it then ends in `.md` and starts with the data directory; without an extension it ends with the file name followed by `.md`, with `md` it ends with the file name itself |
| UrlPath.MarkdownTargetPlain | app/main.py:237-241 | for a plain data directory and non-empty components, the target is the data directory, the directories and the file name joined by `/`, plus `.md` when the name has no extension |
| UrlPath.ViewDocumentOutcome | app/main.py:237-295 | viewing renders exactly when the markdown target exists, and then renders that file (under the data directory, ending in `.md`) with the stem as title and page name; otherwise it serves the joined image path exactly when the extension is an image type and that file exists; in every other case it shows the edit stub for the file name |
| UrlPath.SavedNameHasExtension | app/main.py:368-375 | the saved name always contains a dot: `.md` is appended when there is no extension, otherwise the name is unchanged; the written path starts with the data directory and ends with that name |
| UrlPath.EditDocumentForm | app/main.py:299-341 | the form's `document_name` is empty exactly for extensions other than empty and `md`, and is otherwise a `.md` file under the data directory ending with the file name (plus `.md` without extension); the title is `Editing <name>` exactly when that file exists, `Creating <name>` otherwise |
| UrlPath.ViewRendersWhatEditEdits | app/main.py:237-246 | the view handler renders a page exactly when the edit handler offers it as `Editing`, and then both name the same file |
| LegacyRoute.ReplaceFirstAtStart | main.py:83 | removing the first `/wiki/` from a path starting with it drops exactly that prefix, and later occurrences survive |
| LegacyRoute.PagePathProperties | main.py:83-87 | the page path contains no `..`; it is the cleaned path with one trailing `.md` removed, if there was one |
| LegacyRoute.PageName | main.py:89 | the page name is the last element of `path.split("/")`: a slash-free suffix of the page path, preceded by `/` whenever it is not the whole path |
| LegacyRoute.AbsolutePathEscapes | main.py:95 | as written, `/wiki//x` looks up `/x.md`, which is outside `wiki/` |
| LegacyRoute.FilePath | main.py:95 | the corrected file path always lies under `wiki/` and ends in `.md`; for a relative page path it equals the one as written |
| LegacyRoute.CatchAll | main.py:70-134 | with line 95 corrected: paths outside `/wiki/` (including `/`) redirect to `/wiki/`; otherwise it renders the page file if it exists and shows the edit stub for the page name if not; a rendered file exists, lies under `wiki/` and ends in `.md` |
| WikiLinks.NormalizePageNameShape | app/src/markdown_extensions.py:13-16 | the normalised name has no space; when non-empty, every `/`-segment is non-empty with no whitespace at either end, and the name neither starts nor ends with `/` |
| WikiLinks.NormalizePageNameIdempotent | app/src/markdown_extensions.py:13-16 | normalising twice gives the same result as normalising once |
| WikiLinks.NormalizePageNameChars | app/src/markdown_extensions.py:13-16 | normalising introduces no character other than `_` and `/` |
| WikiLinks.NormalizeAnchorShape | app/src/markdown_extensions.py:19-28 | the anchor holds only `a-z`, `0-9` and `-`, never `--`, and neither starts nor ends with `-` |
| WikiLinks.NormalizeAnchorIdempotent | app/src/markdown_extensions.py:19-28 | normalising an anchor twice gives the same result as normalising once |
| WikiLinks.NewProcessor | app/src/markdown_extensions.py:32-36 | the base URL loses exactly its trailing slashes; the current path and callback are kept |
| WikiLinks.ResolvePageName | app/src/markdown_extensions.py:38-49 | on the stripped name: a leading `/` means all leading slashes go and the rest is kept; otherwise a non-empty current path is prefixed with `/`; otherwise the name is unchanged |
| WikiLinks.DefaultLinkText | app/src/markdown_extensions.py:51-57 | the default text is the last `/`-segment of the text before the first `#`: it holds no `/` and no `#`, and it ends that text |
| WikiLinks.ParseWikiRef | app/src/markdown_extensions.py:60-74 | the link text after the first `\|` is split off (both halves stripped); the page part is split at its first `#` into a `#`-free page name and the anchor |
| WikiLinks.LinkShape | app/src/markdown_extensions.py:76-92 | the href is base + `/` + normalised resolved name, followed by `#` and the normalised anchor exactly when the anchor is non-empty; that is exactly when the title is set, and the title is then the raw anchor; the normalised anchor holds only `a-z`, `0-9` and `-` |
| WikiLinks.HandleMatchShape | app/src/markdown_extensions.py:59-92 | for every captured text, the href contains `#` exactly when a title is set, and without one it is base + `/` + normalised resolved name |
| WikiLinks.LinkLabel | app/src/markdown_extensions.py:83-98 | the text is the explicit one, or else the last `/`-segment of the page part before `#` (holding no `/`); the class is `missing` exactly when a callback reports the resolved page absent, and `wikilink` otherwise |
| WikiLinks.RootLinkToNormalizedPage | app/src/markdown_extensions.py:38-81 | `[[/name]]` for a name that normalisation leaves unchanged links to exactly base + `/` + name, with no anchor |
| JupyterCells.HtmlEscape | app/src/jupyter_extension.py:40 | the escaped code contains no raw `<`, `>`, `"` or `'` and is no shorter than the code |
| JupyterCells.UnescapeEscape | app/src/jupyter_extension.py:40-51 | decoding the textarea's character references gives back exactly the code |
| JupyterCells.CellCode | app/src/jupyter_extension.py:33 | the code is a prefix of the captured text that does not end in a newline; only newlines were removed after it |
| JupyterCells.CellHash | app/src/jupyter_extension.py:39 | the cell hash is the first 12 characters of the hex digest |
| JupyterCells.Cell | app/src/jupyter_extension.py:32-56 | the replacement starts with the `jupyter-cell` div carrying the 12-character hash, continues with the stashed controls around the escaped code, and ends with the python fence of the code and `</div>` |
| JupyterCells.RewriteWithoutFence | app/src/jupyter_extension.py:58 | text without a fence opening is left unchanged |
| JupyterCells.RewriteKeepsPrefix | app/src/jupyter_extension.py:58 | text before the first place a fence matches passes through unchanged |
| JupyterCells.RewriteFirstCell | app/src/jupyter_extension.py:12 | a fence runs to the first closing after its opening: its body goes to `repl`, and scanning resumes after that closing |
| JupyterCells.Run | app/src/jupyter_extension.py:27-62 | the returned lines hold no `\n` and their `\n`-join is the rewritten joined input, so they are exactly the lines of the rewritten text; the `pymdwiki_has_jupyter` flag comes back unchanged |
| JupyterCells.RunWithoutFence | app/src/jupyter_extension.py:27-62 | lines (without embedded newlines) and no fence come back as they went in |
| JupyterClient.KernelManager.constructor | app/src/jupyter_client.py:14-16 | the registry starts empty |
| JupyterClient.KernelManager.GetOrCreateKernel | app/src/jupyter_client.py:23-39 | a mapped page returns its kernel and spawns nothing; a 201 spawn records and returns the new id and changes no other entry; any other status fails with the response text and leaves the map unchanged |
| JupyterClient.KernelManager.PagesFor | app/src/jupyter_client.py:70-73 | the pages listed for a kernel are, in key order, exactly the pages mapped to it |
| JupyterClient.PagesOfExact | app/src/jupyter_client.py:70-76 | the pages list holds exactly the pages mapped to the kernel, each once |
| JupyterClient.KernelManager.DeleteKernel | app/src/jupyter_client.py:245-256 | if the DELETE request raises, nothing changes; otherwise every page mapped to the kernel is unmapped and all other entries (and their order) stay |
| JupyterClient.KernelManager.ListKernels | app/src/jupyter_client.py:41-88 | a status other than 200 gives the error text; otherwise each listed kernel comes with its pages and idle time, in listing order |
| JupyterClient.KernelManager.PruneStaleKernels | app/src/jupyter_client.py:204-243 | a status other than 200 changes nothing; otherwise it deletes the kernels idle for strictly more than `max_age_seconds`, in listing order, up to the first failed deletion, and unmaps exactly their pages |
| JupyterClient.PruneRule | app/src/jupyter_client.py:236-240 | only kernels idle for strictly longer than the limit are deleted; when no deletion fails, all of them are |
| JupyterClient.PruneKeepsFresh | app/src/jupyter_client.py:236-240 | a page whose kernel is idle for at most the limit keeps its mapping |
| JupyterClient.RichEvents | app/src/jupyter_client.py:157-175 | rich output yields at most four html events, and none exactly when no value is present and non-empty (plain text counts only without a widget view) |
| JupyterClient.RichEventsByKind | app/src/jupyter_client.py:157-175 | the i-th event is the i-th shown MIME type's value rendered: plain text in `<pre>`, PNG in an `<img src="data:image/png;base64,...">`, HTML and SVG as they are |
| JupyterClient.ShownKeysInOrder | app/src/jupyter_client.py:157-175 | a MIME type has an event exactly when its value is truthy (plain text only without a widget view), and the events come in the order plain text, HTML, PNG, SVG |
| JupyterClient.PlainTextFirst | app/src/jupyter_client.py:160-166 | when plain text is sent, it comes first, wrapped in `<pre>` |
| JupyterClient.EventsOf | app/src/jupyter_client.py:139-202 | a stream yields its text with newlines rewritten, an error yields `<pre>Error: <evalue></pre>`, a result or display message yields its rich events, and every other message type yields nothing |
| JupyterClient.StreamEvent | app/src/jupyter_client.py:145-149 | a stream message yields one html event without a newline; text without newlines is sent unchanged |
| JupyterClient.StreamNewlines | app/src/jupyter_client.py:145-149 | the stream rewrite turns `\n` into `<br/>`, keeps every other character, and works piece by piece on any split of the text |
| JupyterClient.ExecuteCodeStream | app/src/jupyter_client.py:131-202 | the receive loop yields exactly the events `Translate` defines for the delivered messages |
| JupyterClient.UnrelatedIgnored | app/src/jupyter_client.py:136-137 | a message answering another request yields nothing and does not end the stream, wherever it arrives |
| JupyterClient.NothingAfterIdle | app/src/jupyter_client.py:200-202 | nothing delivered after the request's idle status yields an event |

## Left out

- HTTP, websocket, file reads and writes, templates, markdown rendering and
  Starlette routing. Their outcomes are parameters: spawn status, id and
  text; listing status; kernels; which deletions raise; the message
  sequence; the set of existing files.
- `unquote` percent-decoding: request paths are taken as already decoded.
- `uuid` generation of the request's `msg_id`: the id is a parameter.
- SHA-1 and `htmlStash.store`: uninterpreted function parameters. The digest
  is any 40-character string.
- `wrap_msg`: an event is the record `Event(msgType, data)` (built by
  `JupyterClient.Html`), not its JSON text. JSON escaping is not modelled.
- `datetime` parsing and float `total_seconds`: idle time is a whole number of
  seconds, given per kernel.
- JupyterClient.KernelManager.ListKernels: the `List error: ...` result of an
  exception while reading a listing entry is not modelled. The copied extra
  fields of each kernel entry are not modelled either.
- JupyterClient.KernelManager.PruneStaleKernels: only a failing DELETE ends
  the loop. Other exceptions (parsing a listing entry) are not modelled.
- `delete_kernel_by_id`: it prints the exception instead of raising; in the
  model, `DeleteKernel` returns `false`.
- The widget-view value is a JSON object in Jupyter. It matters only through
  truthiness, modelled as a non-empty string.
- The check-then-spawn race across `await` in `get_or_create_kernel` and all
  async interleaving: the model is sequential.
- The singleton `__new__`/`__init__` pair of `AsyncJupyterManager`.
- `app/src/tasks.py` (scheduling loop), `app/template/default/jupyter.js`
  (browser code) and `app/config.py` (constants).
- `UnifiedMathPreprocessor` and the Image, StrikeThrough and Highlight
  processors: they depend on the regex engine and the markdown library.
- The `catch_all` handler of app/main.py (favicon and template files, which
  pop list elements and check files), and the unreachable lines
  main.py:125-132.
- WikiLinks.NormalizeAnchor: `str.lower` is modelled for the characters that
  can survive the `[a-z0-9-]` filter. These are ASCII letters, the Kelvin sign
  (to `k`) and capital I with dot above (to `i` and a combining dot). Every
  other character is left as it is, because it is removed afterwards in any
  case.
- JupyterCells.HtmlEscape: `html.escape` is modelled character by character.
  This is the same result as the library's chain of `replace` calls, because
  no replacement introduces a character that a later one rewrites.
- LegacyRoute.CatchAll: it models `catch_all` with main.py:95 corrected by
  `LegacyRoute.FilePath`. As written, a page path that starts with `/` looks
  up a file outside `wiki/`; `LegacyRoute.AbsolutePathEscapes` shows this
  (see Findings).
- The element tree `handleMatch` builds is reduced to a `Link` record (href,
  text, class, optional title). The match positions it returns are not
  modelled.

## Findings

| source | as written | input that shows it | evidently intended | confidence | as-written member | corrected member |
|---|---|---|---|---|---|---|
| main.py:95 | `os.path.join(FILE_PATH, path)` with a page path that starts with `/` discards `FILE_PATH` | `/wiki//x`: the page path is `/x` and the file looked up is `/x.md`, outside the data directory | the file looked up is always under `wiki/` (leading slashes of the page path dropped) | not executed | LegacyRoute.AbsolutePathEscapes | LegacyRoute.FilePath |
