/** The Jupyter kernel client (app/src/jupyter_client.py): the page-to-kernel
    registry of `AsyncJupyterManager`, the reaper rule of
    `prune_stale_kernels`, and the translation of the kernel's reply messages
    into the `{"html": ...}` events `execute_code_stream` yields. HTTP and
    websocket traffic is replaced by its outcome, passed in: the spawn
    response, the listing's status and kernels, which deletions fail, and the
    sequence of messages the websocket delivers. */
module JupyterClient {
  import opened Wrappers
  import opened Text

  // ---------------------------------------------------------------------------
  // The registry's maps and sequences

  /** The pages, in `order`, that `kernels` maps to `kernelId`: the `pages`
      list of `list_kernels` and the `pages_to_remove` of `_delete_kernel`. */
  function PagesOf(order: seq<string>, kernels: map<string, string>, kernelId: string): seq<string>
  {
    if order == [] then []
    else
      (if order[0] in kernels && kernels[order[0]] == kernelId then [order[0]] else [])
      + PagesOf(order[1..], kernels, kernelId)
  }

  /** The pages of `kernels` mapped to one of `ids`. */
  function MappedTo(kernels: map<string, string>, ids: set<string>): set<string>
  {
    set p | p in kernels && kernels[p] in ids
  }

  /** `order` without the keys in `keys`: a dict's key order after `del`. */
  function WithoutKeys(order: seq<string>, keys: set<string>): (r: seq<string>)
    ensures forall x :: x in r <==> x in order && x !in keys
  {
    if order == [] then []
    else (if order[0] in keys then [] else [order[0]]) + WithoutKeys(order[1..], keys)
  }

  ghost predicate Distinct(s: seq<string>)
  {
    forall i, j :: 0 <= i < j < |s| ==> s[i] != s[j]
  }

  /** A registry map and its key order agree: the order lists each key once. */
  ghost predicate Tracks(order: seq<string>, kernels: map<string, string>)
  {
    Distinct(order) && forall p :: p in kernels <==> p in order
  }

  /** One step of the scan over the key order. */
  lemma PagesOfAt(order: seq<string>, i: nat, kernels: map<string, string>, kernelId: string)
    requires i < |order|
    ensures PagesOf(order[i..], kernels, kernelId)
      == (if order[i] in kernels && kernels[order[i]] == kernelId then [order[i]] else [])
         + PagesOf(order[i + 1..], kernels, kernelId)
  {
    assert order[i..][1..] == order[i + 1..];
  }

  /** The scan of `PagesFor` keeps its invariant over one more page. */
  lemma PagesForStep(order: seq<string>, kernels: map<string, string>, kernelId: string, i: nat, pages: seq<string>)
    requires i < |order|
    requires pages + PagesOf(order[i..], kernels, kernelId) == PagesOf(order, kernels, kernelId)
    ensures order[i] in kernels && kernels[order[i]] == kernelId ==>
      (pages + [order[i]]) + PagesOf(order[i + 1..], kernels, kernelId) == PagesOf(order, kernels, kernelId)
    ensures !(order[i] in kernels && kernels[order[i]] == kernelId) ==>
      pages + PagesOf(order[i + 1..], kernels, kernelId) == PagesOf(order, kernels, kernelId)
  {
    PagesOfAt(order, i, kernels, kernelId);
    var rest := PagesOf(order[i + 1..], kernels, kernelId);
    assert (pages + [order[i]]) + rest == pages + ([order[i]] + rest);
  }

  /** The pages reported for a kernel are exactly the pages mapped to it, each
      once. */
  lemma {:induction false} PagesOfExact(order: seq<string>, kernels: map<string, string>, kernelId: string)
    requires Distinct(order)
    ensures forall p :: p in PagesOf(order, kernels, kernelId) <==> p in order && p in kernels && kernels[p] == kernelId
    ensures Distinct(PagesOf(order, kernels, kernelId))
  {
    if order != [] {
      PagesOfExact(order[1..], kernels, kernelId);
      var rest := PagesOf(order[1..], kernels, kernelId);
      assert order[0] !in order[1..];
      assert order[0] !in rest;
      forall i, j | 0 <= i < j < |PagesOf(order, kernels, kernelId)|
        ensures PagesOf(order, kernels, kernelId)[i] != PagesOf(order, kernels, kernelId)[j]
      {
        var s := PagesOf(order, kernels, kernelId);
        if order[0] in kernels && kernels[order[0]] == kernelId {
          assert s == [order[0]] + rest;
          if i > 0 {
            assert s[i] == rest[i - 1] && s[j] == rest[j - 1];
          } else {
            assert s[j] == rest[j - 1] && s[j] in rest;
          }
        } else {
          assert s == rest;
        }
      }
    }
  }

  lemma {:induction false} WithoutKeysDistinct(order: seq<string>, keys: set<string>)
    requires Distinct(order)
    ensures Distinct(WithoutKeys(order, keys))
  {
    if order != [] {
      WithoutKeysDistinct(order[1..], keys);
      var rest := WithoutKeys(order[1..], keys);
      assert order[0] !in order[1..];
      var s := WithoutKeys(order, keys);
      forall i, j | 0 <= i < j < |s| ensures s[i] != s[j] {
        if order[0] !in keys {
          assert s == [order[0]] + rest;
          if i > 0 {
            assert s[i] == rest[i - 1] && s[j] == rest[j - 1];
          } else {
            assert s[j] == rest[j - 1] && s[j] in rest;
          }
        }
      }
    }
  }

  lemma {:induction false} WithoutKeysTwice(order: seq<string>, a: set<string>, b: set<string>)
    ensures WithoutKeys(WithoutKeys(order, a), b) == WithoutKeys(order, a + b)
  {
    if order != [] {
      WithoutKeysTwice(order[1..], a, b);
      var rest := WithoutKeys(order[1..], a);
      if order[0] !in a {
        var w := [order[0]] + rest;
        assert WithoutKeys(order, a) == w;
        assert w[0] == order[0] && w[1..] == rest;
        assert WithoutKeys(w, b) == (if order[0] in b then [] else [order[0]]) + WithoutKeys(rest, b);
      } else {
        assert WithoutKeys(order, a) == rest;
      }
    }
  }

  lemma {:induction false} WithoutNoKeys(order: seq<string>)
    ensures WithoutKeys(order, {}) == order
  {
    if order != [] {
      WithoutNoKeys(order[1..]);
      assert order == [order[0]] + order[1..];
    }
  }

  /** The elements of a sequence, as a set. */
  function Elements(s: seq<string>): set<string>
  {
    set x | x in s
  }

  /** Unmapping the pages of one more kernel is unmapping the pages of both
      sets of kernels at once. */
  lemma UnmapTwice(kernels: map<string, string>, ids: set<string>, id: string)
    ensures var after := kernels - MappedTo(kernels, ids);
      after - MappedTo(after, {id}) == kernels - MappedTo(kernels, ids + {id})
      && MappedTo(kernels, ids) + MappedTo(after, {id}) == MappedTo(kernels, ids + {id})
  {
  }

  /** Unmapping pages keeps the key order in step with the map. */
  lemma TracksUnmap(order: seq<string>, kernels: map<string, string>, pages: set<string>)
    requires Tracks(order, kernels)
    ensures Tracks(WithoutKeys(order, pages), kernels - pages)
  {
    WithoutKeysDistinct(order, pages);
  }

  /** The pages listed for a kernel are the pages mapped to it. */
  lemma PagesAreMapped(order: seq<string>, kernels: map<string, string>, kernelId: string)
    requires Tracks(order, kernels)
    ensures Elements(PagesOf(order, kernels, kernelId)) == MappedTo(kernels, {kernelId})
  {
    PagesOfExact(order, kernels, kernelId);
  }

  /** One more `del` in the loop of `_delete_kernel`. */
  lemma DeleteStep(order: seq<string>, kernels: map<string, string>, toRemove: seq<string>, i: nat)
    requires i < |toRemove|
    ensures Elements(toRemove[..i + 1]) == Elements(toRemove[..i]) + {toRemove[i]}
    ensures WithoutKeys(WithoutKeys(order, Elements(toRemove[..i])), {toRemove[i]})
         == WithoutKeys(order, Elements(toRemove[..i + 1]))
    ensures (kernels - Elements(toRemove[..i])) - {toRemove[i]} == kernels - Elements(toRemove[..i + 1])
  {
    assert toRemove[..i + 1] == toRemove[..i] + [toRemove[i]];
    WithoutKeysTwice(order, Elements(toRemove[..i]), {toRemove[i]});
  }

  /** The loop of `_delete_kernel` keeps its invariant when it unmaps the
      next page. */
  lemma DeleteLoopStep(order0: seq<string>, kernels0: map<string, string>, toRemove: seq<string>, i: nat,
                       order: seq<string>, kernels: map<string, string>)
    requires i < |toRemove|
    requires kernels == kernels0 - Elements(toRemove[..i])
    requires order == WithoutKeys(order0, Elements(toRemove[..i]))
    requires Tracks(order, kernels)
    ensures kernels - {toRemove[i]} == kernels0 - Elements(toRemove[..i + 1])
    ensures WithoutKeys(order, {toRemove[i]}) == WithoutKeys(order0, Elements(toRemove[..i + 1]))
    ensures Tracks(WithoutKeys(order, {toRemove[i]}), kernels - {toRemove[i]})
  {
    DeleteStep(order0, kernels0, toRemove, i);
    TracksUnmap(order, kernels, {toRemove[i]});
  }

  /** One more kernel deleted by the reaper. */
  lemma PruneStep(order: seq<string>, kernels: map<string, string>, deleted: seq<string>, id: string)
    ensures var ids := Elements(deleted);
      var after := kernels - MappedTo(kernels, ids);
      && after - MappedTo(after, {id}) == kernels - MappedTo(kernels, Elements(deleted + [id]))
      && WithoutKeys(WithoutKeys(order, MappedTo(kernels, ids)), MappedTo(after, {id}))
         == WithoutKeys(order, MappedTo(kernels, Elements(deleted + [id])))
  {
    var ids := Elements(deleted);
    assert Elements(deleted + [id]) == ids + {id};
    UnmapTwice(kernels, ids, id);
    WithoutKeysTwice(order, MappedTo(kernels, ids), MappedTo(kernels - MappedTo(kernels, ids), {id}));
  }

  // ---------------------------------------------------------------------------
  // Kernels as the Jupyter server lists them

  /** One entry of `GET /api/kernels`: its id and how many whole seconds ago
      its `last_activity` was. */
  datatype KernelInfo = KernelInfo(id: string, idleSeconds: int)

  /** One entry of `list_kernels`: the server's entry with `pages` and `idle`
      added. */
  datatype KernelEntry = KernelEntry(kernel: KernelInfo, pages: seq<string>, idle: int)

  /** The kernel ids `prune_stale_kernels` deletes: the listed kernels idle for
      strictly more than `maxAge` seconds, in listing order, up to the first
      whose deletion fails (the exception ends the loop). */
  function PruneTargets(active: seq<KernelInfo>, maxAge: int, failing: set<string>): seq<string>
  {
    if active == [] then []
    else if active[0].idleSeconds > maxAge then
      if active[0].id in failing then [] else [active[0].id] + PruneTargets(active[1..], maxAge, failing)
    else PruneTargets(active[1..], maxAge, failing)
  }

  /** Only kernels idle for longer than the limit are deleted, and when every
      deletion succeeds all of them are. */
  lemma {:induction false} PruneRule(active: seq<KernelInfo>, maxAge: int, failing: set<string>, id: string)
    ensures id in PruneTargets(active, maxAge, failing) ==>
      exists i :: 0 <= i < |active| && active[i].id == id && active[i].idleSeconds > maxAge
    ensures failing == {} ==>
      (id in PruneTargets(active, maxAge, failing) <==>
       exists i :: 0 <= i < |active| && active[i].id == id && active[i].idleSeconds > maxAge)
  {
    if active != [] {
      PruneRule(active[1..], maxAge, failing, id);
      forall i | 0 <= i < |active[1..]| ensures active[1..][i] == active[i + 1] { }
      if exists i :: 0 <= i < |active| && active[i].id == id && active[i].idleSeconds > maxAge {
        var i :| 0 <= i < |active| && active[i].id == id && active[i].idleSeconds > maxAge;
        if i > 0 {
          assert active[1..][i - 1] == active[i];
        }
      }
    }
  }

  /** A page whose kernel every listing shows idle for at most `maxAge`
      seconds keeps its mapping through a prune. */
  lemma PruneKeepsFresh(kernels: map<string, string>, active: seq<KernelInfo>, maxAge: int, failing: set<string>, page: string)
    requires page in kernels
    requires forall i :: 0 <= i < |active| && active[i].id == kernels[page] ==> active[i].idleSeconds <= maxAge
    ensures var deleted := PruneTargets(active, maxAge, failing);
      var after := kernels - MappedTo(kernels, Elements(deleted));
      page in after && after[page] == kernels[page]
  {
    PruneRule(active, maxAge, failing, kernels[page]);
  }

  // ---------------------------------------------------------------------------
  // AsyncJupyterManager

  class KernelManager {
    /** `self.kernels`: page id to kernel id. */
    var kernels: map<string, string>
    /** The dict's key order (insertion order), which fixes the order of the
        `pages` lists. */
    var order: seq<string>

    ghost predicate Valid()
      reads this
    {
      Tracks(order, kernels)
    }

    constructor()
      ensures Valid() && kernels == map[] && order == []
    {
      kernels := map[];
      order := [];
    }

    /** `get_or_create_kernel`: a mapped page gets its kernel back and nothing
        is spawned; otherwise the spawn response decides: on 201 the new id is
        recorded for the page and returned, on any other status the call fails
        with the response text and the registry is unchanged. */
    method GetOrCreateKernel(pageId: string, spawnStatus: int, spawnedId: string, responseText: string)
      returns (r: Result<string, string>, spawned: bool)
      requires Valid()
      modifies this
      ensures Valid()
      ensures spawned <==> pageId !in old(kernels)
      ensures pageId in old(kernels) ==>
        r == Ok(old(kernels)[pageId]) && kernels == old(kernels) && order == old(order)
      ensures pageId !in old(kernels) && spawnStatus == 201 ==>
        && r == Ok(spawnedId)
        && kernels == old(kernels)[pageId := spawnedId]
        && order == old(order) + [pageId]
      ensures pageId !in old(kernels) && spawnStatus != 201 ==>
        r == Err("Failed to spawn kernel: " + responseText) && kernels == old(kernels) && order == old(order)
    {
      if pageId in kernels {
        return Ok(kernels[pageId]), false;
      }
      spawned := true;
      if spawnStatus == 201 {
        kernels := kernels[pageId := spawnedId];
        order := order + [pageId];
        r := Ok(spawnedId);
      } else {
        r := Err("Failed to spawn kernel: " + responseText);
      }
    }

    /** The `pages` computation of `list_kernels`: walk the registry in key
        order and keep the pages mapped to `kernelId`. */
    method PagesFor(kernelId: string) returns (pages: seq<string>)
      requires Valid()
      ensures pages == PagesOf(order, kernels, kernelId)
      ensures forall p :: p in pages <==> p in kernels && kernels[p] == kernelId
    {
      pages := [];
      var o, ks := order, kernels;
      var i := 0;
      while i < |o|
        invariant 0 <= i <= |o|
        invariant pages + PagesOf(o[i..], ks, kernelId) == PagesOf(o, ks, kernelId)
      {
        PagesForStep(o, ks, kernelId, i, pages);
        if o[i] in ks && ks[o[i]] == kernelId {
          pages := pages + [o[i]];
        }
        i := i + 1;
      }
      assert o[i..] == [];
      PagesOfExact(order, kernels, kernelId);
    }

    /** `_delete_kernel`: the DELETE request goes first, and when it raises
        (`deleted` false) nothing is unmapped; otherwise every page mapped to
        the kernel is unmapped and all other entries stay. */
    method DeleteKernel(kernelId: string, requestSucceeds: bool) returns (deleted: bool)
      requires Valid()
      modifies this
      ensures Valid() && deleted == requestSucceeds
      ensures !deleted ==> kernels == old(kernels) && order == old(order)
      ensures deleted ==>
        && kernels == old(kernels) - MappedTo(old(kernels), {kernelId})
        && order == WithoutKeys(old(order), MappedTo(old(kernels), {kernelId}))
    {
      if !requestSucceeds {
        return false;
      }
      var toRemove := PagesFor(kernelId);
      PagesAreMapped(order, kernels, kernelId);
      var i := 0;
      assert Elements(toRemove[..0]) == {};
      WithoutNoKeys(order);
      while i < |toRemove|
        invariant 0 <= i <= |toRemove|
        invariant kernels == old(kernels) - Elements(toRemove[..i])
        invariant order == WithoutKeys(old(order), Elements(toRemove[..i]))
        invariant Tracks(order, kernels)
      {
        var page := toRemove[i];
        DeleteLoopStep(old(order), old(kernels), toRemove, i, order, kernels);
        kernels := kernels - {page};
        order := WithoutKeys(order, {page});
        i := i + 1;
      }
      assert toRemove[..i] == toRemove;
      deleted := true;
    }

    /** `list_kernels`: on a listing status other than 200 the error text;
        otherwise each listed kernel with the pages mapped to it and its idle
        time, in listing order. */
    method ListKernels(status: int, active: seq<KernelInfo>) returns (r: Result<seq<KernelEntry>, string>)
      requires Valid()
      ensures status != 200 ==> r == Err("Error fetching kernels from Jupyter")
      ensures status == 200 ==>
        && r.Ok? && |r.value| == |active|
        && forall i :: 0 <= i < |active| ==>
             r.value[i] == KernelEntry(active[i], PagesOf(order, kernels, active[i].id), active[i].idleSeconds)
    {
      if status != 200 {
        return Err("Error fetching kernels from Jupyter");
      }
      var entries: seq<KernelEntry> := [];
      var i := 0;
      while i < |active|
        invariant 0 <= i <= |active| && |entries| == i
        invariant forall j :: 0 <= j < i ==>
          entries[j] == KernelEntry(active[j], PagesOf(order, kernels, active[j].id), active[j].idleSeconds)
      {
        var pages := PagesFor(active[i].id);
        entries := entries + [KernelEntry(active[i], pages, active[i].idleSeconds)];
        i := i + 1;
      }
      r := Ok(entries);
    }

    /** `prune_stale_kernels`: on a listing status other than 200 nothing
        happens; otherwise each listed kernel idle for strictly more than
        `maxAge` seconds is deleted and unmapped, in listing order, until a
        deletion raises (its id in `failing`), which ends the loop. */
    method PruneStaleKernels(status: int, active: seq<KernelInfo>, maxAge: int, failing: set<string>)
      returns (deleted: seq<string>)
      requires Valid()
      modifies this
      ensures Valid()
      ensures status != 200 ==> deleted == [] && kernels == old(kernels) && order == old(order)
      ensures status == 200 ==> deleted == PruneTargets(active, maxAge, failing)
      ensures kernels == old(kernels) - MappedTo(old(kernels), Elements(deleted))
      ensures order == WithoutKeys(old(order), MappedTo(old(kernels), Elements(deleted)))
    {
      deleted := [];
      if status != 200 {
        assert Elements(deleted) == {} && MappedTo(kernels, {}) == {};
        WithoutNoKeys(order);
        return;
      }
      var i := 0;
      assert Elements(deleted) == {} && MappedTo(kernels, {}) == {};
      WithoutNoKeys(order);
      while i < |active|
        invariant 0 <= i <= |active| && Tracks(order, kernels)
        invariant deleted + PruneTargets(active[i..], maxAge, failing) == PruneTargets(active, maxAge, failing)
        invariant kernels == old(kernels) - MappedTo(old(kernels), Elements(deleted))
        invariant order == WithoutKeys(old(order), MappedTo(old(kernels), Elements(deleted)))
      {
        assert active[i..][1..] == active[i + 1..];
        var kernel := active[i];
        if kernel.idleSeconds > maxAge {
          PruneStep(old(order), old(kernels), deleted, kernel.id);
          var ok := DeleteKernel(kernel.id, kernel.id !in failing);
          if !ok {
            assert PruneTargets(active[i..], maxAge, failing) == [];
            break;
          }
          deleted := deleted + [kernel.id];
        }
        i := i + 1;
      }
    }
  }

  // ---------------------------------------------------------------------------
  // Messages from the kernel and the events streamed to the page

  /** The parts of a Jupyter message the stream loop looks at: the parent
      header's `msg_id` (absent when the header is empty), the `msg_type`,
      and the content fields it reads. `data` maps a MIME type to its
      value. */
  datatype Message = Message(parentMsgId: Option<string>, msgType: string, content: Content)

  datatype Content = Content(text: string, evalue: string, data: map<string, string>, executionState: string)

  /** `wrap_msg(msg_type, msg_data)`: the one-key object sent to the page. */
  datatype Event = Event(msgType: string, data: string)

  function Html(d: string): (e: Event)
    ensures e.msgType == "html" && e.data == d
  {
    Event("html", d)
  }

  const WidgetView: string := "application/vnd.jupyter.widget-view+json"

  /** Python truthiness of `data.get(key)`: present and non-empty. */
  predicate Truthy(data: map<string, string>, key: string)
  {
    key in data && data[key] != []
  }

  /** The events of an `execute_result` or `display_data` message, in the
      order the code yields them: plain text in `<pre>` (unless a widget view
      is present), HTML, PNG as an inline image, SVG. */
  function RichEvents(data: map<string, string>): (r: seq<Event>)
    ensures |r| <= 4 && forall i :: 0 <= i < |r| ==> r[i].msgType == "html"
    ensures r == [] <==>
      (!Truthy(data, "text/plain") || Truthy(data, WidgetView))
      && !Truthy(data, "text/html") && !Truthy(data, "image/png") && !Truthy(data, "image/svg+xml")
  {
    (if Truthy(data, "text/plain") && !Truthy(data, WidgetView)
     then [Html("<pre>" + data["text/plain"] + "</pre>")] else [])
    + (if Truthy(data, "text/html") then [Html(data["text/html"])] else [])
    + (if Truthy(data, "image/png")
       then [Html("<img src=\"data:image/png;base64," + data["image/png"] + "\">")] else [])
    + (if Truthy(data, "image/svg+xml") then [Html(data["image/svg+xml"])] else [])
  }

  /** The MIME types of rich output, in the order the code tries them. */
  const RichOrder: seq<string> := ["text/plain", "text/html", "image/png", "image/svg+xml"]

  /** The position of a MIME type in `RichOrder`. */
  function Rank(key: string): nat
  {
    if key == "text/plain" then 0
    else if key == "text/html" then 1
    else if key == "image/png" then 2
    else 3
  }

  /** Whether a MIME type yields an event: its value is truthy, and plain
      text only when no widget view is present. */
  predicate Shown(data: map<string, string>, key: string)
  {
    Truthy(data, key) && (key == "text/plain" ==> !Truthy(data, WidgetView))
  }

  /** The markup each MIME type's value becomes: plain text in `<pre>`, a PNG
      as an inline base64 image, HTML and SVG as they are. */
  function RenderRich(key: string, value: string): string
  {
    if key == "text/plain" then "<pre>" + value + "</pre>"
    else if key == "image/png" then "<img src=\"data:image/png;base64," + value + "\">"
    else value
  }

  /** The keys of `keys` that yield an event, in their order. */
  function ShownKeys(data: map<string, string>, keys: seq<string>): (r: seq<string>)
    ensures forall k :: 0 <= k < |r| ==> Shown(data, r[k])
  {
    if keys == [] then []
    else (if Shown(data, keys[0]) then [keys[0]] else []) + ShownKeys(data, keys[1..])
  }

  /** Rich output, described key by key: one event per shown MIME type, in
      the order plain text, HTML, PNG, SVG, each holding that type's value
      rendered by `RenderRich`. */
  lemma RichEventsByKind(data: map<string, string>)
    ensures var ks := ShownKeys(data, RichOrder); var r := RichEvents(data);
      && |r| == |ks|
      && (forall i :: 0 <= i < |ks| ==> ks[i] in data && r[i] == Html(RenderRich(ks[i], data[ks[i]])))
  {
    ShownKeysOfOrder(data);
    RichEventsParts(data);
    OneKind(data, "text/plain");
    OneKind(data, "text/html");
    OneKind(data, "image/png");
    OneKind(data, "image/svg+xml");
    RendersAppend(data, KeyPart(data, "image/png"), EventPart(data, "image/png"),
                  KeyPart(data, "image/svg+xml"), EventPart(data, "image/svg+xml"));
    RendersAppend(data, KeyPart(data, "text/html"), EventPart(data, "text/html"),
                  KeyPart(data, "image/png") + KeyPart(data, "image/svg+xml"),
                  EventPart(data, "image/png") + EventPart(data, "image/svg+xml"));
    RendersAppend(data, KeyPart(data, "text/plain"), EventPart(data, "text/plain"),
                  KeyPart(data, "text/html") + (KeyPart(data, "image/png") + KeyPart(data, "image/svg+xml")),
                  EventPart(data, "text/html") + (EventPart(data, "image/png") + EventPart(data, "image/svg+xml")));
  }

  /** The key a MIME type contributes to the shown keys: itself or nothing. */
  function KeyPart(data: map<string, string>, key: string): seq<string>
  {
    if Shown(data, key) then [key] else []
  }

  /** The event a MIME type contributes: its rendered value or nothing. */
  function EventPart(data: map<string, string>, key: string): seq<Event>
  {
    if Shown(data, key) then [Html(RenderRich(key, data[key]))] else []
  }

  lemma OneKind(data: map<string, string>, key: string)
    ensures Renders(data, KeyPart(data, key), EventPart(data, key))
  {
  }

  /** The chain of `if`s of `RichEvents`, MIME type by MIME type. */
  lemma RichEventsParts(data: map<string, string>)
    ensures RichEvents(data) == EventPart(data, "text/plain")
      + (EventPart(data, "text/html") + (EventPart(data, "image/png") + EventPart(data, "image/svg+xml")))
  {
    RenderRichCases(data);
  }

  /** `RenderRich` on each of the four MIME types. */
  lemma RenderRichCases(data: map<string, string>)
    ensures "text/plain" in data ==> RenderRich("text/plain", data["text/plain"]) == "<pre>" + data["text/plain"] + "</pre>"
    ensures "text/html" in data ==> RenderRich("text/html", data["text/html"]) == data["text/html"]
    ensures "image/png" in data ==>
      RenderRich("image/png", data["image/png"]) == "<img src=\"data:image/png;base64," + data["image/png"] + "\">"
    ensures "image/svg+xml" in data ==> RenderRich("image/svg+xml", data["image/svg+xml"]) == data["image/svg+xml"]
  {
  }

  /** One step of the key filter. */
  lemma ShownKeysCons(data: map<string, string>, k: string, rest: seq<string>)
    ensures ShownKeys(data, [k] + rest) == (if Shown(data, k) then [k] else []) + ShownKeys(data, rest)
  {
    assert ([k] + rest)[0] == k && ([k] + rest)[1..] == rest;
  }

  /** The filter over `RichOrder`, written out. */
  lemma ShownKeysOfOrder(data: map<string, string>)
    ensures ShownKeys(data, RichOrder) == KeyPart(data, "text/plain")
      + (KeyPart(data, "text/html") + (KeyPart(data, "image/png") + KeyPart(data, "image/svg+xml")))
  {
    assert RichOrder == ["text/plain"] + (["text/html"] + (["image/png"] + (["image/svg+xml"] + [])));
    ShownKeysCons(data, "text/plain", ["text/html"] + (["image/png"] + (["image/svg+xml"] + [])));
    ShownKeysCons(data, "text/html", ["image/png"] + (["image/svg+xml"] + []));
    ShownKeysCons(data, "image/png", ["image/svg+xml"] + []);
    ShownKeysCons(data, "image/svg+xml", []);
    assert ShownKeys(data, []) == [];
    assert KeyPart(data, "image/svg+xml") + [] == KeyPart(data, "image/svg+xml");
  }

  /** `r` holds, position by position, the rendered values of the keys
      `ks`. */
  ghost predicate Renders(data: map<string, string>, ks: seq<string>, r: seq<Event>)
  {
    |ks| == |r| && forall i :: 0 <= i < |ks| ==> ks[i] in data && r[i] == Html(RenderRich(ks[i], data[ks[i]]))
  }

  lemma RendersAppend(data: map<string, string>, k1: seq<string>, r1: seq<Event>, k2: seq<string>, r2: seq<Event>)
    requires Renders(data, k1, r1) && Renders(data, k2, r2)
    ensures Renders(data, k1 + k2, r1 + r2)
  {
    var ks, r := k1 + k2, r1 + r2;
    forall i | 0 <= i < |ks| ensures ks[i] in data && r[i] == Html(RenderRich(ks[i], data[ks[i]])) {
      if i < |k1| {
        assert ks[i] == k1[i] && r[i] == r1[i];
      } else {
        assert ks[i] == k2[i - |k1|] && r[i] == r2[i - |k1|];
      }
    }
  }

  /** Filtering keeps exactly the shown keys. */
  lemma {:induction false} ShownKeysMembers(data: map<string, string>, keys: seq<string>)
    ensures forall k :: k in ShownKeys(data, keys) <==> k in keys && Shown(data, k)
  {
    if keys != [] {
      ShownKeysMembers(data, keys[1..]);
      assert forall k :: k in keys <==> k == keys[0] || k in keys[1..];
    }
  }

  /** On keys listed in increasing rank, the filter keeps the ranks
      increasing. */
  lemma {:induction false} ShownKeysRanks(data: map<string, string>, keys: seq<string>)
    requires forall i, j :: 0 <= i < j < |keys| ==> Rank(keys[i]) < Rank(keys[j])
    ensures forall i, j :: 0 <= i < j < |ShownKeys(data, keys)| ==>
      Rank(ShownKeys(data, keys)[i]) < Rank(ShownKeys(data, keys)[j])
  {
    if keys != [] {
      ShownKeysRanks(data, keys[1..]);
      var rest := ShownKeys(data, keys[1..]);
      if Shown(data, keys[0]) {
        RanksAbove(data, keys);
        var ks := [keys[0]] + rest;
        assert ShownKeys(data, keys) == ks;
        forall i, j | 0 <= i < j < |ks| ensures Rank(ks[i]) < Rank(ks[j]) {
          assert ks[j] == rest[j - 1] && ks[j] in rest;
          if i > 0 {
            assert ks[i] == rest[i - 1];
            assert Rank(rest[i - 1]) < Rank(rest[j - 1]);
          } else {
            assert ks[i] == keys[0];
            assert Rank(keys[0]) < Rank(ks[j]);
          }
        }
      }
    }
  }

  /** Every key the filter keeps after the first one ranks above it. */
  lemma RanksAbove(data: map<string, string>, keys: seq<string>)
    requires keys != []
    requires forall i, j :: 0 <= i < j < |keys| ==> Rank(keys[i]) < Rank(keys[j])
    ensures forall k :: k in ShownKeys(data, keys[1..]) ==> Rank(keys[0]) < Rank(k)
  {
    ShownKeysMembers(data, keys[1..]);
    forall k | k in ShownKeys(data, keys[1..]) ensures Rank(keys[0]) < Rank(k) {
      var j :| 0 <= j < |keys[1..]| && keys[1..][j] == k;
      assert keys[j + 1] == k;
    }
  }

  /** The shown keys are exactly the shown MIME types of `RichOrder`, each
      once and in that order. */
  lemma ShownKeysInOrder(data: map<string, string>)
    ensures var ks := ShownKeys(data, RichOrder);
      && (forall k :: k in ks <==> k in RichOrder && Shown(data, k))
      && (forall i, j :: 0 <= i < j < |ks| ==> Rank(ks[i]) < Rank(ks[j]))
  {
    var t := RichOrder;
    assert Rank(t[0]) == 0 && Rank(t[1]) == 1 && Rank(t[2]) == 2 && Rank(t[3]) == 3;
    ShownKeysMembers(data, t);
    ShownKeysRanks(data, t);
  }

  /** The events one correlated message produces: a stream's text with each
      newline turned into `<br/>`, an error's value in `<pre>Error: ...</pre>`,
      the rich output of a result or display message, and nothing for any
      other type. */
  function EventsOf(m: Message): (r: seq<Event>)
    ensures m.msgType == "stream" ==> r == [Html(ReplaceAll(m.content.text, "\n", "<br/>"))]
    ensures m.msgType == "error" ==> r == [Html("<pre>Error: " + m.content.evalue + "</pre>")]
    ensures m.msgType in {"execute_result", "display_data"} ==> r == RichEvents(m.content.data)
    ensures m.msgType !in {"stream", "error", "execute_result", "display_data"} ==> r == []
  {
    if m.msgType == "stream" then [Html(ReplaceAll(m.content.text, "\n", "<br/>"))]
    else if m.msgType == "error" then [Html("<pre>Error: " + m.content.evalue + "</pre>")]
    else if m.msgType == "execute_result" || m.msgType == "display_data" then RichEvents(m.content.data)
    else []
  }

  /** The reply to the request `msgId` ends with an idle status. */
  predicate EndsRequest(m: Message)
  {
    m.msgType == "status" && m.content.executionState == "idle"
  }

  /** What `execute_code_stream` yields for the message sequence the
      websocket delivers: messages whose parent is another request are
      skipped, each other message adds its events, and an idle status ends
      the stream. */
  function Translate(msgs: seq<Message>, msgId: string): seq<Event>
  {
    if msgs == [] then []
    else if msgs[0].parentMsgId != Some(msgId) then Translate(msgs[1..], msgId)
    else if EndsRequest(msgs[0]) then []
    else EventsOf(msgs[0]) + Translate(msgs[1..], msgId)
  }

  /** One step of the receive loop. */
  lemma TranslateAt(msgs: seq<Message>, i: nat, msgId: string)
    requires i < |msgs|
    ensures msgs[i].parentMsgId != Some(msgId) ==> Translate(msgs[i..], msgId) == Translate(msgs[i + 1..], msgId)
    ensures msgs[i].parentMsgId == Some(msgId) && EndsRequest(msgs[i]) ==> Translate(msgs[i..], msgId) == []
    ensures msgs[i].parentMsgId == Some(msgId) && !EndsRequest(msgs[i]) ==>
      Translate(msgs[i..], msgId) == EventsOf(msgs[i]) + Translate(msgs[i + 1..], msgId)
  {
    assert msgs[i..][0] == msgs[i] && msgs[i..][1..] == msgs[i + 1..];
  }

  /** The receive loop of `execute_code_stream` over the delivered messages. */
  method ExecuteCodeStream(msgs: seq<Message>, msgId: string) returns (events: seq<Event>)
    ensures events == Translate(msgs, msgId)
  {
    events := [];
    var i := 0;
    while i < |msgs|
      invariant 0 <= i <= |msgs|
      invariant events + Translate(msgs[i..], msgId) == Translate(msgs, msgId)
    {
      var msg := msgs[i];
      TranslateAt(msgs, i, msgId);
      if msg.parentMsgId != Some(msgId) {
        i := i + 1;
        continue;
      }
      ghost var before := events;
      if msg.msgType == "stream" {
        events := events + [Html(ReplaceAll(msg.content.text, "\n", "<br/>"))];
      } else if msg.msgType == "error" {
        events := events + [Html("<pre>Error: " + msg.content.evalue + "</pre>")];
      } else if msg.msgType == "execute_result" || msg.msgType == "display_data" {
        events := events + RichEvents(msg.content.data);
      } else if msg.msgType == "status" {
        if msg.content.executionState == "idle" {
          assert events + Translate(msgs[i..], msgId) == events;
          break;
        }
      }
      assert events == before + EventsOf(msg);
      assert events + Translate(msgs[i + 1..], msgId) == before + (EventsOf(msg) + Translate(msgs[i + 1..], msgId));
      i := i + 1;
    }
    if i == |msgs| {
      assert msgs[i..] == [];
    }
  }

  /** A message answering another request produces nothing and does not end
      the stream, wherever it arrives. */
  lemma {:induction false} UnrelatedIgnored(before: seq<Message>, m: Message, after: seq<Message>, msgId: string)
    requires m.parentMsgId != Some(msgId)
    ensures Translate(before + [m] + after, msgId) == Translate(before + after, msgId)
    decreases |before|
  {
    if before == [] {
      assert before + [m] + after == [m] + after && before + after == after;
      assert ([m] + after)[0] == m && ([m] + after)[1..] == after;
    } else {
      UnrelatedIgnored(before[1..], m, after, msgId);
      assert (before + [m] + after)[1..] == before[1..] + [m] + after;
      assert (before + after)[1..] == before[1..] + after;
    }
  }

  /** Nothing arriving after the idle status of the request produces an
      event. */
  lemma {:induction false} NothingAfterIdle(before: seq<Message>, m: Message, after: seq<Message>, msgId: string)
    requires m.parentMsgId == Some(msgId) && EndsRequest(m)
    ensures Translate(before + [m] + after, msgId) == Translate(before + [m], msgId)
    decreases |before|
  {
    if before != [] {
      NothingAfterIdle(before[1..], m, after, msgId);
      assert (before + [m] + after)[1..] == before[1..] + [m] + after;
      assert (before + [m])[1..] == before[1..] + [m];
    }
  }

  /** A stream message yields one event whose text holds no newline, each
      newline having become `<br/>`; text without newlines is sent as it is. */
  lemma StreamEvent(m: Message)
    requires m.msgType == "stream"
    ensures |EventsOf(m)| == 1 && EventsOf(m)[0].msgType == "html"
    ensures '\n' !in EventsOf(m)[0].data
    ensures '\n' !in m.content.text ==> EventsOf(m)[0].data == m.content.text
  {
    ReplaceCharRemovesIt(m.content.text, '\n', "<br/>");
    if '\n' !in m.content.text {
      ReplaceAbsent(m.content.text, '\n', "<br/>");
    }
  }

  lemma {:induction false} ReplaceAbsent(s: string, c: char, rep: string)
    requires c !in s
    ensures ReplaceAll(s, [c], rep) == s
    decreases |s|
  {
    if s != [] {
      assert !([c] <= s) by { assert s[0] != c; }
      ReplaceAbsent(s[1..], c, rep);
      assert s == [s[0]] + s[1..];
    }
  }

  /** The stream rewrite turns each newline into `<br/>`, keeps every other
      character, and works piece by piece, so these three facts determine it
      on every text. */
  lemma StreamNewlines(a: string, b: string, x: char)
    ensures ReplaceAll(a + b, "\n", "<br/>") == ReplaceAll(a, "\n", "<br/>") + ReplaceAll(b, "\n", "<br/>")
    ensures ReplaceAll("\n", "\n", "<br/>") == "<br/>"
    ensures x != '\n' ==> ReplaceAll([x], "\n", "<br/>") == [x]
  {
    ReplaceCharAppend(a, b, '\n', "<br/>");
    ReplaceCharSingle('\n', '\n', "<br/>");
    ReplaceCharSingle(x, '\n', "<br/>");
  }

  /** Plain text comes first when it is sent at all. */
  lemma PlainTextFirst(data: map<string, string>)
    requires Truthy(data, "text/plain") && !Truthy(data, WidgetView)
    ensures RichEvents(data)[0] == Html("<pre>" + data["text/plain"] + "</pre>")
  {
  }
}
