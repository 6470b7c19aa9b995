# dupe-scanner core, modelled in Dafny

dupe-scanner indexes a folder of images into a similarity-search backend
(a Solr collection with pixolution's Flow module). It then asks the
backend for the near duplicates of every indexed image, draws the pairs
above a score threshold as a graph, and exports the graph's connected
components as groups of duplicate files. This project models the
sequential logic of that pipeline and proves what it promises:

- `Scan` (app/scan.py):
  - the scan-mode table;
  - the cursor-paginated listing of the collection's ids, with the backend as a function from cursor to page;
  - the score filter;
  - the graph update for one query, as a `Scanner` class whose graph is changed in place;
  - the numbering of the graph's connected components as `group-1 … group-k` in `save_json`.
- `Graphs`: the part of the pyvis `Network` that `detect` and `save_json` use, as a class with an insertion-ordered node list, a node map and a set of undirected edges.
- `Grouping`: the connected components, found by breadth-first search from each node not yet seen, in node order.
- `Flow` (app/flow.py):
  - the backend URL from its stripped parts;
  - `build_query`;
  - the `data:` URI of an uploaded image, whose payload is Base64 text.
- `Base64`: the encoding of section 4 of RFC 4648, and a decoder proved to invert it.
- `Index` (app/index.py):
  - `scan_folder` over a directory walk passed in as a function;
  - the `'%016x'` document id;
  - the "document limit" test on an upload error.
- `Text`: the Python string operations these use (`strip`, `rstrip`, `split('.')[-1]`, ASCII `lower`, `endswith`, substring `in`, `str` of a natural number, `s[:k]`).
- `Wrappers`: `Option` and `Result`.

The modelling choices that matter:

- Scores are `real`; only `>=` is applied to them.
- `ids` keeps the source's counting: `count` grows by the requested page size of 1000 per page, however many ids the page held.
- A finite collection is served in pages of 1000 rows sorted by id. A page with rows moves the cursor on. The page past the last row is empty and hands back the cursor it was given, which is the end signal `ids` tests for. Cursors are compared only for equality, so any distinct marks will do.
- The edge loop of `detect` can fail part way, and the failure is the `false` result of `Detect`. It fails at the first match with another id whose score is below 0.6, because `interpolate_color` then takes `max` of nothing and raises `ValueError` before `add_edge` runs. It also fails at the first such match when the query id is not a node, because pyvis refuses that edge. The edges added before the failure stay, and so do the nodes.
- Because of that second failure, `detect` calls do not commute in general. They do commute when each query id is among its own relevant matches.

## Model

| member | source | states |
|---|---|---|
| Scan.InitScanMode | app/scan.py:23-38 | `balanced` gives off up to 10 000 documents, low up to 100 000, medium up to 1 000 000, high above. `speed` always gives high. `approx` holds exactly above 100 000 in both profiles. Any other profile is the `ValueError` with its message. |
| Scan.BalancedFilterMonotone | app/scan.py:25-32 | In the balanced profile, a larger collection never gets a weaker filter. |
| Scan.Create | app/scan.py:16-21 | The constructor succeeds exactly when the profile is valid, and its mode is the table's entry for the collection size. Its graph is the empty `Network` that `scan` builds before the first `detect` (app/scan.py:140); `__init__` itself leaves `G` as `None`. |
| Scan.Collect | app/scan.py:44-54 | The paging loop from a cursor adds a positive multiple of 1000 to `count`. Past the first page, the final `count` is below `limit + 1000`. |
| Scan.Enumerated | app/scan.py:55 | The result is a prefix of the ids gathered: all of them when `count` did not pass `limit`, otherwise the first `limit` of them. |
| Scan.Scanner.Ids | app/scan.py:40-55 | The loop returns the page ids in fetch order, starting from cursor `*`. It stops on an unchanged cursor or when `count >= limit`, and cuts with Python's `ids[:limit]` only when `count > limit`. |
| Scan.PagesFetched | app/scan.py:44-54 | At most max(1, ⌈limit/1000⌉) pages are fetched, and `count` is 1000 per page. |
| Scan.CollectLength | app/scan.py:46-50 | When every page holds at most 1000 ids, the ids gathered are at most the growth of `count`. |
| Scan.EnumeratedWithinLimit | app/scan.py:55 | With pages of at most 1000 ids and a limit of at least 0, no more than `limit` ids are returned. |
| Scan.CollectFullLength | app/scan.py:46-50 | When every page holds exactly 1000 ids, the ids gathered are exactly the growth of `count`. |
| Scan.CollectReachesLimit | app/scan.py:51-53 | When no page repeats its cursor, the loop stops only once `count` has reached `limit`. |
| Scan.EnumeratedExact | app/scan.py:40-55 | For a backend whose every page is full and whose cursor never repeats, a limit of at least 0 gives exactly `limit` ids. |
| Scan.CollectServed | app/scan.py:46-54 | For a backend that serves a finite list of ids 1000 rows per page, the loop from page k on gathers the rows from k·1000 up to where it stopped. It stops once `count` reaches `limit` or after the empty page past the end, whose cursor comes back unchanged. |
| Scan.EnumeratedServed | app/scan.py:40-55 | Listing a finite collection with a limit of at least 0 gives its first `limit` ids, or all of them when there are no more. Each id comes back once and in order. A negative limit gives Python's `ids[:limit]` of the first page. |
| Scan.EveryCollectionServed | app/scan.py:43-52 | Every finite list of ids has a backend of that kind: the first cursor is `*`, and distinct pages have distinct cursors. |
| Scan.ZeroLimit | app/scan.py:46-55 | A limit of 0 fetches exactly one page and returns nothing. |
| Scan.RepeatedCursorStops | app/scan.py:51-53 | A backend that answers with the cursor it was given ends the listing after that page. |
| Scan.Relevant | app/scan.py:100-105 | The kept matches are at most as many as the input, and every one scores at least the threshold. Membership is stated by `RelevantMembership` and order by `RelevantAppend`. |
| Scan.Scanner.RemoveIrrelevantMatches | app/scan.py:100-105 | The loop returns exactly the matches with `score >= threshold`, in their original order. |
| Scan.RelevantMembership | app/scan.py:103 | A match is kept if and only if it is in the input and scores at least the threshold, a score equal to the threshold included. |
| Scan.RelevantAppend | app/scan.py:102-104 | Filtering a concatenation gives the concatenation of the filtered parts, so order is kept. |
| Scan.RelevantIdempotent | app/scan.py:100-105 | Filtering twice gives what filtering once gave. |
| Scan.GetLabel | app/scan.py:72-77 | The label is the file name when the match has one, and the id otherwise. |
| Scan.AddNodesKeys | app/scan.py:64-65 | Adding the matches as nodes adds exactly their ids, and nodes already present keep their data. |
| Scan.AddNodesFirstWins | app/scan.py:64-77 | A new node gets the label of the first match with its id: the file name when there is one, the id otherwise. Its title is that match's image. |
| Scan.AppendNew | app/scan.py:64-65 | The node order after the update starts with the old order, and holds exactly the old nodes and the matches' ids. |
| Scan.NewEdgesNoSelfLoop | app/scan.py:67-70 | Every edge `detect` adds joins the query id to a different id, so there is never a self-edge. |
| Scan.Scanner.AddMatchNodes | app/scan.py:63-65 | The first loop of `detect` leaves the edges alone. The nodes become `AddNodes` of the matches, and each new id goes last in the order. |
| Scan.ColoredRun | app/scan.py:149-163 | The number of leading matches before the first one with another id and a score below 0.6, the first whose colour `interpolate_color` cannot find. |
| Scan.ColoredRunAboveThreshold | app/scan.py:103 | With a threshold of at least 0.6, no relevant match stops the edge loop. |
| Scan.Scanner.ConnectMatch | app/scan.py:69-70 | One turn of the edge loop. The query itself adds nothing. Another match fails, adding nothing, when its score is below 0.6 or the query id is no node. Otherwise it adds the edge from the query id to the match. |
| Scan.Scanner.ConnectMatches | app/scan.py:66-70 | The second loop of `detect` keeps the nodes. It succeeds exactly when every match is the query itself, or the query id is a node and the score is at least 0.6. The edges added are those to the matches before the first failure, or none when the query id is no node. |
| Scan.Scanner.Detect | app/scan.py:57-70 | With fewer than two relevant matches the graph is unchanged. Otherwise the new nodes and their order are those of the relevant matches. The new edges are `{id, d.id}` for the relevant `d` with another id before the first score below 0.6, or none when the query id is no node. `ok` says whether the loop got through. Nothing else changes, and the effect on node ids and edges is `AfterDetect`. |
| Scan.DetectCommutes | app/scan.py:57-70 | Two `detect` calls whose query ids are among their own relevant matches leave the same node ids and edges in either order. |
| Scan.DetectOrderMatters | app/scan.py:57-70 | When a query id is not among its own matches, the order of two `detect` calls changes the edges: `q` first gets no edge, `q` after a query that added it gets its edges. |
| Scan.Scanner.SaveJson | app/scan.py:204-222 | The graph is cut into its connected components in node order. The keys are exactly `group-1 … group-k`, and group k lists the titles of the k-th component's nodes. |
| Grouping.Component | app/scan.py:213 | The breadth-first search from a node returns its connected component: the node, everything reachable from it, and nothing an edge leaves. |
| Grouping.ConnectedComponents | app/scan.py:213-220 | The components are listed in the order of their first node. Each node lies in exactly one of them. |
| Grouping.SearchNode | app/scan.py:213-220 | One turn of the search. A node already seen leaves the components and the seen set unchanged. A node not seen yet appends its component, which is marked seen, and keeps the earlier components. Either way the search invariant holds one node further. |
| Grouping.ComponentComplete | app/scan.py:213 | A component holds everything reachable from its root. |
| Grouping.ClosedReach | app/scan.py:213 | A set that no edge leaves holds both ends of a connection or neither. |
| Grouping.IsolatedSingleton | app/scan.py:207-213 | A node without edges forms a group of its own. |
| Grouping.NoEdgeBetweenGroups | app/scan.py:209-213 | Both ends of an edge lie in the same group. |
| Grouping.ComponentsWithin | app/scan.py:206-213 | Every group is made of graph nodes. |
| Grouping.GroupKeyShape | app/scan.py:220 | `f"group-{k}"` is `group-` followed by decimal digits that read back as `k`. |
| Grouping.GroupKeyInjective | app/scan.py:220 | `f"group-{k}"` gives different keys for different k. |
| Grouping.GroupKeysMembership | app/scan.py:214-222 | The k-th key is among the first n keys exactly when 1 ≤ k ≤ n, so the keys have no gaps. |
| Grouping.FilePaths | app/scan.py:217-219 | The inner loop lists the title of every node of the component, each node once. |
| Grouping.NameGroups | app/scan.py:213-222 | The counter loop maps `group-k` to the titles of the k-th component, for k from 1 to the number of components, and to nothing else. |
| Graphs.Graph.AddNode | app/scan.py:65 | A new id gets its data and goes last in the node order. An id already present keeps its data, as in pyvis. |
| Graphs.Graph.AddEdge | app/scan.py:70 | The edge is added if and only if both ends are nodes; otherwise nothing changes. |
| Flow.NewFlowServer | app/flow.py:8-14 | Each part is its input with the leading and trailing `/` cut off: a contiguous piece that neither starts nor ends with `/`. The URL joins the parts with `/`. |
| Flow.NewFlowServerIdempotent | app/flow.py:10-12 | Building a server from the parts of a built one changes nothing. |
| Flow.UrlOfPlainParts | app/flow.py:10-14 | Parts without a leading or trailing `/` are kept whole, interior `//` included, and the URL is `host/context_path/collection`. |
| Flow.DefaultUrl | app/flow.py:8-14 | The defaults give `http://localhost:8983/api/cores/my-collection`. |
| Flow.BuildQuery | app/flow.py:29-30 | The query is the URL, `/`, the endpoint, `?` and the parameters, each at its position. |
| Flow.BuildQueryInjective | app/flow.py:29-30 | For endpoints without `?`, equal queries have equal endpoints and parameters. |
| Flow.DataUri | app/flow.py:68-71 | The URI is `data:image/`, then the extension, then `;base64,`, then exactly the Base64 encoding of the PNG bytes. That text decodes back to the bytes. |
| Text.AfterLast | app/flow.py:69 | `split('.')[-1]` is the suffix after the last `.`, holds no `.`, and is the whole path when there is no `.`. |
| Text.Strip | app/flow.py:10-12 | `strip('/')` leaves a contiguous piece of the input with only `/` cut from both ends, neither starting nor ending with `/`. |
| Text.StrippedFromUnique | app/flow.py:10-12 | Only one string satisfies that description, so it pins `strip` down. |
| Text.StripIdempotent | app/flow.py:10-12 | Stripping twice gives what stripping once gave. |
| Text.TrimRight | app/index.py:45 | `rstrip` keeps a prefix of the input that does not end with the character, and cuts only that character. |
| Text.ToLower | app/index.py:52 | The result has the input's length and no ASCII capital. Each character is unchanged or is a capital moved down to its small letter. |
| Text.EndsWithAny | app/index.py:52 | `endswith` with a tuple holds exactly when the string ends with one of the suffixes. |
| Text.NatToDecimal | app/scan.py:220 | `str(k)` is a non-empty string of decimal digits with no leading zero, except for `0` itself. |
| Text.SliceTo | app/scan.py:55 | `s[:k]` is a prefix of `s`: its first `k` elements for `k >= 0`, all but the last `-k` for negative `k`, and never more than all of `s`. |
| Text.Contains | app/index.py:94 | `sub in s` holds exactly when `sub` occurs at some position of `s`. |
| Base64.Encode | app/flow.py:68 | The text comes in whole groups of four characters, and is empty exactly for no bytes. |
| Base64.EncodeAlphabet | app/flow.py:68 | The text is made of alphabet characters, with `=` padding only in the last two places. |
| Base64.EncodeLength | app/flow.py:68 | The encoding takes 4 characters per started group of 3 bytes. |
| Base64.DecodeEncode | app/flow.py:68 | Decoding the encoding gives the bytes back. |
| Index.NormalizeRoot | app/index.py:44-45 | A root longer than one character loses all its trailing separators. A shorter one is kept as it is. |
| Index.RootRun | app/index.py:46-49 | The non-recursive walk covers the entries before the first one whose root is not the root dir. |
| Index.Capped | app/index.py:51-59 | The result is the first 5000 paths, or all of them when there are fewer. |
| Index.ScanFolder | app/index.py:40-59 | The loop returns the first `MAX_DOCS` paths `root + sep + fname` of the supported files of the visited directories, in walk order, and never more than 5000. |
| Index.ScanFiles | app/index.py:51-58 | The inner loop appends one directory's supported paths in order. It stops only when a supported file arrives with the list already full, since the cap is checked before the count goes up. |
| Index.MatchesShape | app/index.py:51-58 | Every listed path is `root + sep + fname` for a file of a visited directory whose lower-cased name ends with a supported extension. |
| Index.MatchesComplete | app/index.py:51-58 | Every supported file of a visited directory is listed, before the cap applies. |
| Index.NonRecursiveStaysInRoot | app/index.py:46-49 | Without recursion, only directories whose root equals the stripped root dir are visited. |
| Index.Hex | app/index.py:38 | `'%0wx' % n`, for an `n` below 16^w, gives exactly `w` lower-case hex digits. Python gives more digits for a larger `n`; `generate_id` never passes one. |
| Index.HexRoundTrip | app/index.py:38 | A value below 16^w written with `w` digits parses back to itself. |
| Index.FormatId | app/index.py:36-38 | An id is exactly 16 lower-case hex digits for any 64-bit value. |
| Index.FormatIdRoundTrip | app/index.py:36-38 | The id parses back to the bits it came from. |
| Index.FormatIdInjective | app/index.py:36-38 | Different bits give different ids. |
| Index.IsDocumentLimit | app/index.py:94 | The abort test holds exactly when the lower-cased message contains `document limit` at some position. |
| Index.DocumentLimitAnywhere | app/index.py:94 | The phrase in any letter case, with any text around it, is recognised. |
| Index.DocumentLimitIgnoresCase | app/index.py:94 | Lower-casing the message first changes nothing. |

## Left out

- HTTP: every backend request is left out. That covers `ping`, `status`, `num_docs`, `commit`, `analyze`, `clear_collection`, `add_doc`, and the requests inside `ids` and `detect`. The backend is a function argument (the page for a cursor), or its answer is an argument (the collection size, the matches of a query).
- `scan`, `parallel`, `index` and `close_threadpool`: the thread pools and progress bars are left out. `Detect` is the sequential update for one query. The abort path after the document-limit test is not modelled; only the test is.
- `KeyboardInterrupt` and `exit()` paths are left out.
- Image work is left out: PIL decoding, thumbnailing and PNG encoding, `img_to_data_uri` in app/scan.py, and `embed_img`. The PNG bytes are an input of `Flow.DataUri`.
- The edge's width, title and colour string (`score*10`, `round`, and the colour `interpolate_color` blends) are left out, and the graph keeps only the edge's two ends. The `ValueError` that `interpolate_color` raises for a score below 0.6 is modelled, by `Scan.ColoredRun` and the `false` result of `Detect`.
- pyvis rendering and options, `show`/`write_html`, and the JSON file write in `save_json` are left out. `SaveJson` returns the dictionary that would be written.
- `random.getrandbits`, `os.walk`, `os.path.abspath` and `Image.registered_extensions` are parameters. `get_parent_folder_name` depends on `os.path.normpath` and is not modelled.
- Grouping.ConnectedComponents: networkx is not modelled. The order of the members inside a group is left open, as networkx returns each component as a set, so `ListsTitles` says only that each node's title appears once.
- Text.ToLower: only ASCII letters are lower-cased. Python's Unicode case mapping is not modelled.
- scanner.py (the command-line front end) is not part of this model.
- Groups of one are not filtered out: `save_json` groups every node of the graph, isolated ones included. A node added by a `detect` whose edge loop failed can have no edge, and then becomes a group of one, as `Grouping.IsolatedSingleton` states.
- The node data of a match id that two `detect` calls both add is the first call's, so it depends on their order. `Scan.DetectCommutes` states commutation for node ids and edges only.
