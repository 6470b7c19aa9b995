/**
 * app/scan.py: the `Scanner` that enumerates a collection page by page,
 * asks the backend for the near duplicates of each document, and records
 * the relevant ones in a similarity graph. The backend is a parameter: a
 * function from a cursor to a page of ids, and the list of scored matches
 * a query returned.
 */
module Scan {
  import opened Wrappers
  import opened Text
  import opened Graphs
  import opened Grouping

  /** Strength of the backend's smart filter (`rank.smartfilter`). */
  datatype Filter = Off | Low | Medium | High {
    function Strength(): nat
    {
      match this
      case Off => 0
      case Low => 1
      case Medium => 2
      case High => 3
    }
  }

  /** Whether the backend may search approximately, and how hard it filters. */
  datatype ScanMode = ScanMode(approx: bool, filter: Filter)

  const ScanModeError: string := "scan_mode must be 'balanced' or 'speed'."

  /**
   * `init_scan_mode`: the profile and the number of documents in the
   * collection choose the scan mode; any profile other than `balanced` and
   * `speed` is a `ValueError`.
   */
  function InitScanMode(scanMode: string, num: int): (r: Result<ScanMode, string>)
    ensures r.Success? <==> scanMode == "balanced" || scanMode == "speed"
    ensures r.Failure? ==> r.error == ScanModeError
    ensures r.Success? ==> (r.value.approx <==> num > 100_000)
    ensures scanMode == "speed" ==> r.Success? && r.value.filter == High
    ensures scanMode == "balanced" ==>
      && r.Success?
      && (r.value.filter == Off <==> num <= 10_000)
      && (r.value.filter == Low <==> 10_000 < num <= 100_000)
      && (r.value.filter == Medium <==> 100_000 < num <= 1_000_000)
      && (r.value.filter == High <==> 1_000_000 < num)
  {
    if scanMode == "balanced" then
      if num <= 10_000 then Success(ScanMode(false, Off))
      else if num <= 100_000 then Success(ScanMode(false, Low))
      else if num <= 1_000_000 then Success(ScanMode(true, Medium))
      else Success(ScanMode(true, High))
    else if scanMode == "speed" then
      if num <= 100_000 then Success(ScanMode(false, High)) else Success(ScanMode(true, High))
    else Failure(ScanModeError)
  }

  /** In the balanced profile a larger collection never gets a weaker filter. */
  lemma BalancedFilterMonotone(n: int, m: int)
    requires n <= m
    ensures InitScanMode("balanced", n).value.filter.Strength()
         <= InitScanMode("balanced", m).value.filter.Strength()
  {
  }

  // ---------------------------------------------------------------------
  // Enumerating the collection

  /** Rows asked for per page; `count` grows by this much per page, however many ids came back. */
  const PageSize: nat := 1000

  const FirstCursor: string := "*"

  /** One page of the listing: its ids and the `nextCursorMark` the backend sent with them. */
  datatype Page = Page(ids: seq<string>, nextCursorMark: string)

  /** The ids gathered and the final value of `count`. */
  datatype Enumeration = Enumeration(ids: seq<string>, count: int)

  /**
   * The pages read from `cursor` on, with `count` counted so far: the loop
   * stops after a page whose next cursor is the one just used, or once
   * `count` reaches `limit`.
   */
  function Collect(fetch: string -> Page, cursor: string, count: int, limit: int): (e: Enumeration)
    ensures e.count >= count + PageSize && (e.count - count) % PageSize == 0
    ensures e.count == count + PageSize || e.count < limit + PageSize
    decreases limit - count
  {
    var page := fetch(cursor);
    if cursor == page.nextCursorMark || count + PageSize >= limit then
      Enumeration(page.ids, count + PageSize)
    else
      var rest := Collect(fetch, page.nextCursorMark, count + PageSize, limit);
      Enumeration(page.ids + rest.ids, rest.count)
  }

  /** What `ids(limit)` returns: every page from cursor `*`, cut to `limit` only when `count` overshot it. */
  function Enumerated(fetch: string -> Page, limit: int): (r: seq<string>)
    ensures var e := Collect(fetch, FirstCursor, 0, limit);
      && |r| <= |e.ids| && r == e.ids[..|r|]
      && (e.count <= limit ==> r == e.ids)
      && (0 <= limit < e.count ==> |r| == if limit < |e.ids| then limit else |e.ids|)
  {
    var e := Collect(fetch, FirstCursor, 0, limit);
    if e.count <= limit then e.ids else SliceTo(e.ids, limit)
  }

  /**
   * At most max(1, ceil(limit / 1000)) pages are read: `count` is 1000 per
   * page, and it is below `limit` before every page but the first.
   */
  lemma PagesFetched(fetch: string -> Page, limit: int)
    ensures var count := Collect(fetch, FirstCursor, 0, limit).count;
      && count % PageSize == 0 && count >= PageSize
      && (count == PageSize || count / PageSize <= (limit + PageSize - 1) / PageSize)
  {
    var count := Collect(fetch, FirstCursor, 0, limit).count;
    if count != PageSize {
      assert count < limit + PageSize;
      assert count / PageSize * PageSize == count;
    }
  }

  /** With pages of at most 1000 ids, the ids gathered are at most the pages' count. */
  lemma {:induction false} CollectLength(fetch: string -> Page, cursor: string, count: int, limit: int)
    requires forall c :: |fetch(c).ids| <= PageSize
    ensures |Collect(fetch, cursor, count, limit).ids| <= Collect(fetch, cursor, count, limit).count - count
    decreases limit - count
  {
    var page := fetch(cursor);
    if !(cursor == page.nextCursorMark || count + PageSize >= limit) {
      CollectLength(fetch, page.nextCursorMark, count + PageSize, limit);
    }
  }

  /** When no page holds more than the 1000 rows asked for, no more than `limit` ids come back. */
  lemma EnumeratedWithinLimit(fetch: string -> Page, limit: int)
    requires 0 <= limit
    requires forall c :: |fetch(c).ids| <= PageSize
    ensures |Enumerated(fetch, limit)| <= limit
  {
    CollectLength(fetch, FirstCursor, 0, limit);
  }

  /** When every page is full, the ids gathered are exactly as many as `count` grew. */
  lemma {:induction false} CollectFullLength(fetch: string -> Page, cursor: string, count: int, limit: int)
    requires forall c :: |fetch(c).ids| == PageSize
    ensures |Collect(fetch, cursor, count, limit).ids| == Collect(fetch, cursor, count, limit).count - count
    decreases limit - count
  {
    var page := fetch(cursor);
    if !(cursor == page.nextCursorMark || count + PageSize >= limit) {
      CollectFullLength(fetch, page.nextCursorMark, count + PageSize, limit);
    }
  }

  /** When no page repeats its cursor, the loop only stops once `count` has reached `limit`. */
  lemma {:induction false} CollectReachesLimit(fetch: string -> Page, cursor: string, count: int, limit: int)
    requires forall c :: fetch(c).nextCursorMark != c
    ensures Collect(fetch, cursor, count, limit).count >= limit
    decreases limit - count
  {
    var page := fetch(cursor);
    if count + PageSize < limit {
      CollectReachesLimit(fetch, page.nextCursorMark, count + PageSize, limit);
    }
  }

  /**
   * A backend whose every page is full and whose cursor never repeats gives
   * exactly `limit` ids. Such a backend never ends; `EnumeratedServed` is the
   * same fact for a finite collection.
   */
  lemma EnumeratedExact(fetch: string -> Page, limit: int)
    requires 0 <= limit
    requires forall c :: |fetch(c).ids| == PageSize
    requires forall c :: fetch(c).nextCursorMark != c
    ensures |Enumerated(fetch, limit)| == limit
  {
    CollectFullLength(fetch, FirstCursor, 0, limit);
    CollectReachesLimit(fetch, FirstCursor, 0, limit);
  }

  function Min(a: int, b: int): int
  {
    if a < b then a else b
  }

  /**
   * The page a backend holding the ids `all`, sorted by id, serves at its
   * k-th cursor mark: rows k*1000 up to 1000 further. A page with rows moves
   * the mark on; past the last row the page is empty and the mark comes back
   * unchanged, which is how a cursor listing signals its end.
   */
  function ServedPage(all: seq<string>, marks: nat -> string, k: nat): Page
  {
    var lo, hi := Min(k * PageSize, |all|), Min(k * PageSize + PageSize, |all|);
    Page(all[lo..hi], if k * PageSize < |all| then marks(k + 1) else marks(k))
  }

  /** `fetch` serves `all` page by page, starting from `*` and using distinct marks. */
  ghost predicate Serves(fetch: string -> Page, all: seq<string>, marks: nat -> string)
  {
    && marks(0) == FirstCursor
    && (forall j: nat, k: nat :: MarksDiffer(marks, j, k))
    && (forall k: nat :: ServesPage(fetch, all, marks, k))
  }

  /** Different positions have different marks. */
  ghost predicate MarksDiffer(marks: nat -> string, j: nat, k: nat)
  {
    j != k ==> marks(j) != marks(k)
  }

  /** The k-th mark fetches the k-th page. */
  ghost predicate ServesPage(fetch: string -> Page, all: seq<string>, marks: nat -> string, k: nat)
  {
    fetch(marks(k)) == ServedPage(all, marks, k)
  }

  /** The page at the k-th mark, and whether its mark moves on. */
  lemma ServedAt(fetch: string -> Page, all: seq<string>, marks: nat -> string, k: nat)
    requires Serves(fetch, all, marks)
    ensures fetch(marks(k)).ids == all[Min(k * PageSize, |all|)..Min(k * PageSize + PageSize, |all|)]
    ensures k * PageSize < |all| ==> fetch(marks(k)).nextCursorMark == marks(k + 1) != marks(k)
    ensures k * PageSize >= |all| ==> fetch(marks(k)).nextCursorMark == marks(k)
  {
    assert ServesPage(fetch, all, marks, k);
    assert MarksDiffer(marks, k + 1, k);
  }

  /** Marks for a backend of this model: the k-th mark is k + 1 stars, so the first is `*`. */
  function StarMarks(): nat -> string
  {
    (k: nat) => seq(k + 1, i => '*')
  }

  /** A backend serving `all` at the marks `StarMarks`. */
  function StarFetch(all: seq<string>): string -> Page
  {
    c => ServedPage(all, StarMarks(), if |c| == 0 then 0 else |c| - 1)
  }

  /** Every finite collection has a backend that serves it. */
  lemma EveryCollectionServed(all: seq<string>)
    ensures Serves(StarFetch(all), all, StarMarks())
  {
    var marks := StarMarks();
    assert marks(0) == FirstCursor;
    forall j: nat, k: nat
      ensures MarksDiffer(marks, j, k)
    {
      assert |marks(j)| == j + 1 && |marks(k)| == k + 1;
    }
    forall k: nat
      ensures ServesPage(StarFetch(all), all, marks, k)
    {
      assert |marks(k)| == k + 1;
    }
  }

  /** What the listing of a finite backend gathers from the k-th mark on: the rows from k*1000 to where it stopped. */
  ghost predicate GathersFrom(all: seq<string>, k: nat, limit: int, e: Enumeration)
  {
    && k * PageSize <= e.count
    && e.ids == all[Min(k * PageSize, |all|)..Min(e.count, |all|)]
    && (e.count >= limit || e.count > |all|)
  }

  /** The listing of a finite backend gathers the rows from the k-th page on. */
  lemma {:induction false} CollectServed(fetch: string -> Page, all: seq<string>, marks: nat -> string, k: nat, limit: int)
    requires Serves(fetch, all, marks)
    ensures GathersFrom(all, k, limit, Collect(fetch, marks(k), k * PageSize, limit))
    decreases limit - k * PageSize
  {
    var count := k * PageSize;
    assert (k + 1) * PageSize == count + PageSize;
    ServedAt(fetch, all, marks, k);
    var page := fetch(marks(k));
    if marks(k) == page.nextCursorMark || count + PageSize >= limit {
      assert Collect(fetch, marks(k), count, limit) == Enumeration(page.ids, count + PageSize);
    } else {
      CollectServed(fetch, all, marks, k + 1, limit);
      GathersStep(all, k, limit, page.ids, Collect(fetch, marks(k + 1), count + PageSize, limit));
    }
  }

  /** A page of rows in front of what the following pages gather. */
  lemma GathersStep(all: seq<string>, k: nat, limit: int, ids: seq<string>, rest: Enumeration)
    requires ids == all[Min(k * PageSize, |all|)..Min(k * PageSize + PageSize, |all|)]
    requires GathersFrom(all, k + 1, limit, rest)
    ensures GathersFrom(all, k, limit, Enumeration(ids + rest.ids, rest.count))
  {
    var count := k * PageSize;
    assert (k + 1) * PageSize == count + PageSize;
    var lo, mid, hi := Min(count, |all|), Min(count + PageSize, |all|), Min(rest.count, |all|);
    assert all[lo..mid] + all[mid..hi] == all[lo..hi];
  }

  /**
   * Listing a finite collection of ids gives its first `limit` ids, or all
   * of them when there are no more than `limit`; each id comes back once
   * and in order. A negative `limit` is a Python slice of the first page.
   */
  lemma EnumeratedServed(fetch: string -> Page, all: seq<string>, marks: nat -> string, limit: int)
    requires Serves(fetch, all, marks)
    ensures 0 <= limit ==> Enumerated(fetch, limit) == all[..Min(limit, |all|)]
    ensures limit < 0 ==> Enumerated(fetch, limit) == SliceTo(all[..Min(PageSize, |all|)], limit)
  {
    CollectServed(fetch, all, marks, 0, limit);
    var e := Collect(fetch, FirstCursor, 0, limit);
    if 0 <= limit && limit < e.count {
      assert e.ids[..Min(limit, |e.ids|)] == all[..Min(limit, |all|)];
    }
  }

  /** A limit of 0 still reads one page, and returns nothing. */
  lemma ZeroLimit(fetch: string -> Page)
    ensures Collect(fetch, FirstCursor, 0, 0).count == PageSize
    ensures Enumerated(fetch, 0) == []
  {
  }

  /** A backend that answers with the cursor it was given ends the listing after that page. */
  lemma RepeatedCursorStops(fetch: string -> Page, cursor: string, count: int, limit: int)
    requires fetch(cursor).nextCursorMark == cursor
    ensures Collect(fetch, cursor, count, limit) == Enumeration(fetch(cursor).ids, count + PageSize)
  {
  }

  // ---------------------------------------------------------------------
  // Matches and the similarity graph

  /** One scored candidate of a duplicate query: its id, score, optional file name and image reference. */
  datatype Match = Match(id: string, score: real, filename: Option<string>, image: string)

  /** A match on its own, or nothing when it scores below `threshold`. */
  function Keep(d: Match, threshold: real): seq<Match>
  {
    if d.score >= threshold then [d] else []
  }

  /** The matches scoring at least `threshold`, in their order. */
  function Relevant(docs: seq<Match>, threshold: real): (r: seq<Match>)
    ensures |r| <= |docs|
    ensures forall i :: 0 <= i < |r| ==> r[i].score >= threshold
    decreases |docs|
  {
    if docs == [] then []
    else
      Relevant(docs[..|docs| - 1], threshold) + Keep(docs[|docs| - 1], threshold)
  }

  /** A match is kept exactly when it scores at least the threshold; a score equal to it is kept. */
  lemma {:induction false} RelevantMembership(docs: seq<Match>, threshold: real, d: Match)
    ensures d in Relevant(docs, threshold) <==> d in docs && d.score >= threshold
    decreases |docs|
  {
    if docs != [] {
      RelevantMembership(docs[..|docs| - 1], threshold, d);
      assert docs == docs[..|docs| - 1] + [docs[|docs| - 1]];
    }
  }

  /** Filtering keeps order: the filter of a concatenation is the concatenation of the filters. */
  lemma {:induction false} RelevantAppend(a: seq<Match>, b: seq<Match>, threshold: real)
    ensures Relevant(a + b, threshold) == Relevant(a, threshold) + Relevant(b, threshold)
    decreases |b|
  {
    if b == [] {
      assert a + b == a;
    } else {
      var init, last := b[..|b| - 1], b[|b| - 1];
      RelevantAppend(a, init, threshold);
      assert (a + b)[..|a + b| - 1] == a + init;
      assert (a + b)[|a + b| - 1] == last;
      assert Relevant(a + b, threshold) == Relevant(a + init, threshold) + Keep(last, threshold);
      AppendAssoc(Relevant(a, threshold), Relevant(init, threshold), Keep(last, threshold));
    }
  }

  /** Filtering twice keeps what filtering once kept. */
  lemma {:induction false} RelevantIdempotent(docs: seq<Match>, threshold: real)
    ensures Relevant(Relevant(docs, threshold), threshold) == Relevant(docs, threshold)
    decreases |docs|
  {
    if docs != [] {
      var init, last := docs[..|docs| - 1], docs[|docs| - 1];
      RelevantIdempotent(init, threshold);
      var tail := Keep(last, threshold);
      RelevantAppend(Relevant(init, threshold), tail, threshold);
      if last.score >= threshold {
        assert [last][..0] == [];
      }
    }
  }

  /** `get_label`: the file name when the backend sent one, the id otherwise. */
  function GetLabel(d: Match): (shown: string)
    ensures d.filename.Some? ==> shown == d.filename.value
    ensures d.filename.None? ==> shown == d.id
  {
    if d.filename.Some? then d.filename.value else d.id
  }

  /** The node `detect` adds for a match: its label, and its image as title. */
  function NodeOf(d: Match): NodeInfo
  {
    NodeInfo(GetLabel(d), d.image)
  }

  /** The set of ids of some matches. */
  function IdsOf(ds: seq<Match>): set<string>
  {
    set d | d in ds :: d.id
  }

  /** The node map after adding the matches in order, each id keeping the first data it got. */
  function AddNodes(nodes: map<string, NodeInfo>, ds: seq<Match>): map<string, NodeInfo>
    decreases |ds|
  {
    if ds == [] then nodes
    else
      var m, last := AddNodes(nodes, ds[..|ds| - 1]), ds[|ds| - 1];
      if last.id in m then m else m[last.id := NodeOf(last)]
  }

  /** Adding nodes adds exactly the matches' ids and leaves existing nodes as they were. */
  lemma {:induction false} AddNodesKeys(nodes: map<string, NodeInfo>, ds: seq<Match>)
    ensures AddNodes(nodes, ds).Keys == nodes.Keys + IdsOf(ds)
    ensures forall k :: k in nodes ==> AddNodes(nodes, ds)[k] == nodes[k]
    decreases |ds|
  {
    if ds != [] {
      AddNodesKeys(nodes, ds[..|ds| - 1]);
      assert ds == ds[..|ds| - 1] + [ds[|ds| - 1]];
      assert IdsOf(ds) == IdsOf(ds[..|ds| - 1]) + {ds[|ds| - 1].id};
    }
  }

  /** A new node carries the label and image of the first match with its id. */
  lemma {:induction false} AddNodesFirstWins(nodes: map<string, NodeInfo>, ds: seq<Match>, i: nat)
    requires i < |ds| && ds[i].id !in nodes
    requires forall j :: 0 <= j < i ==> ds[j].id != ds[i].id
    ensures ds[i].id in AddNodes(nodes, ds) && AddNodes(nodes, ds)[ds[i].id] == NodeOf(ds[i])
    decreases |ds|
  {
    var init := ds[..|ds| - 1];
    AddNodesKeys(nodes, init);
    if i < |ds| - 1 {
      AddNodesFirstWins(nodes, init, i);
    } else {
      assert ds[i].id !in IdsOf(init);
    }
  }

  /** The node order after adding the matches: each id not present yet goes last, at its first appearance. */
  function AppendNew(order: seq<string>, ds: seq<Match>): (r: seq<string>)
    ensures |order| <= |r| && r[..|order|] == order
    ensures forall x :: x in r <==> x in order || x in IdsOf(ds)
    decreases |ds|
  {
    if ds == [] then order
    else
      var o, id := AppendNew(order, ds[..|ds| - 1]), ds[|ds| - 1].id;
      assert IdsOf(ds) == IdsOf(ds[..|ds| - 1]) + {id} by {
        assert ds == ds[..|ds| - 1] + [ds[|ds| - 1]];
      }
      if id in o then o else o + [id]
  }

  /** The edges `detect` adds: from the query id to every relevant match with another id. */
  function NewEdges(id: string, ds: seq<Match>): set<Edge>
  {
    set d | d in ds && d.id != id :: {id, d.id}
  }

  /** One more match adds at most its own edge. */
  lemma NewEdgesSnoc(id: string, ds: seq<Match>, d: Match)
    ensures NewEdges(id, ds + [d]) == NewEdges(id, ds) + (if d.id != id then {{id, d.id}} else {})
  {
    assert forall x :: x in ds + [d] <==> x in ds || x == d;
  }

  /** None of the new edges is a self-loop: each joins two different ids. */
  lemma NewEdgesNoSelfLoop(id: string, ds: seq<Match>, e: Edge)
    requires e in NewEdges(id, ds)
    ensures |e| == 2 && id in e
  {
    var d :| d in ds && d.id != id && e == {id, d.id};
  }

  /**
   * The lowest key of the colour map of `interpolate_color`. For a lower
   * score no key is at most the score, so `max` of an empty sequence raises
   * `ValueError`; the edge's arguments are built before `add_edge` runs, so
   * that edge is never added and `detect` stops there.
   */
  const LowestColorScore: real := 0.6

  /**
   * How far the edge loop of `detect` gets before a colour fails: the number
   * of leading matches before the first one with another id whose score is
   * below the lowest colour.
   */
  function ColoredRun(id: string, ds: seq<Match>): (n: nat)
    ensures n <= |ds|
    ensures forall j :: 0 <= j < n ==> ds[j].id == id || ds[j].score >= LowestColorScore
    ensures n < |ds| ==> ds[n].id != id && ds[n].score < LowestColorScore
    decreases |ds|
  {
    if ds == [] || (ds[0].id != id && ds[0].score < LowestColorScore) then 0
    else 1 + ColoredRun(id, ds[1..])
  }

  /** Whether the edge loop of `detect` gets past match `d`: it is the query itself, or the query id is a node and the score has a colour. */
  predicate EdgeLoopPasses(id: string, idIsNode: bool, d: Match)
  {
    d.id == id || (idIsNode && d.score >= LowestColorScore)
  }

  /**
   * Where the edge loop stops: when every match before `i` passes and the
   * one at `i` (if any) does not, the loop passes all the matches exactly
   * when `i` is the end, and while the query id is a node `i` is the colour run.
   */
  lemma ColoredRunStops(id: string, ds: seq<Match>, i: nat, idIsNode: bool)
    requires i <= |ds|
    requires forall j :: 0 <= j < i ==> EdgeLoopPasses(id, idIsNode, ds[j])
    requires i < |ds| ==> !EdgeLoopPasses(id, idIsNode, ds[i])
    ensures (forall d :: d in ds ==> EdgeLoopPasses(id, idIsNode, d)) <==> i == |ds|
    ensures idIsNode ==> ColoredRun(id, ds) == i
    ensures !idIsNode ==> NewEdges(id, ds[..i]) == {}
  {
    if i < |ds| {
      assert ds[i] in ds;
    }
    if !idIsNode {
      forall d | d in ds[..i]
        ensures d.id == id
      {
        var j :| 0 <= j < i && ds[j] == d;
      }
    }
  }

  /** With a threshold of at least the lowest colour, no relevant match makes the edge loop fail. */
  lemma ColoredRunAboveThreshold(id: string, dups: seq<Match>, threshold: real)
    requires threshold >= LowestColorScore
    ensures ColoredRun(id, Relevant(dups, threshold)) == |Relevant(dups, threshold)|
  {
  }

  /** The node ids and the edges of a graph, the part of it that grouping looks at. */
  datatype Skeleton = Skeleton(ids: set<string>, edges: set<Edge>)

  /**
   * The node ids and edges after `detect` with relevant matches `r`: the
   * matches' ids are added, and when the query id is a node by then, the
   * edges to the matches before the first colour failure.
   */
  function AfterDetect(g: Skeleton, id: string, r: seq<Match>): Skeleton
  {
    if |r| < 2 then g
    else
      var ids := g.ids + IdsOf(r);
      Skeleton(ids, if id in ids then g.edges + NewEdges(id, r[..ColoredRun(id, r)]) else g.edges)
  }

  /**
   * Two `detect` calls whose query ids are among their own relevant matches
   * leave the same node ids and edges in either order.
   */
  lemma DetectCommutes(g: Skeleton, id1: string, r1: seq<Match>, id2: string, r2: seq<Match>)
    requires id1 in IdsOf(r1) && id2 in IdsOf(r2)
    ensures AfterDetect(AfterDetect(g, id1, r1), id2, r2) == AfterDetect(AfterDetect(g, id2, r2), id1, r1)
  {
  }

  /** The example of `DetectOrderMatters`: query `q` finds `b` and `c`, query `x` finds itself and `q`. */
  function MatchesOfQ(): seq<Match>
  {
    [Match("b", 1.0, None, "b.png"), Match("c", 1.0, None, "c.png")]
  }

  function MatchesOfX(): seq<Match>
  {
    [Match("x", 1.0, None, "x.png"), Match("q", 1.0, None, "q.png")]
  }

  /**
   * When a query id is not among its own relevant matches, the order of the
   * `detect` calls matters. Run first, `q` is not a node yet and gets no
   * edge; run after `x`, it is one and is joined to `b` and `c`.
   */
  lemma DetectOrderMatters()
    ensures AfterDetect(AfterDetect(Skeleton({}, {}), "q", MatchesOfQ()), "x", MatchesOfX())
         != AfterDetect(AfterDetect(Skeleton({}, {}), "x", MatchesOfX()), "q", MatchesOfQ())
  {
    QBeforeX();
    XBeforeQ();
    assert {"q", "b"} != {"x", "q"} by {
      assert "b" in {"q", "b"};
    }
  }

  /** `q` first: it gets no edge, and `x` then adds only its own. */
  lemma QBeforeX()
    ensures AfterDetect(AfterDetect(Skeleton({}, {}), "q", MatchesOfQ()), "x", MatchesOfX()).edges == {{"x", "q"}}
  {
    var r2 := MatchesOfX();
    QAlone();
    PairFacts("x", r2[0], r2[1]);
    var qFirst := AfterDetect(Skeleton({}, {}), "q", MatchesOfQ());
    assert AfterDetect(qFirst, "x", r2).edges == NewEdges("x", r2);
  }

  /** `q` alone adds `b` and `c` but no edge, since it is not a node itself. */
  lemma QAlone()
    ensures AfterDetect(Skeleton({}, {}), "q", MatchesOfQ()).edges == {}
  {
    var r1 := MatchesOfQ();
    PairIds(r1[0], r1[1]);
    assert "q" != "b" && "q" != "c" by {
      assert "q"[0] != "b"[0] && "q"[0] != "c"[0];
    }
    assert "q" !in {} + IdsOf(r1);
  }

  /** `x` first: `q` is a node by the time it is queried, so it is joined to `b`. */
  lemma XBeforeQ()
    ensures {"q", "b"} in AfterDetect(AfterDetect(Skeleton({}, {}), "x", MatchesOfX()), "q", MatchesOfQ()).edges
  {
    var r1, r2 := MatchesOfQ(), MatchesOfX();
    PairFacts("q", r1[0], r1[1]);
    PairFacts("x", r2[0], r2[1]);
    var xFirst := AfterDetect(Skeleton({}, {}), "x", r2);
    assert "q" in xFirst.ids;
    assert {"q", "b"} in NewEdges("q", r1);
  }

  /** The ids, the colour run and the new edges of two matches with colours. */
  lemma PairFacts(id: string, d0: Match, d1: Match)
    requires d0.score >= LowestColorScore && d1.score >= LowestColorScore
    ensures IdsOf([d0, d1]) == {d0.id, d1.id}
    ensures ColoredRun(id, [d0, d1]) == 2 && [d0, d1][..2] == [d0, d1]
    ensures NewEdges(id, [d0, d1])
      == (if d0.id != id then {{id, d0.id}} else {}) + (if d1.id != id then {{id, d1.id}} else {})
  {
    PairIds(d0, d1);
    assert [d0, d1][1..] == [d1];
    PairEdges(id, d0, d1);
  }

  lemma PairIds(d0: Match, d1: Match)
    ensures IdsOf([d0, d1]) == {d0.id, d1.id}
  {
    assert forall d :: d in [d0, d1] <==> d == d0 || d == d1;
  }

  lemma PairEdges(id: string, d0: Match, d1: Match)
    ensures NewEdges(id, [d0, d1])
      == (if d0.id != id then {{id, d0.id}} else {}) + (if d1.id != id then {{id, d1.id}} else {})
  {
    assert [d0, d1] == [] + [d0] + [d1];
    NewEdgesSnoc(id, [], d0);
    NewEdgesSnoc(id, [d0], d1);
  }

  class Scanner {
    const threshold: real
    const mode: ScanMode
    var G: Graph

    /** A scanner with a fresh, empty graph; `Create` computes `mode` and raises for a bad profile. */
    constructor (threshold: real, mode: ScanMode)
      ensures this.threshold == threshold && this.mode == mode
      ensures fresh(G) && G.Valid() && G.nodes == map[] && G.edges == {}
    {
      this.threshold := threshold;
      this.mode := mode;
      G := new Graph();
    }

    /** `remove_irrelevant_matches`: the matches scoring at least the threshold, in order. */
    method RemoveIrrelevantMatches(docs: seq<Match>) returns (kept: seq<Match>)
      ensures kept == Relevant(docs, threshold)
    {
      kept := [];
      for i := 0 to |docs|
        invariant kept == Relevant(docs[..i], threshold)
      {
        assert docs[..i + 1][..i] == docs[..i];
        if docs[i].score >= threshold {
          kept := kept + [docs[i]];
        }
      }
      assert docs[..|docs|] == docs;
    }

    /** `ids`: the collection's ids, page after page from cursor `*`. */
    method Ids(fetch: string -> Page, limit: int) returns (ids: seq<string>)
      ensures ids == Enumerated(fetch, limit)
    {
      ids := [];
      var cursorMark := FirstCursor;
      var done := false;
      var count := 0;
      ghost var total := Collect(fetch, FirstCursor, 0, limit);
      while !done
        invariant !done ==> count == 0 || count < limit
        invariant !done ==> ids + Collect(fetch, cursorMark, count, limit).ids == total.ids
        invariant !done ==> Collect(fetch, cursorMark, count, limit).count == total.count
        invariant done ==> ids == total.ids && count == total.count
        decreases if done then 0 else 1, limit - count
      {
        var rsp := fetch(cursorMark);
        ids := ids + rsp.ids;
        count := count + PageSize;
        if cursorMark == rsp.nextCursorMark || count >= limit {
          done := true;
        } else {
          assert ids + Collect(fetch, rsp.nextCursorMark, count, limit).ids == total.ids;
        }
        cursorMark := rsp.nextCursorMark;
      }
      if count > limit {
        ids := SliceTo(ids, limit);
      }
    }

    /** The node-adding loop of `detect`: every match becomes a node unless its id already is one. */
    method AddMatchNodes(relevant: seq<Match>)
      requires G.Valid()
      modifies G
      ensures G.Valid() && G.edges == old(G.edges)
      ensures G.nodes == AddNodes(old(G.nodes), relevant)
      ensures G.order == AppendNew(old(G.order), relevant)
    {
      for i := 0 to |relevant|
        invariant G.Valid() && G.edges == old(G.edges)
        invariant G.nodes == AddNodes(old(G.nodes), relevant[..i])
        invariant G.order == AppendNew(old(G.order), relevant[..i])
      {
        assert relevant[..i + 1][..i] == relevant[..i];
        G.AddNode(relevant[i].id, NodeOf(relevant[i]));
      }
      assert relevant[..|relevant|] == relevant;
    }

    /**
     * One turn of the edge loop of `detect`: nothing for the query itself;
     * otherwise the edge to `d`, unless its score has no colour or the query
     * id is no node, when the turn fails and adds nothing.
     */
    method ConnectMatch(id: string, d: Match) returns (ok: bool)
      requires G.Valid() && d.id in G.nodes
      modifies G
      ensures G.Valid() && G.nodes == old(G.nodes) && G.order == old(G.order)
      ensures ok == EdgeLoopPasses(id, id in G.nodes, d)
      ensures G.edges == old(G.edges) + (if ok && d.id != id then {{id, d.id}} else {})
    {
      ok := true;
      if id != d.id {
        if d.score < LowestColorScore {
          // `interpolate_color` raises before `add_edge` is called
          ok := false;
        } else {
          ok := G.AddEdge(id, d.id);
        }
      }
    }

    /**
     * The edge-adding loop of `detect`: an edge from `id` to every match
     * with another id, in order. The matches are nodes already. The loop
     * fails at the first match with another id whose score has no colour,
     * or at the first such match when `id` is not a node (`add_edge`
     * refuses it); the edges added before the failure stay.
     */
    method ConnectMatches(id: string, relevant: seq<Match>) returns (ok: bool)
      requires G.Valid() && IdsOf(relevant) <= G.nodes.Keys
      modifies G
      ensures G.Valid() && G.nodes == old(G.nodes) && G.order == old(G.order)
      ensures ok <==> forall d :: d in relevant ==> EdgeLoopPasses(id, id in G.nodes, d)
      ensures G.edges == old(G.edges)
        + (if id in G.nodes then NewEdges(id, relevant[..ColoredRun(id, relevant)]) else {})
    {
      ghost var isNode := id in G.nodes;
      ok := true;
      for i := 0 to |relevant|
        invariant G.Valid() && G.nodes == old(G.nodes) && G.order == old(G.order)
        invariant forall j :: 0 <= j < i ==> EdgeLoopPasses(id, isNode, relevant[j])
        invariant G.edges == old(G.edges) + NewEdges(id, relevant[..i])
      {
        var d := relevant[i];
        assert d in relevant;
        ok := ConnectMatch(id, d);
        if !ok {
          ColoredRunStops(id, relevant, i, isNode);
          return;
        }
        assert EdgeLoopPasses(id, isNode, relevant[i]);
        forall j | 0 <= j < i + 1
          ensures EdgeLoopPasses(id, isNode, relevant[j])
        {
        }
        assert relevant[..i + 1] == relevant[..i] + [d];
        NewEdgesSnoc(id, relevant[..i], d);
      }
      ColoredRunStops(id, relevant, |relevant|, isNode);
      assert relevant[..|relevant|] == relevant;
    }

    /**
     * `detect` for one query id and the matches the backend returned for
     * it. With fewer than two relevant matches nothing changes. Otherwise
     * every relevant match becomes a node (ids already present keep their
     * data), and the query id is joined to the relevant matches with another
     * id, in order, until a match without colour or a query id that is no
     * node ends the loop (`ok` is false).
     */
    method Detect(id: string, dups: seq<Match>) returns (ok: bool)
      requires G.Valid()
      modifies G
      ensures G.Valid()
      ensures var r := Relevant(dups, threshold);
        if |r| < 2 then ok && G.order == old(G.order) && G.nodes == old(G.nodes) && G.edges == old(G.edges)
        else
          && G.order == AppendNew(old(G.order), r)
          && G.nodes == AddNodes(old(G.nodes), r)
          && (ok <==> forall d :: d in r ==> EdgeLoopPasses(id, id in G.nodes, d))
          && G.edges == old(G.edges) + (if id in G.nodes then NewEdges(id, r[..ColoredRun(id, r)]) else {})
      ensures Skeleton(G.nodes.Keys, G.edges)
        == AfterDetect(Skeleton(old(G.nodes.Keys), old(G.edges)), id, Relevant(dups, threshold))
    {
      var relevant := RemoveIrrelevantMatches(dups);
      ok := true;
      if |relevant| > 1 {
        AddMatchNodes(relevant);
        AddNodesKeys(old(G.nodes), relevant);
        ok := ConnectMatches(id, relevant);
      }
    }

    /**
     * `save_json` up to the file write: group k (from 1) lists the titles
     * of the k-th connected component of the graph, and there is one group
     * per component, isolated nodes included.
     */
    method SaveJson() returns (groups: map<string, seq<string>>, comps: seq<set<string>>)
      requires G.Valid()
      ensures exists roots, owner :: ComponentsInOrder(G.order, G.edges, comps, roots, owner)
      ensures groups.Keys == GroupKeys(|comps|)
      ensures forall k :: 1 <= k <= |comps| ==>
        GroupKey(k) in groups && ListsTitles(groups[GroupKey(k)], comps[k - 1], G.nodes)
    {
      assert NodeSet(G.order) == G.nodes.Keys;
      comps := ConnectedComponents(G.order, G.edges);
      ghost var roots, owner :| ComponentsInOrder(G.order, G.edges, comps, roots, owner);
      forall i | 0 <= i < |comps|
        ensures comps[i] <= G.nodes.Keys
      {
        ComponentsWithin(G.order, G.edges, comps, roots, owner, i);
      }
      groups := NameGroups(comps, G.nodes);
    }
  }

  /** `Scanner(...)`: the scan mode comes from the profile and the collection size, or the constructor raises. */
  method Create(threshold: real, scanMode: string, numDocs: int) returns (r: Result<Scanner, string>)
    ensures r.Success? <==> InitScanMode(scanMode, numDocs).Success?
    ensures r.Failure? ==> r.error == ScanModeError
    ensures r.Success? ==>
      && fresh(r.value) && fresh(r.value.G)
      && r.value.threshold == threshold && r.value.mode == InitScanMode(scanMode, numDocs).value
      && r.value.G.Valid() && r.value.G.nodes == map[] && r.value.G.edges == {}
  {
    var mode := InitScanMode(scanMode, numDocs);
    if mode.Failure? {
      return Failure(mode.error);
    }
    var s := new Scanner(threshold, mode.value);
    r := Success(s);
  }
}
