/**
 * The grouping half of `save_json` in app/scan.py: the similarity graph is
 * split into connected components, taken in the order of their first node
 * (a breadth-first search from each node not yet seen, as networkx does),
 * and component k becomes the entry "group-k" listing its nodes' titles.
 */
module Grouping {
  import opened Text
  import opened Graphs

  /** `p` walks along edges, from `p[0]` to its last element. */
  ghost predicate IsPath(edges: set<Edge>, p: seq<string>)
  {
    |p| >= 1 && forall i :: 0 <= i < |p| - 1 ==> Adjacent(edges, p[i], p[i + 1])
  }

  ghost predicate Reachable(edges: set<Edge>, a: string, b: string)
  {
    exists p :: IsPath(edges, p) && p[0] == a && p[|p| - 1] == b
  }

  /** No edge leaves `s`. */
  ghost predicate Closed(edges: set<Edge>, s: set<string>)
  {
    forall a, b :: a in s && Adjacent(edges, a, b) ==> b in s
  }

  /** `c` is the connected component of `root`: it holds `root`, no edge leaves it, and all of it is reachable from `root`. */
  ghost predicate IsComponent(edges: set<Edge>, c: set<string>, root: string)
  {
    root in c && Closed(edges, c) && forall x :: x in c ==> Reachable(edges, root, x)
  }

  lemma ReachableStep(edges: set<Edge>, a: string, b: string, c: string)
    requires Reachable(edges, a, b) && Adjacent(edges, b, c)
    ensures Reachable(edges, a, c)
  {
    var p :| IsPath(edges, p) && p[0] == a && p[|p| - 1] == b;
    var q := p + [c];
    assert forall i :: 0 <= i < |p| ==> q[i] == p[i];
    assert IsPath(edges, q);
  }

  /** Along a path, a closed set holds the start exactly when it holds the end. */
  lemma {:induction false} ClosedPath(edges: set<Edge>, s: set<string>, p: seq<string>)
    requires Closed(edges, s) && IsPath(edges, p)
    ensures p[0] in s <==> p[|p| - 1] in s
    decreases |p|
  {
    if |p| > 1 {
      var q := p[1..];
      assert IsPath(edges, q) by {
        forall i | 0 <= i < |q| - 1
          ensures Adjacent(edges, q[i], q[i + 1])
        {
          assert q[i] == p[i + 1] && q[i + 1] == p[i + 2];
        }
      }
      ClosedPath(edges, s, q);
      assert Adjacent(edges, p[0], p[1]);
      assert {p[1], p[0]} == {p[0], p[1]};
    }
  }

  /** A closed set holds both ends of a connection or neither. */
  lemma ClosedReach(edges: set<Edge>, s: set<string>, a: string, b: string)
    requires Closed(edges, s) && Reachable(edges, a, b)
    ensures a in s <==> b in s
  {
    var p :| IsPath(edges, p) && p[0] == a && p[|p| - 1] == b;
    ClosedPath(edges, s, p);
  }

  /** Everything reachable from the root lies in its component: it is the least closed set holding the root. */
  lemma ComponentComplete(edges: set<Edge>, c: set<string>, root: string, x: string)
    requires IsComponent(edges, c, root) && Reachable(edges, root, x)
    ensures x in c
  {
    ClosedReach(edges, c, root, x);
  }

  /** A node without edges is a group of its own. */
  lemma IsolatedSingleton(edges: set<Edge>, c: set<string>, root: string)
    requires IsComponent(edges, c, root)
    requires forall b :: !Adjacent(edges, root, b)
    ensures c == {root}
  {
    forall x | x in c
      ensures x == root
    {
      ClosedReach(edges, {root}, root, x);
    }
  }

  /** The set of ids in `order`. */
  function NodeSet(order: seq<string>): set<string>
  {
    set x | x in order
  }

  /** `_plain_bfs`: the component of `start`, found by a breadth-first search. */
  method Component(nodes: set<string>, edges: set<Edge>, start: string) returns (comp: set<string>)
    requires start in nodes && EdgesWithin(edges, nodes)
    ensures comp <= nodes && IsComponent(edges, comp, start)
  {
    comp := {start};
    var frontier := {start};
    assert IsPath(edges, [start]);
    while frontier != {}
      invariant frontier <= comp <= nodes && start in comp
      invariant forall x :: x in comp ==> Reachable(edges, start, x)
      invariant forall a, b :: a in comp && a !in frontier && Adjacent(edges, a, b) ==> b in comp
      decreases nodes - comp, frontier
    {
      var v :| v in frontier;
      var next := set w | w in nodes && Adjacent(edges, v, w) && w !in comp;
      forall w | w in next
        ensures Reachable(edges, start, w)
      {
        ReachableStep(edges, start, v, w);
      }
      forall b | Adjacent(edges, v, b)
        ensures b in comp + next
      {
        assert b in {v, b};
      }
      comp := comp + next;
      frontier := frontier - {v} + next;
    }
  }

  /**
   * `comps` lists the components of the graph whose nodes are `order`:
   * component i starts at `order[roots[i]]`, the first node of `order`
   * that no earlier component holds, and every node lies in exactly one
   * component, the one `owner` names.
   */
  ghost predicate ComponentsInOrder(order: seq<string>, edges: set<Edge>, comps: seq<set<string>>,
                                    roots: seq<nat>, owner: map<string, nat>)
  {
    && |roots| == |comps|
    && (forall i :: 0 <= i < |comps| ==> roots[i] < |order| && IsComponent(edges, comps[i], order[roots[i]]))
    && (forall i, j :: 0 <= i < j < |comps| ==> roots[i] < roots[j])
    && (forall i, m :: 0 <= i < |comps| && 0 <= m < roots[i] ==> order[m] in owner && owner[order[m]] < i)
    && (forall x :: x in owner <==> x in order)
    && (forall x :: x in owner ==> owner[x] < |comps| && x in comps[owner[x]])
    && (forall i, x :: 0 <= i < |comps| && x in comps[i] ==> x in owner && owner[x] == i)
  }

  /** Component i was found from `order[roots[i]]`, the roots coming in order and before `k`. */
  ghost predicate RootsBefore(order: seq<string>, edges: set<Edge>, comps: seq<set<string>>, roots: seq<nat>, k: nat)
  {
    && k <= |order|
    && |roots| == |comps|
    && (forall i :: 0 <= i < |comps| ==> roots[i] < k && IsComponent(edges, comps[i], order[roots[i]]))
    && (forall i, j :: 0 <= i < j < |comps| ==> roots[i] < roots[j])
  }

  lemma RootsBeforeNext(order: seq<string>, edges: set<Edge>, comps: seq<set<string>>, roots: seq<nat>, k: nat,
                        c: set<string>)
    requires RootsBefore(order, edges, comps, roots, k) && k < |order| && IsComponent(edges, c, order[k])
    ensures RootsBefore(order, edges, comps + [c], roots + [k], k + 1)
  {
    var comps', roots' := comps + [c], roots + [k];
    assert forall i :: 0 <= i < |comps| ==> comps'[i] == comps[i] && roots'[i] == roots[i];
  }

  /** `owner` names, for every node it knows, the one component holding it. */
  ghost predicate Owns(comps: seq<set<string>>, owner: map<string, nat>)
  {
    && (forall x :: x in owner ==> owner[x] < |comps| && x in comps[owner[x]])
    && (forall i, x :: 0 <= i < |comps| && x in comps[i] ==> x in owner && owner[x] == i)
  }

  /** The nodes before a root all belong to earlier components. */
  ghost predicate RootsFirst(order: seq<string>, roots: seq<nat>, owner: map<string, nat>)
  {
    forall i, m :: 0 <= i < |roots| && 0 <= m < roots[i] && m < |order| ==> order[m] in owner && owner[order[m]] < i
  }

  /** What the search loop knows after the nodes `order[..k]`. */
  ghost predicate SearchedUpTo(order: seq<string>, edges: set<Edge>, comps: seq<set<string>>, roots: seq<nat>,
                               owner: map<string, nat>, k: nat)
  {
    && k <= |order|
    && RootsBefore(order, edges, comps, roots, k)
    && Owns(comps, owner)
    && RootsFirst(order, roots, owner)
    && (forall x :: x in owner ==> x in order)
    && (forall m :: 0 <= m < k ==> order[m] in owner)
  }

  /** `owner` extended so that the nodes of `c` belong to component `i`. */
  function Claim(owner: map<string, nat>, c: set<string>, i: nat): (r: map<string, nat>)
    ensures r.Keys == owner.Keys + c
    ensures forall x :: x in c ==> r[x] == i
    ensures forall x :: x in owner && x !in c ==> r[x] == owner[x]
  {
    map x | x in owner.Keys + c :: if x in c then i else owner[x]
  }

  lemma OwnsClaim(comps: seq<set<string>>, owner: map<string, nat>, c: set<string>)
    requires Owns(comps, owner)
    requires forall i, x :: 0 <= i < |comps| && x in c ==> x !in comps[i]
    ensures Owns(comps + [c], Claim(owner, c, |comps|))
  {
    var n := |comps|;
    var comps', owner' := comps + [c], Claim(owner, c, n);
    forall x | x in owner'
      ensures owner'[x] < |comps'| && x in comps'[owner'[x]]
    {
      if x !in c {
        assert comps'[owner[x]] == comps[owner[x]];
      }
    }
    forall i, x | 0 <= i < |comps'| && x in comps'[i]
      ensures x in owner' && owner'[x] == i
    {
      if i < n {
        assert x in comps[i];
      }
    }
  }

  lemma RootsFirstClaim(order: seq<string>, roots: seq<nat>, owner: map<string, nat>, k: nat, c: set<string>)
    requires RootsFirst(order, roots, owner)
    requires forall i :: 0 <= i < |roots| ==> roots[i] < k
    requires k < |order| && forall m :: 0 <= m < k ==> order[m] in owner && owner[order[m]] < |roots|
    requires forall x :: x in owner ==> x !in c
    ensures RootsFirst(order, roots + [k], Claim(owner, c, |roots|))
  {
    var roots', owner' := roots + [k], Claim(owner, c, |roots|);
    forall i, m | 0 <= i < |roots'| && 0 <= m < roots'[i] && m < |order|
      ensures order[m] in owner' && owner'[order[m]] < i
    {
      if i < |roots| {
        assert roots'[i] == roots[i];
      }
    }
  }

  /** The component of a node not seen yet shares no node with those found. */
  lemma Disjoint(order: seq<string>, edges: set<Edge>, comps: seq<set<string>>, roots: seq<nat>,
                 owner: map<string, nat>, k: nat, c: set<string>)
    requires RootsBefore(order, edges, comps, roots, k) && Owns(comps, owner)
    requires k < |order| && order[k] !in owner && IsComponent(edges, c, order[k])
    ensures forall i, x :: 0 <= i < |comps| && x in c ==> x !in comps[i]
  {
    forall i, x | 0 <= i < |comps| && x in c
      ensures x !in comps[i]
    {
      assert order[k] !in comps[i];
      ClosedReach(edges, comps[i], order[k], x);
    }
  }

  /** A node not seen yet starts the next component. */
  lemma SearchFound(order: seq<string>, edges: set<Edge>, comps: seq<set<string>>, roots: seq<nat>,
                    owner: map<string, nat>, k: nat, c: set<string>)
    requires SearchedUpTo(order, edges, comps, roots, owner, k) && k < |order| && order[k] !in owner
    requires c <= NodeSet(order) && IsComponent(edges, c, order[k])
    ensures SearchedUpTo(order, edges, comps + [c], roots + [k], Claim(owner, c, |comps|), k + 1)
  {
    Disjoint(order, edges, comps, roots, owner, k, c);
    OwnsClaim(comps, owner, c);
    forall x | x in owner
      ensures x !in c
    {
      assert x in comps[owner[x]];
    }
    forall m | 0 <= m < k
      ensures order[m] in owner && owner[order[m]] < |roots|
    {
    }
    RootsFirstClaim(order, roots, owner, k, c);
    RootsBeforeNext(order, edges, comps, roots, k, c);
  }

  /** A node already seen adds nothing. */
  lemma SearchSkip(order: seq<string>, edges: set<Edge>, comps: seq<set<string>>, roots: seq<nat>,
                   owner: map<string, nat>, k: nat)
    requires SearchedUpTo(order, edges, comps, roots, owner, k) && k < |order| && order[k] in owner
    ensures SearchedUpTo(order, edges, comps, roots, owner, k + 1)
  {
    assert RootsBefore(order, edges, comps, roots, k + 1);
  }

  /** Once every node was searched, the components are all there. */
  lemma SearchDone(order: seq<string>, edges: set<Edge>, comps: seq<set<string>>, roots: seq<nat>, owner: map<string, nat>)
    requires SearchedUpTo(order, edges, comps, roots, owner, |order|)
    ensures ComponentsInOrder(order, edges, comps, roots, owner)
  {
    assert RootsBefore(order, edges, comps, roots, |order|) && Owns(comps, owner) && RootsFirst(order, roots, owner);
    forall x | x in order
      ensures x in owner
    {
      var m :| 0 <= m < |order| && order[m] == x;
    }
  }

  /** One turn of the loop in `connected_components`: a node not seen yet starts the next component. */
  method SearchNode(order: seq<string>, edges: set<Edge>, nodes: set<string>, k: nat,
                    comps: seq<set<string>>, seen: set<string>, ghost roots: seq<nat>, ghost owner: map<string, nat>)
    returns (comps': seq<set<string>>, seen': set<string>, ghost roots': seq<nat>, ghost owner': map<string, nat>)
    requires nodes == NodeSet(order) && EdgesWithin(edges, nodes)
    requires SearchedUpTo(order, edges, comps, roots, owner, k) && k < |order| && seen == owner.Keys
    ensures SearchedUpTo(order, edges, comps', roots', owner', k + 1) && seen' == owner'.Keys
    ensures order[k] in seen ==> comps' == comps && seen' == seen
    ensures order[k] !in seen ==>
      && |comps'| == |comps| + 1 && comps'[..|comps|] == comps
      && IsComponent(edges, comps'[|comps|], order[k]) && seen' == seen + comps'[|comps|]
  {
    if order[k] !in seen {
      var c := Component(nodes, edges, order[k]);
      SearchFound(order, edges, comps, roots, owner, k, c);
      comps', roots', owner' := comps + [c], roots + [k], Claim(owner, c, |comps|);
      seen' := seen + c;
    } else {
      SearchSkip(order, edges, comps, roots, owner, k);
      comps', seen', roots', owner' := comps, seen, roots, owner;
    }
  }

  /** `nx.connected_components`: a search from every node of `order` not yet seen. */
  method ConnectedComponents(order: seq<string>, edges: set<Edge>) returns (comps: seq<set<string>>)
    requires EdgesWithin(edges, NodeSet(order))
    ensures exists roots, owner :: ComponentsInOrder(order, edges, comps, roots, owner)
  {
    var nodes := NodeSet(order);
    var seen: set<string> := {};
    ghost var roots: seq<nat>, owner: map<string, nat> := [], map[];
    comps := [];
    for k := 0 to |order|
      invariant SearchedUpTo(order, edges, comps, roots, owner, k)
      invariant seen == owner.Keys
    {
      comps, seen, roots, owner := SearchNode(order, edges, nodes, k, comps, seen, roots, owner);
    }
    SearchDone(order, edges, comps, roots, owner);
  }

  /** Every component is made of nodes. */
  lemma ComponentsWithin(order: seq<string>, edges: set<Edge>, comps: seq<set<string>>, roots: seq<nat>,
                         owner: map<string, nat>, i: nat)
    requires ComponentsInOrder(order, edges, comps, roots, owner) && i < |comps|
    ensures comps[i] <= NodeSet(order)
  {
    forall x | x in comps[i]
      ensures x in NodeSet(order)
    {
      assert x in owner;
    }
  }

  /** No edge joins two different groups: both ends of an edge lie in the same component. */
  lemma NoEdgeBetweenGroups(order: seq<string>, edges: set<Edge>, comps: seq<set<string>>, roots: seq<nat>,
                            owner: map<string, nat>, a: string, b: string)
    requires ComponentsInOrder(order, edges, comps, roots, owner)
    requires a in owner && Adjacent(edges, a, b)
    ensures b in owner && owner[b] == owner[a]
  {
    var i := owner[a];
    assert IsComponent(edges, comps[i], order[roots[i]]);
    assert b in comps[i];
  }

  /** `f"group-{k}"`, the key of the k-th group. */
  function GroupKey(k: nat): string
  {
    "group-" + NatToDecimal(k)
  }

  /** A key is `group-` followed by decimal digits that read back as `k`. */
  lemma GroupKeyShape(k: nat)
    ensures var key := GroupKey(k);
      && |key| > 6 && key[..6] == "group-"
      && (forall i :: 6 <= i < |key| ==> '0' <= key[i] <= '9')
      && DecimalValue(key[6..]) == k
  {
    assert GroupKey(k)[6..] == NatToDecimal(k);
    DecimalRoundTrip(k);
  }

  /** Different groups get different keys. */
  lemma GroupKeyInjective(a: nat, b: nat)
    ensures GroupKey(a) == GroupKey(b) <==> a == b
  {
    assert GroupKey(a)[6..] == NatToDecimal(a);
    assert GroupKey(b)[6..] == NatToDecimal(b);
    if GroupKey(a) == GroupKey(b) {
      NatToDecimalInjective(a, b);
    }
  }

  /** `paths` lists the titles of the nodes of `comp`, each once, in some order. */
  ghost predicate ListsTitles(paths: seq<string>, comp: set<string>, nodes: map<string, NodeInfo>)
  {
    exists members :: ListedBy(paths, members, comp, nodes)
  }

  ghost predicate ListedBy(paths: seq<string>, members: seq<string>, comp: set<string>, nodes: map<string, NodeInfo>)
  {
    && Distinct(members)
    && (forall x :: x in members <==> x in comp)
    && |paths| == |members|
    && forall i :: 0 <= i < |members| ==> members[i] in nodes && paths[i] == nodes[members[i]].title
  }

  /** The inner loop of `save_json`: the title of every node of a component. */
  method FilePaths(comp: set<string>, nodes: map<string, NodeInfo>) returns (paths: seq<string>)
    requires comp <= nodes.Keys
    ensures ListsTitles(paths, comp, nodes)
  {
    paths := [];
    ghost var members: seq<string> := [];
    var rest := comp;
    while rest != {}
      invariant rest <= comp
      invariant ListedBy(paths, members, comp - rest, nodes)
      decreases rest
    {
      var id :| id in rest;
      paths, members := paths + [nodes[id].title], members + [id];
      rest := rest - {id};
    }
    assert comp - rest == comp;
  }

  /** The keys group-1 .. group-n. */
  function GroupKeys(n: nat): set<string>
  {
    if n == 0 then {} else GroupKeys(n - 1) + {GroupKey(n)}
  }

  /** The k-th key is among the first n exactly when 1 <= k <= n. */
  lemma {:induction false} GroupKeysMembership(n: nat, k: nat)
    ensures GroupKey(k) in GroupKeys(n) <==> 1 <= k <= n
  {
    GroupKeyInjective(k, n);
    if n > 0 {
      GroupKeysMembership(n - 1, k);
    }
  }

  /** The next key is new: it differs from every earlier one. */
  lemma NextGroupKey(n: nat)
    ensures GroupKeys(n + 1) == GroupKeys(n) + {GroupKey(n + 1)}
    ensures forall k :: 1 <= k <= n ==> GroupKey(k) != GroupKey(n + 1)
  {
    forall k | 1 <= k <= n
      ensures GroupKey(k) != GroupKey(n + 1)
    {
      GroupKeyInjective(k, n + 1);
    }
  }

  /** The map holding list k (from 1) under "group-k". */
  ghost function KeyedLists(lists: seq<seq<string>>): map<string, seq<string>>
  {
    if lists == [] then map[] else KeyedLists(lists[..|lists| - 1])[GroupKey(|lists|) := lists[|lists| - 1]]
  }

  /** The keys of `KeyedLists` are group-1 .. group-n, and group-k holds list k. */
  lemma {:induction false} KeyedListsLookup(lists: seq<seq<string>>)
    ensures KeyedLists(lists).Keys == GroupKeys(|lists|)
    ensures forall k :: 1 <= k <= |lists| ==> GroupKey(k) in KeyedLists(lists) && KeyedLists(lists)[GroupKey(k)] == lists[k - 1]
  {
    if lists != [] {
      var init, n := lists[..|lists| - 1], |lists|;
      KeyedListsLookup(init);
      NextGroupKey(n - 1);
      var m := KeyedLists(init);
      assert KeyedLists(lists) == m[GroupKey(n) := lists[n - 1]];
      forall k | 1 <= k <= n
        ensures GroupKey(k) in KeyedLists(lists) && KeyedLists(lists)[GroupKey(k)] == lists[k - 1]
      {
        if k < n {
          assert GroupKey(k) != GroupKey(n);
          assert m[GroupKey(k)] == init[k - 1] == lists[k - 1];
        }
      }
    }
  }

  /** The loop of `save_json` over the components: component k (from 1) becomes "group-k", listing its titles. */
  method NameGroups(comps: seq<set<string>>, nodes: map<string, NodeInfo>) returns (groups: map<string, seq<string>>)
    requires forall i :: 0 <= i < |comps| ==> comps[i] <= nodes.Keys
    ensures groups.Keys == GroupKeys(|comps|)
    ensures forall k :: 1 <= k <= |comps| ==> GroupKey(k) in groups && ListsTitles(groups[GroupKey(k)], comps[k - 1], nodes)
  {
    groups := map[];
    var groupId := 1;
    ghost var lists: seq<seq<string>> := [];
    for i := 0 to |comps|
      invariant groupId == i + 1 && |lists| == i
      invariant groups == KeyedLists(lists)
      invariant forall k :: 0 <= k < i ==> ListsTitles(lists[k], comps[k], nodes)
    {
      var paths := FilePaths(comps[i], nodes);
      assert (lists + [paths])[..|lists|] == lists;
      groups := groups[GroupKey(groupId) := paths];
      lists := lists + [paths];
      groupId := groupId + 1;
    }
    KeyedListsLookup(lists);
  }
}
