/**
 * The part of the pyvis `Network` that app/scan.py uses: the node ids in the
 * order they were added, a map from node id to its display data, and a set
 * of undirected edges. `add_node` keeps the
 * data of an id already present (the first writer wins); `add_edge` fails
 * unless both ends are nodes already. An undirected edge is the set of its
 * two ends, so adding it a second time, in either direction, changes nothing.
 */
module Graphs {

  /**
   * What a node shows: its label (`caption`), and the image reference kept as
   * its title. pyvis shows the id instead of an empty label; the file names
   * app/index.py stores are never empty, and nothing here reads `caption`.
   */
  datatype NodeInfo = NodeInfo(caption: string, title: string)

  type Edge = set<string>

  /** `a` and `b` are joined by an edge. */
  predicate Adjacent(edges: set<Edge>, a: string, b: string)
  {
    {a, b} in edges
  }

  /** Every edge joins nodes of the graph. */
  predicate EdgesWithin(edges: set<Edge>, nodes: set<string>)
  {
    forall e :: e in edges ==> e <= nodes
  }

  /** No id occurs twice. */
  predicate Distinct(ids: seq<string>)
  {
    forall i, j :: 0 <= i < j < |ids| ==> ids[i] != ids[j]
  }

  class Graph {
    var order: seq<string>
    var nodes: map<string, NodeInfo>
    var edges: set<Edge>

    /** `order` lists each node once, and every edge joins nodes. */
    ghost predicate Valid()
      reads this
    {
      && Distinct(order)
      && (forall id :: id in order <==> id in nodes)
      && EdgesWithin(edges, nodes.Keys)
    }

    constructor ()
      ensures Valid() && order == [] && nodes == map[] && edges == {}
    {
      order := [];
      nodes := map[];
      edges := {};
    }

    /** `add_node`: a new id gets `info` and goes last in `order`; an id already present keeps what it had. */
    method AddNode(id: string, info: NodeInfo)
      requires Valid()
      modifies this
      ensures Valid()
      ensures nodes == if id in old(nodes) then old(nodes) else old(nodes)[id := info]
      ensures order == if id in old(nodes) then old(order) else old(order) + [id]
      ensures edges == old(edges)
    {
      if id !in nodes {
        nodes := nodes[id := info];
        order := order + [id];
      }
    }

    /** `add_edge`: fails, changing nothing, unless both ends are nodes. */
    method AddEdge(a: string, b: string) returns (ok: bool)
      requires Valid()
      modifies this
      ensures Valid()
      ensures ok <==> a in nodes && b in nodes
      ensures nodes == old(nodes) && order == old(order)
      ensures edges == if ok then old(edges) + {{a, b}} else old(edges)
    {
      ok := a in nodes && b in nodes;
      if ok {
        edges := edges + {{a, b}};
      }
    }
  }
}
