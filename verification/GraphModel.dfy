/** The in-memory graph of include/base/parallel/GraphModel.h: node and edge collections,
    per-layer adjacency lists, `visit` and `neighbors`. */
module GraphModel {
  type NodeId = nat
  type EdgeId = nat

  const MAX_LAYER_SIZE: nat := 4

  /** The high bit of `direction` says that the edge is one-way; 0 is two-way. */
  datatype EdgeStatus = EdgeStatus(hold: bool, updated: bool, del: bool, direction: nat, layer: nat)

  /** `value` stands for the JSON payload, of which the core reads one number. */
  datatype Edge = Edge(from: NodeId, to: NodeId, value: real, status: EdgeStatus)

  datatype Node = Node(edges: seq<seq<EdgeId>>, visit: bool, layer: nat)

  type Nodes = map<NodeId, Node>
  type Edges = map<EdgeId, Edge>

  /** The end of an edge met when leaving `id`: its target, unless a two-way edge ends at `id`. */
  function FarEnd(e: Edge, id: NodeId): NodeId {
    if e.status.direction == 0 && e.to == id then e.from else e.to
  }

  /** The far ends of the undeleted edges of a list. */
  function FarEnds(edges: Edges, list: seq<EdgeId>, id: NodeId): (s: set<NodeId>)
    ensures forall v :: v in s <==>
              exists k :: 0 <= k < |list| && list[k] in edges && !edges[list[k]].status.del
                && FarEnd(edges[list[k]], id) == v
  {
    set k | 0 <= k < |list| && list[k] in edges && !edges[list[k]].status.del :: FarEnd(edges[list[k]], id)
  }

  /** What `neighbors` finds for a node: nothing when the node is absent. */
  function NeighborSet(nodes: Nodes, edges: Edges, id: NodeId, level: nat): set<NodeId> {
    if id in nodes && level < |nodes[id].edges| then FarEnds(edges, nodes[id].edges[level], id) else {}
  }

  /** Some undeleted edge in the node's list ends at v, or is two-way, ends at the node and starts at v. */
  ghost predicate Offers(nodes: Nodes, edges: Edges, id: NodeId, level: nat, v: NodeId) {
    && id in nodes && level < |nodes[id].edges|
    && exists e: EdgeId ::
         && e in nodes[id].edges[level] && e in edges && !edges[e].status.del
         && if edges[e].to == id && edges[e].status.direction == 0 then v == edges[e].from else v == edges[e].to
  }

  lemma OffersExactly(nodes: Nodes, edges: Edges, id: NodeId, level: nat)
    ensures forall v :: v in NeighborSet(nodes, edges, id, level) <==> Offers(nodes, edges, id, level, v)
  {
    forall v
      ensures v in NeighborSet(nodes, edges, id, level) <==> Offers(nodes, edges, id, level, v)
    {
      if id in nodes && level < |nodes[id].edges| {
        var list := nodes[id].edges[level];
        if Offers(nodes, edges, id, level, v) {
          var e: EdgeId :| && e in list && e in edges && !edges[e].status.del && FarEnd(edges[e], id) == v;
          var k :| 0 <= k < |list| && list[k] == e;
        }
      }
    }
  }

  /** Visiting marks a node and changes no list. */
  ghost predicate SameLists(a: Nodes, b: Nodes) {
    a.Keys == b.Keys && forall v :: v in a ==> a[v].edges == b[v].edges && a[v].layer == b[v].layer
  }

  ghost predicate Layered(nodes: Nodes) {
    forall v :: v in nodes ==> |nodes[v].edges| == MAX_LAYER_SIZE
  }

  class GMap {
    var nodes: Nodes
    var edges: Edges

    constructor ()
      ensures nodes == map[] && edges == map[]
    {
      nodes, edges := map[], map[];
    }

    function Size(): nat
      reads this
    {
      |nodes| + |edges|
    }

    method Visit(node: NodeId) returns (found: bool, collection: Node)
      modifies this`nodes
      ensures found <==> node in old(nodes)
      ensures found ==> nodes == old(nodes)[node := old(nodes)[node].(visit := true)] && collection == nodes[node]
      ensures !found ==> nodes == old(nodes)
      ensures SameLists(old(nodes), nodes)
    {
      found, collection := false, Node([], false, 0);
      if node in nodes {
        nodes := nodes[node := nodes[node].(visit := true)];
        collection := nodes[node];
        found := true;
      }
    }

    /** `neighbors` adds to the set it is given. When that stays empty it is filled with every
        other node and the call reports failure. */
    method Neighbors(id: NodeId, n: set<NodeId>, level: nat) returns (ok: bool, n': set<NodeId>)
      requires Layered(nodes) && level < MAX_LAYER_SIZE
      ensures ok <==> n + NeighborSet(nodes, edges, id, level) != {}
      ensures ok ==> n' == n + NeighborSet(nodes, edges, id, level)
      ensures ok ==> forall v :: v in n' <==> v in n || Offers(nodes, edges, id, level, v)
      ensures !ok ==> n' == nodes.Keys - {id}
    {
      OffersExactly(nodes, edges, id, level);
      hide Offers;
      n' := n;
      if id in nodes {
        var layer := nodes[id].edges[level];
        for k := 0 to |layer|
          invariant n' == n + FarEnds(edges, layer[..k], id)
        {
          assert layer[..k + 1] == layer[..k] + [layer[k]];
          FarEndsSnoc(edges, layer[..k], layer[k], id);
          if layer[k] in edges && !edges[layer[k]].status.del {
            n' := n' + {FarEnd(edges[layer[k]], id)};
          }
        }
        assert layer[..|layer|] == layer;
      }
      if n' == {} {
        return false, nodes.Keys - {id};
      }
      return true, n';
    }
  }

  lemma FarEndsSnoc(edges: Edges, list: seq<EdgeId>, e: EdgeId, id: NodeId)
    ensures FarEnds(edges, list + [e], id)
         == FarEnds(edges, list, id) + if e in edges && !edges[e].status.del then {FarEnd(edges[e], id)} else {}
  {
    var more := list + [e];
    forall v
      ensures v in FarEnds(edges, more, id) <==>
              v in FarEnds(edges, list, id) || (e in edges && !edges[e].status.del && FarEnd(edges[e], id) == v)
    {
      if v in FarEnds(edges, more, id) {
        var k :| 0 <= k < |more| && more[k] in edges && !edges[more[k]].status.del && FarEnd(edges[more[k]], id) == v;
        assert k < |list| ==> list[k] == more[k];
      }
      if v in FarEnds(edges, list, id) {
        var k :| 0 <= k < |list| && list[k] in edges && !edges[list[k]].status.del && FarEnd(edges[list[k]], id) == v;
        assert more[k] == list[k];
      }
      if e in edges && !edges[e].status.del && FarEnd(edges[e], id) == v {
        assert more[|list|] == e;
      }
    }
  }

  lemma SameNeighbors(a: Nodes, b: Nodes, edges: Edges, level: nat)
    requires SameLists(a, b)
    ensures forall id :: NeighborSet(a, edges, id, level) == NeighborSet(b, edges, id, level)
  {
  }
}
