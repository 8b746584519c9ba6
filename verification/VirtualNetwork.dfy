/** The virtual network of src/VirtualNetwork.cpp: the adjacency lists of every node and layer
    index the edge map. */
module VirtualNetwork {
  import opened GraphModel
  import opened SortedLists

  // ---------------------------------------------------------------- the index

  ghost predicate Incident(e: Edge, v: NodeId) {
    e.from == v || e.to == v
  }

  ghost predicate LiveAt(edges: Edges, e: EdgeId, v: NodeId, level: nat) {
    e in edges && !edges[e].status.del && edges[e].status.layer == level && Incident(edges[e], v)
  }

  /** One adjacency list is strictly sorted and holds exactly the live edges of its node and layer. */
  ghost predicate ListAgrees(list: seq<EdgeId>, edges: Edges, v: NodeId, level: nat) {
    && StrictlySorted(list, LessThan)
    && forall e: EdgeId :: e in list <==> LiveAt(edges, e, v, level)
  }

  ghost predicate Indexed(nodes: Nodes, edges: Edges) {
    && Layered(nodes)
    && (forall e :: e in edges ==>
        edges[e].from in nodes && edges[e].to in nodes && edges[e].status.layer < MAX_LAYER_SIZE)
    && forall v: NodeId, level: nat :: v in nodes && level < MAX_LAYER_SIZE ==>
        ListAgrees(nodes[v].edges[level], edges, v, level)
  }

  /** The edge id may be stored for these endpoints: it is new, its old record is deleted, or it
      already joins nothing but these endpoints at this layer. */
  predicate Storable(edges: Edges, id: EdgeId, from: NodeId, to: NodeId, level: nat) {
    id in edges && !edges[id].status.del ==>
      edges[id].status.layer == level && {edges[id].from, edges[id].to} <= {from, to}
  }

  function NewEdge(from: NodeId, to: NodeId, value: real, level: nat): Edge {
    Edge(from, to, value, EdgeStatus(false, false, false, 2, level))
  }

  function ListUpdated(n: Node, level: nat, list: seq<EdgeId>): Node
    requires level < |n.edges|
  {
    n.(edges := n.edges[level := list])
  }

  /** The nodes after `id` was entered in the lists of both endpoints. */
  function Entered(nodes: Nodes, id: EdgeId, from: NodeId, to: NodeId, level: nat): (r: Nodes)
    requires Layered(nodes) && level < MAX_LAYER_SIZE && from in nodes && to in nodes
    ensures Layered(r) && r.Keys == nodes.Keys
  {
    var a := nodes[from := ListUpdated(nodes[from], level, Inserted(nodes[from].edges[level], id, LessThan))];
    a[to := ListUpdated(a[to], level, Inserted(a[to].edges[level], id, LessThan))]
  }

  /** Whether `addEdge` takes the pair as the reverse of an existing edge. */
  ghost predicate Linked(nodes: Nodes, edges: Edges, from: NodeId, to: NodeId, level: nat) {
    from in NeighborSet(nodes, edges, to, level)
  }

  function TwoWay(e: Edge): Edge {
    e.(status := e.status.(direction := 0))
  }

  lemma EnteredLists(nodes: Nodes, id: EdgeId, from: NodeId, to: NodeId, level: nat, v: NodeId, l: nat)
    requires Layered(nodes) && level < MAX_LAYER_SIZE && from in nodes && to in nodes && v in nodes
    requires l < MAX_LAYER_SIZE
    requires StrictlySorted(nodes[v].edges[l], LessThan)
    ensures StrictlySorted(Entered(nodes, id, from, to, level)[v].edges[l], LessThan)
    ensures forall e: EdgeId :: e in Entered(nodes, id, from, to, level)[v].edges[l] <==>
              e in nodes[v].edges[l] || (e == id && l == level && (v == from || v == to))
  {
    hide StrictOrder, StrictlySorted, Inserted;
    LessThanIsOrder();
    InsertedIsSorted(nodes[v].edges[l], id, LessThan);
    InsertedIsSorted(Inserted(nodes[v].edges[l], id, LessThan), id, LessThan);
  }

  /** Storing an edge keeps the index exactly when the id may be stored. */
  lemma EnteringKeepsIndex(nodes: Nodes, edges: Edges, id: EdgeId, from: NodeId, to: NodeId, value: real, level: nat)
    requires Indexed(nodes, edges) && level < MAX_LAYER_SIZE && from in nodes && to in nodes
    ensures Indexed(Entered(nodes, id, from, to, level), edges[id := NewEdge(from, to, value, level)])
       <==> Storable(edges, id, from, to, level)
  {
    hide StrictlySorted, Entered;
    var edges' := edges[id := NewEdge(from, to, value, level)];
    var nodes' := Entered(nodes, id, from, to, level);
    forall v: NodeId, l: nat | v in nodes && l < MAX_LAYER_SIZE
      ensures StrictlySorted(nodes'[v].edges[l], LessThan)
      ensures forall e: EdgeId :: e in nodes'[v].edges[l] <==>
                LiveAt(edges, e, v, l) || (e == id && l == level && (v == from || v == to))
    {
      assert ListAgrees(nodes[v].edges[l], edges, v, l);
      EnteredLists(nodes, id, from, to, level, v, l);
    }
    if Storable(edges, id, from, to, level) {
      forall v: NodeId, l: nat | v in nodes' && l < MAX_LAYER_SIZE
        ensures ListAgrees(nodes'[v].edges[l], edges', v, l)
      {
      }
    } else {
      var e := edges[id];
      var v := if e.status.layer != level || e.from !in {from, to} then e.from else e.to;
      assert LiveAt(edges, id, v, e.status.layer);
      assert !LiveAt(edges', id, v, e.status.layer);
      assert !ListAgrees(nodes'[v].edges[e.status.layer], edges', v, e.status.layer);
    }
  }

  lemma TwoWayKeepsIndex(nodes: Nodes, edges: Edges, id: EdgeId)
    requires Indexed(nodes, edges) && id in edges
    ensures Indexed(nodes, edges[id := TwoWay(edges[id])])
  {
    var edges' := edges[id := TwoWay(edges[id])];
    forall v: NodeId, l: nat | v in nodes && l < MAX_LAYER_SIZE
      ensures ListAgrees(nodes[v].edges[l], edges', v, l)
    {
      assert ListAgrees(nodes[v].edges[l], edges, v, l);
    }
  }

  /** Every list without `id`. */
  function Purged(n: Node, id: EdgeId): (r: Node)
    ensures |r.edges| == |n.edges|
    ensures forall l :: 0 <= l < |n.edges| ==> r.edges[l] == Filtered(n.edges[l], id)
  {
    n.(edges := seq(|n.edges|, l requires 0 <= l < |n.edges| => Filtered(n.edges[l], id)))
  }

  ghost predicate AllPurged(nodes: Nodes, nodes': Nodes, id: EdgeId) {
    nodes'.Keys == nodes.Keys && forall v :: v in nodes ==> nodes'[v] == Purged(nodes[v], id)
  }

  /** The edge map after a deletion: the record is marked, or gone. */
  function Dropped(edges: Edges, id: EdgeId, mark: bool): Edges
    requires id in edges
  {
    if mark then edges[id := edges[id].(status := edges[id].status.(hold := false, del := true))]
    else edges - {id}
  }

  lemma DroppingKeepsIndex(nodes: Nodes, nodes': Nodes, edges: Edges, id: EdgeId, mark: bool)
    requires Indexed(nodes, edges) && id in edges && AllPurged(nodes, nodes', id)
    ensures Indexed(nodes', Dropped(edges, id, mark))
  {
    hide StrictlySorted;
    var edges' := Dropped(edges, id, mark);
    forall v: NodeId, l: nat | v in nodes' && l < MAX_LAYER_SIZE
      ensures ListAgrees(nodes'[v].edges[l], edges', v, l)
    {
      assert ListAgrees(nodes[v].edges[l], edges, v, l);
      FilteredIsSorted(nodes[v].edges[l], id, LessThan);
    }
  }

  /** The edge stands in at most one of the node's lists, once. */
  ghost predicate HeldOnce(n: Node, id: EdgeId) {
    && (forall l :: 0 <= l < |n.edges| ==> StrictlySorted(n.edges[l], LessThan))
    && forall l, k :: 0 <= l < k < |n.edges| ==> !(id in n.edges[l] && id in n.edges[k])
  }

  lemma IndexedHoldsOnce(nodes: Nodes, edges: Edges, v: NodeId, id: EdgeId)
    requires Indexed(nodes, edges) && v in nodes
    ensures HeldOnce(nodes[v], id)
    ensures (id in edges ==> !Incident(edges[id], v)) ==> Purged(nodes[v], id) == nodes[v]
  {
    hide StrictlySorted;
    forall l: nat | l < MAX_LAYER_SIZE
      ensures ListAgrees(nodes[v].edges[l], edges, v, l)
    {
    }
    if id in edges ==> !Incident(edges[id], v) {
      assert Purged(nodes[v], id).edges == nodes[v].edges;
    }
  }

  lemma PurgedTwice(n: Node, id: EdgeId)
    ensures Purged(Purged(n, id), id) == Purged(n, id)
    ensures HeldOnce(n, id) ==> HeldOnce(Purged(n, id), id)
  {
    var p := Purged(n, id);
    assert Purged(p, id).edges == p.edges;
    if HeldOnce(n, id) {
      forall l | 0 <= l < |p.edges|
        ensures StrictlySorted(p.edges[l], LessThan)
      {
        FilteredIsSorted(n.edges[l], id, LessThan);
      }
    }
  }

  /** What the source's maps make of a key they do not know. */
  const BLANK_EDGE: Edge := Edge(0, 0, 0.0, EdgeStatus(false, false, false, 0, 0))

  function WithNode(nodes: Nodes, v: NodeId): Nodes {
    if v in nodes then nodes else nodes[v := Node([[], [], [], []], false, 0)]
  }

  lemma WithNodeKeepsIndex(nodes: Nodes, edges: Edges, v: NodeId)
    requires Indexed(nodes, edges)
    ensures Indexed(WithNode(nodes, v), edges)
  {
    hide StrictlySorted, LiveAt;
    var r := WithNode(nodes, v);
    forall x: NodeId, l: nat | x in r && l < MAX_LAYER_SIZE
      ensures ListAgrees(r[x].edges[l], edges, x, l)
    {
      if x in nodes {
        assert ListAgrees(nodes[x].edges[l], edges, x, l);
      } else {
        EmptyAgrees(nodes, edges, x, l);
      }
    }
  }

  lemma EmptyAgrees(nodes: Nodes, edges: Edges, v: NodeId, l: nat)
    requires Indexed(nodes, edges) && v !in nodes
    ensures ListAgrees([], edges, v, l)
  {
  }

  lemma BlankKeepsIndex(nodes: Nodes, edges: Edges, id: EdgeId, mark: bool)
    requires Indexed(nodes, edges) && id !in edges
    ensures Indexed(WithNode(nodes, BLANK_EDGE.from), Dropped(edges[id := BLANK_EDGE], id, mark))
    ensures Indexed(WithNode(nodes, BLANK_EDGE.from), edges)
  {
    hide StrictlySorted;
    WithNodeKeepsIndex(nodes, edges, BLANK_EDGE.from);
    var r, dropped := WithNode(nodes, BLANK_EDGE.from), Dropped(edges[id := BLANK_EDGE], id, mark);
    forall x: NodeId, l: nat | x in r && l < MAX_LAYER_SIZE
      ensures ListAgrees(r[x].edges[l], dropped, x, l)
    {
      assert ListAgrees(r[x].edges[l], edges, x, l);
      assert forall e: EdgeId :: LiveAt(edges, e, x, l) <==> LiveAt(dropped, e, x, l);
    }
  }

  lemma BlankIsNowhere(nodes: Nodes, edges: Edges, id: EdgeId)
    requires Indexed(nodes, edges) && id !in edges
    ensures forall v :: v in nodes ==> HeldOnce(nodes[v], id) && Purged(nodes[v], id) == nodes[v]
  {
    hide Indexed, HeldOnce, Purged;
    forall v | v in nodes
      ensures HeldOnce(nodes[v], id) && Purged(nodes[v], id) == nodes[v]
    {
      IndexedHoldsOnce(nodes, edges, v, id);
    }
  }

  lemma BlankRecords(nodes: Nodes, edges: Edges, id: EdgeId)
    ensures
      var r := WithNode(nodes, BLANK_EDGE.from);
      && r.Keys == nodes.Keys + {0} && (forall v: NodeId :: v in nodes ==> r[v] == nodes[v])
      && (0 !in nodes ==> r[0] == Node([[], [], [], []], false, 0))
    ensures Dropped(edges[id := BLANK_EDGE], id, true)[id] == Edge(0, 0, 0.0, EdgeStatus(false, false, true, 0, 0))
  {
  }

  lemma DroppedFields(edges: Edges, id: EdgeId, mark: bool)
    requires id in edges
    ensures
      var r := Dropped(edges, id, mark);
      && r.Keys == (if mark then edges.Keys else edges.Keys - {id})
      && (forall e: EdgeId :: e in r && e != id ==> r[e] == edges[e])
      && (mark ==>
            && r[id].status.del && !r[id].status.hold
            && r[id].from == edges[id].from && r[id].to == edges[id].to && r[id].value == edges[id].value
            && r[id].status.direction == edges[id].status.direction && r[id].status.layer == edges[id].status.layer)
  {
  }

  lemma DeadIsNowhere(nodes: Nodes, edges: Edges, id: EdgeId)
    requires Indexed(nodes, edges) && (id in edges ==> edges[id].status.del)
    ensures forall v: NodeId, l: nat :: v in nodes && l < MAX_LAYER_SIZE ==> id !in nodes[v].edges[l]
  {
    hide StrictlySorted;
  }

  ghost predicate Joins(e: Edge, a: NodeId, b: NodeId) {
    (e.from == a && e.to == b) || (e.from == b && e.to == a)
  }

  /** A live edge in the lists of both nodes at some layer. */
  ghost predicate Shared(edges: Edges, e: EdgeId, a: NodeId, b: NodeId, level: nat) {
    LiveAt(edges, e, a, level) && LiveAt(edges, e, b, level)
  }

  lemma SharedJoins(edges: Edges, a: NodeId, b: NodeId)
    requires a != b
    ensures forall e: EdgeId, level: nat :: Shared(edges, e, a, b, level) <==>
              e in edges && !edges[e].status.del && edges[e].status.layer == level && Joins(edges[e], a, b)
    ensures forall e: EdgeId :: e in edges && !edges[e].status.del && Joins(edges[e], a, b) ==>
              Shared(edges, e, a, b, edges[e].status.layer)
  {
  }

  /** A step along an edge: from its source to its target, back along one that is two-way, or, as the code has it,
      from the target of a one-way edge to itself. */
  ghost predicate Leads(e: Edge, u: NodeId, v: NodeId) {
    || (e.from == u && e.to == v)
    || (e.status.direction == 0 && e.from == v && e.to == u)
    || (e.status.direction != 0 && e.to == u && v == u)
  }

  /** Some live edge of the layer leads from u to v. */
  ghost predicate NextTo(edges: Edges, u: NodeId, v: NodeId, level: nat) {
    exists e: EdgeId :: e in edges && !edges[e].status.del && edges[e].status.layer == level && Leads(edges[e], u, v)
  }

  lemma IncidentLeads(e: Edge, u: NodeId, v: NodeId)
    ensures Leads(e, u, v) <==> Incident(e, u) && FarEnd(e, u) == v
  {
  }

  /** The neighbours the adjacency lists give are those the live edges lead to. */
  lemma NeighborsExactly(nodes: Nodes, edges: Edges, u: NodeId, v: NodeId, level: nat)
    requires Indexed(nodes, edges) && u in nodes && level < MAX_LAYER_SIZE
    ensures v in NeighborSet(nodes, edges, u, level) <==> NextTo(edges, u, v, level)
  {
    hide StrictlySorted, FarEnd, Leads;
    var list := nodes[u].edges[level];
    assert ListAgrees(list, edges, u, level);
    if v in NeighborSet(nodes, edges, u, level) {
      var k :| 0 <= k < |list| && list[k] in edges && !edges[list[k]].status.del && FarEnd(edges[list[k]], u) == v;
      assert list[k] in list && LiveAt(edges, list[k], u, level);
      IncidentLeads(edges[list[k]], u, v);
    }
    if NextTo(edges, u, v, level) {
      var e: EdgeId :| && e in edges && !edges[e].status.del && edges[e].status.layer == level
                       && Leads(edges[e], u, v);
      IncidentLeads(edges[e], u, v);
      assert LiveAt(edges, e, u, level);
      var k :| 0 <= k < |list| && list[k] == e;
    }
  }

  datatype Lookup = NoNode | NoEdge | Found(id: EdgeId)

  class Network {
    const vg: GMap

    constructor ()
      ensures fresh(vg) && vg.nodes == map[] && vg.edges == map[]
      ensures Indexed(vg.nodes, vg.edges)
    {
      vg := new GMap();
    }

    method AddNode(id: NodeId, level: nat)
      requires Indexed(vg.nodes, vg.edges)
      modifies vg`nodes
      ensures vg.nodes == if id in old(vg.nodes) then old(vg.nodes)
              else old(vg.nodes)[id := Node([[], [], [], []], false, level)]
      ensures Indexed(vg.nodes, vg.edges)
    {
      if id !in vg.nodes {
        vg.nodes := vg.nodes[id := Node([[], [], [], []], false, level)];
        forall v: NodeId, l: nat | v in vg.nodes && l < MAX_LAYER_SIZE
          ensures ListAgrees(vg.nodes[v].edges[l], vg.edges, v, l)
        {
          assert v != id ==> ListAgrees(old(vg.nodes)[v].edges[l], vg.edges, v, l);
        }
      }
    }

    /** A pair that is already linked the other way only loses its direction; otherwise the edge is
        stored and entered in both lists. The index survives exactly when the pair was linked or
        the id may be stored. */
    method AddEdge(id: EdgeId, from: NodeId, to: NodeId, value: real, level: nat) returns (r: int)
      requires Indexed(vg.nodes, vg.edges) && from in vg.nodes && to in vg.nodes && level < MAX_LAYER_SIZE
      modifies vg
      ensures old(Linked(vg.nodes, vg.edges, from, to, level)) && id !in old(vg.edges) ==>
                r == -1 && vg.nodes == old(vg.nodes) && vg.edges == old(vg.edges)
      ensures old(Linked(vg.nodes, vg.edges, from, to, level)) && id in old(vg.edges) ==>
                r == 0 && vg.nodes == old(vg.nodes) && vg.edges == old(vg.edges)[id := TwoWay(old(vg.edges)[id])]
      ensures !old(Linked(vg.nodes, vg.edges, from, to, level)) ==>
                && r == 0
                && vg.nodes == Entered(old(vg.nodes), id, from, to, level)
                && vg.edges == old(vg.edges)[id := NewEdge(from, to, value, level)]
      ensures forall e: EdgeId :: e in vg.edges && e != id ==> e in old(vg.edges) && vg.edges[e] == old(vg.edges)[e]
      ensures forall e: EdgeId :: e in old(vg.edges) ==> e in vg.edges
      ensures !old(Linked(vg.nodes, vg.edges, from, to, level)) ==>
                && id in vg.edges
                && vg.edges[id].from == from && vg.edges[id].to == to && vg.edges[id].value == value
                && vg.edges[id].status.layer == level && vg.edges[id].status.direction == 2
                && !vg.edges[id].status.del && !vg.edges[id].status.hold && !vg.edges[id].status.updated
      ensures old(Linked(vg.nodes, vg.edges, from, to, level)) && id in old(vg.edges) ==>
                && vg.edges[id].from == old(vg.edges)[id].from && vg.edges[id].to == old(vg.edges)[id].to
                && vg.edges[id].value == old(vg.edges)[id].value && vg.edges[id].status.direction == 0
                && vg.edges[id].status.layer == old(vg.edges)[id].status.layer
                && vg.edges[id].status.del == old(vg.edges)[id].status.del
      ensures Indexed(vg.nodes, vg.edges) <==>
                old(Linked(vg.nodes, vg.edges, from, to, level)) || Storable(old(vg.edges), id, from, to, level)
    {
      hide Indexed, Inserted, NeighborSet, StrictlySorted;
      IndexedIsLayered(vg.nodes, vg.edges);
      var any, neighbors := vg.Neighbors(to, {}, level);
      if any && from in neighbors {
        if id !in vg.edges {
          return -1;
        }
        TwoWayKeepsIndex(vg.nodes, vg.edges, id);
        vg.edges := vg.edges[id := TwoWay(vg.edges[id])];
      } else {
        EnteringKeepsIndex(vg.nodes, vg.edges, id, from, to, value, level);
        vg.edges := vg.edges[id := NewEdge(from, to, value, level)];
        var there, list := AddUniqueDataAndSort(vg.nodes[from].edges[level], id, LessThan);
        vg.nodes := vg.nodes[from := ListUpdated(vg.nodes[from], level, list)];
        there, list := AddUniqueDataAndSort(vg.nodes[to].edges[level], id, LessThan);
        vg.nodes := vg.nodes[to := ListUpdated(vg.nodes[to], level, list)];
      }
      return 0;
    }

    /** Searches the layers from the top and erases the edge from the first list that holds it.
        One position is erased, which is all of them because the list holds the edge once. */
    method EraseEdgeFrom(id: EdgeId, node: NodeId)
      requires Layered(vg.nodes) && node in vg.nodes && HeldOnce(vg.nodes[node], id)
      modifies vg`nodes
      ensures vg.nodes == old(vg.nodes)[node := Purged(old(vg.nodes)[node], id)]
    {
      hide StrictlySorted;
      var level := MAX_LAYER_SIZE;
      while level > 0
        invariant 0 <= level <= MAX_LAYER_SIZE && vg.nodes == old(vg.nodes) && |vg.nodes[node].edges| == MAX_LAYER_SIZE
        invariant forall l :: level <= l < MAX_LAYER_SIZE ==> id !in vg.nodes[node].edges[l]
      {
        level := level - 1;
        var fn := vg.nodes[node].edges[level];
        var kept := Filtered(fn, id);
        if |kept| != |fn| {
          LessThanIsOrder();
          FilteredLength(fn, id, LessThan);
          ghost var n := vg.nodes[node];
          vg.nodes := vg.nodes[node := ListUpdated(vg.nodes[node], level, kept)];
          assert ListUpdated(n, level, kept).edges == Purged(n, id).edges;
          return;
        }
        FilteredSame(fn, id);
      }
      assert Purged(vg.nodes[node], id).edges == vg.nodes[node].edges;
    }

    /** Deletes an edge. A missing record is made first, with the blank one's endpoint 0 if that is missing too:
        marking leaves them, as a deleted edge. */
    method DeleteEdge(id: EdgeId, mark: bool)
      requires Indexed(vg.nodes, vg.edges)
      modifies vg
      ensures id in old(vg.edges) ==>
                AllPurged(old(vg.nodes), vg.nodes, id) && vg.edges == Dropped(old(vg.edges), id, mark)
      ensures id !in old(vg.edges) ==>
                && vg.nodes == WithNode(old(vg.nodes), BLANK_EDGE.from)
                && vg.edges == Dropped(old(vg.edges)[id := BLANK_EDGE], id, mark)
      ensures vg.edges.Keys == if mark then old(vg.edges).Keys + {id} else old(vg.edges).Keys - {id}
      ensures forall e: EdgeId :: e in vg.edges && e != id ==> vg.edges[e] == old(vg.edges)[e]
      ensures mark ==> vg.edges[id].status.del && !vg.edges[id].status.hold
      ensures mark && id in old(vg.edges) ==>
                && vg.edges[id].from == old(vg.edges)[id].from && vg.edges[id].to == old(vg.edges)[id].to
                && vg.edges[id].value == old(vg.edges)[id].value
                && vg.edges[id].status.direction == old(vg.edges)[id].status.direction
                && vg.edges[id].status.layer == old(vg.edges)[id].status.layer
      ensures mark && id !in old(vg.edges) ==>
                vg.edges[id] == Edge(0, 0, 0.0, EdgeStatus(false, false, true, 0, 0))
      ensures id !in old(vg.edges) ==>
                && vg.nodes.Keys == old(vg.nodes).Keys + {0}
                && (forall v: NodeId :: v in old(vg.nodes) ==> vg.nodes[v] == old(vg.nodes)[v])
                && (0 !in old(vg.nodes) ==> vg.nodes[0] == Node([[], [], [], []], false, 0))
      ensures forall v: NodeId, l: nat :: v in vg.nodes && l < MAX_LAYER_SIZE ==> id !in vg.nodes[v].edges[l]
      ensures Indexed(vg.nodes, vg.edges)
    {
      hide Dropped, ListAgrees, AllPurged, Indexed, WithNode;
      ghost var edges := if id in vg.edges then vg.edges else vg.edges[id := BLANK_EDGE];
      if id !in vg.edges {
        DeleteUnknown(id, mark);
      } else {
        DeleteKnown(id, mark);
      }
      DroppedFields(edges, id, mark);
      BlankRecords(old(vg.nodes), old(vg.edges), id);
      DeadIsNowhere(vg.nodes, vg.edges, id);
    }

    /** The records the source's maps make of an unknown key are made first. */
    method DeleteUnknown(id: EdgeId, mark: bool)
      requires Indexed(vg.nodes, vg.edges) && id !in vg.edges
      modifies vg
      ensures vg.nodes == WithNode(old(vg.nodes), BLANK_EDGE.from)
      ensures vg.edges == Dropped(old(vg.edges)[id := BLANK_EDGE], id, mark)
      ensures Indexed(vg.nodes, vg.edges)
    {
      vg.nodes := WithNode(vg.nodes, BLANK_EDGE.from);
      BlankKeepsIndex(old(vg.nodes), vg.edges, id, mark);
      BlankIsNowhere(vg.nodes, vg.edges, id);
      vg.edges := vg.edges[id := BLANK_EDGE];
      EraseEdgeFrom(id, BLANK_EDGE.from);
      EraseEdgeFrom(id, BLANK_EDGE.to);
      assert vg.nodes == WithNode(old(vg.nodes), BLANK_EDGE.from);
      DropRecord(id, mark);
    }

    /** The last step: the record is marked, or dropped. */
    method DropRecord(id: EdgeId, mark: bool)
      requires id in vg.edges
      modifies vg`edges
      ensures vg.edges == Dropped(old(vg.edges), id, mark)
    {
      if mark {
        vg.edges := vg.edges[id := vg.edges[id].(status := vg.edges[id].status.(hold := true))];
        vg.edges := vg.edges[id := vg.edges[id].(status := vg.edges[id].status.(del := true))];
        vg.edges := vg.edges[id := vg.edges[id].(status := vg.edges[id].status.(hold := false))];
        assert vg.edges == Dropped(old(vg.edges), id, mark);
      } else {
        vg.edges := vg.edges - {id};
      }
    }

    /** The edge leaves every list; its record is marked as deleted, or dropped. */
    method DeleteKnown(id: EdgeId, mark: bool)
      requires Indexed(vg.nodes, vg.edges) && id in vg.edges
      modifies vg
      ensures AllPurged(old(vg.nodes), vg.nodes, id)
      ensures vg.edges == Dropped(old(vg.edges), id, mark)
      ensures Indexed(vg.nodes, vg.edges)
    {
      hide StrictlySorted, HeldOnce, Purged, ListAgrees;
      ghost var nodes := vg.nodes;
      var from, to := vg.edges[id].from, vg.edges[id].to;
      forall v | v in nodes
        ensures HeldOnce(nodes[v], id)
        ensures v != from && v != to ==> Purged(nodes[v], id) == nodes[v]
        ensures Purged(Purged(nodes[v], id), id) == Purged(nodes[v], id) && HeldOnce(Purged(nodes[v], id), id)
      {
        IndexedHoldsOnce(nodes, vg.edges, v, id);
        PurgedTwice(nodes[v], id);
      }
      EraseEdgeFrom(id, from);
      EraseEdgeFrom(id, to);
      DroppingKeepsIndex(nodes, vg.nodes, vg.edges, id, mark);
      DropRecord(id, mark);
    }

    /** `neighbors` with nodes: adds those that a live edge leads to. */
    method Neighbors(node: NodeId, n: set<NodeId>, level: nat) returns (ok: bool, n': set<NodeId>)
      requires Indexed(vg.nodes, vg.edges) && node in vg.nodes && level < MAX_LAYER_SIZE
      ensures ok <==> n != {} || exists v: NodeId :: NextTo(vg.edges, node, v, level)
      ensures ok ==> forall v: NodeId :: v in n' <==> v in n || NextTo(vg.edges, node, v, level)
      ensures !ok ==> n' == vg.nodes.Keys - {node}
    {
      hide ListAgrees, NeighborSet, NextTo;
      forall v: NodeId
        ensures v in NeighborSet(vg.nodes, vg.edges, node, level) <==> NextTo(vg.edges, node, v, level)
      {
        NeighborsExactly(vg.nodes, vg.edges, node, v, level);
      }
      ok, n' := vg.Neighbors(node, n, level);
    }

    /** The smallest common edge of the highest layer where both nodes have one. For distinct nodes
        that is a live edge joining them, and there is an answer exactly when one exists. */
    method GetEdgeID(from: NodeId, to: NodeId) returns (r: Lookup)
      requires Indexed(vg.nodes, vg.edges)
      ensures r.NoNode? <==> from !in vg.nodes || to !in vg.nodes
      ensures r.Found? ==> exists level: nat ::
                && level < MAX_LAYER_SIZE && Shared(vg.edges, r.id, from, to, level)
                && (forall e: EdgeId :: Shared(vg.edges, e, from, to, level) ==> r.id <= e)
                && forall e: EdgeId, l: nat :: level < l ==> !Shared(vg.edges, e, from, to, l)
      ensures r.NoEdge? ==> forall e: EdgeId, level: nat :: !Shared(vg.edges, e, from, to, level)
      ensures from != to && r.Found? ==>
                r.id in vg.edges && !vg.edges[r.id].status.del && Joins(vg.edges[r.id], from, to)
      ensures from in vg.nodes && to in vg.nodes && from != to ==>
                (r.Found? <==>
                    exists e: EdgeId :: e in vg.edges && !vg.edges[e].status.del && Joins(vg.edges[e], from, to))
    {
      hide StrictlySorted;
      if from !in vg.nodes || to !in vg.nodes {
        return NoNode;
      }
      if from != to {
        SharedJoins(vg.edges, from, to);
      }
      var level := MAX_LAYER_SIZE;
      while level > 0
        invariant level <= MAX_LAYER_SIZE
        invariant forall e: EdgeId, l: nat :: level <= l ==> !Shared(vg.edges, e, from, to, l)
      {
        level := level - 1;
        assert ListAgrees(vg.nodes[from].edges[level], vg.edges, from, level);
        assert ListAgrees(vg.nodes[to].edges[level], vg.edges, to, level);
        var conns := Intersect(vg.nodes[from].edges[level], vg.nodes[to].edges[level]);
        assert forall e: EdgeId :: e in conns <==> Shared(vg.edges, e, from, to, level);
        if |conns| > 0 {
          FirstIsSmallest(conns);
          assert Shared(vg.edges, conns[0], from, to, level);
          return Found(conns[0]);
        }
      }
      return NoEdge;
    }

    /** The edges of a node at a layer, in id order. */
    method NeighborEdges(node: NodeId, level: nat) returns (n: seq<EdgeId>)
      requires Indexed(vg.nodes, vg.edges) && node in vg.nodes && level < MAX_LAYER_SIZE
      ensures n == vg.nodes[node].edges[level]
      ensures ListAgrees(n, vg.edges, node, level)
    {
      n := vg.nodes[node].edges[level];
    }
  }

  lemma IndexedIsLayered(nodes: Nodes, edges: Edges)
    requires Indexed(nodes, edges)
    ensures Layered(nodes)
  {
  }

  lemma FilteredSame(s: seq<EdgeId>, x: EdgeId)
    requires |Filtered(s, x)| == |s|
    ensures x !in s
  {
    if s != [] {
      assert s == [s[0]] + s[1..];
      FilteredSame(s[1..], x);
    }
  }

  lemma FirstIsSmallest(s: seq<EdgeId>)
    requires |s| > 0 && StrictlySorted(s, LessThan)
    ensures forall e: EdgeId :: e in s ==> s[0] <= e
  {
    forall e: EdgeId | e in s
      ensures s[0] <= e
    {
      var k :| 0 <= k < |s| && s[k] == e;
      assert k > 0 ==> LessThan(s[0], s[k]);
    }
  }
}
