/** Degree clipping of the HNSW index in src/operand/query/HNSW.cpp: insertions into the virtual
    network that keep every node under its number of connections, whatever neighbours are chosen. */
module Hnsw {
  import opened GraphModel
  import opened SortedLists
  import opened VirtualNetwork

  /** At most `bound` edges in every list. */
  ghost predicate Bounded(nodes: Nodes, bound: nat) {
    forall v: NodeId, l: nat :: v in nodes && l < |nodes[v].edges| ==> |nodes[v].edges[l]| <= bound
  }

  /** Stored edges are live, two-way, measured, and numbered below `next`. */
  ghost predicate Sound(edges: Edges, next: EdgeId) {
    forall e :: e in edges ==>
      !edges[e].status.del && edges[e].status.direction == 0 && edges[e].value >= 0.0 && e < next
  }

  /** `far` is the edge a clip removes: of largest value, and the last of those in id order. */
  ghost predicate Farthest(edges: Edges, list: seq<EdgeId>, far: EdgeId) {
    && far in list
    && forall e: EdgeId :: e in list && e in edges && far in edges ==>
         edges[e].value <= edges[far].value && (edges[e].value == edges[far].value ==> e <= far)
  }

  lemma PurgedShrinks(nodes: Nodes, nodes': Nodes, id: EdgeId, bound: nat)
    requires AllPurged(nodes, nodes', id) && Bounded(nodes, bound)
    ensures Bounded(nodes', bound)
    ensures Layered(nodes) ==> Layered(nodes')
    ensures forall v: NodeId, l: nat :: v in nodes && l < |nodes[v].edges| ==>
              |nodes'[v].edges[l]| <= |nodes[v].edges[l]|
  {
  }

  /** Entering an edge between two nodes with room keeps the bound. */
  lemma EnteredFits(nodes: Nodes, id: EdgeId, from: NodeId, to: NodeId, level: nat, bound: nat)
    requires Layered(nodes) && level < MAX_LAYER_SIZE && from in nodes && to in nodes && from != to
    requires Bounded(nodes, bound)
    requires |nodes[from].edges[level]| < bound && |nodes[to].edges[level]| < bound
    ensures Bounded(Entered(nodes, id, from, to, level), bound)
  {
    InsertedGrowsByOne(nodes[from].edges[level], id);
    InsertedGrowsByOne(nodes[to].edges[level], id);
  }

  lemma InsertedGrowsByOne(s: seq<EdgeId>, x: EdgeId)
    ensures |Inserted(s, x, LessThan)| <= |s| + 1
  {
  }

  /** Two-way edges make neighbourhood symmetric. */
  lemma LinkedBothWays(nodes: Nodes, edges: Edges, a: NodeId, b: NodeId, level: nat, next: EdgeId)
    requires Indexed(nodes, edges) && Sound(edges, next) && a in nodes && b in nodes && level < MAX_LAYER_SIZE
    requires Linked(nodes, edges, a, b, level)
    ensures Linked(nodes, edges, b, a, level)
  {
    var list := nodes[b].edges[level];
    assert ListAgrees(list, edges, b, level);
    var k :| 0 <= k < |list| && list[k] in edges && !edges[list[k]].status.del && FarEnd(edges[list[k]], b) == a;
    var e := list[k];
    assert e in list && LiveAt(edges, e, b, level);
    assert ListAgrees(nodes[a].edges[level], edges, a, level);
    assert LiveAt(edges, e, a, level);
    assert e in nodes[a].edges[level];
    assert FarEnd(edges[e], a) == b;
  }

  /** A freshly entered one-way edge is seen from its source. */
  lemma FreshIsLinked(nodes: Nodes, edges: Edges, id: EdgeId, from: NodeId, to: NodeId, value: real, level: nat)
    requires Layered(nodes) && level < MAX_LAYER_SIZE && from in nodes && to in nodes && from != to
    requires StrictlySorted(nodes[from].edges[level], LessThan)
    ensures Linked(Entered(nodes, id, from, to, level), edges[id := NewEdge(from, to, value, level)], to, from, level)
  {
    var nodes', edges' := Entered(nodes, id, from, to, level), edges[id := NewEdge(from, to, value, level)];
    EnteredLists(nodes, id, from, to, level, from, level);
    var list := nodes'[from].edges[level];
    assert id in list;
    var k :| 0 <= k < |list| && list[k] == id;
    assert FarEnd(edges'[id], from) == to;
  }

  /** After a clip the node has room for one more edge, and no list has grown. */
  lemma ClippedHasRoom(nodes: Nodes, nodes': Nodes, node: NodeId, level: nat, bound: nat)
    requires Layered(nodes) && Layered(nodes') && node in nodes && level < MAX_LAYER_SIZE && bound > 0
    requires Bounded(nodes, bound)
    requires StrictlySorted(nodes[node].edges[level], LessThan)
    requires var list := nodes[node].edges[level];
             if |list| >= bound && list != [] then exists far: EdgeId :: far in list && AllPurged(nodes, nodes', far)
             else nodes' == nodes
    ensures nodes'.Keys == nodes.Keys && Bounded(nodes', bound)
    ensures |nodes'[node].edges[level]| < bound
    ensures forall v: NodeId, l: nat :: v in nodes && l < MAX_LAYER_SIZE ==> |nodes'[v].edges[l]| <= |nodes[v].edges[l]|
  {
    var list := nodes[node].edges[level];
    if |list| >= bound && list != [] {
      var far: EdgeId :| far in list && AllPurged(nodes, nodes', far);
      PurgedShrinks(nodes, nodes', far, bound);
      LessThanIsOrder();
      FilteredLength(list, far, LessThan);
    }
  }

  // ------------------------------------------------------------------- what joining does to the edges

  /** The live edges at a node on a layer. */
  ghost function EdgesAt(edges: Edges, v: NodeId, level: nat): (s: set<EdgeId>)
    ensures forall e: EdgeId :: e in s <==>
              e in edges && !edges[e].status.del && edges[e].status.layer == level
                && (edges[e].from == v || edges[e].to == v)
  {
    set e | e in edges && LiveAt(edges, e, v, level)
  }

  /** With `room` edges at the node or more, the one that is gone is the farthest, and the last of those in id
      order; otherwise none is. */
  ghost predicate Clips(edges: Edges, v: NodeId, level: nat, room: nat, gone: set<EdgeId>) {
    if |EdgesAt(edges, v, level)| >= room && EdgesAt(edges, v, level) != {} then
      exists far: EdgeId ::
        && far in EdgesAt(edges, v, level) && gone == {far}
        && forall e: EdgeId :: e in EdgesAt(edges, v, level) ==>
             edges[e].value < edges[far].value || (edges[e].value == edges[far].value && e <= far)
    else gone == {}
  }

  /** A live two-way edge of the layer joins the nodes. */
  ghost predicate JoinedAt(edges: Edges, a: NodeId, b: NodeId, level: nat) {
    exists e: EdgeId ::
      && e in edges && !edges[e].status.del && edges[e].status.layer == level && edges[e].status.direction == 0
      && ((edges[e].from == a && edges[e].to == b) || (edges[e].from == b && edges[e].to == a))
  }

  /** The edge map after joining: at most one edge of each end is gone, then there is the new one unless the nodes
      were joined still. */
  ghost predicate Connected(edges: Edges, edges': Edges, a: NodeId, b: NodeId, d: real, level: nat, room: nat,
                            id: EdgeId) {
    exists gone: set<EdgeId>, gone': set<EdgeId> ::
      && Clips(edges, a, level, room, gone) && Clips(edges - gone, b, level, room, gone')
      && edges' == JoinedBy(edges - gone - gone', a, b, d, level, id)
  }

  ghost function JoinedBy(left: Edges, a: NodeId, b: NodeId, d: real, level: nat, id: EdgeId): Edges {
    if JoinedAt(left, a, b, level) then left
    else left[id := Edge(a, b, d, EdgeStatus(false, false, false, 0, level))]
  }

  /** One list of the network holds exactly the edges at its node. */
  lemma ListIsEdgesAt(nodes: Nodes, edges: Edges, v: NodeId, level: nat)
    requires Indexed(nodes, edges) && v in nodes && level < MAX_LAYER_SIZE
    ensures
      var list := nodes[v].edges[level];
      Members(list) == EdgesAt(edges, v, level) && |list| == |EdgesAt(edges, v, level)|
  {
    hide StrictlySorted;
    var list := nodes[v].edges[level];
    assert ListAgrees(list, edges, v, level);
    SortedMembers(list);
  }

  /** What a clip removes, seen from the edges. */
  lemma ClipIsClips(nodes: Nodes, edges: Edges, v: NodeId, level: nat, room: nat, far: EdgeId)
    requires Indexed(nodes, edges) && v in nodes && level < MAX_LAYER_SIZE
    requires var list := nodes[v].edges[level]; |list| >= room && list != [] && Farthest(edges, list, far)
    ensures Clips(edges, v, level, room, {far})
  {
    var list := nodes[v].edges[level];
    hide Indexed, LiveAt;
    ListIsEdgesAt(nodes, edges, v, level);
    assert forall e: EdgeId :: e in list <==> e in Members(list);
    assert far in EdgesAt(edges, v, level);
  }

  lemma NoClipIsClips(nodes: Nodes, edges: Edges, v: NodeId, level: nat, room: nat)
    requires Indexed(nodes, edges) && v in nodes && level < MAX_LAYER_SIZE
    requires var list := nodes[v].edges[level]; |list| < room || list == []
    ensures Clips(edges, v, level, room, {})
  {
    hide Indexed, LiveAt;
    ListIsEdgesAt(nodes, edges, v, level);
  }

  lemma LinkedIsJoined(nodes: Nodes, edges: Edges, a: NodeId, b: NodeId, level: nat, next: EdgeId)
    requires Indexed(nodes, edges) && Sound(edges, next) && b in nodes && level < MAX_LAYER_SIZE && a != b
    ensures Linked(nodes, edges, a, b, level) <==> JoinedAt(edges, a, b, level)
  {
    hide Indexed, NeighborSet;
    NeighborsExactly(nodes, edges, b, a, level);
    if NextTo(edges, b, a, level) {
      var e: EdgeId :| && e in edges && !edges[e].status.del && edges[e].status.layer == level
                       && Leads(edges[e], b, a);
      assert edges[e].status.direction == 0;
    }
    if JoinedAt(edges, a, b, level) {
      var e: EdgeId :|
        && e in edges && !edges[e].status.del && edges[e].status.layer == level && edges[e].status.direction == 0
        && ((edges[e].from == a && edges[e].to == b) || (edges[e].from == b && edges[e].to == a));
      assert Leads(edges[e], b, a);
    }
  }

  lemma NewIsTwoWay(a: NodeId, b: NodeId, d: real, level: nat)
    ensures TwoWay(NewEdge(a, b, d, level)) == Edge(a, b, d, EdgeStatus(false, false, false, 0, level))
  {
  }

  /** Linking two nodes of a network is joining them. */
  lemma LinkIsJoinedBy(nodes: Nodes, left: Edges, edges': Edges, a: NodeId, b: NodeId, d: real, level: nat, id: EdgeId)
    requires Indexed(nodes, left) && Sound(left, id) && b in nodes && level < MAX_LAYER_SIZE && a != b
    requires edges' == if Linked(nodes, left, a, b, level) then left else left[id := TwoWay(NewEdge(a, b, d, level))]
    ensures edges' == JoinedBy(left, a, b, d, level, id)
  {
    hide Indexed, Sound, Linked, JoinedAt, TwoWay, NewEdge;
    LinkedIsJoined(nodes, left, a, b, level, id);
    NewIsTwoWay(a, b, d, level);
  }

  // ------------------------------------------------------------------- what an insertion does to the edges

  /** A chosen neighbour, its distance, and the layer. */
  type Choice = (NodeId, real, nat)

  function LayerLinks(layer: seq<(NodeId, real)>, sid: NodeId, level: nat): seq<Choice> {
    if layer == [] then []
    else
      var last := layer[|layer| - 1];
      LayerLinks(layer[..|layer| - 1], sid, level) + if last.0 == sid then [] else [(last.0, last.1, level)]
  }

  /** The choices from the top layer down to `lvl`, but for the node itself. */
  function LinksFrom(choices: seq<seq<(NodeId, real)>>, sid: NodeId, lvl: nat): seq<Choice>
    decreases |choices| - lvl
  {
    if lvl >= |choices| then [] else LinksFrom(choices, sid, lvl + 1) + LayerLinks(choices[lvl], sid, lvl)
  }

  /** The node is joined to these choices one after the other, with ids counted up from `id`. */
  ghost predicate Linking(edges: Edges, edges': Edges, sid: NodeId, links: seq<Choice>, room: nat, id: EdgeId)
    decreases |links|
  {
    if links == [] then edges' == edges
    else
      var last := |links| - 1;
      exists mid ::
        && Linking(edges, mid, sid, links[..last], room, id)
        && Connected(mid, edges', sid, links[last].0, links[last].1, links[last].2, room, id + last)
  }

  lemma LinkingGoesOn(edges: Edges, mid: Edges, edges': Edges, sid: NodeId, links: seq<Choice>, c: Choice, room: nat,
                      id: EdgeId)
    requires Linking(edges, mid, sid, links, room, id)
    requires Connected(mid, edges', sid, c.0, c.1, c.2, room, id + |links|)
    ensures Linking(edges, edges', sid, links + [c], room, id)
  {
    hide Connected;
    assert (links + [c])[..|links|] == links;
  }

  /** What one joining leaves: the nodes joined, the other layers as they were, and no edge that is not there
      before or the new one. */
  lemma ConnectedMeans(edges: Edges, edges': Edges, a: NodeId, b: NodeId, d: real, level: nat, room: nat, id: EdgeId)
    requires Connected(edges, edges', a, b, d, level, room, id) && forall e: EdgeId :: e in edges ==> e < id
    ensures JoinedAt(edges', a, b, level)
    ensures forall e: EdgeId :: e in edges && edges[e].status.layer != level ==> e in edges' && edges'[e] == edges[e]
    ensures forall e: EdgeId :: e in edges' ==>
              if e < id then e in edges && edges'[e] == edges[e]
              else e == id && edges'[e] == Edge(a, b, d, EdgeStatus(false, false, false, 0, level))
  {
    hide JoinedAt;
    var gone: set<EdgeId>, gone': set<EdgeId> :|
      && Clips(edges, a, level, room, gone) && Clips(edges - gone, b, level, room, gone')
      && edges' == JoinedBy(edges - gone - gone', a, b, d, level, id);
    JoinedByJoins(edges - gone - gone', a, b, d, level, id);
    assert forall e: EdgeId :: e in gone ==> edges[e].status.layer == level;
    assert forall e: EdgeId :: e in gone' ==> edges[e].status.layer == level;
  }

  lemma JoinedByJoins(left: Edges, a: NodeId, b: NodeId, d: real, level: nat, id: EdgeId)
    ensures JoinedAt(JoinedBy(left, a, b, d, level, id), a, b, level)
  {
    assert !JoinedAt(left, a, b, level) ==>
             JoinedBy(left, a, b, d, level, id)[id] == Edge(a, b, d, EdgeStatus(false, false, false, 0, level));
  }

  lemma JoinedElsewhere(edges: Edges, edges': Edges, a: NodeId, b: NodeId, level: nat)
    requires JoinedAt(edges, a, b, level)
    requires forall e: EdgeId :: e in edges && edges[e].status.layer == level ==> e in edges' && edges'[e] == edges[e]
    ensures JoinedAt(edges', a, b, level)
  {
  }

  /** No later choice is on its layer. */
  predicate IsLast(links: seq<Choice>, k: nat)
    requires k < |links|
  {
    forall j :: k < j < |links| ==> links[j].2 != links[k].2
  }

  /** The last choice of every layer is joined. */
  ghost predicate LastJoined(edges': Edges, sid: NodeId, links: seq<Choice>) {
    forall k: nat :: k < |links| && IsLast(links, k) ==> JoinedAt(edges', sid, links[k].0, links[k].2)
  }

  /** An edge that is new belongs to one of the choices; the others are as they were. */
  ghost predicate OnlyChosen(edges: Edges, edges': Edges, sid: NodeId, links: seq<Choice>, id: EdgeId) {
    forall e: EdgeId :: e in edges' ==>
      if e < id then e in edges && edges'[e] == edges[e]
      else e < id + |links| && Chosen(edges'[e], sid, links[e - id])
  }

  predicate Chosen(e: Edge, sid: NodeId, c: Choice) {
    e == Edge(sid, c.0, c.1, EdgeStatus(false, false, false, 0, c.2))
  }

  /** The layers without a choice are as they were. */
  ghost predicate OthersStay(edges: Edges, edges': Edges, links: seq<Choice>) {
    forall e: EdgeId :: e in edges && (forall k: nat :: k < |links| ==> links[k].2 != edges[e].status.layer) ==>
      e in edges' && edges'[e] == edges[e]
  }

  lemma {:induction false} LinkingMeans(edges: Edges, edges': Edges, sid: NodeId, links: seq<Choice>, room: nat,
                                        id: EdgeId)
    requires Linking(edges, edges', sid, links, room, id) && forall e: EdgeId :: e in edges ==> e < id
    ensures LastJoined(edges', sid, links) && OnlyChosen(edges, edges', sid, links, id)
    ensures OthersStay(edges, edges', links)
    decreases |links|
  {
    hide Connected, JoinedAt, LastJoined, OnlyChosen, OthersStay, Chosen;
    if links == [] {
      NothingLinked(edges, sid, id);
    } else {
      var last := |links| - 1;
      var c, rest := links[last], links[..last];
      var mid :| Linking(edges, mid, sid, rest, room, id)
        && Connected(mid, edges', sid, c.0, c.1, c.2, room, id + last);
      LinkingMeans(edges, mid, sid, rest, room, id);
      NumberedBelow(edges, mid, sid, rest, id);
      ConnectedMeans(mid, edges', sid, c.0, c.1, c.2, room, id + last);
      assert links == rest + [c];
      LastStaysJoined(mid, edges', sid, rest, c);
      ChosenGrows(edges, mid, edges', sid, rest, c, id);
      StayLonger(edges, mid, edges', rest, c);
    }
  }

  lemma NothingLinked(edges: Edges, sid: NodeId, id: EdgeId)
    requires forall e: EdgeId :: e in edges ==> e < id
    ensures LastJoined(edges, sid, []) && OnlyChosen(edges, edges, sid, [], id) && OthersStay(edges, edges, [])
  {
  }

  lemma NumberedBelow(edges: Edges, edges': Edges, sid: NodeId, links: seq<Choice>, id: EdgeId)
    requires OnlyChosen(edges, edges', sid, links, id)
    ensures forall e: EdgeId :: e in edges' ==> e < id + |links|
  {
  }

  lemma LastStaysJoined(mid: Edges, edges': Edges, sid: NodeId, rest: seq<Choice>, c: Choice)
    requires LastJoined(mid, sid, rest) && JoinedAt(edges', sid, c.0, c.2)
    requires forall e: EdgeId :: e in mid && mid[e].status.layer != c.2 ==> e in edges' && edges'[e] == mid[e]
    ensures LastJoined(edges', sid, rest + [c])
  {
    hide JoinedAt;
    var links := rest + [c];
    forall k: nat | k < |rest| && IsLast(links, k)
      ensures JoinedAt(edges', sid, links[k].0, links[k].2)
    {
      assert links[|rest|].2 != links[k].2 && links[k] == rest[k];
      assert forall j :: k < j < |rest| ==> links[j] == rest[j];
      JoinedElsewhere(mid, edges', sid, links[k].0, links[k].2);
    }
  }

  lemma ChosenGrows(edges: Edges, mid: Edges, edges': Edges, sid: NodeId, rest: seq<Choice>, c: Choice, id: EdgeId)
    requires OnlyChosen(edges, mid, sid, rest, id)
    requires forall e: EdgeId :: e in edges' ==>
               if e < id + |rest| then e in mid && edges'[e] == mid[e]
               else e == id + |rest| && edges'[e] == Edge(sid, c.0, c.1, EdgeStatus(false, false, false, 0, c.2))
    ensures OnlyChosen(edges, edges', sid, rest + [c], id)
  {
    var links := rest + [c];
    assert forall k: nat :: k < |rest| ==> links[k] == rest[k];
  }

  lemma StayLonger(edges: Edges, mid: Edges, edges': Edges, rest: seq<Choice>, c: Choice)
    requires OthersStay(edges, mid, rest)
    requires forall e: EdgeId :: e in mid && mid[e].status.layer != c.2 ==> e in edges' && edges'[e] == mid[e]
    ensures OthersStay(edges, edges', rest + [c])
  {
    var links := rest + [c];
    forall e: EdgeId | e in edges && forall k: nat :: k < |links| ==> links[k].2 != edges[e].status.layer
      ensures e in edges' && edges'[e] == edges[e]
    {
      assert links[|rest|].2 != edges[e].status.layer;
      assert forall k: nat :: k < |rest| ==> rest[k] == links[k];
    }
  }

  /** The last chosen neighbour of a layer, but for the node itself, is the last choice of its layer. */
  lemma {:induction false} LayerLinksAt(layer: seq<(NodeId, real)>, sid: NodeId, level: nat)
    ensures forall j :: 0 <= j < |LayerLinks(layer, sid, level)| ==> LayerLinks(layer, sid, level)[j].2 == level
    ensures forall k: nat :: k < |layer| && IsLastOther(layer, sid, k) ==>
              var links := LayerLinks(layer, sid, level);
              links != [] && links[|links| - 1] == (layer[k].0, layer[k].1, level)
  {
    if layer != [] {
      var rest := layer[..|layer| - 1];
      LayerLinksAt(rest, sid, level);
      var links := LayerLinks(layer, sid, level);
      forall k: nat | k < |layer| && IsLastOther(layer, sid, k)
        ensures links != [] && links[|links| - 1] == (layer[k].0, layer[k].1, level)
      {
        if k < |rest| {
          assert layer[|rest|].0 == sid && rest[k] == layer[k];
          assert forall j :: k < j < |rest| ==> rest[j] == layer[j];
          assert IsLastOther(rest, sid, k);
          assert links == LayerLinks(rest, sid, level);
        } else {
          assert links == LayerLinks(rest, sid, level) + [(layer[k].0, layer[k].1, level)];
        }
      }
    }
  }

  /** A neighbour that is not the node itself, and after which there is none on the layer. */
  predicate IsLastOther(layer: seq<(NodeId, real)>, sid: NodeId, k: nat)
    requires k < |layer|
  {
    layer[k].0 != sid && forall j :: k < j < |layer| ==> layer[j].0 == sid
  }

  ghost predicate HasLast(links: seq<Choice>, c: Choice) {
    exists i: nat :: i < |links| && IsLast(links, i) && links[i] == c
  }

  lemma {:induction false} LinksFromAt(choices: seq<seq<(NodeId, real)>>, sid: NodeId, lvl: nat, l: nat, k: nat)
    requires lvl <= l < |choices| && k < |choices[l]| && IsLastOther(choices[l], sid, k)
    ensures HasLast(LinksFrom(choices, sid, lvl), (choices[l][k].0, choices[l][k].1, l))
    decreases l - lvl
  {
    var upper, lower := LinksFrom(choices, sid, lvl + 1), LayerLinks(choices[lvl], sid, lvl);
    var links := LinksFrom(choices, sid, lvl);
    LayerLinksAt(choices[lvl], sid, lvl);
    if l == lvl {
      assert lower != [] && lower[|lower| - 1] == (choices[l][k].0, choices[l][k].1, l);
      var i: nat := |links| - 1;
      assert links[i] == lower[|lower| - 1] && IsLast(links, i);
      assert HasLast(links, (choices[l][k].0, choices[l][k].1, l));
    } else {
      LinksFromAt(choices, sid, lvl + 1, l, k);
      var i: nat :| i < |upper| && IsLast(upper, i) && upper[i] == (choices[l][k].0, choices[l][k].1, l);
      assert links[i] == upper[i];
      forall j | i < j < |links|
        ensures links[j].2 != links[i].2
      {
        assert links[j] == if j < |upper| then upper[j] else lower[j - |upper|];
      }
      assert IsLast(links, i);
      assert HasLast(links, upper[i]);
    }
  }

  /** So the last chosen neighbour of every layer is joined to the inserted node. */
  lemma LastChosenIsJoined(edges': Edges, sid: NodeId, choices: seq<seq<(NodeId, real)>>)
    requires LastJoined(edges', sid, LinksFrom(choices, sid, 0))
    ensures forall l: nat, k: nat :: l < |choices| && k < |choices[l]| && IsLastOther(choices[l], sid, k) ==>
              JoinedAt(edges', sid, choices[l][k].0, l)
  {
    hide JoinedAt, LinksFrom, IsLastOther, IsLast;
    forall l: nat, k: nat | l < |choices| && k < |choices[l]| && IsLastOther(choices[l], sid, k)
      ensures JoinedAt(edges', sid, choices[l][k].0, l)
    {
      LinksFromAt(choices, sid, 0, l, k);
    }
  }

  class Index {
    const network: Network
    const M: nat
    var nextEdge: EdgeId

    /** The network is indexed, its edges sound, and every list shorter than M. */
    ghost predicate Valid()
      reads this, network.vg
    {
      && M >= 2
      && Indexed(network.vg.nodes, network.vg.edges)
      && Sound(network.vg.edges, nextEdge)
      && Bounded(network.vg.nodes, M - 1)
    }

    constructor (m: nat)
      requires m >= 2
      ensures fresh(network) && fresh(network.vg) && M == m
      ensures network.vg.nodes == map[] && network.vg.edges == map[]
      ensures Valid()
    {
      network := new Network();
      M := m;
      nextEdge := 0;
    }

    /** If a node has `maxNeighbor` edges or more at a layer, its farthest one is deleted. */
    method ClipEdgeThenKeepNeighborSize(node: NodeId, level: nat, maxNeighbor: nat, ghost next: EdgeId)
      requires Indexed(network.vg.nodes, network.vg.edges) && Sound(network.vg.edges, next)
      requires node in network.vg.nodes && level < MAX_LAYER_SIZE
      modifies network.vg
      ensures Indexed(network.vg.nodes, network.vg.edges) && Sound(network.vg.edges, next)
      ensures var list := old(network.vg.nodes)[node].edges[level];
              if |list| >= maxNeighbor && list != [] then
                exists far: EdgeId ::
                  && far in old(network.vg.edges)
                  && Farthest(old(network.vg.edges), list, far)
                  && AllPurged(old(network.vg.nodes), network.vg.nodes, far)
                  && network.vg.edges == old(network.vg.edges) - {far}
              else network.vg.nodes == old(network.vg.nodes) && network.vg.edges == old(network.vg.edges)
      ensures exists gone ::
                && Clips(old(network.vg.edges), node, level, maxNeighbor, gone)
                && network.vg.edges == old(network.vg.edges) - gone
    {
      hide StrictlySorted, Clips;
      var neighbors := network.NeighborEdges(node, level);
      if |neighbors| >= maxNeighbor {
        var f := 0.0;
        var eid: EdgeId := 0;
        var found := false;
        for k := 0 to |neighbors|
          invariant network.vg.nodes == old(network.vg.nodes) && network.vg.edges == old(network.vg.edges)
          invariant !found ==> k == 0 && f == 0.0
          invariant found ==> eid in neighbors[..k] && eid in network.vg.edges && f == network.vg.edges[eid].value
          invariant found ==> forall i :: 0 <= i < k && neighbors[i] in network.vg.edges ==>
                                network.vg.edges[neighbors[i]].value <= f
                                  && (network.vg.edges[neighbors[i]].value == f ==> neighbors[i] <= eid)
        {
          assert neighbors[k] in neighbors;
          assert LiveAt(network.vg.edges, neighbors[k], node, level);
          var d := network.vg.edges[neighbors[k]].value;
          if d >= f {
            if found {
              Ascending(neighbors, k);
            }
            f, eid, found := d, neighbors[k], true;
          }
          assert neighbors[..k + 1] == neighbors[..k] + [neighbors[k]];
        }
        if found {
          assert Farthest(network.vg.edges, neighbors, eid);
          ClipIsClips(network.vg.nodes, network.vg.edges, node, level, maxNeighbor, eid);
          network.DeleteEdge(eid, false);
          assert network.vg.edges == old(network.vg.edges) - {eid};
          return;
        }
      }
      NoClipIsClips(network.vg.nodes, network.vg.edges, node, level, maxNeighbor);
      assert network.vg.edges == old(network.vg.edges) - {};
    }

    /** Joins two nodes by a new two-way edge, unless they are joined already. */
    method Link(eid: EdgeId, a: NodeId, b: NodeId, d: real, level: nat, ghost bound: nat)
      requires Indexed(network.vg.nodes, network.vg.edges) && Sound(network.vg.edges, eid)
      requires a in network.vg.nodes && b in network.vg.nodes && a != b && level < MAX_LAYER_SIZE && d >= 0.0
      requires Bounded(network.vg.nodes, bound)
      requires |network.vg.nodes[a].edges[level]| < bound && |network.vg.nodes[b].edges[level]| < bound
      modifies network.vg
      ensures Indexed(network.vg.nodes, network.vg.edges) && Sound(network.vg.edges, eid + 1)
      ensures Bounded(network.vg.nodes, bound) && network.vg.nodes.Keys == old(network.vg.nodes).Keys
      ensures if old(Linked(network.vg.nodes, network.vg.edges, a, b, level))
              then network.vg.nodes == old(network.vg.nodes) && network.vg.edges == old(network.vg.edges)
              else && network.vg.nodes == Entered(old(network.vg.nodes), eid, a, b, level)
                   && network.vg.edges == old(network.vg.edges)[eid := TwoWay(NewEdge(a, b, d, level))]
    {
      hide Indexed, StrictlySorted, Entered, NeighborSet, Inserted;
      ghost var nodes, edges := network.vg.nodes, network.vg.edges;
      IndexedFacts(nodes, edges, a, level);
      if Linked(nodes, edges, a, b, level) {
        LinkedBothWays(nodes, edges, a, b, level, eid);
      } else {
        FreshIsLinked(nodes, edges, eid, a, b, d, level);
        EnteredFits(nodes, eid, a, b, level, bound);
      }
      var r := network.AddEdge(eid, a, b, d, level);
      r := network.AddEdge(eid, b, a, d, level);
    }

    /** `addNode2Edge` for one layer and one chosen neighbour: clip both ends, then join them. */
    method Connect(a: NodeId, b: NodeId, d: real, level: nat)
      requires Valid() && a in network.vg.nodes && b in network.vg.nodes && a != b && level < MAX_LAYER_SIZE && d >= 0.0
      modifies network.vg, this`nextEdge
      ensures Valid() && network.vg.nodes.Keys == old(network.vg.nodes).Keys
      ensures nextEdge == old(nextEdge) + 1
      ensures Connected(old(network.vg.edges), network.vg.edges, a, b, d, level, M - 1, old(nextEdge))
    {
      hide Indexed, Sound, Bounded, Linked, Clips, JoinedBy, Entered, TwoWay, NewEdge;
      var eid := nextEdge;
      nextEdge := nextEdge + 1;
      ghost var nodes0 := network.vg.nodes;
      IndexedFacts(network.vg.nodes, network.vg.edges, a, level);
      ClipEdgeThenKeepNeighborSize(a, level, M - 1, eid);
      ghost var nodes1 := network.vg.nodes;
      ClippedHasRoom(nodes0, nodes1, a, level, M - 1);
      ghost var gone: set<EdgeId> :| Clips(old(network.vg.edges), a, level, M - 1, gone)
                                     && network.vg.edges == old(network.vg.edges) - gone;
      IndexedFacts(network.vg.nodes, network.vg.edges, b, level);
      ClipEdgeThenKeepNeighborSize(b, level, M - 1, eid);
      ClippedHasRoom(nodes1, network.vg.nodes, b, level, M - 1);
      ghost var gone': set<EdgeId> :| Clips(old(network.vg.edges) - gone, b, level, M - 1, gone')
                                      && network.vg.edges == old(network.vg.edges) - gone - gone';
      ghost var nodes2, left := network.vg.nodes, network.vg.edges;
      Link(eid, a, b, d, level, M - 1);
      LinkIsJoinedBy(nodes2, left, network.vg.edges, a, b, d, level, eid);
    }

    /** Inserts a node and connects it, layer by layer from the top, to any choice of neighbours. */
    method Insert(sid: NodeId, level: nat, choices: seq<seq<(NodeId, real)>>)
      requires Valid() && level < MAX_LAYER_SIZE && |choices| <= MAX_LAYER_SIZE
      requires forall l, k :: 0 <= l < |choices| && 0 <= k < |choices[l]| ==>
                 choices[l][k].1 >= 0.0 && (choices[l][k].0 == sid || choices[l][k].0 in network.vg.nodes)
      modifies network.vg, this`nextEdge
      ensures Valid() && network.vg.nodes.Keys == old(network.vg.nodes).Keys + {sid}
      ensures Linking(old(network.vg.edges), network.vg.edges, sid, LinksFrom(choices, sid, 0), M - 1, old(nextEdge))
      ensures forall l: nat, k: nat :: l < |choices| && k < |choices[l]| && IsLastOther(choices[l], sid, k) ==>
                JoinedAt(network.vg.edges, sid, choices[l][k].0, l)
      ensures OnlyChosen(old(network.vg.edges), network.vg.edges, sid, LinksFrom(choices, sid, 0), old(nextEdge))
      ensures OthersStay(old(network.vg.edges), network.vg.edges, LinksFrom(choices, sid, 0))
    {
      hide Indexed, Sound, Linking, Connected, LinksFrom, LayerLinks, LastJoined, OnlyChosen, OthersStay,
           IsLastOther, JoinedAt;
      NumberedBelowNext();
      ghost var edges, first := network.vg.edges, nextEdge;
      network.AddNode(sid, level);
      var lvl := |choices|;
      ghost var links: seq<Choice> := [];
      LinkingBegins(edges, choices, sid, M - 1, first);
      while lvl > 0
        invariant 0 <= lvl <= |choices|
        invariant Valid() && network.vg.nodes.Keys == old(network.vg.nodes).Keys + {sid}
        invariant links == LinksFrom(choices, sid, lvl) && nextEdge == first + |links|
        invariant Linking(edges, network.vg.edges, sid, links, M - 1, first)
      {
        lvl := lvl - 1;
        ghost var upper := links;
        LinksOfLayer(choices, sid, lvl);
        for k := 0 to |choices[lvl]|
          invariant Valid() && network.vg.nodes.Keys == old(network.vg.nodes).Keys + {sid}
          invariant links == upper + LayerLinks(choices[lvl][..k], sid, lvl) && nextEdge == first + |links|
          invariant Linking(edges, network.vg.edges, sid, links, M - 1, first)
        {
          var (nid, d) := choices[lvl][k];
          LayerLinksStep(choices[lvl], sid, lvl, k);
          if sid != nid {
            ghost var before := network.vg.edges;
            Connect(sid, nid, d, lvl);
            LinkingGoesOn(edges, before, network.vg.edges, sid, links, (nid, d, lvl), M - 1, first);
            links := links + [(nid, d, lvl)];
          }
        }
        assert choices[lvl][..|choices[lvl]|] == choices[lvl];
      }
      LinkingMeans(edges, network.vg.edges, sid, links, M - 1, first);
      LastChosenIsJoined(network.vg.edges, sid, choices);
    }

    lemma NumberedBelowNext()
      requires Valid()
      ensures forall e: EdgeId :: e in network.vg.edges ==> e < nextEdge
    {
    }
  }

  lemma LinkingBegins(edges: Edges, choices: seq<seq<(NodeId, real)>>, sid: NodeId, room: nat, id: EdgeId)
    ensures LinksFrom(choices, sid, |choices|) == [] && Linking(edges, edges, sid, [], room, id)
  {
  }

  lemma LinksOfLayer(choices: seq<seq<(NodeId, real)>>, sid: NodeId, lvl: nat)
    requires lvl < |choices|
    ensures LinksFrom(choices, sid, lvl) == LinksFrom(choices, sid, lvl + 1) + LayerLinks(choices[lvl], sid, lvl)
    ensures LayerLinks(choices[lvl][..0], sid, lvl) == []
  {
  }

  lemma LayerLinksStep(layer: seq<(NodeId, real)>, sid: NodeId, level: nat, k: nat)
    requires k < |layer|
    ensures LayerLinks(layer[..k + 1], sid, level)
         == LayerLinks(layer[..k], sid, level) + if layer[k].0 == sid then [] else [(layer[k].0, layer[k].1, level)]
  {
    assert layer[..k + 1][..k] == layer[..k];
  }

  lemma IndexedFacts(nodes: Nodes, edges: Edges, v: NodeId, level: nat)
    requires Indexed(nodes, edges) && v in nodes && level < MAX_LAYER_SIZE
    ensures Layered(nodes) && StrictlySorted(nodes[v].edges[level], LessThan)
  {
    assert ListAgrees(nodes[v].edges[level], edges, v, level);
  }

  lemma Ascending(s: seq<EdgeId>, k: nat)
    requires StrictlySorted(s, LessThan) && k < |s|
    ensures forall i :: 0 <= i < k ==> s[i] <= s[k]
  {
    assert forall i :: 0 <= i < k ==> LessThan(s[i], s[k]);
  }

  ghost function Members(list: seq<EdgeId>): set<EdgeId> {
    set e | e in list
  }

  lemma {:induction false} SortedMembers(list: seq<EdgeId>)
    requires StrictlySorted(list, LessThan)
    ensures |Members(list)| == |list|
  {
    if list != [] {
      var last := |list| - 1;
      SortedMembers(list[..last]);
      assert forall k :: 0 <= k < last ==> LessThan(list[k], list[last]);
      assert list == list[..last] + [list[last]];
      assert Members(list) == Members(list[..last]) + {list[last]};
    }
  }

  /** In a valid index every set of live edges meeting at one node of one layer has fewer than M members. */
  lemma DegreeBelowM(index: Index, v: NodeId, level: nat, incident: set<EdgeId>)
    requires index.Valid() && v in index.network.vg.nodes && level < MAX_LAYER_SIZE
    requires forall e: EdgeId :: e in incident ==> LiveAt(index.network.vg.edges, e, v, level)
    ensures |incident| <= index.M - 1
  {
    hide StrictlySorted;
    var list := index.network.vg.nodes[v].edges[level];
    assert ListAgrees(list, index.network.vg.edges, v, level);
    SortedMembers(list);
    var rest := Members(list) - incident;
    assert Members(list) == incident + rest;
    assert |Members(list)| == |incident| + |rest|;
  }
}
