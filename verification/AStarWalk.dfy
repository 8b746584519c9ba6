/** The A* walk of include/walk/AStarWalk.h over the in-memory graph.

  Whole paths are queued; a node is closed when it is popped, so a node may be queued, and
  expanded, several times. Edge costs and the heuristic are functions of node ids.
 */
module AStarWalk {
  import opened GraphModel
  import opened VirtualNetwork

  /** A queued path with its cost so far and its priority. */
  datatype Order = Order(ids: seq<NodeId>, g: real, h: real)

  datatype WalkResult = Preload | Stop | Finished

  // ------------------------------------------------------------------- graphs

  /** Who can be reached in one step at layer 0. */
  type Steps = map<NodeId, set<NodeId>>

  ghost function StepsOf(nodes: Nodes, edges: Edges): (s: Steps)
    ensures s.Keys == nodes.Keys
    ensures forall v :: v in s ==> s[v] == NeighborSet(nodes, edges, v, 0)
  {
    map v | v in nodes :: NeighborSet(nodes, edges, v, 0)
  }

  /** Every step ends at a known node. */
  ghost predicate Closed(s: Steps) {
    forall u, v :: u in s && v in s[u] ==> v in s
  }

  /** A walk along graph edges. */
  ghost predicate IsWalk(s: Steps, p: seq<NodeId>) {
    && |p| > 0
    && (forall i :: 0 <= i < |p| ==> p[i] in s)
    && forall i :: 0 < i < |p| ==> p[i] in s[p[i - 1]]
  }

  ghost predicate WalkTo(s: Steps, p: seq<NodeId>, from: NodeId, to: NodeId) {
    IsWalk(s, p) && p[0] == from && p[|p| - 1] == to
  }

  function WalkCost(p: seq<NodeId>, d: (NodeId, NodeId) -> real): real {
    if |p| < 2 then 0.0 else WalkCost(p[..|p| - 1], d) + d(p[|p| - 2], p[|p| - 1])
  }

  ghost predicate Simple(p: seq<NodeId>) {
    forall i, j :: 0 <= i < j < |p| ==> p[i] != p[j]
  }

  /** No negative edge, and the heuristic never drops by more than an edge costs. */
  ghost predicate Consistent(s: Steps, d: (NodeId, NodeId) -> real, h: NodeId -> real) {
    forall u, v :: u in s && v in s[u] ==> d(u, v) >= 0.0 && h(u) <= d(u, v) + h(v)
  }

  // ----------------------------------------------------------- walks along the edges of a network

  /** A walk from node to node along live edges of layer 0. */
  ghost predicate PathTo(nodes: Nodes, edges: Edges, p: seq<NodeId>, from: NodeId, to: NodeId) {
    && |p| > 0 && p[0] == from && p[|p| - 1] == to
    && (forall i :: 0 <= i < |p| ==> p[i] in nodes)
    && forall i :: 0 < i < |p| ==> NextTo(edges, p[i - 1], p[i], 0)
  }

  /** No negative edge, and the heuristic never drops by more than an edge costs. */
  ghost predicate ConsistentOn(nodes: Nodes, edges: Edges, d: (NodeId, NodeId) -> real, h: NodeId -> real) {
    forall u, v :: u in nodes && NextTo(edges, u, v, 0) ==> d(u, v) >= 0.0 && h(u) <= d(u, v) + h(v)
  }

  lemma StepsAreEdges(nodes: Nodes, edges: Edges)
    requires Indexed(nodes, edges)
    ensures forall u, v :: u in nodes ==> (v in StepsOf(nodes, edges)[u] <==> NextTo(edges, u, v, 0))
    ensures Closed(StepsOf(nodes, edges))
  {
    hide NextTo, NeighborSet;
    forall u, v | u in nodes
      ensures v in StepsOf(nodes, edges)[u] <==> NextTo(edges, u, v, 0)
    {
      NeighborsExactly(nodes, edges, u, v, 0);
    }
    forall u, v | u in nodes && NextTo(edges, u, v, 0)
      ensures v in nodes
    {
      EdgesEndAtNodes(nodes, edges, u, v);
    }
  }

  lemma EdgesEndAtNodes(nodes: Nodes, edges: Edges, u: NodeId, v: NodeId)
    requires Indexed(nodes, edges) && u in nodes && NextTo(edges, u, v, 0)
    ensures v in nodes
  {
  }

  /** In a network whose lists agree with its edges, the walks of the search are those along the edges. */
  lemma WalksArePaths(nodes: Nodes, edges: Edges, d: (NodeId, NodeId) -> real, h: NodeId -> real)
    requires Indexed(nodes, edges)
    ensures forall p, a, b :: WalkTo(StepsOf(nodes, edges), p, a, b) <==> PathTo(nodes, edges, p, a, b)
    ensures Consistent(StepsOf(nodes, edges), d, h) <==> ConsistentOn(nodes, edges, d, h)
  {
    hide NextTo, NeighborSet, Indexed;
    StepsAreEdges(nodes, edges);
  }

  /** What a walk answers there. */
  ghost predicate Answers(nodes: Nodes, edges: Edges, d: (NodeId, NodeId) -> real, h: NodeId -> real,
                          start: NodeId, target: NodeId, path: seq<NodeId>, r: WalkResult) {
    && (r == Preload ==> nodes == map[])
    && (r == Stop ==> PathTo(nodes, edges, path, start, target) && Simple(path))
    && (r == Stop && ConsistentOn(nodes, edges, d, h) ==>
          forall p :: PathTo(nodes, edges, p, start, target) ==> WalkCost(path, d) <= WalkCost(p, d))
    && (r == Finished ==> !exists p :: PathTo(nodes, edges, p, start, target))
  }

  lemma AnswersHold(nodes: Nodes, edges: Edges, d: (NodeId, NodeId) -> real, h: NodeId -> real,
                    start: NodeId, target: NodeId, path: seq<NodeId>, r: WalkResult)
    requires r == Preload ==> nodes == map[] || !Closed(StepsOf(nodes, edges))
    requires r == Stop ==> WalkTo(StepsOf(nodes, edges), path, start, target) && Simple(path)
    requires r == Stop && Consistent(StepsOf(nodes, edges), d, h) ==>
               forall p :: WalkTo(StepsOf(nodes, edges), p, start, target) ==> WalkCost(path, d) <= WalkCost(p, d)
    requires r == Finished ==> !exists p :: WalkTo(StepsOf(nodes, edges), p, start, target)
    ensures Indexed(nodes, edges) ==> Answers(nodes, edges, d, h, start, target, path, r)
  {
    hide Indexed, StepsOf, WalkTo, PathTo, Simple, WalkCost, Consistent, ConsistentOn, Closed;
    if Indexed(nodes, edges) {
      StepsAreEdges(nodes, edges);
      WalksArePaths(nodes, edges, d, h);
    }
  }

  lemma WalkSnoc(s: Steps, p: seq<NodeId>, v: NodeId, d: (NodeId, NodeId) -> real)
    requires IsWalk(s, p) && v in s && v in s[p[|p| - 1]]
    ensures IsWalk(s, p + [v])
    ensures WalkCost(p + [v], d) == WalkCost(p, d) + d(p[|p| - 1], v)
  {
    assert (p + [v])[..|p|] == p;
  }

  lemma WalkPrefix(s: Steps, p: seq<NodeId>, k: nat)
    requires IsWalk(s, p) && 0 < k <= |p|
    ensures IsWalk(s, p[..k])
  {
  }

  /** Along the rest of a walk, cost and heuristic together never fall. */
  lemma {:induction false} CostPlusHeuristicRises(s: Steps, p: seq<NodeId>, k: nat, d: (NodeId, NodeId) -> real,
                                                  h: NodeId -> real)
    requires IsWalk(s, p) && Consistent(s, d, h) && 0 < k <= |p|
    ensures WalkCost(p[..k], d) + h(p[k - 1]) <= WalkCost(p, d) + h(p[|p| - 1])
    decreases |p|
  {
    if k < |p| {
      var q := p[..|p| - 1];
      WalkPrefix(s, p, |p| - 1);
      CostPlusHeuristicRises(s, q, k, d, h);
      assert q[..k] == p[..k];
      assert p[|p| - 1] in s[p[|p| - 2]];
    } else {
      assert p[..k] == p;
    }
  }

  // ---------------------------------------------------------------- invariants

  /** What holds of one queued path. */
  ghost predicate Queued(s: Steps, start: NodeId, visited: set<NodeId>, o: Order, d: (NodeId, NodeId) -> real) {
    && WalkTo(s, o.ids, start, if |o.ids| > 0 then o.ids[|o.ids| - 1] else start)
    && Simple(o.ids)
    && (forall i :: 0 <= i < |o.ids| - 1 ==> o.ids[i] in visited)
    && o.g == WalkCost(o.ids, d)
  }

  /** Before the first pop the start path is alone in the queue; afterwards every queued path has a
      step, a priority of cost plus heuristic, and every edge leaving the closed nodes is queued. */
  ghost predicate Open(s: Steps, start: NodeId, visited: set<NodeId>, queue: seq<Order>, h: NodeId -> real) {
    if visited == {} then |queue| == 1 && queue[0].ids == [start]
    else
      && start in visited
      && (forall k :: 0 <= k < |queue| ==> |queue[k].ids| > 1 && queue[k].h == queue[k].g + h(Last(queue[k].ids)))
      && (forall x, y :: x in visited && x in s && y in s[x] && y !in visited ==> Waits(queue, y))
  }

  function Last(p: seq<NodeId>): NodeId {
    if p == [] then 0 else p[|p| - 1]
  }

  ghost predicate Waits(queue: seq<Order>, y: NodeId) {
    exists k :: 0 <= k < |queue| && Last(queue[k].ids) == y
  }

  ghost predicate WaitsWithin(queue: seq<Order>, y: NodeId, c: real) {
    exists k :: 0 <= k < |queue| && Last(queue[k].ids) == y && queue[k].g <= c
  }

  /** Every walk that leaves the closed nodes is matched by a queued path that is no dearer. */
  ghost predicate Frontier(s: Steps, start: NodeId, visited: set<NodeId>, queue: seq<Order>,
                           d: (NodeId, NodeId) -> real) {
    forall p, x, y :: x in visited && x in s && WalkTo(s, p, start, x) && y in s[x] && y !in visited ==>
      WaitsWithin(queue, y, WalkCost(p, d) + d(x, y))
  }

  ghost predicate Invariant(s: Steps, start: NodeId, target: NodeId, visited: set<NodeId>, queue: seq<Order>,
                            d: (NodeId, NodeId) -> real, h: NodeId -> real)
  {
    && start in s && visited <= s.Keys && target !in visited
    && (forall k :: 0 <= k < |queue| ==> Queued(s, start, visited, queue[k], d))
    && Open(s, start, visited, queue, h)
    && (Consistent(s, d, h) ==> Frontier(s, start, visited, queue, d))
  }

  /** No queued path sorts before the one at `top`. */
  predicate IsTop(queue: seq<Order>, top: nat) {
    top < |queue| && forall k :: 0 <= k < |queue| ==> queue[top].h <= queue[k].h
  }

  lemma {:induction false} SomeTop(queue: seq<Order>)
    requires queue != []
    ensures exists top: nat :: IsTop(queue, top)
  {
    if |queue| == 1 {
      assert IsTop(queue, 0);
    } else {
      var rest := queue[..|queue| - 1];
      SomeTop(rest);
      var t: nat :| IsTop(rest, t);
      var last := |queue| - 1;
      assert forall k :: 0 <= k < last ==> rest[k] == queue[k];
      if queue[last].h <= queue[t].h {
        assert IsTop(queue, last);
      } else {
        assert IsTop(queue, t);
      }
    }
  }

  // ------------------------------------------------------------------ optimality

  /** The first node of a walk that is not closed yet, its predecessor being closed. */
  lemma {:induction false} FirstOpen(p: seq<NodeId>, visited: set<NodeId>) returns (k: nat)
    requires |p| > 0 && p[0] in visited && p[|p| - 1] !in visited
    ensures 0 < k < |p| && p[k - 1] in visited && p[k] !in visited
  {
    if p[|p| - 2] in visited {
      k := |p| - 1;
    } else {
      k := FirstOpen(p[..|p| - 1], visited);
    }
  }

  lemma StartCost(s: Steps, start: NodeId, visited: set<NodeId>, o: Order, d: (NodeId, NodeId) -> real)
    requires Queued(s, start, visited, o, d) && o.ids == [start]
    ensures o.g == WalkCost([start], d) == 0.0
  {
  }

  /** The path on top of the queue, if its last node is not closed, is a cheapest walk to it. */
  lemma TopIsCheapest(s: Steps, start: NodeId, target: NodeId, visited: set<NodeId>, queue: seq<Order>,
                      d: (NodeId, NodeId) -> real, h: NodeId -> real, top: nat, p: seq<NodeId>)
    requires Invariant(s, start, target, visited, queue, d, h) && Consistent(s, d, h)
    requires IsTop(queue, top) && Last(queue[top].ids) !in visited
    requires WalkTo(s, p, start, Last(queue[top].ids))
    ensures queue[top].g <= WalkCost(p, d)
  {
    hide Queued, Consistent, WalkCost;
    if visited == {} {
      assert queue[top].g == WalkCost([start], d) == 0.0 by {
        StartCost(s, start, visited, queue[top], d);
      }
      CostIsNotNegative(s, p, d, h);
    } else {
      var k := FirstOpen(p, visited);
      WalkPrefix(s, p, k);
      assert WalkTo(s, p[..k], start, p[k - 1]);
      assert WaitsWithin(queue, p[k], WalkCost(p[..k], d) + d(p[k - 1], p[k]));
      var e :| 0 <= e < |queue| && Last(queue[e].ids) == p[k] && queue[e].g <= WalkCost(p[..k], d) + d(p[k - 1], p[k]);
      WalkSnoc(s, p[..k], p[k], d);
      assert p[..k] + [p[k]] == p[..k + 1];
      CostPlusHeuristicRises(s, p, k + 1, d, h);
    }
  }

  lemma {:induction false} CostIsNotNegative(s: Steps, p: seq<NodeId>, d: (NodeId, NodeId) -> real, h: NodeId -> real)
    requires IsWalk(s, p) && Consistent(s, d, h)
    ensures WalkCost(p, d) >= 0.0
  {
    if |p| > 1 {
      WalkPrefix(s, p, |p| - 1);
      CostIsNotNegative(s, p[..|p| - 1], d, h);
      assert p[|p| - 1] in s[p[|p| - 2]];
    }
  }

  /** As long as the target can be reached, the queue is not empty. */
  lemma ReachableTargetWaits(s: Steps, start: NodeId, target: NodeId, visited: set<NodeId>, queue: seq<Order>,
                             d: (NodeId, NodeId) -> real, h: NodeId -> real, p: seq<NodeId>)
    requires Invariant(s, start, target, visited, queue, d, h)
    requires WalkTo(s, p, start, target)
    ensures queue != []
  {
    if visited != {} {
      var k := FirstOpen(p, visited);
      assert p[k] in s[p[k - 1]];
      assert Waits(queue, p[k]);
    }
  }

  lemma TargetIsOpen(s: Steps, start: NodeId, target: NodeId, visited: set<NodeId>, queue: seq<Order>,
                     d: (NodeId, NodeId) -> real, h: NodeId -> real, p: seq<NodeId>)
    requires Invariant(s, start, target, visited, queue, d, h) && WalkTo(s, p, start, target)
    ensures target in s && target !in visited && visited <= s.Keys
  {
  }

  lemma RoomForTarget(s: Steps, start: NodeId, target: NodeId, visited: set<NodeId>, queue: seq<Order>,
                      d: (NodeId, NodeId) -> real, h: NodeId -> real, p: seq<NodeId>)
    requires Invariant(s, start, target, visited, queue, d, h) && WalkTo(s, p, start, target)
    ensures queue != [] && |visited| < |s|
  {
    hide Invariant, WalkTo;
    ReachableTargetWaits(s, start, target, visited, queue, d, h, p);
    TargetIsOpen(s, start, target, visited, queue, d, h, p);
    SubsetSize(visited + {target}, s.Keys);
  }

  /** With an empty queue, or every node visited, nothing leads to the target. */
  lemma NothingWaits(s: Steps, start: NodeId, target: NodeId, visited: set<NodeId>, queue: seq<Order>,
                     d: (NodeId, NodeId) -> real, h: NodeId -> real)
    requires Invariant(s, start, target, visited, queue, d, h)
    requires queue == [] || |visited| >= |s|
    ensures !exists p :: WalkTo(s, p, start, target)
  {
    hide Invariant, WalkTo;
    forall p
      ensures !WalkTo(s, p, start, target)
    {
      if WalkTo(s, p, start, target) {
        RoomForTarget(s, start, target, visited, queue, d, h, p);
      }
    }
  }

  // ----------------------------------------------------------------- one pop

  function Without(queue: seq<Order>, top: nat): seq<Order>
    requires top < |queue|
  {
    queue[..top] + queue[top + 1..]
  }

  /** The path pushed for a neighbour. */
  function Extended(o: Order, y: NodeId, d: (NodeId, NodeId) -> real, h: NodeId -> real): Order {
    var g := o.g + d(Last(o.ids), y);
    Order(o.ids + [y], g, g + h(y))
  }

  /** The queue after popping `top` and pushing the open neighbours of its last node. */
  ghost predicate Pushed(queue: seq<Order>, top: nat, ys: set<NodeId>, queue': seq<Order>,
                         d: (NodeId, NodeId) -> real, h: NodeId -> real)
    requires top < |queue|
  {
    && Without(queue, top) <= queue'
    && (forall y: NodeId :: y in ys ==> Extended(queue[top], y, d, h) in queue')
    && forall k :: |queue| - 1 <= k < |queue'| ==> ExtendsBy(queue[top], ys, queue'[k], d, h)
  }

  ghost predicate ExtendsBy(o: Order, ys: set<NodeId>, o': Order, d: (NodeId, NodeId) -> real, h: NodeId -> real) {
    exists y: NodeId :: y in ys && o' == Extended(o, y, d, h)
  }

  lemma ExtendedIsQueued(s: Steps, start: NodeId, visited: set<NodeId>, o: Order, y: NodeId,
                         d: (NodeId, NodeId) -> real, h: NodeId -> real)
    requires Queued(s, start, visited, o, d) && y in s && y in s[Last(o.ids)]
    requires y !in visited && y != Last(o.ids)
    ensures Queued(s, start, visited + {Last(o.ids)}, Extended(o, y, d, h), d)
  {
    WalkSnoc(s, o.ids, y, d);
    var ids := o.ids + [y];
    forall i, j | 0 <= i < j < |ids|
      ensures ids[i] != ids[j]
    {
      assert i < |o.ids| - 1 ==> o.ids[i] in visited;
    }
  }

  lemma WhichPushed(queue: seq<Order>, top: nat, ys: set<NodeId>, queue': seq<Order>,
                    d: (NodeId, NodeId) -> real, h: NodeId -> real, k: nat) returns (y: NodeId)
    requires top < |queue| && Pushed(queue, top, ys, queue', d, h) && |queue| - 1 <= k < |queue'|
    ensures y in ys && queue'[k] == Extended(queue[top], y, d, h)
  {
    assert ExtendsBy(queue[top], ys, queue'[k], d, h);
    y :| y in ys && queue'[k] == Extended(queue[top], y, d, h);
  }

  lemma PushedAreQueued(s: Steps, start: NodeId, visited: set<NodeId>, queue: seq<Order>,
                        d: (NodeId, NodeId) -> real, h: NodeId -> real, top: nat, queue': seq<Order>)
    requires top < |queue| && (forall k :: 0 <= k < |queue| ==> Queued(s, start, visited, queue[k], d))
    requires Last(queue[top].ids) in s && s[Last(queue[top].ids)] - visited <= s.Keys
    requires Pushed(queue, top, s[Last(queue[top].ids)] - visited - {Last(queue[top].ids)}, queue', d, h)
    ensures forall k :: 0 <= k < |queue'| ==> Queued(s, start, visited + {Last(queue[top].ids)}, queue'[k], d)
  {
    hide Queued;
    var x := Last(queue[top].ids);
    var ys := s[x] - visited - {x};
    assert Pushed(queue, top, ys, queue', d, h);
    forall k | 0 <= k < |queue'|
      ensures Queued(s, start, visited + {x}, queue'[k], d)
    {
      if k < |queue| - 1 {
        var o := queue[if k < top then k else k + 1];
        assert Without(queue, top)[k] == queue'[k] == o;
        QueuedGrows(s, start, visited, o, d, x);
      } else {
        var y := WhichPushed(queue, top, ys, queue', d, h, k);
        ExtendedIsQueued(s, start, visited, queue[top], y, d, h);
      }
    }
  }

  lemma QueuedGrows(s: Steps, start: NodeId, visited: set<NodeId>, o: Order, d: (NodeId, NodeId) -> real, x: NodeId)
    requires Queued(s, start, visited, o, d)
    ensures Queued(s, start, visited + {x}, o, d)
  {
  }

  lemma StillThere(queue: seq<Order>, top: nat, ys: set<NodeId>, queue': seq<Order>,
                   d: (NodeId, NodeId) -> real, h: NodeId -> real, e: nat) returns (e': nat)
    requires top < |queue| && e < |queue| && e != top && Pushed(queue, top, ys, queue', d, h)
    ensures e' < |queue'| && queue'[e'] == queue[e]
  {
    e' := if e < top then e else e - 1;
    assert Without(queue, top)[e'] == queue[e];
  }

  lemma JustPushed(queue: seq<Order>, top: nat, ys: set<NodeId>, queue': seq<Order>,
                   d: (NodeId, NodeId) -> real, h: NodeId -> real, y: NodeId) returns (e: nat)
    requires top < |queue| && y in ys && Pushed(queue, top, ys, queue', d, h)
    ensures e < |queue'| && queue'[e] == Extended(queue[top], y, d, h) && Last(queue'[e].ids) == y
  {
    assert Extended(queue[top], y, d, h) in queue';
    e :| 0 <= e < |queue'| && queue'[e] == Extended(queue[top], y, d, h);
  }

  lemma PopKeepsOpen(s: Steps, start: NodeId, target: NodeId, visited: set<NodeId>, queue: seq<Order>,
                     d: (NodeId, NodeId) -> real, h: NodeId -> real, top: nat, queue': seq<Order>)
    requires Invariant(s, start, target, visited, queue, d, h) && top < |queue|
    requires Last(queue[top].ids) in s
    requires Pushed(queue, top, s[Last(queue[top].ids)] - visited - {Last(queue[top].ids)}, queue', d, h)
    ensures Open(s, start, visited + {Last(queue[top].ids)}, queue', h)
  {
    hide Frontier, Consistent, Queued;
    var x0 := Last(queue[top].ids);
    var ys := s[x0] - visited - {x0};
    forall k | 0 <= k < |queue'|
      ensures |queue'[k].ids| > 1 && queue'[k].h == queue'[k].g + h(Last(queue'[k].ids))
    {
      if k < |queue| - 1 {
        assert queue'[k] == Without(queue, top)[k] == queue[if k < top then k else k + 1];
      } else {
        var y := WhichPushed(queue, top, ys, queue', d, h, k);
        NotEmpty(s, start, visited, queue[top], d);
      }
    }
    forall x, y | x in visited + {x0} && x in s && y in s[x] && y !in visited + {x0}
      ensures Waits(queue', y)
    {
      if x in visited {
        var e: nat :| e < |queue| && Last(queue[e].ids) == y;
        var e' := StillThere(queue, top, ys, queue', d, h, e);
      } else {
        var e := JustPushed(queue, top, ys, queue', d, h, y);
      }
    }
  }

  lemma NotEmpty(s: Steps, start: NodeId, visited: set<NodeId>, o: Order, d: (NodeId, NodeId) -> real)
    requires Queued(s, start, visited, o, d)
    ensures |o.ids| > 0 && o.ids[0] == start && Last(o.ids) in s && WalkTo(s, o.ids, start, Last(o.ids))
  {
  }

  lemma PopKeepsFrontier(s: Steps, start: NodeId, target: NodeId, visited: set<NodeId>, queue: seq<Order>,
                         d: (NodeId, NodeId) -> real, h: NodeId -> real, top: nat, queue': seq<Order>)
    requires Invariant(s, start, target, visited, queue, d, h) && Consistent(s, d, h) && top < |queue|
    requires IsTop(queue, top)
    requires Last(queue[top].ids) in s
    requires Pushed(queue, top, s[Last(queue[top].ids)] - visited - {Last(queue[top].ids)}, queue', d, h)
    ensures Frontier(s, start, visited + {Last(queue[top].ids)}, queue', d)
  {
    hide Consistent, Queued, Open, IsTop, WalkTo;
    var x0 := Last(queue[top].ids);
    var ys := s[x0] - visited - {x0};
    forall p, x, y | x in visited + {x0} && x in s && WalkTo(s, p, start, x) && y in s[x] && y !in visited + {x0}
      ensures WaitsWithin(queue', y, WalkCost(p, d) + d(x, y))
    {
      if x in visited {
        assert WaitsWithin(queue, y, WalkCost(p, d) + d(x, y));
        var e: nat :| e < |queue| && Last(queue[e].ids) == y && queue[e].g <= WalkCost(p, d) + d(x, y);
        var e' := StillThere(queue, top, ys, queue', d, h, e);
      } else {
        TopIsCheapest(s, start, target, visited, queue, d, h, top, p);
        var e := JustPushed(queue, top, ys, queue', d, h, y);
      }
    }
  }

  /** Popping the top and pushing its open neighbours keeps every invariant. */
  lemma PopKeepsInvariant(s: Steps, start: NodeId, target: NodeId, visited: set<NodeId>, queue: seq<Order>,
                          d: (NodeId, NodeId) -> real, h: NodeId -> real, top: nat, queue': seq<Order>)
    requires Invariant(s, start, target, visited, queue, d, h) && IsTop(queue, top)
    requires Last(queue[top].ids) != target
    requires Last(queue[top].ids) in s && s[Last(queue[top].ids)] - visited <= s.Keys
    requires Pushed(queue, top, s[Last(queue[top].ids)] - visited - {Last(queue[top].ids)}, queue', d, h)
    ensures Invariant(s, start, target, visited + {Last(queue[top].ids)}, queue', d, h)
  {
    hide Pushed, Queued, Open, Frontier, Consistent;
    PushedAreQueued(s, start, visited, queue, d, h, top, queue');
    PopKeepsOpen(s, start, target, visited, queue, d, h, top, queue');
    if Consistent(s, d, h) {
      PopKeepsFrontier(s, start, target, visited, queue, d, h, top, queue');
    }
  }

  // ----------------------------------------------------------------- termination

  function Power(b: nat, e: nat): nat {
    if e == 0 then 1 else b * Power(b, e - 1)
  }

  /** A path counts for less than all its extensions by one node together. */
  function Weight(n: nat, len: nat): nat {
    if len <= n then Power(n + 1, n - len) else 0
  }

  function QueueWeight(n: nat, queue: seq<Order>): nat {
    if queue == [] then 0 else QueueWeight(n, queue[..|queue| - 1]) + Weight(n, |queue[|queue| - 1].ids|)
  }

  lemma PowerPositive(b: nat, e: nat)
    requires b > 0
    ensures Power(b, e) > 0
  {
  }

  lemma {:induction false} WeightWithout(n: nat, queue: seq<Order>, top: nat)
    requires top < |queue|
    ensures QueueWeight(n, queue) == QueueWeight(n, Without(queue, top)) + Weight(n, |queue[top].ids|)
  {
    hide Weight;
    var last := |queue| - 1;
    if top == last {
      assert Without(queue, top) == queue[..last];
    } else {
      var init := queue[..last];
      WeightWithout(n, init, top);
      var rest := Without(queue, top);
      assert rest[..|rest| - 1] == Without(init, top);
      assert rest[|rest| - 1] == queue[last];
    }
  }

  /** Pushing at most n one-node extensions of a popped path leaves less weight than before. */
  lemma ExtensionsWeighLess(n: nat, len: nat, pushed: nat)
    requires 0 < len <= n && pushed <= n && (pushed > 0 ==> len < n)
    ensures pushed * Weight(n, len + 1) < Weight(n, len)
  {
    PowerPositive(n + 1, n - len);
    if pushed > 0 {
      var w := Power(n + 1, n - len - 1);
      PowerPositive(n + 1, n - len - 1);
      assert (n + 1) * w == n * w + w;
      assert pushed * w <= n * w;
    }
  }

  ghost function Elements(p: seq<NodeId>): set<NodeId> {
    set i | 0 <= i < |p| :: p[i]
  }

  lemma ElementsGrow(q: seq<NodeId>, v: NodeId)
    ensures Elements(q + [v]) == Elements(q) + {v}
  {
    var p := q + [v];
    assert p[|q|] == v && forall i :: 0 <= i < |q| ==> p[i] == q[i];
  }

  lemma {:induction false} SimpleSize(p: seq<NodeId>)
    requires Simple(p)
    ensures |Elements(p)| == |p|
  {
    if p != [] {
      var q := p[..|p| - 1];
      SimpleSize(q);
      ElementsGrow(q, p[|p| - 1]);
      assert p == q + [p[|p| - 1]];
    }
  }

  lemma SubsetSize<T>(a: set<T>, b: set<T>)
    requires a <= b
    ensures |a| <= |b|
    ensures |a| == |b| ==> a == b
  {
    assert b == a + (b - a);
    assert |b| == |a| + |b - a|;
  }

  /** A queued path is simple, so it holds at most every node; if it can be extended, one less. */
  lemma QueuedIsShort(s: Steps, start: NodeId, visited: set<NodeId>, o: Order, d: (NodeId, NodeId) -> real)
    requires Queued(s, start, visited, o, d) && visited <= s.Keys
    ensures 0 < |o.ids| <= |s|
    ensures (exists y :: y in s && y !in visited && y != Last(o.ids)) ==> |o.ids| < |s|
  {
    SimpleSize(o.ids);
    assert Elements(o.ids) <= s.Keys;
    SubsetSize(Elements(o.ids), s.Keys);
    if y :| y in s && y !in visited && y != Last(o.ids) {
      assert y !in Elements(o.ids);
    }
  }

  lemma KeepsSteps(a: Nodes, b: Nodes, edges: Edges, s: Steps)
    requires SameLists(a, b) && StepsOf(a, edges) == s && Layered(a)
    ensures StepsOf(b, edges) == s && Layered(b)
  {
    SameNeighbors(a, b, edges, 0);
  }

  lemma SameListsJoin(a: Nodes, b: Nodes, c: Nodes)
    requires SameLists(a, b) && SameLists(b, c)
    ensures SameLists(a, c)
  {
  }

  lemma SameListsItself(a: Nodes)
    ensures SameLists(a, a)
  {
  }

  lemma NotClosed(s: Steps, u: NodeId, v: NodeId)
    requires u in s && v in s[u] && v !in s
    ensures !Closed(s)
  {
  }

  lemma ExtendedIsLonger(o: Order, y: NodeId, d: (NodeId, NodeId) -> real, h: NodeId -> real)
    requires |o.ids| > 0
    ensures |Extended(o, y, d, h).ids| == |o.ids| + 1
  {
  }

  lemma PushOneWeighs(queue': seq<Order>, o: Order, n: nat)
    ensures QueueWeight(n, queue' + [o]) == QueueWeight(n, queue') + Weight(n, |o.ids|)
  {
    hide Weight;
    var more := queue' + [o];
    assert more[..|more| - 1] == queue';
  }

  lemma PushOne(queue: seq<Order>, top: nat, done: set<NodeId>, queue': seq<Order>,
                d: (NodeId, NodeId) -> real, h: NodeId -> real, y: NodeId)
    requires top < |queue| && Pushed(queue, top, done, queue', d, h)
    ensures Pushed(queue, top, done + {y}, queue' + [Extended(queue[top], y, d, h)], d, h)
  {
    hide Extended, Without;
    var o := Extended(queue[top], y, d, h);
    var more := queue' + [o];
    forall z: NodeId | z in done + {y}
      ensures Extended(queue[top], z, d, h) in more
    {
      if z == y {
        assert more[|queue'|] == o;
      } else {
        var k :| 0 <= k < |queue'| && queue'[k] == Extended(queue[top], z, d, h);
        assert more[k] == queue'[k];
      }
    }
    forall k | |queue| - 1 <= k < |more|
      ensures ExtendsBy(queue[top], done + {y}, more[k], d, h)
    {
      if k < |queue'| {
        assert ExtendsBy(queue[top], done, queue'[k], d, h);
      }
    }
  }

  /** The popped path has been extended by its open neighbours outside `todo`, and by no others. */
  ghost predicate Pushing(s: Steps, visited: set<NodeId>, queue: seq<Order>, d: (NodeId, NodeId) -> real,
                          h: NodeId -> real, top: nat, todo: set<NodeId>, queue': seq<Order>)
    requires top < |queue| && Last(queue[top].ids) in s
  {
    var x := Last(queue[top].ids);
    var done := s[x] - todo - visited - {x};
    && done <= s.Keys
    && Pushed(queue, top, done, queue', d, h)
    && QueueWeight(|s|, queue') == QueueWeight(|s|, Without(queue, top)) + Paid(done, Weight(|s|, |queue[top].ids| + 1))
  }

  /** The weight of so many paths. */
  ghost function Paid(done: set<NodeId>, w: nat): nat {
    |done| * w
  }

  lemma PushingBegins(s: Steps, start: NodeId, target: NodeId, visited: set<NodeId>, queue: seq<Order>,
                      d: (NodeId, NodeId) -> real, h: NodeId -> real, top: nat)
    requires Invariant(s, start, target, visited, queue, d, h) && IsTop(queue, top)
    ensures top < |queue| && |queue[top].ids| > 0 && Last(queue[top].ids) in s
    ensures Pushing(s, visited, queue, d, h, top, s[Last(queue[top].ids)], Without(queue, top))
  {
    hide Weight, QueueWeight;
    NotEmpty(s, start, visited, queue[top], d);
    var x := Last(queue[top].ids);
    assert s[x] - s[x] - visited - {x} == {};
  }

  lemma PushingSkips(s: Steps, visited: set<NodeId>, queue: seq<Order>, d: (NodeId, NodeId) -> real,
                     h: NodeId -> real, top: nat, todo: set<NodeId>, queue': seq<Order>, id: NodeId)
    requires top < |queue| && Last(queue[top].ids) in s
    requires Pushing(s, visited, queue, d, h, top, todo, queue') && (id in visited || id == Last(queue[top].ids))
    ensures Pushing(s, visited, queue, d, h, top, todo - {id}, queue')
  {
    hide Weight, QueueWeight, Pushed;
    var x := Last(queue[top].ids);
    assert s[x] - (todo - {id}) - visited - {x} == s[x] - todo - visited - {x};
  }

  lemma OneMore(done: set<NodeId>, id: NodeId, w: nat)
    requires id !in done
    ensures Paid(done + {id}, w) == Paid(done, w) + w
  {
    assert |done + {id}| == |done| + 1;
    assert (|done| + 1) * w == |done| * w + w;
  }

  lemma OneTodoLess(ys: set<NodeId>, todo: set<NodeId>, visited: set<NodeId>, x: NodeId, id: NodeId)
    requires id in ys && id in todo && id !in visited && id != x
    ensures ys - (todo - {id}) - visited - {x} == ys - todo - visited - {x} + {id}
    ensures id !in ys - todo - visited - {x}
  {
  }

  lemma PushingAdds(s: Steps, visited: set<NodeId>, queue: seq<Order>, d: (NodeId, NodeId) -> real,
                    h: NodeId -> real, top: nat, todo: set<NodeId>, queue': seq<Order>, id: NodeId)
    requires top < |queue| && |queue[top].ids| > 0 && Last(queue[top].ids) in s
    requires Pushing(s, visited, queue, d, h, top, todo, queue')
    requires id in todo && id in s && id in s[Last(queue[top].ids)] && id !in visited && id != Last(queue[top].ids)
    ensures Pushing(s, visited, queue, d, h, top, todo - {id}, queue' + [Extended(queue[top], id, d, h)])
  {
    hide Weight, QueueWeight, Pushed, Extended, Without, Last, Paid;
    var x := Last(queue[top].ids);
    var done := s[x] - todo - visited - {x};
    OneTodoLess(s[x], todo, visited, x, id);
    OneMore(done, id, Weight(|s|, |queue[top].ids| + 1));
    PushOne(queue, top, done, queue', d, h, id);
    PushOneWeighs(queue', Extended(queue[top], id, d, h), |s|);
    ExtendedIsLonger(queue[top], id, d, h);
  }

  /** Once every open neighbour is pushed, the invariant holds again and the queue weighs less. */
  lemma PushingEnds(s: Steps, start: NodeId, target: NodeId, visited: set<NodeId>, queue: seq<Order>,
                    d: (NodeId, NodeId) -> real, h: NodeId -> real, top: nat, queue': seq<Order>)
    requires Invariant(s, start, target, visited, queue, d, h) && IsTop(queue, top)
    requires Last(queue[top].ids) != target && Last(queue[top].ids) in s
    requires Pushing(s, visited, queue, d, h, top, {}, queue')
    ensures Invariant(s, start, target, visited + {Last(queue[top].ids)}, queue', d, h)
    ensures QueueWeight(|s|, queue') < QueueWeight(|s|, queue)
  {
    hide Invariant, Pushed, Weight, Without;
    var x := Last(queue[top].ids);
    var done := s[x] - {} - visited - {x};
    assert done == s[x] - visited - {x};
    assert s[x] - visited <= s.Keys;
    PopKeepsInvariant(s, start, target, visited, queue, d, h, top, queue');
    WeightWithout(|s|, queue, top);
    TopIsShort(s, start, target, visited, queue, d, h, top);
    SubsetSize(done, s.Keys);
    if |done| > 0 {
      var y: NodeId :| y in done;
    }
    ExtensionsWeighLess(|s|, |queue[top].ids|, |done|);
  }

  lemma TopFacts(s: Steps, start: NodeId, target: NodeId, visited: set<NodeId>, queue: seq<Order>,
                 d: (NodeId, NodeId) -> real, h: NodeId -> real, top: nat)
    requires Invariant(s, start, target, visited, queue, d, h) && IsTop(queue, top)
    ensures top < |queue| && |queue[top].ids| > 0 && target !in visited && visited <= s.Keys
    ensures WalkTo(s, queue[top].ids, start, Last(queue[top].ids)) && Simple(queue[top].ids)
    ensures queue[top].g == WalkCost(queue[top].ids, d)
    ensures Last(queue[top].ids) == queue[top].ids[|queue[top].ids| - 1]
  {
    NotEmpty(s, start, visited, queue[top], d);
  }

  lemma TopIsShort(s: Steps, start: NodeId, target: NodeId, visited: set<NodeId>, queue: seq<Order>,
                   d: (NodeId, NodeId) -> real, h: NodeId -> real, top: nat)
    requires Invariant(s, start, target, visited, queue, d, h) && top < |queue|
    ensures 0 < |queue[top].ids| <= |s|
    ensures (exists y :: y in s && y !in visited && y != Last(queue[top].ids)) ==> |queue[top].ids| < |s|
  {
    QueuedIsShort(s, start, visited, queue[top], d);
  }

  // ----------------------------------------------------------------- the walker

  /** `IAStarHeuristic`: remembers the path on which it succeeded. */
  class Heuristic {
    const target: NodeId
    var path: seq<NodeId>

    constructor (target: NodeId)
      ensures this.target == target && path == []
    {
      this.target, path := target, [];
    }

    method Success(l: seq<NodeId>) returns (ok: bool)
      requires l != []
      modifies this
      ensures ok <==> l[|l| - 1] == target
      ensures path == if ok then l else old(path)
    {
      if l[|l| - 1] == target {
        path := l;
        return true;
      }
      return false;
    }
  }

  class Walker {
    const heuristic: Heuristic
    const d: (NodeId, NodeId) -> real
    const h: NodeId -> real
    const startPriority: real
    var queue: seq<Order>
    var visited: set<NodeId>

    constructor (heuristic: Heuristic, d: (NodeId, NodeId) -> real, h: NodeId -> real, startPriority: real)
      ensures this.heuristic == heuristic && this.d == d && this.h == h
      ensures queue == [] && visited == {}
    {
      this.heuristic, this.d, this.h, this.startPriority := heuristic, d, h, startPriority;
      queue, visited := [], {};
    }

    /** The walk of `vg` under way from `start` keeps all its invariants. */
    ghost predicate Walking(vg: GMap, start: NodeId)
      reads this, vg, heuristic
    {
      Invariant(StepsOf(vg.nodes, vg.edges), start, heuristic.target, visited, queue, d, h)
    }

    /** The first node in id order, whatever node was asked for. */
    method Stand(vg: GMap, id: NodeId) returns (first: NodeId)
      requires vg.nodes != map[] && queue == [] && visited == {}
      modifies this`queue
      ensures first in vg.nodes && forall v :: v in vg.nodes ==> first <= v
      ensures Walking(vg, first)
    {
      first := Smallest(vg.nodes.Keys);
      queue := queue + [Order([first], 0.0, startPriority)];
    }

    /** Pushes the path to one open neighbour, if that node is loaded. */
    method PushNeighbor(vg: GMap, current: Order, id: NodeId, neighbors: set<NodeId>, ghost s: Steps)
        returns (loaded: bool)
      requires Layered(vg.nodes) && StepsOf(vg.nodes, vg.edges) == s && current.ids != []
      modifies this`queue, vg`nodes
      ensures SameLists(old(vg.nodes), vg.nodes) && Layered(vg.nodes) && StepsOf(vg.nodes, vg.edges) == s
      ensures loaded <==> id in s
      ensures queue == old(queue) + if loaded then [Extended(current, id, d, h)] else []
    {
      hide StepsOf, Layered, SameLists, NeighborSet;
      var collection;
      loaded, collection := vg.Visit(id);
      KeepsSteps(old(vg.nodes), vg.nodes, vg.edges, s);
      if loaded {
        var last := Last(current.ids);
        var g := current.g + d(last, id);
        queue := queue + [Order(current.ids + [id], g, g + h(id))];
        var again, same := vg.Neighbors(last, neighbors, 0);
      }
    }

    /** Pops the path at `top`, closes its last node and pushes a path for each open neighbour. */
    method Expand(vg: GMap, ghost start: NodeId, top: nat, ghost s: Steps) returns (ok: bool)
      requires Layered(vg.nodes) && StepsOf(vg.nodes, vg.edges) == s
      requires Invariant(s, start, heuristic.target, visited, queue, d, h)
      requires IsTop(queue, top) && Last(queue[top].ids) != heuristic.target
      modifies this`queue, this`visited, vg`nodes
      ensures SameLists(old(vg.nodes), vg.nodes) && Layered(vg.nodes) && StepsOf(vg.nodes, vg.edges) == s
      ensures ok ==> Invariant(s, start, heuristic.target, visited, queue, d, h)
      ensures ok ==> visited == old(visited) + {Last(old(queue)[top].ids)}
      ensures ok ==> QueueWeight(|s|, queue) < QueueWeight(|s|, old(queue))
      ensures !ok ==> !Closed(s)
    {
      hide Invariant, Pushing, IsTop, Weight, QueueWeight, Layered, SameLists, StepsOf, Without, Extended, Last,
           NeighborSet, Closed, Offers;
      ghost var before, closed := queue, visited;
      PushingBegins(s, start, heuristic.target, visited, queue, d, h, top);
      var current := queue[top];
      var last := Last(current.ids);
      queue := Without(queue, top);
      visited := visited + {last};
      var known, curInfo := vg.Visit(last);
      KeepsSteps(old(vg.nodes), vg.nodes, vg.edges, s);
      var any, neighbors := vg.Neighbors(last, {}, 0);
      assert NeighborSet(vg.nodes, vg.edges, last, 0) == s[last];
      assert {} + s[last] == s[last];
      if any {
        var todo := neighbors;
        while todo != {}
          invariant todo <= neighbors == s[last] && visited == closed + {last}
          invariant SameLists(old(vg.nodes), vg.nodes) && Layered(vg.nodes) && StepsOf(vg.nodes, vg.edges) == s
          invariant Pushing(s, closed, before, d, h, top, todo, queue)
          decreases |todo|
        {
          var id: NodeId :| id in todo;
          ghost var was, lists := queue, vg.nodes;
          if id !in visited {
            var loaded := PushNeighbor(vg, current, id, neighbors, s);
            SameListsJoin(old(vg.nodes), lists, vg.nodes);
            if !loaded {
              NotClosed(s, last, id);
              return false;
            }
            PushingAdds(s, closed, before, d, h, top, todo, was, id);
          } else {
            PushingSkips(s, closed, before, d, h, top, todo, was, id);
          }
          todo := todo - {id};
        }
      }
      PushingEnds(s, start, heuristic.target, closed, before, d, h, top, queue);
      return true;
    }

    /** Pops and expands until the target is on top, the queue is empty, or a step leads to a node
        that is not loaded. It terminates on every graph. */
    method Walk(vg: GMap, ghost start: NodeId) returns (r: WalkResult)
      requires Layered(vg.nodes)
      requires vg.Size() > 0 ==> Walking(vg, start) && queue != []
      modifies this`queue, this`visited, vg`nodes, heuristic
      ensures SameLists(old(vg.nodes), vg.nodes)
      ensures r == Preload ==> old(vg.Size()) == 0 || !Closed(StepsOf(vg.nodes, vg.edges))
      ensures r != Preload ==> Walking(vg, start)
      ensures r == Stop ==>
                WalkTo(StepsOf(vg.nodes, vg.edges), heuristic.path, start, heuristic.target) && Simple(heuristic.path)
      ensures r == Stop && Consistent(StepsOf(vg.nodes, vg.edges), d, h) ==>
                forall p :: WalkTo(StepsOf(vg.nodes, vg.edges), p, start, heuristic.target) ==>
                  WalkCost(heuristic.path, d) <= WalkCost(p, d)
      ensures r == Finished ==> !exists p :: WalkTo(StepsOf(vg.nodes, vg.edges), p, start, heuristic.target)
      ensures Indexed(vg.nodes, vg.edges) ==>
                Answers(vg.nodes, vg.edges, d, h, start, heuristic.target, heuristic.path, r)
    {
      hide Invariant, Indexed, Answers, PathTo, Queued, Open, Frontier, Consistent, StepsOf, Layered, SameLists,
           WalkCost, Simple, QueueWeight, IsTop, Closed, Last, WalkTo;
      SameListsItself(vg.nodes);
      if vg.Size() == 0 {
        AnswersHold(vg.nodes, vg.edges, d, h, start, heuristic.target, heuristic.path, Preload);
        return Preload;
      }
      ghost var s := StepsOf(vg.nodes, vg.edges);
      var more := true;
      while more
        invariant SameLists(old(vg.nodes), vg.nodes) && Layered(vg.nodes) && StepsOf(vg.nodes, vg.edges) == s
        invariant Invariant(s, start, heuristic.target, visited, queue, d, h)
        invariant more ==> queue != []
        invariant !more ==> queue == [] || vg.Size() == |visited|
        decreases QueueWeight(|s|, queue), more
      {
        SomeTop(queue);
        var top: nat :| IsTop(queue, top);
        TopFacts(s, start, heuristic.target, visited, queue, d, h, top);
        var current := queue[top];
        var success := heuristic.Success(current.ids);
        if success {
          if Consistent(s, d, h) {
            forall p | WalkTo(s, p, start, heuristic.target)
              ensures WalkCost(heuristic.path, d) <= WalkCost(p, d)
            {
              TopIsCheapest(s, start, heuristic.target, visited, queue, d, h, top, p);
            }
          }
          AnswersHold(vg.nodes, vg.edges, d, h, start, heuristic.target, heuristic.path, Stop);
          return Stop;
        }
        ghost var lists := vg.nodes;
        var expanded := Expand(vg, start, top, s);
        SameListsJoin(old(vg.nodes), lists, vg.nodes);
        if !expanded {
          AnswersHold(vg.nodes, vg.edges, d, h, start, heuristic.target, heuristic.path, Preload);
          return Preload;
        }
        more := vg.Size() != |visited| && queue != [];
      }
      NothingWaits(s, start, heuristic.target, visited, queue, d, h);
      AnswersHold(vg.nodes, vg.edges, d, h, start, heuristic.target, heuristic.path, Finished);
      return Finished;
    }
  }

  method Smallest(s: set<NodeId>) returns (m: NodeId)
    requires s != {}
    ensures m in s && forall v :: v in s ==> m <= v
  {
    m :| m in s;
    var rest := s - {m};
    while rest != {}
      invariant m in s && rest <= s && forall v :: v in s && v !in rest ==> m <= v
      decreases |rest|
    {
      var v :| v in rest;
      if v < m {
        m := v;
      }
      rest := rest - {v};
    }
  }
}
