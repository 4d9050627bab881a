/** The breadth-first search of `importWorkflow` that assigns each agent
    reachable from the start node its level, the length of a shortest
    transition path to it. The queue holds `(node, level)` pairs and may hold a
    node more than once; a node already visited is skipped when dequeued. */
module LevelSearch {
  import opened Adjacency

  type Entry = (string, int)

  /** There is a path of exactly `d` edges from `s` to `v`. */
  ghost predicate Path(adj: Graph, s: string, v: string, d: nat)
    decreases d
  {
    if d == 0 then v == s
    else exists u :: u in adj && v in adj[u] && Path(adj, s, u, d - 1)
  }

  ghost predicate Reachable(adj: Graph, s: string, v: string) {
    exists d: nat :: Path(adj, s, v, d)
  }

  /** `l` is the length of a shortest path from `s` to `v`. */
  ghost predicate IsDepth(adj: Graph, s: string, v: string, l: nat) {
    Path(adj, s, v, l) && forall d: nat :: Path(adj, s, v, d) ==> l <= d
  }

  /** The entries pushed for one dequeued node: each neighbour not yet visited,
      at the next level. */
  function Unvisited(neighbors: seq<string>, levels: map<string, int>, l: int): seq<Entry> {
    if neighbors == [] then []
    else
      var r := Unvisited(neighbors[..|neighbors| - 1], levels, l);
      var w := neighbors[|neighbors| - 1];
      if w !in levels then r + [(w, l)] else r
  }

  lemma {:induction false} UnvisitedMembers(neighbors: seq<string>, levels: map<string, int>, l: int)
    ensures forall e :: e in Unvisited(neighbors, levels, l) <==>
      e.0 in neighbors && e.0 !in levels && e.1 == l
  {
    if neighbors != [] {
      var init := neighbors[..|neighbors| - 1];
      UnvisitedMembers(init, levels, l);
      assert neighbors == init + [neighbors[|neighbors| - 1]];
    }
  }

  /** The `neighbors.forEach` that pushes the unvisited neighbours. */
  method PushUnvisited(queue: seq<Entry>, neighbors: seq<string>, levels: map<string, int>, l: int)
    returns (q: seq<Entry>)
    ensures q == queue + Unvisited(neighbors, levels, l)
  {
    q := queue;
    for j := 0 to |neighbors|
      invariant q == queue + Unvisited(neighbors[..j], levels, l)
    {
      assert neighbors[..j + 1][..j] == neighbors[..j];
      if neighbors[j] !in levels {
        q := q + [(neighbors[j], l)];
      }
    }
    assert neighbors[..|neighbors|] == neighbors;
  }

  /** `v`, at level `l`, is the start at level 0 or the neighbour of a visited
      node one level up. */
  ghost predicate Parented(adj: Graph, s: string, levels: map<string, int>, v: string, l: int) {
    (v == s && l == 0) || exists u :: u in levels && u in adj && v in adj[u] && levels[u] + 1 == l
  }

  /** `w` is visited at a level at most `bound`, or waits in the queue with such a level. */
  predicate Settled(queue: seq<Entry>, levels: map<string, int>, w: string, bound: int) {
    (w in levels && levels[w] <= bound) ||
    exists i :: 0 <= i < |queue| && queue[i].0 == w && queue[i].1 <= bound
  }

  predicate Distinct(order: seq<string>) {
    forall i, j :: 0 <= i < j < |order| ==> order[i] != order[j]
  }

  /** The visit order lists every visited node once, by nondecreasing level;
      no level exceeds the current one. */
  ghost predicate VisitOrder(levels: map<string, int>, order: seq<string>, cur: int) {
    0 <= cur &&
    Distinct(order) &&
    (forall v :: v in levels <==> v in order) &&
    (forall i, j :: 0 <= i < j < |order| ==> levels[order[i]] <= levels[order[j]]) &&
    (forall v :: v in levels ==> 0 <= levels[v] <= cur)
  }

  /** Before the first visit the queue holds only the start; after it the start
      is visited at level 0. */
  ghost predicate Started(s: string, queue: seq<Entry>, levels: map<string, int>, cur: int) {
    (levels == map[] && queue == [(s, 0)] && cur == 0) || (s in levels && levels[s] == 0)
  }

  /** The queue holds vertices at the current level or the next, in
      nondecreasing level order. */
  ghost predicate QueueShape(adj: Graph, queue: seq<Entry>, cur: int) {
    (forall i :: 0 <= i < |queue| ==> queue[i].0 in adj && cur <= queue[i].1 <= cur + 1) &&
    (forall i, j :: 0 <= i < j < |queue| ==> queue[i].1 <= queue[j].1)
  }

  /** Every visited node has a parent one level up. */
  ghost predicate VisitedParents(adj: Graph, s: string, levels: map<string, int>) {
    forall v :: v in levels ==> v in adj && Parented(adj, s, levels, v, levels[v])
  }

  /** Every queued entry has a parent one level up. */
  ghost predicate QueuedParents(adj: Graph, s: string, queue: seq<Entry>, levels: map<string, int>) {
    forall i :: 0 <= i < |queue| ==> Parented(adj, s, levels, queue[i].0, queue[i].1)
  }

  /** Every edge out of a visited node is settled. */
  ghost predicate Edges(adj: Graph, queue: seq<Entry>, levels: map<string, int>) {
    forall u, w :: u in levels && u in adj && w in adj[u] ==> Settled(queue, levels, w, levels[u] + 1)
  }

  lemma StartedSkip(s: string, queue: seq<Entry>, levels: map<string, int>, cur: int)
    requires Started(s, queue, levels, cur) && |queue| > 0 && queue[0].0 in levels
    ensures Started(s, queue[1..], levels, cur)
  {
  }

  lemma QueueShapeSkip(adj: Graph, queue: seq<Entry>, cur: int)
    requires QueueShape(adj, queue, cur) && |queue| > 0
    ensures QueueShape(adj, queue[1..], cur)
  {
  }

  lemma QueuedParentsSkip(adj: Graph, s: string, queue: seq<Entry>, levels: map<string, int>)
    requires QueuedParents(adj, s, queue, levels) && |queue| > 0
    ensures QueuedParents(adj, s, queue[1..], levels)
  {
  }

  /** Dropping an entry for a node already visited at a level no higher keeps
      every edge settled. */
  lemma EdgesSkip(adj: Graph, queue: seq<Entry>, levels: map<string, int>)
    requires Edges(adj, queue, levels) && |queue| > 0
    requires queue[0].0 in levels && levels[queue[0].0] <= queue[0].1
    ensures Edges(adj, queue[1..], levels)
  {
    var q := queue[1..];
    forall u, w | u in levels && u in adj && w in adj[u]
      ensures Settled(q, levels, w, levels[u] + 1)
    {
      assert Settled(queue, levels, w, levels[u] + 1);
      if !(w in levels && levels[w] <= levels[u] + 1) {
        var i :| 0 <= i < |queue| && queue[i].0 == w && queue[i].1 <= levels[u] + 1;
        assert q[i - 1] == queue[i];
      }
    }
  }

  lemma VisitOrderStep(levels: map<string, int>, order: seq<string>, cur: int, x: string, l: int)
    requires VisitOrder(levels, order, cur) && x !in levels && cur <= l
    ensures VisitOrder(levels[x := l], order + [x], l)
  {
    var order' := order + [x];
    assert forall i :: 0 <= i < |order| ==> order'[i] == order[i] && order[i] in levels;
  }

  lemma StartedStep(s: string, queue: seq<Entry>, levels: map<string, int>, cur: int,
                    x: string, l: int, levels': map<string, int>, next: seq<Entry>)
    requires Started(s, queue, levels, cur) && |queue| > 0 && queue[0] == (x, l) && x !in levels
    requires levels' == levels[x := l]
    ensures Started(s, next, levels', l)
  {
  }

  lemma QueueShapeStep(adj: Graph, queue: seq<Entry>, cur: int,
                       x: string, l: int, levels': map<string, int>, next: seq<Entry>)
    requires Closed(adj) && QueueShape(adj, queue, cur) && |queue| > 0 && queue[0] == (x, l)
    requires next == queue[1..] + Unvisited(adj[x], levels', l + 1)
    ensures QueueShape(adj, next, l)
  {
    var pushed := Unvisited(adj[x], levels', l + 1);
    UnvisitedMembers(adj[x], levels', l + 1);
    assert forall k :: 0 <= k < |pushed| ==> pushed[k] in pushed;
    assert forall i :: 0 <= i < |queue| ==> l <= queue[i].1;
    assert forall i :: 0 <= i < |next| ==> if i < |queue| - 1 then next[i] == queue[i + 1]
      else next[i] == pushed[i - (|queue| - 1)];
  }

  /** Visiting a new node keeps every existing parent link. */
  lemma ParentedGrows(adj: Graph, s: string, levels: map<string, int>, x: string, l: int, v: string, lv: int)
    requires Parented(adj, s, levels, v, lv) && x !in levels
    ensures Parented(adj, s, levels[x := l], v, lv)
  {
    if !(v == s && lv == 0) {
      var u :| u in levels && u in adj && v in adj[u] && levels[u] + 1 == lv;
      assert u in levels[x := l] && levels[x := l][u] == levels[u];
    }
  }

  lemma VisitedParentsStep(adj: Graph, s: string, queue: seq<Entry>, levels: map<string, int>,
                           x: string, l: int, levels': map<string, int>)
    requires VisitedParents(adj, s, levels) && QueuedParents(adj, s, queue, levels)
    requires |queue| > 0 && queue[0] == (x, l) && x !in levels && x in adj
    requires levels' == levels[x := l]
    ensures VisitedParents(adj, s, levels')
  {
    forall v | v in levels'
      ensures v in adj && Parented(adj, s, levels', v, levels'[v])
    {
      if v != x {
        ParentedGrows(adj, s, levels, x, l, v, levels[v]);
      } else {
        ParentedGrows(adj, s, levels, x, l, queue[0].0, queue[0].1);
      }
    }
  }

  lemma QueuedParentsStep(adj: Graph, s: string, queue: seq<Entry>, levels: map<string, int>,
                          x: string, l: int, levels': map<string, int>, next: seq<Entry>)
    requires QueuedParents(adj, s, queue, levels)
    requires |queue| > 0 && queue[0] == (x, l) && x !in levels && x in adj
    requires levels' == levels[x := l]
    requires next == queue[1..] + Unvisited(adj[x], levels', l + 1)
    ensures QueuedParents(adj, s, next, levels')
  {
    var pushed := Unvisited(adj[x], levels', l + 1);
    forall i | 0 <= i < |next|
      ensures Parented(adj, s, levels', next[i].0, next[i].1)
    {
      if i < |queue| - 1 {
        assert next[i] == queue[i + 1];
        ParentedGrows(adj, s, levels, x, l, queue[i + 1].0, queue[i + 1].1);
      } else {
        UnvisitedMembers(adj[x], levels', l + 1);
        assert next[i] == pushed[i - (|queue| - 1)];
        assert next[i] in pushed;
        assert levels'[x] + 1 == next[i].1;
      }
    }
  }

  lemma EdgesStep(adj: Graph, queue: seq<Entry>, levels: map<string, int>,
                  x: string, l: int, levels': map<string, int>, next: seq<Entry>)
    requires Edges(adj, queue, levels) && |queue| > 0 && queue[0] == (x, l) && x !in levels && x in adj
    requires forall v :: v in levels ==> levels[v] <= l
    requires levels' == levels[x := l]
    requires next == queue[1..] + Unvisited(adj[x], levels', l + 1)
    ensures Edges(adj, next, levels')
  {
    var pushed := Unvisited(adj[x], levels', l + 1);
    UnvisitedMembers(adj[x], levels', l + 1);
    forall u, w | u in levels' && u in adj && w in adj[u]
      ensures Settled(next, levels', w, levels'[u] + 1)
    {
      if u == x {
        if w !in levels' {
          assert (w, l + 1) in pushed;
          var k :| 0 <= k < |pushed| && pushed[k] == (w, l + 1);
          assert next[|queue| - 1 + k] == (w, l + 1);
        }
      } else {
        assert Settled(queue, levels, w, levels[u] + 1);
        if !(w in levels && levels[w] <= levels[u] + 1) {
          var i :| 0 <= i < |queue| && queue[i].0 == w && queue[i].1 <= levels[u] + 1;
          if i > 0 {
            assert next[i - 1] == queue[i];
          }
        }
      }
    }
  }

  ghost predicate Inv(adj: Graph, s: string, queue: seq<Entry>, levels: map<string, int>,
                      order: seq<string>, cur: int) {
    Closed(adj) &&
    VisitOrder(levels, order, cur) && Started(s, queue, levels, cur) && QueueShape(adj, queue, cur) &&
    VisitedParents(adj, s, levels) && QueuedParents(adj, s, queue, levels) && Edges(adj, queue, levels) &&
    (|order| > 0 ==> order[0] == s)
  }

  lemma SkipStep(adj: Graph, s: string, queue: seq<Entry>, levels: map<string, int>,
                 order: seq<string>, cur: int)
    requires Inv(adj, s, queue, levels, order, cur) && |queue| > 0 && queue[0].0 in levels
    ensures Inv(adj, s, queue[1..], levels, order, cur)
  {
    StartedSkip(s, queue, levels, cur);
    QueueShapeSkip(adj, queue, cur);
    QueuedParentsSkip(adj, s, queue, levels);
    EdgesSkip(adj, queue, levels);
  }

  lemma VisitStep(adj: Graph, s: string, queue: seq<Entry>, levels: map<string, int>,
                  order: seq<string>, cur: int, x: string, l: int, levels': map<string, int>, next: seq<Entry>)
    requires Inv(adj, s, queue, levels, order, cur) && |queue| > 0 && queue[0] == (x, l) && x !in levels
    requires levels' == levels[x := l]
    requires next == queue[1..] + Unvisited(adj[x], levels', l + 1)
    ensures Inv(adj, s, next, levels', order + [x], l)
    ensures |adj.Keys - levels'.Keys| < |adj.Keys - levels.Keys|
  {
    StartedStep(s, queue, levels, cur, x, l, levels', next);
    QueueShapeStep(adj, queue, cur, x, l, levels', next);
    VisitedParentsStep(adj, s, queue, levels, x, l, levels');
    QueuedParentsStep(adj, s, queue, levels, x, l, levels', next);
    EdgesStep(adj, queue, levels, x, l, levels', next);
    VisitOrderStep(levels, order, cur, x, l);
    FewerUnvisited(adj.Keys, levels, x, l);
  }

  /** Visiting a vertex leaves one vertex fewer unvisited. */
  lemma FewerUnvisited(vertices: set<string>, levels: map<string, int>, x: string, l: int)
    requires x in vertices && x !in levels
    ensures |vertices - levels[x := l].Keys| < |vertices - levels.Keys|
  {
    assert vertices - levels[x := l].Keys == (vertices - levels.Keys) - {x};
  }

  /** Every visited node's level is the length of a path to it. */
  lemma {:induction false} LevelIsPathLength(adj: Graph, s: string, levels: map<string, int>, v: string)
    requires forall u :: u in levels ==> 0 <= levels[u] && Parented(adj, s, levels, u, levels[u])
    requires v in levels
    ensures Path(adj, s, v, levels[v])
    decreases levels[v]
  {
    if !(v == s && levels[v] == 0) {
      var u :| u in levels && u in adj && v in adj[u] && levels[u] + 1 == levels[v];
      LevelIsPathLength(adj, s, levels, u);
    }
  }

  /** When every edge out of a visited node leads to a node visited at most one
      level further, every path from the start ends at a visited node whose
      level is no more than the path's length. */
  lemma {:induction false} PathBoundsLevel(adj: Graph, s: string, levels: map<string, int>, v: string, d: nat)
    requires s in levels && levels[s] == 0
    requires forall u, w :: u in levels && u in adj && w in adj[u] ==> w in levels && levels[w] <= levels[u] + 1
    requires forall u :: u in levels ==> u in adj
    requires Path(adj, s, v, d)
    ensures v in levels && levels[v] <= d
    decreases d
  {
    if d > 0 {
      var u :| u in adj && v in adj[u] && Path(adj, s, u, d - 1);
      PathBoundsLevel(adj, s, levels, u, d - 1);
    }
  }

  /** Once the queue is empty, the levels are exactly the depths of the nodes
      reachable from the start. */
  lemma Conclude(adj: Graph, s: string, order: seq<string>, levels: map<string, int>, cur: int)
    requires VisitOrder(levels, order, cur)
    requires Started(s, [], levels, cur)
    requires VisitedParents(adj, s, levels)
    requires Edges(adj, [], levels)
    ensures forall v :: v in levels <==> Reachable(adj, s, v)
    ensures forall v :: v in levels ==> levels[v] >= 0 && IsDepth(adj, s, v, levels[v])
  {
    forall u, w | u in levels && u in adj && w in adj[u]
      ensures w in levels && levels[w] <= levels[u] + 1
    {
      assert Settled([], levels, w, levels[u] + 1);
    }
    forall v | v in levels
      ensures IsDepth(adj, s, v, levels[v])
    {
      LevelIsPathLength(adj, s, levels, v);
      forall d: nat | Path(adj, s, v, d)
        ensures levels[v] <= d
      {
        PathBoundsLevel(adj, s, levels, v, d);
      }
    }
    forall v | Reachable(adj, s, v)
      ensures v in levels
    {
      var d: nat :| Path(adj, s, v, d);
      PathBoundsLevel(adj, s, levels, v, d);
    }
  }

  /** One turn of the loop: `queue.shift()`, skip a visited node, otherwise
      visit it and push its unvisited neighbours. */
  method Dequeue(adj: Graph, start: string, queue: seq<Entry>, levels: map<string, int>,
                 order: seq<string>, ghost cur: int)
    returns (queue': seq<Entry>, levels': map<string, int>, order': seq<string>, ghost cur': int)
    requires Inv(adj, start, queue, levels, order, cur) && |queue| > 0
    ensures Inv(adj, start, queue', levels', order', cur')
    ensures |adj.Keys - levels'.Keys| < |adj.Keys - levels.Keys| ||
      (levels' == levels && |queue'| < |queue|)
  {
    var (x, l) := queue[0];
    if x in levels {
      SkipStep(adj, start, queue, levels, order, cur);
      queue', levels', order', cur' := queue[1..], levels, order, cur;
    } else {
      levels' := levels[x := l];
      queue' := PushUnvisited(queue[1..], adj[x], levels', l + 1);
      VisitStep(adj, start, queue, levels, order, cur, x, l, levels', queue');
      order' := order + [x];
      cur' := l;
    }
  }

  method Bfs(adj: Graph, start: string) returns (order: seq<string>, levels: map<string, int>)
    requires Closed(adj) && start in adj
    ensures Distinct(order)
    ensures forall v :: v in levels <==> v in order
    ensures forall v :: v in levels ==> v in adj
    ensures forall i, j :: 0 <= i < j < |order| ==> levels[order[i]] <= levels[order[j]]
    ensures |order| > 0 && order[0] == start
    ensures forall v :: v in levels <==> Reachable(adj, start, v)
    ensures forall v :: v in levels ==> levels[v] >= 0 && IsDepth(adj, start, v, levels[v])
  {
    var queue: seq<Entry> := [(start, 0)];
    order := [];
    levels := map[];
    ghost var cur := 0;
    while |queue| > 0
      invariant Inv(adj, start, queue, levels, order, cur)
      decreases |adj.Keys - levels.Keys|, |queue|
    {
      queue, levels, order, cur := Dequeue(adj, start, queue, levels, order, cur);
    }
    Conclude(adj, start, order, levels, cur);
  }
}
