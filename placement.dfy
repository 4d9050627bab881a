/** The grid layout `importWorkflow` computes for an imported graph: reached
    nodes in columns by level, centred vertically, and the nodes the search
    does not reach in a near-square grid to the right of them. */
module Placement {
  import opened Records
  import opened WorkflowTypes
  import opened Adjacency
  import opened LevelSearch

  const StartX := 100
  const StartY := 100
  /** Horizontal spacing between levels. */
  const LevelSpacing := 400
  /** Vertical spacing between nodes of one level. */
  const NodeSpacing := 350

  /** `nodesByLevel.get(l)`: the visited nodes of level `l`, in visit order. */
  function LevelGroup(order: seq<string>, levels: map<string, int>, l: int): seq<string> {
    if order == [] then []
    else
      var r := LevelGroup(order[..|order| - 1], levels, l);
      var v := order[|order| - 1];
      if v in levels && levels[v] == l then r + [v] else r
  }

  lemma {:induction false} LevelGroupMembers(order: seq<string>, levels: map<string, int>, l: int)
    ensures forall v :: v in LevelGroup(order, levels, l) <==> v in order && v in levels && levels[v] == l
  {
    if order != [] {
      var init := order[..|order| - 1];
      LevelGroupMembers(init, levels, l);
      assert order == init + [order[|order| - 1]];
    }
  }

  lemma {:induction false} LevelGroupDistinct(order: seq<string>, levels: map<string, int>, l: int)
    requires Distinct(order)
    ensures Distinct(LevelGroup(order, levels, l))
  {
    if order != [] {
      var init := order[..|order| - 1];
      LevelGroupDistinct(init, levels, l);
      LevelGroupMembers(init, levels, l);
    }
  }

  /** `s.indexOf(v)`, with `|s|` for a value that is absent. */
  function IndexIn(s: seq<string>, v: string): (i: nat)
    ensures i <= |s|
    ensures i < |s| ==> s[i] == v
    ensures forall j :: 0 <= j < i ==> s[j] != v
  {
    if s == [] then 0
    else if s[0] == v then 0
    else 1 + IndexIn(s[1..], v)
  }

  /** The position of the `i`-th of the `k` nodes of a level: the column of the
      level, and a column of nodes centred on `StartY`. */
  function ReachedPosition(level: int, k: int, i: int): Position {
    Position(StartX + level * LevelSpacing, StartY - (k - 1) * NodeSpacing / 2 + i * NodeSpacing)
  }

  /** Where the layout puts a visited node. */
  function ReachedAt(order: seq<string>, levels: map<string, int>, v: string): Position
    requires v in levels
  {
    var group := LevelGroup(order, levels, levels[v]);
    ReachedPosition(levels[v], |group|, IndexIn(group, v))
  }

  lemma ReachedAtGroup(order: seq<string>, levels: map<string, int>, l: int, i: nat)
    requires Distinct(order)
    requires i < |LevelGroup(order, levels, l)|
    ensures var group := LevelGroup(order, levels, l);
      group[i] in levels && levels[group[i]] == l &&
      ReachedAt(order, levels, group[i]) == ReachedPosition(l, |group|, i)
  {
    var group := LevelGroup(order, levels, l);
    LevelGroupMembers(order, levels, l);
    LevelGroupDistinct(order, levels, l);
    assert group[i] in group;
  }

  /** `Math.max(...Array.from(levels.values()), -1)`, with the values taken in
      visit order. */
  function MaxLevel(order: seq<string>, levels: map<string, int>): (m: int)
    ensures m >= -1
    ensures forall i :: 0 <= i < |order| && order[i] in levels ==> levels[order[i]] <= m
    ensures m == -1 || exists i :: 0 <= i < |order| && order[i] in levels && levels[order[i]] == m
  {
    if order == [] then -1
    else
      var r := MaxLevel(order[1..], levels);
      assert forall i :: 1 <= i < |order| ==> order[i] == order[1..][i - 1];
      if order[0] in levels && levels[order[0]] > r then levels[order[0]] else r
  }

  /** The `levels.forEach` loop that fills `nodesByLevel`. A level that never
      occurs has no entry. */
  method GroupByLevel(order: seq<string>, levels: map<string, int>) returns (byLevel: map<int, seq<string>>)
    requires forall v :: v in order ==> v in levels
    ensures forall l :: l in byLevel ==> byLevel[l] == LevelGroup(order, levels, l) && byLevel[l] != []
    ensures forall l :: l !in byLevel ==> LevelGroup(order, levels, l) == []
  {
    byLevel := map[];
    for i := 0 to |order|
      invariant forall l :: l in byLevel ==> byLevel[l] == LevelGroup(order[..i], levels, l) && byLevel[l] != []
      invariant forall l :: l !in byLevel ==> LevelGroup(order[..i], levels, l) == []
    {
      assert order[..i + 1][..i] == order[..i];
      var v := order[i];
      var l := levels[v];
      if l !in byLevel {
        byLevel := byLevel[l := []];
      }
      byLevel := byLevel[l := byLevel[l] + [v]];
    }
    assert order[..|order|] == order;
  }

  /** The inner `nodesAtLevel.forEach`: each node of level `l` gets its place
      in the level's column; every other entry stays. */
  method PlaceLevel(order: seq<string>, levels: map<string, int>, l: int, group: seq<string>,
                    placed: map<string, Position>)
    returns (positions: map<string, Position>)
    requires Distinct(order)
    requires group == LevelGroup(order, levels, l)
    ensures forall v :: v in positions <==> v in placed || v in group
    ensures forall v :: v in group ==> v in levels && positions[v] == ReachedAt(order, levels, v)
    ensures forall v :: v in placed && v !in group ==> positions[v] == placed[v]
  {
    positions := placed;
    for i := 0 to |group|
      invariant forall v :: v in positions <==> v in placed || v in group[..i]
      invariant forall v :: v in group[..i] ==> v in levels && positions[v] == ReachedAt(order, levels, v)
      invariant forall v :: v in placed && v !in group[..i] ==> positions[v] == placed[v]
    {
      ReachedAtGroup(order, levels, l, i);
      assert group[..i + 1] == group[..i] + [group[i]];
      positions := positions[group[i] := ReachedPosition(l, |group|, i)];
    }
    assert group[..|group|] == group;
  }

  /** The `sortedLevels.forEach` loop: levels in increasing order, and within a
      level the nodes in visit order. */
  method PlaceReached(order: seq<string>, levels: map<string, int>) returns (positions: map<string, Position>)
    requires Distinct(order)
    requires forall v :: v in levels <==> v in order
    requires forall v :: v in levels ==> levels[v] >= 0
    ensures forall v :: v in positions <==> v in levels
    ensures forall v :: v in positions ==> positions[v] == ReachedAt(order, levels, v)
  {
    var byLevel := GroupByLevel(order, levels);
    var top := MaxLevel(order, levels);
    positions := map[];
    for l := 0 to top + 1
      invariant forall v :: v in positions <==> v in levels && levels[v] < l
      invariant forall v :: v in positions ==> positions[v] == ReachedAt(order, levels, v)
    {
      LevelGroupMembers(order, levels, l);
      if l in byLevel {
        positions := PlaceLevel(order, levels, l, byLevel[l], positions);
      }
    }
    forall v | v in levels
      ensures levels[v] < top + 1
    {
      var i :| 0 <= i < |order| && order[i] == v;
    }
  }

  /** `Array.from(orphanedNodes)`: the agents the search did not reach, in key
      order. */
  function Orphans(names: seq<string>, levels: map<string, int>): seq<string> {
    if names == [] then []
    else
      var r := Orphans(names[..|names| - 1], levels);
      var v := names[|names| - 1];
      if v !in levels then r + [v] else r
  }

  lemma {:induction false} OrphansMembers(names: seq<string>, levels: map<string, int>)
    ensures forall v :: v in Orphans(names, levels) <==> v in names && v !in levels
  {
    if names != [] {
      var init := names[..|names| - 1];
      OrphansMembers(init, levels);
      assert names == init + [names[|names| - 1]];
    }
  }

  lemma {:induction false} OrphansDistinct(names: seq<string>, levels: map<string, int>)
    requires Distinct(names)
    ensures Distinct(Orphans(names, levels))
  {
    if names != [] {
      var init := names[..|names| - 1];
      OrphansDistinct(init, levels);
      OrphansMembers(init, levels);
    }
  }

  /** `Math.ceil(Math.sqrt(n))`: the least `r` with `r * r >= n`. */
  function CeilSqrt(n: nat): (r: nat)
    ensures r * r >= n
    ensures r == 0 || (r - 1) * (r - 1) < n
  {
    CeilSqrtFrom(n, 0)
  }

  function CeilSqrtFrom(n: nat, r: nat): (s: nat)
    requires r == 0 || (r - 1) * (r - 1) < n
    ensures s * s >= n
    ensures s == 0 || (s - 1) * (s - 1) < n
    decreases n - r
  {
    if r * r >= n then r
    else
      CeilSqrtFrom(n, r + 1)
  }

  /** The `i`-th orphan: row `i % rows`, column `i / rows`, the grid starting
      two level widths right of the deepest level. */
  function OrphanPosition(maxLevel: int, rows: nat, i: nat): Position
    requires rows > 0
  {
    Position(StartX + (maxLevel + 2) * LevelSpacing + (i / rows) * LevelSpacing,
             StartY + (i % rows) * NodeSpacing)
  }

  /** The `orphanedArray.forEach` loop. */
  method PlaceOrphans(positions: map<string, Position>, orphans: seq<string>, maxLevel: int, rows: nat)
    returns (r: map<string, Position>)
    requires rows > 0 && Distinct(orphans)
    ensures forall v :: v in r <==> v in positions || v in orphans
    ensures forall v :: v in r && v !in orphans ==> r[v] == positions[v]
    ensures forall i :: 0 <= i < |orphans| ==> r[orphans[i]] == OrphanPosition(maxLevel, rows, i)
  {
    r := positions;
    for i := 0 to |orphans|
      invariant forall v :: v in r <==> v in positions || v in orphans[..i]
      invariant forall v :: v in r && v !in orphans[..i] ==> r[v] == positions[v]
      invariant forall j :: 0 <= j < i ==> r[orphans[j]] == OrphanPosition(maxLevel, rows, j)
    {
      assert orphans[..i + 1] == orphans[..i] + [orphans[i]];
      r := r[orphans[i] := OrphanPosition(maxLevel, rows, i)];
    }
    assert orphans[..|orphans|] == orphans;
  }

  /** The positions an import computes: reached nodes by level, the rest in the
      orphan grid. */
  function LayoutOf(names: seq<string>, order: seq<string>, levels: map<string, int>): map<string, Position> {
    var orphans := Orphans(names, levels);
    var rows := CeilSqrt(|orphans|);
    map v | v in levels.Keys + (set w | w in orphans) ::
      if v in levels then ReachedAt(order, levels, v)
      else if rows > 0 then OrphanPosition(MaxLevel(order, levels), rows, IndexIn(orphans, v))
      else Position(StartX, StartY)
  }

  /** When the search only visits agents, every agent gets a computed position
      and nothing else does; the `{ x: startX, y: startY }` fallback is never
      needed. */
  lemma LayoutCoversAgents(names: seq<string>, order: seq<string>, levels: map<string, int>)
    requires forall v :: v in levels ==> v in names
    ensures forall v :: v in LayoutOf(names, order, levels) <==> v in names
  {
    OrphansMembers(names, levels);
  }

  /** Every orphan lies strictly right of every reached node. */
  lemma OrphansRightOfReached(order: seq<string>, levels: map<string, int>, v: string, rows: nat, i: nat)
    requires rows > 0 && v in levels && v in order
    ensures ReachedAt(order, levels, v).x < OrphanPosition(MaxLevel(order, levels), rows, i).x
  {
    var k :| 0 <= k < |order| && order[k] == v;
    assert levels[v] <= MaxLevel(order, levels);
    assert i / rows >= 0;
  }

  /** No two agents share a position. */
  lemma LayoutInjective(names: seq<string>, order: seq<string>, levels: map<string, int>, v: string, w: string)
    requires Distinct(order)
    requires forall u :: u in levels <==> u in order
    requires v in LayoutOf(names, order, levels) && w in LayoutOf(names, order, levels) && v != w
    ensures LayoutOf(names, order, levels)[v] != LayoutOf(names, order, levels)[w]
  {
    var layout := LayoutOf(names, order, levels);
    var orphans := Orphans(names, levels);
    var rows := CeilSqrt(|orphans|);
    var top := MaxLevel(order, levels);
    if v in levels && w in levels {
      assert layout[v] == ReachedAt(order, levels, v) && layout[w] == ReachedAt(order, levels, w);
      if levels[v] == levels[w] {
        var group := LevelGroup(order, levels, levels[v]);
        LevelGroupMembers(order, levels, levels[v]);
        assert v in group && w in group;
        assert IndexIn(group, v) != IndexIn(group, w);
      }
    } else if v in levels {
      assert w in orphans && rows > 0;
      assert layout[w] == OrphanPosition(top, rows, IndexIn(orphans, w));
      OrphansRightOfReached(order, levels, v, rows, IndexIn(orphans, w));
    } else if w in levels {
      assert v in orphans && rows > 0;
      assert layout[v] == OrphanPosition(top, rows, IndexIn(orphans, v));
      OrphansRightOfReached(order, levels, w, rows, IndexIn(orphans, v));
    } else {
      assert v in orphans && w in orphans && rows > 0;
      var a := IndexIn(orphans, v);
      var b := IndexIn(orphans, w);
      assert layout[v] == OrphanPosition(top, rows, a) && layout[w] == OrphanPosition(top, rows, b);
      assert a != b;
      OrphanCellsDiffer(rows, a, b);
    }
  }

  /** Distinct orphan indices fall in distinct grid cells. */
  lemma OrphanCellsDiffer(rows: nat, a: nat, b: nat)
    requires rows > 0 && a != b
    ensures a / rows != b / rows || a % rows != b % rows
  {
    assert a == rows * (a / rows) + a % rows;
    assert b == rows * (b / rows) + b % rows;
  }

  /** Positions placed as the two loops place them are the layout. */
  lemma LayoutMatches(names: seq<string>, order: seq<string>, levels: map<string, int>,
                      positions: map<string, Position>)
    requires forall v :: v in positions <==> v in levels || v in Orphans(names, levels)
    requires forall v :: v in levels ==> positions[v] == ReachedAt(order, levels, v)
    requires forall i :: 0 <= i < |Orphans(names, levels)| ==>
      positions[Orphans(names, levels)[i]] ==
        OrphanPosition(MaxLevel(order, levels), CeilSqrt(|Orphans(names, levels)|), i)
    ensures positions == LayoutOf(names, order, levels)
  {
    var orphans := Orphans(names, levels);
    var layout := LayoutOf(names, order, levels);
    forall v | v in positions
      ensures v in layout && positions[v] == layout[v]
    {
      if v !in levels {
        var i := IndexIn(orphans, v);
        assert orphans[i] == v;
      }
    }
  }

  /** Both placement passes of `importWorkflow`, given the search's result. */
  method PlaceAll(names: seq<string>, order: seq<string>, levels: map<string, int>)
    returns (positions: map<string, Position>)
    requires Distinct(names) && Distinct(order)
    requires forall v :: v in levels <==> v in order
    requires forall v :: v in levels ==> levels[v] >= 0
    ensures positions == LayoutOf(names, order, levels)
  {
    positions := PlaceReached(order, levels);
    var orphans := Orphans(names, levels);
    OrphansMembers(names, levels);
    if |orphans| > 0 {
      var maxLevel := MaxLevel(order, levels);
      var rows := CeilSqrt(|orphans|);
      OrphansDistinct(names, levels);
      positions := PlaceOrphans(positions, orphans, maxLevel, rows);
    }
    LayoutMatches(names, order, levels, positions);
  }

  /** What the level search of an import yields: nothing without a valid start;
      otherwise the visit order starts at the start node, holds each reached
      agent once, visits levels in ascending order, and reaches exactly the
      agents a path leads to, each at its shortest-path depth. */
  ghost predicate SearchOutcome(agents: Record<AgentData>, start: string,
                                order: seq<string>, levels: map<string, int>)
  {
    (forall v :: v in levels ==> v in Keys(agents)) &&
    (start == "" || start !in Keys(agents) ==> order == [] && levels == map[]) &&
    (start != "" && start in Keys(agents) ==>
      Distinct(order) && |order| > 0 && order[0] == start &&
      (forall v :: v in levels <==> v in order) &&
      (forall i, j :: 0 <= i < j < |order| ==> levels[order[i]] <= levels[order[j]]) &&
      (forall v :: v in levels <==> Reachable(AdjacencyOf(agents), start, v)) &&
      (forall v :: v in levels ==> levels[v] >= 0 && IsDepth(AdjacencyOf(agents), start, v, levels[v])))
  }

  /** Laying out an imported graph: adjacency, the search from the start node
      when it names an agent, then the reached nodes and the orphans. */
  method ComputeLayout(agents: Record<AgentData>, start: string)
    returns (order: seq<string>, levels: map<string, int>, positions: map<string, Position>)
    ensures SearchOutcome(agents, start, order, levels)
    ensures positions == LayoutOf(Keys(agents), order, levels)
  {
    var adj := BuildAdjacency(agents);
    AdjacencyShape(agents);
    if start != "" && start in adj {
      order, levels := Bfs(adj, start);
    } else {
      order, levels := [], map[];
    }
    var names := Keys(agents);
    KeysDistinct(agents);
    assert Distinct(names);
    positions := PlaceAll(names, order, levels);
  }
}
