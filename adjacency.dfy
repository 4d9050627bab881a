/** The adjacency list `importWorkflow` builds before laying out an imported
    graph: for every agent, the distinct transition targets that are themselves
    agents, in order of first appearance. */
module Adjacency {
  import opened Wrappers
  import opened Records
  import opened WorkflowTypes

  /** `adjacencyList`: agent name to neighbour names. */
  type Graph = map<string, seq<string>>

  /** Every neighbour is itself a vertex. */
  predicate Closed(adj: Graph) {
    forall u, w :: u in adj && w in adj[u] ==> w in adj
  }

  predicate NoRepeats(s: seq<string>) {
    forall i, j :: 0 <= i < j < |s| ==> s[i] != s[j]
  }

  /** `Object.values(agent_graph.agents[name].transitions)` */
  function TargetsOf(agents: Record<AgentData>, name: string): seq<string> {
    match Get(agents, name)
    case Some(data) => Values(data.transitions)
    case None => []
  }

  /** The neighbour list a run of `targets` leaves behind: each target that is a
      vertex is pushed unless already present. */
  function Neighbors(targets: seq<string>, vertices: set<string>): seq<string> {
    if targets == [] then []
    else
      var r := Neighbors(targets[..|targets| - 1], vertices);
      var t := targets[|targets| - 1];
      if t in vertices && t !in r then r + [t] else r
  }

  /** The adjacency list of an `agents` record. */
  function AdjacencyOf(agents: Record<AgentData>): Graph {
    var vertices := set k | k in Keys(agents);
    map k | k in vertices :: Neighbors(TargetsOf(agents, k), vertices)
  }

  /** A neighbour list holds exactly the targets that are vertices. */
  lemma {:induction false} NeighborsMembers(targets: seq<string>, vertices: set<string>)
    ensures forall w :: w in Neighbors(targets, vertices) <==> w in targets && w in vertices
  {
    if targets != [] {
      var init := targets[..|targets| - 1];
      NeighborsMembers(init, vertices);
      assert targets == init + [targets[|targets| - 1]];
    }
  }

  /** A neighbour list holds each target once. */
  lemma {:induction false} NeighborsNoRepeats(targets: seq<string>, vertices: set<string>)
    ensures NoRepeats(Neighbors(targets, vertices))
  {
    if targets != [] {
      NeighborsNoRepeats(targets[..|targets| - 1], vertices);
    }
  }

  /** The vertices are the agent names, every neighbour is a vertex, every
      neighbour list is free of repeats, and `w` is a neighbour of `u` exactly
      when some transition of `u` targets the agent `w`. */
  lemma AdjacencyShape(agents: Record<AgentData>)
    ensures forall k :: k in AdjacencyOf(agents) <==> k in Keys(agents)
    ensures Closed(AdjacencyOf(agents))
    ensures forall u :: u in AdjacencyOf(agents) ==> NoRepeats(AdjacencyOf(agents)[u])
    ensures forall u, w :: u in AdjacencyOf(agents) ==>
      (w in AdjacencyOf(agents)[u] <==> w in TargetsOf(agents, u) && w in Keys(agents))
  {
    var vertices := set k | k in Keys(agents);
    forall u | u in vertices
      ensures NoRepeats(Neighbors(TargetsOf(agents, u), vertices))
      ensures forall w :: w in Neighbors(TargetsOf(agents, u), vertices) <==>
        w in TargetsOf(agents, u) && w in vertices
    {
      NeighborsNoRepeats(TargetsOf(agents, u), vertices);
      NeighborsMembers(TargetsOf(agents, u), vertices);
    }
  }

  /** The inner `transitions.forEach` of the adjacency pass for one agent:
      push each target that is a vertex and not yet a neighbour. */
  method PushTargets(adj: Graph, name: string, targets: seq<string>) returns (r: Graph)
    requires name in adj && adj[name] == []
    ensures r == adj[name := Neighbors(targets, adj.Keys)]
  {
    r := adj;
    for j := 0 to |targets|
      invariant r == adj[name := Neighbors(targets[..j], adj.Keys)]
    {
      assert targets[..j + 1][..j] == targets[..j];
      var t := targets[j];
      if t in r {
        var neighbors := r[name];
        if t !in neighbors {
          r := r[name := neighbors + [t]];
        }
      }
    }
    assert targets[..|targets|] == targets;
  }

  /** The first `nodeNames.forEach` pass: every agent gets an empty list. */
  method EmptyLists(names: seq<string>) returns (adj: Graph)
    ensures forall k :: k in adj <==> k in names
    ensures forall k :: k in adj ==> adj[k] == []
  {
    adj := map[];
    for i := 0 to |names|
      invariant forall k :: k in adj <==> k in names[..i]
      invariant forall k :: k in adj ==> adj[k] == []
    {
      assert names[..i + 1] == names[..i] + [names[i]];
      adj := adj[names[i] := []];
    }
    assert names[..|names|] == names;
  }

  /** Both `nodeNames.forEach` passes of `importWorkflow`: every agent gets an
      empty list, then each list is filled from the agent's transitions. */
  method BuildAdjacency(agents: Record<AgentData>) returns (adj: Graph)
    ensures adj == AdjacencyOf(agents)
  {
    var names := Keys(agents);
    var vertices := set k | k in names;
    adj := EmptyLists(names);
    assert adj.Keys == vertices;
    for i := 0 to |names|
      invariant adj.Keys == vertices
      invariant forall j :: 0 <= j < |names| ==>
        adj[names[j]] == if j < i then Neighbors(TargetsOf(agents, names[j]), vertices) else []
    {
      var name := names[i];
      forall j | 0 <= j < |names| && j != i
        ensures names[j] != name
      {
        DistinctAt(agents, i, j);
      }
      GetAt(agents, i);
      adj := PushTargets(adj, name, Values(agents[i].1.transitions));
    }
    assert forall j :: 0 <= j < |agents| ==> names[j] == agents[j].0;
    AdjacencyFromLists(agents, adj);
  }

  lemma AdjacencyFromLists(agents: Record<AgentData>, adj: Graph)
    requires adj.Keys == set k | k in Keys(agents)
    requires forall j :: 0 <= j < |agents| ==>
      agents[j].0 in adj && adj[agents[j].0] == Neighbors(TargetsOf(agents, agents[j].0), adj.Keys)
    ensures adj == AdjacencyOf(agents)
  {
    forall k | k in adj
      ensures adj[k] == Neighbors(TargetsOf(agents, k), adj.Keys)
    {
      var j :| 0 <= j < |agents| && Keys(agents)[j] == k;
    }
  }
}
