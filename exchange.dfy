/** Conversion between the node list and the name-keyed `agents` record of an
    exported workflow file: `exportWorkflow`, and the node-building half of
    `importWorkflow` (the layout half is in modules `Adjacency`, `LevelSearch` and `Placement`). */
module Exchange {
  import opened Wrappers
  import opened Records
  import opened WorkflowTypes

  const ImportFailedMessage := "Import failed: Invalid JSON structure."

  /** `const { id, position, name, ...agentData } = node` */
  function DataOf(n: AgentNode): AgentData {
    AgentData(n.kind, n.initialPrompt, n.tools, n.forceToolCall, n.transitions)
  }

  /** The `agents` record `exportWorkflow` builds: `agents[name] = agentData` for
      every node in list order, so a later node overwrites an earlier one of the
      same name. */
  function ExportRecord(nodes: seq<AgentNode>): Record<AgentData> {
    if nodes == [] then []
    else
      var last := nodes[|nodes| - 1];
      Put(ExportRecord(nodes[..|nodes| - 1]), last.name, DataOf(last))
  }

  /** The `nodes.forEach` loop of `exportWorkflow`. */
  method ExportAgents(nodes: seq<AgentNode>) returns (agents: Record<AgentData>)
    ensures agents == ExportRecord(nodes)
  {
    agents := [];
    for i := 0 to |nodes|
      invariant agents == ExportRecord(nodes[..i])
    {
      assert nodes[..i + 1][..i] == nodes[..i];
      agents := Put(agents, nodes[i].name, DataOf(nodes[i]));
    }
    assert nodes[..|nodes|] == nodes;
  }

  /** `exportWorkflow()` */
  method ExportWorkflowOf(nodes: seq<AgentNode>, start: string) returns (w: ExportedWorkflow)
    ensures w == ExportedWorkflow(start, ExportRecord(nodes))
  {
    var agents := ExportAgents(nodes);
    w := ExportedWorkflow(start, agents);
  }

  /** `new Map(nodes.map(node => [node.name, node])).get(name)`: the last node
      carrying the name. */
  function LastByName(nodes: seq<AgentNode>, name: string): (r: Option<AgentNode>)
    ensures r.Some? ==> r.value in nodes && r.value.name == name
    ensures r.None? <==> name !in Names(nodes)
  {
    if nodes == [] then None
    else
      var last := nodes[|nodes| - 1];
      assert Names(nodes) == Names(nodes[..|nodes| - 1]) + [last.name];
      if last.name == name then Some(last) else LastByName(nodes[..|nodes| - 1], name)
  }

  /** The entries of the export when names are distinct: one per node, in list order. */
  function Entries(nodes: seq<AgentNode>): seq<(string, AgentData)> {
    seq(|nodes|, i requires 0 <= i < |nodes| => (nodes[i].name, DataOf(nodes[i])))
  }

  /** Reading a name in the export yields the data of the last node with that
      name, and nothing for a name no node carries. */
  lemma {:induction false} ExportLastWins(nodes: seq<AgentNode>, name: string)
    ensures Get(ExportRecord(nodes), name) ==
      if LastByName(nodes, name).Some? then Some(DataOf(LastByName(nodes, name).value)) else None
  {
    if nodes != [] {
      ExportLastWins(nodes[..|nodes| - 1], name);
    }
  }

  /** The export's keys are exactly the node names. */
  lemma {:induction false} ExportKeys(nodes: seq<AgentNode>)
    ensures forall k :: k in Keys(ExportRecord(nodes)) <==> k in Names(nodes)
  {
    if nodes != [] {
      ExportKeys(nodes[..|nodes| - 1]);
      assert Names(nodes) == Names(nodes[..|nodes| - 1]) + [nodes[|nodes| - 1].name];
    }
  }

  lemma EntriesSnoc(nodes: seq<AgentNode>)
    requires nodes != []
    ensures Entries(nodes) ==
      Entries(nodes[..|nodes| - 1]) + [(nodes[|nodes| - 1].name, DataOf(nodes[|nodes| - 1]))]
  {
  }

  lemma EntriesKeys(nodes: seq<AgentNode>)
    ensures Keys(Entries(nodes)) == Names(nodes)
  {
  }

  /** In a list with distinct names, the last name is not among the earlier ones. */
  lemma LastNameIsNew(nodes: seq<AgentNode>)
    requires nodes != [] && DistinctNames(nodes)
    ensures DistinctNames(nodes[..|nodes| - 1])
    ensures nodes[|nodes| - 1].name !in Names(nodes[..|nodes| - 1])
  {
    var init := nodes[..|nodes| - 1];
    assert forall i :: 0 <= i < |init| ==> init[i] == nodes[i];
  }

  /** With distinct names, the export holds one entry per node, in list order,
      carrying everything but the id and the position. */
  lemma {:induction false} ExportDistinctNames(nodes: seq<AgentNode>)
    requires DistinctNames(nodes)
    ensures ExportRecord(nodes) == Entries(nodes)
  {
    if nodes != [] {
      var init := nodes[..|nodes| - 1];
      var last := nodes[|nodes| - 1];
      LastNameIsNew(nodes);
      ExportDistinctNames(init);
      EntriesKeys(init);
      PutNew(ExportRecord(init), last.name, DataOf(last));
      EntriesSnoc(nodes);
    }
  }

  /** `nodePositions.get(name) || { x: startX, y: startY }` */
  function PositionOr(positions: map<string, Position>, name: string): Position {
    if name in positions then positions[name] else Position(100, 100)
  }

  /** One node of an import: a node already carrying the name keeps its id
      (`{ ...existingNode, ...agentData, name, position }`); any other gets the
      fresh id. Every other field comes from the imported data. */
  function ImportedNode(prior: seq<AgentNode>, name: string, data: AgentData,
                        position: Position, freshId: NodeId): AgentNode
  {
    var id := match LastByName(prior, name)
      case Some(existing) => existing.id
      case None => freshId;
    AgentNode(id, name, data.kind, data.initialPrompt, data.tools, data.forceToolCall,
              data.transitions, position)
  }

  /** The nodes an import builds: one per key of `agents`, in key order. The
      `i`-th key's fresh id is `firstId + i`. */
  function ImportedNodes(prior: seq<AgentNode>, agents: Record<AgentData>,
                         positions: map<string, Position>, firstId: NodeId): seq<AgentNode>
  {
    seq(|agents|, i requires 0 <= i < |agents| =>
      ImportedNode(prior, agents[i].0, agents[i].1, PositionOr(positions, agents[i].0), firstId + i))
  }

  /** The `nodeNames.forEach` loop that fills `updatedNodes`. */
  method BuildImportedNodes(prior: seq<AgentNode>, agents: Record<AgentData>,
                            positions: map<string, Position>, firstId: NodeId)
    returns (updated: seq<AgentNode>)
    ensures updated == ImportedNodes(prior, agents, positions, firstId)
  {
    updated := [];
    for i := 0 to |agents|
      invariant updated == ImportedNodes(prior, Prefix(agents, i), positions, firstId)
    {
      var name := agents[i].0;
      var position := PositionOr(positions, name);
      var existing := LastByName(prior, name);
      var node: AgentNode;
      if existing.Some? {
        node := AgentNode(existing.value.id, name, agents[i].1.kind, agents[i].1.initialPrompt,
                          agents[i].1.tools, agents[i].1.forceToolCall, agents[i].1.transitions, position);
      } else {
        node := AgentNode(firstId + i, name, agents[i].1.kind, agents[i].1.initialPrompt,
                          agents[i].1.tools, agents[i].1.forceToolCall, agents[i].1.transitions, position);
      }
      updated := updated + [node];
    }
    assert agents[..|agents|] == agents;
  }

  /** The imported nodes are named by the keys of `agents`, in key order; so
      their names are distinct, and a node of the old list whose name is not a
      key is gone. */
  lemma ImportedNames(prior: seq<AgentNode>, agents: Record<AgentData>,
                      positions: map<string, Position>, firstId: NodeId)
    ensures Names(ImportedNodes(prior, agents, positions, firstId)) == Keys(agents)
    ensures DistinctNames(ImportedNodes(prior, agents, positions, firstId))
  {
    var r := ImportedNodes(prior, agents, positions, firstId);
    forall i, j | 0 <= i < j < |r|
      ensures r[i].name != r[j].name
    {
      DistinctAt(agents, i, j);
    }
  }

  /** Importing keeps ids unique: a node whose name already exists keeps that
      node's id, and fresh ids lie above every id in use. */
  lemma ImportKeepsIdsDistinct(prior: seq<AgentNode>, agents: Record<AgentData>,
                               positions: map<string, Position>, firstId: NodeId)
    requires DistinctIds(prior)
    requires forall n :: n in prior ==> n.id < firstId
    ensures DistinctIds(ImportedNodes(prior, agents, positions, firstId))
    ensures forall n :: n in ImportedNodes(prior, agents, positions, firstId) ==>
      n.id < firstId + |agents|
  {
    var r := ImportedNodes(prior, agents, positions, firstId);
    forall i, j | 0 <= i < j < |r|
      ensures r[i].id != r[j].id
    {
      var ei := LastByName(prior, agents[i].0);
      var ej := LastByName(prior, agents[j].0);
      if ei.Some? && ej.Some? {
        var a :| 0 <= a < |prior| && prior[a] == ei.value;
        var b :| 0 <= b < |prior| && prior[b] == ej.value;
        DistinctAt(agents, i, j);
        assert a != b;
      }
    }
  }

  /** The `i`-th imported node carries the `i`-th key and its data. */
  lemma ImportedEntryAt(prior: seq<AgentNode>, agents: Record<AgentData>,
                        positions: map<string, Position>, firstId: NodeId, i: nat)
    requires i < |agents|
    ensures var n := ImportedNodes(prior, agents, positions, firstId)[i];
      (n.name, DataOf(n)) == agents[i]
  {
  }

  /** Exporting what an import built gives back the imported `agents` record. */
  lemma ExportAfterImport(prior: seq<AgentNode>, agents: Record<AgentData>,
                          positions: map<string, Position>, firstId: NodeId)
    ensures ExportRecord(ImportedNodes(prior, agents, positions, firstId)) == agents
  {
    var r := ImportedNodes(prior, agents, positions, firstId);
    ImportedNames(prior, agents, positions, firstId);
    ExportDistinctNames(r);
    forall i | 0 <= i < |r|
      ensures Entries(r)[i] == agents[i]
    {
      ImportedEntryAt(prior, agents, positions, firstId, i);
    }
    assert Entries(r) == agents;
  }

  /** With distinct names, the last node with a node's name is that node. */
  lemma LastByNameAt(nodes: seq<AgentNode>, p: nat)
    requires DistinctNames(nodes) && p < |nodes|
    ensures LastByName(nodes, nodes[p].name) == Some(nodes[p])
    decreases |nodes|
  {
    var init := nodes[..|nodes| - 1];
    if p < |nodes| - 1 {
      LastByNameAt(init, p);
    }
  }

  /** Importing the entry of a node back over a list with distinct names
      keeps that node's id. */
  lemma ImportedSelfAt(nodes: seq<AgentNode>, agents: Record<AgentData>,
                       positions: map<string, Position>, firstId: NodeId, i: nat)
    requires DistinctNames(nodes) && i < |nodes| && i < |agents|
    requires agents[i] == (nodes[i].name, DataOf(nodes[i]))
    ensures ImportedNodes(nodes, agents, positions, firstId)[i] ==
      nodes[i].(position := PositionOr(positions, nodes[i].name))
  {
    LastByNameAt(nodes, i);
  }

  /** Re-importing an export of a graph with distinct names, over that same
      graph, reproduces every node (id, name, type, prompt, tools, flag and
      transitions) in order; only the positions are recomputed. */
  lemma ImportAfterExport(nodes: seq<AgentNode>, positions: map<string, Position>, firstId: NodeId)
    requires DistinctNames(nodes)
    ensures var r := ImportedNodes(nodes, ExportRecord(nodes), positions, firstId);
      |r| == |nodes| &&
      forall i :: 0 <= i < |nodes| ==>
        r[i] == nodes[i].(position := PositionOr(positions, nodes[i].name))
  {
    ExportDistinctNames(nodes);
    var agents := Entries(nodes);
    forall i | 0 <= i < |nodes|
      ensures ImportedNodes(nodes, agents, positions, firstId)[i] ==
        nodes[i].(position := PositionOr(positions, nodes[i].name))
    {
      ImportedSelfAt(nodes, agents, positions, firstId, i);
    }
  }

  /** Importing into an empty list gives every node its fresh id. */
  lemma ImportedFreshAt(agents: Record<AgentData>, positions: map<string, Position>,
                        firstId: NodeId, i: nat)
    requires i < |agents|
    ensures var d := agents[i].1;
      ImportedNodes([], agents, positions, firstId)[i] ==
        AgentNode(firstId + i, agents[i].0, d.kind, d.initialPrompt, d.tools, d.forceToolCall,
                  d.transitions, PositionOr(positions, agents[i].0))
  {
  }

  /** Re-importing an export into an empty editor reproduces names, data and
      order; ids are then the fresh ones. */
  lemma ImportExportIntoEmpty(nodes: seq<AgentNode>, positions: map<string, Position>, firstId: NodeId)
    requires DistinctNames(nodes)
    ensures var r := ImportedNodes([], ExportRecord(nodes), positions, firstId);
      |r| == |nodes| &&
      forall i :: 0 <= i < |nodes| ==>
        r[i] == nodes[i].(id := firstId + i, position := PositionOr(positions, nodes[i].name))
  {
    ExportDistinctNames(nodes);
    var agents := Entries(nodes);
    forall i | 0 <= i < |nodes|
      ensures ImportedNodes([], agents, positions, firstId)[i] ==
        nodes[i].(id := firstId + i, position := PositionOr(positions, nodes[i].name))
    {
      ImportedFreshAt(agents, positions, firstId, i);
    }
  }
}
