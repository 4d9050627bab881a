/** `useWorkflow`: the editor's state (the node list, the selected node and the
    start node's name) and the operations that change it. Each operation goes
    from its pre-state to its post-state in one step; ids come from a counter. */
module WorkflowStore {
  import opened Wrappers
  import opened Records
  import opened WorkflowTypes
  import opened NodeNaming
  import opened GraphEdits
  import opened Exchange
  import opened Placement
  import opened Validation

  /** The `agent_graph` object of an imported file; `agents` may be missing. */
  datatype AgentGraph = AgentGraph(startNode: string, agents: Option<Record<AgentData>>)

  /** The `{ agent_graph }` payload handed to `importWorkflow`. */
  datatype ImportPayload = ImportPayload(agentGraph: Option<AgentGraph>)

  /** `agent_graph && agent_graph.agents`: the payload can be imported. */
  predicate Importable(payload: ImportPayload) {
    payload.agentGraph.Some? && payload.agentGraph.value.agents.Some?
  }

  /** The positions an import may compute for `agents` from `start`. */
  ghost predicate LaidOut(agents: Record<AgentData>, start: string, positions: map<string, Position>) {
    exists order, levels ::
      SearchOutcome(agents, start, order, levels) && positions == LayoutOf(Keys(agents), order, levels)
  }

  class Workflow {
    var nodes: seq<AgentNode>
    var selectedNodeId: Option<NodeId>
    var startNodeId: string
    /** The next fresh id; every id in use lies below it. */
    var nextId: NodeId

    predicate Valid()
      reads this
    {
      DistinctIds(nodes) && forall n :: n in nodes ==> n.id < nextId
    }

    constructor()
      ensures Valid()
      ensures nodes == [] && selectedNodeId == None && startNodeId == "" && nextId == 0
    {
      nodes := [];
      selectedNodeId := None;
      startNodeId := "";
      nextId := 0;
    }

    method SetSelectedNodeId(id: Option<NodeId>)
      modifies this
      ensures selectedNodeId == id
      ensures nodes == old(nodes) && startNodeId == old(startNodeId) && nextId == old(nextId)
    {
      selectedNodeId := id;
    }

    method SetStartNodeId(name: string)
      modifies this
      ensures startNodeId == name
      ensures nodes == old(nodes) && selectedNodeId == old(selectedNodeId) && nextId == old(nextId)
    {
      startNodeId := name;
    }

    /** `addNode(position, type)`: appends a node under the default name with a
        fresh id; the first node of an empty editor becomes the start. */
    method AddNode(position: Position, kind: AgentKind)
      requires Valid()
      modifies this
      ensures Valid()
      ensures |nodes| == |old(nodes)| + 1
      ensures nodes == old(nodes) + [NewAgent(old(nextId), nodes[|nodes| - 1].name, kind, position)]
      ensures IsDefaultName(old(nodes), kind, nodes[|nodes| - 1].name)
      ensures forall n :: n in old(nodes) ==> n.id != nodes[|nodes| - 1].id
      ensures DistinctNames(old(nodes)) ==> DistinctNames(nodes)
      ensures startNodeId == if old(nodes) == [] then nodes[0].name else old(startNodeId)
      ensures selectedNodeId == old(selectedNodeId) && nextId == old(nextId) + 1
    {
      var newName := DefaultName(nodes, kind);
      var newNode := NewAgent(nextId, newName, kind, position);
      if DistinctNames(nodes) {
        DefaultNameKeepsNamesDistinct(nodes, kind, newNode);
      }
      if nodes == [] {
        startNodeId := newName;
      }
      nodes := nodes + [newNode];
      nextId := nextId + 1;
    }

    /** `updateNode(u)`: replaces the node with `u`'s id; a rename is carried to
        every transition into the old name and to the start node. */
    method UpdateNode(u: AgentNode)
      requires Valid()
      modifies this
      ensures Valid()
      ensures nodes == UpdatedNodes(old(nodes), u)
      ensures startNodeId == UpdatedStart(old(nodes), old(startNodeId), u)
      ensures selectedNodeId == old(selectedNodeId) && nextId == old(nextId)
    {
      var originalNode := FindById(nodes, u.id);
      var newNodes := ReplaceById(nodes, u);
      if originalNode.Some? && originalNode.value.name != u.name {
        newNodes := CascadeRename(newNodes, originalNode.value.name, u.name);
      }
      if originalNode.Some? && originalNode.value.name == startNodeId {
        startNodeId := u.name;
      }
      UpdateKeepsIds(nodes, u);
      nodes := newNodes;
    }

    /** `deleteNode(id)`: removes the node and every transition into it, hands
        the start to the first other node when the start is deleted, and drops
        the selection of the deleted node. An unknown id changes nothing. */
    method DeleteNode(id: NodeId)
      requires Valid()
      modifies this
      ensures Valid()
      ensures nodes == DeletedNodes(old(nodes), id)
      ensures startNodeId == StartAfterDelete(old(nodes), old(startNodeId), id)
      ensures selectedNodeId == SelectionAfterDelete(old(nodes), old(selectedNodeId), id)
      ensures nextId == old(nextId)
    {
      var nodeToDelete := FindById(nodes, id);
      if nodeToDelete.None? {
        return;
      }
      var remaining := RemoveNode(nodes, id, nodeToDelete.value.name);
      if nodeToDelete.value.name == startNodeId {
        var p := IndexOfOther(nodes, id);
        startNodeId := if p < |nodes| then nodes[p].name else "";
      }
      if selectedNodeId == Some(id) {
        selectedNodeId := None;
      }
      DeleteKeepsIdsDistinct(nodes, id);
      nodes := remaining;
    }

    /** `clearAll()` */
    method ClearAll()
      requires Valid()
      modifies this
      ensures Valid()
      ensures nodes == [] && selectedNodeId == None && startNodeId == ""
      ensures nextId == old(nextId)
    {
      nodes := [];
      selectedNodeId := None;
      startNodeId := "";
    }

    /** `exportWorkflow()`: the start node and one entry per node name. */
    method ExportWorkflow() returns (w: ExportedWorkflow)
      ensures w == ExportedWorkflow(startNodeId, ExportRecord(nodes))
    {
      w := ExportWorkflowOf(nodes, startNodeId);
    }

    /** `importWorkflow(payload)`. A payload without `agent_graph` or `agents` is
        refused with the alert's message and changes nothing. Otherwise the nodes
        become one per key of `agents`, laid out by level from the start node;
        a node whose name already exists keeps its id, the others get fresh ids;
        the start node is the file's and nothing is selected. */
    method ImportWorkflow(payload: ImportPayload) returns (error: Option<string>)
      requires Valid()
      modifies this
      ensures Valid()
      ensures !Importable(payload) ==>
        error == Some(ImportFailedMessage) &&
        nodes == old(nodes) && selectedNodeId == old(selectedNodeId) &&
        startNodeId == old(startNodeId) && nextId == old(nextId)
      ensures Importable(payload) ==>
        var graph := payload.agentGraph.value;
        var agents := graph.agents.value;
        error == None &&
        (exists positions :: LaidOut(agents, graph.startNode, positions) &&
           nodes == ImportedNodes(old(nodes), agents, positions, old(nextId))) &&
        startNodeId == graph.startNode && selectedNodeId == None &&
        nextId == old(nextId) + |agents|
    {
      if payload.agentGraph.None? || payload.agentGraph.value.agents.None? {
        return Some(ImportFailedMessage);
      }
      var graph := payload.agentGraph.value;
      var agents := graph.agents.value;
      var order, levels, positions := ComputeLayout(agents, graph.startNode);
      assert LaidOut(agents, graph.startNode, positions);
      var updatedNodes := BuildImportedNodes(nodes, agents, positions, nextId);
      ImportKeepsIdsDistinct(nodes, agents, positions, nextId);
      nodes := updatedNodes;
      startNodeId := graph.startNode;
      selectedNodeId := None;
      nextId := nextId + |agents|;
      error := None;
    }

    /** `validateWorkflow()` */
    method ValidateWorkflow() returns (errors: seq<string>)
      ensures errors == Messages(Problems(nodes, startNodeId))
    {
      errors := Validation.ValidateWorkflow(nodes, startNodeId);
    }
  }

  /** As written, `importWorkflow` is memoised with no dependencies, so the node
      list it merges into is the empty list of the first render: a node that
      already carries an imported name loses its id. With the current nodes, as
      the merge evidently intends, the id is kept. */
  lemma StaleImportLosesIds()
    ensures var existing := AgentNode(0, "Triage", Conversational, "Hello", [], false, [], Position(0, 0));
      var agents: Record<AgentData> := [("Triage", DataOf(existing))];
      ImportedNodes([], agents, map[], 1)[0].id == 1 &&
      ImportedNodes([existing], agents, map[], 1)[0].id == 0
  {
    var existing := AgentNode(0, "Triage", Conversational, "Hello", [], false, [], Position(0, 0));
    assert LastByName([existing], "Triage") == Some(existing);
  }
}
