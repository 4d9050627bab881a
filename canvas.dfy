/** The canvas's part in editing the graph: dragging from a transition's output
    terminal to a node rewires that transition, and the drawn edges are derived
    from the transitions by resolving target names. Terminal positions are the
    measured screen positions, given here as a map. */
module Canvas {
  import opened Wrappers
  import opened Records
  import opened WorkflowTypes
  import opened GraphEdits

  /** A terminal of a node: the output of one of its conditions, or its input.
      The source keys these as `output-<id>-<condition>` and `input-<id>`. */
  datatype Terminal = Output(nodeId: NodeId, condition: string) | Input(nodeId: NodeId)

  /** `ConnectionInProgress`: the drag from an output terminal. */
  datatype Connection = Connection(fromNodeId: NodeId, condition: string,
                                   startPosition: Position, currentPosition: Position)

  /** One drawn edge; its key is the pair of terminals. */
  datatype Edge = Edge(from: Terminal, to: Terminal, fromPosition: Position,
                       toPosition: Position, condition: string)

  /** The update `handleEndConnection` hands over when the drag `c` ends on the
      node `targetId`: the source node with the dragged condition pointed at the
      target's name. */
  function Rewire(nodes: seq<AgentNode>, c: Connection, targetId: NodeId): Option<AgentNode> {
    if c.fromNodeId == targetId then None
    else
      match (FindById(nodes, c.fromNodeId), FindById(nodes, targetId))
      case (Some(source), Some(target)) =>
        Some(source.(transitions := Put(source.transitions, c.condition, target.name)))
      case _ => None
  }

  /** A drag ending on its own node, or involving a node that is gone, updates
      nothing; otherwise the source node gets the condition pointed at the
      target's name, overwriting any earlier target, with every other
      transition and field kept. */
  lemma RewireEffect(nodes: seq<AgentNode>, c: Connection, targetId: NodeId)
    ensures Rewire(nodes, c, targetId).Some? <==>
      c.fromNodeId != targetId && FindById(nodes, c.fromNodeId).Some? && FindById(nodes, targetId).Some?
    ensures Rewire(nodes, c, targetId).Some? ==>
      var source := FindById(nodes, c.fromNodeId).value;
      var r := Rewire(nodes, c, targetId).value;
      r == source.(transitions := r.transitions) &&
      Get(r.transitions, c.condition) == Some(FindById(nodes, targetId).value.name) &&
      forall k :: k != c.condition ==> Get(r.transitions, k) == Get(source.transitions, k)
  {
  }

  /** The edge drawn for one transition `(condition, targetName)` of `source`:
      the target is the first node carrying that name, and both terminals must
      have a measured position. */
  function EdgeFor(source: AgentNode, entry: (string, string), nodes: seq<AgentNode>,
                   positions: map<Terminal, Position>): Option<Edge>
  {
    match FindByName(nodes, entry.1)
    case None => None
    case Some(target) =>
      var from := Output(source.id, entry.0);
      var to := Input(target.id);
      if from in positions && to in positions
      then Some(Edge(from, to, positions[from], positions[to], entry.0))
      else None
  }

  /** The edges of one source's transitions, in entry order, dropping the
      transitions that draw nothing. */
  function EdgesFrom(source: AgentNode, entries: seq<(string, string)>, nodes: seq<AgentNode>,
                     positions: map<Terminal, Position>): seq<Edge>
  {
    if entries == [] then []
    else
      var rest := EdgesFrom(source, entries[1..], nodes, positions);
      match EdgeFor(source, entries[0], nodes, positions)
      case Some(e) => [e] + rest
      case None => rest
  }

  /** `connections`: the edges of every source's transitions, sources in order. */
  function Connections(sources: seq<AgentNode>, nodes: seq<AgentNode>,
                       positions: map<Terminal, Position>): seq<Edge>
  {
    if sources == [] then []
    else EdgesFrom(sources[0], sources[0].transitions, nodes, positions) +
         Connections(sources[1..], nodes, positions)
  }

  lemma {:induction false} EdgesFromMember(source: AgentNode, entries: seq<(string, string)>,
                                           nodes: seq<AgentNode>, positions: map<Terminal, Position>, e: Edge)
    ensures e in EdgesFrom(source, entries, nodes, positions) <==>
      exists entry :: entry in entries && EdgeFor(source, entry, nodes, positions) == Some(e)
  {
    if entries != [] {
      EdgesFromMember(source, entries[1..], nodes, positions, e);
      assert forall entry :: entry in entries <==> entry == entries[0] || entry in entries[1..];
    }
  }

  /** An edge is drawn exactly when some transition of some node draws it. */
  lemma {:induction false} ConnectionsMember(sources: seq<AgentNode>, nodes: seq<AgentNode>,
                                             positions: map<Terminal, Position>, e: Edge)
    ensures e in Connections(sources, nodes, positions) <==>
      exists source, entry :: source in sources && entry in source.transitions &&
        EdgeFor(source, entry, nodes, positions) == Some(e)
  {
    if sources != [] {
      EdgesFromMember(sources[0], sources[0].transitions, nodes, positions, e);
      ConnectionsMember(sources[1..], nodes, positions, e);
      assert forall s :: s in sources <==> s == sources[0] || s in sources[1..];
    }
  }

  /** An edge is drawn for a transition exactly when its target name resolves to
      a node and both terminals have a position; the edge then joins the
      condition's output terminal to that node's input terminal. */
  lemma EdgeForIff(source: AgentNode, entry: (string, string), nodes: seq<AgentNode>,
                   positions: map<Terminal, Position>)
    ensures EdgeFor(source, entry, nodes, positions).Some? <==>
      FindByName(nodes, entry.1).Some? &&
      Output(source.id, entry.0) in positions &&
      Input(FindByName(nodes, entry.1).value.id) in positions
    ensures EdgeFor(source, entry, nodes, positions).Some? ==>
      var e := EdgeFor(source, entry, nodes, positions).value;
      e.from == Output(source.id, entry.0) && e.to == Input(FindByName(nodes, entry.1).value.id) &&
      e.fromPosition == positions[e.from] && e.toPosition == positions[e.to] &&
      e.condition == entry.0 && FindByName(nodes, entry.1).value.name == entry.1
  {
  }

  /** In a graph with unique ids and names, once a rewire has been applied
      through `updateNode`, the new edge is drawn, provided both terminals
      have a position. */
  lemma RewiredEdgeIsDrawn(nodes: seq<AgentNode>, c: Connection, targetId: NodeId,
                           positions: map<Terminal, Position>)
    requires DistinctIds(nodes) && DistinctNames(nodes)
    requires Rewire(nodes, c, targetId).Some?
    requires Output(c.fromNodeId, c.condition) in positions && Input(targetId) in positions
    ensures var after := UpdatedNodes(nodes, Rewire(nodes, c, targetId).value);
      Edge(Output(c.fromNodeId, c.condition), Input(targetId),
           positions[Output(c.fromNodeId, c.condition)], positions[Input(targetId)], c.condition)
        in Connections(after, after, positions)
  {
    var r := Rewire(nodes, c, targetId).value;
    var p := IndexOfId(nodes, c.fromNodeId);
    var q := IndexOfId(nodes, targetId);
    var target := nodes[q];
    var after := UpdatedNodes(nodes, r);
    assert after == ReplaceById(nodes, r);
    assert after[p] == r && after[q] == target;
    assert Names(after) == Names(nodes);
    assert DistinctNames(after) by {
      assert forall i :: 0 <= i < |after| ==> after[i].name == Names(nodes)[i];
    }
    FindByNameAt(after, q);
    GetEntry(r.transitions, c.condition, target.name);
    var e := Edge(Output(c.fromNodeId, c.condition), Input(targetId),
                  positions[Output(c.fromNodeId, c.condition)], positions[Input(targetId)], c.condition);
    assert EdgeFor(after[p], (c.condition, target.name), after, positions) == Some(e);
    ConnectionsMember(after, after, positions, e);
  }

  /** The canvas's connection state. */
  class CanvasState {
    var connection: Option<Connection>
    var terminalPositions: map<Terminal, Position>

    constructor()
      ensures connection == None && terminalPositions == map[]
    {
      connection := None;
      terminalPositions := map[];
    }

    /** `handleStartConnection(nodeId, condition)`: a drag starts only from an
        output terminal whose position has been measured. */
    method StartConnection(nodeId: NodeId, condition: string)
      modifies this
      ensures terminalPositions == old(terminalPositions)
      ensures Output(nodeId, condition) in terminalPositions ==>
        var p := terminalPositions[Output(nodeId, condition)];
        connection == Some(Connection(nodeId, condition, p, p))
      ensures Output(nodeId, condition) !in terminalPositions ==> connection == old(connection)
    {
      var startKey := Output(nodeId, condition);
      if startKey in terminalPositions {
        var startPosition := terminalPositions[startKey];
        connection := Some(Connection(nodeId, condition, startPosition, startPosition));
      }
    }

    /** `handleEndConnection(targetNodeId)`: hands over the rewired source node,
        if any, and always ends the drag. */
    method EndConnection(nodes: seq<AgentNode>, targetId: NodeId) returns (update: Option<AgentNode>)
      modifies this
      ensures connection == None && terminalPositions == old(terminalPositions)
      ensures old(connection).None? ==> update == None
      ensures old(connection).Some? ==> update == Rewire(nodes, old(connection).value, targetId)
    {
      update := None;
      if connection.Some? && connection.value.fromNodeId != targetId {
        var sourceNode := FindById(nodes, connection.value.fromNodeId);
        var targetNode := FindById(nodes, targetId);
        if sourceNode.Some? && targetNode.Some? {
          var updatedTransitions :=
            Put(sourceNode.value.transitions, connection.value.condition, targetNode.value.name);
          update := Some(sourceNode.value.(transitions := updatedTransitions));
        }
      }
      connection := None;
    }
  }
}
