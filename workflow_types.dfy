/** The records of a workflow graph: agent nodes, the per-agent data of the
    exported file, and the look-ups by id and by name that every operation uses. */
module WorkflowTypes {
  import opened Wrappers
  import opened Records

  /** A node's internal identifier; the source draws these from `crypto.randomUUID`. */
  type NodeId = nat

  datatype AgentKind = Conversational | ToolExecution

  /** Canvas coordinates. */
  datatype Position = Position(x: int, y: int)

  /** `AgentNode`: transitions map a condition label to the NAME of the target node. */
  datatype AgentNode = AgentNode(
    id: NodeId,
    name: string,
    kind: AgentKind,
    initialPrompt: string,
    tools: seq<string>,
    forceToolCall: bool,
    transitions: Record<string>,
    position: Position)

  /** One agent of the exported file: a node without its id, name and position. */
  datatype AgentData = AgentData(
    kind: AgentKind,
    initialPrompt: string,
    tools: seq<string>,
    forceToolCall: bool,
    transitions: Record<string>)

  /** The `agent_graph` object of the exported file. */
  datatype ExportedWorkflow = ExportedWorkflow(startNode: string, agents: Record<AgentData>)

  function Names(nodes: seq<AgentNode>): seq<string> {
    seq(|nodes|, i requires 0 <= i < |nodes| => nodes[i].name)
  }

  predicate DistinctNames(nodes: seq<AgentNode>) {
    forall i, j :: 0 <= i < j < |nodes| ==> nodes[i].name != nodes[j].name
  }

  predicate DistinctIds(nodes: seq<AgentNode>) {
    forall i, j :: 0 <= i < j < |nodes| ==> nodes[i].id != nodes[j].id
  }

  /** Position of the first node with the given id, or `|nodes|` when there is none. */
  function IndexOfId(nodes: seq<AgentNode>, id: NodeId): (p: nat)
    ensures p <= |nodes|
    ensures p < |nodes| ==> nodes[p].id == id
    ensures forall q :: 0 <= q < p ==> nodes[q].id != id
  {
    if nodes == [] then 0
    else if nodes[0].id == id then 0
    else 1 + IndexOfId(nodes[1..], id)
  }

  /** `nodes.find(n => n.id === id)` */
  function FindById(nodes: seq<AgentNode>, id: NodeId): Option<AgentNode> {
    var p := IndexOfId(nodes, id);
    if p < |nodes| then Some(nodes[p]) else None
  }

  /** Position of the first node with the given name, or `|nodes|` when there is none. */
  function IndexOfName(nodes: seq<AgentNode>, name: string): (p: nat)
    ensures p <= |nodes|
    ensures p < |nodes| ==> nodes[p].name == name
    ensures forall q :: 0 <= q < p ==> nodes[q].name != name
  {
    if nodes == [] then 0
    else if nodes[0].name == name then 0
    else 1 + IndexOfName(nodes[1..], name)
  }

  /** `nodes.find(n => n.name === name)` */
  function FindByName(nodes: seq<AgentNode>, name: string): Option<AgentNode> {
    var p := IndexOfName(nodes, name);
    if p < |nodes| then Some(nodes[p]) else None
  }

  /** `nodes.some(n => n.id !== id && n.name === name)` */
  predicate NameTakenByOther(nodes: seq<AgentNode>, id: NodeId, name: string) {
    exists i :: 0 <= i < |nodes| && nodes[i].id != id && nodes[i].name == name
  }

  /** The names of one more node of a list. */
  /** With distinct ids, the node found for an id is the one that carries it. */
  lemma FindByIdAt(nodes: seq<AgentNode>, p: nat)
    requires DistinctIds(nodes) && p < |nodes|
    ensures FindById(nodes, nodes[p].id) == Some(nodes[p])
  {
  }

  /** With distinct names, the node found for a name is the one that carries it. */
  lemma FindByNameAt(nodes: seq<AgentNode>, p: nat)
    requires DistinctNames(nodes) && p < |nodes|
    ensures FindByName(nodes, nodes[p].name) == Some(nodes[p])
  {
  }

  /** In a list with unique ids and names, "another node carries the name" means
      the name is in use and is not the node's own: so the node's current name
      is always accepted, and the inline editor and the configuration form
      refuse the same names. */
  lemma NameTakenIffOtherName(nodes: seq<AgentNode>, node: AgentNode, name: string)
    requires DistinctIds(nodes) && DistinctNames(nodes) && node in nodes
    ensures NameTakenByOther(nodes, node.id, name) <==> name in Names(nodes) && name != node.name
  {
    var k :| 0 <= k < |nodes| && nodes[k] == node;
    if NameTakenByOther(nodes, node.id, name) {
      var i :| 0 <= i < |nodes| && nodes[i].id != node.id && nodes[i].name == name;
      assert Names(nodes)[i] == name;
      assert i != k;
    }
    if name in Names(nodes) && name != node.name {
      var i :| 0 <= i < |nodes| && Names(nodes)[i] == name;
      assert i != k;
      assert nodes[i].id != node.id;
    }
  }
}
