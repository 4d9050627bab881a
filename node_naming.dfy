/** How `addNode` builds a new agent: the default name from the per-kind count,
    made unique by growing the base with '+' until no node carries it. */
module NodeNaming {
  import opened Text
  import opened WorkflowTypes

  const NewAgentPrompt := "A new agent ready for a prompt."

  function BaseName(kind: AgentKind): string {
    if kind == Conversational then "ConversationalAgent" else "ToolExecutionAgent"
  }

  /** `nodes.filter(n => n.type === kind).length` */
  function CountOfKind(nodes: seq<AgentNode>, kind: AgentKind): (c: nat)
    ensures c <= |nodes|
  {
    if nodes == [] then 0
    else (if nodes[0].kind == kind then 1 else 0) + CountOfKind(nodes[1..], kind)
  }

  function Pluses(k: nat): (s: string)
    ensures |s| == k
  {
    if k == 0 then "" else Pluses(k - 1) + "+"
  }

  /** The name tried after `k` rounds of the loop: `${baseName}${nodeCount}` with
      `k` plus signs appended to the base. */
  function Candidate(kind: AgentKind, k: nat, count: nat): string {
    BaseName(kind) + Pluses(k) + NatToString(count)
  }

  /** The name `addNode` gives the new node: the first candidate (fewest '+')
      that no existing node carries, counting one more than the nodes of that kind. */
  ghost predicate IsDefaultName(nodes: seq<AgentNode>, kind: AgentKind, name: string) {
    var count := CountOfKind(nodes, kind) + 1;
    name !in Names(nodes) &&
    exists k: nat :: name == Candidate(kind, k, count) &&
      forall j :: 0 <= j < k ==> Candidate(kind, j, count) in Names(nodes)
  }

  function LongestName(nodes: seq<AgentNode>): (m: nat)
    ensures forall i :: 0 <= i < |nodes| ==> |nodes[i].name| <= m
  {
    if nodes == [] then 0
    else
      var m := LongestName(nodes[1..]);
      if |nodes[0].name| > m then |nodes[0].name| else m
  }

  /** The name-generation loop of `addNode`. It stops because every round makes
      the candidate one character longer, and a candidate that is taken is no
      longer than the longest existing name. */
  method DefaultName(nodes: seq<AgentNode>, kind: AgentKind) returns (name: string)
    ensures IsDefaultName(nodes, kind, name)
  {
    var nodeCount := CountOfKind(nodes, kind) + 1;
    var baseName := BaseName(kind);
    name := baseName + NatToString(nodeCount);
    ghost var k := 0;
    while name in Names(nodes)
      invariant baseName == BaseName(kind) + Pluses(k)
      invariant name == baseName + NatToString(nodeCount)
      invariant forall j :: 0 <= j < k ==> Candidate(kind, j, nodeCount) in Names(nodes)
      decreases LongestName(nodes) - |name|
    {
      assert name == Candidate(kind, k, nodeCount);
      baseName := baseName + "+";
      name := baseName + NatToString(nodeCount);
      k := k + 1;
    }
    DefaultNameAt(nodes, kind, nodeCount, name, k);
  }

  /** A free candidate after `k` taken ones is the default name. */
  lemma DefaultNameAt(nodes: seq<AgentNode>, kind: AgentKind, count: nat, name: string, k: nat)
    requires count == CountOfKind(nodes, kind) + 1
    requires name !in Names(nodes) && name == Candidate(kind, k, count)
    requires forall j :: 0 <= j < k ==> Candidate(kind, j, count) in Names(nodes)
    ensures IsDefaultName(nodes, kind, name)
  {
  }

  /** The default name is determined by the existing nodes and the kind. */
  lemma DefaultNameDeterministic(nodes: seq<AgentNode>, kind: AgentKind, a: string, b: string)
    requires IsDefaultName(nodes, kind, a) && IsDefaultName(nodes, kind, b)
    ensures a == b
  {
    var count := CountOfKind(nodes, kind) + 1;
    var ka: nat :| a == Candidate(kind, ka, count) &&
      forall j :: 0 <= j < ka ==> Candidate(kind, j, count) in Names(nodes);
    var kb: nat :| b == Candidate(kind, kb, count) &&
      forall j :: 0 <= j < kb ==> Candidate(kind, j, count) in Names(nodes);
    assert ka == kb;
  }

  /** The node `addNode` appends: the default prompt, no tools, no transitions,
      and a forced tool call exactly for a tool-execution agent. */
  function NewAgent(id: NodeId, name: string, kind: AgentKind, position: Position): AgentNode {
    AgentNode(id, name, kind, NewAgentPrompt, [], kind == ToolExecution, [], position)
  }

  /** Appending a node under its default name keeps node names unique. */
  lemma DefaultNameKeepsNamesDistinct(nodes: seq<AgentNode>, kind: AgentKind, node: AgentNode)
    requires DistinctNames(nodes) && IsDefaultName(nodes, kind, node.name)
    ensures DistinctNames(nodes + [node])
  {
    forall i | 0 <= i < |nodes|
      ensures nodes[i].name != node.name
    {
      assert Names(nodes)[i] == nodes[i].name;
    }
  }
}
