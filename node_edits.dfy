/** The edits of one node record that both the node card and the configuration
    form perform the same way: removing a transition and toggling a tool. */
module NodeEdits {
  import opened Wrappers
  import opened Records
  import opened WorkflowTypes

  /** `tools.filter(t => t !== tool)` */
  function WithoutTool(tools: seq<string>, tool: string): seq<string> {
    if tools == [] then []
    else
      var r := WithoutTool(tools[..|tools| - 1], tool);
      var last := tools[|tools| - 1];
      if last == tool then r else r + [last]
  }

  /** The filter keeps exactly the other tools, and keeps a list without the
      tool as it is. */
  lemma {:induction false} WithoutToolMembers(tools: seq<string>, tool: string)
    ensures forall x :: x in WithoutTool(tools, tool) <==> x in tools && x != tool
    ensures tool !in tools ==> WithoutTool(tools, tool) == tools
  {
    if tools != [] {
      var init := tools[..|tools| - 1];
      WithoutToolMembers(init, tool);
      assert tools == init + [tools[|tools| - 1]];
    }
  }

  /** `tools.includes(tool) ? tools.filter(t => t !== tool) : [...tools, tool]` */
  function ToggleTool(tools: seq<string>, tool: string): seq<string> {
    if tool in tools then WithoutTool(tools, tool) else tools + [tool]
  }

  /** Toggling flips the tool's membership and no other tool's. */
  lemma ToggleFlips(tools: seq<string>, tool: string)
    ensures tool in ToggleTool(tools, tool) <==> tool !in tools
    ensures forall x :: x != tool ==> (x in ToggleTool(tools, tool) <==> x in tools)
  {
    WithoutToolMembers(tools, tool);
  }

  /** Toggling an absent tool twice gives back the list. */
  lemma ToggleTwiceRestores(tools: seq<string>, tool: string)
    requires tool !in tools
    ensures ToggleTool(ToggleTool(tools, tool), tool) == tools
  {
    WithoutToolMembers(tools, tool);
    assert WithoutTool(tools + [tool], tool) == WithoutTool(tools, tool);
  }

  /** `const { [condition]: _, ...rest } = node.transitions` (or `delete` on a
      copy), put back into the node: that key goes and nothing else changes. */
  function RemoveTransition(node: AgentNode, condition: string): (r: AgentNode)
    ensures r == node.(transitions := r.transitions)
    ensures forall k :: k in Keys(r.transitions) <==> k in Keys(node.transitions) && k != condition
    ensures forall k :: k != condition ==> Get(r.transitions, k) == Get(node.transitions, k)
  {
    node.(transitions := Remove(node.transitions, condition))
  }

  /** Removing a transition cuts exactly its entry out of the record, keeping
      the order of the others; an absent condition leaves the node as it is. */
  lemma RemoveTransitionCutsEntry(node: AgentNode, condition: string, p: nat)
    requires p < |node.transitions| && node.transitions[p].0 == condition
    ensures RemoveTransition(node, condition).transitions ==
      node.transitions[..p] + node.transitions[p + 1..]
  {
    RemoveAt(node.transitions, condition, p);
  }

  lemma RemoveAbsentTransition(node: AgentNode, condition: string)
    requires condition !in Keys(node.transitions)
    ensures RemoveTransition(node, condition) == node
  {
    RemoveAbsent(node.transitions, condition);
  }
}
