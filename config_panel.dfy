/** The configuration panel: a form holding a copy of the selected node, which
    the user edits field by field and saves only when it validates. */
module ConfigPanel {
  import opened Wrappers
  import opened Records
  import opened Text
  import opened WorkflowTypes
  import opened GraphEdits
  import opened NodeEdits

  const NameRequiredMessage := "Name is required"
  const NameUniqueMessage := "Name must be unique"
  const PromptRequiredMessage := "Initial prompt is required"

  /** The error record `validateForm` fills for the edited copy `form` of
      `node`: the name is checked for being blank and, when it was changed, for
      clashing with a node's name; the prompt for being blank. */
  function FormErrors(node: AgentNode, nodes: seq<AgentNode>, form: AgentNode): Record<string> {
    var nameErrors: Record<string> :=
      if IsBlank(form.name) then [("name", NameRequiredMessage)]
      else if form.name != node.name && form.name in Names(nodes) then [("name", NameUniqueMessage)]
      else [];
    var promptErrors: Record<string> :=
      if IsBlank(form.initialPrompt) then [("initial_prompt", PromptRequiredMessage)] else [];
    nameErrors + promptErrors
  }

  /** The form is valid exactly when the name is not blank, is either unchanged
      or unused, and the prompt is not blank. */
  lemma FormValidIff(node: AgentNode, nodes: seq<AgentNode>, form: AgentNode)
    ensures FormErrors(node, nodes, form) == [] <==>
      !IsBlank(form.name) && !IsBlank(form.initialPrompt) &&
      (form.name == node.name || form.name !in Names(nodes))
  {
  }

  /** Saving a valid form of a node of a list with unique ids and names keeps
      the names unique, whether or not the name was changed. */
  lemma SavedFormKeepsNamesDistinct(node: AgentNode, nodes: seq<AgentNode>, form: AgentNode)
    requires DistinctIds(nodes) && DistinctNames(nodes) && node in nodes
    requires form.id == node.id && FormErrors(node, nodes, form) == []
    ensures DistinctNames(UpdatedNodes(nodes, form))
  {
    NameTakenIffOtherName(nodes, node, form.name);
    UpdateKeepsNamesDistinct(nodes, form);
  }

  /** The record `updateTransition(old, new, target)` builds: the old key is
      always deleted, and the new key assigned only when both the new key and
      the target are non-empty. */
  function EditedTransitions(t: Record<string>, oldCondition: string, newCondition: string,
                             target: string): Record<string>
  {
    var rest := Remove(t, oldCondition);
    if newCondition != "" && target != "" then Put(rest, newCondition, target) else rest
  }

  /** Editing a transition sets the new key when both halves are given, takes
      the old key out unless it is the one being set, and keeps every other
      entry. */
  lemma EditedTransitionsEffect(t: Record<string>, oldCondition: string, newCondition: string,
                                target: string)
    ensures newCondition != "" && target != "" ==>
      Get(EditedTransitions(t, oldCondition, newCondition, target), newCondition) == Some(target)
    ensures newCondition == "" || target == "" || newCondition != oldCondition ==>
      oldCondition !in Keys(EditedTransitions(t, oldCondition, newCondition, target))
    ensures forall k :: k != oldCondition && k != newCondition ==>
      Get(EditedTransitions(t, oldCondition, newCondition, target), k) == Get(t, k)
  {
  }

  /** The row `addTransition` adds (`'' -> ''`) vanishes at its first edit:
      typing a condition passes the row's empty target, choosing a target
      passes the row's empty condition, and either way the old key is deleted
      and nothing is assigned. So such a row can never become a transition. */
  lemma DraftRowVanishes(t: Record<string>, condition: string, target: string)
    requires "" !in Keys(t)
    ensures EditedTransitions(Put(t, "", ""), "", condition, "") == t
    ensures EditedTransitions(Put(t, "", ""), "", "", target) == t
  {
    RemoveUndoesPut(t, "", "");
  }

  /** `otherNodes`: the nodes a transition of `node` may be pointed at. */
  function OtherNodes(nodes: seq<AgentNode>, node: AgentNode): (r: seq<AgentNode>)
    ensures forall n :: n in r <==> n in nodes && n.id != node.id
  {
    WithoutNodeMembers(nodes, node.id);
    WithoutNode(nodes, node.id)
  }

  /** In a list with unique ids and names, the edited node's name is not offered
      as a target. */
  lemma EditedNodeNotATarget(nodes: seq<AgentNode>, node: AgentNode)
    requires DistinctIds(nodes) && DistinctNames(nodes) && node in nodes
    ensures node.name !in Names(OtherNodes(nodes, node))
  {
    NameTakenIffOtherName(nodes, node, node.name);
    var others := OtherNodes(nodes, node);
    forall i | 0 <= i < |others|
      ensures Names(others)[i] != node.name
    {
      assert others[i] in others;
    }
  }

  /** The panel's state: the edited copy of the node and the last errors. */
  class ConfigForm {
    var formData: AgentNode
    var errors: Record<string>

    /** The effect run when a node is selected: a fresh copy, no errors. */
    constructor(node: AgentNode)
      ensures formData == node && errors == []
    {
      formData := node;
      errors := [];
    }

    /** `validateForm()` */
    method ValidateForm(node: AgentNode, nodes: seq<AgentNode>) returns (valid: bool)
      modifies this
      ensures formData == old(formData)
      ensures errors == FormErrors(node, nodes, formData)
      ensures valid <==> errors == []
    {
      var newErrors: Record<string> := [];
      if Trim(formData.name) == [] {
        newErrors := Put(newErrors, "name", NameRequiredMessage);
      } else if formData.name != node.name && formData.name in Names(nodes) {
        newErrors := Put(newErrors, "name", NameUniqueMessage);
      }
      if Trim(formData.initialPrompt) == [] {
        PutNew(newErrors, "initial_prompt", PromptRequiredMessage);
        newErrors := Put(newErrors, "initial_prompt", PromptRequiredMessage);
      }
      errors := newErrors;
      valid := |newErrors| == 0;
    }

    /** `handleSave()`: the form is handed over only when it validates. */
    method HandleSave(node: AgentNode, nodes: seq<AgentNode>) returns (saved: Option<AgentNode>)
      modifies this
      ensures formData == old(formData)
      ensures errors == FormErrors(node, nodes, formData)
      ensures saved == if errors == [] then Some(formData) else None
    {
      var valid := ValidateForm(node, nodes);
      saved := if valid then Some(formData) else None;
    }

    /** `addTransition()`: assigns the empty condition with an empty target. */
    method AddTransition()
      modifies this
      ensures formData == old(formData).(transitions := Put(old(formData).transitions, "", ""))
      ensures errors == old(errors)
    {
      formData := formData.(transitions := Put(formData.transitions, "", ""));
    }

    /** `updateTransition(old, new, target)` */
    method UpdateTransition(oldCondition: string, newCondition: string, target: string)
      modifies this
      ensures formData == old(formData).(transitions :=
        EditedTransitions(old(formData).transitions, oldCondition, newCondition, target))
      ensures errors == old(errors)
    {
      var newTransitions := formData.transitions;
      newTransitions := Remove(newTransitions, oldCondition);
      if newCondition != "" && target != "" {
        newTransitions := Put(newTransitions, newCondition, target);
      }
      formData := formData.(transitions := newTransitions);
    }

    /** `removeTransition(condition)` */
    method RemoveTransition(condition: string)
      modifies this
      ensures formData == NodeEdits.RemoveTransition(old(formData), condition)
      ensures errors == old(errors)
    {
      formData := NodeEdits.RemoveTransition(formData, condition);
    }

    /** `toggleTool(tool)` */
    method ToggleTool(tool: string)
      modifies this
      ensures formData == old(formData).(tools := NodeEdits.ToggleTool(old(formData).tools, tool))
      ensures errors == old(errors)
    {
      formData := formData.(tools := NodeEdits.ToggleTool(formData.tools, tool));
    }
  }
}
