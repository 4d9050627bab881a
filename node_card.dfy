/** The node card's own edits of its node: inline renaming, adding a fresh
    condition, renaming a condition. Each hands the edited node to `onUpdate`,
    modelled here as the returned update (`None` when nothing is handed over). */
module NodeCard {
  import opened Wrappers
  import opened Records
  import opened Text
  import opened WorkflowTypes

  const EmptyNameMessage := "Name cannot be empty."
  const TakenNameMessage := "Name must be unique."

  /** The inline name editor's state. */
  class NameEditor {
    var tempName: string
    var nameError: string
    var editingName: bool

    constructor(node: AgentNode)
      ensures tempName == node.name && nameError == "" && !editingName
    {
      tempName := node.name;
      nameError := "";
      editingName := false;
    }

    /** `validateAndSaveName`: a blank name and a name another node carries are
        refused with a message and the editor stays open; otherwise the node is
        handed over under the typed name, untrimmed, and the editor closes. */
    method ValidateAndSaveName(node: AgentNode, nodes: seq<AgentNode>) returns (update: Option<AgentNode>)
      modifies this
      ensures tempName == old(tempName)
      ensures IsBlank(tempName) ==>
        update == None && nameError == EmptyNameMessage && editingName == old(editingName)
      ensures !IsBlank(tempName) && NameTakenByOther(nodes, node.id, tempName) ==>
        update == None && nameError == TakenNameMessage && editingName == old(editingName)
      ensures !IsBlank(tempName) && !NameTakenByOther(nodes, node.id, tempName) ==>
        update == Some(node.(name := tempName)) && nameError == "" && !editingName
    {
      if Trim(tempName) == [] {
        nameError := EmptyNameMessage;
        return None;
      }
      if exists i :: 0 <= i < |nodes| && nodes[i].id != node.id && nodes[i].name == tempName {
        nameError := TakenNameMessage;
        return None;
      }
      update := Some(node.(name := tempName));
      nameError := "";
      editingName := false;
    }

    /** The Escape key: the typed name is dropped and the editor closes. */
    method CancelEdit(node: AgentNode)
      modifies this
      ensures tempName == node.name && nameError == "" && !editingName
    {
      tempName := node.name;
      nameError := "";
      editingName := false;
    }
  }

  /** The key `addTransition` tries for a counter value: `new_condition_${i}`. */
  function ConditionName(i: nat): string {
    "new_condition_" + NatToString(i)
  }

  lemma ConditionNameInjective(a: nat, b: nat)
    requires ConditionName(a) == ConditionName(b)
    ensures a == b
  {
    assert NatToString(a) == ConditionName(a)[14..];
    assert NatToString(b) == ConditionName(b)[14..];
    NatToStringInjective(a, b);
  }

  /** `i` is the first counter value from 1 whose key is not in use. */
  predicate SmallestFreeCondition(t: Record<string>, i: nat) {
    1 <= i && ConditionName(i) !in Keys(t) &&
    forall j :: 1 <= j < i ==> ConditionName(j) in Keys(t)
  }

  /** There is only one smallest free counter value. */
  lemma SmallestFreeUnique(t: Record<string>, i: nat, j: nat)
    requires SmallestFreeCondition(t, i) && SmallestFreeCondition(t, j)
    ensures i == j
  {
  }

  lemma {:induction false} SetOfSeqSize<T>(s: seq<T>)
    ensures |set x | x in s| <= |s|
  {
    if s != [] {
      var init := s[..|s| - 1];
      SetOfSeqSize(init);
      assert (set x | x in s) == (set x | x in init) + {s[|s| - 1]};
    }
  }

  lemma {:induction false} SubsetSize<T>(a: set<T>, b: set<T>)
    requires a <= b
    ensures |a| <= |b|
  {
    if a != {} {
      var x :| x in a;
      SubsetSize(a - {x}, b - {x});
    }
  }

  /** The keys the counter produces for the values 1 to `n`. */
  ghost function ConditionNames(n: nat): set<string> {
    if n == 0 then {} else ConditionNames(n - 1) + {ConditionName(n)}
  }

  lemma {:induction false} ConditionNamesMember(n: nat, m: nat)
    ensures ConditionName(m) in ConditionNames(n) <==> 1 <= m <= n
  {
    if n > 0 {
      ConditionNamesMember(n - 1, m);
      if ConditionName(m) == ConditionName(n) {
        ConditionNameInjective(m, n);
      }
    }
  }

  /** The counter values 1 to `n` give `n` different keys. */
  lemma {:induction false} ConditionNamesSize(n: nat)
    ensures |ConditionNames(n)| == n
  {
    if n > 0 {
      ConditionNamesSize(n - 1);
      ConditionNamesMember(n - 1, n);
    }
  }

  lemma {:induction false} ConditionNamesTaken(t: Record<string>, n: nat)
    requires forall j :: 1 <= j <= n ==> ConditionName(j) in Keys(t)
    ensures ConditionNames(n) <= set k | k in Keys(t)
  {
    if n > 0 {
      ConditionNamesTaken(t, n - 1);
    }
  }

  /** When the first `n` counter values are all taken, the record has at least
      `n` entries: so the search of `addTransition` ends. */
  lemma TakenConditionsBound(t: Record<string>, n: nat)
    requires forall j :: 1 <= j <= n ==> ConditionName(j) in Keys(t)
    ensures n <= |t|
  {
    ConditionNamesSize(n);
    ConditionNamesTaken(t, n);
    SubsetSize(ConditionNames(n), set k | k in Keys(t));
    SetOfSeqSize(Keys(t));
  }

  /** `addTransition`: counts up from 1 to the first unused `new_condition_i`
      and adds it with an empty target at the end; the other entries stay. */
  method AddTransition(node: AgentNode) returns (update: AgentNode)
    ensures update == node.(transitions := update.transitions)
    ensures exists i ::
      (SmallestFreeCondition(node.transitions, i) &&
       update.transitions == node.transitions + [(ConditionName(i), "")])
  {
    var t := node.transitions;
    var i := 1;
    while ConditionName(i) in Keys(t)
      invariant 1 <= i
      invariant forall j :: 1 <= j < i ==> ConditionName(j) in Keys(t)
      decreases |t| - i + 1
    {
      TakenConditionsBound(t, i);
      i := i + 1;
    }
    assert SmallestFreeCondition(t, i);
    PutNew(t, ConditionName(i), "");
    update := node.(transitions := Put(t, ConditionName(i), ""));
  }

  /** The record `updateTransitionCondition` builds: the old key deleted, and
      its target assigned under the new key. */
  function RenamedCondition(t: Record<string>, from: string, to: string): Record<string>
    requires from in Keys(t)
  {
    GetSomeIffKey(t, from);
    Put(Remove(t, from), to, Get(t, from).value)
  }

  /** Renaming a condition moves its target to the new key; an entry that
      already had the new key is overwritten, so the record then loses one
      entry. Every other entry keeps its target. */
  lemma RenamedConditionEffect(t: Record<string>, from: string, to: string)
    requires from in Keys(t)
    ensures Get(RenamedCondition(t, from, to), to) == Get(t, from)
    ensures from != to ==> from !in Keys(RenamedCondition(t, from, to))
    ensures forall k :: k != from && k != to ==> Get(RenamedCondition(t, from, to), k) == Get(t, k)
    ensures |RenamedCondition(t, from, to)| ==
      if to in Keys(t) && to != from then |t| - 1 else |t|
  {
    GetSomeIffKey(t, from);
    var removed := Remove(t, from);
    RemovePresentSize(t, from);
    var r := Put(removed, to, Get(t, from).value);
    assert |Keys(r)| == |r| && |Keys(removed)| == |removed|;
  }

  /** `updateTransitionCondition(old, new)`: nothing is handed over when the
      name is unchanged or the new one is blank; otherwise the condition is
      renamed to the trimmed new name. The old condition is a key of the node
      at every call site. */
  method UpdateTransitionCondition(node: AgentNode, oldCondition: string, newCondition: string)
    returns (update: Option<AgentNode>)
    requires oldCondition in Keys(node.transitions)
    ensures oldCondition == newCondition || IsBlank(newCondition) ==> update == None
    ensures oldCondition != newCondition && !IsBlank(newCondition) ==>
      update == Some(node.(transitions := RenamedCondition(node.transitions, oldCondition, Trim(newCondition))))
  {
    if oldCondition == newCondition || Trim(newCondition) == [] {
      return None;
    }
    var newTransitions := node.transitions;
    GetSomeIffKey(newTransitions, oldCondition);
    var target := Get(newTransitions, oldCondition).value;
    newTransitions := Remove(newTransitions, oldCondition);
    newTransitions := Put(newTransitions, Trim(newCondition), target);
    update := Some(node.(transitions := newTransitions));
  }
}
