/** The structural edits of the workflow state: `updateNode` with its rename
    cascade and `deleteNode` with its transition clean-up and start-node repair.
    Each is a function from the pre-state to the post-state; the loops of the
    source are the methods beside them. */
module GraphEdits {
  import opened Wrappers
  import opened Records
  import opened WorkflowTypes

  // ----- updateNode -----

  /** The transitions with every target equal to `from` pointed at `to`. */
  function Retarget(t: Record<string>, from: string, to: string): (r: Record<string>)
    ensures Keys(r) == Keys(t)
    ensures from != to ==> from !in Values(r)
  {
    var r := seq(|t|, i requires 0 <= i < |t| => (t[i].0, if t[i].1 == from then to else t[i].1));
    assert Keys(r) == Keys(t);
    SameKeysDistinct(t, r);
    r
  }

  /** Reading a condition after the rewrite: the old target, unless it was
      `from`, which now reads `to`; no condition is added or dropped. */
  lemma {:induction false} RetargetGet(t: Record<string>, from: string, to: string, k: string)
    ensures Get(Retarget(t, from, to), k) ==
      match Get(t, k)
      case None => None
      case Some(v) => Some(if v == from then to else v)
  {
    if t != [] {
      assert Retarget(t, from, to)[1..] == Retarget(Rest(t), from, to);
      RetargetGet(Rest(t), from, to, k);
    }
  }

  /** Pointing `to` back at `from` undoes the rewrite when `to` was not a target before. */
  lemma RetargetUndo(t: Record<string>, from: string, to: string)
    requires to !in Values(t)
    ensures Retarget(Retarget(t, from, to), to, from) == t
  {
    forall i | 0 <= i < |t|
      ensures Retarget(Retarget(t, from, to), to, from)[i] == t[i]
    {
      assert Values(t)[i] == t[i].1;
    }
  }

  /** The `for (const key in newTransitions)` loop of `updateNode`. */
  method RetargetTransitions(t: Record<string>, from: string, to: string) returns (r: Record<string>)
    ensures r == Retarget(t, from, to)
  {
    r := t;
    for i := 0 to |t|
      invariant |r| == |t| && Keys(r) == Keys(t)
      invariant forall j :: 0 <= j < i ==> r[j] == Retarget(t, from, to)[j]
      invariant forall j :: i <= j < |t| ==> r[j] == t[j]
    {
      if r[i].1 == from {
        var r' := r[i := (r[i].0, to)];
        assert Keys(r') == Keys(r);
        SameKeysDistinct(r, r');
        r := r';
      }
    }
  }

  function RetargetNode(n: AgentNode, from: string, to: string): AgentNode {
    n.(transitions := Retarget(n.transitions, from, to))
  }

  /** The rename cascade over the whole node list. */
  function Cascade(nodes: seq<AgentNode>, from: string, to: string): seq<AgentNode> {
    seq(|nodes|, i requires 0 <= i < |nodes| => RetargetNode(nodes[i], from, to))
  }

  /** `newNodes.map(...)` with the transition loop inside. */
  method CascadeRename(nodes: seq<AgentNode>, from: string, to: string) returns (r: seq<AgentNode>)
    ensures r == Cascade(nodes, from, to)
  {
    r := [];
    for i := 0 to |nodes|
      invariant r == Cascade(nodes[..i], from, to)
    {
      var t := RetargetTransitions(nodes[i].transitions, from, to);
      r := r + [nodes[i].(transitions := t)];
    }
    assert nodes[..|nodes|] == nodes;
  }

  /** `prev.map(node => node.id === u.id ? u : node)` */
  function ReplaceById(nodes: seq<AgentNode>, u: AgentNode): seq<AgentNode> {
    seq(|nodes|, i requires 0 <= i < |nodes| => if nodes[i].id == u.id then u else nodes[i])
  }

  /** The node list after `updateNode(u)`: the node with `u`'s id replaced by
      `u`, and on a name change every transition into the old name, the
      replaced node's own included, pointed at the new name. */
  function UpdatedNodes(nodes: seq<AgentNode>, u: AgentNode): seq<AgentNode> {
    var replaced := ReplaceById(nodes, u);
    match FindById(nodes, u.id)
    case Some(original) =>
      if original.name != u.name then Cascade(replaced, original.name, u.name) else replaced
    case None => replaced
  }

  /** The start node after `updateNode(u)`: it follows the node it names. */
  function UpdatedStart(nodes: seq<AgentNode>, start: string, u: AgentNode): string {
    match FindById(nodes, u.id)
    case Some(original) => if original.name == start then u.name else start
    case None => start
  }

  /** An update whose id matches no node changes nothing. */
  lemma UpdateUnknownIdIsNoOp(nodes: seq<AgentNode>, start: string, u: AgentNode)
    requires FindById(nodes, u.id) == None
    ensures UpdatedNodes(nodes, u) == nodes && UpdatedStart(nodes, start, u) == start
  {
  }

  /** An update keeps the list's length and order; the matching node becomes
      `u` and every other node keeps all its fields, except that transitions
      into a renamed node now carry its new name. */
  lemma UpdateReplacesOnlyThatNode(nodes: seq<AgentNode>, u: AgentNode)
    requires FindById(nodes, u.id).Some?
    ensures var r := UpdatedNodes(nodes, u);
      var from := FindById(nodes, u.id).value.name;
      |r| == |nodes| &&
      (forall i :: 0 <= i < |nodes| && nodes[i].id != u.id ==>
         r[i] == nodes[i].(transitions := Retarget(nodes[i].transitions, from, u.name))) &&
      (forall i :: 0 <= i < |nodes| && nodes[i].id == u.id ==>
         r[i] == u.(transitions := Retarget(u.transitions, from, u.name)))
  {
    var from := FindById(nodes, u.id).value.name;
    if from == u.name {
      forall t: Record<string> ensures Retarget(t, from, u.name) == t {
      }
    }
  }

  /** An update never changes which id sits where, so ids stay unique. */
  lemma UpdateKeepsIds(nodes: seq<AgentNode>, u: AgentNode)
    ensures |UpdatedNodes(nodes, u)| == |nodes|
    ensures forall i :: 0 <= i < |nodes| ==> UpdatedNodes(nodes, u)[i].id == nodes[i].id
    ensures DistinctIds(nodes) ==> DistinctIds(UpdatedNodes(nodes, u))
  {
  }

  /** After a rename no transition anywhere still points at the old name. */
  lemma RenameLeavesNoStaleTarget(nodes: seq<AgentNode>, u: AgentNode)
    requires FindById(nodes, u.id).Some? && FindById(nodes, u.id).value.name != u.name
    ensures forall i :: 0 <= i < |UpdatedNodes(nodes, u)| ==>
      FindById(nodes, u.id).value.name !in Values(UpdatedNodes(nodes, u)[i].transitions)
  {
  }

  /** The start node follows a rename of the node it names and is otherwise kept. */
  lemma StartFollowsRename(nodes: seq<AgentNode>, start: string, u: AgentNode)
    requires FindById(nodes, u.id).Some?
    ensures start == FindById(nodes, u.id).value.name ==> UpdatedStart(nodes, start, u) == u.name
    ensures start != FindById(nodes, u.id).value.name ==> UpdatedStart(nodes, start, u) == start
  {
  }

  /** A rename to a name no other node carries keeps names unique: this is what
      the inline editor and the configuration form check before saving. */
  lemma UpdateKeepsNamesDistinct(nodes: seq<AgentNode>, u: AgentNode)
    requires DistinctNames(nodes) && DistinctIds(nodes)
    requires !NameTakenByOther(nodes, u.id, u.name)
    ensures DistinctNames(UpdatedNodes(nodes, u))
  {
    var r := UpdatedNodes(nodes, u);
    assert forall i :: 0 <= i < |nodes| ==>
      r[i].name == (if nodes[i].id == u.id then u.name else nodes[i].name);
    forall i, j | 0 <= i < j < |r|
      ensures r[i].name != r[j].name
    {
      if nodes[i].id == u.id {
        assert nodes[j].id != u.id;
      }
    }
  }

  /** Renaming a node back undoes the rename, transitions and start node included,
      provided the new name was not a transition target or the start beforehand. */
  lemma RenameUndo(nodes: seq<AgentNode>, start: string, u: AgentNode)
    requires DistinctIds(nodes)
    requires FindById(nodes, u.id).Some? && FindById(nodes, u.id).value.name != u.name
    requires forall i :: 0 <= i < |nodes| ==> u.name !in Values(nodes[i].transitions)
    requires start != u.name
    ensures var original := FindById(nodes, u.id).value;
      UpdatedNodes(UpdatedNodes(nodes, u), original) == nodes &&
      UpdatedStart(UpdatedNodes(nodes, u), UpdatedStart(nodes, start, u), original) == start
  {
    var original := FindById(nodes, u.id).value;
    var p := IndexOfId(nodes, u.id);
    var r1 := UpdatedNodes(nodes, u);
    assert r1[p].id == u.id && r1[p].name == u.name;
    assert IndexOfId(r1, u.id) == p by {
      forall q | 0 <= q < p ensures r1[q].id != u.id {
      }
    }
    var r2 := UpdatedNodes(r1, original);
    forall i | 0 <= i < |nodes|
      ensures r2[i] == nodes[i]
    {
      if nodes[i].id == u.id {
        assert i == p;
        RetargetUndo(nodes[i].transitions, original.name, u.name);
        assert Retarget(original.transitions, u.name, original.name) == original.transitions;
      } else {
        RetargetUndo(nodes[i].transitions, original.name, u.name);
      }
    }
  }

  // ----- deleteNode -----

  /** The transitions without those that target `name`. */
  function DropTarget(t: Record<string>, name: string): (r: Record<string>)
    ensures forall k :: k in Keys(r) ==> k in Keys(t)
  {
    if t == [] then []
    else
      var last := t[|t| - 1];
      var init := Prefix(t, |t| - 1);
      var r := DropTarget(init, name);
      assert Keys(t) == Keys(init) + [last.0];
      if last.1 == name then r
      else
        SnocDistinct(r, last);
        assert Keys(r + [last]) == Keys(r) + [last.0];
        r + [last]
  }

  /** An entry survives the clean-up exactly when it does not target `name`. */
  lemma {:induction false} DropTargetMembers(t: Record<string>, name: string)
    ensures forall e :: e in DropTarget(t, name) <==> e in t && e.1 != name
  {
    if t != [] {
      DropTargetMembers(Prefix(t, |t| - 1), name);
      assert t == t[..|t| - 1] + [t[|t| - 1]];
    }
  }

  /** `Object.keys(copy).forEach(key => { if (copy[key] === name) delete copy[key]; })` */
  method DropTransitionsTo(t: Record<string>, name: string) returns (r: Record<string>)
    ensures r == DropTarget(t, name)
  {
    r := t;
    assert t[..0] == [] && t[0..] == t;
    for i := 0 to |t|
      invariant r == DropTarget(Prefix(t, i), name) + t[i..]
    {
      var key := t[i].0;
      DropStep(t, name, i, r);
      if Get(r, key) == Some(name) {
        r := Remove(r, key);
      }
    }
    assert t[..|t|] == t;
  }

  /** The clean-up of one more entry keeps it exactly when it does not target `name`. */
  lemma DropTargetSnoc(t: Record<string>, name: string, i: nat)
    requires i < |t|
    ensures DropTarget(Prefix(t, i + 1), name) ==
      if t[i].1 == name then DropTarget(Prefix(t, i), name) else DropTarget(Prefix(t, i), name) + [t[i]]
  {
    assert t[..i + 1][..i] == t[..i];
  }

  /** The parts of a sequence with one element between two runs. */
  lemma SpliceParts<T>(front: seq<T>, x: T, rest: seq<T>)
    ensures var s := front + ([x] + rest);
      s[|front|] == x && s[..|front|] == front && s[|front| + 1..] == rest
  {
  }

  /** One round of the deletion loop: the key at hand is read from the copy and,
      when it targets `name`, deleted from it. */
  lemma DropStep(t: Record<string>, name: string, i: nat, r: Record<string>)
    requires i < |t| && r == DropTarget(Prefix(t, i), name) + t[i..]
    ensures Get(r, t[i].0) == Some(t[i].1)
    ensures t[i].1 == name ==> DropTarget(Prefix(t, i + 1), name) + t[i + 1..] == Remove(r, t[i].0)
    ensures t[i].1 != name ==> DropTarget(Prefix(t, i + 1), name) + t[i + 1..] == r
  {
    var front := DropTarget(Prefix(t, i), name);
    DropTargetSnoc(t, name, i);
    assert t[i..] == [t[i]] + t[i + 1..];
    assert r == front + ([t[i]] + t[i + 1..]);
    SpliceParts(front, t[i], t[i + 1..]);
    GetAt(r, |front|);
    if t[i].1 == name {
      RemoveAt(r, t[i].0, |front|);
    }
  }

  /** `prev.filter(node => node.id !== id)` */
  function WithoutNode(nodes: seq<AgentNode>, id: NodeId): seq<AgentNode> {
    if nodes == [] then []
    else
      var r := WithoutNode(nodes[..|nodes| - 1], id);
      var last := nodes[|nodes| - 1];
      if last.id == id then r else r + [last]
  }

  lemma {:induction false} WithoutNodeMembers(nodes: seq<AgentNode>, id: NodeId)
    ensures forall n :: n in WithoutNode(nodes, id) <==> n in nodes && n.id != id
  {
    if nodes != [] {
      WithoutNodeMembers(nodes[..|nodes| - 1], id);
      assert nodes == nodes[..|nodes| - 1] + [nodes[|nodes| - 1]];
    }
  }

  function DropTargetAll(nodes: seq<AgentNode>, name: string): seq<AgentNode> {
    seq(|nodes|, i requires 0 <= i < |nodes| =>
      nodes[i].(transitions := DropTarget(nodes[i].transitions, name)))
  }

  /** The node list after `deleteNode(id)`. */
  function DeletedNodes(nodes: seq<AgentNode>, id: NodeId): seq<AgentNode> {
    match FindById(nodes, id)
    case Some(deleted) => DropTargetAll(WithoutNode(nodes, id), deleted.name)
    case None => nodes
  }

  /** `nodes.find(n => n.id !== id)` as a position, `|nodes|` when there is none. */
  function IndexOfOther(nodes: seq<AgentNode>, id: NodeId): (p: nat)
    ensures p <= |nodes|
    ensures p < |nodes| ==> nodes[p].id != id
    ensures forall q :: 0 <= q < p ==> nodes[q].id == id
  {
    if nodes == [] then 0
    else if nodes[0].id != id then 0
    else 1 + IndexOfOther(nodes[1..], id)
  }

  /** The start node after `deleteNode(id)`: deleting the start hands the role
      to the first other node of the pre-delete list, or to nobody. */
  function StartAfterDelete(nodes: seq<AgentNode>, start: string, id: NodeId): string {
    match FindById(nodes, id)
    case Some(deleted) =>
      if deleted.name == start then
        var p := IndexOfOther(nodes, id);
        if p < |nodes| then nodes[p].name else ""
      else start
    case None => start
  }

  /** The selection after `deleteNode(id)`. */
  function SelectionAfterDelete(nodes: seq<AgentNode>, selected: Option<NodeId>, id: NodeId): Option<NodeId> {
    if FindById(nodes, id).Some? && selected == Some(id) then None else selected
  }

  /** The loop of `deleteNode`: filter out the node, then clean every survivor's transitions. */
  method RemoveNode(nodes: seq<AgentNode>, id: NodeId, name: string) returns (r: seq<AgentNode>)
    ensures r == DropTargetAll(WithoutNode(nodes, id), name)
  {
    var remaining := WithoutNode(nodes, id);
    r := [];
    for i := 0 to |remaining|
      invariant r == DropTargetAll(remaining[..i], name)
    {
      var t := DropTransitionsTo(remaining[i].transitions, name);
      r := r + [remaining[i].(transitions := t)];
    }
    assert remaining[..|remaining|] == remaining;
  }

  lemma {:induction false} WithoutNodeAppend(a: seq<AgentNode>, b: seq<AgentNode>, id: NodeId)
    ensures WithoutNode(a + b, id) == WithoutNode(a, id) + WithoutNode(b, id)
    decreases |b|
  {
    if b != [] {
      var b' := b[..|b| - 1];
      assert (a + b)[..|a + b| - 1] == a + b';
      WithoutNodeAppend(a, b', id);
    } else {
      assert a + b == a;
    }
  }

  lemma {:induction false} WithoutNodeAbsent(s: seq<AgentNode>, id: NodeId)
    requires forall i :: 0 <= i < |s| ==> s[i].id != id
    ensures WithoutNode(s, id) == s
  {
    if s != [] {
      WithoutNodeAbsent(s[..|s| - 1], id);
      assert s == s[..|s| - 1] + [s[|s| - 1]];
    }
  }

  lemma {:induction false} WithoutNodeAllMatching(s: seq<AgentNode>, id: NodeId)
    requires forall i :: 0 <= i < |s| ==> s[i].id == id
    ensures WithoutNode(s, id) == []
  {
    if s != [] {
      WithoutNodeAllMatching(s[..|s| - 1], id);
    }
  }

  /** Filtering out the id of the one node between two runs of other ids
      joins the two runs. */
  lemma WithoutNodeSplice(before: seq<AgentNode>, x: AgentNode, after: seq<AgentNode>)
    requires forall i :: 0 <= i < |before| ==> before[i].id != x.id
    requires forall i :: 0 <= i < |after| ==> after[i].id != x.id
    ensures WithoutNode(before + ([x] + after), x.id) == before + after
  {
    var id := x.id;
    WithoutNodeAbsent(before, id);
    WithoutNodeAbsent(after, id);
    WithoutNodeCons(x, after, id);
    assert WithoutNode([x] + after, id) == after by {
      assert [] + after == after;
    }
    WithoutNodeAppend(before, [x] + after, id);
  }

  /** With unique ids, no node before or after position `p` has its id. */
  lemma OthersHaveOtherIds(nodes: seq<AgentNode>, p: nat)
    requires DistinctIds(nodes) && p < |nodes|
    ensures var before := nodes[..p];
      forall i :: 0 <= i < |before| ==> before[i].id != nodes[p].id
    ensures var after := nodes[p + 1..];
      forall i :: 0 <= i < |after| ==> after[i].id != nodes[p].id
  {
    var after := nodes[p + 1..];
    forall i | 0 <= i < |after|
      ensures after[i].id != nodes[p].id
    {
      assert after[i] == nodes[p + 1 + i];
    }
  }

  lemma SplitAt(nodes: seq<AgentNode>, p: nat)
    requires p < |nodes|
    ensures nodes == nodes[..p] + ([nodes[p]] + nodes[p + 1..])
  {
  }

  /** With unique ids, the filter cuts out exactly the node at `p`. */
  lemma WithoutNodeAt(nodes: seq<AgentNode>, p: nat)
    requires DistinctIds(nodes) && p < |nodes|
    ensures WithoutNode(nodes, nodes[p].id) == nodes[..p] + nodes[p + 1..]
  {
    SplitAt(nodes, p);
    OthersHaveOtherIds(nodes, p);
    WithoutNodeSplice(nodes[..p], nodes[p], nodes[p + 1..]);
  }

  /** With unique ids, deleting a node removes exactly that node, keeps the
      survivors in their order, and drops (never retargets) every transition
      into the deleted name. */
  lemma DeleteRemovesExactlyThatNode(nodes: seq<AgentNode>, p: nat)
    requires DistinctIds(nodes) && p < |nodes|
    ensures DeletedNodes(nodes, nodes[p].id) ==
      DropTargetAll(nodes[..p] + nodes[p + 1..], nodes[p].name)
  {
    FindByIdAt(nodes, p);
    WithoutNodeAt(nodes, p);
  }

  /** Cutting one node out of a list with unique ids leaves unique ids, all
      different from the cut node's. */
  lemma SpliceIds(nodes: seq<AgentNode>, p: nat)
    requires DistinctIds(nodes) && p < |nodes|
    ensures var rest := nodes[..p] + nodes[p + 1..];
      DistinctIds(rest) &&
      forall i :: 0 <= i < |rest| ==> rest[i] in nodes && rest[i].id != nodes[p].id
  {
    var rest := nodes[..p] + nodes[p + 1..];
    forall i | 0 <= i < |rest|
      ensures rest[i] == nodes[if i < p then i else i + 1]
    {
    }
  }

  /** Deleting keeps ids unique and introduces none. */
  lemma DeleteKeepsIdsDistinct(nodes: seq<AgentNode>, id: NodeId)
    requires DistinctIds(nodes)
    ensures DistinctIds(DeletedNodes(nodes, id))
    ensures forall n :: n in DeletedNodes(nodes, id) ==> exists m :: m in nodes && m.id == n.id && m.id != id
  {
    var p := IndexOfId(nodes, id);
    if p < |nodes| {
      DeleteRemovesExactlyThatNode(nodes, p);
      var rest := nodes[..p] + nodes[p + 1..];
      SpliceIds(nodes, p);
      var r := DropTargetAll(rest, nodes[p].name);
      assert forall i :: 0 <= i < |r| ==> r[i].id == rest[i].id;
      forall n | n in r
        ensures exists m :: m in nodes && m.id == n.id && m.id != id
      {
        var i :| 0 <= i < |r| && r[i] == n;
        assert rest[i] in nodes;
      }
    }
  }

  /** Deleting a node whose id is unknown changes nothing. */
  lemma DeleteUnknownIdIsNoOp(nodes: seq<AgentNode>, start: string, selected: Option<NodeId>, id: NodeId)
    requires FindById(nodes, id) == None
    ensures DeletedNodes(nodes, id) == nodes
    ensures StartAfterDelete(nodes, start, id) == start
    ensures SelectionAfterDelete(nodes, selected, id) == selected
  {
  }

  lemma WithoutNodeCons(x: AgentNode, s: seq<AgentNode>, id: NodeId)
    ensures WithoutNode([x] + s, id) == (if x.id == id then [] else [x]) + WithoutNode(s, id)
  {
    WithoutNodeAppend([x], s, id);
    assert [x][..0] == [];
  }

  /** The survivors of a delete start with the node `nodes.find(n => n.id !== id)` finds. */
  lemma {:induction false} FirstSurvivor(nodes: seq<AgentNode>, id: NodeId)
    ensures var p := IndexOfOther(nodes, id);
      WithoutNode(nodes, id) == if p < |nodes| then [nodes[p]] + WithoutNode(nodes[p + 1..], id) else []
  {
    if nodes != [] {
      assert nodes == [nodes[0]] + nodes[1..];
      WithoutNodeCons(nodes[0], nodes[1..], id);
      if nodes[0].id == id {
        FirstSurvivor(nodes[1..], id);
        var p := IndexOfOther(nodes, id);
        if p < |nodes| {
          assert nodes[1..][p - 1] == nodes[p] && nodes[1..][p..] == nodes[p + 1..];
        }
      }
    }
  }

  /** Deleting the start node makes the first surviving node the start, or
      clears it when no node survives; with non-empty names the start stays
      set as long as a node survives. */
  lemma StartRepairedToFirstSurvivor(nodes: seq<AgentNode>, start: string, id: NodeId)
    requires FindById(nodes, id).Some? && FindById(nodes, id).value.name == start
    ensures var after := DeletedNodes(nodes, id);
      StartAfterDelete(nodes, start, id) == (if after == [] then "" else after[0].name)
    ensures (forall i :: 0 <= i < |nodes| ==> nodes[i].name != "") && DeletedNodes(nodes, id) != [] ==>
      StartAfterDelete(nodes, start, id) != ""
  {
    FirstSurvivor(nodes, id);
  }
}
