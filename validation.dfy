/** `validateWorkflow`: every rule violation of a workflow, each reported once,
    in the order the checks run; nothing stops the scan early. */
module Validation {
  import opened Records
  import opened Text
  import opened WorkflowTypes

  datatype Problem =
    | MissingStart
    | DuplicateName(name: string)
    | MissingPrompt(name: string)
    | IncompleteTransition(name: string, condition: string)
    | DanglingTransition(name: string, target: string)

  /** The message the editor shows for a problem. */
  function Describe(p: Problem): string {
    match p
    case MissingStart => "A start node must be designated."
    case DuplicateName(name) => "Duplicate node name: \"" + name + "\"."
    case MissingPrompt(name) => "Node \"" + name + "\" is missing an initial prompt."
    case IncompleteTransition(name, condition) =>
      "Node \"" + name + "\" has an incomplete transition for condition \"" + condition + "\"."
    case DanglingTransition(name, target) =>
      "Node \"" + name + "\" has a transition to a non-existent node: \"" + target + "\"."
  }

  /** The messages of a run of problems, one each, in order. */
  function Messages(ps: seq<Problem>): (r: seq<string>)
    ensures |r| == |ps|
  {
    seq(|ps|, i requires 0 <= i < |ps| => Describe(ps[i]))
  }

  /** The problems the transitions of node `name` raise, in entry order: an
      empty target is incomplete; a target naming no node is dangling. */
  function TransitionProblems(nodes: seq<AgentNode>, name: string, t: seq<(string, string)>): seq<Problem> {
    if t == [] then []
    else
      var r := TransitionProblems(nodes, name, t[..|t| - 1]);
      var (condition, target) := t[|t| - 1];
      if target == "" then r + [IncompleteTransition(name, condition)]
      else if target !in Names(nodes) then r + [DanglingTransition(name, target)]
      else r
  }

  /** The problems of one node, given the names of the nodes before it. */
  function NodeProblems(nodes: seq<AgentNode>, earlier: seq<string>, n: AgentNode): seq<Problem> {
    (if n.name in earlier then [DuplicateName(n.name)] else []) +
    (if IsBlank(n.initialPrompt) then [MissingPrompt(n.name)] else []) +
    TransitionProblems(nodes, n.name, n.transitions)
  }

  /** The problems of the nodes `ns`, scanned in order. */
  function ProblemsOf(nodes: seq<AgentNode>, ns: seq<AgentNode>): seq<Problem> {
    if ns == [] then []
    else
      var init := ns[..|ns| - 1];
      ProblemsOf(nodes, init) + NodeProblems(nodes, Names(init), ns[|ns| - 1])
  }

  function StartProblems(start: string): seq<Problem> {
    if start == "" then [MissingStart] else []
  }

  /** Everything `validateWorkflow` reports, in order. */
  function Problems(nodes: seq<AgentNode>, start: string): seq<Problem> {
    StartProblems(start) + ProblemsOf(nodes, nodes)
  }

  /** The node-level rules, stated independently of the scan: `p` is a
      violation among the nodes `ns` of the workflow `nodes`. */
  ghost predicate NodeViolation(nodes: seq<AgentNode>, ns: seq<AgentNode>, p: Problem) {
    match p
    case MissingStart => false
    case DuplicateName(x) =>
      exists i, j :: 0 <= j < i < |ns| && ns[i].name == x && ns[j].name == x
    case MissingPrompt(x) =>
      exists n :: n in ns && n.name == x && IsBlank(n.initialPrompt)
    case IncompleteTransition(x, c) =>
      exists n :: n in ns && n.name == x && Incomplete(n.transitions, c)
    case DanglingTransition(x, target) =>
      target != "" && target !in Names(nodes) &&
      exists n :: n in ns && n.name == x && target in Values(n.transitions)
  }

  /** The transition for `condition` has no target yet. */
  predicate Incomplete(t: seq<(string, string)>, condition: string) {
    (condition, "") in t
  }

  /** `p` is a violation of the workflow. */
  ghost predicate Violation(nodes: seq<AgentNode>, start: string, p: Problem) {
    if p == MissingStart then start == "" else NodeViolation(nodes, nodes, p)
  }

  /** A workflow with a start, distinct names, a prompt on every node and every
      transition naming an existing node. */
  predicate WellFormed(nodes: seq<AgentNode>, start: string) {
    start != "" &&
    DistinctNames(nodes) &&
    (forall n :: n in nodes ==> !IsBlank(n.initialPrompt)) &&
    (forall n, e :: n in nodes && e in n.transitions ==> e.1 != "" && e.1 in Names(nodes))
  }

  /** The problems of a transition map are its incomplete and its dangling entries. */
  lemma {:induction false} TransitionProblemsMembers(nodes: seq<AgentNode>, name: string, t: seq<(string, string)>)
    ensures forall p :: p in TransitionProblems(nodes, name, t) <==>
      (p.IncompleteTransition? && p.name == name && (p.condition, "") in t) ||
      (p.DanglingTransition? && p.name == name && p.target != "" &&
       p.target !in Names(nodes) && p.target in Values(t))
  {
    if t != [] {
      var init := t[..|t| - 1];
      TransitionProblemsMembers(nodes, name, init);
      assert t == init + [t[|t| - 1]];
      assert Values(t) == Values(init) + [t[|t| - 1].1];
    }
  }

  /** Each transition raises at most one problem. */
  lemma {:induction false} TransitionProblemsBound(nodes: seq<AgentNode>, name: string, t: seq<(string, string)>)
    ensures |TransitionProblems(nodes, name, t)| <= |t|
  {
    if t != [] {
      TransitionProblemsBound(nodes, name, t[..|t| - 1]);
    }
  }

  /** One node raises a duplicate when its name came earlier, a missing prompt
      when its prompt is blank, and its transitions' problems. */
  lemma NodeProblemsMembers(nodes: seq<AgentNode>, earlier: seq<string>, n: AgentNode, p: Problem)
    ensures p in NodeProblems(nodes, earlier, n) <==>
      (p == DuplicateName(n.name) && n.name in earlier) ||
      (p == MissingPrompt(n.name) && IsBlank(n.initialPrompt)) ||
      p in TransitionProblems(nodes, n.name, n.transitions)
  {
  }

  /** The node-by-node scan reports `p` exactly when it is a node-level violation. */
  lemma {:induction false} ProblemsOfMember(nodes: seq<AgentNode>, ns: seq<AgentNode>, p: Problem)
    ensures p in ProblemsOf(nodes, ns) <==> NodeViolation(nodes, ns, p)
  {
    if ns != [] {
      var init := ns[..|ns| - 1];
      ProblemsOfMember(nodes, init, p);
      ViolationStep(nodes, ns, p);
      assert p in ProblemsOf(nodes, ns) <==>
        p in ProblemsOf(nodes, init) || p in NodeProblems(nodes, Names(init), ns[|ns| - 1]);
    }
  }

  /** A violation among `ns` is one among the nodes before the last, or one
      the last node raises given the names before it. */
  lemma ViolationStep(nodes: seq<AgentNode>, ns: seq<AgentNode>, p: Problem)
    requires ns != []
    ensures NodeViolation(nodes, ns, p) <==>
      NodeViolation(nodes, ns[..|ns| - 1], p) || p in NodeProblems(nodes, Names(ns[..|ns| - 1]), ns[|ns| - 1])
  {
    var init := ns[..|ns| - 1];
    var last := ns[|ns| - 1];
    NodeProblemsMembers(nodes, Names(init), last, p);
    TransitionProblemsMembers(nodes, last.name, last.transitions);
    match p
    case MissingStart =>
    case DuplicateName(x) =>
      DuplicateStep(ns, x);
    case MissingPrompt(x) =>
      SomeNodeStep(ns, x, (n: AgentNode) => IsBlank(n.initialPrompt));
    case IncompleteTransition(x, c) =>
      SomeNodeStep(ns, x, (n: AgentNode) => Incomplete(n.transitions, c));
    case DanglingTransition(x, target) =>
      SomeNodeStep(ns, x, (n: AgentNode) => target in Values(n.transitions));
  }

  /** Some node of `ns` named `x` satisfies `P` exactly when one before the
      last does, or the last does. */
  lemma SomeNodeStep(ns: seq<AgentNode>, x: string, P: AgentNode -> bool)
    requires ns != []
    ensures (exists n :: n in ns && n.name == x && P(n)) <==>
      (exists n :: n in ns[..|ns| - 1] && n.name == x && P(n)) ||
      (ns[|ns| - 1].name == x && P(ns[|ns| - 1]))
  {
    var init := ns[..|ns| - 1];
    assert ns == init + [ns[|ns| - 1]];
    if exists n :: n in ns && n.name == x && P(n) {
      var n :| n in ns && n.name == x && P(n);
      if n != ns[|ns| - 1] {
        assert n in init;
      }
    }
    if exists n :: n in init && n.name == x && P(n) {
      var n :| n in init && n.name == x && P(n);
      assert n in ns;
    }
  }

  /** The scan reports exactly the node-level violations. */
  lemma ProblemsOfMembers(nodes: seq<AgentNode>, ns: seq<AgentNode>)
    ensures forall p :: p in ProblemsOf(nodes, ns) <==> NodeViolation(nodes, ns, p)
  {
    forall p
      ensures p in ProblemsOf(nodes, ns) <==> NodeViolation(nodes, ns, p)
    {
      ProblemsOfMember(nodes, ns, p);
    }
  }

  /** A name repeats in `ns` when it repeats before the last node or the last
      node reuses an earlier name. */
  lemma DuplicateStep(ns: seq<AgentNode>, x: string)
    requires ns != []
    ensures var init := ns[..|ns| - 1];
      (exists i, j :: 0 <= j < i < |ns| && ns[i].name == x && ns[j].name == x) <==>
      (exists i, j :: 0 <= j < i < |init| && init[i].name == x && init[j].name == x) ||
      (ns[|ns| - 1].name == x && x in Names(init))
  {
    var init := ns[..|ns| - 1];
    if exists i, j :: 0 <= j < i < |ns| && ns[i].name == x && ns[j].name == x {
      var i, j :| 0 <= j < i < |ns| && ns[i].name == x && ns[j].name == x;
      if i == |ns| - 1 {
        assert Names(init)[j] == x;
      } else {
        assert init[i].name == x && init[j].name == x;
      }
    }
    if ns[|ns| - 1].name == x && x in Names(init) {
      var j :| 0 <= j < |init| && Names(init)[j] == x;
      assert ns[j].name == x;
    }
    if exists i, j :: 0 <= j < i < |init| && init[i].name == x && init[j].name == x {
      var i, j :| 0 <= j < i < |init| && init[i].name == x && init[j].name == x;
      assert ns[i].name == x && ns[j].name == x;
    }
  }

  /** `validateWorkflow` reports a problem exactly when it is a violation. */
  lemma ProblemsAreViolations(nodes: seq<AgentNode>, start: string)
    ensures forall p :: p in Problems(nodes, start) <==> Violation(nodes, start, p)
  {
    ProblemsOfMembers(nodes, nodes);
  }

  /** A workflow with no reported problem is well formed. */
  lemma NoProblemsWellFormed(nodes: seq<AgentNode>, start: string)
    requires Problems(nodes, start) == []
    ensures WellFormed(nodes, start)
  {
    ProblemsAreViolations(nodes, start);
    assert !Violation(nodes, start, MissingStart);
    forall i, j | 0 <= i < j < |nodes|
      ensures nodes[i].name != nodes[j].name
    {
      assert !Violation(nodes, start, DuplicateName(nodes[i].name));
    }
    forall n | n in nodes
      ensures !IsBlank(n.initialPrompt)
    {
      assert !Violation(nodes, start, MissingPrompt(n.name));
    }
    forall n, e | n in nodes && e in n.transitions
      ensures e.1 != "" && e.1 in Names(nodes)
    {
      assert !Violation(nodes, start, IncompleteTransition(n.name, e.0));
      if e.1 != "" {
        var k :| 0 <= k < |n.transitions| && n.transitions[k] == e;
        assert Values(n.transitions)[k] == e.1;
        assert !Violation(nodes, start, DanglingTransition(n.name, e.1));
      }
    }
  }

  /** A well-formed workflow has no violation. */
  lemma WellFormedNoViolation(nodes: seq<AgentNode>, start: string, p: Problem)
    requires WellFormed(nodes, start)
    ensures !Violation(nodes, start, p)
  {
  }

  /** A well-formed workflow raises no problem. */
  lemma WellFormedNoProblems(nodes: seq<AgentNode>, start: string)
    requires WellFormed(nodes, start)
    ensures Problems(nodes, start) == []
  {
    ProblemsAreViolations(nodes, start);
    if Problems(nodes, start) != [] {
      WellFormedNoViolation(nodes, start, Problems(nodes, start)[0]);
    }
  }

  /** No problems are reported exactly when the workflow is well formed. */
  lemma NoProblemsIffWellFormed(nodes: seq<AgentNode>, start: string)
    ensures Problems(nodes, start) == [] <==> WellFormed(nodes, start)
  {
    if Problems(nodes, start) == [] {
      NoProblemsWellFormed(nodes, start);
    }
    if WellFormed(nodes, start) {
      WellFormedNoProblems(nodes, start);
    }
  }

  /** Messages of a concatenation are the concatenated messages. */
  lemma MessagesAppend(a: seq<Problem>, b: seq<Problem>)
    ensures Messages(a + b) == Messages(a) + Messages(b)
  {
    forall i | 0 <= i < |a + b|
      ensures Messages(a + b)[i] == (Messages(a) + Messages(b))[i]
    {
      if i < |a| {
        assert (a + b)[i] == a[i];
      } else {
        assert (a + b)[i] == b[i - |a|];
      }
    }
  }

  /** The transition loop of one node: one message per incomplete or dangling
      entry, in entry order. */
  method CheckTransitions(nodes: seq<AgentNode>, name: string, t: seq<(string, string)>)
    returns (errors: seq<string>)
    ensures errors == Messages(TransitionProblems(nodes, name, t))
  {
    errors := [];
    for k := 0 to |t|
      invariant errors == Messages(TransitionProblems(nodes, name, t[..k]))
    {
      assert t[..k + 1][..k] == t[..k];
      var (condition, target) := t[k];
      if target == "" {
        MessagesAppend(TransitionProblems(nodes, name, t[..k]), [IncompleteTransition(name, condition)]);
        errors := errors + [Describe(IncompleteTransition(name, condition))];
      } else if target !in Names(nodes) {
        MessagesAppend(TransitionProblems(nodes, name, t[..k]), [DanglingTransition(name, target)]);
        errors := errors + [Describe(DanglingTransition(name, target))];
      }
    }
    assert t[..|t|] == t;
  }

  /** The checks of one node: a name already `seen`, a blank prompt, then its
      transitions. */
  method CheckNode(nodes: seq<AgentNode>, ghost earlier: seq<string>, seen: set<string>, node: AgentNode)
    returns (errors: seq<string>)
    requires node.name in seen <==> node.name in earlier
    ensures errors == Messages(NodeProblems(nodes, earlier, node))
  {
    ghost var duplicate := if node.name in earlier then [DuplicateName(node.name)] else [];
    ghost var missing := if IsBlank(node.initialPrompt) then [MissingPrompt(node.name)] else [];
    errors := [];
    if node.name in seen {
      errors := [Describe(DuplicateName(node.name))];
    }
    if Trim(node.initialPrompt) == [] {
      MessagesAppend(duplicate, [MissingPrompt(node.name)]);
      errors := errors + [Describe(MissingPrompt(node.name))];
    }
    assert errors == Messages(duplicate + missing);
    var more := CheckTransitions(nodes, node.name, node.transitions);
    MessagesAppend(duplicate + missing, TransitionProblems(nodes, node.name, node.transitions));
    errors := errors + more;
  }

  /** The messages of a run extended by more problems. */
  lemma MessagesExtend(s: seq<Problem>, a: seq<Problem>, b: seq<Problem>)
    ensures Messages(s + a) + Messages(b) == Messages(s + (a + b))
  {
    MessagesAppend(s + a, b);
    assert s + a + b == s + (a + b);
  }

  /** One more node of the scan: its problems follow those of the nodes before it. */
  lemma ProblemsOfSnoc(nodes: seq<AgentNode>, i: nat)
    requires i < |nodes|
    ensures ProblemsOf(nodes, nodes[..i + 1]) ==
      ProblemsOf(nodes, nodes[..i]) + NodeProblems(nodes, Names(nodes[..i]), nodes[i])
  {
    assert nodes[..i + 1][..i] == nodes[..i];
  }

  /** The set of names of `ns`: the `seenNames` set of the scan. */
  ghost function NameSet(ns: seq<AgentNode>): set<string> {
    if ns == [] then {} else NameSet(ns[..|ns| - 1]) + {ns[|ns| - 1].name}
  }

  lemma NameSetSnoc(nodes: seq<AgentNode>, i: nat)
    requires i < |nodes|
    ensures NameSet(nodes[..i + 1]) == NameSet(nodes[..i]) + {nodes[i].name}
  {
    assert nodes[..i + 1][..i] == nodes[..i];
  }

  /** A name is in the set exactly when some node of `ns` carries it. */
  lemma {:induction false} NameSetMember(ns: seq<AgentNode>, x: string)
    ensures x in NameSet(ns) <==> x in Names(ns)
  {
    if ns != [] {
      var init := ns[..|ns| - 1];
      NameSetMember(init, x);
      assert Names(ns) == Names(init) + [ns[|ns| - 1].name];
    }
  }

  /** One iteration of the node scan appends the node's messages. */
  lemma ScanStep(nodes: seq<AgentNode>, start: string, i: nat, errors: seq<string>, nodeErrors: seq<string>)
    requires i < |nodes|
    requires errors == Messages(StartProblems(start) + ProblemsOf(nodes, nodes[..i]))
    requires nodeErrors == Messages(NodeProblems(nodes, Names(nodes[..i]), nodes[i]))
    ensures errors + nodeErrors == Messages(StartProblems(start) + ProblemsOf(nodes, nodes[..i + 1]))
  {
    ProblemsOfSnoc(nodes, i);
    MessagesExtend(StartProblems(start), ProblemsOf(nodes, nodes[..i]),
                   NodeProblems(nodes, Names(nodes[..i]), nodes[i]));
  }

  /** `validateWorkflow()` */
  method ValidateWorkflow(nodes: seq<AgentNode>, start: string) returns (errors: seq<string>)
    ensures errors == Messages(Problems(nodes, start))
  {
    errors := if start == "" then [Describe(MissingStart)] else [];
    var seen: set<string> := {};
    for i := 0 to |nodes|
      invariant seen == NameSet(nodes[..i])
      invariant errors == Messages(StartProblems(start) + ProblemsOf(nodes, nodes[..i]))
    {
      NameSetMember(nodes[..i], nodes[i].name);
      var nodeErrors := CheckNode(nodes, Names(nodes[..i]), seen, nodes[i]);
      ScanStep(nodes, start, i, errors, nodeErrors);
      NameSetSnoc(nodes, i);
      errors := errors + nodeErrors;
      seen := seen + {nodes[i].name};
    }
    assert nodes[..|nodes|] == nodes;
  }
}
