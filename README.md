# Workflow graph editor — verified model

A model, in Dafny, of the state manager of a visual editor for multi-agent
workflows, and of the small editing operations its UI components perform.

A workflow is an ordered list of agent nodes. Each node has an id, a unique
name, a type (conversational or tool execution), an initial prompt, a list of
tools, a forced-tool-call flag, a position, and a record of transitions from a
condition label to the **name** of the target node. The editor keeps the node
list, the name of the start node and the selected node. Because transitions
refer to names, every structural edit has to keep names and references
consistent:

- adding a node picks a fresh default name;
- renaming a node rewrites every transition into it and moves the start
  marker;
- deleting a node drops the transitions into it and repairs the start node;
- export turns the list into a name-keyed record; import turns such a record
  back into nodes and lays them out by a breadth-first search from the start
  node;
- validation reports every broken rule.

Modules, following the source files:

| module | models |
|---|---|
| `Records`, `Text`, `Wrappers` | JavaScript objects as insertion-ordered records with `Put` (spread-assign) and `Remove` (`delete`); `String.prototype.trim`; number rendering |
| `WorkflowTypes` | `AgentNode`, the exported agent data, and the look-ups by id and by name |
| `NodeNaming`, `GraphEdits`, `Exchange`, `Adjacency`, `LevelSearch`, `Placement`, `Validation` | the operations of `src/hooks/useWorkflow.ts` |
| `WorkflowStore` | the hook itself: a class whose fields are the editor state and whose methods are the hook's operations |
| `NodeCard`, `NodeEdits` | the node card's name editor and transition and tool edits (`src/components/WorkflowNode.tsx`) |
| `ConfigPanel` | the configuration form (`src/components/ConfigurationPanel.tsx`) |
| `Canvas` | rewiring by drag and the drawn-edge derivation (`src/components/Canvas.tsx`) |
| `ToolPalette` | the add-tool form (`src/components/ToolPalette.tsx`) |

Modelling choices:

- **Ids.** Random UUIDs become natural numbers drawn from a counter `nextId`.
  The store's invariant `Valid()` says that ids are unique and below the
  counter.
- **State updates.** Each hook operation is one atomic method from the
  pre-state to the post-state, although the source issues several state
  updates.
- **Callbacks.** The callbacks a component calls (`onUpdate`, `onSave`,
  `onAddTool`, `onNodeUpdate`) become the method's returned value. `None`
  means the callback is not called.
- **Failed import.** The `alert` of a refused import becomes an error result.
- **Layout arithmetic.** The layout arithmetic is integral:
  - `175 * (k - 1)` is exact;
  - `Math.ceil(Math.sqrt(n))` is the least `r` with `r * r >= n`.

## Model

| member | source | states |
|---|---|---|
| `Text.Trim` | src/hooks/useWorkflow.ts:286 | the trimmed string is empty exactly when the input is all white space |
| `Text.TrimIsSlice` | src/components/ToolPalette.tsx:18-22 | `trim` returns a slice of its input with blank margins, starting and ending with a non-space character |
| `Text.TrimIdempotent` | src/components/ToolPalette.tsx:18-22 | trimming a trimmed name changes nothing |
| `Text.NatToString` | src/hooks/useWorkflow.ts:20 | a number renders as at least one digit with no leading zero |
| `Text.NatToStringInjective` | src/components/WorkflowNode.tsx:96 | distinct numbers render as distinct strings |
| `Records.Put` | src/hooks/useWorkflow.ts:122 | after assigning a key it reads the new value, every other key reads as before, and the key list grows only by a new key |
| `Records.Remove` | src/hooks/useWorkflow.ts:91 | after deleting a key it reads nothing, every other key reads as before, and only that key leaves the key list |
| `Records.PutAt` | src/hooks/useWorkflow.ts:122 | assigning a key present at position `p` overwrites the entry at `p` where it stands |
| `Records.PutNew` | src/hooks/useWorkflow.ts:122 | assigning a key that is absent appends its entry at the end |
| `Records.RemoveAt` | src/hooks/useWorkflow.ts:91 | deleting the key at position `p` cuts out exactly that entry and keeps the order of the others |
| `Records.RemoveAbsent` | src/hooks/useWorkflow.ts:91 | deleting a key that is absent leaves the record as it was |
| `WorkflowTypes.IndexOfId` | src/hooks/useWorkflow.ts:48 | `find` by id returns the first node carrying the id |
| `WorkflowTypes.IndexOfName` | src/components/Canvas.tsx:209 | `find` by name returns the first node carrying the name |
| `WorkflowTypes.NameTakenIffOtherName` | src/components/WorkflowNode.tsx:74-77 | with unique ids and names, "another node has this name" holds exactly when the name is in use and is not the node's own, so the inline editor and the form refuse the same names |
| `NodeNaming.CountOfKind` | src/hooks/useWorkflow.ts:18 | the per-type count is at most the number of nodes |
| `NodeNaming.DefaultName` | src/hooks/useWorkflow.ts:17-26 | the name-retry loop ends, with the first candidate `base + '+'*k + count` that no node carries |
| `NodeNaming.DefaultNameDeterministic` | src/hooks/useWorkflow.ts:17-26 | the default name is determined by the nodes and the type |
| `NodeNaming.DefaultNameKeepsNamesDistinct` | src/hooks/useWorkflow.ts:22-39 | appending a node under its default name keeps names unique |
| `GraphEdits.Retarget` | src/hooks/useWorkflow.ts:56-66 | retargeting keeps every condition and leaves no target equal to the old name |
| `GraphEdits.RetargetGet` | src/hooks/useWorkflow.ts:59-64 | every condition reads its old target, except that the old name now reads as the new name |
| `GraphEdits.RetargetUndo` | src/hooks/useWorkflow.ts:56-66 | retargeting back undoes a retarget when the new name was not a target before |
| `GraphEdits.RetargetTransitions` | src/hooks/useWorkflow.ts:57-64 | the `for...in` loop computes the retargeted record |
| `GraphEdits.CascadeRename` | src/hooks/useWorkflow.ts:55-67 | the rename `map` retargets every node of the list, including the renamed node's own self-loops |
| `GraphEdits.UpdateUnknownIdIsNoOp` | src/hooks/useWorkflow.ts:47-75 | an update with an unknown id changes neither the nodes nor the start |
| `GraphEdits.UpdateReplacesOnlyThatNode` | src/hooks/useWorkflow.ts:50-69 | an update keeps length and order; only the matching node becomes the update, and the others change only by retargeting from the old name to the new one |
| `GraphEdits.UpdateKeepsIds` | src/hooks/useWorkflow.ts:52 | an update keeps the id at every position, so ids stay unique |
| `GraphEdits.RenameLeavesNoStaleTarget` | src/hooks/useWorkflow.ts:55-67 | after a rename no transition still targets the old name |
| `GraphEdits.StartFollowsRename` | src/hooks/useWorkflow.ts:71-74 | the start moves to the new name exactly when it named the renamed node |
| `GraphEdits.UpdateKeepsNamesDistinct` | src/hooks/useWorkflow.ts:47-69 | renaming to a name no other node carries keeps names unique |
| `GraphEdits.RenameUndo` | src/hooks/useWorkflow.ts:47-75 | renaming back restores nodes and start, when the new name was not already a target or the start |
| `GraphEdits.DropTarget` | src/hooks/useWorkflow.ts:86-96 | the clean-up keeps only existing conditions |
| `GraphEdits.DropTargetMembers` | src/hooks/useWorkflow.ts:89-94 | an entry survives the clean-up exactly when it does not target the deleted name |
| `GraphEdits.DropTransitionsTo` | src/hooks/useWorkflow.ts:87-94 | the `forEach`/`delete` loop computes the cleaned record |
| `GraphEdits.WithoutNodeMembers` | src/hooks/useWorkflow.ts:83 | the filter keeps exactly the nodes with another id |
| `GraphEdits.IndexOfOther` | src/hooks/useWorkflow.ts:101 | the replacement start is the first node with another id |
| `GraphEdits.RemoveNode` | src/hooks/useWorkflow.ts:81-97 | the delete loop filters the node out and cleans every survivor |
| `GraphEdits.DeleteRemovesExactlyThatNode` | src/hooks/useWorkflow.ts:81-97 | with unique ids, a delete removes exactly that node, keeps the survivors' order, and drops (never retargets) the transitions into its name |
| `GraphEdits.DeleteKeepsIdsDistinct` | src/hooks/useWorkflow.ts:81-97 | a delete keeps ids unique and introduces no id |
| `GraphEdits.DeleteUnknownIdIsNoOp` | src/hooks/useWorkflow.ts:78-79 | deleting an unknown id changes nodes, start and selection not at all |
| `GraphEdits.FirstSurvivor` | src/hooks/useWorkflow.ts:83-101 | the node the start repair picks is the first survivor of the delete |
| `GraphEdits.StartRepairedToFirstSurvivor` | src/hooks/useWorkflow.ts:99-103 | deleting the start makes the first surviving node the start, or clears it when none survives |
| `WorkflowStore.Workflow.constructor` | src/hooks/useWorkflow.ts:13-15 | the editor starts empty, with no start and no selection |
| `WorkflowStore.Workflow.SetSelectedNodeId` | src/hooks/useWorkflow.ts:14 | sets the selection and nothing else |
| `WorkflowStore.Workflow.SetStartNodeId` | src/hooks/useWorkflow.ts:15 | sets the start name and nothing else |
| `WorkflowStore.Workflow.AddNode` | src/hooks/useWorkflow.ts:17-45 | appends a node with a fresh id, its default name, the default prompt, no tools and no transitions, and a forced tool call exactly for tool execution; the start becomes the new name exactly when the list was empty; ids stay unique |
| `WorkflowStore.Workflow.UpdateNode` | src/hooks/useWorkflow.ts:47-75 | the new nodes and start are the replace-and-rename result; selection and ids are kept |
| `WorkflowStore.Workflow.DeleteNode` | src/hooks/useWorkflow.ts:77-108 | the new nodes, start and selection are the delete results; ids stay unique |
| `WorkflowStore.Workflow.ClearAll` | src/hooks/useWorkflow.ts:110-114 | no nodes, no start, no selection |
| `Exchange.ExportAgents` | src/hooks/useWorkflow.ts:117-123 | the export loop builds the name-keyed record, a later node overwriting an earlier one of the same name |
| `Exchange.ExportWorkflowOf` | src/hooks/useWorkflow.ts:116-129 | the export is the start name and that record |
| `Exchange.ExportLastWins` | src/hooks/useWorkflow.ts:119-123 | a name in the export reads the data of the last node with that name |
| `Exchange.ExportKeys` | src/hooks/useWorkflow.ts:119-123 | the export's keys are exactly the node names |
| `Exchange.ExportDistinctNames` | src/hooks/useWorkflow.ts:119-123 | with unique names the export has one entry per node, in list order, without id and position |
| `WorkflowStore.Workflow.ExportWorkflow` | src/hooks/useWorkflow.ts:116-129 | exports the current nodes and start |
| `Exchange.LastByName` | src/hooks/useWorkflow.ts:139 | the name map yields a node carrying the name, and nothing exactly when no node carries it |
| `Exchange.BuildImportedNodes` | src/hooks/useWorkflow.ts:238-268 | the import loop builds one node per key, keeping the id of a node that already has the name |
| `Exchange.ImportedNames` | src/hooks/useWorkflow.ts:238-272 | the imported nodes are named by the keys in key order, so names are unique and old nodes whose name is not a key are gone |
| `Exchange.ImportKeepsIdsDistinct` | src/hooks/useWorkflow.ts:243-267 | an import keeps ids unique, new ids lying above those in use |
| `Exchange.ExportAfterImport` | src/hooks/useWorkflow.ts:116-272 | exporting what an import built gives back the imported record |
| `Exchange.LastByNameAt` | src/hooks/useWorkflow.ts:139 | with unique names, the name map returns the node itself |
| `Exchange.ImportAfterExport` | src/hooks/useWorkflow.ts:116-272 | re-importing an export of a graph with unique names over that graph gives back every node, id included, except the position |
| `Exchange.ImportExportIntoEmpty` | src/hooks/useWorkflow.ts:116-272 | re-importing an export into an empty editor gives back names, data and order, with fresh ids |
| `Adjacency.NeighborsMembers` | src/hooks/useWorkflow.ts:153-160 | a neighbour list holds exactly the targets that are agents |
| `Adjacency.NeighborsNoRepeats` | src/hooks/useWorkflow.ts:155-158 | a neighbour list holds each target once |
| `Adjacency.AdjacencyShape` | src/hooks/useWorkflow.ts:143-161 | the vertices are the agents, neighbours are agents, lists have no repeats, and `w` is a neighbour of `u` exactly when a transition of `u` targets the agent `w` |
| `Adjacency.PushTargets` | src/hooks/useWorkflow.ts:153-159 | the inner loop fills one agent's list |
| `Adjacency.EmptyLists` | src/hooks/useWorkflow.ts:145-147 | the first pass gives every agent an empty list |
| `Adjacency.BuildAdjacency` | src/hooks/useWorkflow.ts:143-161 | the two passes build the adjacency list |
| `LevelSearch.UnvisitedMembers` | src/hooks/useWorkflow.ts:180-185 | the pushed entries are the unvisited neighbours at the next level |
| `LevelSearch.PushUnvisited` | src/hooks/useWorkflow.ts:180-185 | the push loop appends those entries to the queue |
| `LevelSearch.Dequeue` | src/hooks/useWorkflow.ts:172-185 | one turn of the search keeps the search invariant and makes progress |
| `LevelSearch.LevelIsPathLength` | src/hooks/useWorkflow.ts:171-186 | every level is the length of a path from the start |
| `LevelSearch.PathBoundsLevel` | src/hooks/useWorkflow.ts:171-186 | every path from the start ends at a visited node whose level is at most the path's length |
| `LevelSearch.Conclude` | src/hooks/useWorkflow.ts:171-187 | when the queue is empty, the visited nodes are exactly the reachable ones, each at its shortest-path depth |
| `LevelSearch.Bfs` | src/hooks/useWorkflow.ts:163-187 | the search ends; the visit order starts at the start, lists each reached node once by nondecreasing level, and the levels are exactly the shortest-path depths of the reachable agents |
| `Placement.LevelGroupMembers` | src/hooks/useWorkflow.ts:190-196 | a level's group holds exactly the visited nodes of that level |
| `Placement.LevelGroupDistinct` | src/hooks/useWorkflow.ts:190-196 | a level's group holds each node once |
| `Placement.ReachedAtGroup` | src/hooks/useWorkflow.ts:207-217 | the `i`-th node of a level of `k` nodes sits at `x = 100 + 400*level`, `y = 100 - 175*(k-1) + 350*i` |
| `Placement.MaxLevel` | src/hooks/useWorkflow.ts:223 | the maximum level, or -1 when nothing is visited |
| `Placement.GroupByLevel` | src/hooks/useWorkflow.ts:190-196 | the grouping loop builds the level groups, with no entry for an empty level |
| `Placement.PlaceReached` | src/hooks/useWorkflow.ts:206-218 | the level loop places exactly the visited nodes, each at its level position |
| `Placement.PlaceLevel` | src/hooks/useWorkflow.ts:212-217 | the inner loop places every node of one level at its index in the level's centred column and leaves every other placed node where it was |
| `Placement.OrphansMembers` | src/hooks/useWorkflow.ts:165-176 | the orphans are exactly the agents the search did not reach |
| `Placement.OrphansDistinct` | src/hooks/useWorkflow.ts:221 | the orphans are listed once each |
| `Placement.CeilSqrt` | src/hooks/useWorkflow.ts:225 | the least `r` with `r*r >= n` |
| `Placement.PlaceOrphans` | src/hooks/useWorkflow.ts:227-234 | the `i`-th orphan sits in row `i % rows`, column `i / rows`, right of the deepest level; other positions are kept |
| `Placement.LayoutCoversAgents` | src/hooks/useWorkflow.ts:241 | every agent gets a computed position, so the fallback position is never used |
| `Placement.OrphansRightOfReached` | src/hooks/useWorkflow.ts:223-231 | every orphan lies strictly right of every reached node |
| `Placement.LayoutInjective` | src/hooks/useWorkflow.ts:206-235 | no two agents share a position |
| `Placement.OrphanCellsDiffer` | src/hooks/useWorkflow.ts:228-229 | distinct orphan indices fall in distinct grid cells |
| `Placement.PlaceAll` | src/hooks/useWorkflow.ts:205-235 | the two placement passes compute the layout |
| `Placement.ComputeLayout` | src/hooks/useWorkflow.ts:143-235 | without a valid start nothing is visited; otherwise the search result is as stated for `Bfs`, and the positions are the layout of that result |
| `WorkflowStore.Workflow.ImportWorkflow` | src/hooks/useWorkflow.ts:131-275 | a payload without graph or agents is refused with the alert's message and changes nothing; otherwise the nodes become one per key, laid out from the start, keeping the id of a same-named node; the start is the file's, the selection is cleared, ids stay unique |
| `WorkflowStore.StaleImportLosesIds` | src/hooks/useWorkflow.ts:275 | merging into the first render's empty list gives a same-named node a fresh id, while merging into the current list keeps its id |
| `Validation.Messages` | src/hooks/useWorkflow.ts:279-292 | one message per problem |
| `Validation.TransitionProblemsMembers` | src/hooks/useWorkflow.ts:288-291 | a transition map raises exactly its incomplete entries and its entries whose non-empty target names no node |
| `Validation.TransitionProblemsBound` | src/hooks/useWorkflow.ts:288-291 | each transition raises at most one problem |
| `Validation.NodeProblemsMembers` | src/hooks/useWorkflow.ts:283-291 | a node raises a duplicate when its name came earlier, a missing prompt when its prompt is blank, and its transitions' problems |
| `Validation.ProblemsOfMember` | src/hooks/useWorkflow.ts:282-292 | the node scan reports a problem exactly when it is a node-level violation |
| `Validation.NameSetMember` | src/hooks/useWorkflow.ts:281-284 | the `nodeNames` set holds exactly the names of the nodes scanned so far |
| `Validation.ProblemsAreViolations` | src/hooks/useWorkflow.ts:277-295 | a problem is reported exactly when it is a violation |
| `Validation.NoProblemsWellFormed` | src/hooks/useWorkflow.ts:277-295 | no report means a start, unique names, prompts everywhere and every transition pointing at an existing node |
| `Validation.WellFormedNoViolation` | src/hooks/useWorkflow.ts:277-295 | a well-formed workflow has no violation |
| `Validation.WellFormedNoProblems` | src/hooks/useWorkflow.ts:277-295 | a well-formed workflow raises no problem |
| `Validation.NoProblemsIffWellFormed` | src/hooks/useWorkflow.ts:277-295 | the report is empty exactly when the workflow is well formed |
| `Validation.CheckTransitions` | src/hooks/useWorkflow.ts:288-291 | the transition loop emits the messages of its problems |
| `Validation.CheckNode` | src/hooks/useWorkflow.ts:283-291 | the body of the node loop emits the messages of the node's problems |
| `Validation.ValidateWorkflow` | src/hooks/useWorkflow.ts:277-295 | the whole scan emits the messages of every problem, in order |
| `WorkflowStore.Workflow.ValidateWorkflow` | src/hooks/useWorkflow.ts:277-295 | validates the current nodes and start |
| `NodeCard.NameEditor.constructor` | src/components/WorkflowNode.tsx:45-47 | the editor starts closed, showing the node's name, without error |
| `NodeCard.NameEditor.ValidateAndSaveName` | src/components/WorkflowNode.tsx:69-81 | a blank name gives "Name cannot be empty.", a name another node carries gives "Name must be unique.", and in both cases nothing is handed over; otherwise the node is handed over under the untrimmed name with every other field kept, and the error clears and the editor closes |
| `NodeCard.NameEditor.CancelEdit` | src/components/WorkflowNode.tsx:86-90 | Escape restores the node's name, clears the error and closes the editor |
| `NodeCard.ConditionNameInjective` | src/components/WorkflowNode.tsx:96 | distinct counter values give distinct keys |
| `NodeCard.SmallestFreeUnique` | src/components/WorkflowNode.tsx:95-98 | the smallest free counter value is unique |
| `NodeCard.AddTransition` | src/components/WorkflowNode.tsx:93-100 | the loop ends; the update appends `new_condition_i` with an empty target for the smallest `i >= 1` not already a key, keeping the other entries and fields |
| `NodeCard.TakenConditionsBound` | src/components/WorkflowNode.tsx:95-97 | when `new_condition_1` to `new_condition_n` are all keys, the record has at least `n` entries, so the counting loop ends |
| `NodeCard.RenamedConditionEffect` | src/components/WorkflowNode.tsx:104-107 | the new key reads the old target, the old key is gone unless it is the new one, other keys read as before, and an existing entry under the new key is overwritten (one entry fewer) |
| `NodeCard.UpdateTransitionCondition` | src/components/WorkflowNode.tsx:102-109 | no update when the name is unchanged or the new one is blank; otherwise the node with the condition renamed to the trimmed new name |
| `NodeEdits.WithoutToolMembers` | src/components/WorkflowNode.tsx:118 | the filter keeps exactly the other tools, and keeps a list without the tool as it is |
| `NodeEdits.ToggleFlips` | src/components/WorkflowNode.tsx:116-121 | toggling flips the tool's membership and no other tool's |
| `NodeEdits.ToggleTwiceRestores` | src/components/WorkflowNode.tsx:116-121 | toggling an absent tool twice gives back the list |
| `NodeEdits.RemoveTransition` | src/components/WorkflowNode.tsx:111-114 | removing a condition takes out that key only; other keys and fields are kept |
| `NodeEdits.RemoveTransitionCutsEntry` | src/components/WorkflowNode.tsx:111-114 | removing a present condition cuts exactly its entry, keeping the order of the others |
| `NodeEdits.RemoveAbsentTransition` | src/components/WorkflowNode.tsx:111-114 | removing an absent condition changes nothing |
| `ConfigPanel.FormValidIff` | src/components/ConfigurationPanel.tsx:30-44 | the form is valid exactly when the name is not blank, is unchanged or unused, and the prompt is not blank |
| `ConfigPanel.SavedFormKeepsNamesDistinct` | src/components/ConfigurationPanel.tsx:30-51 | saving a valid form keeps node names unique |
| `ConfigPanel.EditedTransitionsEffect` | src/components/ConfigurationPanel.tsx:63-73 | the new key is set only when condition and target are both non-empty, the old key goes otherwise, and other keys are kept |
| `ConfigPanel.DraftRowVanishes` | src/components/ConfigurationPanel.tsx:53-73 | the `'' -> ''` row that `addTransition` inserts disappears at its first edit, whichever half is edited |
| `ConfigPanel.OtherNodes` | src/components/ConfigurationPanel.tsx:95 | the target choices are exactly the nodes with another id |
| `ConfigPanel.EditedNodeNotATarget` | src/components/ConfigurationPanel.tsx:95 | with unique ids and names, the edited node's name is not offered as a target |
| `ConfigPanel.ConfigForm.constructor` | src/components/ConfigurationPanel.tsx:21-26 | selecting a node copies it into the form and clears the errors |
| `ConfigPanel.ConfigForm.ValidateForm` | src/components/ConfigurationPanel.tsx:30-44 | the errors become "Name is required", "Name must be unique" and "Initial prompt is required" as the rules say, and the result is true exactly when there is none |
| `ConfigPanel.ConfigForm.HandleSave` | src/components/ConfigurationPanel.tsx:46-51 | the form is handed over exactly when it validates |
| `ConfigPanel.ConfigForm.AddTransition` | src/components/ConfigurationPanel.tsx:53-61 | assigns the empty condition with an empty target |
| `ConfigPanel.ConfigForm.UpdateTransition` | src/components/ConfigurationPanel.tsx:63-73 | the form's transitions become the edited record |
| `ConfigPanel.ConfigForm.RemoveTransition` | src/components/ConfigurationPanel.tsx:75-82 | removes the condition from the form |
| `ConfigPanel.ConfigForm.ToggleTool` | src/components/ConfigurationPanel.tsx:84-93 | toggles the tool in the form |
| `Canvas.RewireEffect` | src/components/Canvas.tsx:166-181 | a drag ending on its own node or involving a missing node updates nothing; otherwise the source gets the condition pointed at the target's name, overwriting it, with everything else kept |
| `Canvas.RewiredEdgeIsDrawn` | src/components/Canvas.tsx:166-226 | once a rewire is applied through `updateNode`, the new edge is drawn when both terminals have a position |
| `Canvas.EdgesFromMember` | src/components/Canvas.tsx:208-226 | a node's edges are exactly those its transitions draw |
| `Canvas.ConnectionsMember` | src/components/Canvas.tsx:207-226 | an edge is drawn exactly when some transition of some node draws it |
| `Canvas.EdgeForIff` | src/components/Canvas.tsx:209-218 | a transition draws an edge exactly when its target name resolves to a node and both terminals have a position; the edge joins the condition's output to that node's input |
| `Canvas.CanvasState.constructor` | src/components/Canvas.tsx:32-39 | no drag in progress, no measured terminal |
| `Canvas.CanvasState.StartConnection` | src/components/Canvas.tsx:152-164 | a drag starts only from an output terminal with a measured position, starting and ending there |
| `Canvas.CanvasState.EndConnection` | src/components/Canvas.tsx:166-183 | hands over the rewire of the drag in progress, if any, and always ends the drag |
| `ToolPalette.ToolForm.constructor` | src/components/ToolPalette.tsx:10-11 | the input and the error start empty |
| `ToolPalette.ToolForm.HandleAddTool` | src/components/ToolPalette.tsx:13-25 | a blank name gives "Tool name cannot be empty." and a name whose trimmed form is a tool gives "Tool name must be unique.", and in both cases nothing is handed over and the input is kept; otherwise the trimmed name is handed over and the input and error clear |
| `ToolPalette.AcceptedToolIsNew` | src/components/ToolPalette.tsx:18-22 | an accepted name is non-empty, has no white space at either end and is new, so the tools stay free of repeats, and the same input is then refused |

## Left out

- `WorkflowStore.Workflow.ImportWorkflow`: the layout is stated up to the
  order of nodes within a level. That order is constrained through
  `Placement.SearchOutcome`, not fixed to the queue's visit order.
- `WorkflowStore.Workflow.ImportWorkflow`: the id counter advances by one for
  every key of the file, also for a name that keeps its old id. The source
  draws a UUID only for new names; the ids are fresh either way.
- `NodeCard.UpdateTransitionCondition` requires that the old condition is a
  key of the node. Every call site renames an existing entry. Called with
  another key, the source would store `undefined` under the new name.
- **Key order.** JavaScript enumerates integer-like keys of an object first,
  in numeric order. The records keep pure insertion order.
- **Payload shape.** These import details are not modelled: missing fields of
  an agent, the `|| {}` fallback for missing transitions, non-string
  transition targets, and extra fields of an agent overriding the copied
  node.
  - The `agents` record is taken as well formed.
  - A payload is modelled only as present or absent graph and agents.
- **Level order.** `sortedLevels` is modelled as the levels `0..maxLevel` in
  ascending order. The levels that are present are exactly those, because
  levels are breadth-first depths.
- **Terminal keys.** The canvas keys terminals as strings like
  `output-<id>-<condition>`. These are modelled as a datatype, so two
  terminals never share a key.
- **Pointer and DOM code.** These are left out: pointer movement during a
  drag, panning, node dragging, drop positions, terminal measurement, zoom
  and the canvas click that cancels a drag.
- **Pixel arithmetic.** Floating-point pixel arithmetic is left out.
- **Rendering and I/O.** Rendering, the JSON editor panel, file reading and
  downloading, `alert` and `confirm`, and the toolbar and palettes' markup
  are I/O or presentation.
- **React scheduling.** State batching and closure capture are not modelled.
  Each operation reads its pre-state directly. The one place where a stale
  closure changes behaviour is recorded under Findings.

## Findings

| source | as written | input that shows it | evidently intended | confidence | as-written member | corrected member |
|---|---|---|---|---|---|---|
| src/hooks/useWorkflow.ts:139-275 | `importWorkflow` is memoised with an empty dependency list. The `nodes` it merges into is therefore the empty list of the first render, and every imported node gets a fresh id (`Exchange.ImportExportIntoEmpty` describes that behaviour). | an editor holding node 0 named "Triage", importing a file with the agent "Triage": the imported node gets a new id instead of 0 | the merge branch's own comment: a node whose name already exists keeps its id | not executed | `WorkflowStore.StaleImportLosesIds` | `WorkflowStore.Workflow.ImportWorkflow` |
