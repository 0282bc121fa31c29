# VectorShift pipeline editor — a Dafny model

This project models the logic of a node-based pipeline editor (a React/ReactFlow
front end and a FastAPI back end) and proves properties of it.

- **Canvas** (`PipelineUi`, drop.dfy). A palette item dropped on the canvas becomes a node. The `nodeTypes` table maps a node's `type` to one of six node kinds.
- **Graph store** (`Store`, store.dfy). The store is a class. Its fields are `nodes`, `edges` and the per-kind counters `nodeIDs`. It numbers nodes `kind-n`, appends nodes, and merges one field into a node's data.
- **Node kinds** (`Registry`, registry.dfy). The six kinds are tables built from the node id. Each gives the handles the node starts with and the input fields it declares. The name field starts as the id with its first `"custom"` removed, which is modelled as `String.prototype.replace`.
- **Shared node component** (`Reconciler`, reconciler.dfy; `Scanner`, scanner.dfy; `ReconcilerFacts`, reconciler_facts.dfy). It keeps the field values and reacts to edits and option picks. Its effect does five things in order:
  - it checks a guard;
  - it scans the first text field for `{{name}}` references with the semantics of `matchAll(/\{\{(.*?)\}\}/g)`;
  - it pushes a target handle for every new reference;
  - it drops reconciler-made handles whose reference is gone;
  - it lays out every handle, left side first, each side spaced evenly over the container height.
- **Helpers** (`Utils`, utils.dfy): `findKeyByValue`, `createDependencyMap` and `initializeValues`.
- **Back end** (`Pipeline`, pipeline.dfy). `parse_pipeline` builds an adjacency dictionary from the submitted nodes and edges. `has_cycle` runs Kahn's algorithm on it. Both are methods proved against a reference definition of walks and cycles.
- **Corrections** (`Corrected`, corrected.dfy): corrected versions of the defects listed under Findings.

JavaScript and Python semantics are written out:

- A JavaScript object and a Python dict are `Dict<V>`, a sequence of entries in insertion order. Assigning to an existing key keeps that key's place.
- `values[undefined]` reads the property `"undefined"`.
- Truthiness treats `""`, `false`, `null` and a missing value as falsy.
- A Python `KeyError` is the `KeyError` case of `Outcome`. A `TypeError` from `matchAll` on a non-string is the `Threw` case of `Pass`.
- DOM measurement is a parameter: `clientHeight`, `None` when the container is not mounted. So is the projected drop position.

## Model

| member | source | states |
|---|---|---|
| Reconciler.InitializeValues | frontend/src/components/abstraction-node.tsx:66-78 | the loop builds exactly `StartValues`, the map `StartValuesLookup` characterises |
| Reconciler.StartValuesLookup | frontend/src/components/abstraction-node.tsx:66-74 | a field has a start value iff some input with that id has a truthy `initValue`; the stored value is the `initValue` of the last such input, so it is truthy |
| Reconciler.InputChanged | frontend/src/components/abstraction-node.tsx:80-85 | the edited field reads the new text; every other field keeps its value |
| Reconciler.OptionPicked | frontend/src/components/abstraction-node.tsx:253-265 | the select reads the option's value; only an option valued exactly "File" also clears the first text field; nothing else changes |
| Reconciler.FirstIndexOf | frontend/src/components/abstraction-node.tsx:89-90 | `find`: none iff no input has the type; otherwise an index of that type with none of that type before it |
| Reconciler.AddMissing | frontend/src/components/abstraction-node.tsx:109-118 | the add loop only appends: the old list is a prefix of the new one |
| Reconciler.PruneMembers | frontend/src/components/abstraction-node.tsx:120-128 | a handle survives the filter iff it was in the list and the callback keeps it |
| Reconciler.OnSideMembers | frontend/src/components/abstraction-node.tsx:131-134 | a side's list holds exactly the handles positioned on that side |
| Reconciler.LoneRightHandle | frontend/src/components/abstraction-node.tsx:120-148 | with no references, a lone unlabelled right handle is kept and placed at half the height |
| Reconciler.ContainerHeight | frontend/src/components/abstraction-node.tsx:136 | `clientHeight \|\| 200` is always positive |
| Reconciler.PlaceSide | frontend/src/components/abstraction-node.tsx:140-146 | the in-place `forEach` leaves the array equal to `Laid` of its old contents |
| Reconciler.AddReferences | frontend/src/components/abstraction-node.tsx:109-118 | the `for ... of` loop computes `AddMissing` |
| Reconciler.LayOut | frontend/src/components/abstraction-node.tsx:131-148 | the result is the placed left handles followed by the placed right handles |
| Reconciler.Reconcile | frontend/src/components/abstraction-node.tsx:94-153 | one run is `PassOf`: skipped when the guard fails, a throw when the text field holds no string, else the reconciled list |
| ReconcilerFacts.AddMissingAdded | frontend/src/components/abstraction-node.tsx:109-118 | every appended handle is target/left, made by the reconciler, labelled with a reference no earlier handle carried, and has id `${j+1}-output` for its index `j` |
| ReconcilerFacts.AddMissingCovers | frontend/src/components/abstraction-node.tsx:109-118 | after the loop every reference labels some handle |
| ReconcilerFacts.AddMissingNoop | frontend/src/components/abstraction-node.tsx:109-118 | when every reference is already a label the loop adds nothing |
| ReconcilerFacts.OutputIdInjective | frontend/src/components/abstraction-node.tsx:114 | distinct numbers give distinct `${n}-output` ids |
| ReconcilerFacts.AddedIdsDistinct | frontend/src/components/abstraction-node.tsx:111-117 | the handles added in one pass have pairwise distinct ids |
| ReconcilerFacts.AddMissingLabelsUnique | frontend/src/components/abstraction-node.tsx:109-118 | with unique labels before, labels stay unique and every reference labels exactly one handle: repeats collapse |
| ReconcilerFacts.PruneExactly | frontend/src/components/abstraction-node.tsx:120-128 | the filter drops exactly reconciler-made handles with a non-empty label that is no longer referenced; static handles and `""` labels stay |
| ReconcilerFacts.OffsetLaw | frontend/src/components/abstraction-node.tsx:136-146 | the i-th of k handles sits at `H·i/(k+1)`, strictly inside `(0, H)` and below the next |
| ReconcilerFacts.OffsetIncreasing | frontend/src/components/abstraction-node.tsx:140-146 | offsets strictly increase with the position |
| ReconcilerFacts.LaidPlaces | frontend/src/components/abstraction-node.tsx:137-146 | placing a side changes only styles; each `top` is `H·i/(k+1)`, inside the container, increasing |
| ReconcilerFacts.LaidAt | frontend/src/components/abstraction-node.tsx:137-146 | the i-th handle of a side of k keeps everything but its style and gets `top = H·(i+1)/(k+1)`, strictly inside `(0, H)` |
| ReconcilerFacts.LaidSplit | frontend/src/components/abstraction-node.tsx:131-148 | filtering the placed left-then-right list by side gives back each placed group unchanged |
| ReconcilerFacts.LaidTwice | frontend/src/components/abstraction-node.tsx:140-146 | placing a side twice equals placing it once |
| ReconcilerFacts.ReconciledShape | frontend/src/components/abstraction-node.tsx:131-148 | result = left group then right group, each in its old order and placed; handles on other sides are dropped |
| ReconcilerFacts.ReconciledLabels | frontend/src/components/abstraction-node.tsx:109-148 | after a pass every reference labels a handle, every non-empty reconciler label is a reference, all handles are left or right |
| ReconcilerFacts.ReconciledLabelsUnique | frontend/src/components/abstraction-node.tsx:109-148 | a pass keeps labels unique |
| ReconcilerFacts.ReconcileIdempotent | frontend/src/components/abstraction-node.tsx:104-148 | for handles on the left or right, a second pass over the output with the same references and height returns the same list |
| Scanner.CloseFrom | frontend/src/components/abstraction-node.tsx:104 | the lazy `(.*?)\}\}` stops at the first `}}` with no line terminator before it, and fails exactly when a terminator comes before every `}}` |
| Scanner.MatchCloses | frontend/src/components/abstraction-node.tsx:104 | a match determines where its capture ends |
| Scanner.MatchAllLeftmost | frontend/src/components/abstraction-node.tsx:104-107 | the search yields the leftmost match's capture and resumes after its `}}` |
| Scanner.MatchAllEmpty | frontend/src/components/abstraction-node.tsx:104-107 | no captures iff the regular expression matches nowhere from that point |
| Scanner.MatchAllSound | frontend/src/components/abstraction-node.tsx:104-107 | each capture is the text between a match's `{{` and `}}` |
| Scanner.ScanUnterminated | frontend/src/components/abstraction-node.tsx:104-107 | a text without `}}` (an unterminated `{{`) yields nothing |
| Scanner.ScanWithoutBraces | frontend/src/components/abstraction-node.tsx:104-107 | a text without `{` yields nothing |
| Scanner.ScanEmptyReference | frontend/src/components/abstraction-node.tsx:104-107 | `{{}}` yields the empty string |
| Utils.FindKeyByValue | frontend/src/lib/utils.ts:8-18 | `undefined` iff no entry has the value; otherwise the first such entry's key, and `obj[k] == v` |
| Utils.CreateDependencyMap | frontend/src/lib/utils.ts:20-32 | the loop builds exactly `DependencyMapOf` |
| Utils.DependencyMapLookup | frontend/src/lib/utils.ts:25-29 | keys = ids of text inputs with truthy `dependsOn`; each maps to the last such input's `dependsOn`; other inputs add nothing |
| Utils.InitializeValues | frontend/src/lib/utils.ts:34-46 | the loop builds exactly `InitialValuesOf` |
| Utils.InitialValuesLookup | frontend/src/lib/utils.ts:39-43 | an id has a value iff some input with it has `initValue !== undefined` (null, "" and false included); the last one wins |
| Store.NodeIdInjective | frontend/src/store.ts:43 | `${type}-${n}` determines both the type and the number |
| Store.IssuedIdsDistinct | frontend/src/store.ts:36-44 | over any sequence of requests no id is handed out twice |
| Store.IssuedIdsSnoc | frontend/src/store.ts:36-44 | one more request for `K` issues `K-(count of earlier K requests + 1)` |
| Store.IssuedIdsFresh | frontend/src/store.ts:36-44 | the next id for a kind was never issued before |
| Store.CountsAreOccurrences | frontend/src/store.ts:36-44 | a kind has a counter iff it was requested, and the counter equals the number of requests for it |
| Store.CountsSnoc | frontend/src/store.ts:37-41 | one more request for `K` sets `nodeIDs[K]` to its old value (0 when missing) plus one and leaves every other counter alone |
| Store.IssuedAt | frontend/src/store.ts:36-44 | the i-th issued id names the i-th request's kind and the number of requests for that kind up to and including it |
| Store.IssuedDistinct | frontend/src/store.ts:36-44 | for any naming that determines kind and number, the issued names are pairwise distinct |
| Store.FieldUpdatedEffect | frontend/src/store.ts:73-82 | count, order, ids, kinds and positions are kept; a matching node reads the new value at the field and keeps its other keys; other nodes are unchanged |
| Store.FieldUpdatedNoMatch | frontend/src/store.ts:75-80 | an id matching no node changes nothing |
| Store.GraphStore.constructor | frontend/src/store.ts:32-35 | the store starts empty with no counters |
| Store.GraphStore.CountIsOccurrences | frontend/src/store.ts:36-44 | a kind has a counter iff `getNodeID` was called for it, and the counter is the number of such calls |
| Store.GraphStore.GetNodeID | frontend/src/store.ts:36-44 | the j-th call for `K` returns `K-j`; only `nodeIDs[K]` changes; the id is fresh; nodes and edges are unchanged |
| Store.GraphStore.AddNode | frontend/src/store.ts:45-49 | `nodes` becomes old `nodes ++ [n]` with no duplicate check; edges and counters are unchanged |
| Store.GraphStore.UpdateNodeField | frontend/src/store.ts:73-82 | `nodes` becomes `FieldUpdated(old nodes)`; edges and counters are unchanged |
| Pipeline.NoEdgesAcyclic | backend/main.py:25-44 | a graph without edges, the empty one included, has no cycle |
| Pipeline.SelfLoopCyclic | backend/main.py:27-44 | an edge `u→u` is a cycle |
| Pipeline.RankedAcyclic | backend/main.py:35-44 | a ranking in which every edge goes up rules out cycles |
| Pipeline.CycleFromPredecessors | backend/main.py:35-44 | a non-empty set in which every node has a predecessor inside it contains a cycle |
| Pipeline.CountSuccessors | backend/main.py:28-29 | one inner loop: KeyError iff a neighbour is not a key, naming a neighbour; otherwise each count rises by its multiplicity |
| Pipeline.CountInDegrees | backend/main.py:25-29 | KeyError iff some neighbour is not a key; otherwise every key maps to its in-degree, parallel edges counted |
| Pipeline.InitialQueue | backend/main.py:31 | the queue holds exactly the keys of in-degree 0, once each |
| Pipeline.Release | backend/main.py:39-42 | decrementing the successors keeps the in-degrees equal to edges from pending keys and enqueues exactly those reaching 0 |
| Pipeline.DrainedAcyclic | backend/main.py:44 | when every key was popped, the pop order ranks every edge upward, so there is no cycle |
| Pipeline.StuckCyclic | backend/main.py:35-44 | when keys remain with positive in-degree from the remaining keys, there is a cycle |
| Pipeline.Visit | backend/main.py:35-42 | one turn keeps the loop invariant (in-degrees, queue of distinct pending keys, `count + len(queue) <= len(graph)`, ranks) and pops one key |
| Pipeline.HasCycle | backend/main.py:24-44 | KeyError iff some neighbour is not a key; otherwise the result is true iff the graph has a cycle |
| Pipeline.NodesGraphEffect | backend/main.py:57-59 | after the node loop the keys are the distinct submitted nodes, each with an empty list |
| Pipeline.BuildNodes | backend/main.py:57-59 | the node loop builds `NodesGraph` |
| Pipeline.EdgesAddedOk | backend/main.py:60-61 | the edge loop succeeds iff every edge has `src` among the keys and a `target`; the keys do not change |
| Pipeline.EdgesAddedEffect | backend/main.py:60-61 | each key's list gains the targets of its edges in order, parallel edges repeated |
| Pipeline.EdgesAddedStops | backend/main.py:60-61 | the first KeyError ends the loop; later edges do not matter |
| Pipeline.BuildEdges | backend/main.py:60-61 | the edge loop computes `EdgesAdded`, with KeyError on "src", the source, or "target", in that order |
| Pipeline.TargetsMembers | backend/main.py:60-61 | a name is listed under `k` iff some edge goes from `k` to it |
| Pipeline.RequestEdges | backend/main.py:57-61 | the built graph has `u→v` iff `u` is a node and some edge goes from `u` to `v` |
| Pipeline.RequestAccepted | backend/main.py:54-63 | a request is answered iff every edge has both ends among the nodes |
| Pipeline.Analyse | backend/main.py:54-63 | counts are `len(nodes)` (duplicates counted) and `len(edges)`, and the flag is whether a cycle exists |
| Pipeline.ParsePipeline | backend/main.py:50-65 | as written: `is_dag` is true iff the graph has a cycle |
| Pipeline.ParsePipelineIntended | backend/main.py:63-65 | corrected: `is_dag` is true iff the graph has no cycle |
| Pipeline.IsDagWitness | backend/main.py:63-65 | one node without edges is acyclic; one node with a self-loop is cyclic |
| Registry.IndexFrom | frontend/src/components/nodes/input-node.tsx:28 | the first index at or after `k` where the pattern occurs, none iff it occurs nowhere there |
| Registry.ReplaceCustomPrefix | frontend/src/components/nodes/input-node.tsx:28 | `("custom" + r).replace("custom", "") == r`, so `customInput-1` shows `Input-1` |
| Registry.ReplaceWithoutFirstChar | frontend/src/components/nodes/text-node.tsx:29 | a string without the pattern's first character is unchanged, so `text-3` stays `text-3` |
| Registry.ReplaceKeepsCharacters | frontend/src/components/nodes/text-node.tsx:29 | replacing with "" adds no character |
| Registry.IdsDistinct | frontend/src/components/nodes/my-node.tsx:15-61 | every kind's handle ids are pairwise distinct, and so are its input ids |
| Registry.DefinitionSided | frontend/src/components/nodes/llm-node.tsx:17-35 | every declared handle is left or right, unlabelled and not reconciler-made |
| Registry.DependsOnDeclared | frontend/src/components/nodes/input-node.tsx:29-34 | every `dependsOn` names a select declared in the same list |
| Registry.NameStartsAsDisplayName | frontend/src/components/nodes/output-node.tsx:27-31 | for every kind but the LLM and checkbox nodes, the first field is a text field starting as the id minus its first "custom" |
| Registry.NoFieldNamedUndefined | frontend/src/components/nodes/my-node.tsx:23-61 | no field id is "undefined" |
| Registry.GuardAtStart | frontend/src/components/abstraction-node.tsx:95-98 | with the start values the guard holds for the text kind only |
| Registry.GuardReadsSelect | frontend/src/components/nodes/input-node.tsx:31-40 | with a text field first and the "Type" select second, the guard reads that select, which starts at "text", so the guard fails |
| Registry.MyNodeConsults | frontend/src/components/nodes/my-node.tsx:23-41 | the guard consults `-text1` and `-select1` |
| Registry.MyNodeStartValues | frontend/src/components/nodes/my-node.tsx:39-60 | `-select1` starts at "text"; `-select2` and the checkbox have no start value |
| Registry.CheckboxStartsEmpty | frontend/src/components/nodes/checkbox-node.tsx:28-34 | the checkbox node starts with no values |
| Registry.NoTextFieldNoPass | frontend/src/components/nodes/llm-node.tsx:37 | the LLM and checkbox nodes are never reconciled (no property named "undefined") |
| Registry.TextNodeStartText | frontend/src/components/nodes/text-node.tsx:16-31 | the text field the guard reads starts as the node's display name, and a name without `{` holds no reference |
| Registry.TextNodeFirstPass | frontend/src/components/nodes/text-node.tsx:16-31 | the first pass adds nothing and places the right handle at `H/2` |
| Registry.TextNodeEmptyNameThrows | frontend/src/components/nodes/text-node.tsx:29 | a text node with id "custom" starts with an empty name, and `matchAll` then throws |
| PipelineUi.NodeTypeOf | frontend/src/components/pipeline/ui.tsx:29-36 | a found kind is registered under the looked-up name |
| PipelineUi.NodeTypesRoundTrip | frontend/src/components/pipeline/ui.tsx:29-36 | every kind is found under its own name |
| PipelineUi.NodeTypesKeys | frontend/src/components/pipeline/ui.tsx:29-36 | a name is in the table iff it is one of the six kind names |
| PipelineUi.InitNodeDataFields | frontend/src/components/pipeline/ui.tsx:77-79 | the data has exactly `id` and `nodeType`, holding the node id and the type |
| PipelineUi.OnDrop | frontend/src/components/pipeline/ui.tsx:81-114 | an empty payload or a falsy `nodeType` changes nothing; otherwise exactly one node with a fresh id, the type, the projected position or `(0, 0)` and `{id, nodeType}` is appended, also for types outside `nodeTypes` |
| PipelineUi.DroppedCustomName | frontend/src/components/pipeline/ui.tsx:102-107 | a dropped `customX` node shows `X-n` |
| PipelineUi.DroppedTextName | frontend/src/components/pipeline/ui.tsx:102-107 | a dropped text node shows its own id, which holds no `{` |
| PipelineUi.DroppedTextNodeFirstPass | frontend/src/components/nodes/text-node.tsx:16-31 | a dropped text node's first pass places its output handle at `H/2` |
| Corrected.DuplicateOutputId | frontend/src/components/abstraction-node.tsx:109-128 | three passes from a text node yield two handles with id `3-output` |
| Corrected.MaxOutputNumber | frontend/src/components/abstraction-node.tsx:114 | bounds the number of every `${n}-output` id in the list |
| Corrected.FreshHandleId | frontend/src/components/abstraction-node.tsx:114 | the corrected id is held by no handle of the list |
| Corrected.AddMissingFreshMatches | frontend/src/components/abstraction-node.tsx:109-118 | the corrected loop adds the same handles at the same places; only ids differ |
| Corrected.AddMissingFreshIdsUnique | frontend/src/components/abstraction-node.tsx:109-118 | the corrected loop keeps ids unique |
| Corrected.ReconciledFreshIdsUnique | frontend/src/components/abstraction-node.tsx:109-148 | a corrected pass keeps handle ids unique |
| Corrected.PassIntendedIdsUnique | frontend/src/components/abstraction-node.tsx:94-153 | when it updates, a run of the corrected effect keeps handle ids unique |
| Corrected.DeclaredIdsUnique | frontend/src/components/nodes/llm-node.tsx:17-35 | every kind starts with unique handle ids |
| Corrected.GuardIgnoresOptions | frontend/src/components/abstraction-node.tsx:95-98 | as written, in every kind with a "Type" select, picking either option ("text" or "file") leaves the guard false |
| Corrected.GuardIntendedFollowsSelect | frontend/src/components/abstraction-node.tsx:95-98 | in every kind with a "Type" select, the corrected guard holds after a pick iff the option valued "text" was picked |
| Corrected.GuardIntendedAtStart | frontend/src/components/abstraction-node.tsx:95-98 | with the start values the corrected guard holds iff the kind is not the LLM or checkbox node |

## Left out

- ReactFlow rendering is not modelled: `<Handle>`, the JSX trees, `useUpdateNodeInternals` and `reactFlowInstance.project`. The projected position is a parameter.
- `onNodesChange`, `onEdgesChange` and `onConnect` are not modelled. They delegate to reactflow's `applyNodeChanges`, `applyEdgeChanges` and `addEdge`, which are not part of this model. No member writes `nodeIDs` except `GetNodeID`.
- DOM measurement and the textarea auto-resize are not modelled. `clientHeight` is a parameter.
- CSS strings (`${x}px`, `${100/3}%`) are not modelled. Offsets and percentages are exact `real` values, not formatted floating-point strings.
- zustand's `create`/`set`, React state and effect scheduling are not modelled. One run of the effect is one call. Whether React re-runs the effect after `setHandles` is not modelled.
- Aliasing is not modelled. The effect pushes onto the state array and overwrites `handle.style` on objects shared with the old list, and `updateNodeField` assigns `node.data` on shared node objects. The model works on values, so sharing between the old and the new list is not captured. `Reconciler.PlaceSide` keeps the in-place update on an array of its own.
- JavaScript property order for integer-like keys is not modelled. Dicts keep insertion order.
- `nodeIDs` keys that name `Object.prototype` members, such as `constructor`, are not modelled. There `newIDs[type] === undefined` is false on the first call.
- Strings are sequences of Dafny characters, not UTF-16 code units.
- `JSON.parse` of the drag payload and `draggable-node.tsx` are not modelled. The payload is the raw string plus its parsed `nodeType`.
- `Accepted` does not model non-string `nodeType` values, because `nodeType` is `Option<string>`.
- FastAPI, CORS, logging and `await request.json()` are not modelled. The request is a value with optional `nodes` and `edges`.
- `Request` does not model a body whose `nodes` or `edges` is `null`, or non-string node names and edge ends.
- `Pipeline.HasCycle` requires distinct keys, which every Python dict has.
- `cn`, the input, button and toolbar components, and `App.tsx` are presentation only and are not modelled.
- The file input shown when the select reads "File" is not modelled (abstraction-node.tsx:207). It compares with "File", which is also not an option value, like the guard under Findings.
- `Store.GraphStore.GetNodeID` does not model JavaScript number precision. Counters are unbounded.
- `Store.GraphStore.UpdateNodeField` and `Store.FieldUpdated` take a `Value` (a string, a boolean or null) where `updateNodeField` accepts any `fieldValue`. Numbers, objects and `undefined` cannot be passed. The merge does not inspect the value, so nothing else about it changes.

## Findings

| source | as written | input that shows it | evidently intended | confidence | as-written member | corrected member |
|---|---|---|---|---|---|---|
| backend/main.py:63-65 | `'is_dag': cycle_exists` reports `has_cycle`'s result | nodes `["a"]` and no edges: the graph is acyclic and `is_dag` is false; an edge `a→a` makes `is_dag` true | `is_dag` is `not cycle_exists` | high, not executed | Pipeline.IsDagWitness | Pipeline.ParsePipelineIntended |
| frontend/src/components/abstraction-node.tsx:114 | a pushed handle's id is `${handles.length + 1}-output`, so the number depends on the list's current length | text node `text-1` with text `{{a}}{{b}}`, then `{{b}}`, then `{{b}}{{c}}`: the handles for `b` and `c` both get `3-output` | handle ids stay unique across passes | medium, not executed | Corrected.DuplicateOutputId | Corrected.ReconciledFreshIdsUnique |
| frontend/src/components/abstraction-node.tsx:96 | the guard compares the select's value with `"Text"`, but the option values are `"text"` and `"file"` | in an input node, pick "Text" in the Type select: the value is `"text"` and the guard is false, so `{{name}}` references never get handles | compare with the option value `"text"` | medium, not executed | Corrected.GuardIgnoresOptions | Corrected.GuardIntendedFollowsSelect |

`Pipeline.ParsePipeline`, `Reconciler.Reconcile` and `Reconciler.Guard` follow the code as written. Their corrections sit beside them:

- `Pipeline.ParsePipelineIntended`;
- `Corrected.ReconciledFresh`, `Corrected.GuardIntended` and `Corrected.PassIntendedOf`, which combines the two reconciler corrections.
