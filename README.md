# React-Workflow graph engine, in Dafny

A model of the graph-editing engine of the React-Workflow editor. The editor is a canvas of text, image and LLM nodes joined by edges. The model covers three parts.

- **Connection validator** (`lib/validation.ts`), in `validation.dfy`:
  - the per-type capability table;
  - the type rule keyed on the target handle `input-<i>`;
  - the depth-first cycle check for a proposed edge;
  - the ordered checks of a proposed connection;
  - the whole-workflow audit with its grey/black cycle scan.

  The searches are recursive methods that thread their `visited` sets. They are proved against a reachability predicate on the edge list (`graph.dfy`). `wouldCreateCycle` is proved sound and complete by a closed-set argument. `validateWorkflow` is proved by a ghost finishing order (a ranking) that the scan builds.
- **Canvas store** (`store/store.ts`), in `store.dfy` and `timeline.dfy`:
  - a class with the store's fields: `nodes`, `edges`, `history`, `historyStep`, `redoStack`, `viewBackup` and `workflowName`;
  - one method per action.

  Each method states the new node list as a function of the old one, and the history fields as one value of the generic undo/redo algebra in `timeline.dfy` (`Record`, `Push`, `Undo`, `Redo`). The lemmas are stated on those functions.
- **LLM node** (`components/nodes/llm-node.tsx`), in `llm_node.dfy`:
  - the read-only loops that gather a node's prompt and images;
  - the checks for which kinds of node are attached;
  - the checks that decide whether a request is sent and what it carries;
  - how a reply reaches the node's state and the store.

`seqs.dfy` holds `map`, `filter` and a counting function. `jstext.dfy` models the JavaScript string behaviour the core relies on: `trim` with the ECMAScript white-space set, `split` on one character, `parseInt` without a radix, and the decimal rendering of `Date.now()`.

What the source does, and the model keeps:
- The store's connect handler (`store/store.ts:145-156`) appends the edge without consulting the validator. The canvas (`components/workflows/Canvas.tsx:133`) wires it directly, so nothing on the live path calls `validateConnection`. `ConnectCanCloseCycle` shows a two-edge cycle getting in this way.
- `lockNode` and `deleteNode` push a snapshot but keep the redo stack (`store/store.ts:264-270`, `284-291`). `RedoAfterPush` shows that a redo after them brings back a snapshot from before the lock or delete.
- Undo and redo restore node lists only. Edges are not part of the history, so undoing a delete brings the node back without its edges.
- `renameNode`, `handleNodeDataChange`, `handleConnect`, `handleEdgesChange` and `loadWorkflow` add no history entry.
- A handle whose suffix is not a number gives `NaN`, which fails both `< 2` and `>= 2`. Such a connection into an LLM node is accepted from every source (`TypeSafeNaNHandle`).

## Model

| member | source | states |
|---|---|---|
| Graph.ParseTag | lib/validation.ts:30-39 | a `type` string reads to a canonical node type whose tag is that string, unknown exactly when it is none of the three kinds |
| Graph.TypeTagRoundTrip | lib/validation.ts:30-39 | on canonical types, reading back the stored tag gives the same type |
| Graph.ConnectEdge | store/store.ts:146-152 | the edge built from a connection keeps its source, target and target handle |
| Graph.FindNode | lib/validation.ts:154-155 | `find` fails exactly when no node has the id; a found node has that id and is in the list |
| Graph.FindNodeIds | store/store.ts:204-205 | lookup succeeds exactly for the ids in the list |
| Graph.FindNodeFirst | lib/validation.ts:154 | with duplicate ids, `find` returns the first node carrying the id |
| Graph.AddEdgeKeepsAcyclic | lib/validation.ts:186-192 | an edge whose source cannot be reached from its target keeps an acyclic graph acyclic |
| Graph.SubgraphKeepsAcyclic | store/store.ts:281-283 | removing edges never creates a cycle |
| Graph.NoReachEmpty | lib/validation.ts:129 | traversals skip edges without a target, so no walk ends at the empty id |
| Seqs.Map | store/store.ts:160-164 | `map` keeps the length and applies the function at every index |
| Seqs.Filter | store/store.ts:280-283 | `filter` keeps exactly the elements that pass, and only those |
| Seqs.FilterCount | store/store.ts:280 | the survivors and the removed elements together account for the whole list |
| Seqs.FilterConcat | store/store.ts:280-283 | filtering a concatenation filters each part, in order |
| Seqs.FilterIdempotent | store/store.ts:280-283 | filtering twice by the same test is filtering once |
| JsText.Trim | store/store.ts:241 | `trim` returns a contiguous slice with no white space at either end, and everything cut from either end is white space |
| JsText.TrimEmpty | store/store.ts:241 | `trim` is empty exactly when the string is all white space |
| JsText.TrimIdempotent | store/store.ts:241 | trimming a trimmed string changes nothing |
| JsText.Split | lib/validation.ts:57 | `split` yields at least one piece, and no piece holds the separator |
| JsText.SplitNoSeparator | lib/validation.ts:57 | a string without the separator splits into itself |
| JsText.SplitAtFirst | lib/validation.ts:57 | the first piece ends at the first separator |
| JsText.ParseInt | lib/validation.ts:57 | `parseInt` without a radix yields a number only when the string holds a decimal digit, and NaN otherwise |
| JsText.ParseIntSkipsSpace | lib/validation.ts:57 | `parseInt` ignores leading white space |
| JsText.NatToString | store/store.ts:169 | `${n}` for a timestamp is a non-empty string of decimal digits |
| JsText.ParseIntOfNatToString | store/store.ts:169 | `parseInt` reads back every decimal rendering |
| Validation.TypeInfo | lib/validation.ts:11-24 | exactly the three known types have a table row, each with one output |
| Validation.HandleIndex | lib/validation.ts:56-58 | a missing handle is slot 0, and a parsed slot is never negative |
| Validation.ParseIntNonNegative | lib/validation.ts:57 | the piece after the first `-` parses to NaN or a non-negative number |
| Validation.HandleIndexOfInputHandle | components/nodes/llm-node.tsx:219-229 | the handle `input-<i>` the LLM node renders reads back as slot `i` |
| Validation.IsTypeSafeConnection | lib/validation.ts:25-108 | a connection is accepted only from a known source type into an LLM node, and every rejection carries a non-empty message |
| Validation.TypeSafeRejections | lib/validation.ts:33-52 | unknown source type, then unknown target type, then a text or image target is rejected, whatever the handle |
| Validation.SlotRuleFollowsTable | lib/validation.ts:11-24 | the LLM row declares an input at every slot, and a source may use slot `n` iff its output feeds the input declared there |
| Validation.TypeSafeFollowsTable | lib/validation.ts:25-102 | for a numeric slot, a connection is accepted iff the target declares an input at that slot and the source's output may feed it |
| Validation.TypeSafeNaNHandle | lib/validation.ts:54-101 | with a non-numeric handle, a connection is accepted iff the target is an LLM node |
| Validation.TypeSafeOnSlot | lib/validation.ts:54-101 | on a handle naming slot `n`, text and LLM sources may feed an LLM node iff `n < 2`, image sources iff `n >= 2` |
| Validation.SearchFrom | lib/validation.ts:124-144 | the inner search reports a hit only for a real walk to the goal; on a miss, every node it visited has all its successors visited and none of them is the goal |
| Validation.WouldCreateCycle | lib/validation.ts:109-147 | false when either id is empty, else true iff the source is reachable from the target |
| Validation.BackEdgeIsCycle | lib/validation.ts:186-192 | with `a -> b` present, `b -> a` is reported as a cycle |
| Validation.ValidateConnection | lib/validation.ts:149-196 | the checks run in order (source missing, target missing, self-connection, type safety, cycle) and the first failure is the answer; an accepted edge keeps an acyclic graph acyclic |
| Validation.EdgeAudit | lib/validation.ts:204-232 | an edge that passes has both ends present and they differ; a self-loop failure is reported only for an edge from a node to itself |
| Validation.EdgeAuditMeans | lib/validation.ts:204-232 | an edge passes the per-edge audit iff both ends exist, they differ, and the connection is type-safe |
| Validation.EdgeErrors | lib/validation.ts:204-233 | the per-edge audit gives at most one message per edge |
| Validation.AuditEdge | lib/validation.ts:205-232 | one edge yields a message iff it fails the audit, and the message names the first failing check |
| Validation.AuditEdges | lib/validation.ts:204-233 | the edge loop collects exactly the audit messages, in edge order |
| Validation.EdgeErrorsEmpty | lib/validation.ts:204-234 | the audit reports nothing iff every edge passes it |
| Validation.CycleSearch | lib/validation.ts:238-260 | the grey/black search reports a cycle only when one exists; otherwise it extends a finishing order under which every edge leaving a finished node points to a node finished earlier |
| Validation.ScanForCycle | lib/validation.ts:262-271 | when every edge starts at a listed node, the scan finds a cycle iff the edge relation has one |
| Validation.ValidateWorkflow | lib/validation.ts:198-278 | `valid` iff no errors; errors are the per-edge messages plus one cycle message only when those are empty; valid iff every edge passes and the graph is acyclic |
| Timeline.Push | store/store.ts:264-270 | the history is cut after the current snapshot and ends at the new one, and the step moves onto it; the redo stack stays |
| Timeline.Record | store/store.ts:129-136 | the same cut-and-append, so the history ends at the new snapshot, and the redo stack is emptied |
| Timeline.Undo | store/store.ts:295-307 | no-op at step 0; otherwise step back and push the left snapshot on the redo stack, never shortening the history |
| Timeline.Redo | store/store.ts:309-323 | no-op on an empty stack; otherwise the top becomes current right after the old step, and the stack is popped |
| Timeline.RedoAfterUndo | store/store.ts:295-323 | redo right after undo restores the snapshot, the step and the redo stack |
| Timeline.UndoAfterRedo | store/store.ts:295-323 | undo right after redo restores the snapshot, the step and the redo stack |
| Timeline.UndoAfterRecord | store/store.ts:188-198 | undo after a recording action shows the previous snapshot, with only the recorded one left to redo |
| Timeline.RedoAfterRecord | store/store.ts:129-136 | after a recording action, redo does nothing |
| Timeline.RedoAfterPush | store/store.ts:259-272 | after a push that keeps the redo stack, redo brings back a snapshot undone before the push |
| Timeline.UndoN | store/store.ts:295-307 | repeated undo keeps the step in range |
| Timeline.RedoN | store/store.ts:309-323 | repeated redo keeps the step in range |
| Timeline.UndoNStacks | store/store.ts:295-307 | `k` undos land on step `c-k` and stack the skipped snapshots, nearest first |
| Timeline.RedoNReplays | store/store.ts:309-323 | `k` redos replay the top `k` stack entries after the current snapshot |
| Timeline.UndoNThenRedoN | store/store.ts:295-323 | `k` undos then `k` redos return to the same snapshot, step and redo stack |
| Store.NodeIdReadsBack | store/store.ts:169 | a new id splits at its `-` into the type tag and the timestamp |
| Store.NodeIdInjective | store/store.ts:169 | two new ids coincide only for the same kind in the same millisecond |
| Store.NewNode | store/store.ts:170-186 | the added node has the generated id, the kind, the position, the kind's default label, empty text, and is not being edited |
| Store.Clone | store/store.ts:206-211 | the duplicate differs from the original only in its new id and its position, shifted by (24, 24) |
| Store.UpdateWhere | store/store.ts:160-164 | the per-id map changes only the nodes with that id |
| Store.UpdateWhereKeepsIds | store/store.ts:226-230 | an id-preserving update keeps the set of ids |
| Store.ApplyPatch | store/store.ts:158-166 | a data change keeps the set of ids |
| Store.ApplyPatchTwice | store/store.ts:162 | two data changes in a row equal one change in which the later fields win |
| Store.ApplyPatchIdempotent | store/store.ts:162 | the same data change twice equals it once |
| Store.SavedLabel | store/store.ts:241 | the saved label is the trimmed input when that is non-empty, else the previous label |
| Store.Relabel | store/store.ts:235-246 | saving a label keeps the set of ids |
| Store.RelabelEffect | store/store.ts:235-246 | only the nodes with that id change, and on them only the label and the editing flag |
| Store.RelabelIdempotent | store/store.ts:233-246 | saving the same label twice equals saving it once |
| Store.RenameThenSave | store/store.ts:224-246 | entering edit mode and then saving equals saving directly |
| Store.Lock | store/store.ts:261-263 | locking keeps the set of ids |
| Store.LockEffect | store/store.ts:261-263 | nodes with that id become undraggable, nothing else changes, and locking twice equals once |
| Store.RemoveNode | store/store.ts:280 | no survivor has the deleted id, and each survivor was in the list |
| Store.RemoveIncident | store/store.ts:281-283 | no surviving edge touches the deleted id, and each survivor was in the list |
| Store.RemoveNodeExact | store/store.ts:280 | delete removes exactly the nodes with that id |
| Store.RemoveIncidentExact | store/store.ts:281-283 | delete removes exactly the edges with that id at either end |
| Store.DeleteKeepsGraph | store/store.ts:278-293 | after a delete, no edge dangles if none did before, and an acyclic graph stays acyclic |
| Store.Focus | store/store.ts:342-353 | unknown id: no change; otherwise show only that node, no edges, and back up the lists unless a backup exists |
| Store.Restore | store/store.ts:355-366 | restore clears the backup and is a no-op without one |
| Store.FocusThenRestore | store/store.ts:342-366 | any sequence of focuses followed by a restore brings back what was shown before the first |
| Store.FocusAllBackup | store/store.ts:348 | from a state without a backup, successive focuses either change nothing or keep the backup of the first |
| Store.FocusAllKeeps | store/store.ts:348 | an existing backup is never replaced |
| Store.DecideImport | store/store.ts:442-479 | a document is accepted iff both `nodes` and `edges` are arrays; nodes are checked first; no file means no alert |
| Store.ExportName | store/store.ts:420 | the exported name is never empty and is the workflow name when that is set |
| Store.DownloadNameUsesExportName | store/store.ts:420-430 | the download name's own `'workflow'` fallback never applies |
| Store.ExportThenImport | store/store.ts:417-470 | importing an export brings back its nodes, edges and name, with an unnamed workflow coming back as "Workflow" |
| Store.CanvasStore.GetEdgeColor | store/store.ts:497-511 | the colour is one of the four edge colours, and only a source that exists gets a colour other than the fallback |
| Store.EdgeColorNamesSourceKind | store/store.ts:497-511 | each known source kind has its own colour, and a missing or unknown source gets the fallback |
| Store.ConnectCanCloseCycle | store/store.ts:145-156 | the connect handler can append an edge that closes a cycle the validator would refuse |
| Store.CanvasStore.constructor | store/store.ts:65-80 | the store starts empty, with one empty snapshot at step 0 and nothing to redo |
| Store.CanvasStore.AddNode | store/store.ts:168-199 | appends the new node and records the new list, clearing redo |
| Store.CanvasStore.DuplicateNode | store/store.ts:201-223 | unknown id: nothing changes; otherwise appends the clone and records |
| Store.CanvasStore.RenameNode | store/store.ts:224-232 | sets editing mode on the nodes with that id; history unchanged |
| Store.CanvasStore.SaveNodeLabel | store/store.ts:233-258 | relabels and records, clearing redo |
| Store.CanvasStore.LockNode | store/store.ts:259-272 | locks and pushes, keeping redo |
| Store.CanvasStore.DeleteNode | store/store.ts:278-293 | removes the node and its edges and pushes the new node list, keeping redo |
| Store.CanvasStore.HandleNodeDataChange | store/store.ts:158-166 | merges the patch into the nodes with that id; history unchanged |
| Store.CanvasStore.HandleConnect | store/store.ts:145-156 | appends the styled edge; nothing else changes |
| Store.CanvasStore.HandleNodesChange | store/store.ts:126-138 | takes the updated list and records it, clearing redo |
| Store.CanvasStore.HandleEdgesChange | store/store.ts:139-143 | takes the updated edges; history unchanged |
| Store.CanvasStore.AddToHistory | store/store.ts:485-495 | records a snapshot without changing what is shown |
| Store.CanvasStore.LoadWorkflow | store/store.ts:409-415 | replaces nodes and edges and leaves the history alone |
| Store.CanvasStore.Undo | store/store.ts:295-307 | moves the history by `Undo` and shows the new current snapshot, unless at step 0 |
| Store.CanvasStore.Redo | store/store.ts:309-323 | moves the history by `Redo` and shows the new current snapshot, unless the stack is empty |
| Store.CanvasStore.ViewSingleNode | store/store.ts:342-353 | the shown lists and backup become `Focus` of the old ones |
| Store.CanvasStore.ViewAllNodes | store/store.ts:355-366 | the shown lists and backup become `Restore` of the old ones |
| Store.CanvasStore.ImportJSON | store/store.ts:437-483 | on acceptance replaces nodes, edges and name and records the nodes; otherwise changes nothing; returns the alert |
| Store.CanvasStore.ExportDocument | store/store.ts:417-424 | the exported document carries the current lists and a non-empty name |
| LlmNode.FirstPrompt | components/nodes/llm-node.tsx:54-71 | whenever some incoming edge's source offers text, the prompt is non-empty |
| LlmNode.FirstPromptEmpty | components/nodes/llm-node.tsx:41-74 | the prompt is empty iff no incoming source offers one |
| LlmNode.FirstPromptEarliest | components/nodes/llm-node.tsx:41-74 | a non-empty prompt is the offer of the earliest offering edge, and no edge before it offers one |
| LlmNode.GetConnectedTextInput | components/nodes/llm-node.tsx:41-74 | returns the first non-empty text or LLM output along the incoming edges, in edge order |
| LlmNode.ImageOf | components/nodes/llm-node.tsx:86-97 | an edge brings an image iff its source is an image node with a non-empty URL |
| LlmNode.ImageOfCarriesSource | components/nodes/llm-node.tsx:89-95 | the image an edge brings carries the edge's source id and that node's URL |
| LlmNode.CollectedImageHasSource | components/nodes/llm-node.tsx:86-97 | every collected image names the source of some incoming edge, an image node whose URL it carries |
| LlmNode.ImageAt | components/nodes/llm-node.tsx:86-96 | one turn of the image loop yields exactly the image the edge brings |
| LlmNode.ImagesAlong | components/nodes/llm-node.tsx:83-100 | the image loop over a list of edges collects exactly `ImagesFrom` of that list |
| LlmNode.ImagesFrom | components/nodes/llm-node.tsx:76-101 | at most one image per edge |
| LlmNode.ImagesFromConcat | components/nodes/llm-node.tsx:85-98 | images are collected in edge order |
| LlmNode.ImagesFromSnoc | components/nodes/llm-node.tsx:91-96 | one more edge adds its image at the end |
| LlmNode.ImagesFromMembership | components/nodes/llm-node.tsx:76-101 | an image is collected iff some edge brings it |
| LlmNode.GetConnectedImages | components/nodes/llm-node.tsx:76-101 | returns the images of the incoming edges, in edge order |
| LlmNode.KindConnected | components/nodes/llm-node.tsx:103-127 | true iff some incoming edge starts at an existing node of the kind |
| LlmNode.CheckImageNodeConnected | components/nodes/llm-node.tsx:103-114 | true iff an image node feeds the node |
| LlmNode.CheckTextNodeConnected | components/nodes/llm-node.tsx:116-127 | true iff a text node feeds the node |
| LlmNode.FindAfterPatch | store/store.ts:158-166 | after a data change, lookup finds the same node with only its data changed |
| LlmNode.FedByIgnoresData | components/nodes/llm-node.tsx:103-127 | which kinds are attached does not depend on any node's data |
| LlmNode.PlanRun | components/nodes/llm-node.tsx:138-161 | an image without a text node is refused first, then an empty prompt; otherwise the payload carries the prompt, temperature and 1000 tokens, with images only when there are some |
| LlmNode.SentPromptHasSource | components/nodes/llm-node.tsx:134-148 | a request is sent only with a prompt offered by an incoming text or LLM node, and with a text node whenever an image node is attached |
| LlmNode.Settle | components/nodes/llm-node.tsx:172-186 | only a successful answer is shown and stored; every failure clears the output and sets an error |
| LlmNode.LlmNodeState.constructor | components/nodes/llm-node.tsx:16-24 | a node starts with its stored output, no error, idle, temperature 0.7 |
| LlmNode.LlmNodeState.RunModel | components/nodes/llm-node.tsx:129-190 | a refused run sets the error and leaves the store alone; a sent run settles the reply, and only a success writes the output to the store |

## Left out

- xyflow's `addEdge`, `applyNodeChanges` and `applyEdgeChanges` are library code that is not part of this model. `HandleConnect` appends the edge; it does not model `addEdge`'s suppression of an identical existing edge, nor the generated edge id. The two change handlers take the list xyflow computed as a parameter.
- `Date.now()`, `Math.random()` and `new Date().toISOString()` are parameters (`now`, `fallback`, `exportedAt`). Ids are not claimed to be unique, since two nodes of one kind added in the same millisecond collide.
- Positions are integers and the temperature a real number. The source's floating-point arithmetic is not modelled.
- `saveWorkflow`, `loadWorkflows` and the `fetch` in `handleRunModel` are network calls. The reply to the LLM request is a parameter of `RunModel`.
- The Blob/anchor download of `exportJSON` and the file input and `FileReader` of `importJSON` are DOM plumbing. The import is taken as one atomic step on the reader's outcome. In the source, the history is captured when the picker opens.
- `JSON.parse` is not modelled. Its outcome is a parameter of `ImportJSON`: a read error, a parse error with its message, or a document whose `nodes` and `edges` fields are arrays or not. A `null` document throws when its fields are read, which is the parse-error case. The contents of an accepted array are taken as nodes and edges as they are.
- UI-only state: `activeTool`, `zoomLevel`, `isSaving`, `workflows`, `showLoadModal`, the settings panel, the "Processing..." text shown while waiting, `console.log`, and the selected model, which is not sent.
- `getNode` is `nodes.find` on the store. `Graph.FindNode` models it.
- `unlockNode`, destructured by `components/Menu.tsx:4`, does not exist in the store and is not modelled.
- String fields that JavaScript leaves `undefined` or `null` are the empty string. The core only tests them for truthiness.
  - A node without `draggable` is draggable, as xyflow treats it.
  - A node whose `type` is missing is `Untyped("")`, so its error message reads `Invalid source node type: ` instead of ending in `undefined`.
  - `Untyped` tags are assumed to differ from the three known ones. `Graph.Canonical` states this, and `Graph.ParseTag` reads a `type` string into that form. The node lists themselves are not required to be canonical.
  - Duplicating a node without a `type` gives the id `-<now>`, where the source gives `undefined-<now>` (`store/store.ts:206-211`).
- The final `{ valid: false, error: 'Invalid connection between these node types' }` at `lib/validation.ts:104-107` cannot be reached: every known target type returns earlier. It has no counterpart in the model.
- `wouldCreateCycle` also keeps a `recursionStack` set that it never reads. The model leaves it out.
- The white-space set of `trim` and `parseInt` is the ECMAScript one limited to the listed code points. Line terminators and the Unicode space separators are included; nothing outside that list is.
- Node data is restricted to `label`, `text`, `imageUrl`, `output` and `isEditing`. Other fields a node may carry pass through the source unchanged and are not represented.
- `LlmNodeState.RunModel` settles the reply in the same step that sends the request. No store action can fall between them, such as deleting the node or starting a second run. So the stale-reply behaviour of the asynchronous `handleRunModel` (`components/nodes/llm-node.tsx:129-190`) is not modelled.
- LlmNode.Settle: when the exception is an `Error` with an empty message, the error is the empty string, as in the source. The contract therefore promises a non-empty error only for a non-ok response and an unsuccessful answer.
