/** The canvas store: the node and edge lists the editor shows, the linear
    undo/redo history of node lists, the focus backup, and the workflow name.
    The node-list transformations each action applies are functions here, each
    with the lemmas that say what it does; the `CanvasStore` class holds the
    fields and its methods apply those transformations and move the history. */
module Store {
  import opened Graph
  import opened JsText
  import opened Seqs
  import TL = Timeline

  // ---------------------------------------------------------------- new nodes

  /** The label a new node of each kind starts with. */
  function DefaultLabel(t: NodeType): string {
    match t
    case ImageNode => "Upload Image"
    case LlmNode => "Any LLM"
    case _ => "Text"
  }

  /** `${type}-${Date.now()}`: the id of a node created at time `now`. */
  function NodeId(t: NodeType, now: nat): string {
    TypeTag(t) + "-" + NatToString(now)
  }

  /** An id of a known kind splits at its one `-` into the type tag and the
      timestamp. */
  lemma NodeIdSplits(t: NodeType, now: nat)
    requires !t.Untyped?
    ensures Split(NodeId(t, now), '-') == [TypeTag(t), NatToString(now)]
  {
    var digits := NatToString(now);
    assert '-' !in digits;
    assert NodeId(t, now) == TypeTag(t) + ['-'] + digits;
    SplitAtFirst(TypeTag(t), '-', digits);
    SplitNoSeparator(digits, '-');
  }

  /** The timestamp part of an id of a known kind reads back as `now`. */
  lemma NodeIdReadsBack(t: NodeType, now: nat)
    requires !t.Untyped?
    ensures Split(NodeId(t, now), '-') == [TypeTag(t), NatToString(now)]
    ensures ParseInt(Split(NodeId(t, now), '-')[1]) == Num(now)
  {
    NodeIdSplits(t, now);
    ParseIntOfNatToString(now);
  }

  /** Two ids of known kinds coincide only for the same kind created in the same
      millisecond. */
  lemma NodeIdInjective(t1: NodeType, now1: nat, t2: NodeType, now2: nat)
    requires !t1.Untyped? && !t2.Untyped?
    requires NodeId(t1, now1) == NodeId(t2, now2)
    ensures t1 == t2 && now1 == now2
  {
    NodeIdReadsBack(t1, now1);
    NodeIdReadsBack(t2, now2);
  }

  /** The node `addNode` creates: its kind's default label, empty text, not being
      edited, and draggable (the xyflow default when `draggable` is unset). */
  function NewNode(t: NodeType, now: nat, position: Position): (n: Node)
    ensures n.id == NodeId(t, now) && n.ntype == t && n.position == position
    ensures n.data.caption == DefaultLabel(t) && n.data.text == "" && !n.data.isEditing && n.draggable
  {
    Node(NodeId(t, now), t, position, NodeData(DefaultLabel(t), "", "", "", false), true)
  }

  /** The copy `duplicateNode` makes: a fresh id from the same kind and time `now`,
      shifted 24 units right and down, and nothing else changed. */
  function Clone(node: Node, now: nat): (c: Node)
    ensures c.(id := node.id, position := node.position) == node
    ensures c.id == NodeId(node.ntype, now)
    ensures c.position == Position(node.position.x + 24, node.position.y + 24)
  {
    node.(id := NodeId(node.ntype, now), position := Position(node.position.x + 24, node.position.y + 24))
  }

  // ------------------------------------------------------- per-node updates

  /** `nodes.map((n) => n.id === id ? f(n) : n)`. */
  function UpdateWhere(nodes: seq<Node>, id: string, f: Node -> Node): (r: seq<Node>)
    ensures |r| == |nodes|
    ensures forall i :: 0 <= i < |r| ==> r[i] == if nodes[i].id == id then f(nodes[i]) else nodes[i]
  {
    Map((n: Node) => if n.id == id then f(n) else n, nodes)
  }

  /** An update that keeps every id keeps the set of ids. */
  lemma UpdateWhereKeepsIds(nodes: seq<Node>, id: string, f: Node -> Node)
    requires forall n: Node :: f(n).id == n.id
    ensures Ids(UpdateWhere(nodes, id, f)) == Ids(nodes)
  {
    var r := UpdateWhere(nodes, id, f);
    forall x | x in Ids(nodes)
      ensures x in Ids(r)
    {
      var i :| 0 <= i < |nodes| && nodes[i].id == x;
      assert r[i].id == x;
    }
    forall x | x in Ids(r)
      ensures x in Ids(nodes)
    {
      var i :| 0 <= i < |r| && r[i].id == x;
      assert nodes[i].id == x;
    }
  }

  /** The fields of `node.data` a data change may set; an absent field is kept. */
  datatype DataPatch = DataPatch(caption: Option<string>, text: Option<string>, imageUrl: Option<string>,
                                 output: Option<string>, isEditing: Option<bool>)

  function Pick<T>(o: Option<T>, fallback: T): T {
    if o.Some? then o.value else fallback
  }

  /** `{ ...data, ...patch }`. */
  function Patch(d: NodeData, p: DataPatch): NodeData {
    NodeData(Pick(p.caption, d.caption), Pick(p.text, d.text), Pick(p.imageUrl, d.imageUrl),
             Pick(p.output, d.output), Pick(p.isEditing, d.isEditing))
  }

  /** The single patch with the same effect as `p` followed by `q`: `q`'s fields win. */
  function Then(p: DataPatch, q: DataPatch): DataPatch {
    DataPatch(if q.caption.Some? then q.caption else p.caption,
              if q.text.Some? then q.text else p.text,
              if q.imageUrl.Some? then q.imageUrl else p.imageUrl,
              if q.output.Some? then q.output else p.output,
              if q.isEditing.Some? then q.isEditing else p.isEditing)
  }

  /** `handleNodeDataChange`: merge the patch into the data of the nodes with that id. */
  function ApplyPatch(nodes: seq<Node>, id: string, p: DataPatch): (r: seq<Node>)
    ensures Ids(r) == Ids(nodes)
  {
    UpdateWhereKeepsIds(nodes, id, (n: Node) => n.(data := Patch(n.data, p)));
    UpdateWhere(nodes, id, (n: Node) => n.(data := Patch(n.data, p)))
  }

  /** Two data changes in a row on the same node are one change with the later
      fields winning. */
  lemma ApplyPatchTwice(nodes: seq<Node>, id: string, p: DataPatch, q: DataPatch)
    ensures ApplyPatch(ApplyPatch(nodes, id, p), id, q) == ApplyPatch(nodes, id, Then(p, q))
  {
    var a := ApplyPatch(ApplyPatch(nodes, id, p), id, q);
    var b := ApplyPatch(nodes, id, Then(p, q));
    assert forall i :: 0 <= i < |a| ==> a[i] == b[i];
  }

  /** Applying the same data change twice is applying it once. */
  lemma ApplyPatchIdempotent(nodes: seq<Node>, id: string, p: DataPatch)
    ensures ApplyPatch(ApplyPatch(nodes, id, p), id, p) == ApplyPatch(nodes, id, p)
  {
    ApplyPatchTwice(nodes, id, p, p);
    assert Then(p, p) == p;
  }

  /** The data change `renameNode` makes: start editing the label. */
  const StartEditing := DataPatch(None, None, None, None, Some(true))

  /** The label `saveNodeLabel` keeps: the trimmed input, or the old label when the
      input is blank. */
  function SavedLabel(previous: string, entered: string): (r: string)
    ensures r == previous || r == Trim(entered)
    ensures Trim(entered) != "" ==> r == Trim(entered) && r == Trim(r)
    ensures Trim(entered) == "" ==> r == previous
  {
    TrimIdempotent(entered);
    if Trim(entered) != "" then Trim(entered) else previous
  }

  /** `saveNodeLabel`'s node update: the new label and leaving edit mode on the nodes
      with that id. */
  function Relabel(nodes: seq<Node>, id: string, entered: string): (r: seq<Node>)
    ensures Ids(r) == Ids(nodes)
  {
    var f := (n: Node) => n.(data := n.data.(caption := SavedLabel(n.data.caption, entered), isEditing := false));
    UpdateWhereKeepsIds(nodes, id, f);
    UpdateWhere(nodes, id, f)
  }

  /** Saving a label touches only the nodes with that id, and on them only the label
      and the editing flag. */
  lemma RelabelEffect(nodes: seq<Node>, id: string, entered: string, i: nat)
    requires i < |nodes|
    ensures |Relabel(nodes, id, entered)| == |nodes|
    ensures nodes[i].id != id ==> Relabel(nodes, id, entered)[i] == nodes[i]
    ensures nodes[i].id == id ==>
              var n := Relabel(nodes, id, entered)[i];
              && n.data.caption == SavedLabel(nodes[i].data.caption, entered) && !n.data.isEditing
              && n.(data := nodes[i].data) == nodes[i]
              && n.data.(caption := nodes[i].data.caption, isEditing := nodes[i].data.isEditing) == nodes[i].data
  {
  }

  /** Saving the same label twice is saving it once. */
  lemma RelabelIdempotent(nodes: seq<Node>, id: string, entered: string)
    ensures Relabel(Relabel(nodes, id, entered), id, entered) == Relabel(nodes, id, entered)
  {
    var once := Relabel(nodes, id, entered);
    var twice := Relabel(once, id, entered);
    forall i | 0 <= i < |nodes|
      ensures twice[i] == once[i]
    {
      RelabelEffect(nodes, id, entered, i);
      RelabelEffect(once, id, entered, i);
    }
  }

  /** Entering edit mode and then saving is the same as saving directly. */
  lemma RenameThenSave(nodes: seq<Node>, id: string, entered: string)
    ensures Relabel(ApplyPatch(nodes, id, StartEditing), id, entered) == Relabel(nodes, id, entered)
  {
    var editing := ApplyPatch(nodes, id, StartEditing);
    var a := Relabel(editing, id, entered);
    var b := Relabel(nodes, id, entered);
    forall i | 0 <= i < |nodes|
      ensures a[i] == b[i]
    {
      RelabelEffect(editing, id, entered, i);
      RelabelEffect(nodes, id, entered, i);
    }
  }

  /** `lockNode`'s node update: the nodes with that id stop being draggable. */
  function Lock(nodes: seq<Node>, id: string): (r: seq<Node>)
    ensures Ids(r) == Ids(nodes)
  {
    UpdateWhereKeepsIds(nodes, id, (n: Node) => n.(draggable := false));
    UpdateWhere(nodes, id, (n: Node) => n.(draggable := false))
  }

  /** After locking, no node with that id is draggable; every other node, and every
      other field of the locked ones, is as before; locking twice is locking once. */
  lemma LockEffect(nodes: seq<Node>, id: string)
    ensures forall i :: 0 <= i < |nodes| ==>
              && (nodes[i].id == id ==> !Lock(nodes, id)[i].draggable)
              && Lock(nodes, id)[i].(draggable := nodes[i].draggable) == nodes[i]
    ensures Lock(Lock(nodes, id), id) == Lock(nodes, id)
  {
    var once := Lock(nodes, id);
    assert forall i :: 0 <= i < |nodes| ==> Lock(once, id)[i] == once[i];
  }

  // ---------------------------------------------------------------- removal

  /** `nodes.filter((n) => n.id !== id)`. */
  function RemoveNode(nodes: seq<Node>, id: string): (r: seq<Node>)
    ensures |r| <= |nodes|
    ensures forall i :: 0 <= i < |r| ==> r[i].id != id && r[i] in nodes
  {
    Filter((n: Node) => n.id != id, nodes)
  }

  /** `edges.filter((e) => e.source !== id && e.target !== id)`. */
  function RemoveIncident(edges: seq<Edge>, id: string): (r: seq<Edge>)
    ensures |r| <= |edges|
    ensures forall i :: 0 <= i < |r| ==> r[i].source != id && r[i].target != id && r[i] in edges
  {
    Filter((e: Edge) => e.source != id && e.target != id, edges)
  }

  /** Deleting removes exactly the nodes with that id. */
  lemma RemoveNodeExact(nodes: seq<Node>, id: string)
    ensures forall n :: n in RemoveNode(nodes, id) <==> n in nodes && n.id != id
    ensures Ids(RemoveNode(nodes, id)) == Ids(nodes) - {id}
  {
    var r := RemoveNode(nodes, id);
    forall n | n in nodes && n.id != id
      ensures n in r
    {
      var i :| 0 <= i < |nodes| && nodes[i] == n;
    }
    forall n | n in r
      ensures n in nodes && n.id != id
    {
      var i :| 0 <= i < |r| && r[i] == n;
    }
  }

  /** Deleting removes exactly the edges with that id at either end. */
  lemma RemoveIncidentExact(edges: seq<Edge>, id: string)
    ensures forall e :: e in RemoveIncident(edges, id) <==> e in edges && e.source != id && e.target != id
  {
    var r := RemoveIncident(edges, id);
    forall e | e in edges && e.source != id && e.target != id
      ensures e in r
    {
      var i :| 0 <= i < |edges| && edges[i] == e;
    }
    forall e | e in r
      ensures e in edges && e.source != id && e.target != id
    {
      var i :| 0 <= i < |r| && r[i] == e;
    }
  }

  /** Every edge starts and ends at a node of the list. */
  ghost predicate Attached(nodes: seq<Node>, edges: seq<Edge>) {
    forall i :: 0 <= i < |edges| ==> edges[i].source in Ids(nodes) && edges[i].target in Ids(nodes)
  }

  /** Deleting a node leaves no dangling edge behind and no cycle in an acyclic
      graph. */
  lemma DeleteKeepsGraph(nodes: seq<Node>, edges: seq<Edge>, id: string)
    ensures Attached(nodes, edges) ==> Attached(RemoveNode(nodes, id), RemoveIncident(edges, id))
    ensures Acyclic(edges) ==> Acyclic(RemoveIncident(edges, id))
  {
    RemoveNodeExact(nodes, id);
    var kept := RemoveIncident(edges, id);
    if Attached(nodes, edges) {
      forall i | 0 <= i < |kept|
        ensures kept[i].source in Ids(RemoveNode(nodes, id)) && kept[i].target in Ids(RemoveNode(nodes, id))
      {
        var j :| 0 <= j < |edges| && edges[j] == kept[i];
      }
    }
    if Acyclic(edges) {
      SubgraphKeepsAcyclic(edges, kept);
    }
  }

  // ------------------------------------------------------------ focus view

  /** The node and edge lists put aside while one node is focused. */
  datatype Backup = Backup(nodes: seq<Node>, edges: seq<Edge>)

  /** What the focus actions read and write. */
  datatype View = View(nodes: seq<Node>, edges: seq<Edge>, backup: Option<Backup>)

  /** `viewSingleNode`: show only the first node with that id, and no edges; the
      lists shown before are backed up unless a backup already exists. */
  function Focus(v: View, id: string): (r: View)
    ensures FindNode(v.nodes, id).None? ==> r == v
    ensures FindNode(v.nodes, id).Some? ==>
              && r.nodes == [FindNode(v.nodes, id).value] && r.edges == []
              && r.backup == (if v.backup.Some? then v.backup else Some(Backup(v.nodes, v.edges)))
  {
    match FindNode(v.nodes, id)
    case None => v
    case Some(focused) => View([focused], [], if v.backup.Some? then v.backup else Some(Backup(v.nodes, v.edges)))
  }

  /** `viewAllNodes`: bring back the backed-up lists and drop the backup. */
  function Restore(v: View): (r: View)
    ensures r.backup.None?
    ensures v.backup.None? ==> r == v
  {
    match v.backup
    case None => v
    case Some(b) => View(b.nodes, b.edges, None)
  }

  /** However many nodes are focused in a row, restoring brings back what was shown
      before the first one. */
  lemma FocusThenRestore(v: View, ids: seq<string>)
    requires v.backup.None?
    ensures Restore(FocusAll(v, ids)) == v
  {
    FocusAllBackup(v, ids);
  }

  /** Focusing on each id in turn. */
  function FocusAll(v: View, ids: seq<string>): View
    decreases |ids|
  {
    if ids == [] then v else FocusAll(Focus(v, ids[0]), ids[1..])
  }

  /** Successive focuses keep the first backup: from a state without one, the
      backup is either still absent, with nothing changed, or the lists shown
      before the first focus. */
  lemma {:induction false} FocusAllBackup(v: View, ids: seq<string>)
    requires v.backup.None?
    ensures FocusAll(v, ids) == v || FocusAll(v, ids).backup == Some(Backup(v.nodes, v.edges))
    decreases |ids|
  {
    if ids != [] {
      var w := Focus(v, ids[0]);
      if w == v {
        FocusAllBackup(v, ids[1..]);
      } else {
        FocusAllKeeps(w, ids[1..]);
      }
    }
  }

  /** Once a backup exists, focusing never replaces it. */
  lemma {:induction false} FocusAllKeeps(v: View, ids: seq<string>)
    requires v.backup.Some?
    ensures FocusAll(v, ids).backup == v.backup
    decreases |ids|
  {
    if ids != [] {
      FocusAllKeeps(Focus(v, ids[0]), ids[1..]);
    }
  }

  // --------------------------------------------------------- import, export

  /** A field of a parsed JSON document that must be an array. */
  datatype JsonArray<T> = Array(items: seq<T>) | NotArray

  /** What the file picker and reader deliver: no file chosen, a read error, text
      that `JSON.parse` (or reading a field of a `null` document) rejects with the
      given message, or a document with its `nodes`, `edges` and `name` fields (a
      falsy name as ""). */
  datatype ImportInput =
    | NoFile
    | ReadFailed
    | ParseFailed(reason: string)
    | Parsed(nodes: JsonArray<Node>, edges: JsonArray<Edge>, name: string)

  /** What `importJSON` does with it: nothing, an alert and no change, or a new
      workflow to load. */
  datatype ImportDecision = Ignore | Reject(alert: string) | Accept(nodes: seq<Node>, edges: seq<Edge>, name: string)

  const NodesMissingAlert := "Invalid workflow file: missing or invalid nodes"
  const EdgesMissingAlert := "Invalid workflow file: missing or invalid edges"
  const ImportedAlert := "Workflow imported successfully!"

  /** The checks of `importJSON`: nodes first, then edges; a document is taken only
      when both are arrays. */
  function DecideImport(input: ImportInput): (d: ImportDecision)
    ensures d.Accept? <==> input.Parsed? && input.nodes.Array? && input.edges.Array?
    ensures d.Accept? ==> d.nodes == input.nodes.items && d.edges == input.edges.items && d.name == input.name
    ensures d.Ignore? <==> input.NoFile?
    ensures input.Parsed? && input.nodes.NotArray? ==> d == Reject(NodesMissingAlert)
    ensures input.Parsed? && input.nodes.Array? && input.edges.NotArray? ==> d == Reject(EdgesMissingAlert)
  {
    match input
    case NoFile => Ignore
    case ReadFailed => Reject("Error reading file")
    case ParseFailed(reason) => Reject("Error parsing JSON file: " + reason)
    case Parsed(nodes, edges, name) =>
      if nodes.NotArray? then Reject(NodesMissingAlert)
      else if edges.NotArray? then Reject(EdgesMissingAlert)
      else Accept(nodes.items, edges.items, name)
  }

  /** The document `exportJSON` serialises. */
  datatype ExportedWorkflow = ExportedWorkflow(name: string, nodes: seq<Node>, edges: seq<Edge>, exportedAt: string)

  /** `workflowName || 'Workflow'`. */
  function ExportName(workflowName: string): (r: string)
    ensures r != ""
    ensures workflowName != "" ==> r == workflowName
  {
    if workflowName == "" then "Workflow" else workflowName
  }

  /** `${workflow.name || 'workflow'}-${Date.now()}.json`. */
  function DownloadName(doc: ExportedWorkflow, now: nat): string {
    (if doc.name == "" then "workflow" else doc.name) + "-" + NatToString(now) + ".json"
  }

  /** The exported name is never empty, so the download name's own fallback never
      applies. */
  lemma DownloadNameUsesExportName(workflowName: string, nodes: seq<Node>, edges: seq<Edge>, at: string, now: nat)
    ensures DownloadName(ExportedWorkflow(ExportName(workflowName), nodes, edges, at), now)
            == ExportName(workflowName) + "-" + NatToString(now) + ".json"
  {
  }

  /** Importing an exported workflow brings back its nodes, edges and name; an
      unnamed workflow comes back named "Workflow". */
  lemma ExportThenImport(workflowName: string, nodes: seq<Node>, edges: seq<Edge>, at: string)
    ensures var doc := ExportedWorkflow(ExportName(workflowName), nodes, edges, at);
            DecideImport(Parsed(Array(doc.nodes), Array(doc.edges), doc.name))
            == Accept(nodes, edges, if workflowName == "" then "Workflow" else workflowName)
  {
  }

  // ------------------------------------------------------------ edge colour

  const ImageEdgeColor := "#10b981"
  const TextEdgeColor := "#8b5cf6"
  const LlmEdgeColor := "#ec4899"
  const FallbackEdgeColor := "#a855f7"

  // ------------------------------------------------------------------ store

  class CanvasStore {
    var nodes: seq<Node>
    var edges: seq<Edge>
    var history: seq<seq<Node>>
    var historyStep: nat
    var redoStack: seq<seq<Node>>
    var viewBackup: Option<Backup>
    var workflowName: string

    /** The step always points into the history. */
    predicate Valid()
      reads this
    {
      historyStep < |history|
    }

    /** The history fields as one value. */
    function Timeline(): TL.Timeline<seq<Node>>
      reads this
    {
      TL.Timeline(history, historyStep, redoStack)
    }

    /** The fields the focus actions read and write. */
    function Shown(): View
      reads this
    {
      View(nodes, edges, viewBackup)
    }

    /** The empty canvas: one empty snapshot, nothing to redo, no backup, no name. */
    constructor ()
      ensures Valid() && nodes == [] && edges == [] && viewBackup.None? && workflowName == ""
      ensures Timeline() == TL.Timeline([[]], 0, [])
    {
      nodes := [];
      edges := [];
      history := [[]];
      historyStep := 0;
      redoStack := [];
      viewBackup := None;
      workflowName := "";
    }

    /** Replace the history fields. */
    method SetTimeline(t: TL.Timeline<seq<Node>>)
      requires TL.Valid(t)
      modifies this
      ensures Valid() && Timeline() == t
      ensures nodes == old(nodes) && edges == old(edges) && viewBackup == old(viewBackup) && workflowName == old(workflowName)
    {
      history, historyStep, redoStack := t.history, t.step, t.redo;
    }

    /** `addNode`: append a new node (at `position`, or at the random `fallback`) and
      record the new list. */
    method AddNode(t: NodeType, now: nat, position: Option<Position>, fallback: Position)
      requires Valid() && !t.Untyped?
      modifies this
      ensures Valid()
      ensures nodes == old(nodes) + [NewNode(t, now, Pick(position, fallback))]
      ensures Timeline() == TL.Record(old(Timeline()), nodes)
      ensures edges == old(edges) && viewBackup == old(viewBackup) && workflowName == old(workflowName)
    {
      nodes := nodes + [NewNode(t, now, Pick(position, fallback))];
      SetTimeline(TL.Record(Timeline(), nodes));
    }

    /** `duplicateNode`: append a shifted copy of the first node with that id and
      record the new list; nothing happens for an unknown id. */
    method DuplicateNode(id: string, now: nat)
      requires Valid()
      modifies this
      ensures Valid()
      ensures FindNode(old(nodes), id).None? ==> nodes == old(nodes) && Timeline() == old(Timeline())
      ensures FindNode(old(nodes), id).Some? ==>
                && nodes == old(nodes) + [Clone(FindNode(old(nodes), id).value, now)]
                && Timeline() == TL.Record(old(Timeline()), nodes)
      ensures edges == old(edges) && viewBackup == old(viewBackup) && workflowName == old(workflowName)
    {
      var node := FindNode(nodes, id);
      if node.None? {
        return;
      }
      nodes := nodes + [Clone(node.value, now)];
      SetTimeline(TL.Record(Timeline(), nodes));
    }

    /** `renameNode`: put the nodes with that id into label-editing mode; no history
      entry. */
    method RenameNode(id: string)
      modifies this
      ensures nodes == ApplyPatch(old(nodes), id, StartEditing)
      ensures Timeline() == old(Timeline()) && edges == old(edges)
      ensures viewBackup == old(viewBackup) && workflowName == old(workflowName)
    {
      nodes := ApplyPatch(nodes, id, StartEditing);
    }

    /** `saveNodeLabel`: store the trimmed label (or keep the old one), leave editing
      mode, and record the new list. */
    method SaveNodeLabel(id: string, entered: string)
      requires Valid()
      modifies this
      ensures Valid()
      ensures nodes == Relabel(old(nodes), id, entered)
      ensures Timeline() == TL.Record(old(Timeline()), nodes)
      ensures edges == old(edges) && viewBackup == old(viewBackup) && workflowName == old(workflowName)
    {
      nodes := Relabel(nodes, id, entered);
      SetTimeline(TL.Record(Timeline(), nodes));
    }

    /** `lockNode`: make the nodes with that id undraggable and push the new list
      without clearing the redo stack. */
    method LockNode(id: string)
      requires Valid()
      modifies this
      ensures Valid()
      ensures nodes == Lock(old(nodes), id)
      ensures Timeline() == TL.Push(old(Timeline()), nodes)
      ensures edges == old(edges) && viewBackup == old(viewBackup) && workflowName == old(workflowName)
    {
      nodes := Lock(nodes, id);
      SetTimeline(TL.Push(Timeline(), nodes));
    }

    /** `deleteNode`: drop the nodes with that id and every edge touching it, and push
      the new node list without clearing the redo stack. */
    method DeleteNode(id: string)
      requires Valid()
      modifies this
      ensures Valid()
      ensures nodes == RemoveNode(old(nodes), id) && edges == RemoveIncident(old(edges), id)
      ensures Timeline() == TL.Push(old(Timeline()), nodes)
      ensures viewBackup == old(viewBackup) && workflowName == old(workflowName)
    {
      nodes := RemoveNode(nodes, id);
      edges := RemoveIncident(edges, id);
      SetTimeline(TL.Push(Timeline(), nodes));
    }

    /** `handleNodeDataChange`: merge the patch into the nodes with that id; no
      history entry. */
    method HandleNodeDataChange(id: string, p: DataPatch)
      modifies this
      ensures nodes == ApplyPatch(old(nodes), id, p)
      ensures Timeline() == old(Timeline()) && edges == old(edges)
      ensures viewBackup == old(viewBackup) && workflowName == old(workflowName)
    {
      nodes := ApplyPatch(nodes, id, p);
    }

    /** `handleConnect`: append the styled edge, without consulting the validator and
      without a history entry. */
    method HandleConnect(c: Connection)
      modifies this
      ensures edges == old(edges) + [ConnectEdge(c)]
      ensures nodes == old(nodes) && Timeline() == old(Timeline())
      ensures viewBackup == old(viewBackup) && workflowName == old(workflowName)
    {
      edges := edges + [ConnectEdge(c)];
    }

    /** `handleNodesChange`: take the list xyflow computed from the changes and record
      it. */
    method HandleNodesChange(updated: seq<Node>)
      requires Valid()
      modifies this
      ensures Valid()
      ensures nodes == updated && Timeline() == TL.Record(old(Timeline()), updated)
      ensures edges == old(edges) && viewBackup == old(viewBackup) && workflowName == old(workflowName)
    {
      nodes := updated;
      SetTimeline(TL.Record(Timeline(), nodes));
    }

    /** `handleEdgesChange`: take the edge list xyflow computed; no history entry. */
    method HandleEdgesChange(updated: seq<Edge>)
      modifies this
      ensures edges == updated
      ensures nodes == old(nodes) && Timeline() == old(Timeline())
      ensures viewBackup == old(viewBackup) && workflowName == old(workflowName)
    {
      edges := updated;
    }

    /** `addToHistory`: record a snapshot without changing the nodes shown. */
    method AddToHistory(snapshot: seq<Node>)
      requires Valid()
      modifies this
      ensures Valid()
      ensures Timeline() == TL.Record(old(Timeline()), snapshot)
      ensures nodes == old(nodes) && edges == old(edges)
      ensures viewBackup == old(viewBackup) && workflowName == old(workflowName)
    {
      SetTimeline(TL.Record(Timeline(), snapshot));
    }

    /** `loadWorkflow`: show a saved workflow's lists, leaving the history alone. */
    method LoadWorkflow(newNodes: seq<Node>, newEdges: seq<Edge>)
      modifies this
      ensures nodes == newNodes && edges == newEdges
      ensures Timeline() == old(Timeline()) && viewBackup == old(viewBackup) && workflowName == old(workflowName)
    {
      nodes, edges := newNodes, newEdges;
    }

    /** `undo`: step back and show that snapshot; nothing at the first one. Edges are
      not part of the history and stay as they are. */
    method Undo()
      requires Valid()
      modifies this
      ensures Valid()
      ensures Timeline() == TL.Undo(old(Timeline()))
      ensures nodes == if old(historyStep) > 0 then TL.Current(Timeline()) else old(nodes)
      ensures edges == old(edges) && viewBackup == old(viewBackup) && workflowName == old(workflowName)
    {
      if historyStep > 0 {
        SetTimeline(TL.Undo(Timeline()));
        nodes := history[historyStep];
      }
    }

    /** `redo`: re-append the top of the redo stack and show it; nothing when the
      stack is empty. */
    method Redo()
      requires Valid()
      modifies this
      ensures Valid()
      ensures Timeline() == TL.Redo(old(Timeline()))
      ensures nodes == if old(redoStack) != [] then TL.Current(Timeline()) else old(nodes)
      ensures edges == old(edges) && viewBackup == old(viewBackup) && workflowName == old(workflowName)
    {
      if redoStack != [] {
        SetTimeline(TL.Redo(Timeline()));
        nodes := history[historyStep];
      }
    }

    /** `viewSingleNode`. */
    method ViewSingleNode(id: string)
      modifies this
      ensures Shown() == Focus(old(Shown()), id)
      ensures Timeline() == old(Timeline()) && workflowName == old(workflowName)
    {
      var focused := FindNode(nodes, id);
      if focused.None? {
        return;
      }
      if viewBackup.None? {
        viewBackup := Some(Backup(nodes, edges));
      }
      nodes, edges := [focused.value], [];
    }

    /** `viewAllNodes`. */
    method ViewAllNodes()
      modifies this
      ensures Shown() == Restore(old(Shown()))
      ensures Timeline() == old(Timeline()) && workflowName == old(workflowName)
    {
      if viewBackup.Some? {
        nodes, edges, viewBackup := viewBackup.value.nodes, viewBackup.value.edges, None;
      }
    }

    /** `importJSON` once the file has been read: on acceptance load the document,
      take its name, and record its nodes; otherwise change nothing. Returns the
      alert shown, if any. */
    method ImportJSON(input: ImportInput) returns (alert: Option<string>)
      requires Valid()
      modifies this
      ensures Valid()
      ensures var d := DecideImport(input);
              && (d.Ignore? ==> alert.None?)
              && (d.Reject? ==> alert == Some(d.alert))
              && (d.Accept? ==> alert == Some(ImportedAlert))
      ensures var d := DecideImport(input);
              if d.Accept? then
                && nodes == d.nodes && edges == d.edges && workflowName == d.name
                && Timeline() == TL.Record(old(Timeline()), d.nodes)
              else
                nodes == old(nodes) && edges == old(edges) && workflowName == old(workflowName)
                && Timeline() == old(Timeline())
      ensures viewBackup == old(viewBackup)
    {
      var d := DecideImport(input);
      match d
      case Ignore =>
        return None;
      case Reject(message) =>
        return Some(message);
      case Accept(newNodes, newEdges, name) =>
        nodes, edges, workflowName := newNodes, newEdges, name;
        SetTimeline(TL.Record(Timeline(), newNodes));
        return Some(ImportedAlert);
    }

    /** The document `exportJSON` writes, stamped with `exportedAt`. */
    function ExportDocument(exportedAt: string): (doc: ExportedWorkflow)
      reads this
      ensures doc.nodes == nodes && doc.edges == edges && doc.name != ""
      ensures workflowName != "" ==> doc.name == workflowName
    {
      ExportedWorkflow(ExportName(workflowName), nodes, edges, exportedAt)
    }

    /** `getEdgeColor`: the colour of an edge leaving the node with that id, by the
      node's kind. */
    function GetEdgeColor(sourceNodeId: string): (r: string)
      reads this
      ensures r in {ImageEdgeColor, TextEdgeColor, LlmEdgeColor, FallbackEdgeColor}
      ensures r != FallbackEdgeColor ==> FindNode(nodes, sourceNodeId).Some?
    {
      match FindNode(nodes, sourceNodeId)
      case None => FallbackEdgeColor
      case Some(n) =>
        match n.ntype
        case ImageNode => ImageEdgeColor
        case TextNode => TextEdgeColor
        case LlmNode => LlmEdgeColor
        case Untyped(_) => FallbackEdgeColor
    }
  }

  /** The colour names the kind of the edge's source: each known kind has its own,
      and a missing or unknown source gets the fallback. */
  lemma EdgeColorNamesSourceKind(store: CanvasStore, id: string)
    ensures var found := FindNode(store.nodes, id);
            && (store.GetEdgeColor(id) == ImageEdgeColor <==> found.Some? && found.value.ntype == ImageNode)
            && (store.GetEdgeColor(id) == TextEdgeColor <==> found.Some? && found.value.ntype == TextNode)
            && (store.GetEdgeColor(id) == LlmEdgeColor <==> found.Some? && found.value.ntype == LlmNode)
            && (store.GetEdgeColor(id) == FallbackEdgeColor <==> found.None? || found.value.ntype.Untyped?)
  {
  }

  /** `handleConnect` does not consult the validator: with an edge `a -> b` in
      place, connecting `b -> a` closes a cycle the validator would have refused. */
  lemma ConnectCanCloseCycle(a: string, b: string)
    requires a != "" && b != "" && a != b
    ensures var edges := [ConnectEdge(Connection(a, b, "", ""))];
            && !Reach(edges, b, a)
            && !Acyclic(edges + [ConnectEdge(Connection(b, a, "", ""))])
  {
    var edges := [ConnectEdge(Connection(a, b, "", ""))];
    var both := edges + [ConnectEdge(Connection(b, a, "", ""))];
    assert IsPath(both, [a, b, a]) by {
      assert b in Succ(both, a);
      assert a in Succ(both, b);
    }
    assert Reach(both, a, a);
    forall p | IsPath(edges, p)
      ensures p[0] != b
    {
      assert p[1] in Succ(edges, p[0]);
    }
  }
}
