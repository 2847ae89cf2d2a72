/** The connection validator: the per-type capability table, the type-safety rule
    keyed on the target handle `input-<i>`, the cycle check for a proposed edge,
    the ordered checks of a proposed connection, and the whole-workflow audit. */
module Validation {
  import opened Graph
  import opened JsText
  import opened Seqs

  /** `{ valid: true }` or `{ valid: false, error }`. */
  datatype Check = Valid | Invalid(error: string)

  datatype OutputType = TextOutput | ImageOutput | LlmOutput
  datatype InputType = PromptInput | SystemPromptInput | ImageInput

  /** One row of `NODE_TYPE_INFO`: what a node of that type emits and the inputs it
      declares, in handle order. */
  datatype NodeTypeInfo = NodeTypeInfo(outputs: seq<OutputType>, inputs: seq<InputType>)

  /** `NODE_TYPE_INFO`, keyed by the three known types; no entry for any other tag. */
  function TypeInfo(t: NodeType): (r: Option<NodeTypeInfo>)
    ensures r.Some? <==> !t.Untyped?
    ensures r.Some? ==> |r.value.outputs| == 1
  {
    match t
    case TextNode => Some(NodeTypeInfo([TextOutput], []))
    case ImageNode => Some(NodeTypeInfo([ImageOutput], []))
    case LlmNode => Some(NodeTypeInfo([LlmOutput], [PromptInput, SystemPromptInput, ImageInput]))
    case Untyped(_) => None
  }

  const TextTargetError := "Text nodes cannot receive connections"
  const ImageTargetError := "Image nodes cannot receive connections"
  const ImageToPromptError := "Image nodes cannot connect to prompt or system prompt inputs"
  const TextToImageError := "Text nodes cannot connect to image inputs"
  const LlmToImageError := "LLM output cannot connect to image inputs"
  const SourceNotFoundError := "Source node not found"
  const TargetNotFoundError := "Target node not found"
  const SelfConnectionError := "Cannot connect a node to itself"
  const CycleError := "This connection would create a circular loop. Workflows must be DAGs (Directed Acyclic Graphs)"
  const WorkflowCycleError := "Circular loop detected in workflow. Workflows must be DAGs (Directed Acyclic Graphs)"

  /** `targetHandle ? parseInt(targetHandle.split('-')[1]) : 0`: the input slot a
      handle names; a missing handle is slot 0, and a handle without a `-` or
      without digits after it is NaN. The index is never negative, since the
      piece after the first `-` holds no minus sign. */
  function HandleIndex(targetHandle: string): (r: Parsed)
    ensures targetHandle == "" ==> r == Num(0)
    ensures r.Num? ==> r.value >= 0
  {
    if targetHandle == "" then Num(0)
    else
      var parts := Split(targetHandle, '-');
      if |parts| < 2 then NaN
      else
        ParseIntNonNegative(parts[1]);
        ParseInt(parts[1])
  }

  /** A string without a `-` parses to NaN or to a non-negative number. */
  lemma ParseIntNonNegative(s: string)
    requires '-' !in s
    ensures ParseInt(s).Num? ==> ParseInt(s).value >= 0
  {
    var t := TrimStart(s);
    assert t != [] ==> t[0] == s[|s| - |t|];
    ParseTrimmedUnsigned(t);
  }

  /** The handle id the LLM node renders for input `i`. */
  function InputHandle(i: nat): string {
    "input-" + NatToString(i)
  }

  /** A rendered handle splits at its one `-` into `input` and the index. */
  lemma InputHandleSplits(i: nat)
    ensures Split(InputHandle(i), '-') == ["input", NatToString(i)]
  {
    var digits := NatToString(i);
    assert '-' !in digits;
    assert InputHandle(i) == "input" + ['-'] + digits;
    SplitAtFirst("input", '-', digits);
    SplitNoSeparator(digits, '-');
  }

  /** Reading a rendered handle back gives its index. */
  lemma HandleIndexOfInputHandle(i: nat)
    ensures HandleIndex(InputHandle(i)) == Num(i)
  {
    InputHandleSplits(i);
    ParseIntOfNatToString(i);
  }

  /** The slot rule of `isTypeSafeConnection` for an LLM target: image output only
      into slots 2 and up, text and LLM output only below 2. A NaN index fails both
      `< 2` and `>= 2`, so it is accepted from every source. */
  function SlotRule(source: NodeType, index: Parsed): Check
    requires !source.Untyped?
  {
    match source
    case ImageNode => if index.Num? && index.value < 2 then Invalid(ImageToPromptError) else Valid
    case TextNode => if index.Num? && index.value >= 2 then Invalid(TextToImageError) else Valid
    case LlmNode => if index.Num? && index.value >= 2 then Invalid(LlmToImageError) else Valid
  }

  /** `isTypeSafeConnection`: unknown source type, unknown target type, a text or
      image target, then the slot rule for an LLM target, in that order. */
  function IsTypeSafeConnection(source: NodeType, target: NodeType, targetHandle: string): (r: Check)
    ensures r == Valid ==> !source.Untyped? && target == LlmNode
    ensures r.Invalid? ==> r.error != ""
  {
    if TypeInfo(source).None? then Invalid("Invalid source node type: " + TypeTag(source))
    else if TypeInfo(target).None? then Invalid("Invalid target node type: " + TypeTag(target))
    else if target == TextNode then Invalid(TextTargetError)
    else if target == ImageNode then Invalid(ImageTargetError)
    else SlotRule(source, HandleIndex(targetHandle))
  }

  /** The input a target type declares at slot `index`: slots past the last declared
      one repeat it (the LLM node's image inputs are 2, 3, ...). */
  function SlotInput(info: NodeTypeInfo, index: nat): Option<InputType> {
    if info.inputs == [] then None
    else if index < |info.inputs| then Some(info.inputs[index])
    else Some(info.inputs[|info.inputs| - 1])
  }

  /** Which outputs may feed which inputs: images feed image inputs, text and LLM
      output feed the prompt and system-prompt inputs. */
  predicate Feeds(output: OutputType, input: InputType) {
    (output == ImageOutput) == (input == ImageInput)
  }

  /** The slot rule agrees with the LLM row of the capability table: a source may
      use slot `n` exactly when its output feeds the input declared there. */
  lemma SlotRuleFollowsTable(source: NodeType, n: nat)
    requires !source.Untyped?
    ensures var slot := SlotInput(TypeInfo(LlmNode).value, n);
            slot.Some? && (SlotRule(source, Num(n)) == Valid <==> Feeds(TypeInfo(source).value.outputs[0], slot.value))
  {
    var info := TypeInfo(LlmNode).value;
    assert info.inputs == [PromptInput, SystemPromptInput, ImageInput];
    assert SlotInput(info, n) == Some(if n < 2 then (if n == 0 then PromptInput else SystemPromptInput) else ImageInput);
  }

  /** The type check agrees with the capability table for every numeric handle:
      a connection is accepted exactly when the target declares an input at that
      slot and the source's output may feed it. */
  lemma TypeSafeFollowsTable(source: NodeType, target: NodeType, targetHandle: string)
    requires TypeInfo(source).Some? && TypeInfo(target).Some?
    requires HandleIndex(targetHandle).Num?
    ensures var slot := SlotInput(TypeInfo(target).value, HandleIndex(targetHandle).value);
            IsTypeSafeConnection(source, target, targetHandle) == Valid
            <==> slot.Some? && Feeds(TypeInfo(source).value.outputs[0], slot.value)
  {
    var index := HandleIndex(targetHandle);
    if target == LlmNode {
      assert IsTypeSafeConnection(source, target, targetHandle) == SlotRule(source, index);
      SlotRuleFollowsTable(source, index.value);
    } else {
      assert IsTypeSafeConnection(source, target, targetHandle).Invalid?;
      assert TypeInfo(target).value.inputs == [];
    }
  }

  /** The rejections that come before any look at the handle: an unknown source
      type, then an unknown target type, then a text or image target. */
  lemma TypeSafeRejections(source: NodeType, target: NodeType, targetHandle: string)
    ensures source.Untyped? ==> IsTypeSafeConnection(source, target, targetHandle) == Invalid("Invalid source node type: " + source.tag)
    ensures !source.Untyped? && target.Untyped? ==>
              IsTypeSafeConnection(source, target, targetHandle) == Invalid("Invalid target node type: " + target.tag)
    ensures !source.Untyped? && target == TextNode ==> IsTypeSafeConnection(source, target, targetHandle) == Invalid(TextTargetError)
    ensures !source.Untyped? && target == ImageNode ==> IsTypeSafeConnection(source, target, targetHandle) == Invalid(ImageTargetError)
  {
  }

  /** For a handle that is not a number, only the target type matters: every known
      source may feed an LLM node, and nothing may feed the other two types. */
  lemma TypeSafeNaNHandle(source: NodeType, target: NodeType, targetHandle: string)
    requires TypeInfo(source).Some? && TypeInfo(target).Some?
    requires HandleIndex(targetHandle).NaN?
    ensures IsTypeSafeConnection(source, target, targetHandle) == Valid <==> target == LlmNode
  {
    if target == LlmNode {
      assert IsTypeSafeConnection(source, target, targetHandle) == SlotRule(source, NaN);
    }
  }

  /** The slot rule of an LLM target on any handle naming slot `n` (the rendered
      `input-<n>`, or a missing handle for slot 0): text and LLM output feed slots
      below 2, image output only slots from 2 on. */
  lemma TypeSafeOnSlot(targetHandle: string, n: nat)
    requires HandleIndex(targetHandle) == Num(n)
    ensures IsTypeSafeConnection(TextNode, LlmNode, targetHandle) == Valid <==> n < 2
    ensures IsTypeSafeConnection(ImageNode, LlmNode, targetHandle) == Valid <==> n >= 2
    ensures IsTypeSafeConnection(LlmNode, LlmNode, targetHandle) == Valid <==> n < 2
  {
    assert IsTypeSafeConnection(TextNode, LlmNode, targetHandle) == SlotRule(TextNode, Num(n));
    assert IsTypeSafeConnection(ImageNode, LlmNode, targetHandle) == SlotRule(ImageNode, Num(n));
    assert IsTypeSafeConnection(LlmNode, LlmNode, targetHandle) == SlotRule(LlmNode, Num(n));
  }

  /** The depth-first search inside `wouldCreateCycle`: marks `u` visited and follows
      the edges leaving it, in edge order, stopping as soon as one of them enters
      `goal`. On failure, every node it newly visited has all its successors
      visited and no step into `goal`. */
  method SearchFrom(edges: seq<Edge>, goal: string, u: string, visited: set<string>)
    returns (found: bool, visited': set<string>)
    requires u !in visited
    ensures visited + {u} <= visited'
    ensures found ==> Reach(edges, u, goal)
    ensures !found ==> forall w :: w in visited' - visited ==> Succ(edges, w) <= visited' && goal !in Succ(edges, w)
    decreases Targets(edges) + {u} - visited
  {
    visited' := visited + {u};
    var outgoing := Filter((e: Edge) => e.source == u, edges);
    for i := 0 to |outgoing|
      invariant visited + {u} <= visited'
      invariant forall j :: 0 <= j < i && outgoing[j].target != "" ==> outgoing[j].target in visited' && outgoing[j].target != goal
      invariant forall w :: w in visited' - visited - {u} ==> Succ(edges, w) <= visited' && goal !in Succ(edges, w)
    {
      var e := outgoing[i];
      if e.target == "" {
        continue;
      }
      assert e.target in Succ(edges, u);
      if e.target == goal {
        ReachStep(edges, u, u, goal);
        return true, visited';
      }
      if e.target !in visited' {
        var deeper;
        deeper, visited' := SearchFrom(edges, goal, e.target, visited');
        if deeper {
          ReachPrepend(edges, u, e.target, goal);
          return true, visited';
        }
      }
    }
    forall v | v in Succ(edges, u)
      ensures v in visited' && v != goal
    {
      var e :| e in edges && e.source == u && e.target == v && v != "";
      var j :| 0 <= j < |outgoing| && outgoing[j] == e;
    }
    found := false;
  }

  /** `wouldCreateCycle`: false when either id is empty; otherwise true exactly when
      the proposed source can already be reached from the proposed target. */
  method WouldCreateCycle(edges: seq<Edge>, c: Connection) returns (cycle: bool)
    ensures cycle <==> c.source != "" && c.target != "" && Reach(edges, c.target, c.source)
  {
    if c.source == "" || c.target == "" {
      return false;
    }
    var visited;
    cycle, visited := SearchFrom(edges, c.source, c.target, {});
    if !cycle {
      ClosedNoReach(edges, visited, c.source, c.target);
    }
  }

  /** `validateConnection`: source missing, target missing, self-connection, type
      safety, cycle, in that order; the first failure is the answer. A connection
      it accepts keeps an acyclic graph acyclic. */
  method ValidateConnection(nodes: seq<Node>, edges: seq<Edge>, c: Connection) returns (r: Check)
    ensures FindNode(nodes, c.source).None? ==> r == Invalid(SourceNotFoundError)
    ensures FindNode(nodes, c.source).Some? && FindNode(nodes, c.target).None? ==> r == Invalid(TargetNotFoundError)
    ensures FindNode(nodes, c.source).Some? && FindNode(nodes, c.target).Some? ==>
              r == (if c.source == c.target then Invalid(SelfConnectionError)
                    else
                      var typed := IsTypeSafeConnection(FindNode(nodes, c.source).value.ntype, FindNode(nodes, c.target).value.ntype, c.targetHandle);
                      if typed.Invalid? then typed
                      else if c.source != "" && c.target != "" && Reach(edges, c.target, c.source) then Invalid(CycleError)
                      else Valid)
    ensures r == Valid && Acyclic(edges) ==> Acyclic(edges + [ConnectEdge(c)])
  {
    var sourceNode := FindNode(nodes, c.source);
    var targetNode := FindNode(nodes, c.target);
    if sourceNode.None? {
      return Invalid(SourceNotFoundError);
    }
    if targetNode.None? {
      return Invalid(TargetNotFoundError);
    }
    FindNodeIds(nodes, c.source);
    FindNodeIds(nodes, c.target);
    if sourceNode.value.id == targetNode.value.id {
      return Invalid(SelfConnectionError);
    }
    var typed := IsTypeSafeConnection(sourceNode.value.ntype, targetNode.value.ntype, c.targetHandle);
    if !typed.Valid? {
      return typed;
    }
    var cycle := WouldCreateCycle(edges, c);
    if cycle {
      return Invalid(CycleError);
    }
    if Acyclic(edges) {
      NoReachEmpty(edges, c.target);
      AddEdgeKeepsAcyclic(edges, ConnectEdge(c));
    }
    return Valid;
  }

  /** A two-node cycle: with an edge A -> B in place, B -> A is refused. */
  lemma BackEdgeIsCycle(edges: seq<Edge>, a: string, b: string)
    requires a != "" && b != ""
    requires exists e :: e in edges && e.source == a && e.target == b
    ensures Reach(edges, a, b)
  {
    assert b in Succ(edges, a);
    ReachStep(edges, a, a, b);
  }

  /** Why an edge fails the per-edge part of `validateWorkflow`. */
  datatype AuditFailure =
    | UnknownSource(source: string)
    | UnknownTarget(target: string)
    | SelfLoop(id: string)
    | NotTypeSafe(source: string, target: string, reason: string)

  /** The message `validateWorkflow` pushes for a failure. */
  function AuditMessage(f: AuditFailure): string {
    match f
    case UnknownSource(s) => "Edge references unknown source node: " + s
    case UnknownTarget(t) => "Edge references unknown target node: " + t
    case SelfLoop(id) => "Self-loop detected on node: " + id
    case NotTypeSafe(s, t, reason) => "Invalid connection between " + s + " and " + t + ": " + reason
  }

  /** The per-edge part of `validateWorkflow`: unknown source, unknown target,
      self-loop, then type safety; at most one failure per edge. */
  function EdgeAudit(nodes: seq<Node>, e: Edge): (r: Option<AuditFailure>)
    ensures r.None? ==> FindNode(nodes, e.source).Some? && FindNode(nodes, e.target).Some? && e.source != e.target
    ensures r.Some? && r.value.SelfLoop? ==> e.source == e.target
  {
    var sourceNode := FindNode(nodes, e.source);
    var targetNode := FindNode(nodes, e.target);
    if sourceNode.None? then Some(UnknownSource(e.source))
    else if targetNode.None? then Some(UnknownTarget(e.target))
    else if sourceNode.value.id == targetNode.value.id then Some(SelfLoop(sourceNode.value.id))
    else
      var typed := IsTypeSafeConnection(sourceNode.value.ntype, targetNode.value.ntype, e.targetHandle);
      if typed.Invalid? then Some(NotTypeSafe(e.source, e.target, typed.error))
      else None
  }

  /** An edge passes the audit exactly when both ends exist, they differ, and the
      connection is type-safe. */
  lemma EdgeAuditMeans(nodes: seq<Node>, e: Edge)
    ensures EdgeAudit(nodes, e).None? <==>
              && e.source in Ids(nodes) && e.target in Ids(nodes) && e.source != e.target
              && IsTypeSafeConnection(FindNode(nodes, e.source).value.ntype, FindNode(nodes, e.target).value.ntype, e.targetHandle) == Valid
  {
    FindNodeIds(nodes, e.source);
    FindNodeIds(nodes, e.target);
  }

  /** The values `f` yields along `s`, in order, skipping the elements it yields
      nothing for. */
  function Collect<T, U>(f: T -> Option<U>, s: seq<T>): (r: seq<U>)
    ensures |r| <= |s|
  {
    if s == [] then []
    else Collect(f, s[..|s| - 1]) + (if f(s[|s| - 1]).Some? then [f(s[|s| - 1]).value] else [])
  }

  /** One more element adds its value, if any, at the end. */
  lemma CollectSnoc<T, U>(f: T -> Option<U>, s: seq<T>, i: nat)
    requires i < |s|
    ensures Collect(f, s[..i + 1]) == Collect(f, s[..i]) + (if f(s[i]).Some? then [f(s[i]).value] else [])
  {
    assert s[..i + 1][..i] == s[..i];
  }

  /** Nothing is collected exactly when `f` yields nothing for every element. */
  lemma {:induction false} CollectEmpty<T, U>(f: T -> Option<U>, s: seq<T>)
    ensures Collect(f, s) == [] <==> forall i :: 0 <= i < |s| ==> f(s[i]).None?
  {
    if s != [] {
      var front := s[..|s| - 1];
      CollectEmpty(f, front);
      assert forall i :: 0 <= i < |front| ==> front[i] == s[i];
    }
  }

  /** The message the audit of one edge produces, if it fails. */
  function EdgeMessage(nodes: seq<Node>, e: Edge): Option<string> {
    match EdgeAudit(nodes, e)
    case None => None
    case Some(failure) => Some(AuditMessage(failure))
  }

  /** The messages of the per-edge audit, in edge order. */
  function EdgeErrors(nodes: seq<Node>, edges: seq<Edge>): (errors: seq<string>)
    ensures |errors| <= |edges|
  {
    Collect((e: Edge) => EdgeMessage(nodes, e), edges)
  }

  /** The audit reports nothing exactly when every edge passes it. */
  lemma EdgeErrorsEmpty(nodes: seq<Node>, edges: seq<Edge>)
    ensures EdgeErrors(nodes, edges) == [] <==> forall i :: 0 <= i < |edges| ==> EdgeAudit(nodes, edges[i]).None?
  {
    var f := (e: Edge) => EdgeMessage(nodes, e);
    CollectEmpty(f, edges);
    assert forall i :: 0 <= i < |edges| ==> (f(edges[i]).None? <==> EdgeAudit(nodes, edges[i]).None?);
  }

  /** A walk that has a cycle starts at the source of some edge. */
  lemma CycleStartsAtEdgeSource(edges: seq<Edge>, u: string)
    requires Reach(edges, u, u)
    ensures exists i :: 0 <= i < |edges| && edges[i].source == u && edges[i].target != ""
  {
    var p :| IsPath(edges, p) && p[0] == u && p[|p| - 1] == u;
    assert p[1] in Succ(edges, u);
    var e :| e in edges && e.source == u && e.target == p[1] && p[1] != "";
    var i :| 0 <= i < |edges| && edges[i] == e;
  }

  /** Consecutive nodes of `p` are joined by a step. */
  ghost predicate IsChain(edges: seq<Edge>, p: seq<string>) {
    forall i :: 0 <= i < |p| - 1 ==> p[i + 1] in Succ(edges, p[i])
  }

  /** A chain grows by a step from its last node; its nodes grow by that node. */
  lemma ExtendChain(edges: seq<Edge>, path: seq<string>, u: string)
    requires IsChain(edges, path) && (path != [] ==> u in Succ(edges, path[|path| - 1]))
    ensures IsChain(edges, path + [u])
    ensures (set x | x in path + [u]) == (set x | x in path) + {u}
  {
  }

  /** A step from the end of a chain back into it closes a cycle. */
  lemma ChainClosesCycle(edges: seq<Edge>, path: seq<string>, j: nat, t: string)
    requires IsChain(edges, path) && j < |path| && path[j] == t
    requires t in Succ(edges, path[|path| - 1])
    ensures Reach(edges, t, t)
  {
    var p := path[j..] + [t];
    assert IsPath(edges, p);
  }

  /** A node whose successors are all ranked below `c` can join the ranking at `c`. */
  lemma RankedExtend(edges: seq<Edge>, rank: map<string, nat>, u: string, c: nat)
    requires Ranked(edges, rank) && u !in rank
    requires forall v :: v in Succ(edges, u) ==> v in rank && rank[v] < c
    ensures Ranked(edges, rank[u := c])
  {
    var r := rank[u := c];
    forall b, v | b in r && v in Succ(edges, b)
      ensures v in r && r[v] < r[b]
    {
      if b != u {
        assert b in rank;
      }
    }
  }

  /** Once every edge leaving `u` points into the ranking below `c`, `u` can join it
      at `c`. */
  lemma FinishNode(edges: seq<Edge>, outgoing: seq<Edge>, u: string, rank: map<string, nat>, c: nat)
    requires outgoing == Filter((e: Edge) => e.source == u, edges)
    requires Ranked(edges, rank) && u !in rank
    requires forall b :: b in rank ==> rank[b] < c
    requires forall j :: 0 <= j < |outgoing| && outgoing[j].target != "" ==> outgoing[j].target in rank
    ensures Ranked(edges, rank[u := c])
  {
    forall v | v in Succ(edges, u)
      ensures v in rank && rank[v] < c
    {
      var e :| e in edges && e.source == u && e.target == v && v != "";
      var j :| 0 <= j < |outgoing| && outgoing[j] == e;
    }
    RankedExtend(edges, rank, u, c);
  }

  /** `hasCycleDFS` of `validateWorkflow`: grey nodes are `onStack` (the chain `path`
      from the search root to `u`), black nodes are the rest of `visited`. Each node
      turns black with a rank (its finish time) above that of all its successors,
      which are black by then; a step into a grey node is a cycle. */
  method CycleSearch(edges: seq<Edge>, u: string, visited: set<string>, onStack: set<string>,
                     ghost path: seq<string>, ghost rank: map<string, nat>, ghost clock: nat)
    returns (found: bool, visited': set<string>, onStack': set<string>, ghost rank': map<string, nat>, ghost clock': nat)
    requires u !in visited && onStack <= visited
    requires onStack == set x | x in path
    requires IsChain(edges, path) && (path != [] ==> u in Succ(edges, path[|path| - 1]))
    requires rank.Keys == visited - onStack && Ranked(edges, rank)
    requires forall b :: b in rank ==> rank[b] < clock
    ensures found ==> exists x :: Reach(edges, x, x)
    ensures !found ==> && onStack' == onStack && visited + {u} <= visited'
                       && rank'.Keys == visited' - onStack && Ranked(edges, rank')
                       && forall b :: b in rank' ==> rank'[b] < clock'
    decreases Targets(edges) + {u} - visited
  {
    visited' := visited + {u};
    onStack' := onStack + {u};
    ghost var chain := path + [u];
    ExtendChain(edges, path, u);
    rank', clock' := rank, clock;
    var outgoing := Filter((e: Edge) => e.source == u, edges);
    for i := 0 to |outgoing|
      invariant visited + {u} <= visited' && onStack' == onStack + {u}
      invariant rank'.Keys == visited' - onStack' && Ranked(edges, rank')
      invariant forall b :: b in rank' ==> rank'[b] < clock'
      invariant forall j :: 0 <= j < i && outgoing[j].target != "" ==> outgoing[j].target in rank'
    {
      var e := outgoing[i];
      if e.target == "" {
        continue;
      }
      assert e.target in Succ(edges, u);
      if e.target in onStack' {
        ghost var j :| 0 <= j < |chain| && chain[j] == e.target;
        ChainClosesCycle(edges, chain, j, e.target);
        return true, visited', onStack', rank', clock';
      }
      if e.target !in visited' {
        var deeper;
        deeper, visited', onStack', rank', clock' := CycleSearch(edges, e.target, visited', onStack', chain, rank', clock');
        if deeper {
          return true, visited', onStack', rank', clock';
        }
      }
    }
    FinishNode(edges, outgoing, u, rank', clock');
    rank' := rank'[u := clock'];
    clock' := clock' + 1;
    onStack' := onStack' - {u};
    found := false;
  }

  /** The second half of `validateWorkflow`: a depth-first search from every node not
      yet visited, in node order, stopping at the first cycle found. When every edge
      starts at one of `nodes`, it finds a cycle exactly when there is one. */
  method ScanForCycle(nodes: seq<Node>, edges: seq<Edge>) returns (cyclic: bool)
    requires forall k :: 0 <= k < |edges| ==> edges[k].source in Ids(nodes)
    ensures cyclic <==> !Acyclic(edges)
  {
    var visited: set<string> := {};
    var onStack: set<string> := {};
    ghost var rank: map<string, nat> := map[];
    ghost var clock: nat := 0;
    cyclic := false;
    for i := 0 to |nodes|
      invariant !cyclic && onStack == {} && rank.Keys == visited && Ranked(edges, rank)
      invariant forall b :: b in rank ==> rank[b] < clock
      invariant forall j :: 0 <= j < i ==> nodes[j].id in visited
    {
      if nodes[i].id !in visited {
        var found;
        found, visited, onStack, rank, clock := CycleSearch(edges, nodes[i].id, visited, onStack, [], rank, clock);
        if found {
          cyclic := true;
          break;
        }
      }
    }
    if !cyclic {
      forall u | Reach(edges, u, u)
        ensures false
      {
        CycleStartsAtEdgeSource(edges, u);
        var n :| n in nodes && n.id == u;
        var j :| 0 <= j < |nodes| && nodes[j] == n;
        RankedNoCycle(edges, rank, u);
      }
    }
  }

  /** One turn of the edge loop of `validateWorkflow`: the message pushed for
      `edge`, if it fails the audit. */
  method AuditEdge(nodes: seq<Node>, edge: Edge) returns (message: Option<string>)
    ensures message == EdgeMessage(nodes, edge)
    ensures message.Some? <==> EdgeAudit(nodes, edge).Some?
  {
    var sourceNode := FindNode(nodes, edge.source);
    var targetNode := FindNode(nodes, edge.target);
    if sourceNode.None? {
      return Some("Edge references unknown source node: " + edge.source);
    }
    if targetNode.None? {
      return Some("Edge references unknown target node: " + edge.target);
    }
    if sourceNode.value.id == targetNode.value.id {
      return Some("Self-loop detected on node: " + sourceNode.value.id);
    }
    var typed := IsTypeSafeConnection(sourceNode.value.ntype, targetNode.value.ntype, edge.targetHandle);
    if !typed.Valid? {
      return Some("Invalid connection between " + sourceNode.value.id + " and " + targetNode.value.id + ": " + typed.error);
    }
    return None;
  }

  /** The first half of `validateWorkflow`: one pass over the edges, collecting a
      message for every edge that fails the audit, in edge order. */
  method AuditEdges(nodes: seq<Node>, edges: seq<Edge>) returns (errors: seq<string>)
    ensures errors == EdgeErrors(nodes, edges)
  {
    errors := [];
    for i := 0 to |edges|
      invariant errors == EdgeErrors(nodes, edges[..i])
    {
      CollectSnoc((e: Edge) => EdgeMessage(nodes, e), edges, i);
      var message := AuditEdge(nodes, edges[i]);
      if message.Some? {
        errors := errors + [message.value];
      }
    }
    assert edges[..|edges|] == edges;
  }

  /** `validateWorkflow`: the per-edge audit, then, only when it found nothing, one
      cycle scan that adds at most one message. The workflow is valid exactly when
      every edge passes the audit and the edge relation is acyclic. */
  method ValidateWorkflow(nodes: seq<Node>, edges: seq<Edge>) returns (valid: bool, errors: seq<string>)
    ensures valid <==> errors == []
    ensures errors == EdgeErrors(nodes, edges) + (if EdgeErrors(nodes, edges) == [] && !Acyclic(edges) then [WorkflowCycleError] else [])
    ensures valid <==> (forall i :: 0 <= i < |edges| ==> EdgeAudit(nodes, edges[i]).None?) && Acyclic(edges)
  {
    errors := AuditEdges(nodes, edges);
    EdgeErrorsEmpty(nodes, edges);
    if errors == [] {
      forall k | 0 <= k < |edges|
        ensures edges[k].source in Ids(nodes)
      {
        EdgeAuditMeans(nodes, edges[k]);
      }
      var cyclic := ScanForCycle(nodes, edges);
      if cyclic {
        errors := errors + [WorkflowCycleError];
      }
    }
    valid := |errors| == 0;
  }
}
