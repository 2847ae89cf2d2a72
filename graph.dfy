/** The workflow graph as the editor holds it: an array of nodes and an array of
    edges (xyflow's `Node` and `Edge` records, restricted to the fields the core
    reads or writes), node lookup by id, and the reachability notions the
    connection validator decides. */
module Graph {

  datatype Option<T> = None | Some(value: T)

  /** The `type` tag of a node. The three known kinds, or any other string the
      graph may carry (for example after an import). */
  datatype NodeType = TextNode | ImageNode | LlmNode | Untyped(tag: string)

  /** The tag string xyflow stores in `node.type`. */
  function TypeTag(t: NodeType): string {
    match t
    case TextNode => "textNode"
    case ImageNode => "imageNode"
    case LlmNode => "llmNode"
    case Untyped(tag) => tag
  }

  /** A node type in canonical form: an `Untyped` tag never spells one of the three
      known kinds, so that `Untyped("textNode")` cannot stand in for `TextNode`. */
  predicate Canonical(t: NodeType) {
    t.Untyped? ==> t.tag != "textNode" && t.tag != "imageNode" && t.tag != "llmNode"
  }

  /** Reads a `node.type` string into its canonical node type. */
  function ParseTag(tag: string): (t: NodeType)
    ensures Canonical(t) && TypeTag(t) == tag
    ensures t.Untyped? <==> tag != "textNode" && tag != "imageNode" && tag != "llmNode"
  {
    if tag == "textNode" then TextNode
    else if tag == "imageNode" then ImageNode
    else if tag == "llmNode" then LlmNode
    else Untyped(tag)
  }

  /** On canonical types the tag determines the type, so `ParseTag` inverts `TypeTag`. */
  lemma TypeTagRoundTrip(t: NodeType)
    requires Canonical(t)
    ensures ParseTag(TypeTag(t)) == t
  {
  }

  /** Editor-space position (the source's floats are taken as integers). */
  datatype Position = Position(x: int, y: int)

  /** `node.data` (`caption` is its `label` field, a reserved word in Dafny). A field
      that JavaScript leaves undefined or null is the empty string here: the core
      only ever tests these fields for truthiness. */
  datatype NodeData = NodeData(caption: string, text: string, imageUrl: string, output: string, isEditing: bool)

  datatype Node = Node(id: string, ntype: NodeType, position: Position, data: NodeData, draggable: bool)

  datatype EdgeStyle = DefaultStyle | Stroke(color: string, width: nat)

  /** An edge; an empty `targetHandle` stands for a missing one. */
  datatype Edge = Edge(source: string, target: string, sourceHandle: string, targetHandle: string, style: EdgeStyle)

  /** xyflow's `Connection`: the endpoints and handles of a proposed edge. */
  datatype Connection = Connection(source: string, target: string, sourceHandle: string, targetHandle: string)

  /** The edge the store's connect handler builds from a connection: the connection's
      fields and a purple stroke of width 3. */
  function ConnectEdge(c: Connection): (e: Edge)
    ensures e.source == c.source && e.target == c.target && e.targetHandle == c.targetHandle
  {
    Edge(c.source, c.target, c.sourceHandle, c.targetHandle, Stroke("purple", 3))
  }

  /** `nodes.find((n) => n.id === id)`: the first node with that id, if any. */
  function FindNode(nodes: seq<Node>, id: string): (r: Option<Node>)
    ensures r.None? <==> forall i :: 0 <= i < |nodes| ==> nodes[i].id != id
    ensures r.Some? ==> r.value in nodes && r.value.id == id
  {
    if nodes == [] then None
    else if nodes[0].id == id then Some(nodes[0])
    else
      FindNode(nodes[1..], id)
  }

  /** The ids of the nodes. */
  function Ids(nodes: seq<Node>): set<string> {
    set n | n in nodes :: n.id
  }

  lemma FindNodeIds(nodes: seq<Node>, id: string)
    ensures FindNode(nodes, id).Some? <==> id in Ids(nodes)
    ensures FindNode(nodes, id).Some? ==> FindNode(nodes, id).value.id == id
  {
    if FindNode(nodes, id).None? {
      assert forall n :: n in nodes ==> n.id != id;
    }
  }

  /** Among several nodes with the same id, `find` returns the first. */
  lemma {:induction false} FindNodeFirst(nodes: seq<Node>, id: string, k: nat)
    requires k < |nodes| && nodes[k].id == id
    requires forall j :: 0 <= j < k ==> nodes[j].id != id
    ensures FindNode(nodes, id) == Some(nodes[k])
  {
    if k > 0 {
      FindNodeFirst(nodes[1..], id, k - 1);
    }
  }

  /** The targets of the edges leaving `u`. Edges with an empty target are skipped,
      as every traversal in the core does (`if (!edge.target) continue`). */
  function Succ(edges: seq<Edge>, u: string): set<string> {
    set e | e in edges && e.source == u && e.target != "" :: e.target
  }

  /** Every node that some traversal step can enter. */
  function Targets(edges: seq<Edge>): set<string> {
    set e | e in edges && e.target != "" :: e.target
  }

  lemma SuccInTargets(edges: seq<Edge>, u: string)
    ensures Succ(edges, u) <= Targets(edges)
  {
  }

  /** Adding one edge adds at most its target to the successors of its source. */
  lemma SuccAppend(edges: seq<Edge>, e: Edge, u: string)
    ensures Succ(edges + [e], u) == Succ(edges, u) + (if e.source == u && e.target != "" then {e.target} else {})
  {
  }

  /** A walk of at least one step along the edges. */
  ghost predicate IsPath(edges: seq<Edge>, p: seq<string>) {
    |p| >= 2 && forall i :: 0 <= i < |p| - 1 ==> p[i + 1] in Succ(edges, p[i])
  }

  /** `b` can be reached from `a` in one step or more. */
  ghost predicate Reach(edges: seq<Edge>, a: string, b: string) {
    exists p :: IsPath(edges, p) && p[0] == a && p[|p| - 1] == b
  }

  /** No walk ends in the empty id. */
  lemma NoReachEmpty(edges: seq<Edge>, a: string)
    ensures !Reach(edges, a, "")
  {
    forall p | IsPath(edges, p) && p[0] == a
      ensures p[|p| - 1] != ""
    {
      assert p[|p| - 1] in Succ(edges, p[|p| - 2]);
    }
  }

  /** `b` is `a` or can be reached from it. */
  ghost predicate ReachOrSame(edges: seq<Edge>, a: string, b: string) {
    a == b || Reach(edges, a, b)
  }

  /** The edge relation has no directed cycle. */
  ghost predicate Acyclic(edges: seq<Edge>) {
    forall u :: !Reach(edges, u, u)
  }

  lemma ReachStep(edges: seq<Edge>, a: string, b: string, c: string)
    requires ReachOrSame(edges, a, b) && c in Succ(edges, b)
    ensures Reach(edges, a, c)
  {
    if a == b {
      assert IsPath(edges, [a, c]);
    } else {
      var p :| IsPath(edges, p) && p[0] == a && p[|p| - 1] == b;
      assert IsPath(edges, p + [c]);
    }
  }

  lemma ReachPrepend(edges: seq<Edge>, a: string, b: string, c: string)
    requires b in Succ(edges, a) && ReachOrSame(edges, b, c)
    ensures Reach(edges, a, c)
  {
    if b == c {
      assert IsPath(edges, [a, c]);
    } else {
      var p :| IsPath(edges, p) && p[0] == b && p[|p| - 1] == c;
      assert IsPath(edges, [a] + p);
    }
  }

  lemma ReachTrans(edges: seq<Edge>, a: string, b: string, c: string)
    requires ReachOrSame(edges, a, b) && ReachOrSame(edges, b, c)
    ensures ReachOrSame(edges, a, c)
  {
    if a != b && b != c {
      var p :| IsPath(edges, p) && p[0] == a && p[|p| - 1] == b;
      var q :| IsPath(edges, q) && q[0] == b && q[|q| - 1] == c;
      var r := p + q[1..];
      assert forall j :: 0 <= j < |q| ==> r[|p| - 1 + j] == q[j];
      assert IsPath(edges, r);
    }
  }

  /** A set of nodes whose successors all lie in the set and none of which has a
      step to `goal`. */
  ghost predicate Closed(edges: seq<Edge>, done: set<string>, goal: string) {
    forall w :: w in done ==> Succ(edges, w) <= done && goal !in Succ(edges, w)
  }

  /** Nothing reachable from a closed set leaves it, so `goal` is not reachable. */
  lemma {:induction false} ClosedNoReach(edges: seq<Edge>, done: set<string>, goal: string, a: string)
    requires Closed(edges, done, goal) && a in done
    ensures !Reach(edges, a, goal)
  {
    forall p | IsPath(edges, p) && p[0] == a
      ensures p[|p| - 1] != goal
    {
      var i := 0;
      while i < |p| - 2
        invariant 0 <= i <= |p| - 2
        invariant p[i] in done
      {
        assert p[i + 1] in Succ(edges, p[i]);
        i := i + 1;
      }
      assert p[|p| - 1] in Succ(edges, p[|p| - 2]);
    }
  }

  /** A ranking that strictly decreases along every edge out of its domain. */
  ghost predicate Ranked(edges: seq<Edge>, rank: map<string, nat>) {
    forall b :: b in rank ==> forall v :: v in Succ(edges, b) ==> v in rank && rank[v] < rank[b]
  }

  /** No node of a ranked domain lies on a cycle: the rank would have to drop below itself. */
  lemma {:induction false} RankedNoCycle(edges: seq<Edge>, rank: map<string, nat>, u: string)
    requires Ranked(edges, rank) && u in rank
    ensures !Reach(edges, u, u)
  {
    forall p | IsPath(edges, p) && p[0] == u
      ensures p[|p| - 1] != u
    {
      var i := 1;
      assert p[1] in Succ(edges, p[0]);
      while i < |p| - 1
        invariant 1 <= i <= |p| - 1
        invariant p[i] in rank && rank[p[i]] < rank[u]
      {
        assert p[i + 1] in Succ(edges, p[i]);
        i := i + 1;
      }
    }
  }

  /** A walk over `edges + [e]` either avoids the new edge or passes through it once
      on the way from its start to its end. */
  lemma {:induction false} PathWithNewEdge(edges: seq<Edge>, e: Edge, p: seq<string>)
    requires IsPath(edges + [e], p)
    ensures || Reach(edges, p[0], p[|p| - 1])
            || (ReachOrSame(edges, p[0], e.source) && ReachOrSame(edges, e.target, p[|p| - 1]))
    decreases |p|
  {
    var n := |p|;
    var x, y := p[n - 2], p[n - 1];
    assert y in Succ(edges + [e], x);
    SuccAppend(edges, e, x);
    if n == 2 {
      if y in Succ(edges, x) {
        assert IsPath(edges, [x, y]);
      }
    } else {
      var q := p[..n - 1];
      assert IsPath(edges + [e], q);
      PathWithNewEdge(edges, e, q);
      if y in Succ(edges, x) {
        if Reach(edges, p[0], x) {
          ReachStep(edges, p[0], x, y);
        } else {
          ReachStep(edges, e.target, x, y);
        }
      } else {
        assert x == e.source && y == e.target;
      }
    }
  }

  /** Adding an edge whose source cannot be reached from its target keeps the graph acyclic. */
  lemma AddEdgeKeepsAcyclic(edges: seq<Edge>, e: Edge)
    requires Acyclic(edges)
    requires e.target != "" ==> e.source != e.target && !Reach(edges, e.target, e.source)
    ensures Acyclic(edges + [e])
  {
    forall u | Reach(edges + [e], u, u)
      ensures false
    {
      var p :| IsPath(edges + [e], p) && p[0] == u && p[|p| - 1] == u;
      if e.target == "" {
        NoEmptyStep(edges, e, p);
        assert Reach(edges, u, u);
      } else {
        PathWithNewEdge(edges, e, p);
        if !Reach(edges, u, u) {
          ReachTrans(edges, e.target, u, e.source);
        }
      }
    }
  }

  /** Walks never enter the empty id, so an edge with an empty target adds no walk. */
  lemma NoEmptyStep(edges: seq<Edge>, e: Edge, p: seq<string>)
    requires IsPath(edges + [e], p) && e.target == ""
    ensures IsPath(edges, p)
  {
    forall i | 0 <= i < |p| - 1
      ensures p[i + 1] in Succ(edges, p[i])
    {
      SuccAppend(edges, e, p[i]);
    }
  }

  /** Dropping edges never creates a walk: a graph whose edges all occur in an
      acyclic graph is acyclic. */
  lemma SubgraphKeepsAcyclic(edges: seq<Edge>, kept: seq<Edge>)
    requires Acyclic(edges)
    requires forall i :: 0 <= i < |kept| ==> kept[i] in edges
    ensures Acyclic(kept)
  {
    forall u | Reach(kept, u, u)
      ensures false
    {
      var p :| IsPath(kept, p) && p[0] == u && p[|p| - 1] == u;
      forall i | 0 <= i < |p| - 1
        ensures p[i + 1] in Succ(edges, p[i])
      {
        var e :| e in kept && e.source == p[i] && e.target == p[i + 1] && e.target != "";
        var k :| 0 <= k < |kept| && kept[k] == e;
      }
      assert IsPath(edges, p);
      assert Reach(edges, u, u);
    }
  }
}
