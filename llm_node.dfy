/** The LLM node's view of the graph: what its incoming edges feed it (the first
    non-empty prompt, the uploaded images, which kinds of node are attached), the
    checks that decide whether a request may be sent and what it carries, and
    how the reply ends up in the node's own state and in the store. */
module LlmNode {
  import opened Graph
  import opened Seqs
  import Store

  /** `edges.filter((edge) => edge.target === id)`. */
  function Incoming(edges: seq<Edge>, id: string): seq<Edge> {
    Filter((e: Edge) => e.target == id, edges)
  }

  // ------------------------------------------------------------------ prompt

  /** The text a source node offers as a prompt: a text node's text, an LLM node's
      output, nothing from a missing node or any other kind. */
  function SourcePrompt(nodes: seq<Node>, e: Edge): string {
    match FindNode(nodes, e.source)
    case None => ""
    case Some(n) =>
      if n.ntype == TextNode then n.data.text
      else if n.ntype == LlmNode then n.data.output
      else ""
  }

  /** The first non-empty prompt along `edges`, in order; "" when there is none. */
  function FirstPrompt(nodes: seq<Node>, edges: seq<Edge>): (r: string)
    ensures forall k :: 0 <= k < |edges| && SourcePrompt(nodes, edges[k]) != "" ==> r != ""
  {
    if edges == [] then ""
    else if SourcePrompt(nodes, edges[0]) != "" then SourcePrompt(nodes, edges[0])
    else
      assert forall k :: 0 < k < |edges| ==> edges[k] == edges[1..][k - 1];
      FirstPrompt(nodes, edges[1..])
  }

  /** The first prompt is empty exactly when no edge offers one. */
  lemma {:induction false} FirstPromptEmpty(nodes: seq<Node>, edges: seq<Edge>)
    ensures FirstPrompt(nodes, edges) == "" <==> forall k :: 0 <= k < |edges| ==> SourcePrompt(nodes, edges[k]) == ""
  {
    if edges != [] && SourcePrompt(nodes, edges[0]) == "" {
      FirstPromptEmpty(nodes, edges[1..]);
      assert forall k :: 0 < k < |edges| ==> edges[k] == edges[1..][k - 1];
    }
  }

  /** A non-empty first prompt is what the earliest offering edge offers: every
      edge before it offers nothing. */
  lemma {:induction false} FirstPromptEarliest(nodes: seq<Node>, edges: seq<Edge>)
    requires FirstPrompt(nodes, edges) != ""
    ensures exists k :: 0 <= k < |edges| && SourcePrompt(nodes, edges[k]) == FirstPrompt(nodes, edges)
                        && forall j :: 0 <= j < k ==> SourcePrompt(nodes, edges[j]) == ""
  {
    if SourcePrompt(nodes, edges[0]) == "" {
      var rest := edges[1..];
      FirstPromptEarliest(nodes, rest);
      var k :| 0 <= k < |rest| && SourcePrompt(nodes, rest[k]) == FirstPrompt(nodes, rest)
               && forall j :: 0 <= j < k ==> SourcePrompt(nodes, rest[j]) == "";
      forall j | 0 <= j < k + 1
        ensures SourcePrompt(nodes, edges[j]) == ""
      {
        if j > 0 {
          assert edges[j] == rest[j - 1];
        }
      }
      assert edges[k + 1] == rest[k];
    } else {
      assert SourcePrompt(nodes, edges[0]) == FirstPrompt(nodes, edges);
    }
  }

  /** `getConnectedTextInput`: walk the incoming edges in order and return the first
      non-empty text of a text node or output of an LLM node. */
  method GetConnectedTextInput(nodes: seq<Node>, edges: seq<Edge>, id: string) returns (text: string)
    ensures text == FirstPrompt(nodes, Incoming(edges, id))
  {
    var connected := Incoming(edges, id);
    if |connected| == 0 {
      return "";
    }
    for i := 0 to |connected|
      invariant FirstPrompt(nodes, connected[i..]) == FirstPrompt(nodes, connected)
    {
      assert connected[i..][1..] == connected[i + 1..];
      var source := FindNode(nodes, connected[i].source);
      if source.Some? && source.value.ntype == TextNode {
        var candidate := source.value.data.text;
        if candidate != "" {
          return candidate;
        }
      }
      if source.Some? && source.value.ntype == LlmNode {
        var candidate := source.value.data.output;
        if candidate != "" {
          return candidate;
        }
      }
    }
    return "";
  }

  // ------------------------------------------------------------------ images

  /** `{ nodeId, imageUrl }`. */
  datatype ImageRef = ImageRef(nodeId: string, imageUrl: string)

  /** The image an edge brings: from an image node with a non-empty URL only. */
  function ImageOf(nodes: seq<Node>, e: Edge): (r: Option<ImageRef>)
    ensures r.Some? <==> FindNode(nodes, e.source).Some? && FindNode(nodes, e.source).value.ntype == ImageNode
                         && FindNode(nodes, e.source).value.data.imageUrl != ""
  {
    match FindNode(nodes, e.source)
    case None => None
    case Some(n) =>
      if n.ntype == ImageNode && n.data.imageUrl != "" then Some(ImageRef(n.id, n.data.imageUrl)) else None
  }

  /** The image an edge brings carries the edge's source id and that node's URL. */
  lemma ImageOfCarriesSource(nodes: seq<Node>, e: Edge)
    ensures ImageOf(nodes, e).Some? ==>
              ImageOf(nodes, e).value == ImageRef(e.source, FindNode(nodes, e.source).value.data.imageUrl)
  {
  }

  /** The images along `edges`, in edge order. */
  function ImagesFrom(nodes: seq<Node>, edges: seq<Edge>): (r: seq<ImageRef>)
    ensures |r| <= |edges|
  {
    if edges == [] then []
    else
      var last := ImageOf(nodes, edges[|edges| - 1]);
      ImagesFrom(nodes, edges[..|edges| - 1]) + (if last.Some? then [last.value] else [])
  }

  /** Collecting over two stretches of edges is collecting over each, in order. */
  lemma {:induction false} ImagesFromConcat(nodes: seq<Node>, a: seq<Edge>, b: seq<Edge>)
    ensures ImagesFrom(nodes, a + b) == ImagesFrom(nodes, a) + ImagesFrom(nodes, b)
    decreases |b|
  {
    if b == [] {
      assert a + b == a;
    } else {
      assert (a + b)[..|a + b| - 1] == a + b[..|b| - 1];
      ImagesFromConcat(nodes, a, b[..|b| - 1]);
    }
  }

  /** One more edge adds its image, if it brings one, at the end. */
  lemma ImagesFromSnoc(nodes: seq<Node>, edges: seq<Edge>, e: Edge)
    ensures ImagesFrom(nodes, edges + [e]) == ImagesFrom(nodes, edges) + (if ImageOf(nodes, e).Some? then [ImageOf(nodes, e).value] else [])
  {
    assert (edges + [e])[..|edges|] == edges;
  }

  /** Collecting over one more edge of a list appends that edge's image, if any. */
  lemma ImagesFromStep(nodes: seq<Node>, edges: seq<Edge>, i: nat)
    requires i < |edges|
    ensures ImagesFrom(nodes, edges[..i + 1]) == ImagesFrom(nodes, edges[..i])
              + (if ImageOf(nodes, edges[i]).Some? then [ImageOf(nodes, edges[i]).value] else [])
  {
    Seqs.PrefixSnoc(edges, i);
    ImagesFromSnoc(nodes, edges[..i], edges[i]);
  }

  /** An image is collected exactly when some edge brings it. */
  lemma {:induction false} ImagesFromMembership(nodes: seq<Node>, edges: seq<Edge>, img: ImageRef)
    ensures img in ImagesFrom(nodes, edges) <==> exists k :: 0 <= k < |edges| && ImageOf(nodes, edges[k]) == Some(img)
    decreases |edges|
  {
    if edges != [] {
      var front := edges[..|edges| - 1];
      var last := ImageOf(nodes, edges[|edges| - 1]);
      assert ImagesFrom(nodes, edges) == ImagesFrom(nodes, front) + (if last.Some? then [last.value] else []);
      ImagesFromMembership(nodes, front, img);
      if exists k :: 0 <= k < |edges| && ImageOf(nodes, edges[k]) == Some(img) {
        var k :| 0 <= k < |edges| && ImageOf(nodes, edges[k]) == Some(img);
        if k < |front| {
          assert front[k] == edges[k];
        }
      }
      if exists k :: 0 <= k < |front| && ImageOf(nodes, front[k]) == Some(img) {
        var k :| 0 <= k < |front| && ImageOf(nodes, front[k]) == Some(img);
        assert edges[k] == front[k];
      }
    }
  }

  /** Every collected image names the source of some edge, and carries the URL of
      the image node with that id. */
  lemma CollectedImageHasSource(nodes: seq<Node>, edges: seq<Edge>, img: ImageRef)
    requires img in ImagesFrom(nodes, edges)
    ensures exists k :: 0 <= k < |edges| && edges[k].source == img.nodeId
    ensures FindNode(nodes, img.nodeId).Some? && FindNode(nodes, img.nodeId).value.ntype == ImageNode
            && FindNode(nodes, img.nodeId).value.data.imageUrl == img.imageUrl
  {
    ImagesFromMembership(nodes, edges, img);
    var k :| 0 <= k < |edges| && ImageOf(nodes, edges[k]) == Some(img);
    ImageOfCarriesSource(nodes, edges[k]);
  }

  /** One turn of `getConnectedImages`' loop: look the edge's source up, and keep
      its URL when it is an image node that has one. */
  method ImageAt(nodes: seq<Node>, e: Edge) returns (image: Option<ImageRef>)
    ensures image == ImageOf(nodes, e)
  {
    var source := FindNode(nodes, e.source);
    image := None;
    if source.Some? && source.value.ntype == ImageNode {
      var url := source.value.data.imageUrl;
      if url != "" {
        image := Some(ImageRef(source.value.id, url));
      }
    }
  }

  /** The loop of `getConnectedImages` over a list of edges: the image of every edge
      that brings one, in edge order. */
  method ImagesAlong(nodes: seq<Node>, connected: seq<Edge>) returns (images: seq<ImageRef>)
    ensures images == ImagesFrom(nodes, connected)
  {
    images := [];
    for i := 0 to |connected|
      invariant images == ImagesFrom(nodes, connected[..i])
    {
      ImagesFromStep(nodes, connected, i);
      var image := ImageAt(nodes, connected[i]);
      if image.Some? {
        images := images + [image.value];
      }
    }
    assert connected[..|connected|] == connected;
  }

  /** `getConnectedImages`: the images the node's incoming edges bring. */
  method GetConnectedImages(nodes: seq<Node>, edges: seq<Edge>, id: string) returns (images: seq<ImageRef>)
    ensures images == ImagesFrom(nodes, Incoming(edges, id))
  {
    images := ImagesAlong(nodes, Incoming(edges, id));
  }

  // ---------------------------------------------------------- attached kinds

  /** The edge starts at an existing node of kind `kind`. */
  predicate FromKind(nodes: seq<Node>, e: Edge, kind: NodeType) {
    FindNode(nodes, e.source).Some? && FindNode(nodes, e.source).value.ntype == kind
  }

  /** Some edge in `edges` starts at an existing node of kind `kind`. */
  ghost predicate FedBy(nodes: seq<Node>, edges: seq<Edge>, kind: NodeType) {
    exists k :: 0 <= k < |edges| && FromKind(nodes, edges[k], kind)
  }

  /** The loop shared by the two `check...Connected` helpers. */
  method KindConnected(nodes: seq<Node>, edges: seq<Edge>, id: string, kind: NodeType) returns (found: bool)
    ensures found <==> FedBy(nodes, Incoming(edges, id), kind)
  {
    var connected := Incoming(edges, id);
    for i := 0 to |connected|
      invariant forall k :: 0 <= k < i ==> !FromKind(nodes, connected[k], kind)
    {
      var source := FindNode(nodes, connected[i].source);
      if source.Some? && source.value.ntype == kind {
        assert FromKind(nodes, connected[i], kind);
        return true;
      }
    }
    return false;
  }

  /** `checkImageNodeConnected`. */
  method CheckImageNodeConnected(nodes: seq<Node>, edges: seq<Edge>, id: string) returns (found: bool)
    ensures found <==> FedBy(nodes, Incoming(edges, id), ImageNode)
  {
    found := KindConnected(nodes, edges, id, ImageNode);
  }

  /** `checkTextNodeConnected`. */
  method CheckTextNodeConnected(nodes: seq<Node>, edges: seq<Edge>, id: string) returns (found: bool)
    ensures found <==> FedBy(nodes, Incoming(edges, id), TextNode)
  {
    found := KindConnected(nodes, edges, id, TextNode);
  }

  /** An attached kind depends only on the kinds of the sources, not on their data:
      a data change anywhere leaves it as it was. */
  lemma FedByIgnoresData(nodes: seq<Node>, edges: seq<Edge>, kind: NodeType, id: string, p: Store.DataPatch)
    ensures FedBy(Store.ApplyPatch(nodes, id, p), edges, kind) <==> FedBy(nodes, edges, kind)
  {
    forall e | e in edges
      ensures FromKind(Store.ApplyPatch(nodes, id, p), e, kind) <==> FromKind(nodes, e, kind)
    {
      FindAfterPatch(nodes, id, p, e.source);
    }
  }

  /** Looking a node up after a data change finds the same node, with only its data
      possibly changed. */
  lemma {:induction false} FindAfterPatch(nodes: seq<Node>, id: string, p: Store.DataPatch, source: string)
    ensures FindNode(Store.ApplyPatch(nodes, id, p), source).Some? <==> FindNode(nodes, source).Some?
    ensures FindNode(nodes, source).Some? ==>
              FindNode(Store.ApplyPatch(nodes, id, p), source).value.(data := FindNode(nodes, source).value.data)
              == FindNode(nodes, source).value
  {
    var patched := Store.ApplyPatch(nodes, id, p);
    if nodes != [] {
      FindAfterPatch(nodes[1..], id, p, source);
      assert patched[1..] == Store.ApplyPatch(nodes[1..], id, p);
      assert patched[0].id == nodes[0].id;
    }
  }

  // ------------------------------------------------------------- run checks

  const ImageWithoutTextError := "When using an image node, you must also connect a text node to provide a prompt."
  const NoInputError := "No input text found. Please connect a text node to the Prompt input."
  const HttpFailureError := "Failed to generate response"
  const UnknownFailureError := "Unknown error occurred"
  const ThrownFailureError := "Failed to call LLM API"
  const MaxTokens := 1000

  /** The request body; `images` is left out when there are none. */
  datatype Payload = Payload(prompt: string, temperature: real, maxTokens: nat, images: Option<seq<ImageRef>>)

  /** Whether `handleRunModel` sends a request, and with what. */
  datatype Gate = Refuse(error: string) | Send(payload: Payload)

  /** The checks before the request: an image node without a text node is refused
      first, then an empty prompt; otherwise the payload carries the prompt, the
      temperature, 1000 tokens and the images when there are any. */
  function PlanRun(prompt: string, images: seq<ImageRef>, hasImageNode: bool, hasTextNode: bool, temperature: real): (g: Gate)
    ensures g.Send? <==> !(hasImageNode && !hasTextNode) && prompt != ""
    ensures hasImageNode && !hasTextNode ==> g == Refuse(ImageWithoutTextError)
    ensures !(hasImageNode && !hasTextNode) && prompt == "" ==> g == Refuse(NoInputError)
    ensures g.Send? ==> && g.payload.prompt == prompt && g.payload.temperature == temperature
                        && g.payload.maxTokens == MaxTokens
                        && (g.payload.images.Some? <==> images != [])
                        && (g.payload.images.Some? ==> g.payload.images.value == images)
  {
    if hasImageNode && !hasTextNode then Refuse(ImageWithoutTextError)
    else if prompt == "" then Refuse(NoInputError)
    else Send(Payload(prompt, temperature, MaxTokens, if images != [] then Some(images) else None))
  }

  /** A request is only sent with a prompt that one of the node's incoming edges
      supplies, from a text or LLM node, and when an image node is attached a
      text node is attached too. */
  lemma SentPromptHasSource(nodes: seq<Node>, edges: seq<Edge>, id: string, temperature: real)
    ensures var incoming := Incoming(edges, id);
            var g := PlanRun(FirstPrompt(nodes, incoming), ImagesFrom(nodes, incoming),
                             FedBy(nodes, incoming, ImageNode), FedBy(nodes, incoming, TextNode), temperature);
            g.Send? ==>
              && (FedBy(nodes, incoming, ImageNode) ==> FedBy(nodes, incoming, TextNode))
              && exists k :: 0 <= k < |incoming| && SourcePrompt(nodes, incoming[k]) == g.payload.prompt
                             && (FromKind(nodes, incoming[k], TextNode) || FromKind(nodes, incoming[k], LlmNode))
  {
    var incoming := Incoming(edges, id);
    if FirstPrompt(nodes, incoming) != "" {
      FirstPromptEarliest(nodes, incoming);
    }
  }

  // ----------------------------------------------------------- the response

  /** What the request produced: a non-ok response with its `error` field ("" when
      absent), a parsed ok response with its `success` flag and `response` text, or
      an exception, with its message when it is an `Error`. */
  datatype Reply = HttpError(error: string) | Answered(success: bool, response: string) | Thrown(message: Option<string>)

  /** The node's output and error after a reply, and the output stored in the graph
      if any. */
  datatype Settled = Settled(output: string, error: Option<string>, stored: Option<string>)

  /** Only a successful answer is shown and stored; every failure clears the output
      and reports an error. */
  function Settle(reply: Reply): (s: Settled)
    ensures s.stored.Some? <==> reply.Answered? && reply.success
    ensures s.stored.Some? ==> s.output == s.stored.value && s.error.None? && s.output == reply.response
    ensures s.stored.None? ==> s.output == "" && s.error.Some?
    ensures reply.HttpError? || (reply.Answered? && !reply.success) ==> s.error.value != ""
  {
    match reply
    case HttpError(e) => Settled("", Some(if e != "" then e else HttpFailureError), None)
    case Answered(success, response) =>
      if success then Settled(response, None, Some(response))
      else Settled("", Some(UnknownFailureError), None)
    case Thrown(message) =>
      Settled("", Some(if message.Some? then message.value else ThrownFailureError), None)
  }

  /** The component state of one LLM node. */
  /** The first half of `handleRunModel`: gather the node's inputs from the graph
      with the four read-only walks, then decide whether to send. */
  method GatherAndPlan(nodes: seq<Node>, edges: seq<Edge>, id: string, temperature: real) returns (gate: Gate)
    ensures var incoming := Incoming(edges, id);
            gate == PlanRun(FirstPrompt(nodes, incoming), ImagesFrom(nodes, incoming),
                            FedBy(nodes, incoming, ImageNode), FedBy(nodes, incoming, TextNode), temperature)
  {
    var prompt := GetConnectedTextInput(nodes, edges, id);
    var images := GetConnectedImages(nodes, edges, id);
    var hasImageNode := CheckImageNodeConnected(nodes, edges, id);
    var hasTextNode := CheckTextNodeConnected(nodes, edges, id);
    gate := PlanRun(prompt, images, hasImageNode, hasTextNode, temperature);
  }

  class LlmNodeState {
    const id: string
    var output: string
    var error: Option<string>
    var isLoading: bool
    var temperature: real

    /** A node starts showing its stored output, at temperature 0.7, idle. */
    constructor (id: string, data: NodeData)
      ensures this.id == id && output == data.output && error.None? && !isLoading && temperature == 0.7
    {
      this.id := id;
      output := data.output;
      error := None;
      isLoading := false;
      temperature := 0.7;
    }

    /** `handleRunModel`, with the reply to the request as a parameter: gather the
      inputs from the graph the node sees, refuse or send, then settle the reply;
      only a successful answer reaches the store, as a data change of this node. */
    method RunModel(nodes: seq<Node>, edges: seq<Edge>, store: Store.CanvasStore, reply: Reply) returns (sent: Option<Payload>)
      modifies this, store
      ensures var incoming := Incoming(edges, id);
              var g := PlanRun(FirstPrompt(nodes, incoming), ImagesFrom(nodes, incoming),
                               FedBy(nodes, incoming, ImageNode), FedBy(nodes, incoming, TextNode), old(temperature));
              && (g.Refuse? ==> sent.None? && error == Some(g.error) && output == old(output)
                                && store.nodes == old(store.nodes))
              && (g.Send? ==> sent == Some(g.payload) && output == Settle(reply).output && error == Settle(reply).error
                              && store.nodes == (if Settle(reply).stored.Some?
                                                 then Store.ApplyPatch(old(store.nodes), id, OutputPatch(Settle(reply).stored.value))
                                                 else old(store.nodes)))
      ensures !isLoading && temperature == old(temperature)
      ensures store.edges == old(store.edges) && store.Timeline() == old(store.Timeline())
      ensures store.viewBackup == old(store.viewBackup) && store.workflowName == old(store.workflowName)
    {
      isLoading := true;
      error := None;
      var gate := GatherAndPlan(nodes, edges, id, temperature);
      if gate.Refuse? {
        error := Some(gate.error);
        isLoading := false;
        return None;
      }
      var settled := Settle(reply);
      output := settled.output;
      error := settled.error;
      if settled.stored.Some? {
        store.HandleNodeDataChange(id, OutputPatch(settled.stored.value));
      }
      isLoading := false;
      return Some(gate.payload);
    }
  }

  /** `{ output }`: the data change that stores a response. */
  function OutputPatch(response: string): Store.DataPatch {
    Store.DataPatch(None, None, None, Some(response), None)
  }
}
