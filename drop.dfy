/** The pipeline canvas: the table from node type names to node kinds, the
    data a new node starts with, and the drop handler that creates a node
    from a palette item dragged onto the canvas. */
module PipelineUi {
  import opened Common
  import opened Store
  import opened Registry
  import Types
  import Reconciler

  /** The `nodeTypes` table: the name ReactFlow looks a node's `type` up by. */
  function KindName(kind: NodeKind): string {
    match kind
    case CustomInput => "customInput"
    case Llm => "llm"
    case CustomOutput => "customOutput"
    case TextKind => "text"
    case CustomCheckbox => "customCheckbox"
    case MyNode => "myNode"
  }

  /** Looking a `type` up in `nodeTypes`; `None` when the table has no such
      entry. */
  function NodeTypeOf(name: string): (r: Option<NodeKind>)
    ensures r.Some? ==> KindName(r.value) == name
  {
    if name == "customInput" then Some(CustomInput)
    else if name == "llm" then Some(Llm)
    else if name == "customOutput" then Some(CustomOutput)
    else if name == "text" then Some(TextKind)
    else if name == "customCheckbox" then Some(CustomCheckbox)
    else if name == "myNode" then Some(MyNode)
    else None
  }

  /** Every kind is registered under its own name, and no two kinds share a
      name. */
  lemma NodeTypesRoundTrip(kind: NodeKind)
    ensures NodeTypeOf(KindName(kind)) == Some(kind)
  {
  }

  /** A name is in the table exactly when it is one of the six kind names. */
  lemma NodeTypesKeys(name: string)
    ensures NodeTypeOf(name).Some? <==> exists kind: NodeKind :: KindName(kind) == name
  {
    if exists kind: NodeKind :: KindName(kind) == name {
      var kind: NodeKind :| KindName(kind) == name;
      NodeTypesRoundTrip(kind);
    }
  }

  /** `getInitNodeData`: the object `{ id, nodeType }`. */
  function InitNodeData(nodeId: string, kind: string): Dict<Value> {
    [Entry("id", Str(nodeId)), Entry("nodeType", Str(kind))]
  }

  /** The data of a new node has exactly the properties `id` and `nodeType`,
      holding the node's id and its type. */
  lemma InitNodeDataFields(nodeId: string, kind: string)
    ensures KeysDistinct(InitNodeData(nodeId, kind))
    ensures Get(InitNodeData(nodeId, kind), "id") == Some(Str(nodeId))
    ensures Get(InitNodeData(nodeId, kind), "nodeType") == Some(Str(kind))
    ensures KeySet(InitNodeData(nodeId, kind)) == {"id", "nodeType"}
  {
    var d := InitNodeData(nodeId, kind);
    assert d[1..] == [Entry("nodeType", Str(kind))];
    assert d[1..][1..] == [];
    assert KeySet(d[1..]) == {"nodeType"} + KeySet(d[1..][1..]);
  }

  /** Whether a drop creates a node: the payload under
      "application/reactflow" is not empty and its `nodeType` is truthy. */
  predicate Accepted(payload: string, nodeType: Option<string>) {
    payload != "" && TruthyString(nodeType)
  }

  /** `onDrop`. The payload is the raw string read from the drag data; its
      parsed `nodeType` field and the projected drop position (`None`
      without a ReactFlow instance) are parameters. */
  method OnDrop(store: GraphStore, payload: string, nodeType: Option<string>, projected: Option<XY>)
    requires store.Valid()
    modifies store
    ensures store.Valid()
    ensures !Accepted(payload, nodeType) ==>
      store.nodes == old(store.nodes) && store.edges == old(store.edges) &&
      store.nodeIDs == old(store.nodeIDs) && store.requests == old(store.requests)
    ensures Accepted(payload, nodeType) ==>
      var kind := nodeType.value;
      var id := NodeId(kind, old(store.Count(kind)) + 1);
      store.nodes == old(store.nodes) + [FlowNode(id, kind, projected.GetOr(XY(0.0, 0.0)), InitNodeData(id, kind))] &&
      store.edges == old(store.edges) &&
      store.nodeIDs == old(store.nodeIDs)[kind := old(store.Count(kind)) + 1] &&
      store.requests == old(store.requests) + [kind] &&
      id !in old(IssuedIds(store.requests))
  {
    if payload == "" {
      return;
    }
    if nodeType.None? || nodeType.value == "" {
      return;
    }
    var kind := nodeType.value;
    var position := if projected.Some? then projected.value else XY(0.0, 0.0);
    var nodeId := store.GetNodeID(kind);
    var newNode := FlowNode(nodeId, kind, position, InitNodeData(nodeId, kind));
    store.AddNode(newNode);
  }

  /** The name a dropped node of a `custom...` kind shows: the kind without
      "custom" and the node's number, so `customInput-1` shows `Input-1`. */
  lemma DroppedCustomName(rest: string, n: nat)
    ensures DisplayName(NodeId("custom" + rest, n)) == NodeId(rest, n)
  {
    assert NodeId("custom" + rest, n) == "custom" + NodeId(rest, n);
    ReplaceCustomPrefix(NodeId(rest, n));
  }

  /** A dropped `text` node shows its own id, `text-n`. */
  lemma DroppedTextName(n: nat)
    ensures DisplayName(NodeId("text", n)) == NodeId("text", n)
    ensures '{' !in NodeId("text", n)
  {
    var s := NodeId("text", n);
    var digits := NatToString(n);
    assert s == "text-" + digits;
    forall j | 0 <= j < |s| ensures s[j] != 'c' && s[j] != '{' {
      if j >= 5 {
        assert s[j] == digits[j - 5];
        assert IsDigit(digits[j - 5]);
      }
    }
    ReplaceWithoutFirstChar(s, "custom", "");
  }

  /** A dropped text node's first pass places its output handle at half the
      node's height and adds no handle. */
  lemma DroppedTextNodeFirstPass(n: nat, clientHeight: Option<nat>)
    ensures var d := TextNode(NodeId("text", n));
      Reconciler.PassOf(d.inputs, Reconciler.StartValues(d.inputs), d.handles, clientHeight) ==
        Reconciler.Updated([d.handles[0].(style := Types.TopPx(Reconciler.ContainerHeight(clientHeight) / 2.0))])
  {
    var id := NodeId("text", n);
    DroppedTextName(n);
    TextNodeFirstPass(id, clientHeight);
  }
}
