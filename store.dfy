/** The graph store: the nodes and edges of the canvas and the per-kind
    counters that number new nodes. */
module Store {
  import opened Common

  datatype XY = XY(x: real, y: real)

  /** A node on the canvas: its id, its kind (the `type` ReactFlow renders it
      with), its position and its data object. */
  datatype FlowNode = FlowNode(id: string, kind: string, position: XY, data: Dict<Value>)

  /** An edge between two handles. */
  datatype FlowEdge = FlowEdge(source: string, sourceHandle: string, target: string, targetHandle: string)

  // ---------------------------------------------------------------------
  // Node ids

  /** `${type}-${n}`. */
  function NodeId(kind: string, n: nat): string {
    kind + "-" + NatToString(n)
  }

  /** The '-' after the kind is the last one in a node id. */
  lemma LastDash(kind: string, n: nat)
    ensures NodeId(kind, n)[|kind|] == '-'
    ensures forall j :: |kind| < j < |NodeId(kind, n)| ==> NodeId(kind, n)[j] != '-'
  {
    var d := NatToString(n);
    forall j | |kind| < j < |NodeId(kind, n)| ensures NodeId(kind, n)[j] != '-' {
      assert NodeId(kind, n)[j] == d[j - |kind| - 1];
      assert IsDigit(d[j - |kind| - 1]);
    }
  }

  /** The kind and the number can be read back from a node id: the number
      holds no '-', so the id's last '-' separates the two. */
  lemma NodeIdInjective(k1: string, n1: nat, k2: string, n2: nat)
    requires NodeId(k1, n1) == NodeId(k2, n2)
    ensures k1 == k2 && n1 == n2
  {
    var s := NodeId(k1, n1);
    LastDash(k1, n1);
    LastDash(k2, n2);
    assert |k1| == |k2|;
    assert k1 == s[..|k1|] == k2;
    assert NatToString(n1) == s[|k1| + 1..] == NatToString(n2);
    NatToStringInjective(n1, n2);
  }

  /** The number of times `kind` occurs in `kinds`. */
  function Occurrences(kinds: seq<string>, kind: string): nat {
    multiset(kinds)[kind]
  }

  /** The names handed out for a sequence of requests: each request for a
      kind is named after that kind's running count. */
  function Issued<T>(requests: seq<string>, name: (string, nat) -> T): (ids: seq<T>)
    ensures |ids| == |requests|
    decreases |requests|
  {
    if requests == [] then []
    else
      var last := requests[|requests| - 1];
      Issued(requests[..|requests| - 1], name) + [name(last, Occurrences(requests, last))]
  }

  /** The node ids handed out for a sequence of requests. */
  function IssuedIds(requests: seq<string>): (ids: seq<string>)
    ensures |ids| == |requests|
  {
    Issued(requests, NodeId)
  }

  /** One more request extends the names by the kind's next count. */
  lemma IssuedSnoc<T>(requests: seq<string>, kind: string, name: (string, nat) -> T)
    ensures Issued(requests + [kind], name) ==
      Issued(requests, name) + [name(kind, Occurrences(requests, kind) + 1)]
  {
    var s := requests + [kind];
    assert s[..|s| - 1] == requests;
    assert multiset(s) == multiset(requests) + multiset{kind};
  }

  /** The i-th request is named after the number of requests for its kind
      up to and including it. */
  lemma {:induction false} IssuedAt<T>(requests: seq<string>, name: (string, nat) -> T, i: nat)
    requires i < |requests|
    ensures Issued(requests, name)[i] == name(requests[i], Occurrences(requests[..i + 1], requests[i]))
    decreases |requests|
  {
    var n := |requests|;
    if i < n - 1 {
      var init := requests[..n - 1];
      IssuedAt(init, name, i);
      assert init[..i + 1] == requests[..i + 1];
    } else {
      assert requests[..i + 1] == requests;
    }
  }

  lemma OccurrencesGrow(s: seq<string>, i: nat, j: nat)
    requires i < j < |s| && s[i] == s[j]
    ensures Occurrences(s[..i + 1], s[i]) < Occurrences(s[..j + 1], s[j])
  {
    assert s[..j + 1] == s[..i + 1] + s[i + 1..j] + [s[j]];
  }

  /** With a naming that tells kinds and counts apart, no name is handed out
      twice. */
  lemma IssuedDistinct<T>(requests: seq<string>, name: (string, nat) -> T)
    requires forall k1, n1, k2, n2 :: name(k1, n1) == name(k2, n2) ==> k1 == k2 && n1 == n2
    ensures forall i, j :: 0 <= i < j < |requests| ==> Issued(requests, name)[i] != Issued(requests, name)[j]
  {
    forall i, j | 0 <= i < j < |requests| ensures Issued(requests, name)[i] != Issued(requests, name)[j] {
      IssuedAt(requests, name, i);
      IssuedAt(requests, name, j);
      if requests[i] == requests[j] {
        OccurrencesGrow(requests, i, j);
      }
    }
  }

  /** No id is handed out twice, whatever the order of the requests. */
  lemma IssuedIdsDistinct(requests: seq<string>)
    ensures forall i, j :: 0 <= i < j < |requests| ==> IssuedIds(requests)[i] != IssuedIds(requests)[j]
  {
    var name: (string, nat) -> string := NodeId;
    forall k1, n1, k2, n2 | name(k1, n1) == name(k2, n2) ensures k1 == k2 && n1 == n2 {
      NodeIdInjective(k1, n1, k2, n2);
    }
    IssuedDistinct(requests, name);
  }

  /** One more request extends the issued ids by one. */
  lemma IssuedIdsSnoc(requests: seq<string>, kind: string)
    ensures IssuedIds(requests + [kind]) ==
      IssuedIds(requests) + [NodeId(kind, Occurrences(requests, kind) + 1)]
  {
    IssuedSnoc(requests, kind, NodeId);
  }

  /** The next id for a kind is one no earlier request received. */
  lemma IssuedIdsFresh(requests: seq<string>, kind: string)
    ensures NodeId(kind, Occurrences(requests, kind) + 1) !in IssuedIds(requests)
  {
    var s := requests + [kind];
    IssuedIdsSnoc(requests, kind);
    IssuedIdsDistinct(s);
    forall i | 0 <= i < |requests|
      ensures IssuedIds(requests)[i] != NodeId(kind, Occurrences(requests, kind) + 1)
    {
      assert IssuedIds(requests)[i] == IssuedIds(s)[i];
      assert IssuedIds(s)[|requests|] == NodeId(kind, Occurrences(requests, kind) + 1);
    }
  }

  /** The counters `getNodeID` keeps for a sequence of requests: each
      request sets its kind's counter to the old value (0 when missing)
      plus one. */
  function Counts(requests: seq<string>): map<string, nat>
    decreases |requests|
  {
    if requests == [] then map[]
    else
      var before := Counts(requests[..|requests| - 1]);
      var kind := requests[|requests| - 1];
      before[kind := Lookup(before, kind).GetOr(0) + 1]
  }

  /** A kind has a counter exactly when it was requested, and the counter is
      its number of requests. */
  lemma {:induction false} CountsAreOccurrences(requests: seq<string>, kind: string)
    ensures kind in Counts(requests) <==> kind in requests
    ensures Lookup(Counts(requests), kind).GetOr(0) == Occurrences(requests, kind)
    decreases |requests|
  {
    if requests != [] {
      var init := requests[..|requests| - 1];
      CountsAreOccurrences(init, kind);
      assert requests == init + [requests[|requests| - 1]];
      assert multiset(requests) == multiset(init) + multiset{requests[|requests| - 1]};
    }
  }

  // ---------------------------------------------------------------------
  // The data merge of `updateNodeField`

  /** Every node whose id is `nodeId` gets `data[field] = value`; the others
      are left as they are. */
  function FieldUpdated(nodes: seq<FlowNode>, nodeId: string, field: string, value: Value): seq<FlowNode> {
    seq(|nodes|, i requires 0 <= i < |nodes| =>
      if nodes[i].id == nodeId then nodes[i].(data := Put(nodes[i].data, field, value)) else nodes[i])
  }

  /** The update keeps the number, the order, the ids, kinds and positions
      of the nodes; a matching node reads the new value at `field` and keeps
      every other key, any other node is unchanged. */
  lemma FieldUpdatedEffect(nodes: seq<FlowNode>, nodeId: string, field: string, value: Value)
    ensures |FieldUpdated(nodes, nodeId, field, value)| == |nodes|
    ensures forall i :: 0 <= i < |nodes| ==>
      FieldUpdated(nodes, nodeId, field, value)[i].id == nodes[i].id &&
      FieldUpdated(nodes, nodeId, field, value)[i].kind == nodes[i].kind &&
      FieldUpdated(nodes, nodeId, field, value)[i].position == nodes[i].position
    ensures forall i :: 0 <= i < |nodes| && nodes[i].id == nodeId ==>
      Get(FieldUpdated(nodes, nodeId, field, value)[i].data, field) == Some(value) &&
      forall k :: k != field ==> Get(FieldUpdated(nodes, nodeId, field, value)[i].data, k) == Get(nodes[i].data, k)
    ensures forall i :: 0 <= i < |nodes| && nodes[i].id != nodeId ==>
      FieldUpdated(nodes, nodeId, field, value)[i] == nodes[i]
  {
  }

  /** An id that matches no node changes nothing. */
  lemma FieldUpdatedNoMatch(nodes: seq<FlowNode>, nodeId: string, field: string, value: Value)
    requires forall i :: 0 <= i < |nodes| ==> nodes[i].id != nodeId
    ensures FieldUpdated(nodes, nodeId, field, value) == nodes
  {
  }

  // ---------------------------------------------------------------------
  /** One more request for `kind` raises that kind's counter by one. */
  lemma CountsSnoc(requests: seq<string>, kind: string)
    ensures Counts(requests + [kind]) == Counts(requests)[kind := Lookup(Counts(requests), kind).GetOr(0) + 1]
  {
    assert (requests + [kind])[..|requests|] == requests;
  }

  // The store

  class GraphStore {
    var nodes: seq<FlowNode>
    var edges: seq<FlowEdge>
    var nodeIDs: map<string, nat>
    /** The kinds passed to `getNodeID` so far, oldest first. */
    ghost var requests: seq<string>

    /** The counters are those the requests so far have set. */
    ghost predicate Valid()
      reads this
    {
      nodeIDs == Counts(requests)
    }

    /** `nodeIDs[type]`, read as 0 when the kind has no counter yet. */
    function Count(kind: string): nat
      reads this
    {
      if kind in nodeIDs then nodeIDs[kind] else 0
    }

    /** The empty store. */
    constructor ()
      ensures Valid()
      ensures nodes == [] && edges == [] && nodeIDs == map[] && requests == []
    {
      nodes := [];
      edges := [];
      nodeIDs := map[];
      requests := [];
    }

    /** In a valid store a kind's counter is the number of ids issued for it. */
    lemma CountIsOccurrences(kind: string)
      requires Valid()
      ensures Count(kind) == Occurrences(requests, kind)
      ensures kind in nodeIDs <==> kind in requests
    {
      CountsAreOccurrences(requests, kind);
    }

    /** `getNodeID`: the kind's counter goes up by one (from 0 for a kind
        never seen) and the new count names the node. */
    method GetNodeID(kind: string) returns (id: string)
      requires Valid()
      modifies this
      ensures Valid()
      ensures nodeIDs == old(nodeIDs)[kind := old(Count(kind)) + 1]
      ensures id == NodeId(kind, old(Count(kind)) + 1)
      ensures requests == old(requests) + [kind]
      ensures IssuedIds(requests) == old(IssuedIds(requests)) + [id]
      ensures id !in old(IssuedIds(requests))
      ensures nodes == old(nodes) && edges == old(edges)
    {
      ghost var count := Lookup(nodeIDs, kind).GetOr(0);
      CountsSnoc(requests, kind);
      CountsAreOccurrences(requests, kind);
      IssuedIdsSnoc(requests, kind);
      IssuedIdsFresh(requests, kind);
      var newIDs := nodeIDs;
      if kind !in newIDs {
        newIDs := newIDs[kind := 0];
      }
      newIDs := newIDs[kind := newIDs[kind] + 1];
      assert newIDs == nodeIDs[kind := count + 1];
      nodeIDs := newIDs;
      requests := requests + [kind];
      id := NodeId(kind, newIDs[kind]);
    }

    /** `addNode`: the node is appended, with no check for a duplicate id;
        edges and counters are untouched. */
    method AddNode(node: FlowNode)
      modifies this
      ensures nodes == old(nodes) + [node]
      ensures edges == old(edges) && nodeIDs == old(nodeIDs) && requests == old(requests)
    {
      nodes := nodes + [node];
    }

    /** `updateNodeField`: the `map` over the nodes, merging `field` into the
        data of every node with the given id. */
    method UpdateNodeField(nodeId: string, field: string, value: Value)
      modifies this
      ensures nodes == FieldUpdated(old(nodes), nodeId, field, value)
      ensures edges == old(edges) && nodeIDs == old(nodeIDs) && requests == old(requests)
    {
      var updated: seq<FlowNode> := [];
      for i := 0 to |nodes|
        invariant updated == FieldUpdated(nodes[..i], nodeId, field, value)
      {
        var node := nodes[i];
        if node.id == nodeId {
          node := node.(data := Put(node.data, field, value));
        }
        updated := updated + [node];
      }
      assert nodes[..|nodes|] == nodes;
      nodes := updated;
    }
  }
}
