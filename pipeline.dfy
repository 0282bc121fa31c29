/** The backend's pipeline check: the adjacency dictionary built from the
    submitted nodes and edges, and Kahn's algorithm deciding whether the
    directed graph it describes has a cycle. */
module Pipeline {
  import opened Common

  /** A Python dict from node to the list of its successors, in insertion
      order. */
  type Graph = Dict<seq<string>>

  /** A result, or the `KeyError` raised for a missing key. */
  datatype Outcome<T> = Ok(value: T) | KeyError(key: string)

  // ---------------------------------------------------------------------
  // Graphs, walks and cycles

  /** Every successor listed in the graph is itself a key. */
  predicate Closed(graph: Graph) {
    forall i, j :: 0 <= i < |graph| && 0 <= j < |graph[i].val| ==> graph[i].val[j] in KeySet(graph)
  }

  /** `v in graph[u]`. */
  predicate Edge(graph: Graph, u: string, v: string) {
    Get(graph, u).Some? && v in Get(graph, u).value
  }

  /** Consecutive nodes of `p` are joined by edges. */
  ghost predicate IsWalk(graph: Graph, p: seq<string>) {
    forall i :: 0 <= i < |p| - 1 ==> Edge(graph, p[i], p[i + 1])
  }

  /** A walk of at least one edge that ends where it starts. */
  ghost predicate IsCycle(graph: Graph, p: seq<string>) {
    |p| >= 2 && p[0] == p[|p| - 1] && IsWalk(graph, p)
  }

  ghost predicate Cyclic(graph: Graph) {
    exists p :: IsCycle(graph, p)
  }

  /** In a closed graph every edge ends at a key. */
  lemma ClosedEdges(graph: Graph, u: string, v: string)
    requires Closed(graph)
    ensures Edge(graph, u, v) ==> v in KeySet(graph)
  {
    if Edge(graph, u, v) {
      GetSome(graph, u);
      var i :| 0 <= i < |graph| && graph[i] == Entry(u, Get(graph, u).value);
      var j :| 0 <= j < |graph[i].val| && graph[i].val[j] == v;
    }
  }

  /** A graph without edges has no cycle. */
  lemma NoEdgesAcyclic(graph: Graph)
    requires forall i :: 0 <= i < |graph| ==> graph[i].val == []
    ensures !Cyclic(graph)
  {
    forall u | Get(graph, u).Some? ensures Get(graph, u).value == [] {
      GetSome(graph, u);
      var i :| 0 <= i < |graph| && graph[i] == Entry(u, Get(graph, u).value);
      assert graph[i].val == [];
    }
    forall p | |p| >= 2 ensures !IsWalk(graph, p) {
      assert !Edge(graph, p[0], p[1]);
    }
  }

  /** An edge from a node to itself is a cycle. */
  lemma SelfLoopCyclic(graph: Graph, u: string)
    requires Edge(graph, u, u)
    ensures Cyclic(graph)
  {
    assert IsCycle(graph, [u, u]);
  }

  // ---------------------------------------------------------------------
  // Ranks: every edge going forward rules out cycles

  /** Along a walk whose edges all go up in rank, the rank goes up. */
  lemma {:induction false} RankAlong(graph: Graph, rank: map<string, nat>, p: seq<string>)
    requires forall u, v :: Edge(graph, u, v) ==> u in rank && v in rank && rank[u] < rank[v]
    requires IsWalk(graph, p) && |p| >= 2
    ensures p[0] in rank && p[|p| - 1] in rank && rank[p[0]] < rank[p[|p| - 1]]
    decreases |p|
  {
    assert Edge(graph, p[|p| - 2], p[|p| - 1]);
    if |p| > 2 {
      var q := p[..|p| - 1];
      assert IsWalk(graph, q) by {
        forall i | 0 <= i < |q| - 1 ensures Edge(graph, q[i], q[i + 1]) {
          assert q[i] == p[i] && q[i + 1] == p[i + 1];
        }
      }
      RankAlong(graph, rank, q);
    }
  }

  /** A ranking in which every edge goes up leaves no cycle. */
  lemma RankedAcyclic(graph: Graph, rank: map<string, nat>)
    requires forall u, v :: Edge(graph, u, v) ==> u in rank && v in rank && rank[u] < rank[v]
    ensures !Cyclic(graph)
  {
    forall p | IsWalk(graph, p) && |p| >= 2 ensures p[0] != p[|p| - 1] {
      RankAlong(graph, rank, p);
    }
  }

  // ---------------------------------------------------------------------
  // Every node with a predecessor among its own set closes a cycle

  /** A sequence with distinct elements drawn from `s` is no longer than `s`. */
  lemma {:induction false} DistinctWithin(xs: seq<string>, s: set<string>)
    requires forall i :: 0 <= i < |xs| ==> xs[i] in s
    ensures (forall a, b :: 0 <= a < b < |xs| ==> xs[a] != xs[b]) ==> |xs| <= |s|
    decreases |xs|
  {
    if xs != [] && forall a, b :: 0 <= a < b < |xs| ==> xs[a] != xs[b] {
      var rest := xs[1..];
      forall i | 0 <= i < |rest| ensures rest[i] in s - {xs[0]} {
        assert rest[i] == xs[i + 1];
      }
      DistinctWithin(rest, s - {xs[0]});
      assert forall a, b :: 0 <= a < b < |rest| ==> rest[a] != rest[b] by {
        forall a, b | 0 <= a < b < |rest| ensures rest[a] != rest[b] {
          assert rest[a] == xs[a + 1] && rest[b] == xs[b + 1];
        }
      }
    }
  }

  /** Pigeonhole: more elements than `s` has forces a repetition. */
  lemma FindRepeat(xs: seq<string>, s: set<string>) returns (a: nat, b: nat)
    requires forall i :: 0 <= i < |xs| ==> xs[i] in s
    requires |xs| > |s|
    ensures a < b < |xs| && xs[a] == xs[b]
  {
    DistinctWithin(xs, s);
    a, b :| 0 <= a < b < |xs| && xs[a] == xs[b];
  }

  /** Some node of `s` has an edge to `v`. */
  ghost predicate HasPredecessorIn(graph: Graph, s: set<string>, v: string) {
    exists u :: u in s && Edge(graph, u, v)
  }

  /** Following predecessors inside `s` backwards for `len` steps. */
  lemma {:induction false} BackWalk(graph: Graph, s: set<string>, len: nat) returns (w: seq<string>)
    requires s != {}
    requires forall v {:trigger HasPredecessorIn(graph, s, v)} :: v in s ==> HasPredecessorIn(graph, s, v)
    ensures |w| == len + 1
    ensures forall i :: 0 <= i < |w| ==> w[i] in s
    ensures forall i :: 0 <= i < len ==> Edge(graph, w[i + 1], w[i])
  {
    if len == 0 {
      var v :| v in s;
      w := [v];
    } else {
      var before := BackWalk(graph, s, len - 1);
      assert HasPredecessorIn(graph, s, before[len - 1]);
      var u :| u in s && Edge(graph, u, before[len - 1]);
      w := before + [u];
      forall i | 0 <= i < len ensures Edge(graph, w[i + 1], w[i]) {
        if i < len - 1 {
          assert w[i] == before[i] && w[i + 1] == before[i + 1];
        }
      }
    }
  }

  /** A non-empty set in which every node has a predecessor holds a cycle. */
  lemma CycleFromPredecessors(graph: Graph, s: set<string>) returns (p: seq<string>)
    requires s != {}
    requires forall v {:trigger HasPredecessorIn(graph, s, v)} :: v in s ==> HasPredecessorIn(graph, s, v)
    ensures IsCycle(graph, p)
  {
    var w := BackWalk(graph, s, |s|);
    var a, b := FindRepeat(w, s);
    p := seq(b - a + 1, k requires 0 <= k <= b - a => w[b - k]);
    forall k | 0 <= k < |p| - 1 ensures Edge(graph, p[k], p[k + 1]) {
      assert p[k] == w[b - k] && p[k + 1] == w[b - k - 1];
    }
  }

  // ---------------------------------------------------------------------
  // In-degrees

  /** The number of edges into `v` from the keys in `from`, parallel edges
      counted one by one. */
  function InDegFrom(graph: Graph, from: set<string>, v: string): nat
    decreases |graph|
  {
    if graph == [] then 0
    else
      var last := graph[|graph| - 1];
      InDegFrom(graph[..|graph| - 1], from, v) + (if last.key in from then multiset(last.val)[v] else 0)
  }

  /** Dropping a name that is no key from `from` changes nothing. */
  lemma {:induction false} InDegIgnores(graph: Graph, from: set<string>, u: string, v: string)
    requires forall k :: 0 <= k < |graph| ==> graph[k].key != u
    ensures InDegFrom(graph, from - {u}, v) == InDegFrom(graph, from, v)
    decreases |graph|
  {
    if graph != [] {
      InDegIgnores(graph[..|graph| - 1], from, u, v);
    }
  }

  /** Dropping the key of entry `i` from `from` removes exactly its edges. */
  lemma {:induction false} InDegSplit(graph: Graph, from: set<string>, i: nat, v: string)
    requires KeysDistinct(graph) && i < |graph| && graph[i].key in from
    ensures InDegFrom(graph, from, v) ==
      InDegFrom(graph, from - {graph[i].key}, v) + multiset(graph[i].val)[v]
    decreases |graph|
  {
    var prefix := graph[..|graph| - 1];
    if i == |graph| - 1 {
      InDegIgnores(prefix, from, graph[i].key, v);
    } else {
      assert prefix[i] == graph[i];
      InDegSplit(prefix, from, i, v);
    }
  }

  /** The same, by key. */
  lemma InDegRemove(graph: Graph, from: set<string>, u: string, v: string)
    requires KeysDistinct(graph) && u in from && u in KeySet(graph)
    ensures InDegFrom(graph, from, v) == InDegFrom(graph, from - {u}, v) + multiset(Get(graph, u).value)[v]
  {
    KeySetMembers(graph, u);
    var i :| 0 <= i < |graph| && graph[i].key == u;
    GetAt(graph, i);
    InDegSplit(graph, from, i, v);
  }

  /** An edge from a node in `from` counts. */
  lemma InDegAtLeast(graph: Graph, from: set<string>, u: string, v: string)
    requires KeysDistinct(graph)
    ensures u in from && Edge(graph, u, v) ==> InDegFrom(graph, from, v) >= 1
  {
    if u in from && Edge(graph, u, v) {
      InDegRemove(graph, from, u, v);
    }
  }

  /** A positive count has an edge from `from` behind it. */
  lemma {:induction false} InDegPositive(graph: Graph, from: set<string>, v: string)
    ensures InDegFrom(graph, from, v) > 0 ==>
      exists i :: 0 <= i < |graph| && graph[i].key in from && v in graph[i].val
    decreases |graph|
  {
    if graph != [] {
      var prefix := graph[..|graph| - 1];
      InDegPositive(prefix, from, v);
      if InDegFrom(prefix, from, v) > 0 {
        var i :| 0 <= i < |prefix| && prefix[i].key in from && v in prefix[i].val;
        assert graph[i] == prefix[i];
      }
    }
  }

  /** The number of keys of a dict is its length. */
  lemma {:induction false} KeySetSize<V>(d: Dict<V>)
    requires KeysDistinct(d)
    ensures |KeySet(d)| == |d|
    decreases |d|
  {
    if d != [] {
      assert KeysDistinct(d[1..]) by {
        forall a, b | 0 <= a < b < |d[1..]| ensures d[1..][a].key != d[1..][b].key {
          assert d[1..][a] == d[a + 1] && d[1..][b] == d[b + 1];
        }
      }
      KeySetSize(d[1..]);
      KeySetMembers(d[1..], d[0].key);
      forall i | 0 <= i < |d[1..]| ensures d[1..][i].key != d[0].key {
        assert d[1..][i] == d[i + 1];
      }
    }
  }

  // ---------------------------------------------------------------------
  // `has_cycle`

  /** The inner counting loop for one node: each listed successor adds one
      to its in-degree; one that has no entry raises `KeyError`. */
  method CountSuccessors(indegree: map<string, int>, neighbors: seq<string>)
    returns (r: Outcome<map<string, int>>)
    ensures r.Ok? <==> forall j :: 0 <= j < |neighbors| ==> neighbors[j] in indegree
    ensures r.Ok? ==> (r.value.Keys == indegree.Keys &&
      forall v :: v in indegree ==> r.value[v] == indegree[v] + multiset(neighbors)[v])
    ensures r.KeyError? ==> r.key !in indegree && r.key in neighbors
  {
    var counted := indegree;
    for j := 0 to |neighbors|
      invariant counted.Keys == indegree.Keys
      invariant forall v :: v in indegree ==> counted[v] == indegree[v] + multiset(neighbors[..j])[v]
      invariant forall b :: 0 <= b < j ==> neighbors[b] in indegree
    {
      var neighbor := neighbors[j];
      if neighbor !in counted {
        return KeyError(neighbor);
      }
      assert neighbors[..j + 1] == neighbors[..j] + [neighbor];
      counted := counted[neighbor := counted[neighbor] + 1];
    }
    assert neighbors[..|neighbors|] == neighbors;
    return Ok(counted);
  }

  /** The first two loops of `has_cycle`: every node starts at 0 and each
      listed successor adds one; a successor that is no key raises
      `KeyError`. */
  method CountInDegrees(graph: Graph) returns (r: Outcome<map<string, int>>)
    ensures r.Ok? <==> Closed(graph)
    ensures r.Ok? ==> (r.value.Keys == KeySet(graph) &&
      forall v :: v in KeySet(graph) ==> r.value[v] == InDegFrom(graph, KeySet(graph), v))
    ensures r.KeyError? ==> (r.key !in KeySet(graph) &&
      exists i, j :: 0 <= i < |graph| && 0 <= j < |graph[i].val| && graph[i].val[j] == r.key)
  {
    var keys := KeySet(graph);
    var indegree := map node | node in keys :: 0;
    for i := 0 to |graph|
      invariant indegree.Keys == keys
      invariant forall v :: v in keys ==> indegree[v] == InDegFrom(graph[..i], keys, v)
      invariant forall a, b :: 0 <= a < i && 0 <= b < |graph[a].val| ==> graph[a].val[b] in keys
    {
      var counted := CountSuccessors(indegree, graph[i].val);
      if counted.KeyError? {
        var b :| 0 <= b < |graph[i].val| && graph[i].val[b] == counted.key;
        assert !Closed(graph) by {
          assert !(graph[i].val[b] in keys);
        }
        return KeyError(counted.key);
      }
      forall a, b | 0 <= a < i + 1 && 0 <= b < |graph[a].val| ensures graph[a].val[b] in keys {
        if a == i {
          assert graph[i].val[b] in indegree;
        }
      }
      KeySetMembers(graph, graph[i].key);
      forall v | v in keys ensures counted.value[v] == InDegFrom(graph[..i + 1], keys, v) {
        assert graph[..i + 1][..i] == graph[..i];
      }
      indegree := counted.value;
    }
    assert graph[..|graph|] == graph;
    return Ok(indegree);
  }

  /** `deque(node for node in graph if indegree[node] == 0)`. */
  method InitialQueue(graph: Graph, indegree: map<string, int>) returns (queue: seq<string>)
    requires KeysDistinct(graph) && indegree.Keys == KeySet(graph)
    ensures forall v :: v in queue <==> v in indegree && indegree[v] == 0
    ensures forall a, b :: 0 <= a < b < |queue| ==> queue[a] != queue[b]
  {
    queue := [];
    for i := 0 to |graph|
      invariant forall v :: v in queue <==>
        (exists k :: 0 <= k < i && graph[k].key == v) && v in indegree && indegree[v] == 0
      invariant forall a, b :: 0 <= a < b < |queue| ==> queue[a] != queue[b]
    {
      var node := graph[i].key;
      KeySetMembers(graph, node);
      if indegree[node] == 0 {
        queue := queue + [node];
      }
    }
    forall v ensures v in indegree ==> exists k :: 0 <= k < |graph| && graph[k].key == v {
      KeySetMembers(graph, v);
    }
  }

  /** What the inner loop keeps while `rest` are the successors still to
      release: a key's in-degree counts the edges from pending keys plus its
      occurrences in `rest`; it is 0 exactly for the queued keys and the keys
      no longer pending; the queue holds distinct pending keys. */
  ghost predicate Releasing(graph: Graph, pending: set<string>, rest: seq<string>,
                            indegree: map<string, int>, queue: seq<string>) {
    (forall v :: v in indegree ==> indegree[v] == InDegFrom(graph, pending, v) + multiset(rest)[v]) &&
    (forall v :: v in indegree ==> (indegree[v] == 0 <==> v in queue || v !in pending)) &&
    (forall v :: v in queue ==> v in indegree && v in pending) &&
    (forall a, b :: 0 <= a < b < |queue| ==> queue[a] != queue[b])
  }

  /** One turn of the inner loop: each successor of the popped node loses
      one in-degree, and one that reaches 0 joins the queue. Afterwards the
      in-degrees count only the edges from pending keys. */
  method Release(ghost graph: Graph, ghost pending: set<string>, indegree: map<string, int>,
                 queue: seq<string>, neighbors: seq<string>)
    returns (indegree': map<string, int>, queue': seq<string>)
    requires forall j :: 0 <= j < |neighbors| ==> neighbors[j] in indegree
    requires Releasing(graph, pending, neighbors, indegree, queue)
    ensures indegree'.Keys == indegree.Keys
    ensures Releasing(graph, pending, [], indegree', queue')
  {
    indegree', queue' := indegree, queue;
    for j := 0 to |neighbors|
      invariant indegree'.Keys == indegree.Keys
      invariant Releasing(graph, pending, neighbors[j..], indegree', queue')
    {
      var neighbor := neighbors[j];
      ghost var before, waiting := indegree', queue';
      indegree' := indegree'[neighbor := indegree'[neighbor] - 1];
      if indegree'[neighbor] == 0 {
        queue' := queue' + [neighbor];
      }
      ReleaseStep(graph, pending, neighbors[j..], before, waiting, indegree', queue');
      assert neighbors[j..][1..] == neighbors[j + 1..];
    }
  }

  /** One successor released: its in-degree drops by the one edge from the
      popped node, and it joins the queue when that was its last edge. */
  lemma ReleaseStep(graph: Graph, pending: set<string>, rest: seq<string>,
                    indegree: map<string, int>, queue: seq<string>,
                    indegree': map<string, int>, queue': seq<string>)
    requires rest != [] && rest[0] in indegree
    requires Releasing(graph, pending, rest, indegree, queue)
    requires indegree' == indegree[rest[0] := indegree[rest[0]] - 1]
    requires queue' == if indegree'[rest[0]] == 0 then queue + [rest[0]] else queue
    ensures Releasing(graph, pending, rest[1..], indegree', queue')
  {
    var neighbor := rest[0];
    assert rest == [neighbor] + rest[1..];
    assert InDegFrom(graph, pending, neighbor) >= 0;
  }

  /** When every key has been ranked, with every edge going up in rank,
      the graph has no cycle. */
  lemma DrainedAcyclic(graph: Graph, rank: map<string, nat>)
    requires Closed(graph) && rank.Keys == KeySet(graph)
    requires forall u, v :: Edge(graph, u, v) && v in rank ==> u in rank && rank[u] < rank[v]
    ensures !Cyclic(graph)
  {
    forall u, v | Edge(graph, u, v) ensures u in rank && v in rank && rank[u] < rank[v] {
      ClosedEdges(graph, u, v);
    }
    RankedAcyclic(graph, rank);
  }

  /** When the nodes left over all still have edges coming in from the
      left-over nodes, the graph has a cycle among them. */
  lemma StuckCyclic(graph: Graph, pending: set<string>)
    requires KeysDistinct(graph) && pending != {}
    requires forall v :: v in pending ==> InDegFrom(graph, pending, v) > 0
    ensures Cyclic(graph)
  {
    forall v | v in pending ensures HasPredecessorIn(graph, pending, v) {
      InDegPositive(graph, pending, v);
      var i :| 0 <= i < |graph| && graph[i].key in pending && v in graph[i].val;
      GetAt(graph, i);
    }
    var cycle := CycleFromPredecessors(graph, pending);
  }

  /** What the while loop of `has_cycle` keeps: `pending` holds the keys
      not yet popped, `rank` the pop order of the others. A key's in-degree
      counts the edges from pending keys; it is 0 exactly for the queued and
      the popped keys; the queue holds distinct pending keys; every edge into
      a popped key comes from a key popped before it. */
  ghost predicate KahnState(graph: Graph, indegree: map<string, int>, queue: seq<string>, count: int,
                            pending: set<string>, rank: map<string, nat>) {
    var keys := KeySet(graph);
    indegree.Keys == keys && pending <= keys &&
    (forall v :: v in keys ==> indegree[v] == InDegFrom(graph, pending, v)) &&
    (forall v :: v in keys ==> (indegree[v] == 0 <==> v in queue || v !in pending)) &&
    (forall v :: v in queue ==> v in pending) &&
    (forall a, b :: 0 <= a < b < |queue| ==> queue[a] != queue[b]) &&
    0 <= count && count + |pending| == |graph| &&
    count + |queue| <= |graph| &&
    rank.Keys == keys - pending &&
    (forall v :: v in rank ==> rank[v] < count) &&
    (forall u, v :: Edge(graph, u, v) && v in rank ==> u in rank && rank[u] < rank[v])
  }

  /** Popping the first queued node leaves a state the inner loop starts
      from: the node's successors still count in the in-degrees, and every
      edge into the node comes from a node already popped. */
  lemma PopReady(graph: Graph, indegree: map<string, int>, queue: seq<string>, count: int,
                 pending: set<string>, rank: map<string, nat>)
    requires KeysDistinct(graph) && Closed(graph)
    requires KahnState(graph, indegree, queue, count, pending, rank) && queue != []
    ensures var node := queue[0];
      var neighbors := Get(graph, node).value;
      var pending' := pending - {node};
      node in pending &&
      (forall j :: 0 <= j < |neighbors| ==> neighbors[j] in indegree) &&
      Releasing(graph, pending', neighbors, indegree, queue[1..]) &&
      (forall u :: Edge(graph, u, node) ==> u in rank)
  {
    var node := queue[0];
    var neighbors := Get(graph, node).value;
    var keys := KeySet(graph);
    forall u | Edge(graph, u, node) ensures u in rank {
      InDegAtLeast(graph, pending, u, node);
    }
    forall v | v in keys
      ensures indegree[v] == InDegFrom(graph, pending - {node}, v) + multiset(neighbors)[v]
    {
      InDegRemove(graph, pending, node, v);
    }
    forall j | 0 <= j < |neighbors| ensures neighbors[j] in keys {
      ClosedEdges(graph, node, neighbors[j]);
    }
    forall v | v in queue[1..] ensures v != node {
      var b :| 0 <= b < |queue[1..]| && queue[1..][b] == v;
      assert queue[0] != queue[b + 1];
    }
  }

  /** After the inner loop, the popped node is ranked below every node still
      pending, and the state is again one the while loop keeps. */
  lemma PopDone(graph: Graph, indegree: map<string, int>, queue: seq<string>, count: int,
                pending: set<string>, rank: map<string, nat>,
                indegree': map<string, int>, queue': seq<string>)
    requires KahnState(graph, indegree, queue, count, pending, rank) && queue != []
    requires queue[0] in pending && forall u :: Edge(graph, u, queue[0]) ==> u in rank
    requires indegree'.Keys == indegree.Keys
    requires Releasing(graph, pending - {queue[0]}, [], indegree', queue')
    ensures KahnState(graph, indegree', queue', count + 1, pending - {queue[0]}, rank[queue[0] := count])
  {
    var node := queue[0];
    var pending' := pending - {node};
    var rank' := rank[node := count];
    DistinctWithin(queue', pending');
    assert |pending'| == |pending| - 1;
    assert rank'.Keys == KeySet(graph) - pending';
    RankStep(graph, rank, node, count, rank');
  }

  /** Ranking the popped node at `count` keeps every edge into a ranked
      node going up in rank. */
  lemma RankStep(graph: Graph, rank: map<string, nat>, node: string, count: nat, rank': map<string, nat>)
    requires node !in rank && forall u :: Edge(graph, u, node) ==> u in rank
    requires forall v :: v in rank ==> rank[v] < count
    requires forall u, v :: Edge(graph, u, v) && v in rank ==> u in rank && rank[u] < rank[v]
    requires rank' == rank[node := count]
    ensures forall v :: v in rank' ==> rank'[v] < count + 1
    ensures forall u, v :: Edge(graph, u, v) && v in rank' ==> u in rank' && rank'[u] < rank'[v]
  {
  }

  /** One turn of the while loop: pop the first queued node, count it, and
      release its successors. */
  method Visit(graph: Graph, indegree: map<string, int>, queue: seq<string>, count: int,
               ghost pending: set<string>, ghost rank: map<string, nat>)
    returns (indegree': map<string, int>, queue': seq<string>, count': int,
             ghost pending': set<string>, ghost rank': map<string, nat>)
    requires KeysDistinct(graph) && Closed(graph)
    requires KahnState(graph, indegree, queue, count, pending, rank) && queue != []
    ensures KahnState(graph, indegree', queue', count', pending', rank')
    ensures count' == count + 1 && |pending'| < |pending|
  {
    var node := queue[0];
    var neighbors := Get(graph, node).value;
    PopReady(graph, indegree, queue, count, pending, rank);
    pending' := pending - {node};
    indegree', queue' := Release(graph, pending', indegree, queue[1..], neighbors);
    PopDone(graph, indegree, queue, count, pending, rank, indegree', queue');
    count' := count + 1;
    rank' := rank[node := count];
  }

  /** `has_cycle`: Kahn's algorithm. A successor that is no key raises
      `KeyError`; otherwise the result says whether the graph has a cycle.
      The loop keeps `count <= len(graph)`: no node is queued twice. */
  method HasCycle(graph: Graph) returns (r: Outcome<bool>)
    requires KeysDistinct(graph)
    ensures r.KeyError? <==> !Closed(graph)
    ensures r.KeyError? ==> (r.key !in KeySet(graph) &&
      exists i, j :: 0 <= i < |graph| && 0 <= j < |graph[i].val| && graph[i].val[j] == r.key)
    ensures r.Ok? ==> (r.value <==> Cyclic(graph))
  {
    var counted := CountInDegrees(graph);
    if counted.KeyError? {
      return KeyError(counted.key);
    }
    var indegree := counted.value;
    KeySetSize(graph);
    var queue := InitialQueue(graph, indegree);
    DistinctWithin(queue, KeySet(graph));
    var count := 0;
    ghost var pending := KeySet(graph);
    ghost var rank: map<string, nat> := map[];
    while queue != []
      invariant KahnState(graph, indegree, queue, count, pending, rank)
      invariant count <= |graph|
      decreases |pending|
    {
      indegree, queue, count, pending, rank := Visit(graph, indegree, queue, count, pending, rank);
    }
    if pending == {} {
      DrainedAcyclic(graph, rank);
    } else {
      StuckCyclic(graph, pending);
    }
    return Ok(count != |graph|);
  }

  // ---------------------------------------------------------------------
  // `parse_pipeline`

  /** One submitted edge; a missing `src` or `target` property is `None`. */
  datatype EdgeRecord = EdgeRecord(src: Option<string>, target: Option<string>)

  /** The response: `num_nodes`, `num_edges` and `is_dag`. */
  datatype Summary = Summary(numNodes: nat, numEdges: nat, isDag: bool)

  /** The assignment `graph[node] = []` makes for one node. */
  function EmptyEntry(node: string): Option<Entry<seq<string>>> {
    Some(Entry(node, []))
  }

  /** The graph after the node loop. */
  function NodesGraph(nodes: seq<string>): Graph {
    AssignAll(nodes, EmptyEntry)
  }

  /** `graph[edge['src']].append(edge['target'])`: a missing `src`, a `src`
      that is no node and a missing `target` raise `KeyError`, in that order. */
  function AddEdge(graph: Graph, edge: EdgeRecord): Outcome<Graph> {
    if edge.src.None? then KeyError("src")
    else if Get(graph, edge.src.value).None? then KeyError(edge.src.value)
    else if edge.target.None? then KeyError("target")
    else Ok(Put(graph, edge.src.value, Get(graph, edge.src.value).value + [edge.target.value]))
  }

  /** The graph after the edge loop, or the first `KeyError`. */
  function EdgesAdded(graph: Graph, edges: seq<EdgeRecord>): Outcome<Graph>
    decreases |edges|
  {
    if edges == [] then Ok(graph)
    else
      match EdgesAdded(graph, edges[..|edges| - 1])
      case KeyError(k) => KeyError(k)
      case Ok(g) => AddEdge(g, edges[|edges| - 1])
  }

  /** The targets of the edges leaving `k`, in submission order, repeats
      kept. */
  function Targets(edges: seq<EdgeRecord>, k: string): seq<string>
    decreases |edges|
  {
    if edges == [] then []
    else
      var e := edges[|edges| - 1];
      Targets(edges[..|edges| - 1], k) + (if e.src == Some(k) && e.target.Some? then [e.target.value] else [])
  }

  /** An edge `parse_pipeline` accepts: both properties present, the source
      among the keys. */
  predicate WellFormedEdge(keys: set<string>, e: EdgeRecord) {
    e.src.Some? && e.src.value in keys && e.target.Some?
  }

  /** The edge loop fails exactly when some edge is not well formed; when it
      succeeds the keys are unchanged. */
  lemma {:induction false} EdgesAddedOk(graph: Graph, edges: seq<EdgeRecord>)
    ensures EdgesAdded(graph, edges).Ok? <==>
      forall i :: 0 <= i < |edges| ==> WellFormedEdge(KeySet(graph), edges[i])
    ensures EdgesAdded(graph, edges).Ok? ==> KeySet(EdgesAdded(graph, edges).value) == KeySet(graph)
    decreases |edges|
  {
    if edges != [] {
      var prefix := edges[..|edges| - 1];
      EdgesAddedOk(graph, prefix);
      assert forall i :: 0 <= i < |prefix| ==> prefix[i] == edges[i];
    }
  }

  /** When the edge loop succeeds every list has the targets of the edges
      leaving that key appended, parallel edges repeated, and no key is
      repeated. */
  lemma {:induction false} EdgesAddedEffect(graph: Graph, edges: seq<EdgeRecord>)
    ensures EdgesAdded(graph, edges).Ok? ==>
      forall k :: k in KeySet(graph) ==>
        Get(EdgesAdded(graph, edges).value, k) == Some(Get(graph, k).value + Targets(edges, k))
    ensures EdgesAdded(graph, edges).Ok? && KeysDistinct(graph) ==> KeysDistinct(EdgesAdded(graph, edges).value)
    decreases |edges|
  {
    if edges == [] {
      forall k | k in KeySet(graph)
        ensures Get(graph, k) == Some(Get(graph, k).value + Targets(edges, k))
      {
        assert Get(graph, k).value + [] == Get(graph, k).value;
      }
    } else {
      var prefix := edges[..|edges| - 1];
      var e := edges[|edges| - 1];
      EdgesAddedEffect(graph, prefix);
      EdgesAddedOk(graph, prefix);
      var before := EdgesAdded(graph, prefix);
      if before.Ok? {
        var h := before.value;
        if e.src.Some? && e.src.value in KeySet(graph) && e.target.Some? {
          var src := e.src.value;
          assert Get(h, src).Some?;
          var after := Put(h, src, Get(h, src).value + [e.target.value]);
          assert EdgesAdded(graph, edges) == Ok(after);
          forall k | k in KeySet(graph)
            ensures Get(after, k) == Some(Get(graph, k).value + Targets(edges, k))
          {
            assert Get(h, k) == Some(Get(graph, k).value + Targets(prefix, k));
            if k == src {
              assert Targets(edges, k) == Targets(prefix, k) + [e.target.value];
              assert Get(graph, k).value + Targets(edges, k) ==
                (Get(graph, k).value + Targets(prefix, k)) + [e.target.value];
            } else {
              assert Targets(edges, k) == Targets(prefix, k);
            }
          }
          if KeysDistinct(graph) {
            PutKeysDistinct(h, src, Get(h, src).value + [e.target.value]);
          }
        }
      }
    }
  }

  /** After the node loop the keys are the distinct submitted nodes, each
      with an empty list; a repeated node is one key. */
  lemma NodesGraphEffect(nodes: seq<string>)
    ensures KeysDistinct(NodesGraph(nodes))
    ensures forall k :: Get(NodesGraph(nodes), k).Some? <==> k in nodes
    ensures forall k :: k in nodes ==> Get(NodesGraph(nodes), k) == Some([])
  {
    AssignAllKeysDistinct(nodes, EmptyEntry);
    forall k ensures (Get(NodesGraph(nodes), k).Some? <==> k in nodes) &&
                     (k in nodes ==> Get(NodesGraph(nodes), k) == Some([]))
    {
      AssignAllGet(nodes, EmptyEntry, k);
      assert forall i :: 0 <= i < |nodes| ==> (Assigns(EmptyEntry, nodes[i], k) <==> nodes[i] == k);
    }
  }

  /** Once the edge loop has raised, later edges do not matter. */
  lemma {:induction false} EdgesAddedStops(graph: Graph, edges: seq<EdgeRecord>, i: nat)
    requires i <= |edges| && EdgesAdded(graph, edges[..i]).KeyError?
    ensures EdgesAdded(graph, edges) == EdgesAdded(graph, edges[..i])
    decreases |edges| - i
  {
    if i < |edges| {
      assert edges[..|edges|][..i] == edges[..i];
      var prefix := edges[..|edges| - 1];
      assert prefix[..i] == edges[..i];
      EdgesAddedStops(graph, prefix, i);
    } else {
      assert edges[..i] == edges;
    }
  }

  /** The node loop. */
  method BuildNodes(nodes: seq<string>) returns (graph: Graph)
    ensures graph == NodesGraph(nodes)
  {
    graph := [];
    for i := 0 to |nodes|
      invariant graph == NodesGraph(nodes[..i])
    {
      assert nodes[..i + 1][..i] == nodes[..i];
      graph := Put(graph, nodes[i], []);
    }
    assert nodes[..|nodes|] == nodes;
  }

  /** The edge loop. */
  method BuildEdges(graph: Graph, edges: seq<EdgeRecord>) returns (r: Outcome<Graph>)
    ensures r == EdgesAdded(graph, edges)
  {
    var g := graph;
    for i := 0 to |edges|
      invariant EdgesAdded(graph, edges[..i]) == Ok(g)
    {
      assert edges[..i + 1][..i] == edges[..i];
      var edge := edges[i];
      if edge.src.None? {
        EdgesAddedStops(graph, edges, i + 1);
        return KeyError("src");
      }
      var successors := Get(g, edge.src.value);
      if successors.None? {
        EdgesAddedStops(graph, edges, i + 1);
        return KeyError(edge.src.value);
      }
      if edge.target.None? {
        EdgesAddedStops(graph, edges, i + 1);
        return KeyError("target");
      }
      g := Put(g, edge.src.value, successors.value + [edge.target.value]);
    }
    assert edges[..|edges|] == edges;
    return Ok(g);
  }

  /** The request body's `nodes` and `edges`, `None` when absent. */
  datatype Request = Request(nodes: Option<seq<string>>, edges: Option<seq<EdgeRecord>>)

  /** The graph `parse_pipeline` builds for a request. */
  function RequestGraph(request: Request): Outcome<Graph> {
    EdgesAdded(NodesGraph(request.nodes.GetOr([])), request.edges.GetOr([]))
  }

  /** The graph building and the cycle check shared by the handler as
      written and as intended: the counts and whether a cycle exists. */
  method Analyse(request: Request) returns (r: Outcome<(nat, nat, bool)>)
    ensures r.Ok? <==> RequestGraph(request).Ok? && Closed(RequestGraph(request).value)
    ensures r.Ok? ==>
      r.value.0 == |request.nodes.GetOr([])| && r.value.1 == |request.edges.GetOr([])| &&
      (r.value.2 <==> Cyclic(RequestGraph(request).value))
  {
    var edges := request.edges.GetOr([]);
    var nodes := request.nodes.GetOr([]);
    var graph := BuildNodes(nodes);
    NodesGraphEffect(nodes);
    var built := BuildEdges(graph, edges);
    if built.KeyError? {
      return KeyError(built.key);
    }
    EdgesAddedOk(graph, edges);
    EdgesAddedEffect(graph, edges);
    var cycleExists := HasCycle(built.value);
    if cycleExists.KeyError? {
      return KeyError(cycleExists.key);
    }
    return Ok((|nodes|, |edges|, cycleExists.value));
  }

  /** `parse_pipeline` as written: `is_dag` carries `has_cycle`'s result. */
  method ParsePipeline(request: Request) returns (r: Outcome<Summary>)
    ensures r.Ok? <==> RequestGraph(request).Ok? && Closed(RequestGraph(request).value)
    ensures r.Ok? ==>
      r.value.numNodes == |request.nodes.GetOr([])| && r.value.numEdges == |request.edges.GetOr([])| &&
      (r.value.isDag <==> Cyclic(RequestGraph(request).value))
  {
    var analysed := Analyse(request);
    if analysed.KeyError? {
      return KeyError(analysed.key);
    }
    var (numNodes, numEdges, cycleExists) := analysed.value;
    return Ok(Summary(numNodes, numEdges, cycleExists));
  }

  /** `parse_pipeline` with `is_dag` meaning what its name says. */
  method ParsePipelineIntended(request: Request) returns (r: Outcome<Summary>)
    ensures r.Ok? <==> RequestGraph(request).Ok? && Closed(RequestGraph(request).value)
    ensures r.Ok? ==>
      r.value.numNodes == |request.nodes.GetOr([])| && r.value.numEdges == |request.edges.GetOr([])| &&
      (r.value.isDag <==> !Cyclic(RequestGraph(request).value))
  {
    var analysed := Analyse(request);
    if analysed.KeyError? {
      return KeyError(analysed.key);
    }
    var (numNodes, numEdges, cycleExists) := analysed.value;
    return Ok(Summary(numNodes, numEdges, !cycleExists));
  }

  /** A name is listed as a target of `k` exactly when some edge goes from
      `k` to it. */
  lemma {:induction false} TargetsMembers(edges: seq<EdgeRecord>, k: string, t: string)
    ensures t in Targets(edges, k) <==>
      exists i :: 0 <= i < |edges| && edges[i].src == Some(k) && edges[i].target == Some(t)
    decreases |edges|
  {
    if edges != [] {
      var prefix := edges[..|edges| - 1];
      TargetsMembers(prefix, k, t);
      assert forall i :: 0 <= i < |prefix| ==> prefix[i] == edges[i];
    }
  }

  /** An edge with both properties whose ends are both submitted nodes. */
  predicate EdgeBetween(nodes: seq<string>, e: EdgeRecord) {
    e.src.Some? && e.src.value in nodes && e.target.Some? && e.target.value in nodes
  }

  /** With distinct keys, a graph is closed exactly when every edge ends at
      a key. */
  lemma ClosedByEdges(graph: Graph)
    requires KeysDistinct(graph)
    ensures Closed(graph) <==> forall u, v :: Edge(graph, u, v) ==> v in KeySet(graph)
  {
    if Closed(graph) {
      forall u, v | Edge(graph, u, v) ensures v in KeySet(graph) {
        ClosedEdges(graph, u, v);
      }
    }
    if forall u, v :: Edge(graph, u, v) ==> v in KeySet(graph) {
      forall i, j | 0 <= i < |graph| && 0 <= j < |graph[i].val| ensures graph[i].val[j] in KeySet(graph) {
        GetAt(graph, i);
        assert Edge(graph, graph[i].key, graph[i].val[j]);
      }
    }
  }

  /** Some submitted edge goes from `u` to `v`. */
  predicate Submitted(edges: seq<EdgeRecord>, u: string, v: string) {
    exists i :: 0 <= i < |edges| && edges[i].src == Some(u) && edges[i].target == Some(v)
  }

  /** The graph built from the request has an edge from `u` to `v` exactly
      when `u` is a node and some edge goes from `u` to `v`. */
  lemma RequestEdges(nodes: seq<string>, edges: seq<EdgeRecord>, u: string, v: string)
    requires EdgesAdded(NodesGraph(nodes), edges).Ok?
    ensures Edge(EdgesAdded(NodesGraph(nodes), edges).value, u, v) <==> u in nodes && Submitted(edges, u, v)
  {
    var g := NodesGraph(nodes);
    var h := EdgesAdded(g, edges).value;
    NodesGraphEffect(nodes);
    EdgesAddedOk(g, edges);
    EdgesAddedEffect(g, edges);
    TargetsMembers(edges, u, v);
    if u in nodes {
      assert Get(g, u) == Some([]);
      assert u in KeySet(g);
      assert [] + Targets(edges, u) == Targets(edges, u);
    } else {
      assert Get(g, u).None?;
      assert u !in KeySet(h);
    }
  }

  /** A request is handled exactly when every edge has both properties, its
      source among the nodes and its target among the nodes. */
  lemma RequestAccepted(request: Request)
    ensures (RequestGraph(request).Ok? && Closed(RequestGraph(request).value)) <==>
      forall i :: 0 <= i < |request.edges.GetOr([])| ==>
        EdgeBetween(request.nodes.GetOr([]), request.edges.GetOr([])[i])
  {
    var nodes := request.nodes.GetOr([]);
    var edges := request.edges.GetOr([]);
    var g := NodesGraph(nodes);
    NodesGraphEffect(nodes);
    EdgesAddedOk(g, edges);
    EdgesAddedEffect(g, edges);
    assert forall k :: k in KeySet(g) <==> k in nodes;
    var r := EdgesAdded(g, edges);
    if r.Ok? {
      var h := r.value;
      assert KeySet(h) == KeySet(g);
      ClosedByEdges(h);
      if Closed(h) {
        forall i | 0 <= i < |edges| ensures EdgeBetween(nodes, edges[i]) {
          assert WellFormedEdge(KeySet(g), edges[i]);
          var u, v := edges[i].src.value, edges[i].target.value;
          assert Submitted(edges, u, v);
          RequestEdges(nodes, edges, u, v);
        }
      }
      if forall i :: 0 <= i < |edges| ==> EdgeBetween(nodes, edges[i]) {
        forall u, v | Edge(h, u, v) ensures v in KeySet(h) {
          RequestEdges(nodes, edges, u, v);
          var i :| 0 <= i < |edges| && edges[i].src == Some(u) && edges[i].target == Some(v);
          assert EdgeBetween(nodes, edges[i]);
        }
      }
    } else {
      var i :| 0 <= i < |edges| && !WellFormedEdge(KeySet(g), edges[i]);
      assert !EdgeBetween(nodes, edges[i]);
    }
  }

  /** A single node and no edge is a DAG, and a node with an edge to itself
      is not: `has_cycle` answers `false` and `true`, the handler as written
      reports them as `is_dag` unchanged, and the intended handler
      reports the opposite. */
  lemma IsDagWitness()
    ensures var g := RequestGraph(Request(Some(["a"]), Some([])));
      g.Ok? && Closed(g.value) && !Cyclic(g.value)
    ensures var g := RequestGraph(Request(Some(["a"]), Some([EdgeRecord(Some("a"), Some("a"))])));
      g.Ok? && Closed(g.value) && Cyclic(g.value)
  {
    var g0 := NodesGraph(["a"]);
    NodesGraphEffect(["a"]);
    assert Get(g0, "a") == Some([]);
    assert g0 == [Entry("a", [])];
    NoEdgesAcyclic(g0);
    var loop := [EdgeRecord(Some("a"), Some("a"))];
    assert loop[..0] == [];
    assert [] + ["a"] == ["a"];
    var g1 := Put(g0, "a", ["a"]);
    assert EdgesAdded(g0, loop) == Ok(g1);
    assert g0[1..] == [];
    assert g1 == [Entry("a", ["a"])];
    assert Edge(g1, "a", "a");
    SelfLoopCyclic(g1, "a");
  }
}
