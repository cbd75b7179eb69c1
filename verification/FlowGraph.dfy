/** Building a flow graph: validation, then Kahn's topological sort over in-degree
    counters and a worklist. */
module FlowGraph {
  import opened Prelude

  datatype Id = Id(text: string)

  datatype Node = Node(id: Id, processorType: string)

  datatype Edge = Edge(from: Id, relationship: string, to: Id)

  datatype FlowConfig = FlowConfig(processors: seq<Node>, connections: seq<Edge>)

  datatype GraphError =
    | Empty
    | DuplicateProcessor(id: Id)
    | UnknownProcessor(from: Id, to: Id)
    | Cycle

  datatype Graph = Graph(nodes: seq<Node>, edges: seq<Edge>, order: seq<Id>)

  // ---------------------------------------------------------------- meaning

  function Ids(nodes: seq<Node>): set<Id>
  {
    set i | 0 <= i < |nodes| :: nodes[i].id
  }

  ghost predicate Distinct<T>(s: seq<T>)
  {
    forall i, j :: 0 <= i < j < |s| ==> s[i] != s[j]
  }

  ghost predicate DistinctIds(nodes: seq<Node>)
  {
    forall i, j :: 0 <= i < j < |nodes| ==> nodes[i].id != nodes[j].id
  }

  ghost predicate Known(e: Edge, ids: set<Id>)
  {
    e.from in ids && e.to in ids
  }

  /** A flow that passes validation. */
  ghost predicate WellFormed(config: FlowConfig)
  {
    && config.processors != []
    && DistinctIds(config.processors)
    && forall i :: 0 <= i < |config.connections| ==> Known(config.connections[i], Ids(config.processors))
  }

  ghost predicate Linked(edges: seq<Edge>, u: Id, v: Id)
  {
    exists i :: 0 <= i < |edges| && edges[i].from == u && edges[i].to == v
  }

  ghost predicate Walk(edges: seq<Edge>, p: seq<Id>)
  {
    forall i :: 0 <= i < |p| - 1 ==> Linked(edges, p[i], p[i + 1])
  }

  /** A walk that comes back to where it started. */
  ghost predicate IsCycle(edges: seq<Edge>, p: seq<Id>)
  {
    |p| >= 2 && p[0] == p[|p| - 1] && Walk(edges, p)
  }

  ghost predicate Cyclic(edges: seq<Edge>)
  {
    exists p :: IsCycle(edges, p)
  }

  /** `order` is a permutation of `ids` in which every edge goes forward. */
  ghost predicate TopologicalOrder(ids: set<Id>, edges: seq<Edge>, order: seq<Id>)
  {
    && Distinct(order)
    && (forall v :: v in ids <==> v in order)
    && Forward(edges, order)
  }

  ghost predicate Forward(edges: seq<Edge>, order: seq<Id>)
  {
    forall i, b :: 0 <= i < |edges| && 0 <= b < |order| && order[b] == edges[i].to ==> edges[i].from in order[..b]
  }

  /** A flow passes validation when it has processors, no two of one identifier, and both
      ends of each connection are among them. */
  lemma WellFormedIff(config: FlowConfig)
    ensures WellFormed(config) <==>
      && |config.processors| > 0
      && (forall i, j :: 0 <= i < j < |config.processors| ==> config.processors[i].id != config.processors[j].id)
      && forall e :: e in config.connections ==>
        && (exists n :: n in config.processors && n.id == e.from)
        && exists n :: n in config.processors && n.id == e.to
  {
    var nodes := config.processors;
    forall v
      ensures v in Ids(nodes) <==> exists n :: n in nodes && n.id == v
    {
      if n :| n in nodes && n.id == v {
        var i :| 0 <= i < |nodes| && nodes[i] == n;
        assert nodes[i].id == v;
      }
    }
    hide Ids;
    if WellFormed(config) {
      forall e | e in config.connections
        ensures Known(e, Ids(nodes))
      {
        var i :| 0 <= i < |config.connections| && config.connections[i] == e;
        assert Known(config.connections[i], Ids(nodes));
      }
    }
  }

  ghost predicate Connects(edges: seq<Edge>, u: Id, v: Id)
  {
    exists e :: e in edges && e.from == u && e.to == v
  }

  /** A cycle is a walk along connections back to its start, of one connection at least. */
  lemma CyclicIff(edges: seq<Edge>)
    ensures Cyclic(edges) <==>
      exists p: seq<Id> ::
        |p| >= 2 && p[0] == p[|p| - 1] && forall i :: 0 <= i < |p| - 1 ==> Connects(edges, p[i], p[i + 1])
  {
    forall u, v
      ensures Linked(edges, u, v) <==> Connects(edges, u, v)
    {
    }
    hide Linked, Connects;
    forall p: seq<Id>
      ensures IsCycle(edges, p) <==>
        |p| >= 2 && p[0] == p[|p| - 1] && forall i :: 0 <= i < |p| - 1 ==> Connects(edges, p[i], p[i + 1])
    {
    }
  }

  /** In a topological order of known identifiers each stands once, and the source of every
      connection stands before its destination. */
  lemma TopologicalIff(ids: set<Id>, edges: seq<Edge>, order: seq<Id>)
    requires forall e :: e in edges ==> e.from in ids && e.to in ids
    ensures TopologicalOrder(ids, edges, order) <==>
      && (forall i, j :: 0 <= i < j < |order| ==> order[i] != order[j])
      && (forall v :: v in ids <==> v in order)
      && forall e :: e in edges ==>
        exists a, b :: 0 <= a < b < |order| && order[a] == e.from && order[b] == e.to
  {
    if TopologicalOrder(ids, edges, order) {
      forall e | e in edges
        ensures exists a, b :: 0 <= a < b < |order| && order[a] == e.from && order[b] == e.to
      {
        var i :| 0 <= i < |edges| && edges[i] == e;
        var b :| 0 <= b < |order| && order[b] == e.to;
        assert edges[i].from in order[..b];
        var a :| 0 <= a < b && order[..b][a] == e.from;
        assert order[a] == e.from;
      }
    }
    if forall e :: e in edges ==> exists a, b :: 0 <= a < b < |order| && order[a] == e.from && order[b] == e.to {
      forall i, b | 0 <= i < |edges| && 0 <= b < |order| && order[b] == edges[i].to && Distinct(order)
        ensures edges[i].from in order[..b]
      {
        assert edges[i] in edges;
        var a, c :| 0 <= a < c < |order| && order[a] == edges[i].from && order[c] == edges[i].to;
        assert c == b && order[..b][a] == edges[i].from;
      }
    }
  }

  // ------------------------------------------------------------ the counters

  /** Edges into `v` whose source is not in `done`. */
  ghost function CountTo(edges: seq<Edge>, v: Id, done: set<Id>): nat
  {
    if edges == [] then 0 else
    var e := edges[|edges| - 1];
    CountTo(edges[..|edges| - 1], v, done) + if e.to == v && e.from !in done then 1 else 0
  }

  /** Destinations of the edges out of `u`, in order, with repetitions. */
  ghost function OutOf(edges: seq<Edge>, u: Id): seq<Id>
  {
    if edges == [] then [] else
    var e := edges[|edges| - 1];
    OutOf(edges[..|edges| - 1], u) + if e.from == u then [e.to] else []
  }

  ghost function Count(s: seq<Id>, v: Id): nat
  {
    if s == [] then 0 else Count(s[..|s| - 1], v) + if s[|s| - 1] == v then 1 else 0
  }

  lemma {:induction false} CountSplit(edges: seq<Edge>, v: Id, done: set<Id>, u: Id)
    requires u !in done
    ensures CountTo(edges, v, done) == CountTo(edges, v, done + {u}) + Count(OutOf(edges, u), v)
  {
    if edges != [] {
      var n := |edges| - 1;
      CountSplit(edges[..n], v, done, u);
      if edges[n].from == u {
        CountSnoc(OutOf(edges[..n], u), edges[n].to, v);
      } else {
        assert OutOf(edges, u) == OutOf(edges[..n], u);
      }
    }
  }

  lemma CountSnoc(s: seq<Id>, x: Id, v: Id)
    ensures Count(s + [x], v) == Count(s, v) + if x == v then 1 else 0
  {
    assert (s + [x])[..|s|] == s;
  }

  lemma {:induction false} CountCons(x: Id, s: seq<Id>, v: Id)
    ensures Count([x] + s, v) == Count(s, v) + if x == v then 1 else 0
  {
    if s == [] {
      assert [x] + s == [] + [x];
      CountSnoc([], x, v);
    } else {
      var n := |s| - 1;
      assert [x] + s == ([x] + s[..n]) + [s[n]];
      CountSnoc([x] + s[..n], s[n], v);
      CountCons(x, s[..n], v);
    }
  }

  lemma {:induction false} CountZero(edges: seq<Edge>, v: Id, done: set<Id>)
    ensures CountTo(edges, v, done) == 0 <==> forall i :: 0 <= i < |edges| && edges[i].to == v ==> edges[i].from in done
  {
    if edges != [] {
      CountZero(edges[..|edges| - 1], v, done);
    }
  }

  lemma {:induction false} OutOfMembers(edges: seq<Edge>, u: Id, v: Id)
    ensures v in OutOf(edges, u) <==> Linked(edges, u, v)
  {
    if edges != [] {
      var n := |edges| - 1;
      OutOfMembers(edges[..n], u, v);
      if Linked(edges[..n], u, v) {
        var i :| 0 <= i < n && edges[..n][i].from == u && edges[..n][i].to == v;
        assert edges[i].from == u && edges[i].to == v;
      }
    }
  }

  // ----------------------------------------------------- order versus cycle

  lemma {:induction false} WalkGoesForward(edges: seq<Edge>, order: seq<Id>, p: seq<Id>, b: nat) returns (a: nat)
    requires Forward(edges, order) && Walk(edges, p) && |p| >= 2
    requires b < |order| && order[b] == p[|p| - 1]
    ensures a < b && order[a] == p[0]
    decreases |p|
  {
    var n := |p| - 1;
    assert Linked(edges, p[n - 1], p[n - 1 + 1]);
    var i :| 0 <= i < |edges| && edges[i].from == p[n - 1] && edges[i].to == p[n];
    assert p[n - 1] in order[..b];
    var c :| 0 <= c < b && order[..b][c] == p[n - 1];
    if n == 1 {
      a := c;
    } else {
      WalkPrefix(edges, p);
      a := WalkGoesForward(edges, order, p[..n], c);
    }
  }

  lemma WalkPrefix(edges: seq<Edge>, p: seq<Id>)
    requires Walk(edges, p) && |p| >= 1
    ensures Walk(edges, p[..|p| - 1])
  {
    hide Linked;
    var q := p[..|p| - 1];
    forall i | 0 <= i < |q| - 1
      ensures Linked(edges, q[i], q[i + 1])
    {
      assert Linked(edges, p[i], p[i + 1]);
    }
  }

  /** Soundness: a graph with a topological order has no cycle. */
  lemma OrderExcludesCycles(ids: set<Id>, edges: seq<Edge>, order: seq<Id>)
    requires TopologicalOrder(ids, edges, order)
    requires forall i :: 0 <= i < |edges| ==> Known(edges[i], ids)
    ensures !Cyclic(edges)
  {
    forall p | IsCycle(edges, p)
      ensures false
    {
      assert Linked(edges, p[|p| - 2], p[|p| - 2 + 1]);
      assert p[|p| - 1] in order;
      var b :| 0 <= b < |order| && order[b] == p[|p| - 1];
      var a := WalkGoesForward(edges, order, p, b);
    }
  }

  /** `v` waits for a member of `rest`. */
  ghost predicate Waits(edges: seq<Edge>, rest: set<Id>, v: Id)
  {
    exists u :: u in rest && Linked(edges, u, v)
  }

  /** Inside a set whose every member waits for another, walks of every length. */
  lemma {:induction false} LongWalk(edges: seq<Edge>, rest: set<Id>, n: nat) returns (p: seq<Id>)
    requires rest != {} && n >= 1
    requires forall v :: v in rest ==> Waits(edges, rest, v)
    ensures |p| == n && Walk(edges, p) && forall i :: 0 <= i < n ==> p[i] in rest
    decreases n
  {
    hide Linked, Waits;
    if n == 1 {
      var v :| v in rest;
      p := [v];
    } else {
      var q := LongWalk(edges, rest, n - 1);
      var u := Feeder(edges, rest, q[0]);
      p := [u] + q;
      forall i | 0 <= i < |p| - 1
        ensures Linked(edges, p[i], p[i + 1])
      {
        if i > 0 {
          assert Linked(edges, q[i - 1], q[i - 1 + 1]);
        }
      }
    }
  }

  lemma Feeder(edges: seq<Edge>, rest: set<Id>, v: Id) returns (u: Id)
    requires Waits(edges, rest, v)
    ensures u in rest && Linked(edges, u, v)
  {
    hide Linked;
    u :| u in rest && Linked(edges, u, v);
  }

  lemma {:induction false} Pigeonhole(p: seq<Id>, rest: set<Id>) returns (i: nat, j: nat)
    requires |p| > |rest| && forall i :: 0 <= i < |p| ==> p[i] in rest
    ensures i < j < |p| && p[i] == p[j]
    decreases |p|
  {
    var x := p[0];
    if x in p[1..] {
      var k :| 0 <= k < |p[1..]| && p[1..][k] == x;
      return 0, k + 1;
    }
    assert forall k :: 0 <= k < |p[1..]| ==> p[1..][k] in rest - {x};
    i, j := Pigeonhole(p[1..], rest - {x});
    i, j := i + 1, j + 1;
  }

  /** Completeness: nodes that each wait for another of them contain a cycle. */
  lemma StuckMeansCycle(edges: seq<Edge>, rest: set<Id>)
    requires rest != {}
    requires forall v :: v in rest ==> Waits(edges, rest, v)
    ensures Cyclic(edges)
  {
    hide Linked, Waits;
    var p := LongWalk(edges, rest, |rest| + 1);
    var i, j := Pigeonhole(p, rest);
    WalkSlice(edges, p, i, j);
    assert IsCycle(edges, p[i..j + 1]);
  }

  lemma WalkSlice(edges: seq<Edge>, p: seq<Id>, i: nat, j: nat)
    requires Walk(edges, p) && i < j < |p|
    ensures Walk(edges, p[i..j + 1])
  {
    hide Linked;
    var c := p[i..j + 1];
    forall k | 0 <= k < |c| - 1
      ensures Linked(edges, c[k], c[k + 1])
    {
      assert Linked(edges, p[i + k], p[i + k + 1]);
    }
  }

  // ------------------------------------------------------------- validation

  ghost predicate FreshAt(nodes: seq<Node>, i: nat)
    requires i < |nodes|
  {
    forall j :: 0 <= j < i ==> nodes[j].id != nodes[i].id
  }

  /** `i` is the first position whose identifier occurred before. */
  ghost predicate FirstRepeat(nodes: seq<Node>, i: nat)
  {
    && i < |nodes|
    && !FreshAt(nodes, i)
    && forall j :: 0 <= j < i ==> FreshAt(nodes, j)
  }

  /** `i` is the first edge with an endpoint outside `ids`. */
  ghost predicate FirstUnknown(edges: seq<Edge>, ids: set<Id>, i: nat)
  {
    && i < |edges|
    && !Known(edges[i], ids)
    && forall j :: 0 <= j < i ==> Known(edges[j], ids)
  }

  method CollectIds(nodes: seq<Node>) returns (ids: set<Id>, repeat: Option<nat>)
    ensures repeat.Some? ==> FirstRepeat(nodes, repeat.value)
    ensures repeat.None? ==> DistinctIds(nodes) && ids == Ids(nodes)
  {
    ids := {};
    for i := 0 to |nodes|
      invariant forall v :: v in ids <==> exists j :: 0 <= j < i && nodes[j].id == v
      invariant forall j :: 0 <= j < i ==> FreshAt(nodes, j)
    {
      if nodes[i].id in ids {
        return ids, Some(i);
      }
      ids := ids + {nodes[i].id};
    }
    repeat := None;
    forall i, j | 0 <= i < j < |nodes|
      ensures nodes[i].id != nodes[j].id
    {
      assert FreshAt(nodes, j);
    }
  }

  ghost function OutList(outgoing: map<Id, seq<Id>>, u: Id): seq<Id>
  {
    if u in outgoing then outgoing[u] else []
  }

  /** Every counter holds the edges into its node from outside `done`, plus the arrivals
      in `extra` that are not yet subtracted. */
  ghost predicate Balanced(edges: seq<Edge>, ids: set<Id>, indegree: map<Id, nat>, done: set<Id>, extra: seq<Id>)
  {
    && indegree.Keys == ids
    && forall v :: v in ids ==> indegree[v] == CountTo(edges, v, done) + Count(extra, v)
  }

  ghost predicate Adjacency(edges: seq<Edge>, outgoing: map<Id, seq<Id>>)
  {
    forall u :: OutList(outgoing, u) == OutOf(edges, u)
  }

  method CollectEdges(edges: seq<Edge>, ids: set<Id>)
    returns (indegree: map<Id, nat>, outgoing: map<Id, seq<Id>>, unknown: Option<nat>)
    ensures unknown.Some? ==> FirstUnknown(edges, ids, unknown.value)
    ensures unknown.None? ==>
      && (forall i :: 0 <= i < |edges| ==> Known(edges[i], ids))
      && Balanced(edges, ids, indegree, {}, [])
      && Adjacency(edges, outgoing)
  {
    indegree := map id | id in ids :: 0;
    outgoing := map[];
    assert edges[..0] == [];
    StartCounters(ids, indegree, outgoing);
    hide Balanced, Adjacency, OutList;
    for i := 0 to |edges|
      invariant indegree.Keys == ids
      invariant forall j :: 0 <= j < i ==> Known(edges[j], ids)
      invariant Balanced(edges[..i], ids, indegree, {}, [])
      invariant Adjacency(edges[..i], outgoing)
    {
      var e := edges[i];
      if e.from !in ids || e.to !in ids {
        return indegree, outgoing, Some(i);
      }
      ExtendCounters(edges[..i], ids, indegree, outgoing, e);
      assert edges[..i + 1] == edges[..i] + [e];
      indegree := indegree[e.to := indegree[e.to] + 1];
      outgoing := outgoing[e.from := (if e.from in outgoing then outgoing[e.from] else []) + [e.to]];
    }
    assert edges[..|edges|] == edges;
    unknown := None;
  }

  lemma StartCounters(ids: set<Id>, indegree: map<Id, nat>, outgoing: map<Id, seq<Id>>)
    requires indegree == (map id | id in ids :: 0) && outgoing == map[]
    ensures Balanced([], ids, indegree, {}, []) && Adjacency([], outgoing)
  {
  }

  lemma ExtendCounters(edges: seq<Edge>, ids: set<Id>, indegree: map<Id, nat>, outgoing: map<Id, seq<Id>>, e: Edge)
    requires Balanced(edges, ids, indegree, {}, []) && Adjacency(edges, outgoing)
    requires Known(e, ids)
    ensures e.to in indegree && Balanced(edges + [e], ids, indegree[e.to := indegree[e.to] + 1], {}, [])
    ensures Adjacency(edges + [e], outgoing[e.from := (if e.from in outgoing then outgoing[e.from] else []) + [e.to]])
  {
    hide CountTo, OutOf, Count;
    forall v
      ensures CountTo(edges + [e], v, {}) == CountTo(edges, v, {}) + if v == e.to then 1 else 0
    {
      EdgeSnoc(edges, e, v);
    }
    var outgoing' := outgoing[e.from := OutList(outgoing, e.from) + [e.to]];
    forall u
      ensures OutList(outgoing', u) == OutOf(edges + [e], u)
    {
      EdgeSnoc(edges, e, u);
      assert OutList(outgoing, u) == OutOf(edges, u);
    }
  }

  lemma EdgeSnoc(edges: seq<Edge>, e: Edge, v: Id)
    ensures CountTo(edges + [e], v, {}) == CountTo(edges, v, {}) + if v == e.to then 1 else 0
    ensures OutOf(edges + [e], v) == OutOf(edges, v) + if v == e.from then [e.to] else []
  {
    var more := edges + [e];
    assert more[..|more| - 1] == edges && more[|more| - 1] == e;
  }

  // ---------------------------------------------------------------- the sort

  ghost function Members(s: seq<Id>): set<Id>
  {
    set v | v in s
  }

  /** The nodes placed or queued are, without repetition, those whose counter is zero. */
  ghost predicate Queued(ids: set<Id>, indegree: map<Id, nat>, order: seq<Id>, pending: seq<Id>)
  {
    && Distinct(order + pending)
    && indegree.Keys == ids
    && Members(order + pending) <= ids
    && forall v :: v in ids ==> (v in order + pending <==> indegree[v] == 0)
  }

  lemma {:induction false} DistinctSize(s: seq<Id>)
    requires Distinct(s)
    ensures |Members(s)| == |s|
  {
    if s != [] {
      var n := |s| - 1;
      DistinctSize(s[..n]);
      assert s[n] !in s[..n];
      assert Members(s) == Members(s[..n]) + {s[n]};
    }
  }

  lemma {:induction false} NodesAreIds(nodes: seq<Node>)
    requires DistinctIds(nodes)
    ensures |Ids(nodes)| == |nodes|
  {
    if nodes != [] {
      var n := |nodes| - 1;
      NodesAreIds(nodes[..n]);
      assert Ids(nodes) == Ids(nodes[..n]) + {nodes[n].id} && nodes[n].id !in Ids(nodes[..n]);
    }
  }

  /** One decrement: the counter cannot underflow, and the balance moves on by one arrival. */
  lemma Decrement(edges: seq<Edge>, ids: set<Id>, indegree: map<Id, nat>, done: set<Id>, extra: seq<Id>)
    requires Balanced(edges, ids, indegree, done, extra)
    requires extra != [] && extra[0] in ids
    ensures indegree[extra[0]] > 0
    ensures Balanced(edges, ids, indegree[extra[0] := indegree[extra[0]] - 1], done, extra[1..])
  {
    hide CountTo;
    assert extra == [extra[0]] + extra[1..];
    forall v
      ensures Count(extra, v) == Count(extra[1..], v) + if extra[0] == v then 1 else 0
    {
      CountCons(extra[0], extra[1..], v);
    }
  }

  lemma EnqueueKeepsQueued(ids: set<Id>, indegree: map<Id, nat>, order: seq<Id>, pending: seq<Id>, v: Id)
    requires Queued(ids, indegree, order, pending)
    requires v in ids && indegree[v] > 0
    ensures indegree[v] == 1 ==> Queued(ids, indegree[v := 0], order, pending + [v])
    ensures indegree[v] > 1 ==> Queued(ids, indegree[v := indegree[v] - 1], order, pending)
  {
    assert order + (pending + [v]) == (order + pending) + [v];
  }

  /** Taking the front of the queue: its edges become the arrivals to subtract. */
  lemma Place(edges: seq<Edge>, ids: set<Id>, indegree: map<Id, nat>, order: seq<Id>, pending: seq<Id>)
    requires Balanced(edges, ids, indegree, Members(order), [])
    requires Queued(ids, indegree, order, pending) && Forward(edges, order) && pending != []
    ensures pending[0] in ids && |order| < |ids|
    ensures Balanced(edges, ids, indegree, Members(order + [pending[0]]), OutOf(edges, pending[0]))
    ensures Queued(ids, indegree, order + [pending[0]], pending[1..])
    ensures Forward(edges, order + [pending[0]])
  {
    var u := pending[0];
    var all := order + pending;
    assert all[|order|] == u;
    assert u in Members(all);
    assert u !in order by {
      assert forall k :: 0 <= k < |order| ==> all[k] == order[k];
    }
    assert (order + [u]) + pending[1..] == all;
    assert Members(order + [u]) == Members(order) + {u};
    forall v | v in ids
      ensures indegree[v] == CountTo(edges, v, Members(order) + {u}) + Count(OutOf(edges, u), v)
    {
      CountSplit(edges, v, Members(order), u);
    }
    PlaceForward(edges, order, u);
    assert |order| < |ids| by {
      DistinctSize(all);
      SubsetSize(Members(all), ids);
    }
  }

  lemma PlaceForward(edges: seq<Edge>, order: seq<Id>, u: Id)
    requires CountTo(edges, u, Members(order)) == 0 && Forward(edges, order)
    ensures Forward(edges, order + [u])
  {
    CountZero(edges, u, Members(order));
    var more := order + [u];
    forall i, b | 0 <= i < |edges| && 0 <= b < |more| && more[b] == edges[i].to
      ensures edges[i].from in more[..b]
    {
      assert more[..b] == order[..b];
      if b == |order| {
        assert edges[i].from in Members(order);
        assert order[..b] == order;
      }
    }
  }

  /** An empty queue with nodes left over: they wait for one another. */
  lemma LeftoverIsCyclic(edges: seq<Edge>, ids: set<Id>, indegree: map<Id, nat>, order: seq<Id>)
    requires forall i :: 0 <= i < |edges| ==> Known(edges[i], ids)
    requires Balanced(edges, ids, indegree, Members(order), []) && Queued(ids, indegree, order, [])
    ensures |order| == |ids| ==> forall v :: v in ids <==> v in order
    ensures |order| != |ids| ==> Cyclic(edges)
  {
    hide CountTo, Linked, Waits, Cyclic;
    assert order + [] == order;
    DistinctSize(order);
    var rest := ids - Members(order);
    assert ids == Members(order) + rest;
    if |order| == |ids| {
      assert rest == {};
      assert ids == Members(order);
    } else {
      forall v | v in rest
        ensures Waits(edges, rest, v)
      {
        WaitingNode(edges, ids, Members(order), v);
      }
      StuckMeansCycle(edges, rest);
    }
  }

  lemma WaitingNode(edges: seq<Edge>, ids: set<Id>, done: set<Id>, v: Id)
    requires forall i :: 0 <= i < |edges| ==> Known(edges[i], ids)
    requires CountTo(edges, v, done) != 0
    ensures Waits(edges, ids - done, v)
  {
    CountZero(edges, v, done);
    var i :| 0 <= i < |edges| && edges[i].to == v && edges[i].from !in done;
    assert Known(edges[i], ids);
    assert Linked(edges, edges[i].from, v);
  }

  /** The initial worklist, in any order in which the map may be walked. */
  method Roots(ids: set<Id>, indegree: map<Id, nat>) returns (pending: seq<Id>)
    requires indegree.Keys == ids
    ensures Queued(ids, indegree, [], pending)
  {
    pending := [];
    var left := ids;
    while left != {}
      invariant left <= ids && Rooted(ids - left, indegree, pending)
      decreases |left|
    {
      var id :| id in left;
      assert ids - (left - {id}) == (ids - left) + {id};
      RootsGrow(ids - left, indegree, pending, id);
      left := left - {id};
      if indegree[id] == 0 {
        pending := pending + [id];
      }
    }
    assert ids - left == ids;
    assert [] + pending == pending;
  }

  ghost predicate Rooted(seen: set<Id>, indegree: map<Id, nat>, pending: seq<Id>)
    requires seen <= indegree.Keys
  {
    && Distinct(pending)
    && forall v :: v in pending <==> v in seen && indegree[v] == 0
  }

  lemma RootsGrow(seen: set<Id>, indegree: map<Id, nat>, pending: seq<Id>, id: Id)
    requires seen <= indegree.Keys && Rooted(seen, indegree, pending)
    requires id in indegree && id !in seen
    ensures Rooted(seen + {id}, indegree, if indegree[id] == 0 then pending + [id] else pending)
  {
  }

  /** Removes the placed node from its successors' counters. */
  method Release(ghost edges: seq<Edge>, ids: set<Id>, indegree0: map<Id, nat>, destinations: seq<Id>,
                 ghost order: seq<Id>, pending0: seq<Id>)
    returns (indegree: map<Id, nat>, pending: seq<Id>)
    requires Balanced(edges, ids, indegree0, Members(order), destinations)
    requires Queued(ids, indegree0, order, pending0)
    requires forall k :: 0 <= k < |destinations| ==> destinations[k] in ids
    ensures Balanced(edges, ids, indegree, Members(order), [])
    ensures Queued(ids, indegree, order, pending)
  {
    indegree, pending := indegree0, pending0;
    assert destinations[0..] == destinations;
    hide Balanced, Queued, Members;
    for j := 0 to |destinations|
      invariant indegree.Keys == ids
      invariant Balanced(edges, ids, indegree, Members(order), destinations[j..])
      invariant Queued(ids, indegree, order, pending)
    {
      var v := destinations[j];
      Decrement(edges, ids, indegree, Members(order), destinations[j..]);
      EnqueueKeepsQueued(ids, indegree, order, pending, v);
      assert destinations[j..][1..] == destinations[j + 1..];
      indegree := indegree[v := indegree[v] - 1];
      if indegree[v] == 0 {
        pending := pending + [v];
      }
    }
    assert destinations[|destinations|..] == [];
  }

  method Sort(ids: set<Id>, edges: seq<Edge>, indegree0: map<Id, nat>, outgoing: map<Id, seq<Id>>)
    returns (order: seq<Id>)
    requires forall i :: 0 <= i < |edges| ==> Known(edges[i], ids)
    requires Balanced(edges, ids, indegree0, {}, []) && Adjacency(edges, outgoing)
    ensures |order| == |ids| ==> TopologicalOrder(ids, edges, order)
    ensures |order| != |ids| ==> Cyclic(edges)
  {
    var indegree := indegree0;
    var pending := Roots(ids, indegree);
    order := [];
    assert Members(order) == {};
    while pending != []
      invariant Balanced(edges, ids, indegree, Members(order), [])
      invariant Queued(ids, indegree, order, pending)
      invariant Forward(edges, order)
      decreases |ids| - |order|
    {
      hide *;
      var id := pending[0];
      Place(edges, ids, indegree, order, pending);
      pending := pending[1..];
      order := order + [id];
      var destinations := if id in outgoing then outgoing[id] else [];
      KnownDestinations(edges, ids, outgoing, id);
      indegree, pending := Release(edges, ids, indegree, destinations, order, pending);
    }
    LeftoverIsCyclic(edges, ids, indegree, order);
    assert order + [] == order;
  }

  lemma KnownDestinations(edges: seq<Edge>, ids: set<Id>, outgoing: map<Id, seq<Id>>, u: Id)
    requires forall i :: 0 <= i < |edges| ==> Known(edges[i], ids)
    requires Adjacency(edges, outgoing)
    ensures (if u in outgoing then outgoing[u] else []) == OutOf(edges, u)
    ensures forall k :: 0 <= k < |OutOf(edges, u)| ==> OutOf(edges, u)[k] in ids
  {
    assert OutList(outgoing, u) == OutOf(edges, u);
    forall k | 0 <= k < |OutOf(edges, u)|
      ensures OutOf(edges, u)[k] in ids
    {
      OutOfMembers(edges, u, OutOf(edges, u)[k]);
    }
  }

  /** Exactly one outcome per input: emptiness, the first repeated identifier, the first
      dangling edge, and then a topological order if and only if there is no cycle. */
  method Build(config: FlowConfig) returns (r: Result<Graph, GraphError>)
    ensures config.processors == [] ==> r == Err(Empty)
    ensures config.processors != [] && !DistinctIds(config.processors) ==>
      exists i: nat :: FirstRepeat(config.processors, i) && r == Err(DuplicateProcessor(config.processors[i].id))
    ensures config.processors != [] && DistinctIds(config.processors) && !WellFormed(config) ==>
      exists i: nat :: FirstUnknown(config.connections, Ids(config.processors), i)
        && r == Err(UnknownProcessor(config.connections[i].from, config.connections[i].to))
    ensures WellFormed(config) && Cyclic(config.connections) ==> r == Err(Cycle)
    ensures WellFormed(config) && !Cyclic(config.connections) ==>
      && r.Ok?
      && r.value.nodes == config.processors
      && r.value.edges == config.connections
      && TopologicalOrder(Ids(config.processors), config.connections, r.value.order)
  {
    if config.processors == [] {
      return Err(Empty);
    }
    var ids, repeat := CollectIds(config.processors);
    if repeat.Some? {
      RepeatIsNotDistinct(config.processors, repeat.value);
      return Err(DuplicateProcessor(config.processors[repeat.value].id));
    }
    var indegree, outgoing, unknown := CollectEdges(config.connections, ids);
    if unknown.Some? {
      var e := config.connections[unknown.value];
      return Err(UnknownProcessor(e.from, e.to));
    }
    var order := Sort(ids, config.connections, indegree, outgoing);
    NodesAreIds(config.processors);
    if |order| != |config.processors| {
      return Err(Cycle);
    }
    OrderExcludesCycles(ids, config.connections, order);
    return Ok(Graph(config.processors, config.connections, order));
  }

  lemma RepeatIsNotDistinct(nodes: seq<Node>, i: nat)
    requires FirstRepeat(nodes, i)
    ensures nodes != [] && !DistinctIds(nodes)
  {
  }
}
