/** Directed graphs of locks: cycles, topological orders, and what a search from one node shows. */
module LockGraph {
  type Id = nat
  type Edges = map<Id, seq<Id>>

  predicate Distinct(s: seq<Id>) {
    forall i, j :: 0 <= i < j < |s| ==> s[i] != s[j]
  }

  predicate Edge(g: Edges, a: Id, b: Id) {
    a in g && b in g[a]
  }

  predicate Path(g: Edges, p: seq<Id>) {
    |p| > 0 && forall i :: 0 < i < |p| ==> Edge(g, p[i - 1], p[i])
  }

  /** A cycle, listed without repeating its first node. */
  predicate Cycle(g: Edges, p: seq<Id>) {
    Path(g, p) && Edge(g, p[|p| - 1], p[0])
  }

  ghost predicate Acyclic(g: Edges) {
    forall p :: !Cycle(g, p)
  }

  /** Edges lead to nodes of the graph. */
  ghost predicate Closed(g: Edges) {
    forall a, b :: Edge(g, a, b) ==> b in g
  }

  /** g' is g with node id and edges to it from all of owned. */
  ghost predicate Extended(g: Edges, g': Edges, owned: seq<Id>, id: Id) {
    && (forall n :: n in g' <==> n in g || n == id)
    && (forall a, b :: Edge(g', a, b) <==> Edge(g, a, b) || (a in owned && b == id))
  }

  /** The part of a cycle through node p[k], starting there. */
  lemma Rotate(g: Edges, p: seq<Id>, k: nat)
    requires Cycle(g, p) && k < |p|
    ensures Cycle(g, p[k..] + p[..k]) && (p[k..] + p[..k])[0] == p[k]
  {
    var q := p[k..] + p[..k];
    forall i | 0 < i < |q|
      ensures Edge(g, q[i - 1], q[i])
    {
      if i < |p| - k {
        assert q[i - 1] == p[k + i - 1] && q[i] == p[k + i];
      } else if i == |p| - k {
        assert q[i - 1] == p[|p| - 1] && q[i] == p[0];
      } else {
        assert q[i - 1] == p[i - 1 - (|p| - k)] && q[i] == p[i - (|p| - k)];
      }
    }
    if k > 0 {
      assert q[|q| - 1] == p[k - 1];
    }
  }

  /** A cycle that avoids id was there before. */
  lemma OldCycle(g: Edges, g': Edges, owned: seq<Id>, id: Id, p: seq<Id>)
    requires Extended(g, g', owned, id) && Cycle(g', p) && id !in p
    ensures Cycle(g, p)
  {
    forall i | 0 < i < |p|
      ensures Edge(g, p[i - 1], p[i])
    {
      assert Edge(g', p[i - 1], p[i]);
    }
  }

  /** If new edges to id close a cycle, then there is one that starts at id. */
  lemma NewCycle(g: Edges, g': Edges, owned: seq<Id>, id: Id, p: seq<Id>) returns (q: seq<Id>)
    requires Acyclic(g) && Extended(g, g', owned, id) && Cycle(g', p)
    ensures Cycle(g', q) && q[0] == id && |q| == |p|
  {
    assert id in p by {
      if id !in p {
        OldCycle(g, g', owned, id, p);
      }
    }
    var k :| 0 <= k < |p| && p[k] == id;
    Rotate(g', p, k);
    q := p[k..] + p[..k];
  }

  lemma ExtendMore(g: Edges, g': Edges, g'': Edges, owned: seq<Id>, i: nat, id: Id)
    requires i < |owned| && Extended(g, g', owned[..i], id) && Extended(g', g'', [owned[i]], id)
    ensures Extended(g, g'', owned[..i + 1], id)
  {
    assert owned[..i + 1] == owned[..i] + [owned[i]];
    forall a, b
      ensures Edge(g'', a, b) <==> Edge(g, a, b) || (a in owned[..i + 1] && b == id)
    {
      assert a in owned[..i + 1] <==> a in owned[..i] || a == owned[i];
      assert Edge(g'', a, b) <==> Edge(g', a, b) || (a in [owned[i]] && b == id);
      assert Edge(g', a, b) <==> Edge(g, a, b) || (a in owned[..i] && b == id);
    }
  }

  /** A shortest cycle through id is a shortest cycle at all if only edges to id are new. */
  lemma ShortestOverall(g: Edges, g': Edges, owned: seq<Id>, id: Id, p: seq<Id>)
    requires Acyclic(g) && Extended(g, g', owned, id)
    requires forall q :: Cycle(g', q) && q[0] == id ==> |p| <= |q|
    ensures forall q :: Cycle(g', q) ==> |p| <= |q|
  {
    forall q | Cycle(g', q)
      ensures |p| <= |q|
    {
      var r := NewCycle(g, g', owned, id, q);
    }
  }

  /** Fewer edges cannot close a cycle. */
  lemma SubgraphAcyclic(g: Edges, g': Edges)
    requires Acyclic(g) && forall a, b :: Edge(g', a, b) ==> Edge(g, a, b)
    ensures Acyclic(g')
  {
    forall p
      ensures !Cycle(g', p)
    {
      if Cycle(g', p) {
        assert Cycle(g, p);
      }
    }
  }

  // ---------- depth-first search ----------

  /** Every edge leads to an earlier node of order. */
  ghost predicate Topological(g: Edges, order: seq<Id>) {
    forall i, t :: 0 <= i < |order| && Edge(g, order[i], t) ==> t in order[..i]
  }

  lemma {:induction false} NoCycleInOrder(g: Edges, order: seq<Id>, p: seq<Id>, m: nat)
    requires Topological(g, order) && Cycle(g, p) && m <= |order|
    ensures forall k :: 0 <= k < |p| ==> p[k] !in order[..m]
  {
    if m > 0 {
      NoCycleInOrder(g, order, p, m - 1);
      assert order[..m] == order[..m - 1] + [order[m - 1]];
      forall k | 0 <= k < |p|
        ensures p[k] !in order[..m]
      {
        var next := if k + 1 < |p| then k + 1 else 0;
        assert Edge(g, p[k], p[next]) by {
          if k + 1 < |p| {
            assert Edge(g, p[next - 1], p[next]);
          }
        }
        assert p[next] !in order[..m - 1];
      }
    }
  }

  lemma OrderedAcyclic(g: Edges, order: seq<Id>)
    requires Topological(g, order) && forall n :: n in g ==> n in order
    ensures Acyclic(g)
  {
    assert order[..|order|] == order;
    forall p
      ensures !Cycle(g, p)
    {
      if Cycle(g, p) {
        NoCycleInOrder(g, order, p, |order|);
      }
    }
  }

  lemma TopologicalSnoc(g: Edges, order: seq<Id>, n: Id)
    requires Topological(g, order) && forall t :: Edge(g, n, t) ==> t in order
    ensures Topological(g, order + [n])
  {
    var o := order + [n];
    forall i, t | 0 <= i < |o| && Edge(g, o[i], t)
      ensures t in o[..i]
    {
      if i < |order| {
        assert o[..i] == order[..i];
      } else {
        assert o[..i] == order;
      }
    }
  }

  lemma PathSnoc(g: Edges, p: seq<Id>, n: Id)
    requires p == [] || (Path(g, p) && Edge(g, p[|p| - 1], n))
    ensures Path(g, p + [n])
  {
    var q := p + [n];
    forall i | 0 < i < |q|
      ensures Edge(g, q[i - 1], q[i])
    {
      if i < |p| {
        assert Edge(g, p[i - 1], p[i]);
      }
    }
  }

  /** Coming back to a node of the path closes a cycle. */
  lemma BackEdge(g: Edges, stack: seq<Id>, n: Id) returns (cycle: seq<Id>)
    requires Path(g, stack) && n in stack && Edge(g, stack[|stack| - 1], n)
    ensures Cycle(g, cycle)
  {
    var k :| 0 <= k < |stack| && stack[k] == n;
    cycle := stack[k..];
    forall i | 0 < i < |cycle|
      ensures Edge(g, cycle[i - 1], cycle[i])
    {
      assert Edge(g, stack[k + i - 1], stack[k + i]);
    }
  }

  // ---------- breadth-first search ----------

  /** An element of the queue: a node and a path to it. */
  datatype Entry = Entry(node: Id, path: seq<Id>)

  /** The entry holds a path from start, of the recorded length. */
  ghost predicate Reached(g: Edges, start: Id, e: Entry, dist: map<Id, nat>) {
    && Path(g, e.path) && e.path[0] == start && e.path[|e.path| - 1] == e.node
    && e.node in g && e.node in dist && dist[e.node] == |e.path|
  }

  /** No edge of n leads back to start, and all lead to nodes known at most one step further away. */
  ghost predicate Explored(g: Edges, start: Id, n: Id, dist: map<Id, nat>) {
    n in dist && forall t :: Edge(g, n, t) ==> t != start && t in dist && dist[t] <= dist[n] + 1
  }

  /** The search so far: done nodes are explored, the others wait in the queue in order of distance. */
  ghost predicate Search(g: Edges, start: Id, queue: seq<Entry>, dist: map<Id, nat>, done: set<Id>) {
    && start in dist && dist[start] == 1
    && (forall k :: 0 <= k < |queue| ==> Reached(g, start, queue[k], dist))
    && (forall n :: n in done ==> Explored(g, start, n, dist))
    && (forall n :: n in dist && n !in done ==> Queued(queue, n))
    && (forall n, k :: n in done && 0 <= k < |queue| ==> n in dist && dist[n] <= |queue[k].path|)
    && (forall i, k :: 0 <= i <= k < |queue| ==> |queue[i].path| <= |queue[k].path| <= |queue[0].path| + 1)
  }

  ghost predicate Queued(queue: seq<Entry>, n: Id) {
    exists k :: 0 <= k < |queue| && queue[k].node == n
  }

  /** A cycle shorter than the distance of all nodes not yet done would have been found. */
  lemma {:induction false} ShortPathDone(g: Edges, start: Id, dist: map<Id, nat>, done: set<Id>, bound: nat,
                                         q: seq<Id>, k: nat)
    requires start in dist && dist[start] == 1
    requires forall n :: n in done ==> Explored(g, start, n, dist)
    requires forall n :: n in dist && n !in done ==> dist[n] >= bound
    requires Path(g, q) && q[0] == start && |q| < bound && k < |q|
    ensures q[k] in done && q[k] in dist && dist[q[k]] <= k + 1
  {
    if k > 0 {
      ShortPathDone(g, start, dist, done, bound, q, k - 1);
      assert Edge(g, q[k - 1], q[k]);
    }
  }

  lemma Shortest(g: Edges, start: Id, dist: map<Id, nat>, done: set<Id>, bound: nat, q: seq<Id>)
    requires start in dist && dist[start] == 1
    requires forall n :: n in done ==> Explored(g, start, n, dist)
    requires forall n :: n in dist && n !in done ==> dist[n] >= bound
    requires Cycle(g, q) && q[0] == start
    ensures |q| >= bound
  {
    if |q| < bound {
      ShortPathDone(g, start, dist, done, bound, q, |q| - 1);
    }
  }

  /** While the first entry is the one being expanded, no shorter cycle exists. */
  lemma FrontShortest(g: Edges, start: Id, queue: seq<Entry>, dist: map<Id, nat>, done: set<Id>, q: seq<Id>)
    requires Search(g, start, queue, dist, done) && |queue| > 0
    requires Cycle(g, q) && q[0] == start
    ensures |queue[0].path| <= |q|
  {
    forall n | n in dist && n !in done
      ensures dist[n] >= |queue[0].path|
    {
      assert Queued(queue, n);
      var k :| 0 <= k < |queue| && queue[k].node == n;
      assert Reached(g, start, queue[k], dist);
    }
    Shortest(g, start, dist, done, |queue[0].path|, q);
  }

  /** When nothing is left to expand there is no cycle through start. */
  lemma NothingLeft(g: Edges, start: Id, dist: map<Id, nat>, done: set<Id>, q: seq<Id>)
    requires Search(g, start, [], dist, done) && Cycle(g, q)
    ensures q[0] != start
  {
    if q[0] == start {
      Shortest(g, start, dist, done, |q| + 1, q);
    }
  }

  /** An edge from the first entry back to start closes a shortest cycle. */
  lemma FrontCycle(g: Edges, start: Id, queue: seq<Entry>, dist: map<Id, nat>, done: set<Id>)
    requires Search(g, start, queue, dist, done) && |queue| > 0 && Edge(g, queue[0].node, start)
    ensures Cycle(g, queue[0].path) && queue[0].path[0] == start
    ensures forall q :: Cycle(g, q) && q[0] == start ==> |queue[0].path| <= |q|
  {
    assert Reached(g, start, queue[0], dist);
    forall q | Cycle(g, q) && q[0] == start
      ensures |queue[0].path| <= |q|
    {
      FrontShortest(g, start, queue, dist, done, q);
    }
  }

  lemma SearchStart(g: Edges, start: Id)
    requires start in g
    ensures Search(g, start, [Entry(start, [start])], map[start := 1], {})
  {
    assert [Entry(start, [start])][0].node == start;
  }

  lemma TailSnoc(queue: seq<Entry>, e: Entry)
    requires |queue| > 0
    ensures (queue + [e])[1..] == queue[1..] + [e] && (queue + [e])[0] == queue[0]
  {
  }

  /** The first i edges of a node at distance d have been looked at. */
  ghost predicate Near(es: seq<Id>, i: nat, start: Id, dist: map<Id, nat>, d: nat) {
    forall k :: 0 <= k < |es| && k < i ==> es[k] != start && es[k] in dist && dist[es[k]] <= d + 1
  }

  lemma NearExplored(g: Edges, start: Id, n: Id, dist: map<Id, nat>)
    requires n in g && n in dist && Near(g[n], |g[n]|, start, dist, dist[n])
    ensures Explored(g, start, n, dist)
  {
  }

  lemma NearNext(es: seq<Id>, i: nat, start: Id, dist: map<Id, nat>, dist': map<Id, nat>, d: nat)
    requires i < |es| && es[i] != start && Near(es, i, start, dist, d)
    requires dist' == dist || (es[i] !in dist && dist' == dist[es[i] := d + 1])
    requires es[i] in dist' && dist'[es[i]] <= d + 1
    ensures Near(es, i + 1, start, dist', d)
  {
  }

  /** Queueing a node that the first entry leads to. */
  lemma Enqueue(g: Edges, start: Id, queue: seq<Entry>, dist: map<Id, nat>, done: set<Id>, t: Id)
    requires Search(g, start, queue, dist, done) && |queue| > 0 && t in g
    requires Edge(g, queue[0].node, t) && t !in dist
    ensures Search(g, start, queue + [Entry(t, queue[0].path + [t])], dist[t := |queue[0].path| + 1], done)
  {
    var e := Entry(t, queue[0].path + [t]);
    var queue', dist' := queue + [e], dist[t := |queue[0].path| + 1];
    assert Reached(g, start, queue[0], dist);
    PathSnoc(g, queue[0].path, t);
    forall k | 0 <= k < |queue'|
      ensures Reached(g, start, queue'[k], dist')
    {
      if k < |queue| {
        assert Reached(g, start, queue[k], dist);
      }
    }
    forall n | n in done
      ensures Explored(g, start, n, dist')
    {
      assert Explored(g, start, n, dist);
    }
    forall n | n in dist' && n !in done
      ensures Queued(queue', n)
    {
      if n == t {
        assert queue'[|queue|].node == n;
      } else {
        assert Queued(queue, n);
        var k :| 0 <= k < |queue| && queue[k].node == n;
        assert queue'[k].node == n;
      }
    }
  }

  /** Nodes known when the first entry is expanded are at most one step further away. */
  lemma KnownNear(g: Edges, start: Id, queue: seq<Entry>, dist: map<Id, nat>, done: set<Id>, t: Id)
    requires Search(g, start, queue, dist, done) && |queue| > 0 && t in dist
    ensures dist[t] <= |queue[0].path| + 1
  {
    if t !in done {
      assert Queued(queue, t);
      var k :| 0 <= k < |queue| && queue[k].node == t;
      assert Reached(g, start, queue[k], dist);
    }
  }

  /** The first entry is done when its node is explored. */
  lemma Dequeue(g: Edges, start: Id, queue: seq<Entry>, dist: map<Id, nat>, done: set<Id>)
    requires Search(g, start, queue, dist, done) && |queue| > 0 && Explored(g, start, queue[0].node, dist)
    ensures Search(g, start, queue[1..], dist, done + {queue[0].node})
  {
    assert Reached(g, start, queue[0], dist);
    var rest := queue[1..];
    forall n | n in dist && n !in done && n != queue[0].node
      ensures Queued(rest, n)
    {
      assert Queued(queue, n);
      var k :| 0 <= k < |queue| && queue[k].node == n;
      assert rest[k - 1].node == n;
    }
  }

  lemma {:induction false} DistinctBound(p: seq<Id>, nodes: set<Id>)
    requires Distinct(p) && forall n :: n in p ==> n in nodes
    ensures |p| <= |nodes|
  {
    if p != [] {
      DistinctBound(p[1..], nodes - {p[0]});
    }
  }

  /** A path with more nodes than the graph contains a cycle. */
  lemma LongPathCycle(g: Edges, p: seq<Id>)
    requires Path(g, p) && |p| > |g.Keys| && forall n :: n in p ==> n in g
    ensures !Acyclic(g)
  {
    if Distinct(p) {
      DistinctBound(p, g.Keys);
    }
    var i, j :| 0 <= i < j < |p| && p[i] == p[j];
    var q := p[i..j];
    forall k | 0 < k < |q|
      ensures Edge(g, q[k - 1], q[k])
    {
      assert Edge(g, p[i + k - 1], p[i + k]);
    }
    assert Edge(g, p[j - 1], p[j]);
    assert Cycle(g, q);
  }
}
