/** The lock order checker, core/kernel/lockdep.c. */
module Lockdep {
  import opened Options
  import opened LockGraph

  datatype Result = Success | BadState | ItemNotFound

  /** The depth-first search: order holds the permanently marked nodes, stack the nodes being visited. */
  ghost predicate Marks(g: Edges, temp: set<Id>, perm: set<Id>, stack: seq<Id>, order: seq<Id>) {
    && (forall n :: n in perm <==> n in order)
    && (forall n :: n in temp <==> n in order || n in stack)
    && Topological(g, order)
    && (stack == [] || Path(g, stack))
    && temp <= g.Keys
  }

  /** Marking n permanently once everything it leads to is marked. */
  lemma MarkDone(g: Edges, temp: set<Id>, perm: set<Id>, stack: seq<Id>, order: seq<Id>, n: Id)
    requires Marks(g, temp, perm, stack + [n], order) && (stack == [] || Path(g, stack))
    requires forall t :: Edge(g, n, t) ==> t in order
    ensures Marks(g, temp, perm + {n}, stack, order + [n])
  {
    TopologicalSnoc(g, order, n);
  }

  /** es without id. */
  function Without(es: seq<Id>, id: Id): (r: seq<Id>)
    ensures forall t :: t in r <==> t in es && t != id
  {
    if es == [] then [] else (if es[0] == id then [] else [es[0]]) + Without(es[1..], id)
  }

  lemma {:induction false} WithoutConcat(a: seq<Id>, b: seq<Id>, id: Id)
    ensures Without(a + b, id) == Without(a, id) + Without(b, id)
  {
    if a == [] {
      assert a + b == b;
    } else {
      assert (a + b)[1..] == a[1..] + b;
      WithoutConcat(a[1..], b, id);
    }
  }

  lemma {:induction false} WithoutNone(a: seq<Id>, id: Id)
    requires id !in a
    ensures Without(a, id) == a
  {
    if a != [] {
      WithoutNone(a[1..], id);
    }
  }

  /** Taking out one occurrence of id makes no difference. */
  lemma WithoutAt(a: seq<Id>, k: nat, id: Id)
    requires k < |a| && a[k] == id
    ensures Without(a[..k] + a[k + 1..], id) == Without(a, id)
  {
    assert a == a[..k] + ([id] + a[k + 1..]);
    WithoutConcat(a[..k], [id] + a[k + 1..], id);
    WithoutConcat([id], a[k + 1..], id);
    WithoutConcat(a[..k], a[k + 1..], id);
  }

  /** The removal of edges in lockdep_node_destroy: first at the head of the list, then after it. */
  method RemoveEdgesTo(es: seq<Id>, id: Id) returns (r: seq<Id>)
    ensures r == Without(es, id)
  {
    r := es;
    while r != [] && r[0] == id
      invariant Without(r, id) == Without(es, id)
      decreases |r|
    {
      r := r[1..];
    }
    if r == [] {
      return;
    }
    var edge := 0;
    while edge + 1 < |r|
      invariant edge < |r| && id !in r[..edge + 1]
      invariant Without(r, id) == Without(es, id)
      decreases |r| - edge
    {
      if r[edge + 1] == id {
        WithoutAt(r, edge + 1, id);
        r := r[..edge + 1] + r[edge + 2..];
      } else {
        edge := edge + 1;
      }
    }
    assert r[..edge + 1] == r;
    WithoutNone(r, id);
  }

  /**
   __lockdep_lock_release: the most recent entry for the lock is removed, or the error is
   that there is none.
   */
  method Release(owned: seq<Id>, id: Id) returns (res: Result, owned': seq<Id>)
    ensures res == if id in owned then Success else ItemNotFound
    ensures res.Success? ==> exists k ::
      0 <= k < |owned| && owned[k] == id && id !in owned[k + 1..] && owned' == owned[..k] + owned[k + 1..]
    ensures !res.Success? ==> owned' == owned
  {
    var k := |owned|;
    while k > 0
      invariant 0 <= k <= |owned| && id !in owned[k..]
    {
      k := k - 1;
      if owned[k] == id {
        return Success, owned[..k] + owned[k + 1..];
      }
    }
    assert owned[0..] == owned;
    return ItemNotFound, owned;
  }

  /** The list of nodes and the edges out of each. */
  ghost predicate WellFormed(nodes: seq<Id>, g: Edges) {
    && (forall n :: n in nodes <==> n in g)
    && Distinct(nodes)
    && Closed(g)
  }

  /** struct lockdep_node_head with its nodes; the flags of all nodes are kept in three sets. */
  class Graph {
    var nodes: seq<Id>
    var edges: Edges
    var temp: set<Id>
    var perm: set<Id>
    var visited: set<Id>

    ghost predicate Valid()
      reads this
    {
      WellFormed(nodes, edges)
    }

    ghost predicate Clear()
      reads this
    {
      temp == {} && perm == {} && visited == {}
    }

    constructor ()
      ensures Valid() && Clear() && nodes == []
    {
      nodes, edges, temp, perm, visited := [], map[], {}, {}, {};
    }

    /** lockdep_add_to_graph. */
    method AddToGraph(id: Id)
      requires Valid()
      modifies this`nodes, this`edges
      ensures Valid() && Extended(old(edges), edges, [], id)
      ensures nodes == if id in old(nodes) then old(nodes) else old(nodes) + [id]
    {
      for i := 0 to |nodes|
        invariant nodes == old(nodes) && edges == old(edges)
        invariant forall k :: 0 <= k < i ==> nodes[k] != id
      {
        if nodes[i] == id {
          return;
        }
      }
      ghost var g := edges;
      edges := edges[id := []];
      nodes := nodes + [id];
      assert forall a, b :: Edge(edges, a, b) <==> Edge(g, a, b);
    }

    /** lockdep_add_edge. */
    method AddEdge(from: Id, to: Id)
      requires Valid() && from in edges && to in edges
      modifies this`edges
      ensures Valid() && Extended(old(edges), edges, [from], to)
    {
      var es := edges[from];
      for i := 0 to |es|
        invariant edges == old(edges)
        invariant forall k :: 0 <= k < i ==> es[k] != to
      {
        if es[i] == to {
          return;
        }
      }
      ghost var g := edges;
      edges := edges[from := es + [to]];
      assert forall a, b :: Edge(edges, a, b) <==> Edge(g, a, b) || (a == from && b == to);
    }

    /**
     lockdep_visit. The ghost stack is the path that the recursion has taken so far; on
     failure it closes the cycle.
     */
    method Visit(n: Id, ghost stack: seq<Id>, ghost order: seq<Id>)
      returns (ok: bool, ghost order': seq<Id>, ghost cycle: seq<Id>)
      requires Valid() && n in edges && Marks(edges, temp, perm, stack, order)
      requires stack == [] || Edge(edges, stack[|stack| - 1], n)
      modifies this`temp, this`perm
      ensures old(temp) <= temp
      ensures ok ==> Marks(edges, temp, perm, stack, order') && n in order' && forall k :: k in order ==> k in order'
      ensures !ok ==> Cycle(edges, cycle)
      decreases edges.Keys - temp
    {
      ghost var g := edges;
      order', cycle := order, [];
      if n in perm {
        return true, order', cycle;
      }
      if n in temp {
        cycle := BackEdge(g, stack, n);
        return false, order', cycle;
      }
      temp := temp + {n};
      PathSnoc(g, stack, n);
      var es := edges[n];
      for i := 0 to |es|
        invariant old(temp) + {n} <= temp
        invariant Marks(g, temp, perm, stack + [n], order')
        invariant forall k :: 0 <= k < i ==> es[k] in order'
        invariant forall k :: k in order ==> k in order'
      {
        assert Edge(g, n, es[i]);
        ok, order', cycle := Visit(es[i], stack + [n], order');
        if !ok {
          return;
        }
      }
      MarkDone(g, temp, perm, stack, order', n);
      perm := perm + {n};
      order' := order' + [n];
      ok := true;
    }

    /** lockdep_graph_sort: it succeeds exactly for acyclic graphs; on failure the flags stay set. */
    method Sort() returns (ok: bool)
      requires Valid() && Clear()
      modifies this`temp, this`perm, this`visited
      ensures ok <==> Acyclic(edges)
      ensures ok ==> Clear()
      ensures !ok ==> visited == {}
    {
      ghost var order: seq<Id>, cycle: seq<Id> := [], [];
      for i := 0 to |nodes|
        invariant visited == {} && Marks(edges, temp, perm, [], order)
        invariant forall k :: 0 <= k < i ==> nodes[k] in order
      {
        if nodes[i] !in temp && nodes[i] !in perm && nodes[i] !in visited {
          assert nodes[i] in nodes;
          ghost var before := order;
          ok, order, cycle := Visit(nodes[i], [], order);
          if !ok {
            return;
          }
        }
      }
      OrderedAcyclic(edges, order);
      ClearFlags();
      ok := true;
    }

    /** The loop that sets the flags of all nodes to zero. */
    method ClearFlags()
      requires Valid() && visited == {} && temp <= edges.Keys && perm <= edges.Keys
      modifies this`temp, this`perm, this`visited
      ensures Clear()
    {
      for i := 0 to |nodes|
        invariant visited == {} && temp <= edges.Keys && perm <= edges.Keys
        invariant forall k :: 0 <= k < i ==> nodes[k] !in temp && nodes[k] !in perm
      {
        temp, perm, visited := temp - {nodes[i]}, perm - {nodes[i]}, visited - {nodes[i]};
      }
    }

    /** lockdep_graph_get_shortest_cycle. */
    method ShortestCycle(start: Id) returns (r: Option<seq<Id>>)
      requires Valid() && visited == {} && start in edges
      modifies this`visited
      ensures r.Some? ==> Cycle(edges, r.value) && r.value[0] == start
      ensures r.Some? ==> forall q :: Cycle(edges, q) && q[0] == start ==> |r.value| <= |q|
      ensures r.None? ==> forall q :: Cycle(edges, q) ==> q[0] != start
    {
      visited := visited + {start};
      var queue := [Entry(start, [start])];
      ghost var dist: map<Id, nat>, done: set<Id> := map[start := 1], {};
      SearchStart(edges, start);
      while queue != []
        invariant Search(edges, start, queue, dist, done)
        invariant visited == dist.Keys <= edges.Keys
        decreases edges.Keys - visited, |queue|
      {
        var found;
        ghost var all;
        ghost var unseen := edges.Keys - visited;
        found, queue, all, dist := Expand(start, queue, dist, done);
        if found.Some? {
          FrontCycle(edges, start, all, dist, done);
          return found;
        }
        Dequeue(edges, start, all, dist, done);
        done := done + {all[0].node};
      }
      forall q | Cycle(edges, q)
        ensures q[0] != start
      {
        NothingLeft(edges, start, dist, done, q);
      }
      return None;
    }

    /** The loop over the edges of the first entry of the queue; all is the queue with that entry. */
    method Expand(start: Id, queue: seq<Entry>, ghost dist: map<Id, nat>, ghost done: set<Id>)
      returns (found: Option<seq<Id>>, queue': seq<Entry>, ghost all: seq<Entry>, ghost dist': map<Id, nat>)
      requires Valid() && queue != [] && Search(edges, start, queue, dist, done)
      requires visited == dist.Keys <= edges.Keys
      modifies this`visited
      ensures old(visited) <= visited == dist'.Keys <= edges.Keys
      ensures all != [] && queue' == all[1..] && (visited == old(visited) ==> |all| == |queue|)
      ensures Search(edges, start, all, dist', done)
      ensures found.Some? ==> Edge(edges, all[0].node, start) && found.value == all[0].path
      ensures found.None? ==> Explored(edges, start, all[0].node, dist')
    {
      var g, e := edges, queue[0];
      queue', all, dist' := queue[1..], queue, dist;
      assert Reached(g, start, e, dist);
      var es := g[e.node];
      for i := 0 to |es|
        invariant old(visited) <= visited == dist'.Keys <= g.Keys
        invariant all != [] && all[0] == e && queue' == all[1..] && (visited == old(visited) ==> |all| == |queue|)
        invariant Search(g, start, all, dist', done)
        invariant dist'[e.node] == |e.path|
        invariant Near(es, i, start, dist', |e.path|)
      {
        assert Edge(g, e.node, es[i]);
        if es[i] == start {
          return Some(e.path), queue', all, dist';
        }
        queue', all, dist' := Look(g, start, es, i, e, queue', all, dist', done);
      }
      NearExplored(g, start, e.node, dist');
      found := None;
    }

    /** One edge of the first entry e. */
    method Look(g: Edges, start: Id, es: seq<Id>, i: nat, e: Entry, queue: seq<Entry>, ghost all: seq<Entry>,
                ghost dist: map<Id, nat>, ghost done: set<Id>)
      returns (queue': seq<Entry>, ghost all': seq<Entry>, ghost dist': map<Id, nat>)
      requires i < |es| && es[i] != start && es[i] in g && Edge(g, e.node, es[i])
      requires all != [] && all[0] == e && queue == all[1..] && Search(g, start, all, dist, done)
      requires visited == dist.Keys && Near(es, i, start, dist, |e.path|)
      modifies this`visited
      ensures visited == old(visited) + {es[i]} && visited == dist'.Keys
      ensures all' != [] && all'[0] == e && queue' == all'[1..] && (visited == old(visited) ==> all' == all)
      ensures Search(g, start, all', dist', done) && Near(es, i + 1, start, dist', |e.path|)
      ensures e.node in dist ==> e.node in dist' && dist'[e.node] == dist[e.node]
    {
      queue', all', dist' := queue, all, dist;
      if es[i] !in visited {
        var t := Entry(es[i], e.path + [es[i]]);
        Enqueue(g, start, all, dist, done, es[i]);
        TailSnoc(all, t);
        visited := visited + {es[i]};
        queue', all', dist' := queue + [t], all + [t], dist[es[i] := |e.path| + 1];
      } else {
        KnownNear(g, start, all, dist, done, es[i]);
      }
      NearNext(es, i, start, dist, dist', |e.path|);
    }

    /**
     __lockdep_lock_acquire: the check succeeds exactly when the edges from all owned locks
     leave the graph acyclic. When it is the first to fail, a shortest cycle is found and it
     contains the requested lock.
     */
    method Acquire(owned: seq<Id>, id: Id) returns (res: Result, owned': seq<Id>, cycle: Option<seq<Id>>)
      requires Valid() && Clear() && forall o :: o in owned ==> o in edges
      modifies this
      ensures Valid() && Extended(old(edges), edges, owned, id)
      ensures res == if Acyclic(edges) then Success else BadState
      ensures res.Success? ==> Clear() && owned' == owned + [id]
      ensures !res.Success? ==> owned' == owned
      ensures !res.Success? && Acyclic(old(edges)) ==> cycle.Some? && Cycle(edges, cycle.value) && cycle.value[0] == id
      ensures !res.Success? && Acyclic(old(edges)) ==> forall q :: Cycle(edges, q) ==> |cycle.value| <= |q|
    {
      ghost var g := edges;
      cycle := None;
      AddToGraph(id);
      for i := 0 to |owned|
        invariant Valid() && Clear() && Extended(g, edges, owned[..i], id)
      {
        ghost var before := edges;
        assert owned[i] in owned;
        AddEdge(owned[i], id);
        ExtendMore(g, before, edges, owned, i, id);
      }
      assert owned[..|owned|] == owned;
      var ok := Sort();
      if ok {
        return Success, owned + [id], None;
      }
      cycle := ShortestCycle(id);
      if Acyclic(g) {
        ShortestOverall(g, edges, owned, id, if cycle.Some? then cycle.value else []);
        var p :| Cycle(edges, p);
        var q := NewCycle(g, edges, owned, id, p);
      }
      return BadState, owned, cycle;
    }

    /** __lockdep_lock_tryacquire: no edges, since the lock has been taken without waiting. */
    method TryAcquire(owned: seq<Id>, id: Id) returns (owned': seq<Id>)
      requires Valid()
      modifies this`nodes, this`edges
      ensures Valid() && Extended(old(edges), edges, [], id) && owned' == owned + [id]
    {
      AddToGraph(id);
      owned' := owned + [id];
    }

    /** lockdep_find_edge. */
    method FindEdge(from: Id, to: Id) returns (found: bool)
      requires Valid()
      ensures found <==> Edge(edges, from, to)
    {
      for i := 0 to |nodes|
        invariant forall k :: 0 <= k < i && nodes[k] == from ==> !Edge(edges, from, to)
      {
        assert nodes[i] in nodes;
        if nodes[i] == from {
          var es := edges[from];
          for j := 0 to |es|
            invariant forall k :: 0 <= k < j ==> es[k] != to
          {
            if es[j] == to {
              return true;
            }
          }
        }
      }
      assert from in edges ==> from in nodes;
      found := false;
    }

    /** lockdep_print_cycle_info, as the list of edges that it prints; every one exists. */
    method ReportCycle(cycle: seq<Id>) returns (pairs: seq<(Id, Id)>)
      requires Valid() && Cycle(edges, cycle)
      ensures |pairs| == |cycle|
      ensures forall i :: 0 <= i < |pairs| ==> pairs[i] == (cycle[i], cycle[if i + 1 == |cycle| then 0 else i + 1])
    {
      var p, from, to := 0, 0, 0;
      pairs := [];
      while p < |cycle|
        invariant p <= |cycle| && |pairs| == (if p == 0 then 0 else p - 1) && (p > 0 ==> to == cycle[p - 1])
        invariant forall i :: 0 <= i < |pairs| ==> pairs[i] == (cycle[i], cycle[i + 1])
      {
        if p != 0 {
          from := to;
        }
        to := cycle[p];
        if p != 0 {
          var found := FindEdge(from, to);
          assert found;
          pairs := pairs + [(from, to)];
        }
        p := p + 1;
      }
      from, to := to, cycle[0];
      var found := FindEdge(from, to);
      assert found;
      pairs := pairs + [(from, to)];
    }

    /** lockdep_lock_destroy: the node goes, with all edges from it and to it, and nothing else. */
    method Destroy(id: Id)
      requires Valid()
      modifies this`nodes, this`edges
      ensures Valid() && nodes == Without(old(nodes), id)
      ensures forall a, b :: Edge(edges, a, b) <==> Edge(old(edges), a, b) && a != id && b != id
    {
      ghost var g, was := edges, nodes;
      for k := 0 to |nodes|
        invariant nodes == was && edges == g && id !in nodes[..k]
      {
        if nodes[k] == id {
          Unlink(k, id);
          return;
        }
      }
      assert nodes[..|nodes|] == nodes;
      WithoutNone(nodes, id);
    }

    /** lockdep_node_destroy, for the node at position at. */
    method Unlink(at: nat, id: Id)
      requires Valid() && at < |nodes| && nodes[at] == id
      modifies this`nodes, this`edges
      ensures Valid() && nodes == Without(old(nodes), id)
      ensures forall a, b :: Edge(edges, a, b) <==> Edge(old(edges), a, b) && a != id && b != id
    {
      ghost var was := nodes;
      nodes := nodes[..at] + nodes[at + 1..];
      UnlinkedNodes(was, at, id);
      var g := DropEdges(nodes, edges, id);
      UnlinkedEdges(was, edges, nodes, g, id);
      edges := WithoutNode(g, id);
    }
  }

  lemma UnlinkedNodes(a: seq<Id>, k: nat, id: Id)
    requires Distinct(a) && k < |a| && a[k] == id
    ensures a[..k] + a[k + 1..] == Without(a, id) && Distinct(Without(a, id))
  {
    var r := a[..k] + a[k + 1..];
    assert Distinct(r) && id !in r;
    WithoutAt(a, k, id);
    WithoutNone(r, id);
  }

  /** The loop over all remaining nodes. */
  method DropEdges(nodes: seq<Id>, g: Edges, id: Id) returns (g': Edges)
    requires forall n :: n in nodes ==> n in g
    requires Distinct(nodes)
    ensures g'.Keys == g.Keys && forall n :: n in nodes ==> g'[n] == Without(g[n], id)
  {
    g' := g;
    for i := 0 to |nodes|
      invariant g'.Keys == g.Keys
      invariant forall k :: 0 <= k < i ==> g'[nodes[k]] == Without(g[nodes[k]], id)
      invariant forall k :: i <= k < |nodes| ==> g'[nodes[k]] == g[nodes[k]]
    {
      var es := RemoveEdgesTo(g'[nodes[i]], id);
      g' := g'[nodes[i] := es];
    }
  }

  lemma UnlinkedEdges(nodes: seq<Id>, g: Edges, nodes': seq<Id>, g': Edges, id: Id)
    requires WellFormed(nodes, g) && (forall n :: n in nodes' <==> n in nodes && n != id)
    requires g'.Keys == g.Keys && forall n :: n in nodes' ==> g'[n] == Without(g[n], id)
    requires Distinct(nodes')
    ensures WellFormed(nodes', WithoutNode(g', id))
    ensures forall a, b :: Edge(WithoutNode(g', id), a, b) <==> Edge(g, a, b) && a != id && b != id
  {
    var h := WithoutNode(g', id);
    forall a, b
      ensures Edge(h, a, b) <==> Edge(g, a, b) && a != id && b != id
    {
      assert a in g && a != id ==> a in nodes';
    }
  }

  function WithoutNode(g: Edges, id: Id): Edges {
    map n | n in g && n != id :: g[n]
  }
}
