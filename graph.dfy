/** The restaurant map (src/data-structures/Graph.ts): an undirected
    weighted graph kept as a symmetric adjacency map, with the edge listing
    and the shortest-route search the map view uses. */
module Graphs {
  import opened Wrappers
  import opened Sequences
  import opened ShortestPaths

  /** JavaScript's `<` on strings: the first differing character decides,
      and a proper prefix comes first. */
  predicate LexLess(a: string, b: string)
    decreases |a|
  {
    if a == [] then b != []
    else if b == [] then false
    else if a[0] != b[0] then a[0] < b[0]
    else LexLess(a[1..], b[1..])
  }

  lemma {:induction false} LexLessIrreflexive(a: string)
    ensures !LexLess(a, a)
    decreases |a|
  {
    if a != [] {
      LexLessIrreflexive(a[1..]);
    }
  }

  /** Of two different strings exactly one is below the other. */
  lemma {:induction false} LexLessTotal(a: string, b: string)
    requires a != b
    ensures LexLess(a, b) != LexLess(b, a)
    decreases |a|
  {
    if a != [] && b != [] && a[0] == b[0] {
      assert a[1..] != b[1..] by {
        assert a == [a[0]] + a[1..] && b == [b[0]] + b[1..];
      }
      LexLessTotal(a[1..], b[1..]);
    }
  }

  /** Every edge is stored in both directions with the same weight. */
  ghost predicate Symmetric(adj: Adjacency)
  {
    forall u, v :: u in adj && v in adj[u] ==> v in adj && u in adj[v] && adj[v][u] == adj[u][v]
  }

  /** The graph's invariant: `order` lists each vertex once, ids are
      non-empty, neighbours are vertices, weights are positive, and every
      edge is stored both ways. */
  ghost predicate GraphInv(adj: Adjacency, order: seq<string>)
  {
    && (forall v :: v in adj <==> v in order)
    && (forall i, j :: 0 <= i < j < |order| ==> order[i] != order[j])
    && (forall v :: v in adj ==> v != "")
    && WellFormed(adj)
    && Symmetric(adj)
  }

  /** `addVertex` on a new vertex keeps the invariant. */
  lemma {:induction false} WithVertexFacts(adj: Adjacency, order: seq<string>, v: string)
    requires GraphInv(adj, order) && v !in adj && v != ""
    ensures GraphInv(adj[v := map[]], order + [v])
  {
    var r := adj[v := map[]];
    forall x, y | x in r && y in r[x]
      ensures y in r && r[x][y] > 0 && x in r[y] && r[y][x] == r[x][y]
    {
      assert x != v && x in adj && y in adj[x];
      assert y != v && r[y] == adj[y];
    }
    assert WellFormed(r);
    assert Symmetric(r);
  }

  /** `r` is `adj` with the pair `u`-`v` stored in both directions with
      weight `w`, and every other entry as it was. */
  ghost predicate EdgeSet(adj: Adjacency, r: Adjacency, u: string, v: string, w: nat)
  {
    && (forall x :: x in r <==> x in adj)
    && (forall x, y :: x in r && x in adj ==> (y in r[x] <==> y in adj[x] || SameEdge(x, y, u, v)))
    && (forall x, y :: x in r && y in r[x] ==> r[x][y] == if SameEdge(x, y, u, v) then w else adj[x][y])
  }

  /** Storing an edge both ways keeps the invariant. */
  lemma {:induction false} EdgeSetKeeps(adj: Adjacency, order: seq<string>, r: Adjacency, u: string, v: string, w: nat)
    requires GraphInv(adj, order) && u in adj && v in adj && w > 0
    requires EdgeSet(adj, r, u, v, w)
    ensures GraphInv(r, order)
  {
    forall x, y | x in r && y in r[x]
      ensures y in r && r[x][y] > 0 && x in r[y] && r[y][x] == r[x][y]
    {
      assert SameEdge(x, y, u, v) <==> SameEdge(y, x, u, v);
    }
  }

  /** What `addEdge` keeps and adds, measured against the graph before
      its two `addVertex` calls. */
  lemma {:induction false} AddEdgeFrame(adj0: Adjacency, adj: Adjacency, r: Adjacency, u: string, v: string, w: nat)
    requires u in adj && v in adj
    requires forall x :: x in adj <==> x in adj0 || x == u || x == v
    requires forall x :: x in adj0 ==> adj[x] == adj0[x]
    requires forall x :: x in adj && x !in adj0 ==> adj[x] == map[]
    requires EdgeSet(adj, r, u, v, w)
    ensures v in r[u] && r[u][v] == w && u in r[v] && r[v][u] == w
    ensures forall x :: x in r <==> x in adj0 || x == u || x == v
    ensures forall x, y :: x in adj0 && y in adj0[x] && !SameEdge(x, y, u, v) ==>
              x in r && y in r[x] && r[x][y] == adj0[x][y]
    ensures forall x, y :: x in r && y in r[x] ==> SameEdge(x, y, u, v) || (x in adj0 && y in adj0[x])
  {
  }

  /** The two `delete` calls of `removeEdge`; a missing endpoint is skipped. */
  function WithoutEdge(adj: Adjacency, u: string, v: string): Adjacency
  {
    var a := if u in adj then adj[u := adj[u] - {v}] else adj;
    if v in a then a[v := a[v] - {u}] else a
  }

  /** Entry by entry, `WithoutEdge` drops exactly the pair `u`-`v`. */
  lemma {:induction false} WithoutEdgeEntries(adj: Adjacency, u: string, v: string)
    ensures var r := WithoutEdge(adj, u, v);
      && (forall x :: x in r <==> x in adj)
      && (forall x, y :: x in r ==> (y in r[x] <==> y in adj[x] && !SameEdge(x, y, u, v)))
      && (forall x, y :: x in r && y in r[x] ==> r[x][y] == adj[x][y])
  {
    var r := WithoutEdge(adj, u, v);
    forall x, y | x in adj
      ensures y in r[x] <==> y in adj[x] && !SameEdge(x, y, u, v)
      ensures y in r[x] ==> r[x][y] == adj[x][y]
    {
      if x == v {
        assert r[x] == (if u in adj then adj[u := adj[u] - {v}] else adj)[v] - {u};
      } else if x == u {
        assert r[x] == adj[u] - {v};
      } else {
        assert r[x] == adj[x];
      }
    }
  }

  lemma {:induction false} WithoutEdgeFacts(adj: Adjacency, order: seq<string>, u: string, v: string)
    requires GraphInv(adj, order)
    ensures GraphInv(WithoutEdge(adj, u, v), order)
  {
    WithoutEdgeEntries(adj, u, v);
    var r := WithoutEdge(adj, u, v);
    forall x, y | x in r && y in r[x]
      ensures y in r && r[x][y] > 0 && x in r[y] && r[y][x] == r[x][y]
    {
      assert SameEdge(x, y, u, v) <==> SameEdge(y, x, u, v);
    }
  }

  /** `removeVertex`'s result: the vertex and every entry naming it gone. */
  function WithoutVertex(adj: Adjacency, v: string): Adjacency
  {
    map x | x in adj && x != v :: adj[x] - {v}
  }

  lemma {:induction false} WithoutVertexFacts(adj: Adjacency, order: seq<string>, v: string)
    requires GraphInv(adj, order)
    ensures GraphInv(WithoutVertex(adj, v), RemoveFirst(order, v))
  {
    RemoveFirstDistinct(order, v);
  }

  /** Deleting `v` from the rows of its neighbours deletes it from every
      row, since only neighbours list it. */
  lemma {:induction false} RemovedEverywhere(adj: Adjacency, a: Adjacency, v: string)
    requires Symmetric(adj) && v in adj
    requires forall x :: x in a <==> x in adj
    requires forall x :: x in a ==> a[x] == if x in adj[v] then adj[x] - {v} else adj[x]
    ensures a - {v} == WithoutVertex(adj, v)
  {
    forall x | x in adj && x !in adj[v]
      ensures adj[x] - {v} == adj[x]
    {
      assert v !in adj[x];
    }
  }

  /** One entry of `getAllEdges`: `[vertex, neighbor, weight]`. */
  datatype WeightedEdge = WeightedEdge(lo: string, hi: string, weight: nat)

  class Graph {
    /** `adjacencyList`. */
    var adj: Adjacency
    /** The vertices in the Map's iteration order, i.e. insertion order. */
    var order: seq<string>

    ghost predicate Valid()
      reads this
    {
      GraphInv(adj, order)
    }

    constructor()
      ensures Valid() && adj == map[] && order == []
    {
      adj := map[];
      order := [];
    }

    /** `addVertex`: a new vertex gets no neighbours and goes last; an
        existing one is left exactly as it was. */
    method AddVertex(v: string)
      requires Valid() && v != ""
      modifies this
      ensures Valid()
      ensures forall x :: x in adj <==> x in old(adj) || x == v
      ensures forall x :: x in old(adj) ==> adj[x] == old(adj)[x]
      ensures v !in old(adj) ==> adj[v] == map[]
      ensures order == old(order) + (if v in old(adj) then [] else [v])
    {
      adj, order := WithVertex(adj, order, v);
    }

    /** `addVertex` (src/data-structures/Graph.ts:5-9) on the map and its
        key order as values. */
    static method WithVertex(adj: Adjacency, order: seq<string>, v: string)
      returns (adj': Adjacency, order': seq<string>)
      requires GraphInv(adj, order) && v != ""
      ensures GraphInv(adj', order')
      ensures forall x :: x in adj' <==> x in adj || x == v
      ensures forall x :: x in adj ==> adj'[x] == adj[x]
      ensures v !in adj ==> adj'[v] == map[]
      ensures order' == order + (if v in adj then [] else [v])
    {
      adj', order' := adj, order;
      assert order + [] == order;
      if v !in adj {
        WithVertexFacts(adj, order, v);
        adj' := adj[v := map[]];
        order' := order + [v];
      }
    }

    /** `addEdge`: both endpoints exist afterwards, both directions carry
        `w` (overwriting an earlier weight), and every other entry is kept. */
    method AddEdge(u: string, v: string, w: nat)
      requires Valid() && u != "" && v != "" && w > 0
      modifies this
      ensures Valid()
      ensures u in adj && v in adj && v in adj[u] && u in adj[v] && adj[u][v] == w && adj[v][u] == w
      ensures forall x :: x in adj <==> x in old(adj) || x == u || x == v
      ensures forall x, y :: x in old(adj) && y in old(adj)[x] && !SameEdge(x, y, u, v) ==>
                x in adj && y in adj[x] && adj[x][y] == old(adj)[x][y]
      ensures forall x, y :: x in adj && y in adj[x] ==> SameEdge(x, y, u, v) || (x in old(adj) && y in old(adj)[x])
      ensures order == old(order) + (if u in old(adj) then [] else [u])
                                  + (if v in old(adj) || v == u then [] else [v])
    {
      adj, order := WithEdge(adj, order, u, v, w);
    }

    /** `addEdge` (src/data-structures/Graph.ts:12-17) on the map and its
        key order as values. */
    static method WithEdge(adj: Adjacency, order: seq<string>, u: string, v: string, w: nat)
      returns (adj': Adjacency, order': seq<string>)
      requires GraphInv(adj, order) && u != "" && v != "" && w > 0
      ensures GraphInv(adj', order')
      ensures u in adj' && v in adj' && v in adj'[u] && u in adj'[v] && adj'[u][v] == w && adj'[v][u] == w
      ensures forall x :: x in adj' <==> x in adj || x == u || x == v
      ensures forall x, y :: x in adj && y in adj[x] && !SameEdge(x, y, u, v) ==>
                x in adj' && y in adj'[x] && adj'[x][y] == adj[x][y]
      ensures forall x, y :: x in adj' && y in adj'[x] ==> SameEdge(x, y, u, v) || (x in adj && y in adj[x])
      ensures order' == order + (if u in adj then [] else [u]) + (if v in adj || v == u then [] else [v])
    {
      var a2, o2 := WithEndpoints(adj, order, u, v);
      adj' := SetBothWays(a2, u, v, w);
      AddEdgeFrame(adj, a2, adj', u, v, w);
      EdgeSetKeeps(a2, o2, adj', u, v, w);
      order' := o2;
    }

    /** The two `addVertex` calls that open `addEdge`
        (src/data-structures/Graph.ts:13-14). */
    static method WithEndpoints(adj: Adjacency, order: seq<string>, u: string, v: string)
      returns (adj': Adjacency, order': seq<string>)
      requires GraphInv(adj, order) && u != "" && v != ""
      ensures GraphInv(adj', order') && u in adj' && v in adj'
      ensures forall x :: x in adj' <==> x in adj || x == u || x == v
      ensures forall x :: x in adj ==> adj'[x] == adj[x]
      ensures forall x :: x in adj' && x !in adj ==> adj'[x] == map[]
      ensures order' == order + (if u in adj then [] else [u]) + (if v in adj || v == u then [] else [v])
    {
      ghost var newU: seq<string> := if u in adj then [] else [u];
      ghost var newV: seq<string> := if v in adj || v == u then [] else [v];
      var a1, o1 := WithVertex(adj, order, u);
      assert o1 == order + newU;
      assert v in a1 <==> v in adj || v == u;
      adj', order' := WithVertex(a1, o1, v);
      assert order' == o1 + newV;
      forall x | x in adj' && x !in adj
        ensures adj'[x] == map[]
      {
        if x in a1 {
          assert x == u && adj'[x] == a1[x];
        }
      }
    }

    /** The two `set` calls of `addEdge` (src/data-structures/Graph.ts:16-17). */
    static method SetBothWays(adj: Adjacency, u: string, v: string, w: nat) returns (r: Adjacency)
      requires u in adj && v in adj
      ensures EdgeSet(adj, r, u, v, w)
    {
      var rowU: map<string, nat> := adj[u][v := w];
      r := adj[u := rowU];
      var rowV: map<string, nat> := r[v][u := w];
      r := r[v := rowV];
      forall x, y | x in adj
        ensures y in r[x] <==> y in adj[x] || SameEdge(x, y, u, v)
        ensures y in r[x] ==> r[x][y] == if SameEdge(x, y, u, v) then w else adj[x][y]
      {
        if x == v {
          assert r[x] == adj[u := rowU][v][u := w];
        } else if x == u {
          assert r[x] == rowU;
        } else {
          assert r[x] == adj[x];
        }
      }
    }

    /** `removeEdge`: exactly the two directed entries go. */
    method RemoveEdge(u: string, v: string)
      requires Valid()
      modifies this
      ensures Valid()
      ensures order == old(order)
      ensures forall x :: x in adj <==> x in old(adj)
      ensures forall x, y :: x in adj ==> (y in adj[x] <==> y in old(adj)[x] && !SameEdge(x, y, u, v))
      ensures forall x, y :: x in adj && y in adj[x] ==> adj[x][y] == old(adj)[x][y]
    {
      WithoutEdgeEntries(adj, u, v);
      WithoutEdgeFacts(adj, order, u, v);
      adj := WithoutEdge(adj, u, v);
    }

    /** `removeVertex`: the vertex leaves the order, and it disappears from
        every neighbour map, because the map is symmetric. */
    method RemoveVertex(v: string)
      requires Valid()
      modifies this
      ensures Valid()
      ensures order == RemoveFirst(old(order), v)
      ensures forall x :: x in adj <==> x in old(adj) && x != v
      ensures forall x :: x in adj ==> adj[x] == old(adj)[x] - {v}
    {
      if v !in adj {
        assert FirstIndex(order, v) == |order|;
        return;
      }
      ghost var adj0 := adj;
      var a := DetachFromNeighbours(adj, v);
      WithoutVertexFacts(adj0, order, v);
      RemovedEverywhere(adj0, a, v);
      adj := a - {v};
      RemoveFirstDistinct(order, v);
      order := RemoveFirst(order, v);
    }

    /** The loop of `removeVertex` (src/data-structures/Graph.ts:30-32):
        delete `v` from the row of each of its neighbours. */
    static method DetachFromNeighbours(adj: Adjacency, v: string) returns (a: Adjacency)
      requires v in adj
      ensures forall x :: x in a <==> x in adj
      ensures forall x :: x in a ==> a[x] == if x in adj[v] then adj[x] - {v} else adj[x]
    {
      a := adj;
      var neighbours := a[v].Keys;
      while neighbours != {}
        invariant neighbours <= adj[v].Keys
        invariant forall x :: x in a <==> x in adj
        invariant forall x :: x in a ==>
                    a[x] == if x in adj[v] && x !in neighbours then adj[x] - {v} else adj[x]
        decreases neighbours
      {
        var x :| x in neighbours;
        if x in a {
          a := a[x := a[x] - {v}];
        }
        neighbours := neighbours - {x};
      }
    }

    /** `getVertices`: every vertex once, in insertion order. */
    method GetVertices() returns (r: seq<string>)
      requires Valid()
      ensures r == order
      ensures forall v :: v in r <==> v in adj
      ensures forall i, j :: 0 <= i < j < |r| ==> r[i] != r[j]
    {
      r := order;
    }

    /** `getEdges`: the neighbour map of a vertex, `undefined` for a
        non-vertex; each listed neighbour lists the vertex back. */
    method GetEdges(v: string) returns (r: Option<map<string, nat>>)
      requires Valid()
      ensures r.Some? <==> v in adj
      ensures r.Some? ==> forall x :: x in r.value ==> x in adj && v in adj[x] && adj[x][v] == r.value[x]
      ensures r.Some? ==> forall x :: x in adj && v in adj[x] ==> x in r.value
    {
      if v in adj {
        r := Some(adj[v]);
      } else {
        r := None;
      }
    }

    /** `getAllEdges`: every stored edge with its endpoints in `<` order,
        no pair twice; so each undirected edge appears exactly once and a
        self-loop never does. */
    method GetAllEdges() returns (r: seq<WeightedEdge>)
      requires Valid()
      ensures forall e :: e in r ==> e.lo in adj && e.hi in adj[e.lo] && adj[e.lo][e.hi] == e.weight
      ensures forall e :: e in r ==> LexLess(e.lo, e.hi) && e.lo != e.hi
      ensures forall u, v :: u in adj && v in adj[u] && LexLess(u, v) ==> WeightedEdge(u, v, adj[u][v]) in r
      ensures forall u, v :: u in adj && v in adj[u] && u != v ==>
                (WeightedEdge(u, v, adj[u][v]) in r) != (WeightedEdge(v, u, adj[v][u]) in r)
      ensures forall i, j :: 0 <= i < j < |r| ==> r[i].lo != r[j].lo || r[i].hi != r[j].hi
    {
      r := [];
      var i := 0;
      while i < |order|
        invariant 0 <= i <= |order|
        invariant forall e :: e in r <==>
                    e.lo in order[..i] && e.hi in adj[e.lo] && e.weight == adj[e.lo][e.hi] && LexLess(e.lo, e.hi)
        invariant forall j, k :: 0 <= j < k < |r| ==> r[j].lo != r[k].lo || r[j].hi != r[k].hi
      {
        var vertex := order[i];
        forall e | e in r
          ensures e.lo != vertex
        {
          var k :| 0 <= k < i && order[k] == e.lo;
        }
        r := EdgesFrom(adj, vertex, r);
        assert order[..i + 1] == order[..i] + [vertex];
        i := i + 1;
      }
      assert order[..i] == order;
      forall e | e in r
        ensures e.lo != e.hi
      {
        LexLessIrreflexive(e.lo);
      }
      forall u, v | u in adj && v in adj[u] && u != v
        ensures (WeightedEdge(u, v, adj[u][v]) in r) != (WeightedEdge(v, u, adj[v][u]) in r)
      {
        LexLessTotal(u, v);
      }
    }

    /** The inner loop of `getAllEdges` (src/data-structures/Graph.ts:49-53):
        append every edge out of `vertex` towards a neighbour above it. */
    static method EdgesFrom(adj: Adjacency, vertex: string, r0: seq<WeightedEdge>) returns (r: seq<WeightedEdge>)
      requires vertex in adj
      requires forall e :: e in r0 ==> e.lo != vertex
      requires forall i, j :: 0 <= i < j < |r0| ==> r0[i].lo != r0[j].lo || r0[i].hi != r0[j].hi
      ensures forall e :: e in r <==>
                e in r0 || (e.lo == vertex && e.hi in adj[vertex] && e.weight == adj[vertex][e.hi] && LexLess(vertex, e.hi))
      ensures forall i, j :: 0 <= i < j < |r| ==> r[i].lo != r[j].lo || r[i].hi != r[j].hi
    {
      r := r0;
      var neighbours := adj[vertex].Keys;
      while neighbours != {}
        invariant neighbours <= adj[vertex].Keys
        invariant forall e :: e in r <==>
                    e in r0 || (e.lo == vertex && e.hi in adj[vertex] && e.hi !in neighbours
                                && e.weight == adj[vertex][e.hi] && LexLess(vertex, e.hi))
        invariant forall i, j :: 0 <= i < j < |r| ==> r[i].lo != r[j].lo || r[i].hi != r[j].hi
        decreases neighbours
      {
        var neighbour :| neighbour in neighbours;
        neighbours := neighbours - {neighbour};
        if LexLess(vertex, neighbour) {
          r := r + [WeightedEdge(vertex, neighbour, adj[vertex][neighbour])];
        }
      }
    }

    /** The inner loop of `dijkstra` (src/data-structures/Graph.ts:137-149):
        relax each edge out of the settled vertex `c` towards an unsettled
        neighbour. */
    method Relax(c: string, visited: set<string>, dist: map<string, Dist>, prev: map<string, string>)
      returns (dist': map<string, Dist>, prev': map<string, string>)
      requires c in adj && c in visited && c in dist && dist[c].Fin?
      requires forall v :: v in adj[c] ==> v in dist
      ensures RelaxedFrom(adj, visited, c, dist, prev, dist', prev')
    {
      dist', prev' := dist, prev;
      var neighbours := adj[c].Keys;
      while neighbours != {}
        invariant neighbours <= adj[c].Keys
        invariant forall v :: v in dist' <==> v in dist
        invariant forall v :: v in dist ==>
                    dist'[v] == if v !in neighbours && Improves(adj, visited, c, dist, v)
                                then Fin(dist[c].n + adj[c][v]) else dist[v]
        invariant forall v :: v in prev' <==> v in prev || (v !in neighbours && Improves(adj, visited, c, dist, v))
        invariant forall v :: v in prev' ==>
                    prev'[v] == if v !in neighbours && Improves(adj, visited, c, dist, v) then c else prev[v]
        decreases neighbours
      {
        var neighbour :| neighbour in neighbours;
        var weight := adj[c][neighbour];
        neighbours := neighbours - {neighbour};
        if neighbour !in visited {
          // `distances.get(current) || 0`: the settled distance is finite
          var currentDistance := dist'[c].n;
          var newDistance := currentDistance + weight;
          var neighbourDistance := OrInfinity(dist'[neighbour]);
          if Less(Fin(newDistance), neighbourDistance) {
            dist' := dist'[neighbour := Fin(newDistance)];
            prev' := prev'[neighbour := c];
          }
        }
      }
    }

    /** The main loop of `dijkstra` (src/data-structures/Graph.ts:99-150):
        settle the closest unsettled vertex and relax its edges, until the
        closest one is `end` (`reached`) or none is finite. */
    method Explore(start: string, end: string, vertices: seq<string>, dist0: map<string, Dist>)
      returns (visited: set<string>, dist: map<string, Dist>, prev: map<string, string>, reached: bool)
      requires Valid() && vertices == order
      requires Inv(adj, start, end, {}, dist0, map[])
      ensures Inv(adj, start, end, visited, dist, prev)
      ensures reached ==> dist[end].Fin? && Shortest(adj, start, end, dist[end].n)
      ensures !reached ==> forall v :: v in adj && v !in visited ==> dist[v] == Inf
    {
      visited, dist, prev, reached := {}, dist0, map[], false;
      SettledFewer(vertices, visited, end);
      while |visited| < |vertices|
        invariant Inv(adj, start, end, visited, dist, prev)
        invariant |visited| < |vertices|
        invariant !reached
        decreases |vertices| - |visited|
      {
        var current, minDistance := SelectClosest(vertices, visited, dist);
        if current.None? || minDistance == Inf {
          return;
        }
        var c := current.value;
        if c == end {
          ClosestIsShortest(adj, start, end, visited, dist, prev, c);
          reached := true;
          return;
        }
        var settled := visited + {c};
        assert |settled| == |visited| + 1 by {
          assert c !in visited && visited * {c} == {};
        }
        var dist', prev' := Relax(c, settled, dist, prev);
        SettleKeepsInv(adj, start, end, visited, dist, prev, c, dist', prev');
        visited, dist, prev := settled, dist', prev';
        SettledFewer(vertices, visited, end);
      }
    }

    /** `dijkstra` (src/data-structures/Graph.ts:71-175). */
    method Dijkstra(start: string, end: string) returns (r: Option<Route>)
      requires Valid()
      ensures start !in adj || end !in adj ==> r.None?
      ensures r.Some? ==> PathFromTo(adj, r.value.path, start, end)
      ensures r.Some? && start != end ==>
                r.value.distance == Fin(PathWeight(adj, r.value.path))
                && Shortest(adj, start, end, PathWeight(adj, r.value.path))
      ensures start in adj && end in adj && r.None? ==> forall p :: !PathFromTo(adj, p, start, end)
      ensures start == end && start in adj ==> r == Some(Route([start], Inf))
    {
      if start !in adj || end !in adj {
        return None;
      }
      var vertices := order;
      var dist0 := InitialDistances(vertices, start);
      InitialInv(adj, start, end, dist0);
      var visited, dist, prev, reached := Explore(start, end, vertices, dist0);
      var path := TracePath(adj, start, end, visited, dist, prev);
      TraceOutcome(adj, start, end, visited, dist, prev, reached, path);
      if path[0] != start {
        return None;
      }
      r := Some(Route(path, OrInfinity(dist[end])));
    }
  }

  /** Two ordered pairs name the same undirected edge. */
  predicate SameEdge(x: string, y: string, u: string, v: string)
  {
    (x == u && y == v) || (x == v && y == u)
  }
}
