/** Paths, weights and the bookkeeping of `dijkstra`
    (src/data-structures/Graph.ts:71-175): the distance and predecessor
    tables it keeps, the invariant they satisfy between rounds, the
    minimum-selection scan and the predecessor walk that rebuilds the path. */
module ShortestPaths {
  import opened Wrappers
  import opened Sequences

  /** Vertex id to (neighbour id to edge weight). */
  type Adjacency = map<string, map<string, nat>>

  /** A tentative distance; `Inf` is JavaScript's `Infinity`. */
  datatype Dist = Fin(n: nat) | Inf

  /** What `dijkstra` returns when it finds a route. */
  datatype Route = Route(path: seq<string>, distance: Dist)

  predicate Less(a: Dist, b: Dist)
  {
    a.Fin? && (b.Inf? || a.n < b.n)
  }

  /** `distances.get(v) ?? Infinity`. */
  function DistOf(dist: map<string, Dist>, v: string): Dist
  {
    if v in dist then dist[v] else Inf
  }

  /** `d || Infinity`: JavaScript reads a distance of 0 as false. */
  function OrInfinity(d: Dist): (r: Dist)
    ensures r == Inf <==> d == Fin(0) || d == Inf
    ensures r != Inf ==> r == d
  {
    if d == Fin(0) then Inf else d
  }

  /** Every neighbour is a vertex and every weight is positive. */
  ghost predicate WellFormed(adj: Adjacency)
  {
    forall u, v :: u in adj && v in adj[u] ==> v in adj && adj[u][v] > 0
  }

  /** A non-empty walk along edges. */
  ghost predicate IsPath(adj: Adjacency, p: seq<string>)
  {
    && |p| >= 1
    && (forall i :: 0 <= i < |p| ==> p[i] in adj)
    && (forall i :: 0 <= i < |p| - 1 ==> p[i + 1] in adj[p[i]])
  }

  ghost predicate PathFromTo(adj: Adjacency, p: seq<string>, s: string, t: string)
  {
    IsPath(adj, p) && p[0] == s && p[|p| - 1] == t
  }

  /** The sum of the edge weights along a path. */
  ghost function PathWeight(adj: Adjacency, p: seq<string>): nat
    requires IsPath(adj, p)
    decreases |p|
  {
    if |p| == 1 then 0 else adj[p[0]][p[1]] + PathWeight(adj, p[1..])
  }

  /** `d` is at most the weight of every path from `s` to `t`. */
  ghost predicate Shortest(adj: Adjacency, s: string, t: string, d: nat)
  {
    forall p :: PathFromTo(adj, p, s, t) ==> d <= PathWeight(adj, p)
  }

  /** Cutting a path at position `i` gives two paths whose weights add up. */
  lemma {:induction false} PathSplit(adj: Adjacency, p: seq<string>, i: nat)
    requires IsPath(adj, p) && i < |p|
    ensures IsPath(adj, p[..i + 1]) && IsPath(adj, p[i..])
    ensures PathWeight(adj, p) == PathWeight(adj, p[..i + 1]) + PathWeight(adj, p[i..])
  {
    if i > 0 {
      var q := p[1..];
      PathSplit(adj, q, i - 1);
      assert q[..i] == p[1..i + 1];
      assert q[i - 1..] == p[i..];
      assert p[..i + 1][1..] == q[..i];
    } else {
      assert p[0..] == p;
    }
  }

  /** A path that starts inside `visited` and ends outside it has a first
      edge leaving `visited`. */
  lemma {:induction false} FirstExit(p: seq<string>, visited: set<string>) returns (i: nat)
    requires |p| >= 1 && p[0] in visited && p[|p| - 1] !in visited
    ensures 0 < i < |p| && p[i - 1] in visited && p[i] !in visited
  {
    i := 1;
    while p[i] in visited
      invariant 1 <= i < |p| && p[i - 1] in visited
      decreases |p| - i
    {
      i := i + 1;
    }
  }

  /** The fixed facts about the tables of `dijkstra`: one distance per
      vertex, `start` at 0 with no predecessor, `end` not yet settled, and
      `start` settled first. */
  ghost predicate Tables(adj: Adjacency, start: string, end: string, visited: set<string>,
                         dist: map<string, Dist>, prev: map<string, string>)
  {
    && start in adj && end in adj
    && (forall v :: v in dist <==> v in adj)
    && (forall v :: v in prev ==> v in adj)
    && (forall v :: v in visited ==> v in adj)
    && end !in visited
    && (visited != {} ==> start in visited)
    && start in dist && dist[start] == Fin(0) && start !in prev
  }

  /** `u` is a settled predecessor of `v`: `v`'s distance is `u`'s plus the edge. */
  ghost predicate Link(adj: Adjacency, visited: set<string>, dist: map<string, Dist>, u: string, v: string)
  {
    && u in visited && u in adj && v in adj[u] && u in dist && v in dist
    && dist[u].Fin? && dist[v] == Fin(dist[u].n + adj[u][v])
  }

  /** A predecessor exists exactly for the other vertices already reached,
      and it is a settled link. */
  ghost predicate Links(adj: Adjacency, start: string, visited: set<string>,
                        dist: map<string, Dist>, prev: map<string, string>)
  {
    && (forall v :: v in adj && v in dist ==> (v in prev <==> v != start && dist[v].Fin?))
    && (forall v :: v in prev ==> Link(adj, visited, dist, prev[v], v))
  }

  /** Settled distances are shortest. */
  ghost predicate Settled(adj: Adjacency, start: string, visited: set<string>, dist: map<string, Dist>)
  {
    forall u :: u in visited ==> u in dist && dist[u].Fin? && Shortest(adj, start, u, dist[u].n)
  }

  /** Every edge out of the settled set has been relaxed. */
  ghost predicate Frontier(adj: Adjacency, visited: set<string>, dist: map<string, Dist>)
  {
    forall u, v :: u in visited && u in adj && v in adj[u] && v !in visited && u in dist && v in dist && dist[u].Fin? ==>
      dist[v].Fin? && dist[v].n <= dist[u].n + adj[u][v]
  }

  /** Settled vertices are no farther than unsettled ones. */
  ghost predicate Ordered(visited: set<string>, dist: map<string, Dist>)
  {
    forall u, v :: u in visited && v !in visited && u in dist && v in dist && dist[u].Fin? && dist[v].Fin? ==>
      dist[u].n <= dist[v].n
  }

  /** The state of `dijkstra` between two rounds of its main loop, for the
      settled set `visited`, the distance table `dist` and the predecessor
      table `prev` (absent entries are the source's nulls). */
  ghost predicate Inv(adj: Adjacency, start: string, end: string, visited: set<string>,
                      dist: map<string, Dist>, prev: map<string, string>)
  {
    && Tables(adj, start, end, visited, dist, prev)
    && Links(adj, start, visited, dist, prev)
    && Settled(adj, start, visited, dist)
    && Frontier(adj, visited, dist)
    && Ordered(visited, dist)
  }

  /** `c` is what the selection scan picks: an unsettled vertex with the
      least finite distance. */
  ghost predicate Closest(adj: Adjacency, visited: set<string>, dist: map<string, Dist>, c: string)
  {
    && c in adj && c !in visited && c in dist && dist[c].Fin?
    && forall v :: v in adj && v !in visited && v in dist && dist[v].Fin? ==> dist[c].n <= dist[v].n
  }

  /** The relaxation test of the inner loop: `v` is an unsettled neighbour
      of `c` and going through `c` beats `distances.get(v) || Infinity`. */
  ghost predicate Improves(adj: Adjacency, visited: set<string>, c: string, dist: map<string, Dist>, v: string)
  {
    && c in adj && c in dist && dist[c].Fin?
    && v in adj[c] && v !in visited && v in dist
    && Less(Fin(dist[c].n + adj[c][v]), OrInfinity(dist[v]))
  }

  /** The tables after relaxing every edge out of `c` once. */
  ghost predicate RelaxedFrom(adj: Adjacency, visited: set<string>, c: string,
                              dist0: map<string, Dist>, prev0: map<string, string>,
                              dist1: map<string, Dist>, prev1: map<string, string>)
  {
    && (forall v :: v in dist1 <==> v in dist0)
    && (forall v :: v in dist0 ==>
          dist1[v] == if Improves(adj, visited, c, dist0, v) then Fin(dist0[c].n + adj[c][v]) else dist0[v])
    && (forall v :: v in prev1 <==> v in prev0 || Improves(adj, visited, c, dist0, v))
    && (forall v :: v in prev1 ==>
          prev1[v] == if Improves(adj, visited, c, dist0, v) then c else prev0[v])
  }

  /** The initialisation loop of `dijkstra` (src/data-structures/Graph.ts:86-89):
      0 for `start`, `Infinity` for every other vertex. */
  method InitialDistances(vertices: seq<string>, start: string) returns (dist: map<string, Dist>)
    ensures forall v :: v in dist <==> v in vertices
    ensures forall v :: v in dist ==> dist[v] == if v == start then Fin(0) else Inf
  {
    dist := map[];
    var i := 0;
    while i < |vertices|
      invariant 0 <= i <= |vertices|
      invariant forall v :: v in dist <==> v in vertices[..i]
      invariant forall v :: v in dist ==> dist[v] == if v == start then Fin(0) else Inf
    {
      dist := dist[vertices[i] := if vertices[i] == start then Fin(0) else Inf];
      i := i + 1;
    }
  }

  /** Before any round only `start` has a finite distance. */
  lemma {:induction false} InitialInv(adj: Adjacency, start: string, end: string, dist: map<string, Dist>)
    requires start in adj && end in adj && (forall v :: v in dist <==> v in adj)
    requires forall v :: v in dist ==> dist[v] == if v == start then Fin(0) else Inf
    ensures Inv(adj, start, end, {}, dist, map[])
  {
  }

  /** The vertex the scan selects is settled: its distance is shortest. */
  lemma {:induction false} ClosestIsShortest(adj: Adjacency, start: string, end: string, visited: set<string>,
                          dist: map<string, Dist>, prev: map<string, string>, c: string)
    requires WellFormed(adj) && Tables(adj, start, end, visited, dist, prev) && Links(adj, start, visited, dist, prev)
    requires Settled(adj, start, visited, dist) && Frontier(adj, visited, dist)
    requires Closest(adj, visited, dist, c)
    ensures Shortest(adj, start, c, dist[c].n)
  {
    if visited == {} {
      assert c !in prev;
      assert dist[c] == Fin(0);
    } else {
      forall p | PathFromTo(adj, p, start, c)
        ensures dist[c].n <= PathWeight(adj, p)
      {
        var i := FirstExit(p, visited);
        var u, v := p[i - 1], p[i];
        PathSplit(adj, p, i - 1);
        var head := p[..i];
        assert PathFromTo(adj, head, start, u);
        assert dist[u].n <= PathWeight(adj, head);
        var tail := p[i - 1..];
        assert tail[0] == u && tail[1] == v;
        assert adj[u][v] <= PathWeight(adj, tail);
        assert dist[v].n <= dist[u].n + adj[u][v];
      }
    }
  }

  /** Once `start` has been selected, no other vertex is at distance 0. */
  lemma {:induction false} NoZeroOutside(adj: Adjacency, start: string, end: string, settled: set<string>,
                      dist: map<string, Dist>, prev: map<string, string>, visited: set<string>)
    requires WellFormed(adj) && Tables(adj, start, end, visited, dist, prev) && Links(adj, start, visited, dist, prev)
    requires start in settled
    ensures forall v :: v in dist && v !in settled ==> OrInfinity(dist[v]) == dist[v]
  {
    forall v | v in dist && v !in settled
      ensures dist[v] != Fin(0)
    {
      if v in prev {
        assert Link(adj, visited, dist, prev[v], v);
      }
    }
  }

  /** The vertex selected in the first round is `start`. */
  lemma {:induction false} StartSelectedFirst(adj: Adjacency, start: string, end: string, visited: set<string>,
                           dist: map<string, Dist>, prev: map<string, string>, c: string)
    requires Tables(adj, start, end, visited, dist, prev) && Links(adj, start, visited, dist, prev)
    requires Closest(adj, visited, dist, c)
    ensures start in visited + {c}
  {
    if visited == {} {
      assert c !in prev;
    }
  }

  /** One round keeps the invariant: settle `c`, then relax its edges. */
  lemma {:induction false} SettleKeepsInv(adj: Adjacency, start: string, end: string, visited: set<string>,
                       dist0: map<string, Dist>, prev0: map<string, string>, c: string,
                       dist1: map<string, Dist>, prev1: map<string, string>)
    requires WellFormed(adj) && Inv(adj, start, end, visited, dist0, prev0)
    requires Closest(adj, visited, dist0, c) && c != end
    requires RelaxedFrom(adj, visited + {c}, c, dist0, prev0, dist1, prev1)
    ensures Inv(adj, start, end, visited + {c}, dist1, prev1)
  {
    var settled := visited + {c};
    ClosestIsShortest(adj, start, end, visited, dist0, prev0, c);
    StartSelectedFirst(adj, start, end, visited, dist0, prev0, c);
    NoZeroOutside(adj, start, end, settled, dist0, prev0, visited);
    SettledUnchanged(adj, visited, dist0, prev0, c, dist1, prev1);
    SettleKeepsTables(adj, start, end, visited, dist0, prev0, c, dist1, prev1);
    SettleKeepsLinks(adj, start, visited, dist0, prev0, c, dist1, prev1);
    SettleKeepsSettled(adj, start, visited, dist0, c, dist1);
    SettleKeepsFrontier(adj, visited, dist0, prev0, c, dist1, prev1);
    SettleKeepsOrdered(adj, visited, dist0, prev0, c, dist1, prev1);
  }

  /** Relaxation leaves settled distances alone. */
  lemma {:induction false} SettledUnchanged(adj: Adjacency, visited: set<string>,
                         dist0: map<string, Dist>, prev0: map<string, string>, c: string,
                         dist1: map<string, Dist>, prev1: map<string, string>)
    requires RelaxedFrom(adj, visited + {c}, c, dist0, prev0, dist1, prev1)
    requires forall u :: u in visited + {c} ==> u in dist0
    ensures forall u :: u in visited + {c} ==> u in dist0 && dist1[u] == dist0[u]
  {
    forall u | u in visited + {c}
      ensures dist1[u] == dist0[u]
    {
      assert !Improves(adj, visited + {c}, c, dist0, u);
    }
  }

  lemma {:induction false} SettleKeepsTables(adj: Adjacency, start: string, end: string, visited: set<string>,
                          dist0: map<string, Dist>, prev0: map<string, string>, c: string,
                          dist1: map<string, Dist>, prev1: map<string, string>)
    requires Tables(adj, start, end, visited, dist0, prev0)
    requires Closest(adj, visited, dist0, c) && c != end && start in visited + {c}
    requires RelaxedFrom(adj, visited + {c}, c, dist0, prev0, dist1, prev1)
    requires forall u :: u in visited + {c} ==> u in dist0 && dist1[u] == dist0[u]
    ensures Tables(adj, start, end, visited + {c}, dist1, prev1)
  {
    assert !Improves(adj, visited + {c}, c, dist0, start);
  }

  lemma {:induction false} SettleKeepsSettled(adj: Adjacency, start: string, visited: set<string>,
                           dist0: map<string, Dist>, c: string, dist1: map<string, Dist>)
    requires Settled(adj, start, visited, dist0)
    requires c in dist0 && dist0[c].Fin? && Shortest(adj, start, c, dist0[c].n)
    requires forall u :: u in visited + {c} ==> u in dist0 && u in dist1 && dist1[u] == dist0[u]
    ensures Settled(adj, start, visited + {c}, dist1)
  {
  }

  lemma {:induction false} SettleKeepsLinks(adj: Adjacency, start: string, visited: set<string>,
                         dist0: map<string, Dist>, prev0: map<string, string>, c: string,
                         dist1: map<string, Dist>, prev1: map<string, string>)
    requires Links(adj, start, visited, dist0, prev0) && start in visited + {c} && start !in prev0
    requires Closest(adj, visited, dist0, c)
    requires RelaxedFrom(adj, visited + {c}, c, dist0, prev0, dist1, prev1)
    requires forall v :: v in dist0 ==> v in adj
    ensures Links(adj, start, visited + {c}, dist1, prev1)
  {
    var settled := visited + {c};
    forall v | v in prev1
      ensures Link(adj, settled, dist1, prev1[v], v)
    {
      if !Improves(adj, settled, c, dist0, v) {
        var u := prev0[v];
        assert Link(adj, visited, dist0, u, v);
        assert !Improves(adj, settled, c, dist0, u);
      }
    }
  }

  lemma {:induction false} SettleKeepsFrontier(adj: Adjacency, visited: set<string>,
                            dist0: map<string, Dist>, prev0: map<string, string>, c: string,
                            dist1: map<string, Dist>, prev1: map<string, string>)
    requires WellFormed(adj) && Frontier(adj, visited, dist0)
    requires Closest(adj, visited, dist0, c)
    requires RelaxedFrom(adj, visited + {c}, c, dist0, prev0, dist1, prev1)
    requires forall v :: v in dist0 <==> v in adj
    requires forall v :: v in dist0 && v !in visited + {c} ==> OrInfinity(dist0[v]) == dist0[v]
    requires forall u :: u in visited + {c} ==> u in dist0 && dist1[u] == dist0[u]
    ensures Frontier(adj, visited + {c}, dist1)
  {
    var settled := visited + {c};
    forall u, v | u in settled && u in adj && v in adj[u] && v !in settled && u in dist1 && v in dist1 && dist1[u].Fin?
      ensures dist1[v].Fin? && dist1[v].n <= dist1[u].n + adj[u][v]
    {
      assert v in dist0 && OrInfinity(dist0[v]) == dist0[v];
      if u == c {
        assert Improves(adj, settled, c, dist0, v) || !Less(Fin(dist0[c].n + adj[c][v]), dist0[v]);
      } else {
        assert u in visited && dist0[v].Fin? && dist0[v].n <= dist0[u].n + adj[u][v];
      }
    }
  }

  lemma {:induction false} SettleKeepsOrdered(adj: Adjacency, visited: set<string>,
                           dist0: map<string, Dist>, prev0: map<string, string>, c: string,
                           dist1: map<string, Dist>, prev1: map<string, string>)
    requires Ordered(visited, dist0) && Closest(adj, visited, dist0, c)
    requires RelaxedFrom(adj, visited + {c}, c, dist0, prev0, dist1, prev1)
    requires forall v :: v in dist0 <==> v in adj
    requires forall u :: u in visited + {c} ==> u in dist0 && dist1[u] == dist0[u]
    ensures Ordered(visited + {c}, dist1)
  {
  }

  /** When every unsettled vertex is at `Infinity`, no path leaves the
      settled set: everything reachable from `start` is settled. */
  lemma {:induction false} ExhaustedReach(adj: Adjacency, start: string, end: string, visited: set<string>,
                                          dist: map<string, Dist>, prev: map<string, string>, p: seq<string>)
    requires WellFormed(adj) && Tables(adj, start, end, visited, dist, prev)
    requires Settled(adj, start, visited, dist) && Frontier(adj, visited, dist)
    requires forall v :: v in adj && v !in visited ==> dist[v] == Inf
    requires IsPath(adj, p) && p[0] == start
    ensures forall i :: 0 <= i < |p| ==> p[i] in visited
  {
    assert start in visited;
    var i := 0;
    while i < |p| - 1
      invariant 0 <= i < |p|
      invariant forall j :: 0 <= j <= i ==> p[j] in visited
    {
      assert p[i + 1] in adj[p[i]];
      i := i + 1;
    }
  }

  /** A settled set that leaves `end` out is smaller than the vertex set. */
  lemma {:induction false} SettledFewer(vertices: seq<string>, visited: set<string>, end: string)
    requires forall i, j :: 0 <= i < j < |vertices| ==> vertices[i] != vertices[j]
    requires forall v :: v in visited ==> v in vertices
    requires end in vertices && end !in visited
    ensures |visited| < |vertices|
  {
    if vertices != [] {
      var last := vertices[|vertices| - 1];
      var init := vertices[..|vertices| - 1];
      assert forall v :: v in init ==> v != last;
      if end == last {
        assert forall v :: v in visited ==> v in init;
        SubsetOfDistinct(init, visited);
      } else {
        assert end in init;
        SettledFewer(init, visited - {last}, end);
      }
    }
  }

  lemma {:induction false} SubsetOfDistinct(s: seq<string>, a: set<string>)
    requires forall v :: v in a ==> v in s
    ensures |a| <= |s|
  {
    if s != [] {
      var last := s[|s| - 1];
      var init := s[..|s| - 1];
      assert forall v :: v in a - {last} ==> v in init;
      SubsetOfDistinct(init, a - {last});
    } else {
      assert a == {};
    }
  }

  /** The selection scan (src/data-structures/Graph.ts:100-114): the first
      unsettled vertex, in insertion order, whose distance is strictly below
      everything seen before it; `null` and `Infinity` when all unsettled
      vertices are at `Infinity`. */
  method SelectClosest(vertices: seq<string>, visited: set<string>, dist: map<string, Dist>)
    returns (cur: Option<string>, minDistance: Dist)
    ensures cur.None? <==> minDistance == Inf
    ensures cur.None? ==> forall v :: v in vertices && v !in visited ==> DistOf(dist, v) == Inf
    ensures cur.Some? ==> cur.value in vertices && cur.value !in visited && DistOf(dist, cur.value) == minDistance
    ensures cur.Some? ==> forall v :: v in vertices && v !in visited ==> !Less(DistOf(dist, v), minDistance)
    ensures cur.Some? ==> forall j :: 0 <= j < FirstIndex(vertices, cur.value) && vertices[j] !in visited ==>
              Less(minDistance, DistOf(dist, vertices[j]))
  {
    cur, minDistance := None, Inf;
    var i := 0;
    while i < |vertices|
      invariant 0 <= i <= |vertices|
      invariant cur.None? <==> minDistance == Inf
      invariant cur.None? ==> forall j :: 0 <= j < i && vertices[j] !in visited ==> DistOf(dist, vertices[j]) == Inf
      invariant cur.Some? ==> cur.value in vertices[..i] && cur.value !in visited && DistOf(dist, cur.value) == minDistance
      invariant cur.Some? ==> forall j :: 0 <= j < i && vertices[j] !in visited ==> !Less(DistOf(dist, vertices[j]), minDistance)
      invariant cur.Some? ==> forall j :: 0 <= j < FirstIndex(vertices, cur.value) && vertices[j] !in visited ==>
                  Less(minDistance, DistOf(dist, vertices[j]))
    {
      var vertex := vertices[i];
      var distance := DistOf(dist, vertex);
      if vertex !in visited && Less(distance, minDistance) {
        assert FirstIndex(vertices, vertex) <= i;
        minDistance := distance;
        cur := Some(vertex);
      }
      i := i + 1;
    }
  }

  /** Prepending a vertex joined by an edge extends a path by that edge. */
  lemma {:induction false} Prepend(adj: Adjacency, u: string, path: seq<string>)
    requires IsPath(adj, path) && u in adj && path[0] in adj[u]
    ensures IsPath(adj, [u] + path)
    ensures PathWeight(adj, [u] + path) == adj[u][path[0]] + PathWeight(adj, path)
  {
    assert ([u] + path)[1..] == path;
  }

  /** The predecessor walk (src/data-structures/Graph.ts:153-159): from
      `end`, prepend each vertex and step to its predecessor until there is
      none. */
  method TracePath(adj: Adjacency, start: string, end: string, visited: set<string>,
                   dist: map<string, Dist>, prev: map<string, string>)
    returns (path: seq<string>)
    requires WellFormed(adj) && Tables(adj, start, end, visited, dist, prev) && Links(adj, start, visited, dist, prev)
    ensures path != [] && IsPath(adj, path) && path[|path| - 1] == end
    ensures path[0] !in prev
    ensures dist[end].Fin? ==> dist[path[0]].Fin? && dist[end].n == dist[path[0]].n + PathWeight(adj, path)
    ensures dist[end] == Inf ==> path == [end]
  {
    path := [];
    var current: Option<string> := Some(end);
    while current.Some?
      invariant current.Some? ==> current.value in adj
      invariant current.Some? && path == [] ==> current.value == end
      invariant current.Some? && path != [] ==>
        && IsPath(adj, path) && path[0] in adj[current.value] && path[|path| - 1] == end
        && dist[current.value].Fin? && dist[end].Fin?
        && dist[end].n == dist[current.value].n + adj[current.value][path[0]] + PathWeight(adj, path)
      invariant current.None? ==>
        && path != [] && IsPath(adj, path) && path[|path| - 1] == end && path[0] !in prev
        && (dist[end].Fin? ==> dist[path[0]].Fin? && dist[end].n == dist[path[0]].n + PathWeight(adj, path))
        && (dist[end] == Inf ==> path == [end])
      decreases if current.None? then 0 else if dist[current.value].Fin? then dist[current.value].n + 1 else 1
    {
      var c := current.value;
      TraceStep(adj, start, end, visited, dist, prev, c, path);
      path := [c] + path;
      if c in prev {
        current := Some(prev[c]);
      } else {
        current := None;
      }
    }
  }

  /** One turn of the predecessor walk: prepending the current vertex
      keeps a path to `end` whose weight accounts for `end`'s distance, and
      its predecessor, if any, is a strictly closer neighbour. */
  lemma {:induction false} TraceStep(adj: Adjacency, start: string, end: string, visited: set<string>,
                                     dist: map<string, Dist>, prev: map<string, string>, c: string, path: seq<string>)
    requires WellFormed(adj) && Tables(adj, start, end, visited, dist, prev) && Links(adj, start, visited, dist, prev)
    requires c in adj
    requires path == [] ==> c == end
    requires path != [] ==>
      && IsPath(adj, path) && path[0] in adj[c] && path[|path| - 1] == end
      && dist[c].Fin? && dist[end].Fin?
      && dist[end].n == dist[c].n + adj[c][path[0]] + PathWeight(adj, path)
    ensures IsPath(adj, [c] + path) && ([c] + path)[|path|] == end
    ensures dist[end].Fin? ==> dist[c].Fin? && dist[end].n == dist[c].n + PathWeight(adj, [c] + path)
    ensures dist[end] == Inf ==> c !in prev && [c] + path == [end]
    ensures c in prev ==>
      var u := prev[c];
      && u in adj && c in adj[u] && dist[u].Fin? && dist[c].Fin? && dist[end].Fin?
      && dist[u].n < dist[c].n
      && dist[end].n == dist[u].n + adj[u][c] + PathWeight(adj, [c] + path)
  {
    if path != [] {
      Prepend(adj, c, path);
    }
    if c in prev {
      assert Link(adj, visited, dist, prev[c], c);
    }
  }

  /** What the traced path says once the main loop has stopped: a path
      that does not begin at `start` means `end` cannot be reached at all;
      otherwise it is a route whose weight is the distance found, and it is
      shortest. `reached` is whether the loop stopped on selecting `end`. */
  lemma {:induction false} TraceOutcome(adj: Adjacency, start: string, end: string, visited: set<string>,
                     dist: map<string, Dist>, prev: map<string, string>, reached: bool, path: seq<string>)
    requires WellFormed(adj) && Inv(adj, start, end, visited, dist, prev)
    requires reached ==> dist[end].Fin? && Shortest(adj, start, end, dist[end].n)
    requires !reached ==> forall v :: v in adj && v !in visited ==> dist[v] == Inf
    requires path != [] && IsPath(adj, path) && path[|path| - 1] == end && path[0] !in prev
    requires dist[end].Fin? ==> dist[path[0]].Fin? && dist[end].n == dist[path[0]].n + PathWeight(adj, path)
    requires dist[end] == Inf ==> path == [end]
    ensures path[0] != start ==> forall p :: !PathFromTo(adj, p, start, end)
    ensures path[0] == start ==> PathFromTo(adj, path, start, end)
    ensures path[0] == start && start != end ==>
              OrInfinity(dist[end]) == Fin(PathWeight(adj, path)) && Shortest(adj, start, end, PathWeight(adj, path))
    ensures start == end ==> path == [start]
  {
    if path[0] != start {
      assert dist[end] == Inf;
      forall p | IsPath(adj, p) && p[0] == start
        ensures p[|p| - 1] != end
      {
        ExhaustedReach(adj, start, end, visited, dist, prev, p);
      }
    } else if start != end {
      assert |path| > 1;
      assert PathWeight(adj, path) >= adj[path[0]][path[1]] > 0;
    } else {
      assert |path| == 1 ==> path == [path[0]];
    }
  }
}
