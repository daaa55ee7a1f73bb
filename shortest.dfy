/**
 Dijkstra's algorithm of `acciones` in its array/selection form (dijkstra):
 parallel lists `dist`, `pad` and `visitado` indexed by node position, one
 O(n) scan per round for the nearest unvisited vertex, then a pass over every
 edge of the graph relaxing the neighbours of that vertex.
 */
module ShortestPaths {
  import opened Wrappers
  import opened Graphs
  import opened Paths

  /** A distance entry: infinity (math.inf) or a finite distance. */
  datatype Dist = Inf | Fin(d: nat)

  /** Python's `x < y` on distances where either may be infinite. */
  predicate Shorter(x: Dist, y: Dist): (r: bool)
    ensures r ==> x.Fin?
    ensures x.Fin? && y.Inf? ==> r
    ensures x.Fin? && y.Fin? ==> (r <==> x.d < y.d)
  {
    x.Fin? && (y.Inf? || x.d < y.d)
  }

  /** What dijkstra returns: (None, None, None) for an unknown source, else (nodos, dist, pad). */
  datatype Solution = NoSuchSource | Solved(nodes: seq<nat>, dist: seq<Dist>, pad: seq<Option<nat>>)

  /** `list(self.grafo.nodes)`: the vertices in enumeration order. */
  function Nodes(n: nat): (r: seq<nat>)
    ensures |r| == n && forall i :: 0 <= i < n ==> r[i] == i
  {
    seq(n, i => i)
  }

  /** The weight of the edge between u and v; 0 for a pair that is not an edge or has no weight. */
  function WeightOf(g: Graph, u: nat, v: nat): nat
  {
    match Weight(g, u, v)
    case Some(w) => w
    case None => 0
  }

  /** The total weight of a walk: the sum of its consecutive edge weights. */
  function PathWeight(g: Graph, p: seq<nat>): nat
  {
    if |p| <= 1 then 0 else PathWeight(g, p[..|p| - 1]) + WeightOf(g, p[|p| - 2], p[|p| - 1])
  }

  /**
   j's predecessor p is a vertex at finite distance, joined to j by an edge whose
   weight brings p's distance to j's.
   */
  ghost predicate LinkHolds(g: Graph, dist: seq<Dist>, pad: seq<Option<nat>>, j: nat)
    requires j < |dist| && j < |pad|
  {
    pad[j].Some? ==>
      && pad[j].value < |dist|
      && dist[pad[j].value].Fin? && dist[j].Fin?
      && Adjacent(g, pad[j].value, j) && Weight(g, pad[j].value, j).Some?
      && dist[j].d == dist[pad[j].value].d + Weight(g, pad[j].value, j).value
  }

  /**
   The finished table of dijkstra from source s: the source is at distance 0 with
   no predecessor; every predecessor link is consistent with the distances; a
   vertex without predecessor other than the source is at infinite distance; the
   distance is finite exactly for the vertices reachable from s; no walk from s
   to a vertex weighs less than its distance; and following predecessors always
   ends, `rank` decreasing along each link.
   */
  ghost predicate PathTable(g: Graph, s: nat, dist: seq<Dist>, pad: seq<Option<nat>>, rank: map<nat, nat>)
  {
    && s < g.n && |dist| == g.n && |pad| == g.n
    && dist[s] == Fin(0) && pad[s] == None
    && (forall j :: 0 <= j < g.n ==> LinkHolds(g, dist, pad, j))
    && (forall j :: 0 <= j < g.n && pad[j].None? && j != s ==> dist[j] == Inf)
    && (forall j :: 0 <= j < g.n ==> (dist[j].Fin? <==> Reachable(g, s, j)))
    && (forall j :: 0 <= j < g.n ==> Shortest(g, s, dist, j))
    && Ranked(AsMap(pad), rank) && (forall j :: 0 <= j < g.n ==> j in rank)
  }

  /**
   The selection scan: -1 when every unvisited vertex is at infinite distance,
   otherwise the first unvisited vertex of least finite distance.
   */
  method SelectMin(dist: seq<Dist>, visitado: seq<bool>) returns (k: int)
    requires |dist| == |visitado|
    ensures -1 <= k < |dist|
    ensures k == -1 <==> forall j :: 0 <= j < |dist| && !visitado[j] ==> dist[j].Inf?
    ensures k >= 0 ==> !visitado[k] && dist[k].Fin?
    ensures k >= 0 ==> forall j :: 0 <= j < |dist| && !visitado[j] && dist[j].Fin? ==> dist[k].d <= dist[j].d
    ensures k >= 0 ==> forall j :: 0 <= j < k && !visitado[j] && dist[j].Fin? ==> dist[k].d < dist[j].d
  {
    var menor: Dist := Inf;
    k := -1;
    for j := 0 to |dist|
      invariant -1 <= k < j
      invariant k == -1 ==> menor == Inf && forall i :: 0 <= i < j && !visitado[i] ==> dist[i].Inf?
      invariant k >= 0 ==> menor == dist[k] && !visitado[k] && dist[k].Fin?
      invariant k >= 0 ==> forall i :: 0 <= i < j && !visitado[i] && dist[i].Fin? ==> dist[k].d <= dist[i].d
      invariant k >= 0 ==> forall i :: 0 <= i < k && !visitado[i] && dist[i].Fin? ==> dist[k].d < dist[i].d
    {
      if !visitado[j] && Shorter(dist[j], menor) {
        menor := dist[j];
        k := j;
      }
    }
  }

  /**
   What one relaxation pass from the selected vertex `cur` did, comparing the
   table before (dist, pad) and after (dist', pad'): each entry is unchanged, or
   belongs to an unvisited neighbour of `cur` whose distance strictly improved to
   cur's distance plus the edge weight and whose predecessor became `cur`; and
   the other end of each of the first `upto` edges touching `cur` is now at a
   finite distance, at most cur's distance plus the edge weight when unvisited.
   */
  ghost predicate Relaxed(g: Graph, cur: nat, dist: seq<Dist>, pad: seq<Option<nat>>, visitado: seq<bool>,
                          dist': seq<Dist>, pad': seq<Option<nat>>, upto: nat)
  {
    && |dist| == |pad| == |visitado| == |dist'| == |pad'| == g.n
    && cur < g.n && dist[cur].Fin? && upto <= |g.edges|
    && (forall j :: 0 <= j < g.n ==>
          (dist'[j] == dist[j] && pad'[j] == pad[j])
          || (!visitado[j] && Shorter(dist'[j], dist[j]) && pad'[j] == Some(cur)
              && Adjacent(g, cur, j) && Weight(g, cur, j).Some?
              && dist'[j] == Fin(dist[cur].d + Weight(g, cur, j).value)))
    && (forall k :: 0 <= k < upto && (g.edges[k].a == cur || g.edges[k].b == cur) ==>
          && Other(g.edges[k], cur) < g.n && dist'[Other(g.edges[k], cur)].Fin?
          && (!visitado[Other(g.edges[k], cur)] && g.edges[k].w.Some? ==>
                dist'[Other(g.edges[k], cur)].d <= dist[cur].d + g.edges[k].w.value))
  }

  /** Processing edge e of the pass from `cur` extends what the pass has done to the first e + 1 edges. */
  lemma RelaxStep(g: Graph, cur: nat, dist0: seq<Dist>, pad0: seq<Option<nat>>, visitado: seq<bool>,
                  dist: seq<Dist>, pad: seq<Option<nat>>, e: nat, dist': seq<Dist>, pad': seq<Option<nat>>)
    requires ValidGraph(g) && FullyWeighted(g)
    requires Relaxed(g, cur, dist0, pad0, visitado, dist, pad, e) && e < |g.edges|
    requires visitado[cur] && forall j :: 0 <= j < g.n && visitado[j] ==> dist0[j].Fin?
    requires !(g.edges[e].a == cur || g.edges[e].b == cur) ==> dist' == dist && pad' == pad
    requires g.edges[e].a == cur || g.edges[e].b == cur ==>
               var v, w := Other(g.edges[e], cur), g.edges[e].w.value;
               if !visitado[v] && Shorter(Fin(dist[cur].d + w), dist[v])
               then dist' == dist[v := Fin(dist[cur].d + w)] && pad' == pad[v := Some(cur)]
               else dist' == dist && pad' == pad
    ensures Relaxed(g, cur, dist0, pad0, visitado, dist', pad', e + 1)
  {
    assert dist[cur] == dist0[cur];
    if g.edges[e].a == cur || g.edges[e].b == cur {
      var v := Other(g.edges[e], cur);
      EdgeBetweenUnique(g.edges, e, cur, v);
      assert Weight(g, cur, v) == g.edges[e].w;
    }
  }

  /**
   The pass over `self.grafo.edges` after `cur` was selected: for each edge
   touching `cur`, an unvisited neighbour whose distance improves through `cur`
   gets the new distance and `cur` as predecessor. Visited entries never change.
   The edges are taken in insertion order; in a graph without parallel edges
   each neighbour is met once and compared with the unchanging `dist[cur]`, so
   any other order gives the same result.
   */
  method RelaxAll(g: Graph, cur: nat, dist: array<Dist>, pad: array<Option<nat>>, visitado: array<bool>)
    requires ValidGraph(g) && FullyWeighted(g)
    requires dist.Length == g.n && pad.Length == g.n && visitado.Length == g.n && cur < g.n
    requires visitado[cur] && dist[cur].Fin?
    requires forall j :: 0 <= j < g.n && visitado[j] ==> dist[j].Fin?
    modifies dist, pad
    ensures Relaxed(g, cur, old(dist[..]), old(pad[..]), visitado[..], dist[..], pad[..], |g.edges|)
    ensures forall j :: 0 <= j < g.n && visitado[j] ==> dist[j] == old(dist[j]) && pad[j] == old(pad[j])
  {
    ghost var dist0, pad0, V := dist[..], pad[..], visitado[..];
    var e := 0;
    while e < |g.edges|
      invariant 0 <= e <= |g.edges|
      invariant visitado[..] == V
      invariant Relaxed(g, cur, dist0, pad0, V, dist[..], pad[..], e)
    {
      ghost var D, P := dist[..], pad[..];
      var a, b := g.edges[e].a, g.edges[e].b;
      if a == cur || b == cur {
        var vecino := if a == cur then b else a;
        var peso := g.edges[e].w.value;
        if !visitado[vecino] && Shorter(Fin(dist[cur].d + peso), dist[vecino]) {
          dist[vecino] := Fin(dist[cur].d + peso);
          pad[vecino] := Some(cur);
        }
      }
      RelaxStep(g, cur, dist0, pad0, V, D, P, e, dist[..], pad[..]);
      e := e + 1;
    }
    assert forall j :: 0 <= j < g.n && visitado[j] ==> dist[..][j] == dist0[j] && pad[..][j] == pad0[j];
  }

  /**
   The loop invariant of dijkstra after `i` rounds, with `rank` recording the
   round in which each visited vertex was selected (n for the others): the source
   at 0 without predecessor, finite distance exactly at the source and at the
   vertices with a predecessor, each link consistent and pointing to a visited
   vertex selected earlier, visited vertices at finite distance, finite distances
   only at reachable vertices, and the source selected first.
   */
  ghost predicate Progress(g: Graph, s: nat, dist: seq<Dist>, pad: seq<Option<nat>>, visitado: seq<bool>,
                           rank: seq<nat>, i: nat)
  {
    && |dist| == g.n && |pad| == g.n && |visitado| == g.n && |rank| == g.n && s < g.n && i <= g.n
    && dist[s] == Fin(0) && pad[s] == None
    && (forall j :: 0 <= j < g.n ==> (dist[j].Fin? <==> j == s || pad[j].Some?))
    && (forall j :: 0 <= j < g.n ==> LinkHolds(g, dist, pad, j))
    && (forall j :: 0 <= j < g.n && pad[j].Some? ==> pad[j].value < g.n && visitado[pad[j].value] && rank[pad[j].value] < rank[j])
    && (forall j :: 0 <= j < g.n ==> (visitado[j] ==> dist[j].Fin? && rank[j] < i) && (!visitado[j] ==> rank[j] == g.n))
    && (forall j :: 0 <= j < g.n && dist[j].Fin? ==> Reachable(g, s, j))
    && (i == 0 ==> forall j :: 0 <= j < g.n ==> !visitado[j] && pad[j].None?)
    && (i > 0 ==> visitado[s])
  }

  /**
   Every edge touching a visited vertex u leads to a vertex at finite distance;
   when that vertex is unvisited, its distance is at most u's plus the edge weight.
   */
  ghost predicate Settled(g: Graph, dist: seq<Dist>, visitado: seq<bool>)
  {
    forall u, k :: 0 <= u < |visitado| && visitado[u] && 0 <= k < |g.edges| && (g.edges[k].a == u || g.edges[k].b == u) ==>
      && Other(g.edges[k], u) < |dist| && dist[Other(g.edges[k], u)].Fin?
      && (u < |dist| && dist[u].Fin? && Other(g.edges[k], u) < |visitado| && !visitado[Other(g.edges[k], u)] && g.edges[k].w.Some? ==>
            dist[Other(g.edges[k], u)].d <= dist[u].d + g.edges[k].w.value)
  }

  /** Relaxation only gives finite distances to neighbours of a reachable vertex, so they stay reachable. */
  lemma RoundReach(g: Graph, s: nat, dist: seq<Dist>, pad: seq<Option<nat>>, V: seq<bool>, k: nat,
                   dist': seq<Dist>, pad': seq<Option<nat>>)
    requires Relaxed(g, k, dist, pad, V, dist', pad', |g.edges|)
    requires forall j :: 0 <= j < g.n && dist[j].Fin? ==> Reachable(g, s, j)
    ensures forall j :: 0 <= j < g.n && dist'[j].Fin? ==> Reachable(g, s, j)
  {
    forall j | 0 <= j < g.n && dist'[j].Fin?
      ensures Reachable(g, s, j)
    {
      if dist'[j] != dist[j] {
        ReachStep(g, s, k, j, {});
      }
    }
  }

  /** Predecessor links stay consistent, point to visited vertices, and go down in rank. */
  lemma RoundLinks(g: Graph, dist: seq<Dist>, pad: seq<Option<nat>>, V: seq<bool>, rank: seq<nat>, i: nat,
                   k: nat, dist': seq<Dist>, pad': seq<Option<nat>>)
    requires |rank| == g.n && |V| == g.n && i < g.n && k < g.n && !V[k]
    requires Relaxed(g, k, dist, pad, V[k := true], dist', pad', |g.edges|)
    requires forall j :: 0 <= j < g.n ==> LinkHolds(g, dist, pad, j)
    requires forall j :: 0 <= j < g.n && pad[j].Some? ==> pad[j].value < g.n && V[pad[j].value] && rank[pad[j].value] < rank[j]
    requires forall j :: 0 <= j < g.n ==> (V[j] ==> rank[j] < i) && (!V[j] ==> rank[j] == g.n)
    ensures forall j :: 0 <= j < g.n ==> LinkHolds(g, dist', pad', j)
    ensures forall j :: 0 <= j < g.n && pad'[j].Some? ==>
              pad'[j].value < g.n && V[k := true][pad'[j].value] && rank[k := i][pad'[j].value] < rank[k := i][j]
  {
    var V', rank' := V[k := true], rank[k := i];
    assert dist'[k] == dist[k];
    forall j | 0 <= j < g.n
      ensures LinkHolds(g, dist', pad', j)
    {
      if pad'[j] == pad[j] && dist'[j] == dist[j] && pad[j].Some? {
        assert LinkHolds(g, dist, pad, j);
        assert V'[pad[j].value];
        assert dist'[pad[j].value] == dist[pad[j].value];
      }
    }
    forall j | 0 <= j < g.n && pad'[j].Some?
      ensures pad'[j].value < g.n && V'[pad'[j].value] && rank'[pad'[j].value] < rank'[j]
    {
      if pad'[j] == pad[j] && dist'[j] == dist[j] {
        assert pad[j].value != k;
      }
    }
  }

  /** Relaxing from the newly visited k settles k, and keeps every earlier visited vertex settled. */
  lemma RoundSettles(g: Graph, dist: seq<Dist>, pad: seq<Option<nat>>, V: seq<bool>, k: nat,
                     dist': seq<Dist>, pad': seq<Option<nat>>)
    requires k < |V| && Settled(g, dist, V)
    requires Relaxed(g, k, dist, pad, V[k := true], dist', pad', |g.edges|)
    ensures Settled(g, dist', V[k := true])
  {
  }

  /** After selecting k and relaxing from it, finite distances and visited flags still agree with links and rounds. */
  lemma RoundFlags(g: Graph, s: nat, dist: seq<Dist>, pad: seq<Option<nat>>, visitado: seq<bool>, rank: seq<nat>, i: nat,
                   k: nat, dist': seq<Dist>, pad': seq<Option<nat>>)
    requires i < g.n && Progress(g, s, dist, pad, visitado, rank, i)
    requires k < g.n && !visitado[k] && dist[k].Fin?
    requires Relaxed(g, k, dist, pad, visitado[k := true], dist', pad', |g.edges|)
    ensures forall j :: 0 <= j < g.n ==> (dist'[j].Fin? <==> j == s || pad'[j].Some?)
    ensures forall j :: 0 <= j < g.n ==>
              (visitado[k := true][j] ==> dist'[j].Fin? && rank[k := i][j] < i + 1)
              && (!visitado[k := true][j] ==> rank[k := i][j] == g.n)
    ensures dist'[s] == Fin(0) && pad'[s] == None
    ensures visitado[k := true][s]
  {
    assert dist'[k] == dist[k];
    if i == 0 {
      assert k == s;
    }
    assert dist'[s] == dist[s] && pad'[s] == pad[s];
  }

  /** Selecting k and relaxing from it keeps `Progress`, one round further on. */
  lemma RoundKeeps(g: Graph, s: nat, dist: seq<Dist>, pad: seq<Option<nat>>, visitado: seq<bool>, rank: seq<nat>, i: nat,
                   k: nat, dist': seq<Dist>, pad': seq<Option<nat>>)
    requires ValidGraph(g) && i < g.n
    requires Progress(g, s, dist, pad, visitado, rank, i)
    requires k < g.n && !visitado[k] && dist[k].Fin?
    requires Relaxed(g, k, dist, pad, visitado[k := true], dist', pad', |g.edges|)
    ensures Progress(g, s, dist', pad', visitado[k := true], rank[k := i], i + 1)
  {
    RoundReach(g, s, dist, pad, visitado[k := true], k, dist', pad');
    RoundLinks(g, dist, pad, visitado, rank, i, k, dist', pad');
    RoundFlags(g, s, dist, pad, visitado, rank, i, k, dist', pad');
  }

  /**
   When no unvisited vertex is at finite distance, the finite distances are
   exactly at the vertices reachable from the source.
   */
  lemma Complete(g: Graph, s: nat, dist: seq<Dist>, pad: seq<Option<nat>>, visitado: seq<bool>, rank: seq<nat>, i: nat)
    requires ValidGraph(g)
    requires Progress(g, s, dist, pad, visitado, rank, i) && Settled(g, dist, visitado)
    requires forall j :: 0 <= j < g.n && dist[j].Fin? ==> visitado[j]
    ensures forall j :: 0 <= j < g.n ==> (dist[j].Fin? <==> Reachable(g, s, j))
  {
    var S := set j: nat | j < g.n && visitado[j];
    forall u, v | u in S && Adjacent(g, u, v)
      ensures v in S
    {
      var e := AdjacentEdge(g, u, v);
    }
    forall j | 0 <= j < g.n && Reachable(g, s, j)
      ensures dist[j].Fin?
    {
      ReachableWithin(g, s, j, {}, S);
    }
  }

  /** No walk from s to j weighs less than j's distance, which is finite when such a walk exists. */
  ghost predicate Shortest(g: Graph, s: nat, dist: seq<Dist>, j: nat)
    requires j < |dist|
  {
    forall p :: IsWalk(g, p) && p[0] == s && p[|p| - 1] == j ==> dist[j].Fin? && dist[j].d <= PathWeight(g, p)
  }

  /** Every visited vertex holds its shortest distance. */
  ghost predicate Optimal(g: Graph, s: nat, dist: seq<Dist>, visitado: seq<bool>)
  {
    forall j :: 0 <= j < |dist| && j < |visitado| && visitado[j] ==> Shortest(g, s, dist, j)
  }

  /** A walk weighs at least as much as any of its prefixes. */
  lemma {:induction false} PrefixWeight(g: Graph, p: seq<nat>, m: nat)
    requires 1 <= m <= |p|
    ensures PathWeight(g, p[..m]) <= PathWeight(g, p)
    decreases |p|
  {
    if m < |p| {
      var q := p[..|p| - 1];
      assert q[..m] == p[..m];
      PrefixWeight(g, q, m);
    } else {
      assert p[..m] == p;
    }
  }

  /** A walk from a visited vertex to an unvisited one has a step from a visited vertex to an unvisited one. */
  lemma LeaveVisited(p: seq<nat>, visitado: seq<bool>) returns (m: nat)
    requires |p| >= 2 && forall i :: 0 <= i < |p| ==> p[i] < |visitado|
    requires visitado[p[0]] && !visitado[p[|p| - 1]]
    ensures 1 <= m < |p| && visitado[p[m - 1]] && !visitado[p[m]]
  {
    m := 1;
    while visitado[p[m]]
      invariant 1 <= m < |p| && visitado[p[m - 1]]
      decreases |p| - m
    {
      m := m + 1;
    }
  }

  /** An unvisited neighbour v of a visited u is within u's distance plus the weight of the edge between them. */
  lemma EdgeBound(g: Graph, dist: seq<Dist>, visitado: seq<bool>, u: nat, v: nat)
    requires ValidGraph(g) && FullyWeighted(g) && |dist| == g.n && |visitado| == g.n
    requires Settled(g, dist, visitado)
    requires u < g.n && v < g.n && visitado[u] && !visitado[v] && dist[u].Fin? && Adjacent(g, u, v)
    ensures dist[v].Fin? && dist[v].d <= dist[u].d + WeightOf(g, u, v)
  {
    var e := AdjacentEdge(g, u, v);
    EdgeBetweenUnique(g.edges, e, u, v);
    assert WeightOf(g, u, v) == g.edges[e].w.value;
  }

  /** A vertex holding its shortest distance is within the weight of any walk to it that is a prefix. */
  lemma PrefixBound(g: Graph, s: nat, dist: seq<Dist>, p: seq<nat>, m: nat)
    requires IsWalk(g, p) && p[0] == s && 1 <= m <= |p| && p[m - 1] < |dist|
    requires Shortest(g, s, dist, p[m - 1])
    ensures dist[p[m - 1]].Fin? && dist[p[m - 1]].d <= PathWeight(g, p[..m])
  {
    assert IsWalk(g, p[..m]);
  }

  /**
   Where a walk from s first steps from a visited vertex u to an unvisited v, v's
   distance is at most the weight of the walk: u's distance is at most the
   weight of the walk up to u, and v's at most u's plus the edge weight.
   */
  lemma StepBound(g: Graph, s: nat, dist: seq<Dist>, visitado: seq<bool>, p: seq<nat>, m: nat)
    requires ValidGraph(g) && FullyWeighted(g) && |dist| == g.n && |visitado| == g.n
    requires Settled(g, dist, visitado) && Optimal(g, s, dist, visitado)
    requires IsWalk(g, p) && p[0] == s && 1 <= m < |p| && visitado[p[m - 1]] && !visitado[p[m]]
    ensures dist[p[m]].Fin? && dist[p[m]].d <= PathWeight(g, p)
  {
    var u, v := p[m - 1], p[m];
    assert Shortest(g, s, dist, u);
    PrefixBound(g, s, dist, p, m);
    EdgeBound(g, dist, visitado, u, v);
    assert p[..m + 1][..m] == p[..m];
    assert PathWeight(g, p[..m + 1]) == PathWeight(g, p[..m]) + WeightOf(g, u, v);
    PrefixWeight(g, p, m + 1);
  }

  /**
   The selected vertex holds its shortest distance: a walk from the visited
   source to k steps out of the visited vertices somewhere, onto a vertex whose
   distance is at most the walk's weight and, by the selection, no less than k's.
   In the first round k is the source itself, at distance 0.
   */
  lemma SelectedIsShortest(g: Graph, s: nat, dist: seq<Dist>, visitado: seq<bool>, k: nat)
    requires ValidGraph(g) && FullyWeighted(g)
    requires |dist| == g.n && |visitado| == g.n && s < g.n && dist[s] == Fin(0)
    requires Settled(g, dist, visitado) && Optimal(g, s, dist, visitado)
    requires visitado[s] || k == s
    requires k < g.n && !visitado[k] && dist[k].Fin?
    requires forall j :: 0 <= j < g.n && !visitado[j] && dist[j].Fin? ==> dist[k].d <= dist[j].d
    ensures Shortest(g, s, dist, k)
  {
    forall p | IsWalk(g, p) && p[0] == s && p[|p| - 1] == k
      ensures dist[k].Fin? && dist[k].d <= PathWeight(g, p)
    {
      if visitado[s] {
        var m := LeaveVisited(p, visitado);
        StepBound(g, s, dist, visitado, p, m);
      }
    }
  }

  /** After relaxing from the selected k, which holds its shortest distance, every visited vertex still does. */
  lemma RoundOptimal(g: Graph, s: nat, dist: seq<Dist>, pad: seq<Option<nat>>, V: seq<bool>, k: nat,
                     dist': seq<Dist>, pad': seq<Option<nat>>)
    requires k < |V| && k < |dist|
    requires Relaxed(g, k, dist, pad, V[k := true], dist', pad', |g.edges|)
    requires Optimal(g, s, dist, V) && Shortest(g, s, dist, k)
    ensures Optimal(g, s, dist', V[k := true])
  {
    forall j | 0 <= j < |dist'| && j < |V[k := true]| && V[k := true][j]
      ensures Shortest(g, s, dist', j)
    {
      assert dist'[j] == dist[j];
      if j != k {
        assert V[j];
      }
      assert Shortest(g, s, dist, j);
    }
  }

  /**
   The loop invariant of dijkstra with the ghost set `seen` of the vertices
   selected so far: `Progress`, `Settled` and `Optimal`, and exactly the `i`
   vertices of `seen` are visited.
   */
  ghost predicate Rounds(g: Graph, s: nat, dist: seq<Dist>, pad: seq<Option<nat>>, visitado: seq<bool>,
                         rk: seq<nat>, i: nat, seen: set<nat>)
  {
    && Progress(g, s, dist, pad, visitado, rk, i) && Settled(g, dist, visitado) && Optimal(g, s, dist, visitado)
    && (forall j :: 0 <= j < g.n ==> (visitado[j] <==> j in seen))
    && |seen| == i && (forall j :: j in seen ==> j < g.n)
  }

  /** Marking k visited adds it to the selected vertices. */
  lemma SeenStep(n: nat, visitado: seq<bool>, seen: set<nat>, k: nat)
    requires |visitado| == n && k < n && !visitado[k]
    requires forall j :: 0 <= j < n ==> (visitado[j] <==> j in seen)
    requires forall j :: j in seen ==> j < n
    ensures forall j :: 0 <= j < n ==> (visitado[k := true][j] <==> j in seen + {k})
    ensures forall j :: j in seen + {k} ==> j < n
    ensures |seen + {k}| == |seen| + 1
  {
    assert k !in seen;
  }

  /**
   A whole round on the lists: selecting k, the nearest unvisited vertex, marking
   it and relaxing its edges keeps the loop invariant, with k recorded in round i.
   */
  lemma RoundsStep(g: Graph, s: nat, dist: seq<Dist>, pad: seq<Option<nat>>, visitado: seq<bool>,
                   rk: seq<nat>, i: nat, seen: set<nat>, k: nat, dist': seq<Dist>, pad': seq<Option<nat>>)
    requires ValidGraph(g) && FullyWeighted(g) && i < g.n
    requires Rounds(g, s, dist, pad, visitado, rk, i, seen)
    requires k < g.n && !visitado[k] && dist[k].Fin?
    requires forall j :: 0 <= j < g.n && !visitado[j] && dist[j].Fin? ==> dist[k].d <= dist[j].d
    requires Relaxed(g, k, dist, pad, visitado[k := true], dist', pad', |g.edges|)
    ensures Rounds(g, s, dist', pad', visitado[k := true], rk[k := i], i + 1, seen + {k})
  {
    if i == 0 {
      assert k == s;
    }
    SelectedIsShortest(g, s, dist, visitado, k);
    RoundKeeps(g, s, dist, pad, visitado, rk, i, k, dist', pad');
    RoundSettles(g, dist, pad, visitado, k, dist', pad');
    RoundOptimal(g, s, dist, pad, visitado, k, dist', pad');
    SeenStep(g.n, visitado, seen, k);
  }

  /**
   Once every vertex at finite distance is visited, every vertex holds its
   shortest distance: a vertex with a walk from s is reachable, so at finite
   distance, so visited.
   */
  lemma AllShortest(g: Graph, s: nat, dist: seq<Dist>, pad: seq<Option<nat>>, visitado: seq<bool>, rk: seq<nat>, i: nat)
    requires ValidGraph(g) && Progress(g, s, dist, pad, visitado, rk, i) && Optimal(g, s, dist, visitado)
    requires forall j :: 0 <= j < g.n ==> (dist[j].Fin? <==> Reachable(g, s, j))
    requires forall j :: 0 <= j < g.n && dist[j].Fin? ==> visitado[j]
    ensures forall j :: 0 <= j < g.n ==> Shortest(g, s, dist, j)
  {
    forall j | 0 <= j < g.n
      ensures Shortest(g, s, dist, j)
    {
      forall p | IsWalk(g, p) && p[0] == s && p[|p| - 1] == j
        ensures dist[j].Fin? && dist[j].d <= PathWeight(g, p)
      {
        assert forall t :: 1 <= t < |p| ==> p[t] !in {};
        assert Reachable(g, s, j);
        assert visitado[j];
        assert Shortest(g, s, dist, j);
      }
    }
  }

  /**
   The loop ends after n rounds or when no unvisited vertex is at finite
   distance; either way the invariant gives the finished table.
   */
  lemma Finish(g: Graph, s: nat, dist: seq<Dist>, pad: seq<Option<nat>>, visitado: seq<bool>,
               rk: seq<nat>, i: nat, seen: set<nat>)
    requires ValidGraph(g) && Rounds(g, s, dist, pad, visitado, rk, i, seen)
    requires i == g.n || forall j :: 0 <= j < g.n && !visitado[j] ==> dist[j].Inf?
    ensures PathTable(g, s, dist, pad, map j: nat | j < g.n :: rk[j])
  {
    if i == g.n {
      VertexSetBound(seen, g.n);
    }
    Complete(g, s, dist, pad, visitado, rk, i);
    AllShortest(g, s, dist, pad, visitado, rk, i);
    RanksLinks(g.n, pad, rk);
  }

  /** Round numbers that go down along every predecessor link rank the whole table. */
  lemma RanksLinks(n: nat, pad: seq<Option<nat>>, rk: seq<nat>)
    requires |pad| == n && |rk| == n
    requires forall j :: 0 <= j < n && pad[j].Some? ==> pad[j].value < n && rk[pad[j].value] < rk[j]
    ensures var rank := map j: nat | j < n :: rk[j];
      Ranked(AsMap(pad), rank) && forall j :: 0 <= j < n ==> j in rank
  {
    var m, rank := AsMap(pad), map j: nat | j < n :: rk[j];
    forall v | v in rank
      ensures v in m && (m[v].Some? ==> m[v].value in rank && rank[m[v].value] < rank[v])
    {
      assert m[v] == pad[v];
    }
  }

  /** The start of dijkstra: only the source at finite distance, nothing visited. */
  lemma Start(g: Graph, s: nat, dist: seq<Dist>, pad: seq<Option<nat>>, visitado: seq<bool>, rk: seq<nat>)
    requires s < g.n && |dist| == |pad| == |visitado| == |rk| == g.n
    requires forall j :: 0 <= j < g.n ==> dist[j] == (if j == s then Fin(0) else Inf) && pad[j] == None && !visitado[j] && rk[j] == g.n
    ensures Rounds(g, s, dist, pad, visitado, rk, 0, {})
  {
    ReachStart(g, s, {});
  }

  /** Marking the selected k visited and relaxing its edges completes round i. */
  method Visit(g: Graph, s: nat, k: nat, dist: array<Dist>, pad: array<Option<nat>>, visitado: array<bool>,
               ghost rk: seq<nat>, ghost i: nat, ghost seen: set<nat>)
    requires ValidGraph(g) && FullyWeighted(g) && i < g.n
    requires Rounds(g, s, dist[..], pad[..], visitado[..], rk, i, seen)
    requires k < g.n && !visitado[k] && dist[k].Fin?
    requires forall j :: 0 <= j < g.n && !visitado[j] && dist[j].Fin? ==> dist[k].d <= dist[j].d
    modifies dist, pad, visitado
    ensures visitado[..] == old(visitado[..])[k := true]
    ensures Relaxed(g, k, old(dist[..]), old(pad[..]), visitado[..], dist[..], pad[..], |g.edges|)
    ensures Rounds(g, s, dist[..], pad[..], visitado[..], rk[k := i], i + 1, seen + {k})
  {
    ghost var D, P, V := dist[..], pad[..], visitado[..];
    visitado[k] := true;
    assert visitado[..] == V[k := true];
    RelaxAll(g, k, dist, pad, visitado);
    RoundsStep(g, s, D, P, V, rk, i, seen, k, dist[..], pad[..]);
  }

  /**
   One round of dijkstra's outer loop: select the nearest unvisited vertex k; if
   there is none (k == -1) nothing changes and every unvisited vertex is at
   infinite distance; otherwise k is marked visited and its edges are relaxed.
   */
  method Round(g: Graph, s: nat, dist: array<Dist>, pad: array<Option<nat>>, visitado: array<bool>,
               ghost rk: seq<nat>, ghost i: nat, ghost seen: set<nat>)
    returns (k: int, ghost rk': seq<nat>, ghost seen': set<nat>)
    requires ValidGraph(g) && FullyWeighted(g) && i < g.n
    requires Rounds(g, s, dist[..], pad[..], visitado[..], rk, i, seen)
    modifies dist, pad, visitado
    ensures k == -1 ==> dist[..] == old(dist[..]) && pad[..] == old(pad[..]) && visitado[..] == old(visitado[..])
    ensures k == -1 ==> Rounds(g, s, dist[..], pad[..], visitado[..], rk, i, seen)
    ensures k == -1 ==> forall j :: 0 <= j < g.n && !visitado[..][j] ==> dist[..][j].Inf?
    ensures k != -1 ==> 0 <= k < g.n && !old(visitado[k]) && old(dist[k]).Fin?
    ensures k != -1 ==> forall j :: 0 <= j < g.n && !old(visitado[j]) && old(dist[j]).Fin? ==> old(dist[k]).d <= old(dist[j]).d
    ensures k != -1 ==> forall j :: 0 <= j < k && !old(visitado[j]) && old(dist[j]).Fin? ==> old(dist[k]).d < old(dist[j]).d
    ensures k != -1 ==> rk' == rk[k := i] && seen' == seen + {k} && visitado[..] == old(visitado[..])[k := true]
    ensures k != -1 ==> Relaxed(g, k, old(dist[..]), old(pad[..]), visitado[..], dist[..], pad[..], |g.edges|)
    ensures k != -1 ==> Rounds(g, s, dist[..], pad[..], visitado[..], rk', i + 1, seen')
  {
    rk', seen' := rk, seen;
    ghost var D, P, V := dist[..], pad[..], visitado[..];
    k := SelectMin(dist[..], visitado[..]);
    if k == -1 {
      assert dist[..] == D && pad[..] == P && visitado[..] == V;
    } else {
      Visit(g, s, k, dist, pad, visitado, rk, i, seen);
      rk', seen' := rk[k := i], seen + {k as nat};
    }
  }

  /**
   dijkstra(v): (None, None, None) when the source is not a node; otherwise the
   node list and the distance and predecessor tables, satisfying `PathTable`.
   The ghost `rank` witnesses that predecessor links never loop.
   */
  method Dijkstra(g: Graph, s: nat) returns (res: Solution, ghost rank: map<nat, nat>)
    requires ValidGraph(g) && FullyWeighted(g)
    ensures res.NoSuchSource? <==> s >= g.n
    ensures res.Solved? ==> res.nodes == Nodes(g.n) && PathTable(g, s, res.dist, res.pad, rank)
  {
    var n := g.n;
    if s >= n {
      return NoSuchSource, map[];
    }
    var dist := new Dist[n](_ => Inf);
    var pad := new Option<nat>[n](_ => None);
    var visitado := new bool[n](_ => false);
    dist[s] := Fin(0);
    ghost var rk: seq<nat> := seq(n, _ => n);
    ghost var seen: set<nat> := {};
    Start(g, s, dist[..], pad[..], visitado[..], rk);
    var i := 0;
    while i < n
      invariant 0 <= i <= n
      invariant Rounds(g, s, dist[..], pad[..], visitado[..], rk, i, seen)
    {
      var k, rk', seen' := Round(g, s, dist, pad, visitado, rk, i, seen);
      if k == -1 {
        break;
      }
      rk, seen, i := rk', seen', i + 1;
    }
    Finish(g, s, dist[..], pad[..], visitado[..], rk, i, seen);
    rank := map j: nat | j < n :: rk[j];
    res := Solved(Nodes(n), dist[..], pad[..]);
  }

  /**
   What the two reconstructions return on dijkstra's table: the walk back from x
   starts at the source exactly when x is reachable, and then it is a walk of
   the graph whose weight is x's distance; an unreachable x walks back to itself
   alone.
   */
  lemma {:induction false} PathFromTable(g: Graph, s: nat, dist: seq<Dist>, pad: seq<Option<nat>>, rank: map<nat, nat>, x: nat)
    requires PathTable(g, s, dist, pad, rank) && x < g.n
    ensures var a := Ancestry(AsMap(pad), rank, x); a[0] == s <==> dist[x].Fin?
    ensures dist[x].Fin? ==> IsWalk(g, Ancestry(AsMap(pad), rank, x))
    ensures dist[x].Fin? ==> PathWeight(g, Ancestry(AsMap(pad), rank, x)) == dist[x].d
    ensures dist[x].Inf? ==> Ancestry(AsMap(pad), rank, x) == [x]
    decreases rank[x]
  {
    var m := AsMap(pad);
    assert LinkHolds(g, dist, pad, x);
    match pad[x]
    case None =>
      assert Ancestry(m, rank, x) == [x];
    case Some(p) =>
      PathFromTable(g, s, dist, pad, rank, p);
      var ap := Ancestry(m, rank, p);
      var a := Ancestry(m, rank, x);
      assert a == ap + [x];
      AncestryIsChain(m, rank, p);
      assert a[..|a| - 1] == ap;
      assert IsWalk(g, a) by {
        forall i | 0 <= i < |a| - 1 ensures Adjacent(g, a[i], a[i + 1]) {
          if i < |ap| - 1 {
            assert a[i] == ap[i] && a[i + 1] == ap[i + 1];
          }
        }
      }
  }

  /**
   On dijkstra's table, the walk back from a reachable x is a shortest walk from
   the source to x: it weighs x's distance and no walk from s to x weighs less.
   */
  lemma ShortestFromTable(g: Graph, s: nat, dist: seq<Dist>, pad: seq<Option<nat>>, rank: map<nat, nat>, x: nat)
    requires PathTable(g, s, dist, pad, rank) && x < g.n && Reachable(g, s, x)
    ensures var a := Ancestry(AsMap(pad), rank, x);
      && IsWalk(g, a) && a[0] == s && a[|a| - 1] == x && PathWeight(g, a) == dist[x].d
      && forall p :: IsWalk(g, p) && p[0] == s && p[|p| - 1] == x ==> PathWeight(g, a) <= PathWeight(g, p)
  {
    PathFromTable(g, s, dist, pad, rank, x);
    AncestryIsChain(AsMap(pad), rank, x);
    assert Shortest(g, s, dist, x);
  }

  /**
   The reconstruction that checks the origin, on dijkstra's table: the walk back
   from x starts at `origen` exactly when x is reachable and `origen` is the
   source, or x is unreachable and is `origen` itself (the walk back is then [x]).
   */
  lemma OriginCheckOnTable(g: Graph, s: nat, dist: seq<Dist>, pad: seq<Option<nat>>, rank: map<nat, nat>,
                           origen: nat, x: nat)
    requires PathTable(g, s, dist, pad, rank) && x < g.n
    ensures var a := Ancestry(AsMap(pad), rank, x);
      a[0] == origen <==> (Reachable(g, s, x) && origen == s) || (!Reachable(g, s, x) && origen == x)
  {
    PathFromTable(g, s, dist, pad, rank, x);
  }
}
