/** The conventional optional value, standing for Python's None. */
module Wrappers {
  datatype Option<T> = None | Some(value: T)
}

/**
 The read-only graph that every algorithm of `acciones` receives: an undirected
 graph over the vertices 0 .. n-1, given as the list of its edges in insertion
 order. A vertex's neighbours are enumerated in that same order, as the
 adjacency lists of the graph library are. The library's own edge listing
 groups edges by their first node instead; dijkstra's pass over the edges is
 modelled in insertion order, which gives the same table because each
 neighbour of the selected vertex is relaxed once, against the selected
 vertex's fixed distance.
 */
module Graphs {
  import opened Wrappers

  /** An undirected edge {a, b}; `w` is its "weight" attribute, None when absent. */
  datatype Edge = Edge(a: nat, b: nat, w: Option<nat>)

  /** One entry of a vertex's adjacency: the neighbour and the weight attribute of the edge to it. */
  datatype Arc = Arc(to: nat, w: Option<nat>)

  datatype Graph = Graph(n: nat, edges: seq<Edge>)

  predicate Connects(e: Edge, u: nat, v: nat)
  {
    (e.a == u && e.b == v) || (e.a == v && e.b == u)
  }

  /** The endpoint of `e` that is not `u` (e touches u). */
  function Other(e: Edge, u: nat): nat
  {
    if e.a == u then e.b else e.a
  }

  /** At most one edge per unordered pair. */
  predicate Simple(es: seq<Edge>)
  {
    forall i, j :: 0 <= i < j < |es| ==> !Connects(es[j], es[i].a, es[i].b)
  }

  /** What graph construction guarantees: endpoints are vertices, no self-loops, no parallel edges. */
  predicate ValidGraph(g: Graph)
  {
    && (forall i :: 0 <= i < |g.edges| ==> g.edges[i].a < g.n && g.edges[i].b < g.n && g.edges[i].a != g.edges[i].b)
    && Simple(g.edges)
  }

  /** Every edge carries a weight attribute (graph construction always sets one). */
  predicate FullyWeighted(g: Graph)
  {
    forall i :: 0 <= i < |g.edges| ==> g.edges[i].w.Some?
  }

  /** The first edge of `es` joining u and v, if any. */
  function EdgeBetween(es: seq<Edge>, u: nat, v: nat): (r: Option<Edge>)
    ensures r.Some? ==> r.value in es && Connects(r.value, u, v)
    ensures r.None? ==> forall e :: e in es ==> !Connects(e, u, v)
  {
    if es == [] then None
    else if Connects(es[0], u, v) then Some(es[0])
    else EdgeBetween(es[1..], u, v)
  }

  predicate Adjacent(g: Graph, u: nat, v: nat)
  {
    EdgeBetween(g.edges, u, v).Some?
  }

  /** The weight attribute of the edge between u and v (`grafo[u][v]`), None if there is none. */
  function Weight(g: Graph, u: nat, v: nat): Option<nat>
  {
    match EdgeBetween(g.edges, u, v)
    case None => None
    case Some(e) => e.w
  }

  /** In a simple edge list, any edge joining u and v is the one `EdgeBetween` finds. */
  lemma {:induction false} EdgeBetweenUnique(es: seq<Edge>, k: nat, u: nat, v: nat)
    requires Simple(es)
    requires k < |es| && Connects(es[k], u, v)
    ensures EdgeBetween(es, u, v) == Some(es[k])
  {
    if k > 0 {
      if Connects(es[0], u, v) {
        assert Connects(es[k], es[0].a, es[0].b);
        assert false;
      }
      assert Simple(es[1..]) by {
        forall i, j | 0 <= i < j < |es[1..]|
          ensures !Connects(es[1..][j], es[1..][i].a, es[1..][i].b)
        {
          assert es[1..][j] == es[j + 1] && es[1..][i] == es[i + 1];
        }
      }
      EdgeBetweenUnique(es[1..], k - 1, u, v);
    }
  }

  /** The adjacency of u: one arc per edge touching u, in edge order. */
  function Incident(g: Graph, u: nat): (r: seq<Arc>)
    ensures |r| <= |g.edges|
  {
    IncidentIn(g.edges, u)
  }

  function IncidentIn(es: seq<Edge>, u: nat): (r: seq<Arc>)
    ensures |r| <= |es|
  {
    if es == [] then []
    else
      (if es[0].a == u then [Arc(es[0].b, es[0].w)]
       else if es[0].b == u then [Arc(es[0].a, es[0].w)]
       else [])
      + IncidentIn(es[1..], u)
  }

  /** Every arc of u comes from an edge joining u to the arc's target, with that edge's weight. */
  lemma {:induction false} IncidentInSound(es: seq<Edge>, u: nat, k: nat)
    requires k < |IncidentIn(es, u)|
    ensures exists i :: 0 <= i < |es| && Connects(es[i], u, IncidentIn(es, u)[k].to) && es[i].w == IncidentIn(es, u)[k].w
  {
    var head := if es[0].a == u then [Arc(es[0].b, es[0].w)]
                else if es[0].b == u then [Arc(es[0].a, es[0].w)]
                else [];
    assert IncidentIn(es, u) == head + IncidentIn(es[1..], u);
    if k < |head| {
      assert Connects(es[0], u, IncidentIn(es, u)[k].to);
    } else {
      IncidentInSound(es[1..], u, k - |head|);
      var i :| 0 <= i < |es[1..]| && Connects(es[1..][i], u, IncidentIn(es[1..], u)[k - |head|].to)
               && es[1..][i].w == IncidentIn(es[1..], u)[k - |head|].w;
      assert es[i + 1] == es[1..][i];
    }
  }

  /** Every edge touching u shows up as an arc of u. */
  lemma {:induction false} IncidentInComplete(es: seq<Edge>, u: nat, i: nat)
    requires i < |es| && (es[i].a == u || es[i].b == u)
    ensures exists k :: 0 <= k < |IncidentIn(es, u)| && IncidentIn(es, u)[k] == Arc(Other(es[i], u), es[i].w)
  {
    var head := if es[0].a == u then [Arc(es[0].b, es[0].w)]
                else if es[0].b == u then [Arc(es[0].a, es[0].w)]
                else [];
    assert IncidentIn(es, u) == head + IncidentIn(es[1..], u);
    if i == 0 {
      assert IncidentIn(es, u)[0] == Arc(Other(es[0], u), es[0].w);
    } else {
      assert es[1..][i - 1] == es[i];
      IncidentInComplete(es[1..], u, i - 1);
      var k :| 0 <= k < |IncidentIn(es[1..], u)| && IncidentIn(es[1..], u)[k] == Arc(Other(es[i], u), es[i].w);
      assert IncidentIn(es, u)[|head| + k] == Arc(Other(es[i], u), es[i].w);
    }
  }

  /** An arc of u leads to a vertex adjacent to u, and carries the weight of the edge between them. */
  lemma IncidentArc(g: Graph, u: nat, k: nat)
    requires ValidGraph(g)
    requires k < |Incident(g, u)|
    ensures Incident(g, u)[k].to < g.n && Incident(g, u)[k].to != u
    ensures Adjacent(g, u, Incident(g, u)[k].to)
    ensures Weight(g, u, Incident(g, u)[k].to) == Incident(g, u)[k].w
  {
    IncidentInSound(g.edges, u, k);
    var i :| 0 <= i < |g.edges| && Connects(g.edges[i], u, Incident(g, u)[k].to) && g.edges[i].w == Incident(g, u)[k].w;
    EdgeBetweenUnique(g.edges, i, u, Incident(g, u)[k].to);
  }

  /** Each neighbour of u is the target of some arc of u. */
  lemma AdjacentArc(g: Graph, u: nat, v: nat)
    requires Adjacent(g, u, v)
    ensures exists k :: 0 <= k < |Incident(g, u)| && Incident(g, u)[k].to == v
  {
    var e := EdgeBetween(g.edges, u, v).value;
    var i :| 0 <= i < |g.edges| && g.edges[i] == e;
    assert Other(e, u) == v;
    IncidentInComplete(g.edges, u, i);
    var k :| 0 <= k < |IncidentIn(g.edges, u)| && IncidentIn(g.edges, u)[k] == Arc(Other(e, u), e.w);
    assert Incident(g, u)[k].to == v;
  }

  /** An adjacent pair is joined by an edge of the list that touches u and whose other end is v. */
  lemma AdjacentEdge(g: Graph, u: nat, v: nat) returns (i: nat)
    requires Adjacent(g, u, v)
    ensures i < |g.edges| && (g.edges[i].a == u || g.edges[i].b == u) && Other(g.edges[i], u) == v
  {
    var e := EdgeBetween(g.edges, u, v).value;
    i :| 0 <= i < |g.edges| && g.edges[i] == e;
  }

  // ---------------------------------------------------------------- walks

  /** A non-empty vertex sequence whose consecutive members are adjacent. */
  predicate IsWalk(g: Graph, p: seq<nat>)
  {
    && |p| > 0
    && (forall i :: 0 <= i < |p| ==> p[i] < g.n)
    && (forall i :: 0 <= i < |p| - 1 ==> Adjacent(g, p[i], p[i + 1]))
  }

  /** t can be reached from s by a walk none of whose vertices after s lies in `blocked`. */
  ghost predicate ReachableAvoiding(g: Graph, s: nat, t: nat, blocked: set<nat>)
  {
    exists p :: IsWalk(g, p) && p[0] == s && p[|p| - 1] == t && forall i :: 1 <= i < |p| ==> p[i] !in blocked
  }

  ghost predicate Reachable(g: Graph, s: nat, t: nat)
  {
    ReachableAvoiding(g, s, t, {})
  }

  lemma ReachStart(g: Graph, s: nat, blocked: set<nat>)
    requires s < g.n
    ensures ReachableAvoiding(g, s, s, blocked)
  {
    assert IsWalk(g, [s]);
  }

  /** A reachable vertex's unblocked neighbour is reachable too. */
  lemma ReachStep(g: Graph, s: nat, u: nat, v: nat, blocked: set<nat>)
    requires ReachableAvoiding(g, s, u, blocked)
    requires Adjacent(g, u, v) && v < g.n && v !in blocked
    ensures ReachableAvoiding(g, s, v, blocked)
  {
    var p :| IsWalk(g, p) && p[0] == s && p[|p| - 1] == u && forall i :: 1 <= i < |p| ==> p[i] !in blocked;
    var q := p + [v];
    assert IsWalk(g, q);
    assert forall i :: 1 <= i < |q| ==> q[i] !in blocked;
  }

  /**
   A set that contains s and every unblocked neighbour of its members contains
   everything reachable from s while avoiding `blocked`.
   */
  lemma ReachableWithin(g: Graph, s: nat, t: nat, blocked: set<nat>, S: set<nat>)
    requires s in S
    requires forall u, v :: u in S && Adjacent(g, u, v) && v !in blocked ==> v in S
    requires ReachableAvoiding(g, s, t, blocked)
    ensures t in S
  {
    var p :| IsWalk(g, p) && p[0] == s && p[|p| - 1] == t && forall i :: 1 <= i < |p| ==> p[i] !in blocked;
    var i := 0;
    while i < |p| - 1
      invariant 0 <= i < |p| && p[i] in S
    {
      assert Adjacent(g, p[i], p[i + 1]) && p[i + 1] !in blocked;
      i := i + 1;
    }
  }

  /** A walk's vertices are vertices of the graph, so reachable vertices are. */
  lemma ReachableIsVertex(g: Graph, s: nat, t: nat, blocked: set<nat>)
    requires ReachableAvoiding(g, s, t, blocked)
    ensures s < g.n && t < g.n
  {
  }

  // ---------------------------------------------------------------- counting

  /** The vertex set {0, ..., n-1}. */
  function Range(n: nat): (r: set<nat>)
    ensures forall x :: x in r ==> x < n
  {
    if n == 0 then {} else Range(n - 1) + {n - 1}
  }

  lemma {:induction false} RangeCard(n: nat)
    ensures |Range(n)| == n
    ensures forall x: nat :: x < n ==> x in Range(n)
  {
    if n > 0 {
      RangeCard(n - 1);
    }
  }

  lemma SubsetCard(A: set<nat>, B: set<nat>)
    requires A <= B
    ensures |A| <= |B|
    decreases B
  {
    if A != {} {
      var x :| x in A;
      assert A == (A - {x}) + {x};
      assert B == (B - {x}) + {x};
      SubsetCard(A - {x}, B - {x});
    }
  }

  /** A set of vertices has at most n members, and has all of them when it has n. */
  lemma VertexSetBound(S: set<nat>, n: nat)
    requires forall x :: x in S ==> x < n
    ensures |S| <= n
    ensures |S| >= n ==> forall x: nat :: x < n ==> x in S
  {
    RangeCard(n);
    SubsetCard(S, Range(n));
    if |S| >= n {
      forall x: nat | x < n ensures x in S {
        if x !in S {
          assert Range(n) == (Range(n) - {x}) + {x};
          SubsetCard(S, Range(n) - {x});
        }
      }
    }
  }

  predicate Distinct(s: seq<nat>)
  {
    forall i, j :: 0 <= i < j < |s| ==> s[i] != s[j]
  }

  lemma {:induction false} DistinctCard(s: seq<nat>)
    requires Distinct(s)
    ensures |set x: nat | x in s| == |s|
  {
    if s != [] {
      var t := s[..|s| - 1];
      var last := s[|s| - 1];
      assert s == t + [last];
      assert Distinct(t);
      DistinctCard(t);
      assert last !in t;
      var A := set x: nat | x in t;
      assert last !in A;
      assert (set x: nat | x in s) == A + {last};
      assert |A + {last}| == |A| + 1;
    }
  }

  /** A duplicate-free list of vertices is no longer than the vertex count. */
  lemma DistinctBound(s: seq<nat>, n: nat)
    requires Distinct(s)
    requires forall x :: x in s ==> x < n
    ensures |s| <= n
  {
    DistinctCard(s);
    VertexSetBound((set x: nat | x in s), n);
  }
}
