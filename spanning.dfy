/**
 Prim's algorithm of `acciones` (prim). The priority queue of `(peso, u, v)`
 tuples is a sequence of candidates from which the least one in tuple order is
 extracted; stale candidates are discarded when popped. `Vt`, `Et` and
 `peso_total` are the method's local state.
 */
module Spanning {
  import opened Wrappers
  import opened Graphs

  /** A queued tuple (peso, u, v), and an entry (u, v, peso) of the tree edge list. */
  datatype Candidate = Candidate(w: nat, u: nat, v: nat)

  /** `.get("weight", 1)`: the weight attribute, or 1 when the edge has none. */
  function WeightOr1(w: Option<nat>): (r: nat)
    ensures w.Some? ==> r == w.value
    ensures w.None? ==> r == 1
  {
    match w
    case Some(x) => x
    case None => 1
  }

  /** Tuple order on candidates: by weight, then by u, then by v. */
  predicate Precedes(x: Candidate, y: Candidate): (r: bool)
    ensures x.w < y.w ==> r
    ensures r ==> x.w <= y.w
  {
    x.w < y.w || (x.w == y.w && (x.u < y.u || (x.u == y.u && x.v <= y.v)))
  }

  /** The tuple order is a total order on candidates, so a least queued candidate is well defined. */
  lemma PrecedesTotal(x: Candidate, y: Candidate, z: Candidate)
    ensures Precedes(x, y) || Precedes(y, x)
    ensures Precedes(x, y) && Precedes(y, x) ==> x == y
    ensures Precedes(x, y) && Precedes(y, z) ==> Precedes(x, z)
  {
  }

  /** The sum of the weights of a list of tree edges. */
  function TotalWeight(et: seq<Candidate>): nat
  {
    if et == [] then 0 else TotalWeight(et[..|et| - 1]) + et[|et| - 1].w
  }

  /** `q.get()`: removes and returns the least candidate in tuple order. */
  method ExtractMin(q: seq<Candidate>) returns (c: Candidate, rest: seq<Candidate>)
    requires q != []
    ensures c in q
    ensures forall x :: x in q ==> Precedes(c, x)
    ensures multiset(q) == multiset(rest) + multiset{c}
    ensures |rest| == |q| - 1
  {
    var m := 0;
    var i := 1;
    while i < |q|
      invariant 0 <= m < i <= |q|
      invariant forall j :: 0 <= j < i ==> Precedes(q[m], q[j])
    {
      if !Precedes(q[m], q[i]) {
        m := i;
      }
      i := i + 1;
    }
    c := q[m];
    rest := q[..m] + q[m + 1..];
    assert q == q[..m] + [c] + q[m + 1..];
  }

  /** The new ends of a list of tree edges. */
  function Ends(et: seq<Candidate>): set<nat>
  {
    if et == [] then {} else Ends(et[..|et| - 1]) + {et[|et| - 1].v}
  }

  /**
   The tree built so far from `vo`: its vertices are `vo` and the new ends of
   its edges; each edge joins a vertex already in the tree (`vo` or the end of an
   earlier edge) to one that is not, along a graph edge, with the weight that
   edge has (1 when it has none); so there is one edge per vertex besides `vo`.
   Every tree vertex is reachable from `vo`.
   */
  ghost predicate TreeFrom(g: Graph, vo: nat, vt: set<nat>, et: seq<Candidate>)
  {
    && vt == {vo} + Ends(et)
    && |et| + 1 == |vt|
    && (forall x :: x in vt ==> x < g.n && Reachable(g, vo, x))
    && Ordered(vo, et)
    && (forall i :: 0 <= i < |et| ==>
          Adjacent(g, et[i].u, et[i].v) && et[i].w == WeightOr1(Weight(g, et[i].u, et[i].v)))
  }

  /** Each edge joins a vertex already in the tree (`vo` or the end of an earlier edge) to one that is not. */
  ghost predicate Ordered(vo: nat, et: seq<Candidate>)
  {
    forall i :: 0 <= i < |et| ==> et[i].u in {vo} + Ends(et[..i]) && et[i].v !in {vo} + Ends(et[..i])
  }

  /** Appending an edge from the tree to a vertex outside it keeps the edges ordered. */
  lemma OrderedGrows(vo: nat, et: seq<Candidate>, c: Candidate)
    requires Ordered(vo, et) && c.u in {vo} + Ends(et) && c.v !in {vo} + Ends(et)
    ensures Ordered(vo, et + [c])
  {
    var et' := et + [c];
    forall i | 0 <= i < |et'|
      ensures et'[i].u in {vo} + Ends(et'[..i]) && et'[i].v !in {vo} + Ends(et'[..i])
    {
      if i < |et| {
        assert et'[..i] == et[..i];
      } else {
        assert et'[..i] == et;
      }
    }
  }

  /** c weighs no more than any arc leaving the vertex set S. */
  ghost predicate Lightest(g: Graph, S: set<nat>, c: Candidate)
  {
    forall x, k :: x in S && 0 <= k < |Incident(g, x)| && Incident(g, x)[k].to !in S ==>
      c.w <= WeightOr1(Incident(g, x)[k].w)
  }

  /** Each tree edge was a lightest edge leaving the tree built before it. */
  ghost predicate Greedy(g: Graph, vo: nat, et: seq<Candidate>)
  {
    forall i :: 0 <= i < |et| ==> Lightest(g, {vo} + Ends(et[..i]), et[i])
  }

  /**
   The loop invariant of prim: the tree, built greedily, the running total of
   its weights, the queue holding only graph edges out of the tree with their
   weights, and every arc from the tree to a vertex outside it waiting in the
   queue.
   */
  ghost predicate PrimState(g: Graph, vo: nat, vt: set<nat>, et: seq<Candidate>, total: nat, q: seq<Candidate>)
  {
    && TreeFrom(g, vo, vt, et)
    && Greedy(g, vo, et)
    && total == TotalWeight(et)
    && QueueFrom(g, vt, q)
    && Crossing(g, vt, q)
  }

  /** Every queued candidate is a graph edge out of the tree, with that edge's weight. */
  ghost predicate QueueFrom(g: Graph, vt: set<nat>, q: seq<Candidate>)
  {
    forall c :: c in q ==> c.u in vt && c.v < g.n && Adjacent(g, c.u, c.v) && c.w == WeightOr1(Weight(g, c.u, c.v))
  }

  /** The candidate (weight, x, y) that prim queues for the k-th arc of x. */
  function ArcCandidate(g: Graph, x: nat, k: nat): Candidate
    requires k < |Incident(g, x)|
  {
    Candidate(WeightOr1(Incident(g, x)[k].w), x, Incident(g, x)[k].to)
  }

  /** Every arc from a tree vertex to a vertex outside the tree is queued. */
  ghost predicate Crossing(g: Graph, vt: set<nat>, q: seq<Candidate>)
  {
    forall x, k :: x in vt && 0 <= k < |Incident(g, x)| && Incident(g, x)[k].to !in vt ==> ArcCandidate(g, x, k) in q
  }

  /** What remains after removing c from q is the rest of q. */
  lemma Removed(q: seq<Candidate>, rest: seq<Candidate>, c: Candidate)
    requires multiset(q) == multiset(rest) + multiset{c}
    ensures c in q
    ensures forall d :: d in rest ==> d in q
    ensures forall d :: d in q && d != c ==> d in rest
  {
    assert c in multiset(q);
    forall d | d in rest ensures d in q {
      assert d in multiset(q);
    }
    forall d | d in q && d != c ensures d in rest {
      assert multiset(q)[d] == multiset(rest)[d] + multiset{c}[d];
      assert d in multiset(rest);
    }
  }

  /** The candidates pushed for the arcs of v, in order, to vertices outside vt. */
  function Pushed(arcs: seq<Arc>, v: nat, vt: set<nat>): seq<Candidate>
  {
    if arcs == [] then []
    else
      Pushed(arcs[..|arcs| - 1], v, vt)
      + (if arcs[|arcs| - 1].to !in vt then [Candidate(WeightOr1(arcs[|arcs| - 1].w), v, arcs[|arcs| - 1].to)] else [])
  }

  /** Adding a queued edge whose end is new keeps the shape of the tree. */
  lemma TreeGrows(g: Graph, vo: nat, vt: set<nat>, et: seq<Candidate>, c: Candidate)
    requires TreeFrom(g, vo, vt, et)
    requires c.u in vt && c.v !in vt && c.v < g.n && Adjacent(g, c.u, c.v) && c.w == WeightOr1(Weight(g, c.u, c.v))
    ensures TreeFrom(g, vo, vt + {c.v}, et + [c])
  {
    var et' := et + [c];
    ReachStep(g, vo, c.u, c.v, {});
    assert et'[..|et|] == et;
    assert Ends(et') == Ends(et) + {c.v};
    OrderedGrows(vo, et, c);
  }

  /** Discarding a stale candidate (one whose end is in the tree) keeps the invariant. */
  lemma DiscardStale(g: Graph, vo: nat, vt: set<nat>, et: seq<Candidate>, total: nat,
                     q: seq<Candidate>, c: Candidate, rest: seq<Candidate>)
    requires PrimState(g, vo, vt, et, total, q)
    requires multiset(q) == multiset(rest) + multiset{c} && c.v in vt
    ensures PrimState(g, vo, vt, et, total, rest)
  {
    Removed(q, rest, c);
    forall x, k | x in vt && 0 <= k < |Incident(g, x)| && Incident(g, x)[k].to !in vt
      ensures ArcCandidate(g, x, k) in rest
    {
      assert ArcCandidate(g, x, k) in q;
    }
  }

  /**
   Each candidate pushed for the first k arcs of v is a graph edge from v to a
   vertex outside vt, weighted as that edge (1 when it has none).
   */
  lemma {:induction false} PushedSound(g: Graph, v: nat, vt: set<nat>, k: nat)
    requires ValidGraph(g) && k <= |Incident(g, v)|
    ensures forall d :: d in Pushed(Incident(g, v)[..k], v, vt) ==>
              d.u == v && d.v !in vt && d.v < g.n && Adjacent(g, d.u, d.v) && d.w == WeightOr1(Weight(g, d.u, d.v))
  {
    if k > 0 {
      var arcs := Incident(g, v);
      PushedSound(g, v, vt, k - 1);
      assert arcs[..k][..k - 1] == arcs[..k - 1];
      IncidentArc(g, v, k - 1);
    }
  }

  /** Every arc among the first k of v that leads outside vt has its candidate pushed. */
  lemma {:induction false} PushedComplete(g: Graph, v: nat, vt: set<nat>, k: nat)
    requires k <= |Incident(g, v)|
    ensures forall j :: 0 <= j < k && Incident(g, v)[j].to !in vt ==> ArcCandidate(g, v, j) in Pushed(Incident(g, v)[..k], v, vt)
  {
    if k > 0 {
      var arcs := Incident(g, v);
      PushedComplete(g, v, vt, k - 1);
      assert arcs[..k][..k - 1] == arcs[..k - 1];
      var tail := if arcs[k - 1].to !in vt then [ArcCandidate(g, v, k - 1)] else [];
      assert Pushed(arcs[..k], v, vt) == Pushed(arcs[..k - 1], v, vt) + tail;
    }
  }

  /** The inner loop of prim for a vertex v that just joined the tree vt. */
  method PushArcs(g: Graph, v: nat, vt: set<nat>) returns (pushed: seq<Candidate>)
    requires ValidGraph(g)
    ensures pushed == Pushed(Incident(g, v), v, vt)
    ensures forall d :: d in pushed ==> d.u == v && d.v !in vt && d.v < g.n && Adjacent(g, d.u, d.v) && d.w == WeightOr1(Weight(g, d.u, d.v))
    ensures forall j :: 0 <= j < |Incident(g, v)| && Incident(g, v)[j].to !in vt ==> ArcCandidate(g, v, j) in pushed
  {
    var arcs := Incident(g, v);
    pushed := [];
    var k := 0;
    while k < |arcs|
      invariant 0 <= k <= |arcs|
      invariant pushed == Pushed(arcs[..k], v, vt)
    {
      assert arcs[..k + 1][..k] == arcs[..k];
      if arcs[k].to !in vt {
        pushed := pushed + [Candidate(WeightOr1(arcs[k].w), v, arcs[k].to)];
      }
      k := k + 1;
    }
    assert arcs[..k] == arcs;
    PushedSound(g, v, vt, k);
    PushedComplete(g, v, vt, k);
  }

  /** A candidate no heavier than any queued one, with every crossing arc queued, is a lightest crossing edge. */
  lemma LightestFromQueue(g: Graph, vt: set<nat>, q: seq<Candidate>, c: Candidate)
    requires Crossing(g, vt, q)
    requires forall d :: d in q ==> Precedes(c, d)
    ensures Lightest(g, vt, c)
  {
    forall x, k | x in vt && 0 <= k < |Incident(g, x)| && Incident(g, x)[k].to !in vt
      ensures c.w <= WeightOr1(Incident(g, x)[k].w)
    {
      assert ArcCandidate(g, x, k) in q;
    }
  }

  /** Appending a lightest edge leaving the current tree keeps the tree greedy. */
  lemma GreedyGrows(g: Graph, vo: nat, vt: set<nat>, et: seq<Candidate>, c: Candidate)
    requires Greedy(g, vo, et) && vt == {vo} + Ends(et) && Lightest(g, vt, c)
    ensures Greedy(g, vo, et + [c])
  {
    var et' := et + [c];
    forall i | 0 <= i < |et'|
      ensures Lightest(g, {vo} + Ends(et'[..i]), et'[i])
    {
      if i < |et| {
        assert et'[..i] == et[..i];
      } else {
        assert et'[..i] == et;
      }
    }
  }

  /** Accepting the least candidate, whose end is new, and queueing that end's arcs, keeps the invariant. */
  lemma AcceptFresh(g: Graph, vo: nat, vt: set<nat>, et: seq<Candidate>, total: nat,
                    q: seq<Candidate>, c: Candidate, rest: seq<Candidate>, pushed: seq<Candidate>)
    requires PrimState(g, vo, vt, et, total, q)
    requires multiset(q) == multiset(rest) + multiset{c} && c.v !in vt
    requires forall d :: d in q ==> Precedes(c, d)
    requires forall d :: d in pushed ==> d.u == c.v && d.v < g.n && Adjacent(g, d.u, d.v) && d.w == WeightOr1(Weight(g, d.u, d.v))
    requires forall j :: 0 <= j < |Incident(g, c.v)| && Incident(g, c.v)[j].to !in vt + {c.v} ==> ArcCandidate(g, c.v, j) in pushed
    ensures PrimState(g, vo, vt + {c.v}, et + [c], total + c.w, rest + pushed)
  {
    var vt', q' := vt + {c.v}, rest + pushed;
    Removed(q, rest, c);
    TreeGrows(g, vo, vt, et, c);
    LightestFromQueue(g, vt, q, c);
    GreedyGrows(g, vo, vt, et, c);
    assert (et + [c])[..|et|] == et;
    forall x, k | x in vt' && 0 <= k < |Incident(g, x)| && Incident(g, x)[k].to !in vt'
      ensures ArcCandidate(g, x, k) in q'
    {
      if x != c.v {
        assert ArcCandidate(g, x, k) in q;
        assert ArcCandidate(g, x, k) in rest;
      }
    }
  }

  /**
   One iteration of prim's loop after `q.get()` popped `c`, the least queued
   candidate, and left `rest`: a stale candidate (its end already in the tree)
   changes nothing but the queue; otherwise its end joins the tree, the edge
   joins `Et`, its weight joins the total, and the arcs from the new vertex to
   vertices outside the tree are queued. Either way the invariant is kept.
   */
  method Absorb(g: Graph, vo: nat, c: Candidate, rest: seq<Candidate>, vt: set<nat>, et: seq<Candidate>, total: nat,
                ghost q: seq<Candidate>)
    returns (vt': set<nat>, et': seq<Candidate>, total': nat, q': seq<Candidate>)
    requires ValidGraph(g)
    requires PrimState(g, vo, vt, et, total, q)
    requires multiset(q) == multiset(rest) + multiset{c}
    requires forall d :: d in q ==> Precedes(c, d)
    ensures c.v in vt ==> vt' == vt && et' == et && total' == total && q' == rest
    ensures c.v !in vt ==> vt' == vt + {c.v} && et' == et + [c] && total' == total + c.w
                           && q' == rest + Pushed(Incident(g, c.v), c.v, vt')
    ensures PrimState(g, vo, vt', et', total', q')
  {
    if c.v in vt {
      DiscardStale(g, vo, vt, et, total, q, c, rest);
      vt', et', total', q' := vt, et, total, rest;
    } else {
      vt' := vt + {c.v};
      var pushed := PushArcs(g, c.v, vt');
      AcceptFresh(g, vo, vt, et, total, q, c, rest, pushed);
      et', total', q' := et + [c], total + c.w, rest + pushed;
    }
  }

  /**
   prim: grows a tree from `vo` by always taking the least queued candidate,
   until the queue is empty or the tree has as many vertices as the graph. The
   source returns the total; the tree edges `Et` and vertices `Vt` are returned
   too so that the contract can speak of them. The total is the sum of the tree
   edge weights, there is one tree edge per vertex besides `vo`, each tree edge
   was a lightest edge leaving the tree built before it, and the tree covers
   exactly the vertices reachable from `vo`: its component.
   */
  method Prim(g: Graph, vo: nat) returns (total: nat, et: seq<Candidate>, vt: set<nat>)
    requires ValidGraph(g) && vo < g.n
    ensures TreeFrom(g, vo, vt, et)
    ensures Greedy(g, vo, et)
    ensures total == TotalWeight(et)
    ensures |et| == |vt| - 1 && |vt| <= g.n
    ensures forall x: nat :: x in vt <==> Reachable(g, vo, x)
  {
    var q: seq<Candidate> := [];
    vt := {vo};
    total := 0;
    et := [];
    ReachStart(g, vo, {});
    var arcs := Incident(g, vo);
    var k := 0;
    while k < |arcs|
      invariant 0 <= k <= |arcs|
      invariant forall d :: d in q ==> d.u == vo && d.v < g.n && Adjacent(g, d.u, d.v) && d.w == WeightOr1(Weight(g, d.u, d.v))
      invariant forall j :: 0 <= j < k ==> ArcCandidate(g, vo, j) in q
    {
      IncidentArc(g, vo, k);
      q := q + [Candidate(WeightOr1(arcs[k].w), vo, arcs[k].to)];
      k := k + 1;
    }
    assert PrimState(g, vo, vt, et, total, q);
    while q != [] && |vt| < g.n
      invariant PrimState(g, vo, vt, et, total, q)
      decreases g.n - |vt|, |q|
    {
      VertexSetBound(vt, g.n);
      ghost var q0 := q;
      var c, rest := ExtractMin(q);
      vt, et, total, q := Absorb(g, vo, c, rest, vt, et, total, q0);
    }
    VertexSetBound(vt, g.n);
    forall x: nat | Reachable(g, vo, x)
      ensures x in vt
    {
      if q == [] {
        forall u, v | u in vt && Adjacent(g, u, v)
          ensures v in vt
        {
          AdjacentArc(g, u, v);
        }
        ReachableWithin(g, vo, x, {}, vt);
      } else {
        ReachableIsVertex(g, vo, x, {});
      }
    }
  }
}
