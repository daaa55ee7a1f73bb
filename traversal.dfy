/**
 Breadth-first search of `acciones` (recorridoBFS, recorridoBFS2). The visited
 map, a dictionary from every vertex to a flag, is an array indexed by vertex;
 the FIFO deque is a sequence whose front is popped.
 */
module Traversal {
  import opened Graphs

  /** The vertices a visited map marks. */
  function Marked(visit: seq<bool>): (r: set<nat>)
    ensures forall v: nat :: v in r <==> v < |visit| && visit[v]
  {
    set v: nat | v < |visit| && visit[v]
  }

  /**
   What a search from `raiz` that skips the vertices of `B` keeps true: `marked`
   lists, without repetition and starting with `raiz`, the vertices it has marked,
   each reachable from `raiz` around `B` and, except `raiz`, outside `B`; the
   visited map marks exactly `B` and `marked`.
   */
  ghost predicate Searching(g: Graph, raiz: nat, B: set<nat>, visit: seq<bool>, marked: seq<nat>)
  {
    && |visit| == g.n
    && |marked| > 0 && marked[0] == raiz && Distinct(marked)
    && (forall v :: v in marked ==> v < g.n && ReachableAvoiding(g, raiz, v, B))
    && (forall v :: v in marked && v != raiz ==> v !in B)
    && (forall v :: 0 <= v < g.n ==> visit[v] == (v in B || v in marked))
  }

  /** Every arc out of a vertex of `done` leads into `B` or into `marked`. */
  ghost predicate Closed(g: Graph, B: set<nat>, done: seq<nat>, marked: seq<nat>)
  {
    forall x, j :: x in done && 0 <= j < |Incident(g, x)| ==>
      Incident(g, x)[j].to in B || Incident(g, x)[j].to in marked
  }

  /**
   The vertices the neighbour loop appends, in order, when it meets `arcs` with
   visited map `visit`: each arc's end not yet visited, which is then visited, so
   that an end met twice is appended once.
   */
  function Fresh(arcs: seq<Arc>, visit: seq<bool>): seq<nat>
    decreases |arcs|
  {
    if arcs == [] then []
    else
      var v := arcs[0].to;
      if v < |visit| && !visit[v] then [v] + Fresh(arcs[1..], visit[v := true])
      else Fresh(arcs[1..], visit)
  }

  /** Meeting the arc at k: its end is appended when not yet visited, and is visited from then on. */
  lemma FreshStep(arcs: seq<Arc>, k: nat, visit: seq<bool>)
    requires k < |arcs|
    ensures Fresh(arcs[k..], visit) ==
              if arcs[k].to < |visit| && !visit[arcs[k].to]
              then [arcs[k].to] + Fresh(arcs[k + 1..], visit[arcs[k].to := true])
              else Fresh(arcs[k + 1..], visit)
  {
    assert arcs[k..][1..] == arcs[k + 1..];
  }

  /**
   What the loop appends lists, without repetition, exactly the ends of `arcs`
   that `visit` did not mark.
   */
  lemma {:induction false} FreshIsUnvisitedEnds(arcs: seq<Arc>, visit: seq<bool>)
    ensures Distinct(Fresh(arcs, visit))
    ensures forall x :: x in Fresh(arcs, visit) ==> x < |visit| && !visit[x]
    ensures forall x :: x in Fresh(arcs, visit) ==> exists j :: 0 <= j < |arcs| && arcs[j].to == x
    ensures forall j :: 0 <= j < |arcs| && arcs[j].to < |visit| && !visit[arcs[j].to] ==> arcs[j].to in Fresh(arcs, visit)
    decreases |arcs|
  {
    if arcs != [] {
      var v, rest := arcs[0].to, arcs[1..];
      var visit' := if v < |visit| && !visit[v] then visit[v := true] else visit;
      FreshIsUnvisitedEnds(rest, visit');
      var t := Fresh(rest, visit');
      assert Fresh(arcs, visit) == if v < |visit| && !visit[v] then [v] + t else t;
      if v < |visit| && !visit[v] {
        assert v !in t;
        assert forall i :: 0 < i < |[v] + t| ==> ([v] + t)[i] == t[i - 1];
      }
      forall x | x in Fresh(arcs, visit)
        ensures exists j :: 0 <= j < |arcs| && arcs[j].to == x
      {
        if x != v || !(v < |visit| && !visit[v]) {
          assert x in t;
          var j :| 0 <= j < |rest| && rest[j].to == x;
          assert arcs[j + 1].to == x;
        } else {
          assert arcs[0].to == x;
        }
      }
      forall j | 0 <= j < |arcs| && arcs[j].to < |visit| && !visit[arcs[j].to]
        ensures arcs[j].to in Fresh(arcs, visit)
      {
        if j > 0 && arcs[j].to != v {
          assert rest[j - 1] == arcs[j];
        }
      }
    }
  }

  /** Concatenation regroups. */
  lemma Regroup(a: seq<nat>, b: seq<nat>, c: seq<nat>)
    ensures a + (b + c) == (a + b) + c
  {
  }

  /** Marking an unvisited neighbour v of a marked vertex u and appending it keeps the search invariant. */
  lemma MarkStep(g: Graph, raiz: nat, B: set<nat>, visit: seq<bool>, marked: seq<nat>, u: nat, v: nat)
    requires Searching(g, raiz, B, visit, marked) && u in marked
    requires Adjacent(g, u, v) && v < g.n && !visit[v]
    ensures Searching(g, raiz, B, visit[v := true], marked + [v])
  {
    ReachStep(g, raiz, u, v, B);
    var m := marked + [v];
    assert forall i :: 0 <= i < |marked| ==> m[i] == marked[i];
  }

  /**
   The inner loop of recorridoBFS2 for the popped vertex u: each neighbour not yet
   visited is marked and appended to the queue, in adjacency order.
   */
  method VisitNeighbours(g: Graph, raiz: nat, u: nat, visit: array<bool>, Q: seq<nat>,
                         ghost B: set<nat>, ghost marked: seq<nat>)
    returns (Q': seq<nat>, ghost marked': seq<nat>, ghost added: seq<nat>)
    requires ValidGraph(g) && Searching(g, raiz, B, visit[..], marked) && u in marked
    modifies visit
    ensures Searching(g, raiz, B, visit[..], marked')
    ensures Q' == Q + added && marked' == marked + added
    ensures added == Fresh(Incident(g, u), old(visit[..]))
    ensures forall j :: 0 <= j < |Incident(g, u)| ==> Incident(g, u)[j].to in B || Incident(g, u)[j].to in marked'
  {
    var arcs := Incident(g, u);
    Q' := Q;
    added := [];
    ghost var V0 := visit[..];
    var k := 0;
    while k < |arcs|
      invariant 0 <= k <= |arcs|
      invariant Q' == Q + added
      invariant Searching(g, raiz, B, visit[..], marked + added)
      invariant added + Fresh(arcs[k..], visit[..]) == Fresh(arcs, V0)
    {
      var v := arcs[k].to;
      ghost var W, A := visit[..], added;
      IncidentArc(g, u, k);
      FreshStep(arcs, k, W);
      if !visit[v] {
        MarkStep(g, raiz, B, W, marked + added, u, v);
        visit[v] := true;
        assert visit[..] == W[v := true];
        Q', added := Q' + [v], added + [v];
        Regroup(marked, A, [v]);
        Regroup(A, [v], Fresh(arcs[k + 1..], visit[..]));
      }
      k := k + 1;
    }
    marked' := marked + added;
    FreshIsUnvisitedEnds(arcs, V0);
    forall j | 0 <= j < |arcs|
      ensures arcs[j].to in B || arcs[j].to in marked'
    {
      IncidentArc(g, u, j);
    }
  }

  /** Once every arc out of u leads into B or the marked vertices, u joins the closed prefix. */
  lemma ClosedStep(g: Graph, B: set<nat>, comp: seq<nat>, u: nat, before: seq<nat>, added: seq<nat>)
    requires Closed(g, B, comp, before)
    requires forall j :: 0 <= j < |Incident(g, u)| ==> Incident(g, u)[j].to in B || Incident(g, u)[j].to in before + added
    ensures Closed(g, B, comp + [u], before + added)
  {
    forall x, j | x in comp + [u] && 0 <= j < |Incident(g, x)| && Incident(g, x)[j].to !in B
      ensures Incident(g, x)[j].to in before + added
    {
      if x != u {
        assert x in comp;
        assert Incident(g, x)[j].to in before;
      }
    }
  }

  /** A search whose every marked vertex is closed has marked everything reachable from the root around B. */
  lemma ClosedComplete(g: Graph, raiz: nat, B: set<nat>, comp: seq<nat>)
    requires ValidGraph(g) && |comp| > 0 && comp[0] == raiz
    requires forall v :: v in comp ==> v < g.n && ReachableAvoiding(g, raiz, v, B)
    requires Closed(g, B, comp, comp)
    ensures forall v: nat :: v in comp <==> ReachableAvoiding(g, raiz, v, B)
  {
    ghost var S := set x: nat | x in comp;
    assert raiz in S;
    forall x, y | x in S && Adjacent(g, x, y) && y !in B
      ensures y in S
    {
      AdjacentArc(g, x, y);
    }
    forall v: nat | ReachableAvoiding(g, raiz, v, B)
      ensures v in comp
    {
      ReachableWithin(g, raiz, v, B, S);
    }
  }

  /**
   One turn of the outer loop of recorridoBFS2: the front u of the queue is
   popped and appended to the component, and its unvisited neighbours are
   marked and queued; the search invariant and closure of the component are
   kept.
   */
  method Expand(g: Graph, raiz: nat, visit: array<bool>, comp: seq<nat>, Q: seq<nat>,
                ghost B: set<nat>, ghost marked: seq<nat>)
    returns (comp': seq<nat>, Q': seq<nat>, ghost marked': seq<nat>)
    requires ValidGraph(g) && Q != [] && marked == comp + Q
    requires Searching(g, raiz, B, visit[..], marked) && Closed(g, B, comp, marked)
    modifies visit
    ensures comp' == comp + [Q[0]] && marked' == comp' + Q'
    ensures Q' == Q[1..] + Fresh(Incident(g, Q[0]), old(visit[..]))
    ensures Searching(g, raiz, B, visit[..], marked') && Closed(g, B, comp', marked')
  {
    var u := Q[0];
    Q' := Q[1..];
    assert marked == (comp + [u]) + Q';
    ghost var added;
    Q', marked', added := VisitNeighbours(g, raiz, u, visit, Q', B, marked);
    ClosedStep(g, B, comp, u, marked, added);
    comp' := comp + [u];
  }

  /**
   recorridoBFS2: explores from `raiz`, skipping every vertex `visit` already
   marks, and updates `visit` in place. The returned component starts with
   `raiz`, repeats no vertex, holds no vertex visited before the call except
   `raiz`, and is exactly the set of vertices reachable from `raiz` through
   vertices not visited before the call. `visit` only gains the component.
   */
  method Bfs2(g: Graph, raiz: nat, visit: array<bool>) returns (comp: seq<nat>)
    requires ValidGraph(g) && raiz < g.n && visit.Length == g.n
    modifies visit
    ensures |comp| > 0 && comp[0] == raiz && Distinct(comp)
    ensures forall v :: v in comp ==> v < g.n
    ensures forall v :: 0 <= v < g.n ==> visit[v] == (old(visit[v]) || v in comp)
    ensures forall v :: v in comp && v != raiz ==> !old(visit[v])
    ensures forall v: nat :: v in comp <==> ReachableAvoiding(g, raiz, v, old(Marked(visit[..])))
  {
    ghost var B := Marked(visit[..]);
    var Q: seq<nat> := [raiz];
    visit[raiz] := true;
    comp := [];
    ghost var marked: seq<nat> := [raiz];
    ReachStart(g, raiz, B);
    while Q != []
      invariant marked == comp + Q
      invariant Searching(g, raiz, B, visit[..], marked)
      invariant Closed(g, B, comp, marked)
      decreases g.n - |comp|
    {
      DistinctBound(marked, g.n);
      comp, Q, marked := Expand(g, raiz, visit, comp, Q, B, marked);
    }
    assert comp == marked;
    ClosedComplete(g, raiz, B, comp);
  }

  /**
   recorridoBFS: the same search from a fresh map in which no vertex is visited.
   The returned map marks exactly the returned component, and the component is
   exactly the set of vertices reachable from `raiz`.
   */
  method Bfs(g: Graph, raiz: nat) returns (visit: seq<bool>, comp: seq<nat>)
    requires ValidGraph(g) && raiz < g.n
    ensures |visit| == g.n
    ensures |comp| > 0 && comp[0] == raiz && Distinct(comp)
    ensures forall v :: 0 <= v < g.n ==> (visit[v] <==> v in comp)
    ensures forall v: nat :: v in comp <==> v < g.n && Reachable(g, raiz, v)
  {
    var a := new bool[g.n](_ => false);
    assert Marked(a[..]) == {};
    comp := Bfs2(g, raiz, a);
    visit := a[..];
    forall v: nat | Reachable(g, raiz, v)
      ensures v < g.n
    {
      ReachableIsVertex(g, raiz, v, {});
    }
  }
}
