/**
 Path reconstruction of `acciones` (reconstruir_camino), in the two forms the
 two copies of the class give it: over an index-aligned predecessor list with
 membership checks, and over a vertex-keyed predecessor map with a check that
 the walk back ended at the origin.
 */
module Paths {
  import opened Wrappers

  /** The predecessor list as a vertex-keyed map (vertex i is node i). */
  function AsMap(pad: seq<Option<nat>>): (m: map<nat, Option<nat>>)
    ensures forall v: nat :: v in m <==> v < |pad|
    ensures forall v: nat :: v < |pad| ==> m[v] == pad[v]
  {
    map v: nat | v < |pad| :: pad[v]
  }

  /**
   Following predecessors from any vertex ranked by `rank` ends: every ranked
   vertex is a key, its predecessor is ranked too, and the rank strictly
   decreases along the link. The ranked vertices are the ones whose walk back
   stops; the table may hold cycles among the others.
   */
  ghost predicate Ranked(prev: map<nat, Option<nat>>, rank: map<nat, nat>)
  {
    forall v :: v in rank ==>
      && v in prev
      && (prev[v].Some? ==> prev[v].value in rank && rank[prev[v].value] < rank[v])
  }

  /** The vertices met walking back from v along predecessor links, first one first. */
  ghost function Ancestry(prev: map<nat, Option<nat>>, rank: map<nat, nat>, v: nat): seq<nat>
    requires Ranked(prev, rank) && v in rank
    decreases rank[v]
  {
    match prev[v]
    case None => [v]
    case Some(p) => Ancestry(prev, rank, p) + [v]
  }

  /** A chain of predecessors ending at v: it starts at a vertex without predecessor and each vertex is its successor's predecessor. */
  ghost predicate ChainTo(prev: map<nat, Option<nat>>, a: seq<nat>, v: nat)
  {
    && |a| > 0
    && a[|a| - 1] == v
    && (forall i :: 0 <= i < |a| ==> a[i] in prev)
    && prev[a[0]] == None
    && (forall i :: 0 <= i < |a| - 1 ==> prev[a[i + 1]] == Some(a[i]))
  }

  /** The walk back from v is a chain of predecessors ending at v. */
  lemma {:induction false} AncestryIsChain(prev: map<nat, Option<nat>>, rank: map<nat, nat>, v: nat)
    requires Ranked(prev, rank) && v in rank
    ensures ChainTo(prev, Ancestry(prev, rank, v), v)
    decreases rank[v]
  {
    match prev[v]
    case None =>
    case Some(p) =>
      AncestryIsChain(prev, rank, p);
      var a := Ancestry(prev, rank, p);
      assert Ancestry(prev, rank, v) == a + [v];
  }

  /** ...and it is the only such chain. */
  lemma {:induction false} ChainIsAncestry(prev: map<nat, Option<nat>>, rank: map<nat, nat>, a: seq<nat>, v: nat)
    requires Ranked(prev, rank) && v in rank && ChainTo(prev, a, v)
    ensures a == Ancestry(prev, rank, v)
    decreases |a|
  {
    if |a| == 1 {
    } else {
      var a' := a[..|a| - 1];
      assert ChainTo(prev, a', a[|a| - 2]);
      ChainIsAncestry(prev, rank, a', a[|a| - 2]);
      assert a == a' + [v];
    }
  }

  /**
   reconstruir_camino(nodos, pad, origen, destino) of funciones.py: the empty
   list when origin or destination is not a node; otherwise the walk back from
   the destination, which need not start at the origin.
   */
  method ReconstructByIndex(pad: seq<Option<nat>>, origen: nat, destino: nat, ghost rank: map<nat, nat>)
    returns (camino: seq<nat>)
    requires origen < |pad| && destino < |pad| ==> Ranked(AsMap(pad), rank) && destino in rank
    ensures origen >= |pad| || destino >= |pad| ==> camino == []
    ensures origen < |pad| && destino < |pad| ==> camino == Ancestry(AsMap(pad), rank, destino)
    ensures origen < |pad| && destino < |pad| ==> ChainTo(AsMap(pad), camino, destino)
  {
    if origen >= |pad| || destino >= |pad| {
      return [];
    }
    ghost var m := AsMap(pad);
    camino := [];
    var actual: Option<nat> := Some(destino);
    while actual.Some?
      invariant actual.Some? ==> actual.value in rank && Ancestry(m, rank, destino) == Ancestry(m, rank, actual.value) + camino
      invariant actual.None? ==> Ancestry(m, rank, destino) == camino
      decreases if actual.Some? then rank[actual.value] + 1 else 0
    {
      var x := actual.value;
      camino := [x] + camino;
      actual := pad[x];
      if actual.Some? {
        assert Ancestry(m, rank, x) == Ancestry(m, rank, actual.value) + [x];
      }
    }
    AncestryIsChain(m, rank, destino);
  }

  /**
   reconstruir_camino(prev, origen, destino) of Lab2-Datos2-main/funciones.py:
   the walk back from the destination when it starts at the origin, and the
   empty list otherwise.
   */
  method ReconstructByMap(prev: map<nat, Option<nat>>, origen: nat, destino: nat, ghost rank: map<nat, nat>)
    returns (camino: seq<nat>)
    requires destino in prev && destino in rank && Ranked(prev, rank)
    ensures var a := Ancestry(prev, rank, destino); camino == if a[0] == origen then a else []
    ensures camino != [] ==> camino[0] == origen && ChainTo(prev, camino, destino)
  {
    camino := [];
    var actual: Option<nat> := Some(destino);
    while actual.Some?
      invariant actual.Some? ==> actual.value in rank && Ancestry(prev, rank, destino) == Ancestry(prev, rank, actual.value) + camino
      invariant actual.None? ==> Ancestry(prev, rank, destino) == camino
      decreases if actual.Some? then rank[actual.value] + 1 else 0
    {
      var x := actual.value;
      camino := [x] + camino;
      actual := prev[x];
      if actual.Some? {
        assert Ancestry(prev, rank, x) == Ancestry(prev, rank, actual.value) + [x];
      }
    }
    AncestryIsChain(prev, rank, destino);
    if camino[0] != origen {
      camino := [];
    }
  }
}
