/** Undirected weighted multigraphs as finite sets of edges, and the theory that both
    minimum-spanning-tree programs rest on: what adding or exchanging one edge does to
    connectivity, and the cut property.

    An edge (x, y, w) is read without a direction, as Kruskal's program reads the matrix;
    the edges (x, y, w) and (y, x, w) are two parallel edges. */
module Graphs {

  datatype Edge = Edge(x: nat, y: nat, weight: int)

  /** The path `p`, a list of edges of E each taken in either direction, leads from u to v. */
  ghost predicate Leads(E: set<Edge>, u: nat, p: seq<Edge>, v: nat)
    decreases p
  {
    if p == [] then u == v
    else
      && p[0] in E
      && ((p[0].x == u && Leads(E, p[0].y, p[1..], v)) || (p[0].y == u && Leads(E, p[0].x, p[1..], v)))
  }

  ghost predicate Connected(E: set<Edge>, u: nat, v: nat) {
    exists p :: Leads(E, u, p, v)
  }

  /** No edge lies on a cycle: taking it away separates its end points. */
  ghost predicate Acyclic(T: set<Edge>) {
    forall e :: e in T ==> !Connected(T - {e}, e.x, e.y)
  }

  predicate InRange(E: set<Edge>, n: nat) {
    forall e :: e in E ==> e.x < n && e.y < n
  }

  predicate Crosses(e: Edge, S: set<nat>) {
    (e.x in S) != (e.y in S)
  }

  /** T is a spanning forest of G: a forest of edges of G that joins whatever G joins. */
  ghost predicate SpanningForest(G: set<Edge>, T: set<Edge>) {
    T <= G && Acyclic(T) && forall e :: e in G ==> Connected(T, e.x, e.y)
  }

  ghost predicate ConnectedGraph(n: nat, E: set<Edge>) {
    forall u, v :: 0 <= u < n && 0 <= v < n ==> Connected(E, u, v)
  }

  /** T is a spanning tree of the graph with vertices 0..n and edges G. */
  ghost predicate SpanningTree(n: nat, G: set<Edge>, T: set<Edge>) {
    T <= G && Acyclic(T) && ConnectedGraph(n, T)
  }

  ghost function Weight(T: set<Edge>): int {
    if T == {} then 0 else var e :| e in T; e.weight + Weight(T - {e})
  }

  ghost predicate MinimumSpanningForest(G: set<Edge>, T: set<Edge>) {
    SpanningForest(G, T) && forall U :: SpanningForest(G, U) ==> Weight(T) <= Weight(U)
  }

  ghost predicate MinimumSpanningTree(n: nat, G: set<Edge>, T: set<Edge>) {
    SpanningTree(n, G, T) && forall U :: SpanningTree(n, G, U) ==> Weight(T) <= Weight(U)
  }

  /** Every spanning forest of G can be traded for one that holds all of A and is no heavier.
      Both programs keep this true of the edges they have chosen so far. */
  ghost predicate Promising(G: set<Edge>, A: set<Edge>) {
    forall T {:trigger Improvable(G, A, T)} :: SpanningForest(G, T) ==> Improvable(G, A, T)
  }

  ghost predicate Improvable(G: set<Edge>, A: set<Edge>, T: set<Edge>) {
    exists U :: Improves(G, A, T, U)
  }

  ghost predicate Improves(G: set<Edge>, A: set<Edge>, T: set<Edge>, U: set<Edge>) {
    SpanningForest(G, U) && A <= U && Weight(U) <= Weight(T)
  }

  // ---------- Connectivity is an equivalence, monotone in the edges ----------

  lemma ConnectedRefl(E: set<Edge>, u: nat)
    ensures Connected(E, u, u)
  {
    assert Leads(E, u, [], u);
  }

  lemma {:induction false} LeadsAppend(E: set<Edge>, u: nat, p: seq<Edge>, v: nat, q: seq<Edge>, w: nat)
    requires Leads(E, u, p, v) && Leads(E, v, q, w)
    ensures Leads(E, u, p + q, w)
    decreases p
  {
    if p == [] {
      assert p + q == q;
    } else {
      assert (p + q)[1..] == p[1..] + q;
      if p[0].x == u && Leads(E, p[0].y, p[1..], v) {
        LeadsAppend(E, p[0].y, p[1..], v, q, w);
      } else {
        LeadsAppend(E, p[0].x, p[1..], v, q, w);
      }
    }
  }

  lemma ConnectedTrans(E: set<Edge>, u: nat, v: nat, w: nat)
    requires Connected(E, u, v) && Connected(E, v, w)
    ensures Connected(E, u, w)
  {
    var p :| Leads(E, u, p, v);
    var q :| Leads(E, v, q, w);
    LeadsAppend(E, u, p, v, q, w);
  }

  lemma ConnectedEdge(E: set<Edge>, e: Edge)
    requires e in E
    ensures Connected(E, e.x, e.y) && Connected(E, e.y, e.x)
  {
    assert Leads(E, e.y, [e][1..], e.y) && Leads(E, e.x, [e][1..], e.x);
    assert Leads(E, e.x, [e], e.y) && Leads(E, e.y, [e], e.x);
  }

  lemma {:induction false} LeadsBack(E: set<Edge>, u: nat, p: seq<Edge>, v: nat)
    requires Leads(E, u, p, v)
    ensures Connected(E, v, u)
    decreases p
  {
    if p == [] {
      ConnectedRefl(E, u);
    } else {
      var m := if p[0].x == u && Leads(E, p[0].y, p[1..], v) then p[0].y else p[0].x;
      LeadsBack(E, m, p[1..], v);
      ConnectedEdge(E, p[0]);
      ConnectedTrans(E, v, m, u);
    }
  }

  lemma ConnectedSym(E: set<Edge>, u: nat, v: nat)
    requires Connected(E, u, v)
    ensures Connected(E, v, u)
  {
    var p :| Leads(E, u, p, v);
    LeadsBack(E, u, p, v);
  }

  lemma {:induction false} LeadsMono(E: set<Edge>, F: set<Edge>, u: nat, p: seq<Edge>, v: nat)
    requires E <= F && Leads(E, u, p, v)
    ensures Leads(F, u, p, v)
    decreases p
  {
    if p != [] {
      if p[0].x == u && Leads(E, p[0].y, p[1..], v) {
        LeadsMono(E, F, p[0].y, p[1..], v);
      } else {
        LeadsMono(E, F, p[0].x, p[1..], v);
      }
    }
  }

  lemma ConnectedMono(E: set<Edge>, F: set<Edge>, u: nat, v: nat)
    requires E <= F && Connected(E, u, v)
    ensures Connected(F, u, v)
  {
    var p :| Leads(E, u, p, v);
    LeadsMono(E, F, u, p, v);
  }

  /** If E joins the end points of every edge of F, it joins whatever F joins. */
  lemma {:induction false} ConnectedCover(F: set<Edge>, E: set<Edge>, u: nat, p: seq<Edge>, v: nat)
    requires forall e :: e in F ==> Connected(E, e.x, e.y)
    requires Leads(F, u, p, v)
    ensures Connected(E, u, v)
    decreases p
  {
    if p == [] {
      ConnectedRefl(E, u);
    } else {
      var e := p[0];
      if e.x == u && Leads(F, e.y, p[1..], v) {
        ConnectedCover(F, E, e.y, p[1..], v);
        ConnectedTrans(E, u, e.y, v);
      } else {
        ConnectedCover(F, E, e.x, p[1..], v);
        ConnectedSym(E, e.x, e.y);
        ConnectedTrans(E, u, e.x, v);
      }
    }
  }

  // ---------- Adding one edge ----------

  /** What the edge e adds to the pairs E joins. */
  ghost predicate JoinedThrough(E: set<Edge>, e: Edge, u: nat, v: nat) {
    || (Connected(E, u, e.x) && Connected(E, e.y, v))
    || (Connected(E, u, e.y) && Connected(E, e.x, v))
  }

  lemma {:induction false} LeadsThrough(E: set<Edge>, e: Edge, u: nat, p: seq<Edge>, v: nat)
    requires Leads(E + {e}, u, p, v)
    ensures Connected(E, u, v) || JoinedThrough(E, e, u, v)
    decreases p
  {
    if p == [] {
      ConnectedRefl(E, u);
    } else {
      var f := p[0];
      var m := if f.x == u && Leads(E + {e}, f.y, p[1..], v) then f.y else f.x;
      LeadsThrough(E, e, m, p[1..], v);
      ConnectedRefl(E, u);
      if f in E {
        ConnectedEdge(E, f);
        if Connected(E, m, v) { ConnectedTrans(E, u, m, v); }
        if Connected(E, m, e.x) { ConnectedTrans(E, u, m, e.x); }
        if Connected(E, m, e.y) { ConnectedTrans(E, u, m, e.y); }
      }
    }
  }

  lemma AddEdge(E: set<Edge>, e: Edge, u: nat, v: nat)
    ensures Connected(E + {e}, u, v) <==> Connected(E, u, v) || JoinedThrough(E, e, u, v)
  {
    var F := E + {e};
    if Connected(F, u, v) {
      var p :| Leads(F, u, p, v);
      LeadsThrough(E, e, u, p, v);
    }
    ConnectedEdge(F, e);
    if Connected(E, u, v) { ConnectedMono(E, F, u, v); }
    if Connected(E, u, e.x) && Connected(E, e.y, v) { Splice(E, F, u, e.x, e.y, v); }
    if Connected(E, u, e.y) && Connected(E, e.x, v) { Splice(E, F, u, e.y, e.x, v); }
  }

  lemma Splice(E: set<Edge>, F: set<Edge>, u: nat, a: nat, b: nat, v: nat)
    requires E <= F && Connected(E, u, a) && Connected(F, a, b) && Connected(E, b, v)
    ensures Connected(F, u, v)
  {
    ConnectedMono(E, F, u, a);
    ConnectedMono(E, F, b, v);
    ConnectedTrans(F, u, a, b);
    ConnectedTrans(F, u, b, v);
  }

  /** Joining two trees of a forest by an edge leaves a forest. */
  lemma AcyclicAdd(A: set<Edge>, e: Edge)
    requires Acyclic(A) && !Connected(A, e.x, e.y)
    ensures Acyclic(A + {e})
  {
    if e in A { ConnectedEdge(A, e); }
    forall g | g in A + {e}
      ensures !Connected(A + {e} - {g}, g.x, g.y)
    {
      if g == e {
        assert A + {e} - {e} == A;
      } else {
        var B := A - {g};
        assert A + {e} - {g} == B + {e} && B + {g} == A;
        AddEdge(B, e, g.x, g.y);
        if JoinedThrough(B, e, g.x, g.y) {
          EdgeOnDetour(B, e, g);
          assert false;
        }
      }
    }
  }

  /** If g's ends are joined through e, then e's ends are joined through g. */
  lemma EdgeOnDetour(B: set<Edge>, e: Edge, g: Edge)
    requires JoinedThrough(B, e, g.x, g.y)
    ensures Connected(B + {g}, e.x, e.y)
  {
    AddEdge(B, g, e.x, e.y);
    if Connected(B, g.x, e.x) && Connected(B, e.y, g.y) {
      ConnectedSym(B, g.x, e.x);
      ConnectedSym(B, e.y, g.y);
    } else {
      ConnectedSym(B, g.x, e.y);
      ConnectedSym(B, e.x, g.y);
    }
  }

  lemma AcyclicSubset(A: set<Edge>, B: set<Edge>)
    requires A <= B && Acyclic(B)
    ensures Acyclic(A)
  {
    forall e | e in A
      ensures !Connected(A - {e}, e.x, e.y)
    {
      if Connected(A - {e}, e.x, e.y) { ConnectedMono(A - {e}, B - {e}, e.x, e.y); }
    }
  }

  // ---------- Weight ----------

  lemma {:induction false} WeightSplit(T: set<Edge>, e: Edge)
    requires e in T
    ensures Weight(T) == e.weight + Weight(T - {e})
    decreases |T|
  {
    var f :| f in T && Weight(T) == f.weight + Weight(T - {f});
    if f != e {
      WeightSplit(T - {f}, e);
      WeightSplit(T - {e}, f);
      assert T - {f} - {e} == T - {e} - {f};
    }
  }

  lemma WeightAdd(T: set<Edge>, e: Edge)
    requires e !in T
    ensures Weight(T + {e}) == Weight(T) + e.weight
  {
    WeightSplit(T + {e}, e);
    assert T + {e} - {e} == T;
  }

  // ---------- The cut property ----------

  /** A path that leaves S uses an edge that crosses S. */
  lemma {:induction false} PathCrosses(E: set<Edge>, S: set<nat>, u: nat, p: seq<Edge>, v: nat) returns (f: Edge)
    requires u in S && v !in S && Leads(E, u, p, v)
    ensures f in E && Crosses(f, S)
    decreases p
  {
    if Crosses(p[0], S) {
      f := p[0];
    } else {
      var m := if p[0].x == u && Leads(E, p[0].y, p[1..], v) then p[0].y else p[0].x;
      f := PathCrosses(E, S, m, p[1..], v);
    }
  }

  /** In a forest T, among the edges P that suffice to join u to v there is one that crosses S
      and without which not even T joins u to v. */
  lemma {:induction false} CriticalEdge(T: set<Edge>, P: set<Edge>, S: set<nat>, u: nat, v: nat) returns (f: Edge)
    requires Acyclic(T) && P <= T && Connected(P, u, v)
    requires u in S && v !in S
    ensures f in T && Crosses(f, S) && !Connected(T - {f}, u, v)
    decreases |P|
  {
    var p :| Leads(P, u, p, v);
    f := PathCrosses(P, S, u, p, v);
    if Connected(P - {f}, u, v) {
      f := CriticalEdge(T, P - {f}, S, u, v);
    } else if Connected(T - {f}, u, v) {
      var B := P - {f};
      assert B + {f} == P;
      AddEdge(B, f, u, v);
      var R := T - {f};
      if Connected(B, u, f.x) && Connected(B, f.y, v) {
        Detour(B, R, u, v, f.x, f.y);
      } else {
        Detour(B, R, u, v, f.y, f.x);
        ConnectedSym(R, f.y, f.x);
      }
      assert false;
    }
  }

  lemma Detour(B: set<Edge>, R: set<Edge>, u: nat, v: nat, a: nat, b: nat)
    requires B <= R && Connected(B, u, a) && Connected(B, b, v) && Connected(R, u, v)
    ensures Connected(R, a, b)
  {
    ConnectedSym(B, u, a);
    ConnectedSym(B, b, v);
    ConnectedMono(B, R, a, u);
    ConnectedMono(B, R, v, b);
    ConnectedTrans(R, a, u, v);
    ConnectedTrans(R, a, v, b);
  }

  /** Exchange: if f is an edge of a spanning forest T that T needs to join the ends of e,
      then e may take its place. */
  lemma Exchange(G: set<Edge>, T: set<Edge>, e: Edge, f: Edge)
    requires SpanningForest(G, T) && e in G && e !in T && f in T
    requires !Connected(T - {f}, e.x, e.y)
    ensures SpanningForest(G, T - {f} + {e})
    ensures Weight(T - {f} + {e}) == Weight(T) - f.weight + e.weight
  {
    var R := T - {f};
    var U := R + {e};
    assert R + {f} == T;
    AcyclicSubset(R, T);
    AcyclicAdd(R, e);
    assert Connected(T, e.x, e.y);
    AddEdge(R, f, e.x, e.y);
    EdgeOnDetour(R, f, e);   // the ends of f are joined in U
    forall g | g in G
      ensures Connected(U, g.x, g.y)
    {
      AddEdge(R, f, g.x, g.y);
      if Connected(R, g.x, g.y) {
        ConnectedMono(R, U, g.x, g.y);
      } else if Connected(R, g.x, f.x) && Connected(R, f.y, g.y) {
        Splice(R, U, g.x, f.x, f.y, g.y);
      } else {
        ConnectedSym(U, f.x, f.y);
        Splice(R, U, g.x, f.y, f.x, g.y);
      }
    }
    WeightSplit(T, f);
    WeightAdd(R, e);
  }

  predicate Lightest(G: set<Edge>, S: set<nat>, e: Edge) {
    e in G && Crosses(e, S) && forall g :: g in G && Crosses(g, S) ==> e.weight <= g.weight
  }

  lemma CutStep(G: set<Edge>, A: set<Edge>, S: set<nat>, e: Edge, V: set<Edge>) returns (U: set<Edge>)
    requires SpanningForest(G, V) && A <= V && Lightest(G, S, e)
    requires forall a :: a in A ==> !Crosses(a, S)
    ensures SpanningForest(G, U) && A + {e} <= U && Weight(U) <= Weight(V)
  {
    if e in V {
      U := V;
    } else {
      assert Connected(V, e.x, e.y);
      var f;
      if e.x in S {
        f := CriticalEdge(V, V, S, e.x, e.y);
      } else {
        ConnectedSym(V, e.x, e.y);
        f := CriticalEdge(V, V, S, e.y, e.x);
        if Connected(V - {f}, e.x, e.y) { ConnectedSym(V - {f}, e.x, e.y); }
      }
      Exchange(G, V, e, f);
      U := V - {f} + {e};
    }
  }

  /** The cut property: choosing a lightest edge across a cut that no chosen edge crosses keeps
      the choice promising. */
  lemma CutProperty(G: set<Edge>, A: set<Edge>, S: set<nat>, e: Edge)
    requires Promising(G, A) && Lightest(G, S, e)
    requires forall a :: a in A ==> !Crosses(a, S)
    ensures Promising(G, A + {e})
  {
    forall T | SpanningForest(G, T)
      ensures Improvable(G, A + {e}, T)
    {
      assert Improvable(G, A, T);
      var V :| Improves(G, A, T, V);
      var U := CutStep(G, A, S, e, V);
      assert Improves(G, A + {e}, T, U);
    }
  }

  lemma PromisingEmpty(G: set<Edge>)
    ensures Promising(G, {})
  {
    forall T | SpanningForest(G, T)
      ensures Improvable(G, {}, T)
    {
      assert Improves(G, {}, T, T);
    }
  }

  /** No spanning forest properly contains another. */
  lemma ForestsMaximal(G: set<Edge>, A: set<Edge>, U: set<Edge>)
    requires SpanningForest(G, A) && SpanningForest(G, U) && A <= U
    ensures U == A
  {
    forall g | g in U
      ensures g in A
    {
      if g !in A {
        assert Connected(A, g.x, g.y);
        ConnectedMono(A, U - {g}, g.x, g.y);
        assert false;
      }
    }
  }

  /** A promising spanning forest is a minimum one. */
  lemma PromisingIsMinimum(G: set<Edge>, A: set<Edge>)
    requires Promising(G, A) && SpanningForest(G, A)
    ensures MinimumSpanningForest(G, A)
  {
    forall T | SpanningForest(G, T)
      ensures Weight(A) <= Weight(T)
    {
      assert Improvable(G, A, T);
      var U :| Improves(G, A, T, U);
      ForestsMaximal(G, A, U);
    }
  }

  // ---------- Spanning trees ----------

  lemma TreesAreForests(n: nat, G: set<Edge>, T: set<Edge>)
    requires InRange(G, n) && ConnectedGraph(n, G)
    ensures SpanningTree(n, G, T) <==> SpanningForest(G, T)
  {
    if SpanningForest(G, T) {
      forall u, v | 0 <= u < n && 0 <= v < n
        ensures Connected(T, u, v)
      {
        assert Connected(G, u, v);
        var p :| Leads(G, u, p, v);
        ConnectedCover(G, T, u, p, v);
      }
    }
  }

  lemma MinimumTree(n: nat, G: set<Edge>, T: set<Edge>)
    requires InRange(G, n) && ConnectedGraph(n, G)
    ensures MinimumSpanningTree(n, G, T) <==> MinimumSpanningForest(G, T)
  {
    TreesAreForests(n, G, T);
    forall U ensures SpanningTree(n, G, U) <==> SpanningForest(G, U) {
      TreesAreForests(n, G, U);
    }
  }

  /** All minimum spanning forests of a graph weigh the same, so two programs that each
      find one agree on its weight. */
  lemma MinimumWeightUnique(G: set<Edge>, T: set<Edge>, U: set<Edge>)
    requires MinimumSpanningForest(G, T) && MinimumSpanningForest(G, U)
    ensures Weight(T) == Weight(U)
  {
  }

  /** From the edges of a graph that joins 0..n grow a set of edges, one fewer than the
      vertices reached, joining all of them. */
  lemma {:induction false} GrowTree(n: nat, G: set<Edge>, S: set<nat>, F: set<Edge>) returns (T: set<Edge>)
    requires InRange(G, n) && ConnectedGraph(n, G)
    requires 0 in S && F <= G && (forall s :: s in S ==> s < n && Connected(F, 0, s))
    requires (forall f :: f in F ==> f.x in S && f.y in S) && |F| == |S| - 1
    ensures T <= G && |T| == n - 1 && forall s :: 0 <= s < n ==> Connected(T, 0, s)
    decreases n - |S|
  {
    var all := Vertices(n);
    assert S <= all;
    if S == all {
      T := F;
    } else {
      var v :| v in all && v !in S;
      assert Connected(G, 0, v);
      var p :| Leads(G, 0, p, v);
      var f := PathCrosses(G, S, 0, p, v);
      var far := if f.x in S then f.y else f.x;
      var S', F' := S + {far}, F + {f};
      ReachFurther(S, F, f, far);
      Fewer(S', all);
      T := GrowTree(n, G, S', F');
    }
  }

  /** An edge across the border of what F reaches from 0 reaches its far end. */
  lemma ReachFurther(S: set<nat>, F: set<Edge>, f: Edge, far: nat)
    requires (forall s :: s in S ==> Connected(F, 0, s)) && Crosses(f, S) && far == if f.x in S then f.y else f.x
    ensures forall s :: s in S + {far} ==> Connected(F + {f}, 0, s)
  {
    var near := if f.x in S then f.x else f.y;
    ConnectedMono(F, F + {f}, 0, near);
    ConnectedEdge(F + {f}, f);
    ConnectedTrans(F + {f}, 0, near, far);
    forall s | s in S ensures Connected(F + {f}, 0, s) {
      ConnectedMono(F, F + {f}, 0, s);
    }
  }

  lemma Fewer<T>(S: set<T>, U: set<T>)
    requires S <= U
    ensures |S| <= |U|
  {
    assert S + (U - S) == U;
  }

  ghost function Vertices(n: nat): (s: set<nat>)
    ensures |s| == n && forall i: nat :: i in s <==> i < n
  {
    if n == 0 then {} else Vertices(n - 1) + {n - 1}
  }

  /** A graph that joins n vertices has at least n - 1 edges, and exactly n - 1 when it is
      acyclic: a spanning tree has one edge fewer than the graph has vertices. */
  lemma TreeSize(n: nat, T: set<Edge>)
    requires n > 0 && InRange(T, n) && ConnectedGraph(n, T)
    ensures |T| >= n - 1
    ensures Acyclic(T) ==> |T| == n - 1
  {
    ConnectedRefl({}, 0);
    var F := GrowTree(n, T, {0}, {});
    Fewer(F, T);
    if Acyclic(T) {
      forall g | g in T
        ensures g in F
      {
        if g !in F {
          ConnectedSym(F, 0, g.x);
          ConnectedTrans(F, g.x, 0, g.y);
          ConnectedMono(F, T - {g}, g.x, g.y);
          assert false;
        }
      }
      assert F == T;
    }
  }
}
