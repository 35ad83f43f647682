/** Paths that follow edges from x to y only, as Prim's program follows the rows of the matrix, and
    what it means for an edge to be returned by edges no heavier than itself. */
module RowPaths {
  import opened Graphs

  /** The path p of row edges leads from u to v. */
  ghost predicate RowPath(G: set<Edge>, u: nat, p: seq<Edge>, v: nat)
    decreases |p|
  {
    if p == [] then u == v
    else p[|p| - 1] in G && p[|p| - 1].y == v && RowPath(G, u, p[..|p| - 1], p[|p| - 1].x)
  }

  ghost predicate Follows(G: set<Edge>, u: nat, v: nat) {
    exists p :: RowPath(G, u, p, v)
  }

  lemma FollowsStart(G: set<Edge>, u: nat)
    ensures Follows(G, u, u)
  {
    assert RowPath(G, u, [], u);
  }

  lemma FollowsOn(G: set<Edge>, u: nat, e: Edge)
    requires e in G && Follows(G, u, e.x)
    ensures Follows(G, u, e.y)
  {
    var p :| RowPath(G, u, p, e.x);
    assert (p + [e])[..|p|] == p;
    assert RowPath(G, u, p + [e], e.y);
  }

  /** A row path out of a set uses an edge that leaves the set. */
  lemma {:induction false} PathLeaves(G: set<Edge>, S: set<nat>, u: nat, p: seq<Edge>, v: nat) returns (f: Edge)
    requires u in S && v !in S && RowPath(G, u, p, v)
    ensures f in G && f.x in S && f.y !in S
    decreases |p|
  {
    f := p[|p| - 1];
    if f.x !in S { f := PathLeaves(G, S, u, p[..|p| - 1], f.x); }
  }

  // ---------- Returned edges ----------

  ghost function UpTo(G: set<Edge>, w: int): set<Edge> {
    set g | g in G && g.weight <= w
  }

  /** Row edges no heavier than e lead back from its end to its beginning. */
  ghost predicate Returned(G: set<Edge>, e: Edge) {
    Follows(UpTo(G, e.weight), e.y, e.x)
  }

  /** Every edge is returned. */
  ghost predicate Returning(G: set<Edge>) {
    forall e {:trigger Returned(G, e)} :: e in G ==> Returned(G, e)
  }

  ghost predicate SymmetricEdges(G: set<Edge>) {
    forall e :: e in G ==> Edge(e.y, e.x, e.weight) in G
  }

  /** In a symmetric graph the reverse of an edge returns it. */
  lemma SymmetricReturns(G: set<Edge>)
    requires SymmetricEdges(G)
    ensures Returning(G)
  {
    forall e | e in G ensures Returned(G, e) {
      FollowsStart(UpTo(G, e.weight), e.y);
      FollowsOn(UpTo(G, e.weight), e.y, Edge(e.y, e.x, e.weight));
    }
  }

  /** A cut whose leaving edges are no lighter than w has no entering edge lighter than w either,
      where all edges are returned. */
  lemma CutWeight(G: set<Edge>, S: set<nat>, w: int)
    requires Returning(G) && forall g :: g in G && g.x in S && g.y !in S ==> w <= g.weight
    ensures forall g :: g in G && Crosses(g, S) ==> w <= g.weight
  {
    forall g | g in G && Crosses(g, S) ensures w <= g.weight {
      if g.y in S {
        assert Returned(G, g);
        var p :| RowPath(UpTo(G, g.weight), g.y, p, g.x);
        var f := PathLeaves(UpTo(G, g.weight), S, g.y, p, g.x);
      }
    }
  }

  lemma {:induction false} AroundEdge(G: set<Edge>, e: Edge, u: nat, p: seq<Edge>, v: nat)
    requires RowPath(G, u, p, v)
    ensures Connected(G - {e}, u, v) || Connected(G - {e}, u, e.x)
    decreases |p|
  {
    if p == [] {
      ConnectedRefl(G - {e}, u);
    } else {
      var f := p[|p| - 1];
      AroundEdge(G, e, u, p[..|p| - 1], f.x);
      if f != e && Connected(G - {e}, u, f.x) {
        ConnectedEdge(G - {e}, f);
        ConnectedTrans(G - {e}, u, f.x, v);
      }
    }
  }

  /** A returned edge is no bridge. */
  lemma ReturnedNoBridge(G: set<Edge>, e: Edge)
    requires e in G && Returned(G, e)
    ensures Connected(G - {e}, e.x, e.y)
  {
    var L := UpTo(G, e.weight);
    var p :| RowPath(L, e.y, p, e.x);
    AroundEdge(L, e, e.y, p, e.x);
    ConnectedMono(L - {e}, G - {e}, e.y, e.x);
    ConnectedSym(G - {e}, e.y, e.x);
  }

  // ---------- Trees grown by lightest edges first ----------

  /** Row edges of weight at most w lead from start to v. */
  ghost predicate Near(G: set<Edge>, w: int, start: nat, v: nat) {
    Follows(UpTo(G, w), start, v)
  }

  /** The tree on S has not left what is near yet, or it has taken all of it and has not come back. */
  ghost predicate Confined(G: set<Edge>, start: nat, S: set<nat>, A: set<Edge>, w: int) {
    || (forall v :: v in S ==> Near(G, w, start, v))
    || ((forall v :: Near(G, w, start, v) ==> v in S)
        && forall a :: a in A && Near(G, w, start, a.y) ==> Near(G, w, start, a.x))
  }

  /** What taking lightest edges first keeps, for every weight. */
  ghost predicate Greedy(G: set<Edge>, start: nat, S: set<nat>, A: set<Edge>) {
    forall w {:trigger Confined(G, start, S, A, w)} :: Confined(G, start, S, A, w)
  }

  lemma GreedyStart(G: set<Edge>, start: nat)
    ensures Greedy(G, start, {}, {}) && Greedy(G, start, {start}, {})
  {
    forall w ensures Confined(G, start, {}, {}, w) && Confined(G, start, {start}, {}, w) {
      FollowsStart(UpTo(G, w), start);
    }
  }

  lemma ConfinedGrows(G: set<Edge>, start: nat, S: set<nat>, A: set<Edge>, e: Edge, w: int)
    requires Confined(G, start, S, A, w) && start in S && forall a :: a in A ==> a.x in S
    requires e in G && e.x in S && e.y !in S
    requires forall g :: g in G && g.x in S && g.y !in S ==> e.weight <= g.weight
    ensures Confined(G, start, S + {e.y}, A + {e}, w)
  {
    if forall v :: v in S ==> Near(G, w, start, v) {
      if v :| Near(G, w, start, v) && v !in S {
        var p :| RowPath(UpTo(G, w), start, p, v);
        var f := PathLeaves(UpTo(G, w), S, start, p, v);
        FollowsOn(UpTo(G, w), start, e);
      }
    }
  }

  lemma GreedyGrows(G: set<Edge>, start: nat, S: set<nat>, A: set<Edge>, e: Edge)
    requires Greedy(G, start, S, A) && start in S && forall a :: a in A ==> a.x in S
    requires e in G && e.x in S && e.y !in S
    requires forall g :: g in G && g.x in S && g.y !in S ==> e.weight <= g.weight
    ensures Greedy(G, start, S + {e.y}, A + {e})
  {
    forall w ensures Confined(G, start, S + {e.y}, A + {e}, w) {
      assert Confined(G, start, S, A, w);
      ConfinedGrows(G, start, S, A, e, w);
    }
  }

  /** A greedy spanning tree that starts where an edge ends that is not returned: it leaves what is
      near by a heavier edge, for which that edge can be exchanged. */
  lemma NotReturned(n: nat, G: set<Edge>, start: nat, S: set<nat>, A: set<Edge>, e: Edge)
    requires InRange(G, n) && e in G && e.y == start && !Returned(G, e)
    requires Greedy(G, start, S, A) && SpanningTree(n, G, A) && e.x in S
    ensures !MinimumSpanningTree(n, G, A)
  {
    var w := e.weight;
    FollowsStart(UpTo(G, w), start);
    assert Confined(G, start, S, A, w);
    var R := set v | v in S && Near(G, w, start, v);
    assert Connected(A, start, e.x);
    var f := CriticalEdge(A, A, R, start, e.x);
    if f.weight <= w { FollowsOn(UpTo(G, w), start, f); }
    ConnectedGraphMono(n, A, G);
    TreesAreForests(n, G, A);
    if Connected(A - {f}, e.x, start) { ConnectedSym(A - {f}, e.x, start); }
    Exchange(G, A, e, f);
    MinimumTree(n, G, A);
  }

  lemma ConnectedGraphMono(n: nat, A: set<Edge>, G: set<Edge>)
    requires A <= G && ConnectedGraph(n, A)
    ensures ConnectedGraph(n, G)
  {
    forall u, v | 0 <= u < n && 0 <= v < n ensures Connected(G, u, v) {
      ConnectedMono(A, G, u, v);
    }
  }
}
