/** The two minimum-spanning-tree programs applied to one matrix that the connectivity test accepts,
    and when they agree. */
module SpanningTrees {
  import opened Graphs
  import opened EdgeSort
  import opened Kruskal
  import opened Matrices
  import opened EdgeHeap
  import opened RowPaths
  import opened KruskalRuns
  import Prim

  // ---------- The matrix as a graph ----------

  lemma {:induction false} RouteConnects(m: array2<int>, u: nat, p: seq<nat>, v: nat)
    requires Square(m) && Route(Rows(m), u, p, v)
    ensures Connected(MatrixEdges(m), u, v)
    decreases p
  {
    if p == [] {
      ConnectedRefl(MatrixEdges(m), u);
    } else {
      var e := Edge(u, p[0], m[u, p[0]]);
      ConnectedEdge(MatrixEdges(m), e);
      RouteConnects(m, p[0], p[1..], v);
      ConnectedTrans(MatrixEdges(m), u, p[0], v);
    }
  }

  /** The graphs the connectivity test lets through are connected, and so have at least one edge
      fewer than vertices: a bitmap with a bit for each edge and one more holds every vertex. */
  lemma AcceptedGraphs(m: array2<int>)
    requires Square(m) && m.Length0 > 0
    requires ReachesAll(Rows(m), 0)
    ensures ConnectedGraph(m.Length0, MatrixEdges(m)) && |MatrixEdges(m)| >= m.Length0 - 1
    ensures (m.Length0 - 1) / 8 < MapLen(|MatrixEdges(m)|)
  {
    var E, n := MatrixEdges(m), m.Length0;
    forall w: nat | w < n ensures Connected(E, 0, w) {
      assert Reachable(Rows(m), 0, w);
      var p :| Route(Rows(m), 0, p, w);
      RouteConnects(m, 0, p, w);
    }
    JoinedToZero(n, E);
    TreeSize(n, E);
  }

  // ---------- Prim ----------

  lemma {:induction false} RouteOn(adj: seq<set<nat>>, u: nat, p: seq<nat>, x: nat, y: nat)
    requires Route(adj, u, p, x) && x < |adj| && y in adj[x]
    ensures Reachable(adj, u, y)
    decreases p
  {
    if p == [] {
      ReachableRefl(adj, y);
      ReachableStep(adj, u, y, y);
    } else {
      RouteOn(adj, p[0], p[1..], x, y);
      ReachableStep(adj, u, p[0], y);
    }
  }

  lemma {:induction false} RowPathReaches(m: array2<int>, u: nat, p: seq<Edge>, v: nat)
    requires Square(m) && ZeroDiagonal(m) && RowPath(MatrixEdges(m), u, p, v)
    ensures Reachable(Rows(m), u, v)
    decreases |p|
  {
    if p == [] {
      ReachableRefl(Rows(m), u);
    } else {
      var e := p[|p| - 1];
      RowPathReaches(m, u, p[..|p| - 1], e.x);
      var q :| Route(Rows(m), u, q, e.x);
      RouteOn(Rows(m), u, q, e.x, e.y);
    }
  }

  /** On any matrix Prim marks exactly the vertices that rows lead to from its start, and its tree
      spans the graph exactly when these are all. */
  lemma PrimReaches(m: array2<int>, start: nat, S: set<nat>, A: set<Edge>)
    requires Square(m) && ZeroDiagonal(m) && start in S && S <= Vertices(m.Length0)
    requires Prim.Finished(MatrixEdges(m), start, S, A)
    ensures forall w :: w in S <==> Reachable(Rows(m), start, w)
    ensures SpanningTree(m.Length0, MatrixEdges(m), A) <==> ReachesAll(Rows(m), start)
  {
    var E, n, adj := MatrixEdges(m), m.Length0, Rows(m);
    forall w | Reachable(adj, start, w) ensures w in S {
      var p :| Route(adj, start, p, w);
      forall a | a in S ensures a < |adj| && adj[a] <= S {
        forall x | x in adj[a] ensures x in S { assert Edge(a, x, m[a, x]) in E; }
      }
      ClosedHolds(adj, S, start, p, w);
    }
    forall w | w in S ensures Reachable(adj, start, w) {
      assert Follows(E, start, w);
      var p :| RowPath(E, start, p, w);
      RowPathReaches(m, start, p, w);
    }
    if SpanningTree(n, E, A) {
      forall w: nat | w < n ensures w in S { Prim.TreeInside(E, start, S, A, start, w); }
    }
    if forall w: nat :: w < n ==> w in S {
      forall u: nat, v: nat | u < n && v < n ensures Connected(A, u, v) {
        assert Connected(A, start, u) && Connected(A, start, v);
        ConnectedSym(A, start, u);
        ConnectedTrans(A, u, start, v);
      }
    }
  }

  /** Where every edge is returned, in particular on symmetric matrices, Kruskal and Prim report the
      same weight from whatever start. */
  lemma KruskalAgreesWithPrim(m: array2<int>, kruskal: set<Edge>, start: nat, S: set<nat>, prim: set<Edge>)
    requires Square(m) && start < m.Length0 && start in S && Returning(MatrixEdges(m))
    requires ConnectedGraph(m.Length0, MatrixEdges(m)) && Prim.Finished(MatrixEdges(m), start, S, prim)
    requires MinimumSpanningTree(m.Length0, MatrixEdges(m), kruskal)
    ensures Weight(kruskal) == Weight(prim)
  {
    Prim.ReturningIsMinimum(m.Length0, MatrixEdges(m), start, S, prim);
    Prim.SameWeight(m.Length0, MatrixEdges(m), prim);
  }

  lemma SymmetricMatrix(m: array2<int>)
    requires Square(m) && Symmetric(m)
    ensures Returning(MatrixEdges(m))
  {
    SymmetricReturns(MatrixEdges(m));
  }

  /** The entries (0,1) = 2, (1,0) = 1, (1,2) = 1 on three vertices: from vertex 0 the only row edge
      is the heavy one, and Prim's tree is not minimal. */
  lemma AsymmetricFails(m: array2<int>, S: set<nat>, A: set<Edge>)
    requires m.Length0 == m.Length1 == 3 && ZeroDiagonal(m)
    requires m[0, 1] == 2 && m[0, 2] == 0 && m[1, 0] == 1 && m[1, 2] == 1 && m[2, 0] == 0 && m[2, 1] == 0
    requires 0 in S && Prim.Finished(MatrixEdges(m), 0, S, A)
    ensures ConnectedGraph(3, MatrixEdges(m)) && !MinimumSpanningTree(3, MatrixEdges(m), A)
  {
    var E, e := MatrixEdges(m), Edge(1, 0, 1);
    ConnectedRefl(E, 0);
    ConnectedEdge(E, e);
    ConnectedEdge(E, Edge(1, 2, 1));
    ConnectedTrans(E, 0, 1, 2);
    JoinedToZero(3, E);
    if p :| RowPath(UpTo(E, 1), 0, p, 1) {
      var f := PathLeaves(UpTo(E, 1), {0}, 0, p, 1);
      assert false;
    }
    Prim.UnreturnedNotMinimum(3, E, 0, S, A, e);
  }

  ghost predicate NoHeaviestBridge(E: set<Edge>) {
    forall e :: Heaviest(E, e) ==> !Bridge(E, e)
  }

  /** What main does with one graph. The connectivity test accepts it exactly when rows lead from
      vertex 0 everywhere. Then Kruskal as it is called and Prim report the same weight where every
      edge is returned; and where Prim's tree spans, Kruskal's is minimal and some edge into the start
      is not returned, Prim's is heavier. */
  method CompareRuns(m: array2<int>, start: nat) returns (accepted: bool, kruskal: int, prim: int)
    requires Square(m) && ZeroDiagonal(m) && start < m.Length0
    ensures accepted <==> ReachesAll(Rows(m), 0)
    ensures accepted && Returning(MatrixEdges(m)) ==>
      kruskal == prim && Prim.MinimumWeight(m.Length0, MatrixEdges(m), prim)
    ensures accepted && NoHeaviestBridge(MatrixEdges(m)) && ReachesAll(Rows(m), start) ==>
      (Prim.UnreturnedInto(MatrixEdges(m), start) ==> kruskal < prim)
  {
    var result := IsConnected(m);
    accepted, kruskal, prim := result == 1, 0, 0;
    if accepted {
      AcceptedGraphs(m);
      var tree;
      ghost var dropped, S, A;
      tree, kruskal, dropped := KruskalQuicksort(m);
      prim, S, A := Prim.PrimAdjMatrix(m, start);
      PrimReaches(m, start, S, A);
      Compared(m.Length0, MatrixEdges(m), start, A, EdgeSet(tree));
    }
  }

  lemma Compared(n: nat, E: set<Edge>, start: nat, prim: set<Edge>, kruskal: set<Edge>)
    requires ConnectedGraph(n, E) && Outcome(n, E, kruskal) && Prim.Judged(n, E, start, prim, Weight(prim))
    ensures Returning(E) ==> Weight(kruskal) == Weight(prim)
    ensures NoHeaviestBridge(E) && Prim.UnreturnedInto(E, start) && SpanningTree(n, E, prim) ==>
      Weight(kruskal) < Weight(prim)
  {
    if Returning(E) {
      forall e | Heaviest(E, e) ensures !Bridge(E, e) {
        assert Returned(E, e);
        ReturnedNoBridge(E, e);
      }
    }
  }
}
