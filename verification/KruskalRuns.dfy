/** Kruskal's program on a matrix: edge collection, the sort as it is meant and as it is called, and
    what the call drops. */
module KruskalRuns {
  import opened Graphs
  import opened EdgeSort
  import opened Kruskal
  import opened Matrices
  import opened EdgeHeap
  import opened RowPaths
  import Prim

  // ---------- Collecting and sorting the edges ----------

  predicate Earlier(e: Edge, f: Edge) {
    e.x < f.x || (e.x == f.x && e.y < f.y)
  }

  ghost predicate InRowOrder(es: seq<Edge>) {
    forall i, j :: 0 <= i < j < |es| ==> Earlier(es[i], es[j])
  }

  /** es lists in row order the edges of E before position (x, y). */
  ghost predicate Collected(E: set<Edge>, es: seq<Edge>, x: nat, y: nat) {
    InRowOrder(es) && forall e :: e in es <==> e in E && (e.x < x || (e.x == x && e.y < y))
  }

  predicate BlankFrom(edges: seq<Edge>, cnt: nat) {
    forall k :: cnt <= k < |edges| ==> edges[k] == Edge(0, 0, 0)
  }

  /** Appends the edges of row x. */
  method CollectRow(m: array2<int>, x: nat, edges: array<Edge>, cnt: nat) returns (edgecnt: nat)
    requires Square(m) && ZeroDiagonal(m) && x < m.Length0 && cnt + m.Length0 <= edges.Length
    requires Collected(MatrixEdges(m), edges[..cnt], x, 0) && BlankFrom(edges[..], cnt)
    modifies edges
    ensures cnt <= edgecnt <= cnt + m.Length0 - 1
    ensures Collected(MatrixEdges(m), edges[..edgecnt], x + 1, 0) && BlankFrom(edges[..], edgecnt)
  {
    ghost var E := MatrixEdges(m);
    edgecnt := cnt;
    for y := 0 to m.Length0
      invariant cnt <= edgecnt <= cnt + (if y > x then y - 1 else y) <= edges.Length
      invariant Collected(E, edges[..edgecnt], x, y) && MatrixEdges(m) == E
      invariant BlankFrom(edges[..], edgecnt)
    {
      var w := m[x, y];
      assert x == y ==> w == 0;
      if w > 0 {
        edges[edgecnt] := Edge(x, y, w);
        assert edges[..edgecnt + 1] == edges[..edgecnt] + [Edge(x, y, w)];
        edgecnt := edgecnt + 1;
      }
    }
  }

  /** Row by row, at most n - 1 edges a row, so at least one of the n * n slots stays zero. */
  method CollectEdges(m: array2<int>) returns (edges: array<Edge>, edgecnt: nat)
    requires Square(m) && ZeroDiagonal(m) && m.Length0 > 0
    ensures fresh(edges) && edgecnt < edges.Length
    ensures NoDuplicates(edges[..edgecnt]) && EdgeSet(edges[..edgecnt]) == MatrixEdges(m)
    ensures InRowOrder(edges[..edgecnt]) && edges[edgecnt] == Edge(0, 0, 0)
  {
    ghost var E := MatrixEdges(m);
    var n := m.Length0;
    Prim.SquareIsRoomy(n);
    edges := new Edge[n * n](_ => Edge(0, 0, 0));
    edgecnt := 0;
    for x := 0 to n
      invariant edgecnt <= Prim.RowTotal(n, x) && edges.Length > Prim.RowTotal(n, n)
      invariant edgecnt <= edges.Length && Collected(E, edges[..edgecnt], x, 0) && MatrixEdges(m) == E
      invariant BlankFrom(edges[..], edgecnt)
    {
      Prim.RowTotalMono(n, x + 1, n);
      edgecnt := CollectRow(m, x, edges, edgecnt);
    }
    assert EdgeSet(edges[..edgecnt]) == E;
  }

  lemma {:induction false} DistinctCount(es: seq<Edge>)
    requires NoDuplicates(es)
    ensures |EdgeSet(es)| == |es|
  {
    if es != [] {
      var front, e := es[..|es| - 1], es[|es| - 1];
      DistinctCount(front);
      assert EdgeSet(es) == EdgeSet(front) + {e};
    } else {
      assert EdgeSet(es) == {};
    }
  }

  lemma SortedPrefix(was: seq<Edge>, now: seq<Edge>, cnt: nat)
    requires cnt <= |was| && Rearranges(was, now, 0, cnt - 1)
    ensures multiset(now[..cnt]) == multiset(was[..cnt])
  {
    RangeKept(was, now, 0, cnt - 1);
    assert was[0..cnt] == was[..cnt] && now[0..cnt] == now[..cnt];
  }

  lemma SameElements(a: seq<Edge>, b: seq<Edge>)
    requires multiset(a) == multiset(b)
    ensures EdgeSet(a) == EdgeSet(b)
  {
    forall e ensures e in a <==> e in b {
      assert e in a <==> e in multiset(a);
      assert e in b <==> e in multiset(b);
    }
  }

  /** The sort with its end on the last edge. */
  method SortEdges(edges: array<Edge>, edgecnt: nat, ghost E: set<Edge>)
    requires edgecnt <= edges.Length && EdgeSet(edges[..edgecnt]) == E
    modifies edges
    ensures SortedRange(edges[..edgecnt], 0, edgecnt - 1) && EdgeSet(edges[..edgecnt]) == E
  {
    ghost var was := edges[..];
    assert was[..edgecnt] == edges[..edgecnt];
    DoQsort(edges, 0, edgecnt as int - 1);
    SortedPrefix(was, edges[..], edgecnt);
    SameElements(was[..edgecnt], edges[..][..edgecnt]);
    assert edges[..][..edgecnt] == edges[..edgecnt];
  }

  /** Kruskal over the matrix with the sort applied to the collected edges and nothing else: on
      every connected matrix the edges left in forest 0 are a minimum spanning tree. */
  method KruskalSorted(m: array2<int>) returns (tree: seq<Edge>, mstweight: int)
    requires Square(m) && ZeroDiagonal(m) && m.Length0 > 0
    requires ConnectedGraph(m.Length0, MatrixEdges(m))
    ensures NoDuplicates(tree) && |tree| == m.Length0 - 1
    ensures MinimumSpanningTree(m.Length0, MatrixEdges(m), EdgeSet(tree))
    ensures mstweight == Weight(EdgeSet(tree))
  {
    ghost var E := MatrixEdges(m);
    var edges, edgecnt := CollectEdges(m);
    TreeSize(m.Length0, E);
    DistinctCount(edges[..edgecnt]);
    SortEdges(edges, edgecnt, E);
    ghost var chosen;
    tree, mstweight, chosen := Kruskal.Kruskal(m.Length0, edges, edgecnt);
  }

  // ---------- The sort as the program calls it ----------

  /** A self loop changes nothing about spanning forests. */
  lemma LoopIgnored(F: set<Edge>, z: Edge, T: set<Edge>)
    requires z.x == z.y
    ensures SpanningForest(F + {z}, T) <==> SpanningForest(F - {z}, T)
  {
    ConnectedRefl(T, z.x);
    if z in T { ConnectedRefl(T - {z}, z.x); }
  }

  lemma LoopIgnoredMinimum(F: set<Edge>, z: Edge, T: set<Edge>)
    requires z.x == z.y && z !in F
    ensures MinimumSpanningForest(F + {z}, T) <==> MinimumSpanningForest(F, T)
  {
    assert F - {z} == F;
    forall U ensures SpanningForest(F + {z}, U) <==> SpanningForest(F, U) {
      LoopIgnored(F, z, U);
    }
  }

  /** Without the heavy edge `last`, which others can replace, a spanning forest is no heavier. */
  lemma ReplaceHeaviest(E: set<Edge>, last: Edge, U: set<Edge>) returns (V: set<Edge>)
    requires last in E && (forall e :: e in E ==> e.weight <= last.weight)
    requires Connected(E - {last}, last.x, last.y) && SpanningForest(E, U)
    ensures SpanningForest(E - {last}, V) && Weight(V) <= Weight(U)
  {
    if last !in U {
      V := U;
    } else {
      var R := U - {last};
      var p :| Leads(E - {last}, last.x, p, last.y);
      var f := LeavesComponent(E - {last}, R, last.x, p, last.y);
      if f in U { ConnectedEdge(R, f); }
      Exchange(E, U, f, last);
      V := R + {f};
    }
  }

  /** A path to a vertex that R does not reach uses an edge whose ends R does not join. */
  lemma {:induction false} LeavesComponent(F: set<Edge>, R: set<Edge>, u: nat, p: seq<Edge>, v: nat) returns (f: Edge)
    requires Leads(F, u, p, v) && !Connected(R, u, v)
    ensures f in F && !Connected(R, f.x, f.y)
    decreases p
  {
    ConnectedRefl(R, u);
    var m := if p[0].x == u && Leads(F, p[0].y, p[1..], v) then p[0].y else p[0].x;
    if !Connected(R, p[0].x, p[0].y) {
      f := p[0];
    } else {
      ConnectedSym(R, p[0].x, p[0].y);
      if Connected(R, m, v) { ConnectedTrans(R, u, m, v); }
      f := LeavesComponent(F, R, m, p[1..], v);
    }
  }

  /** Dropping a heaviest edge leaves the minimum spanning forest one of the whole graph exactly
      when the edge is not a bridge. */
  lemma HeaviestDropped(E: set<Edge>, last: Edge, T: set<Edge>)
    requires last in E && (forall e :: e in E ==> e.weight <= last.weight)
    requires MinimumSpanningForest(E - {last}, T)
    ensures MinimumSpanningForest(E, T) <==> Connected(E - {last}, last.x, last.y)
  {
    if Connected(E - {last}, last.x, last.y) {
      SpanningConnected(E - {last}, T, last.x, last.y);
      forall U | SpanningForest(E, U) ensures Weight(T) <= Weight(U) {
        var V := ReplaceHeaviest(E, last, U);
      }
    } else if SpanningForest(E, T) {
      ConnectedMono(T, E - {last}, last.x, last.y);
    }
  }

  /** Sorting one slot too many moves the blank edge of that slot to the front and the heaviest
      edge out of the part that Kruskal reads. */
  lemma BlankInFront(was: seq<Edge>, now: seq<Edge>, cnt: nat)
    requires cnt < |was| && Rearranges(was, now, 0, cnt) && SortedRange(now, 0, cnt)
    requires was[cnt] == Edge(0, 0, 0) && NoDuplicates(was[..cnt])
    requires forall k :: 0 <= k < cnt ==> was[k].weight > 0
    ensures now[0] == Edge(0, 0, 0)
    ensures cnt > 0 ==> now[cnt] in was[..cnt] && forall e :: e in was[..cnt] ==> e.weight <= now[cnt].weight
    ensures cnt > 0 ==> EdgeSet(now[..cnt]) == EdgeSet(was[..cnt]) - {now[cnt]} + {Edge(0, 0, 0)}
  {
    BlankFirst(was, now, cnt);
    if cnt > 0 {
      var z, a, b, c := Edge(0, 0, 0), was[..cnt], now[1..cnt + 1], now[1..cnt];
      assert b == c + [now[cnt]] && now[..cnt] == [z] + c;
      assert multiset(a) == multiset(c) + multiset{now[cnt]};
      LastSplit(a, c, now[cnt]);
      forall e | e in a ensures e.weight <= now[cnt].weight {
        assert e in multiset(b);
        var j :| 0 <= j < |b| && b[j] == e;
        assert now[j + 1] == e;
      }
    }
  }

  lemma BlankFirst(was: seq<Edge>, now: seq<Edge>, cnt: nat)
    requires cnt < |was| && Rearranges(was, now, 0, cnt) && SortedRange(now, 0, cnt)
    requires was[cnt] == Edge(0, 0, 0) && forall k :: 0 <= k < cnt ==> was[k].weight > 0
    ensures now[0] == Edge(0, 0, 0) && multiset(was[..cnt]) == multiset(now[1..cnt + 1])
  {
    var z := Edge(0, 0, 0);
    var k := RearrangesMember(now, was, 0, cnt, cnt);
    var i := RearrangesMember(was, now, 0, cnt, 0);
    assert now[0].weight <= now[k].weight == 0;
    assert i == cnt && now[0] == z;
    SortedPrefix(was, now, cnt + 1);
    assert was[..cnt + 1] == was[..cnt] + [z] && now[..cnt + 1] == [z] + now[1..cnt + 1];
    Cancel(was[..cnt], now[1..cnt + 1], z);
  }

  lemma Cancel(a: seq<Edge>, b: seq<Edge>, z: Edge)
    requires multiset(a + [z]) == multiset([z] + b)
    ensures multiset(a) == multiset(b)
  {
    assert multiset(a + [z]) == multiset(a) + multiset{z};
    assert multiset([z] + b) == multiset{z} + multiset(b);
    forall e ensures multiset(a)[e] == multiset(b)[e] {
      assert multiset(a + [z])[e] == multiset([z] + b)[e];
    }
  }

  lemma LastSplit(a: seq<Edge>, c: seq<Edge>, last: Edge)
    requires NoDuplicates(a) && multiset(a) == multiset(c) + multiset{last}
    ensures last in a && EdgeSet(c) == EdgeSet(a) - {last}
  {
    assert last in multiset(a);
    DistinctMultiset(a);
    forall e ensures e in c <==> e in a && e != last {
      assert e in c <==> e in multiset(c);
      assert e in a <==> e in multiset(a);
      assert multiset(a)[e] <= 1;
    }
  }

  lemma {:induction false} DistinctMultiset(a: seq<Edge>)
    requires NoDuplicates(a)
    ensures forall e :: multiset(a)[e] <= 1
  {
    if a != [] {
      var front, l := a[..|a| - 1], a[|a| - 1];
      DistinctMultiset(front);
      assert a == front + [l];
      assert l !in front;
    }
  }

  /** The edge that sorting the collected edges with the blank one behind them leaves last. */
  function LastOf(es: seq<Edge>): Edge {
    LastSorted(es + [Edge(0, 0, 0)])
  }

  /** The sort with its end on the slot behind the edges. */
  method SortTooFar(edges: array<Edge>, edgecnt: nat, ghost E: set<Edge>)
    requires edgecnt < edges.Length && edges[edgecnt] == Edge(0, 0, 0)
    requires NoDuplicates(edges[..edgecnt]) && EdgeSet(edges[..edgecnt]) == E && forall e :: e in E ==> e.weight > 0
    modifies edges
    ensures SortedRange(edges[..edgecnt], 0, edgecnt - 1)
    ensures edgecnt > 0 ==> edges[edgecnt] in E && forall e :: e in E ==> e.weight <= edges[edgecnt].weight
    ensures edges[edgecnt] == LastOf(old(edges[..edgecnt]))
    ensures EdgeSet(edges[..edgecnt]) == if edgecnt == 0 then {} else E - {edges[edgecnt]} + {Edge(0, 0, 0)}
  {
    ghost var was := edges[..];
    assert was[..edgecnt] == edges[..edgecnt];
    DoQsort(edges, 0, edgecnt);
    ghost var now := edges[..];
    forall k | 0 <= k < edgecnt ensures was[k].weight > 0 {
      assert was[..edgecnt][k] in EdgeSet(was[..edgecnt]);
    }
    BlankInFront(was, now, edgecnt);
    assert Range(was, 0, edgecnt) == was[..edgecnt] + [Edge(0, 0, 0)];
    assert now[..edgecnt] == edges[..edgecnt];
    forall e | e in E && edgecnt > 0 ensures e.weight <= edges[edgecnt].weight {
      assert e in was[..edgecnt];
    }
  }

  // ---------- Which edge is dropped, and what that does ----------

  ghost predicate Heaviest(E: set<Edge>, e: Edge) {
    e in E && forall f :: f in E ==> f.weight <= e.weight
  }

  ghost predicate Bridge(E: set<Edge>, e: Edge) {
    !Connected(E - {e}, e.x, e.y)
  }

  /** The collected edges, which the graph determines. */
  ghost predicate Collects(E: set<Edge>, es: seq<Edge>) {
    InRowOrder(es) && EdgeSet(es) == E
  }

  /** The edge the sort drops: a heaviest one, LastOf says which. */
  ghost predicate Drops(E: set<Edge>, dropped: Option<Edge>) {
    match dropped
    case None => E == {}
    case Some(last) => Heaviest(E, last) && forall es :: Collects(E, es) ==> last == LastOf(es)
  }

  /** The outcome in terms of the graph alone: minimal if no heaviest edge is a bridge, not minimal if
      all are, and in any case exactly when the edge that LastOf computes is none. */
  ghost predicate Outcome(n: nat, E: set<Edge>, tree: set<Edge>) {
    && (ConnectedGraph(n, E) && (forall e :: Heaviest(E, e) ==> !Bridge(E, e)) ==> MinimumSpanningTree(n, E, tree))
    && (E != {} && (forall e :: Heaviest(E, e) ==> Bridge(E, e)) ==> !MinimumSpanningTree(n, E, tree))
    && forall es :: Collects(E, es) && E != {} ==>
         (MinimumSpanningTree(n, E, tree) <==> ConnectedGraph(n, E) && !Bridge(E, LastOf(es)))
  }

  /** The edges in row order are one list only. */
  lemma {:induction false} CollectsOne(es: seq<Edge>, fs: seq<Edge>)
    requires InRowOrder(es) && InRowOrder(fs) && EdgeSet(es) == EdgeSet(fs)
    ensures es == fs
  {
    if es != [] && fs != [] {
      assert es[0] in EdgeSet(fs) && fs[0] in EdgeSet(es);
      assert es[0] == fs[0];
      forall e ensures e in EdgeSet(es[1..]) <==> e in EdgeSet(fs[1..]) {
        assert e in EdgeSet(es[1..]) <==> e in EdgeSet(es) && e != es[0];
        assert e in EdgeSet(fs[1..]) <==> e in EdgeSet(fs) && e != fs[0];
      }
      CollectsOne(es[1..], fs[1..]);
    } else if es != [] {
      SomeEdge(es);
    } else if fs != [] {
      SomeEdge(fs);
    }
  }

  lemma SomeEdge(es: seq<Edge>)
    requires es != []
    ensures EdgeSet(es) != {}
  {
    assert es[0] in EdgeSet(es);
  }

  /** A first edge in row order that is a heaviest one is the one dropped. */
  lemma FirstDropped(E: set<Edge>, es: seq<Edge>, e: Edge)
    requires Collects(E, es) && Heaviest(E, e) && e.weight > 0 && forall f :: f in E && f != e ==> Earlier(e, f)
    ensures LastOf(es) == e
  {
    assert e in es;
    assert es[0] in E;
    var all := es + [Edge(0, 0, 0)];
    forall i | 0 <= i < |all| ensures all[i].weight <= e.weight {
      if i < |es| { assert all[i] in E; }
    }
    FirstHeaviestLast(all);
  }

  /** Kruskal over the matrix as the program runs it, with the sort's end one slot too far. The
      result is a minimum spanning tree exactly when the graph is connected and the edge this drops
      is no bridge (or there was no edge to drop). */
  method KruskalQuicksort(m: array2<int>) returns (tree: seq<Edge>, mstweight: int, ghost dropped: Option<Edge>)
    requires Square(m) && ZeroDiagonal(m) && 0 < m.Length0 <= |MatrixEdges(m)| + 1
    ensures Drops(MatrixEdges(m), dropped) && WithoutDropped(m.Length0, MatrixEdges(m), EdgeSet(tree), dropped)
    ensures Outcome(m.Length0, MatrixEdges(m), EdgeSet(tree))
    ensures mstweight == Weight(EdgeSet(tree))
  {
    tree, mstweight, dropped := RunQuicksort(m);
  }

  /** Collecting the edges and sorting them, with the sort's end one slot too far. */
  method Quicksort(m: array2<int>) returns (edges: array<Edge>, edgecnt: nat, ghost was: seq<Edge>)
    requires Square(m) && ZeroDiagonal(m) && m.Length0 > 0
    ensures fresh(edges) && edgecnt < edges.Length && edgecnt == |MatrixEdges(m)| && Collects(MatrixEdges(m), was)
    ensures SortedRange(edges[..edgecnt], 0, edgecnt - 1) && edges[edgecnt] == LastOf(was)
    ensures if edgecnt == 0 then MatrixEdges(m) == {} else Heaviest(MatrixEdges(m), edges[edgecnt])
    ensures EdgeSet(edges[..edgecnt]) ==
      if edgecnt == 0 then {} else MatrixEdges(m) - {edges[edgecnt]} + {Edge(0, 0, 0)}
  {
    ghost var E := MatrixEdges(m);
    edges, edgecnt := CollectEdges(m);
    was := edges[..edgecnt];
    DistinctCount(was);
    SortTooFar(edges, edgecnt, E);
  }

  method RunQuicksort(m: array2<int>) returns (tree: seq<Edge>, mstweight: int, ghost dropped: Option<Edge>)
    requires Square(m) && ZeroDiagonal(m) && 0 < m.Length0 <= |MatrixEdges(m)| + 1
    ensures Drops(MatrixEdges(m), dropped) && WithoutDropped(m.Length0, MatrixEdges(m), EdgeSet(tree), dropped)
    ensures mstweight == Weight(EdgeSet(tree))
  {
    ghost var E := MatrixEdges(m);
    ghost var was, chosen;
    var edges, edgecnt;
    edges, edgecnt, was := Quicksort(m);
    tree, mstweight, chosen := Kruskal.Kruskal(m.Length0, edges, edgecnt);
    dropped := None;
    if edgecnt > 0 {
      dropped := Some(edges[edgecnt]);
      DroppedLast(m.Length0, E, was, edges[edgecnt], chosen, tree);
    }
  }

  /** What dropping one edge does. */
  ghost predicate WithoutDropped(n: nat, E: set<Edge>, tree: set<Edge>, dropped: Option<Edge>) {
    && (dropped.Some? ==> tree <= E - {dropped.value})
    && (MinimumSpanningTree(n, E, tree) <==> ConnectedGraph(n, E) && (dropped.Some? ==> !Bridge(E, dropped.value)))
  }

  lemma DroppedLast(n: nat, E: set<Edge>, es: seq<Edge>, last: Edge, chosen: set<Edge>, tree: seq<Edge>)
    requires Collects(E, es) && last == LastOf(es) && n > 1 && InRange(E, n) && Heaviest(E, last)
    requires Edge(0, 0, 0) !in E && MinimumSpanningForest(E - {last} + {Edge(0, 0, 0)}, chosen)
    requires forall e :: e in tree <==> e in chosen && Connected(E - {last} + {Edge(0, 0, 0)}, 0, e.x)
    ensures Drops(E, Some(last)) && WithoutDropped(n, E, EdgeSet(tree), Some(last))
  {
    forall fs | Collects(E, fs) ensures last == LastOf(fs) { CollectsOne(es, fs); }
    DroppedTree(n, E, last, chosen, tree);
  }

  lemma DroppedTree(n: nat, E: set<Edge>, last: Edge, chosen: set<Edge>, tree: seq<Edge>)
    requires n > 1 && InRange(E, n) && Heaviest(E, last) && Edge(0, 0, 0) !in E
    requires MinimumSpanningForest(E - {last} + {Edge(0, 0, 0)}, chosen)
    requires forall e :: e in tree <==> e in chosen && Connected(E - {last} + {Edge(0, 0, 0)}, 0, e.x)
    ensures MinimumSpanningTree(n, E, EdgeSet(tree)) <==> ConnectedGraph(n, E) && !Bridge(E, last)
    ensures EdgeSet(tree) <= E - {last}
  {
    var z, F := Edge(0, 0, 0), E - {last};
    LoopIgnoredMinimum(F, z, chosen);
    if ConnectedGraph(n, E) && !Bridge(E, last) {
      DroppedMinimal(n, E, last, chosen, tree);
    } else if SpanningTree(n, E, EdgeSet(tree)) {
      ConnectedGraphMono(n, EdgeSet(tree), E);
      assert Connected(EdgeSet(tree), last.x, last.y);
      ConnectedMono(EdgeSet(tree), F, last.x, last.y);
    }
  }

  lemma DroppedMinimal(n: nat, E: set<Edge>, last: Edge, chosen: set<Edge>, tree: seq<Edge>)
    requires n > 1 && InRange(E, n) && Heaviest(E, last) && ConnectedGraph(n, E) && !Bridge(E, last)
    requires MinimumSpanningForest(E - {last}, chosen)
    requires forall e :: e in tree <==> e in chosen && Connected(E - {last} + {Edge(0, 0, 0)}, 0, e.x)
    ensures MinimumSpanningTree(n, E, EdgeSet(tree))
  {
    HeaviestDropped(E, last, chosen);
    MinimumTree(n, E, chosen);
    forall e | e in chosen ensures e in tree {
      assert Connected(chosen, 0, e.x);
      ConnectedMono(chosen, E - {last} + {Edge(0, 0, 0)}, 0, e.x);
    }
    assert EdgeSet(tree) == chosen;
  }

  /** With one heaviest edge the condition is exact and about the graph alone. */
  lemma SingleHeaviest(n: nat, E: set<Edge>, tree: set<Edge>, e: Edge)
    requires Outcome(n, E, tree) && ConnectedGraph(n, E)
    requires Heaviest(E, e) && forall f :: Heaviest(E, f) ==> f == e
    ensures MinimumSpanningTree(n, E, tree) <==> !Bridge(E, e)
  {
  }

  /** Where the first edge is not a heaviest one: for (0, 1) = 1 and (0, 2) = (0, 3) = (1, 0) = 2 the blank edge
      takes the place of (0, 2), which goes behind the other two, so (0, 3) is dropped. */
  lemma MiddleDropped(es: seq<Edge>)
    requires es == [Edge(0, 1, 1), Edge(0, 2, 2), Edge(0, 3, 2), Edge(1, 0, 2)]
    ensures LastOf(es) == Edge(0, 3, 2) && Bridge(EdgeSet(es), Edge(0, 3, 2))
  {
    var q := es + [Edge(0, 0, 0)];
    HeaviesAre(q, es);
    assert NotHeavier(q, 4, 1) == 1;
    assert RightSide(q) == [es[2], es[3], es[1]];
    FirstHeaviestLast(RightSide(q));
    OnlyEdge(EdgeSet(es), es[2]);
  }

  lemma HeaviesAre(q: seq<Edge>, es: seq<Edge>)
    requires es == [Edge(0, 1, 1), Edge(0, 2, 2), Edge(0, 3, 2), Edge(1, 0, 2)] && q == es + [Edge(0, 0, 0)]
    ensures Heavies(q) == [es[1], es[2], es[3]]
  {
    assert Heavier(q, 1, 1) == [];
    assert Heavier(q, 2, 1) == [es[1]];
    assert Heavier(q, 3, 1) == [es[1], es[2]];
    assert Heavier(q, 4, 1) == [es[1], es[2], es[3]];
  }

  // ---------- Runs on three small matrices ----------

  /** A graph is connected when all its vertices are joined to vertex 0. */
  lemma JoinedToZero(n: nat, E: set<Edge>)
    requires forall w: nat :: w < n ==> Connected(E, 0, w)
    ensures ConnectedGraph(n, E)
  {
    forall u: nat, v: nat | u < n && v < n ensures Connected(E, u, v) {
      ConnectedSym(E, 0, u);
      ConnectedTrans(E, u, 0, v);
    }
  }

  /** A vertex with one edge only hangs on a bridge. */
  lemma OnlyEdge(E: set<Edge>, e: Edge)
    requires e in E && e.x != e.y && forall f :: f in E && f != e ==> f.x != e.y && f.y != e.y
    ensures Bridge(E, e)
  {
    if p :| Leads(E - {e}, e.x, p, e.y) {
      var S := (set f | f in E :: f.x) + (set f | f in E :: f.y) - {e.y};
      var f := PathCrosses(E - {e}, S, e.x, p, e.y);
    }
  }

  /** Two vertices and one entry: the only edge is dropped and nothing is left. */
  method BridgeLost(m: array2<int>) returns (tree: seq<Edge>, mstweight: int)
    requires m.Length0 == m.Length1 == 2 && ZeroDiagonal(m) && m[0, 1] == 1 && m[1, 0] == 0
    ensures ConnectedGraph(2, MatrixEdges(m)) && tree == [] && mstweight == 0
    ensures !MinimumSpanningTree(2, MatrixEdges(m), EdgeSet(tree))
  {
    ghost var E, e := MatrixEdges(m), Edge(0, 1, 1);
    assert E == {e};
    ConnectedRefl(E, 0);
    ConnectedEdge(E, e);
    JoinedToZero(2, E);
    OnlyEdge(E, e);
    ghost var dropped;
    tree, mstweight, dropped := KruskalQuicksort(m);
    assert EdgeSet(tree) == {};
    if tree != [] { SomeEdge(tree); }
  }

  lemma HarmlessGraph(e: Edge, f: Edge, g: Edge)
    requires e == Edge(0, 2, 1) && f == Edge(2, 0, 1) && g == Edge(2, 1, 1)
    ensures ConnectedGraph(3, {e, f, g}) && Heaviest({e, f, g}, g) && Bridge({e, f, g}, g)
    ensures Collects({e, f, g}, [e, f, g]) && LastOf([e, f, g]) == e && !Bridge({e, f, g}, e)
  {
    var E := {e, f, g};
    ConnectedRefl(E, 0);
    ConnectedEdge(E, e);
    ConnectedEdge(E, g);
    ConnectedTrans(E, 0, 2, 1);
    JoinedToZero(3, E);
    OnlyEdge(E, g);
    ConnectedEdge(E - {e}, f);
    FirstDropped(E, [e, f, g], e);
  }

  /** All three edges weigh the same and (2, 1) is a bridge, but (0, 2), which is none, is dropped. */
  method TieHarmless(m: array2<int>) returns (tree: seq<Edge>, mstweight: int)
    requires m.Length0 == m.Length1 == 3 && ZeroDiagonal(m)
    requires m[0, 1] == 0 && m[0, 2] == 1 && m[1, 0] == 0 && m[1, 2] == 0 && m[2, 0] == 1 && m[2, 1] == 1
    ensures Heaviest(MatrixEdges(m), Edge(2, 1, 1)) && Bridge(MatrixEdges(m), Edge(2, 1, 1))
    ensures MinimumSpanningTree(3, MatrixEdges(m), EdgeSet(tree))
  {
    ghost var e, f, g := Edge(0, 2, 1), Edge(2, 0, 1), Edge(2, 1, 1);
    assert MatrixEdges(m) == {e, f, g};
    HarmlessGraph(e, f, g);
    ghost var dropped;
    tree, mstweight, dropped := KruskalQuicksort(m);
    assert Collects(MatrixEdges(m), [e, f, g]);
  }

  lemma HarmfulGraph(e: Edge, f: Edge, g: Edge)
    requires e == Edge(0, 1, 2) && f == Edge(0, 2, 1) && g == Edge(2, 0, 2)
    ensures ConnectedGraph(3, {e, f, g}) && Heaviest({e, f, g}, g) && !Bridge({e, f, g}, g)
    ensures Collects({e, f, g}, [e, f, g]) && LastOf([e, f, g]) == e && Bridge({e, f, g}, e)
  {
    var E := {e, f, g};
    ConnectedRefl(E, 0);
    ConnectedEdge(E, e);
    ConnectedEdge(E, f);
    JoinedToZero(3, E);
    OnlyEdge(E, e);
    ConnectedEdge(E - {g}, f);
    FirstDropped(E, [e, f, g], e);
  }

  /** Both (0, 1) and (2, 0) are heaviest. The first is a bridge and dropped, although the second,
      which has (0, 2) beside it, is none. */
  method TieHarmful(m: array2<int>) returns (tree: seq<Edge>, mstweight: int)
    requires m.Length0 == m.Length1 == 3 && ZeroDiagonal(m)
    requires m[0, 1] == 2 && m[0, 2] == 1 && m[1, 0] == 0 && m[1, 2] == 0 && m[2, 0] == 2 && m[2, 1] == 0
    ensures ConnectedGraph(3, MatrixEdges(m))
    ensures Heaviest(MatrixEdges(m), Edge(2, 0, 2)) && !Bridge(MatrixEdges(m), Edge(2, 0, 2))
    ensures !MinimumSpanningTree(3, MatrixEdges(m), EdgeSet(tree))
  {
    ghost var e, f, g := Edge(0, 1, 2), Edge(0, 2, 1), Edge(2, 0, 2);
    assert MatrixEdges(m) == {e, f, g};
    HarmfulGraph(e, f, g);
    ghost var dropped;
    tree, mstweight, dropped := KruskalQuicksort(m);
    assert Collects(MatrixEdges(m), [e, f, g]);
  }
}
