/** Prim's algorithm of spanningtree/prim.c over the adjacency matrix, with lazy deletion: edges
    to vertices marked in the meantime stay in the heap and are skipped when they come out. */
module Prim {
  import opened Graphs
  import opened Bitmaps
  import opened Matrices
  import opened EdgeHeap
  import opened RowPaths

  /** S: marked vertices; A: edges whose weight has been added; h: edges in the heap; e: the edge
      just taken out of the heap, None when it has been dealt with. Whatever row edge leaves S is
      in the heap or is e, and e is no heavier than anything in the heap. */
  ghost predicate State(G: set<Edge>, start: nat, S: set<nat>, A: set<Edge>, h: multiset<Edge>, e: Option<Edge>) {
    && (forall f :: f in h ==> f in G && f.x in S)
    && (e.Some? ==> e.value in G && e.value.x in S && forall f :: f in h ==> e.value.weight <= f.weight)
    && (forall g :: g in G && g.x in S && g.y !in S ==> g in h || e == Some(g))
    && Tree(G, start, S, A)
  }

  /** A is a tree on S grown from start along row edges, lightest first; where every edge is returned
      it can be completed to a minimum spanning tree. */
  ghost predicate Tree(G: set<Edge>, start: nat, S: set<nat>, A: set<Edge>) {
    && A <= G && Acyclic(A)
    && (forall a :: a in A ==> a.x in S && a.y in S && a.y != start)
    && (forall w {:trigger Connected(A, start, w)} {:trigger Follows(G, start, w)} ::
          w in S ==> Connected(A, start, w) && Follows(G, start, w))
    && (if S == {} then A == {} else start in S)
    && Greedy(G, start, S, A) && (Returning(G) ==> Promising(G, A))
  }

  lemma TreeStart(G: set<Edge>, start: nat)
    ensures Tree(G, start, {}, {}) && Tree(G, start, {start}, {})
  {
    PromisingEmpty(G);
    ConnectedRefl({}, start);
    FollowsStart(G, start);
    GreedyStart(G, start);
  }

  /** The edges of a tree on S do not reach outside S. */
  lemma TreeInside(G: set<Edge>, start: nat, S: set<nat>, A: set<Edge>, u: nat, v: nat)
    requires Tree(G, start, S, A) && u in S && Connected(A, u, v)
    ensures v in S
  {
    if v !in S {
      var p :| Leads(A, u, p, v);
      var f := PathCrosses(A, S, u, p, v);
      assert false;
    }
  }

  lemma StateStart(G: set<Edge>, start: nat)
    ensures State(G, start, {}, {}, multiset{}, None)
  {
    TreeStart(G, start);
  }

  /** Taking the pending edge e into the tree: it is a lightest edge across the cut S. */
  lemma TreeGrows(G: set<Edge>, start: nat, S: set<nat>, A: set<Edge>, h: multiset<Edge>, e: Edge)
    requires State(G, start, S, A, h, Some(e)) && e.y !in S
    ensures Tree(G, start, S + {e.y}, A + {e}) && e !in A
  {
    if Connected(A, e.x, e.y) { TreeInside(G, start, S, A, e.x, e.y); }
    AcyclicAdd(A, e);
    FollowsOn(G, start, e);
    ConnectedEdge(A + {e}, e);
    forall w | w in S + {e.y}
      ensures Connected(A + {e}, start, w) && Follows(G, start, w)
    {
      ConnectedMono(A, A + {e}, start, if w == e.y then e.x else w);
      if w == e.y { ConnectedTrans(A + {e}, start, e.x, e.y); }
    }
    assert forall g :: g in G && g.x in S && g.y !in S ==> e.weight <= g.weight;
    GreedyGrows(G, start, S, A, e);
    if Returning(G) {
      CutWeight(G, S, e.weight);
      CutProperty(G, A, S, e);
    }
  }

  ghost function Taken(A: set<Edge>, e: Option<Edge>): set<Edge> {
    if e.Some? then A + {e.value} else A
  }

  lemma TakenWeight(A: set<Edge>, e: Option<Edge>)
    requires e.Some? ==> e.value !in A
    ensures Weight(Taken(A, e)) == if e.Some? then Weight(A) + e.value.weight else Weight(A)
  {
    if e.Some? { WeightAdd(A, e.value); }
  }

  /** Marking v, by the pending edge or as the start, and adding its row to the heap. */
  lemma MarkVertex(G: set<Edge>, start: nat, S: set<nat>, A: set<Edge>, h: multiset<Edge>, e: Option<Edge>,
                   v: nat, h': multiset<Edge>)
    requires State(G, start, S, A, h, e) && v !in S
    requires if e.Some? then v == e.value.y else S == {} && v == start
    requires h <= h'
    requires forall g :: g in G && g.x == v ==> g in h'
    requires forall f :: f in h' ==> f in h || (f in G && f.x == v)
    ensures State(G, start, S + {v}, Taken(A, e), h', None)
    ensures e.Some? ==> e.value !in A
  {
    if e.Some? {
      TreeGrows(G, start, S, A, h, e.value);
    } else {
      TreeStart(G, start);
      assert S + {v} == {start};
    }
  }

  /** h' is h with the positive entries of row v below column y added. */
  ghost predicate RowAdded(G: set<Edge>, v: nat, y: nat, h: multiset<Edge>, h': multiset<Edge>) {
    && h <= h'
    && (forall g :: g in G && g.x == v && g.y < y ==> g in h')
    && (forall f :: f in h' ==> f in h || (f in G && f.x == v))
  }

  lemma RowStep(G: set<Edge>, v: nat, y: nat, h: multiset<Edge>, h': multiset<Edge>, e: Edge)
    requires RowAdded(G, v, y, h, h') && e.x == v && e.y == y
    requires forall g :: g in G && g.x == v && g.y == y ==> g == e
    ensures e in G ==> RowAdded(G, v, y + 1, h, h' + multiset{e})
    ensures e !in G ==> RowAdded(G, v, y + 1, h, h')
  {
  }

  /** Adds the positive entries of row v to the heap, leaving room for the rest. */
  method EnqueueRow(m: array2<int>, v: nat, heap: Heap)
    requires Square(m) && ZeroDiagonal(m) && v < m.Length0 && heap.Valid()
    requires |heap.Contents()| + m.Length0 <= heap.items.Length
    modifies heap.items
    ensures heap.Valid() && RowAdded(MatrixEdges(m), v, m.Length0, old(heap.Contents()), heap.Contents())
    ensures |heap.Contents()| <= old(|heap.Contents()|) + m.Length0 - 1
  {
    ghost var was, G := heap.Contents(), MatrixEdges(m);
    ghost var held := was;
    for y := 0 to m.Length0
      invariant heap.Valid() && held == heap.Contents() && MatrixEdges(m) == G
      invariant RowAdded(G, v, y, was, held)
      invariant |held| <= |was| + if y > v then y - 1 else y
    {
      var w := m[v, y];
      assert v == y ==> w == 0;
      RowStep(G, v, y, was, held, Edge(v, y, w));
      if w > 0 {
        heap.Enqueue(Edge(v, y, w));
        held := held + multiset{Edge(v, y, w)};
      }
    }
  }

  /** How many edges k rows without their diagonal entries can hold: k * (n - 1). */
  ghost function RowTotal(n: nat, k: nat): nat
    requires n > 0
  {
    if k == 0 then 0 else RowTotal(n, k - 1) + (n - 1)
  }

  lemma {:induction false} RowTotalIs(n: nat, k: nat)
    requires n > 0
    ensures RowTotal(n, k) == k * (n - 1)
  {
    if k > 0 { RowTotalIs(n, k - 1); }
  }

  lemma {:induction false} RowTotalMono(n: nat, j: nat, k: nat)
    requires n > 0 && j <= k
    ensures RowTotal(n, j) <= RowTotal(n, k)
  {
    if j < k { RowTotalMono(n, j, k - 1); }
  }

  /** The heap has slots for all rows, and holds no more than the rows of the marked vertices. */
  ghost predicate Roomy(n: nat, slots: nat, marked: nat, held: nat) {
    n > 0 && RowTotal(n, n) < slots && held <= RowTotal(n, marked)
  }

  lemma RoomForRow(n: nat, slots: nat, marked: nat, held: nat)
    requires marked < n && Roomy(n, slots, marked, held)
    ensures held + n <= slots
  {
    RowTotalMono(n, marked + 1, n);
  }

  lemma RoomAfterRow(n: nat, slots: nat, marked: nat, held: nat, held': nat)
    requires Roomy(n, slots, marked, held) && held' <= held + n - 1
    ensures Roomy(n, slots, marked + 1, held')
  {
  }

  lemma OneMore(S: set<nat>, v: nat, n: nat)
    requires S <= Vertices(n) && v < n && v !in S
    ensures S + {v} <= Vertices(n) && |S + {v}| == |S| + 1 <= n
  {
    Fewer(S + {v}, Vertices(n));
  }

  /** The n * n slots of the program are enough. */
  lemma SquareIsRoomy(n: nat)
    requires n > 0
    ensures n * n > 0 && Roomy(n, n * n, 0, 0)
  {
    RowTotalIs(n, n);
    assert n * (n - 1) == n * n - n;
  }

  /** A pending edge to a marked vertex is dropped. */
  lemma DropPending(G: set<Edge>, start: nat, S: set<nat>, A: set<Edge>, h: multiset<Edge>, e: Edge)
    requires State(G, start, S, A, h, Some(e)) && e.y in S
    ensures State(G, start, S, A, h, None)
  {
  }

  lemma TakeLightest(G: set<Edge>, start: nat, S: set<nat>, A: set<Edge>, h: multiset<Edge>, t: Edge)
    requires State(G, start, S, A, h, None) && t in h && forall f :: f in h ==> t.weight <= f.weight
    ensures State(G, start, S, A, h - multiset{t}, Some(t))
  {
  }

  /** The empty heap of n * n slots. */
  method MakeQueue(n: nat) returns (heap: Heap)
    requires n > 0
    ensures heap.Valid() && fresh(heap) && fresh(heap.items) && heap.Contents() == multiset{}
    ensures Roomy(n, heap.items.Length, 0, 0)
  {
    SquareIsRoomy(n);
    heap := new Heap(n * n);
  }

  /** What the program's data hold: bitmap the set S, heap the edges h, with room for the rest. */
  ghost predicate Frame(m: array2<int>, bitmap: array<Byte>, heap: Heap, S: set<nat>, h: multiset<Edge>)
    reads m, bitmap, heap, heap.items
  {
    && Square(m) && ZeroDiagonal(m) && bitmap.Length == m.Length0 / 8 + 1
    && heap.Valid() && heap.Contents() == h && Members(bitmap[..]) == S <= Vertices(m.Length0)
    && Roomy(m.Length0, heap.items.Length, |S|, |h|)
  }

  /** Sets v's bit and adds its row to the heap. */
  method Mark(m: array2<int>, v: nat, bitmap: array<Byte>, heap: Heap, ghost S: set<nat>, ghost h: multiset<Edge>)
    returns (ghost h': multiset<Edge>)
    requires Frame(m, bitmap, heap, S, h) && v < m.Length0 && v !in S
    modifies bitmap, heap.items
    ensures Frame(m, bitmap, heap, S + {v}, h') && |S| < |S + {v}| <= m.Length0
    ensures RowAdded(MatrixEdges(m), v, m.Length0, h, h')
  {
    InMap(v, m.Length0);
    OneMore(S, v, m.Length0);
    RoomForRow(m.Length0, heap.items.Length, |S|, |h|);
    SetBit(bitmap, v);
    EnqueueRow(m, v, heap);
    h' := heap.Contents();
    RoomAfterRow(m.Length0, heap.items.Length, |S|, |h|, |h'|);
  }

  /** The first half of an iteration: marks v and counts the edge that led to it, unless v is marked
      already. */
  method Visit(m: array2<int>, v: nat, e: Option<Edge>, weight: int, bitmap: array<Byte>, heap: Heap,
               ghost S: set<nat>, ghost h: multiset<Edge>)
    returns (weight': int, ghost S': set<nat>, ghost h': multiset<Edge>)
    requires Frame(m, bitmap, heap, S, h) && v < m.Length0
    modifies bitmap, heap.items
    ensures Frame(m, bitmap, heap, S', h')
    ensures v in S ==> weight' == weight && S' == S && h' == h
    ensures v !in S ==>
      && weight' == (if e.Some? then weight + e.value.weight else weight)
      && S' == S + {v} && |S| < |S'| <= m.Length0 && RowAdded(MatrixEdges(m), v, m.Length0, h, h')
  {
    InMap(v, m.Length0);
    weight', S', h' := weight, S, h;
    var marked := GetBit(bitmap, v);
    if !marked {
      if e.Some? {
        weight' := weight + e.value.weight;
      }
      h' := Mark(m, v, bitmap, heap, S, h);
      S' := S + {v};
    }
  }

  /** The second half: the next pending edge and the vertex it leads to, if there is one. */
  method Advance(m: array2<int>, bitmap: array<Byte>, heap: Heap, ghost S: set<nat>, ghost h: multiset<Edge>)
    returns (v: nat, e: Option<Edge>, ghost h': multiset<Edge>)
    requires Frame(m, bitmap, heap, S, h) && forall f :: f in h ==> f.x < m.Length0
    modifies heap.items
    ensures Frame(m, bitmap, heap, S, h')
    ensures e.None? ==> h == h' == multiset{}
    ensures e.Some? ==> Lightest(e.value, h) && h' == h - multiset{e.value}
    ensures e.Some? ==> v == if e.value.x in S then e.value.y else e.value.x
  {
    v, h' := 0, h;
    e := heap.Dequeue();
    if e.Some? {
      h' := h - multiset{e.value};
      InMap(e.value.x, m.Length0);
      var known := GetBit(bitmap, e.value.x);
      v := if !known then e.value.x else e.value.y;
    }
  }

  ghost predicate Lightest(e: Edge, h: multiset<Edge>) {
    e in h && forall f :: f in h ==> e.weight <= f.weight
  }

  /** What holds at the head of the loop: A is the tree so far, and e leads to v. */
  ghost predicate Pending(G: set<Edge>, start: nat, S: set<nat>, A: set<Edge>, h: multiset<Edge>,
                          v: nat, e: Option<Edge>, weight: int) {
    && State(G, start, S, A, h, e) && weight == Weight(A)
    && if e.Some? then v == e.value.y else S == {} && v == start
  }

  ghost function TreeAfter(S: set<nat>, A: set<Edge>, v: nat, e: Option<Edge>): set<Edge> {
    if v in S then A else Taken(A, e)
  }

  /** The first half of an iteration leaves no edge pending. */
  lemma Visited(G: set<Edge>, n: nat, start: nat, S: set<nat>, A: set<Edge>, h: multiset<Edge>,
                v: nat, e: Option<Edge>, weight: int, S': set<nat>, h': multiset<Edge>, weight': int)
    requires Pending(G, start, S, A, h, v, e, weight) && InRange(G, n)
    requires v in S ==> weight' == weight && S' == S && h' == h
    requires v !in S ==>
      && weight' == (if e.Some? then weight + e.value.weight else weight)
      && S' == S + {v} && RowAdded(G, v, n, h, h')
    ensures State(G, start, S', TreeAfter(S, A, v, e), h', None) && weight' == Weight(TreeAfter(S, A, v, e))
  {
    if v in S {
      DropPending(G, start, S, A, h, e.value);
    } else {
      MarkVertex(G, start, S, A, h, e, v, h');
      TakenWeight(A, e);
    }
  }

  /** The second half makes a lightest edge pending, or finds the tree finished. */
  lemma Advanced(G: set<Edge>, start: nat, S: set<nat>, A: set<Edge>, h: multiset<Edge>,
                 v: nat, e: Option<Edge>, weight: int, h': multiset<Edge>)
    requires State(G, start, S, A, h, None) && weight == Weight(A)
    requires e.None? ==> h == h' == multiset{}
    requires e.Some? ==> Lightest(e.value, h) && h' == h - multiset{e.value}
    requires e.Some? ==> v == if e.value.x in S then e.value.y else e.value.x
    ensures e.Some? ==> Pending(G, start, S, A, h', v, e, weight) && |h'| < |h|
    ensures e.None? ==> Finished(G, start, S, A)
  {
    if e.Some? { TakeLightest(G, start, S, A, h, e.value); }
  }

  /** A is a tree on S, and no row edge leaves S. */
  ghost predicate Finished(G: set<Edge>, start: nat, S: set<nat>, A: set<Edge>) {
    Tree(G, start, S, A) && forall g :: g in G && g.x in S ==> g.y in S
  }

  /** The first half of an iteration and what it does to the tree. */
  method VisitVertex(m: array2<int>, v: nat, e: Option<Edge>, weight: int, bitmap: array<Byte>, heap: Heap,
                     ghost G: set<Edge>,
                     ghost start: nat, ghost S: set<nat>, ghost A: set<Edge>, ghost h: multiset<Edge>)
    returns (weight': int, ghost S': set<nat>, ghost A': set<Edge>, ghost h': multiset<Edge>)
    requires Frame(m, bitmap, heap, S, h) && v < m.Length0 && G == MatrixEdges(m)
    requires Pending(G, start, S, A, h, v, e, weight)
    modifies bitmap, heap.items
    ensures Frame(m, bitmap, heap, S', h')
    ensures State(G, start, S', A', h', None) && weight' == Weight(A')
    ensures if v in S then S' == S && h' == h else |S| < |S'| <= m.Length0
  {
    weight', S', h' := Visit(m, v, e, weight, bitmap, heap, S, h);
    Visited(G, m.Length0, start, S, A, h, v, e, weight, S', h', weight');
    A' := TreeAfter(S, A, v, e);
  }

  /** One iteration of the loop; when it finds no edge the tree is finished. */
  method Iterate(m: array2<int>, v: nat, e: Option<Edge>, weight: int, bitmap: array<Byte>, heap: Heap,
                 ghost G: set<Edge>,
                 ghost start: nat, ghost S: set<nat>, ghost A: set<Edge>, ghost h: multiset<Edge>)
    returns (v': nat, e': Option<Edge>, weight': int, ghost S': set<nat>, ghost A': set<Edge>, ghost h': multiset<Edge>)
    requires Frame(m, bitmap, heap, S, h) && v < m.Length0 && G == MatrixEdges(m)
    requires Pending(G, start, S, A, h, v, e, weight)
    modifies bitmap, heap.items
    ensures Frame(m, bitmap, heap, S', h')
    ensures e'.Some? ==> v' < m.Length0 && Pending(G, start, S', A', h', v', e', weight')
    ensures e'.Some? ==> |S| < |S'| <= m.Length0 || (S' == S && |h'| < |h|)
    ensures e'.None? ==> Finished(G, start, S', A') && weight' == Weight(A') && start in S'
  {
    ghost var held;
    weight', S', A', held := VisitVertex(m, v, e, weight, bitmap, heap, G, start, S, A, h);
    assert forall f :: f in held ==> f in G;
    v', e', h' := Advance(m, bitmap, heap, S', held);
    Advanced(G, start, S', A', held, v', e', weight', h');
  }

  /** In a connected graph whose edges are all returned the finished tree holds every vertex. */
  lemma FinishedSpans(n: nat, G: set<Edge>, start: nat, S: set<nat>, A: set<Edge>)
    requires Finished(G, start, S, A) && start in S && start < n && ConnectedGraph(n, G) && Returning(G)
    ensures forall w: nat :: w < n ==> w in S
  {
    forall w: nat | w < n ensures w in S {
      assert Connected(G, start, w);
      var p :| Leads(G, start, p, w);
      if w !in S {
        var f := PathCrosses(G, S, start, p, w);
        assert Returned(G, f);
        var q :| RowPath(UpTo(G, f.weight), f.y, q, f.x);
        var g := PathLeaves(UpTo(G, f.weight), S, f.y, q, f.x);
        assert false;
      }
    }
  }

  /** There it is a minimum spanning tree, from whatever start. */
  lemma ReturningIsMinimum(n: nat, G: set<Edge>, start: nat, S: set<nat>, A: set<Edge>)
    requires Finished(G, start, S, A) && start in S && start < n && InRange(G, n)
    requires ConnectedGraph(n, G) && Returning(G)
    ensures MinimumSpanningTree(n, G, A)
  {
    FinishedSpans(n, G, start, S, A);
    forall e | e in G ensures Connected(A, e.x, e.y) {
      assert e.x in S && e.y in S;
      JoinedByTree(G, start, S, A, e.x, e.y);
    }
    PromisingIsMinimum(G, A);
    MinimumTree(n, G, A);
  }

  lemma JoinedByTree(G: set<Edge>, start: nat, S: set<nat>, A: set<Edge>, u: nat, v: nat)
    requires Tree(G, start, S, A) && u in S && v in S
    ensures Connected(A, u, v)
  {
    assert Connected(A, start, u) && Connected(A, start, v);
    ConnectedSym(A, start, u);
    ConnectedTrans(A, u, start, v);
  }

  /** An edge that ends in the start and is not returned keeps the tree from being minimal. */
  lemma UnreturnedNotMinimum(n: nat, G: set<Edge>, start: nat, S: set<nat>, A: set<Edge>, e: Edge)
    requires Finished(G, start, S, A) && start in S && InRange(G, n)
    requires e in G && e.y == start && !Returned(G, e)
    ensures !MinimumSpanningTree(n, G, A)
  {
    if SpanningTree(n, G, A) {
      assert Connected(A, start, e.x);
      TreeInside(G, start, S, A, start, e.x);
      NotReturned(n, G, start, S, A, e);
    }
  }

  ghost predicate UnreturnedInto(G: set<Edge>, v: nat) {
    exists e {:trigger Returned(G, e)} :: e in G && e.y == v && !Returned(G, e)
  }

  /** What Prim's result is worth: minimal where every edge is returned, not minimal where one that
      ends in the start is not. */
  ghost predicate Judged(n: nat, G: set<Edge>, start: nat, A: set<Edge>, weight: int) {
    && (ConnectedGraph(n, G) && Returning(G) ==> MinimumSpanningTree(n, G, A) && MinimumWeight(n, G, weight))
    && (UnreturnedInto(G, start) ==> !MinimumSpanningTree(n, G, A))
  }

  ghost predicate MinimumWeight(n: nat, G: set<Edge>, weight: int) {
    forall T :: MinimumSpanningTree(n, G, T) ==> weight == Weight(T)
  }

  lemma Judgement(n: nat, G: set<Edge>, start: nat, S: set<nat>, A: set<Edge>)
    requires Finished(G, start, S, A) && start in S && start < n && InRange(G, n)
    ensures Judged(n, G, start, A, Weight(A))
  {
    if ConnectedGraph(n, G) && Returning(G) {
      ReturningIsMinimum(n, G, start, S, A);
      SameWeight(n, G, A);
    }
    if UnreturnedInto(G, start) {
      var e :| e in G && e.y == start && !Returned(G, e);
      UnreturnedNotMinimum(n, G, start, S, A, e);
    }
  }

  lemma SameWeight(n: nat, G: set<Edge>, A: set<Edge>)
    requires MinimumSpanningTree(n, G, A)
    ensures MinimumWeight(n, G, Weight(A))
  {
  }

  /** The weight of a tree grown from `start`, and (ghost) its vertices and edges. */
  method PrimAdjMatrix(m: array2<int>, start: nat) returns (weight: int, ghost S: set<nat>, ghost A: set<Edge>)
    requires Square(m) && ZeroDiagonal(m) && start < m.Length0
    ensures Finished(MatrixEdges(m), start, S, A) && weight == Weight(A)
    ensures start in S && S <= Vertices(m.Length0)
    ensures Judged(m.Length0, MatrixEdges(m), start, A, weight)
  {
    weight, S, A := GrowFrom(m, start);
    Judgement(m.Length0, MatrixEdges(m), start, S, A);
  }

  /** The bitmap and the heap before the first vertex. */
  method Prepare(m: array2<int>) returns (bitmap: array<Byte>, heap: Heap)
    requires Square(m) && ZeroDiagonal(m) && m.Length0 > 0
    ensures Frame(m, bitmap, heap, {}, multiset{}) && fresh(bitmap) && fresh(heap) && fresh(heap.items)
  {
    bitmap := NewBitmap(m.Length0 / 8 + 1);
    heap := MakeQueue(m.Length0);
  }

  method GrowFrom(m: array2<int>, start: nat) returns (weight: int, ghost S: set<nat>, ghost A: set<Edge>)
    requires Square(m) && ZeroDiagonal(m) && start < m.Length0
    ensures Finished(MatrixEdges(m), start, S, A) && weight == Weight(A)
    ensures start in S && S <= Vertices(m.Length0)
  {
    ghost var G := MatrixEdges(m);
    var bitmap, heap := Prepare(m);
    var v: nat := start;
    var e: Option<Edge> := None;
    ghost var h: multiset<Edge> := multiset{};
    weight, S, A := 0, {}, {};
    StateStart(G, start);
    while true
      invariant Frame(m, bitmap, heap, S, h) && v < m.Length0 && G == MatrixEdges(m)
      invariant Pending(G, start, S, A, h, v, e, weight)
      invariant fresh(heap) && fresh(heap.items) && fresh(bitmap)
      decreases m.Length0 - |S|, |h|
    {
      v, e, weight, S, A, h := Iterate(m, v, e, weight, bitmap, heap, G, start, S, A, h);
      if e.None? {
        break;
      }
    }
  }

  /** Prim from every vertex in turn: on a connected matrix all the trees are minimal exactly when
      every edge is returned. */
  method PrimFromEveryStart(m: array2<int>) returns (weights: seq<int>, ghost trees: seq<set<Edge>>)
    requires Square(m) && ZeroDiagonal(m) && ConnectedGraph(m.Length0, MatrixEdges(m))
    ensures |weights| == |trees| == m.Length0
    ensures forall s :: 0 <= s < m.Length0 ==> weights[s] == Weight(trees[s])
    ensures (forall s :: 0 <= s < m.Length0 ==> MinimumSpanningTree(m.Length0, MatrixEdges(m), trees[s]))
      <==> Returning(MatrixEdges(m))
  {
    ghost var G, n := MatrixEdges(m), m.Length0;
    weights, trees := [], [];
    for start := 0 to m.Length0
      invariant |weights| == |trees| == start && MatrixEdges(m) == G
      invariant forall s :: 0 <= s < start ==> weights[s] == Weight(trees[s]) && Judged(n, G, s, trees[s], weights[s])
    {
      ghost var S, A;
      var weight;
      weight, S, A := PrimAdjMatrix(m, start);
      weights, trees := weights + [weight], trees + [A];
    }
    AllJudged(n, G, weights, trees);
  }

  lemma AllJudged(n: nat, G: set<Edge>, weights: seq<int>, trees: seq<set<Edge>>)
    requires |weights| == |trees| == n && InRange(G, n) && ConnectedGraph(n, G)
    requires forall s :: 0 <= s < n ==> Judged(n, G, s, trees[s], weights[s])
    ensures (forall s :: 0 <= s < n ==> MinimumSpanningTree(n, G, trees[s])) <==> Returning(G)
  {
    if Returning(G) {
      forall s | 0 <= s < n ensures MinimumSpanningTree(n, G, trees[s]) {
        assert Judged(n, G, s, trees[s], weights[s]);
      }
    } else {
      var e :| e in G && !Returned(G, e);
      assert UnreturnedInto(G, e.y) && Judged(n, G, e.y, trees[e.y], weights[e.y]);
    }
  }
}
