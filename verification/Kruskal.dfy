/** Kruskal's algorithm of spanningtree/kruskal.c: one forest record per vertex, the records of
    one component sharing their bitmap and their edge array. */
module Kruskal {
  import opened Graphs
  import opened Bitmaps
  import opened EdgeSort

  datatype Forest = Forest(bitmap: array<Byte>, edges: array<Edge>, nextedge: nat)

  function MapLen(numedges: nat): nat {
    numedges / 8 + 1
  }

  // ---------- What the forest records stand for ----------

  /** part[u] is the component of vertex u, list[u] the edges chosen in it. */
  datatype View = View(part: seq<set<nat>>, list: seq<seq<Edge>>)

  /** The parts partition 0..n, and each list has one edge fewer than its part has vertices. */
  ghost predicate Partition(n: nat, v: View) {
    && |v.part| == n && |v.list| == n
    && (forall u :: 0 <= u < n ==> u in v.part[u] && |v.list[u]| == |v.part[u]| - 1)
    && (forall u, w {:trigger w in v.part[u]} ::
          0 <= u < n && w in v.part[u] ==> w < n && v.part[w] == v.part[u] && v.list[w] == v.list[u])
  }

  /** The record f holds the component p and the edge list l. */
  ghost predicate Record(f: Forest, numedges: nat, p: set<nat>, l: seq<Edge>)
    reads f.bitmap, f.edges
  {
    && f.bitmap.Length == MapLen(numedges) && f.edges.Length == numedges
    && Members(f.bitmap[..]) == p
    && f.nextedge == |l| <= numedges && f.edges[..f.nextedge] == l
  }

  /** Vertices of one part have equal records, vertices of different parts share no array. */
  ghost predicate Sharing(fs: seq<Forest>, part: seq<set<nat>>)
    requires |fs| == |part|
  {
    forall u, w :: 0 <= u < |fs| && 0 <= w < |fs| ==>
      if w in part[u] then fs[w] == fs[u] else fs[w].bitmap != fs[u].bitmap && fs[w].edges != fs[u].edges
  }

  /** The records hold the view: bit w of u's bitmap says whether w is in u's part, u's edge
      array starts with u's list, and arrays are shared exactly within parts. */
  ghost predicate Holds(fs: seq<Forest>, numedges: nat, v: View)
    reads set u | 0 <= u < |fs| :: fs[u].bitmap
    reads set u | 0 <= u < |fs| :: fs[u].edges
  {
    && |v.part| == |v.list| == |fs|
    && (forall u :: 0 <= u < |fs| ==> Record(fs[u], numedges, v.part[u], v.list[u]))
    && Sharing(fs, v.part)
  }

  ghost function Merged(v: View, e: Edge): View
    requires e.x < |v.part| == |v.list| && e.y < |v.part|
  {
    var P := v.part[e.x] + v.part[e.y];
    var L := v.list[e.x] + [e] + v.list[e.y];
    View(seq(|v.part|, u requires 0 <= u < |v.part| => if u in P then P else v.part[u]),
         seq(|v.list|, u requires 0 <= u < |v.list| => if u in P then L else v.list[u]))
  }

  lemma PartSize(n: nat, v: View, u: nat)
    requires Partition(n, v) && u < n
    ensures |v.part[u]| <= n
  {
    forall w | w in v.part[u] ensures w in Vertices(n) {}
    Fewer(v.part[u], Vertices(n));
  }

  /** Parts of vertices that are not in one part share no vertex. */
  lemma PartsDisjoint(n: nat, v: View, x: nat, y: nat)
    requires Partition(n, v) && x < n && y < n && y !in v.part[x]
    ensures v.part[x] !! v.part[y] && |v.part[x] + v.part[y]| == |v.part[x]| + |v.part[y]|
  {
    if w :| w in v.part[x] && w in v.part[y] { assert false; }
  }

  lemma MergedPartition(n: nat, v: View, e: Edge)
    requires Partition(n, v) && e.x < n && e.y < n && e.y !in v.part[e.x]
    ensures Partition(n, Merged(v, e))
    ensures |v.list[e.x]| + 1 + |v.list[e.y]| <= n - 1
  {
    var m := Merged(v, e);
    PartsDisjoint(n, v, e.x, e.y);
    forall u, w | 0 <= u < n && w in m.part[u]
      ensures w < n && m.part[w] == m.part[u] && m.list[w] == m.list[u]
    {
      if u !in v.part[e.x] + v.part[e.y] && w in v.part[e.x] + v.part[e.y] {
        assert false;
      }
    }
    PartSize(n, m, e.x);
  }

  lemma MergedSize(n: nat, v: View, e: Edge)
    requires Partition(n, v) && e.x < n && e.y < n && e.y !in v.part[e.x]
    ensures |v.list[e.x]| + 1 + |v.list[e.y]| <= n - 1 && e.y in v.part[e.y]
  {
    MergedPartition(n, v, e);
  }

  // ---------- The program ----------

  /** The forest that holds just vertex i. */
  method NewForest(i: nat, numedges: nat) returns (f: Forest)
    requires i <= numedges
    ensures fresh(f.bitmap) && fresh(f.edges) && Record(f, numedges, {i}, [])
  {
    var b := NewBitmap(MapLen(numedges));
    SetBit(b, i);
    assert Members(b[..]) == {i};
    var es := new Edge[numedges](_ => Edge(0, 0, 0));
    f := Forest(b, es, 0);
  }

  /** The records below i are those of single vertices, on arrays of their own. */
  ghost predicate Started(fs: seq<Forest>, i: nat, numedges: nat, own: set<object>)
    reads set u | 0 <= u < |fs| :: fs[u].bitmap
    reads set u | 0 <= u < |fs| :: fs[u].edges
  {
    && i <= |fs| && AllOwned(fs[..i], own)
    && (forall u :: 0 <= u < i ==> Record(fs[u], numedges, {u}, []))
    && forall u, w :: 0 <= u < w < i ==> fs[w].bitmap != fs[u].bitmap && fs[w].edges != fs[u].edges
  }

  method AddForest(forests: array<Forest>, i: nat, numedges: nat, ghost own: set<object>)
    returns (ghost own': set<object>)
    requires i < forests.Length && i <= numedges && Started(forests[..], i, numedges, own) && forests !in own
    modifies forests
    ensures own <= own' && fresh(own' - own)
    ensures Started(forests[..], i + 1, numedges, own')
  {
    ghost var was := forests[..];
    var f := NewForest(i, numedges);
    own' := own + {f.bitmap, f.edges};
    assert Started(was, i, numedges, own);
    forests[i] := f;
    StartedNext(was, forests[..], f, i, numedges, own);
  }

  lemma StartedNext(was: seq<Forest>, now: seq<Forest>, f: Forest, i: nat, numedges: nat, own: set<object>)
    requires i < |was| && now == was[i := f] && Started(was, i, numedges, own)
    requires Record(f, numedges, {i}, []) && f.bitmap !in own && f.edges !in own
    ensures Started(now, i + 1, numedges, own + {f.bitmap, f.edges})
  {
    forall u | 0 <= u < i ensures now[u] == was[u] && now[u].bitmap in own && now[u].edges in own {
      assert was[..i][u] == was[u];
    }
  }

  /** Each vertex starts as a forest of its own. */
  method InitForests(n: nat, numedges: nat) returns (forests: array<Forest>, ghost v: View, ghost own: set<object>)
    requires 0 < n <= numedges + 1
    ensures fresh(forests) && forests.Length == n && forests !in own
    ensures fresh(own) && AllOwned(forests[..], own)
    ensures v == Singletons(n) && Partition(n, v) && Holds(forests[..], numedges, v)
  {
    var first := NewForest(0, numedges);
    forests := new Forest[n](_ => first);
    own := {};
    for i := 0 to n
      invariant fresh(own) && forests !in own && Started(forests[..], i, numedges, own)
    {
      own := AddForest(forests, i, numedges, own);
    }
    v := Singletons(n);
    SingletonsPartition(n);
    assert forests[..][..n] == forests[..];
    SingletonsHold(forests[..], numedges, own);
  }

  lemma SingletonsPartition(n: nat)
    ensures Partition(n, Singletons(n))
  {
  }

  lemma SingletonsHold(fs: seq<Forest>, numedges: nat, own: set<object>)
    requires Started(fs, |fs|, numedges, own)
    ensures Holds(fs, numedges, Singletons(|fs|))
  {
  }

  ghost function Singletons(n: nat): View {
    View(seq(n, u => {u}), seq(n, _ => []))
  }

  /** Appends the first `count` entries of ys to xs from `next` on. */
  method AppendEdges(xs: array<Edge>, next: nat, ys: array<Edge>, count: nat) returns (next': nat)
    requires xs != ys && count <= ys.Length && next + count <= xs.Length
    modifies xs
    ensures next' == next + count
    ensures xs[..next'] == old(xs[..next]) + ys[..count]
  {
    next' := next;
    for j := 0 to count
      invariant next' == next + j
      invariant xs[..next'] == old(xs[..next]) + ys[..j]
    {
      xs[next'] := ys[j];
      next' := next' + 1;
    }
  }

  /** Adds e and all of the forest yf to the forest xf in place. */
  method Absorb(xf: Forest, yf: Forest, e: Edge) returns (next: nat)
    requires xf.bitmap != yf.bitmap && xf.edges != yf.edges && xf.bitmap.Length == yf.bitmap.Length
    requires e.y / 8 < xf.bitmap.Length && e.y in Members(yf.bitmap[..])
    requires yf.nextedge <= yf.edges.Length && xf.nextedge + 1 + yf.nextedge <= xf.edges.Length
    modifies xf.bitmap, xf.edges, yf.bitmap
    ensures next == xf.nextedge + 1 + yf.nextedge
    ensures xf.edges[..next] == old(xf.edges[..xf.nextedge]) + [e] + yf.edges[..yf.nextedge]
    ensures Members(xf.bitmap[..]) == Members(yf.bitmap[..]) == old(Members(xf.bitmap[..]) + Members(yf.bitmap[..]))
  {
    SetBit(xf.bitmap, e.y);
    xf.edges[xf.nextedge] := e;
    assert xf.edges[..xf.nextedge + 1] == old(xf.edges[..xf.nextedge]) + [e];
    next := AppendEdges(xf.edges, xf.nextedge + 1, yf.edges, yf.nextedge);
    Unite(xf.bitmap, yf.bitmap);
  }

  /** The test of the loop that shares records: does the bitmap hold an end of e? */
  ghost predicate Touched(bitmap: array<Byte>, e: Edge)
    reads bitmap
  {
    e.x in Members(bitmap[..]) || e.y in Members(bitmap[..])
  }

  method TestBitmap(bitmap: array<Byte>, e: Edge) returns (b: bool)
    requires e.x / 8 < bitmap.Length && e.y / 8 < bitmap.Length
    ensures b <==> Touched(bitmap, e)
  {
    b := GetBit(bitmap, e.x);
    if !b {
      b := GetBit(bitmap, e.y);
    }
  }

  /** The records after the copying loop has passed the vertices below j. */
  ghost function Redirected(was: seq<Forest>, x: nat, xf: Forest, P: set<nat>, j: nat): seq<Forest> {
    seq(|was|, u requires 0 <= u < |was| => if u == x || (u in P && u < j) then xf else was[u])
  }

  /** Makes xf the record of every vertex whose bitmap is touched by e. */
  method Redirect(forests: array<Forest>, e: Edge, numedges: nat, xf: Forest, ghost P: set<nat>)
    requires forests.Length <= numedges + 1 && e.x < forests.Length && e.y < forests.Length
    requires forall u :: 0 <= u < forests.Length ==> forests[u].bitmap.Length == MapLen(numedges)
    requires forall u :: 0 <= u < forests.Length ==> (Touched(forests[u].bitmap, e) <==> u in P)
    modifies forests
    ensures forests[..] == Redirected(old(forests[..]), e.x, xf, P, forests.Length)
  {
    ghost var was := forests[..];
    forests[e.x] := xf;
    for j := 0 to forests.Length
      invariant forests[..] == Redirected(was, e.x, xf, P, j)
    {
      if j != e.x {
        var f := forests[j];
        assert f == was[j];
        InMap(e.x, numedges);
        InMap(e.y, numedges);
        var b := TestBitmap(f.bitmap, e);
        if b {
          forests[j] := xf;
        }
      }
    }
  }

  /** The merged component is in x's arrays and y's bitmap, all others are as they were. */
  ghost predicate ArraysMerged(fs: seq<Forest>, e: Edge, numedges: nat, xf: Forest, v: View)
    requires |v.part| == |v.list| == |fs| && e.x < |fs| && e.y < |fs|
    reads set u | 0 <= u < |fs| :: fs[u].bitmap
    reads set u | 0 <= u < |fs| :: fs[u].edges
    reads xf.bitmap, xf.edges
  {
    && xf.bitmap == fs[e.x].bitmap && xf.edges == fs[e.x].edges
    && Record(xf, numedges, v.part[e.x] + v.part[e.y], v.list[e.x] + [e] + v.list[e.y])
    && fs[e.y].bitmap.Length == MapLen(numedges) && Members(fs[e.y].bitmap[..]) == v.part[e.x] + v.part[e.y]
    && forall u :: 0 <= u < |fs| && u !in v.part[e.x] + v.part[e.y] ==> Record(fs[u], numedges, v.part[u], v.list[u])
  }

  /** The first half of the merge: x's arrays absorb y's, all other arrays stay. */
  method MergeArrays(forests: array<Forest>, e: Edge, numedges: nat, ghost v: View) returns (xf: Forest)
    requires |v.part| == |v.list| == forests.Length && e.x < forests.Length && e.y < forests.Length
    requires Record(forests[e.x], numedges, v.part[e.x], v.list[e.x])
    requires Record(forests[e.y], numedges, v.part[e.y], v.list[e.y])
    requires forests[e.x].bitmap != forests[e.y].bitmap && forests[e.x].edges != forests[e.y].edges
    requires e.y in v.part[e.y] && e.y <= numedges && |v.list[e.x]| + 1 + |v.list[e.y]| <= numedges
    requires forall u :: 0 <= u < forests.Length && u !in v.part[e.x] + v.part[e.y] ==>
      Separate(forests[..], e, u) && Record(forests[u], numedges, v.part[u], v.list[u])
    modifies forests[e.x].bitmap, forests[e.x].edges, forests[e.y].bitmap
    ensures forests[..] == old(forests[..])
    ensures ArraysMerged(forests[..], e, numedges, xf, v)
  {
    var yf := forests[e.y];
    xf := forests[e.x];
    ghost var was := forests[..];
    var next := Absorb(xf, yf, e);
    xf := xf.(nextedge := next);
    forall u | 0 <= u < forests.Length && u !in v.part[e.x] + v.part[e.y]
      ensures Record(forests[u], numedges, v.part[u], v.list[u])
    {
      assert Separate(was, e, u);
    }
  }

  /** The body of the main loop for an edge that joins two components. */
  method Merge(forests: array<Forest>, e: Edge, numedges: nat, ghost v: View) returns (xf: Forest)
    requires Partition(forests.Length, v) && Holds(forests[..], numedges, v)
    requires forests.Length <= numedges + 1
    requires e.x < forests.Length && e.y < forests.Length && e.y !in v.part[e.x]
    modifies forests, forests[e.x].bitmap, forests[e.x].edges, forests[e.y].bitmap
    ensures xf.bitmap == old(forests[e.x].bitmap) && xf.edges == old(forests[e.x].edges)
    ensures forests[..] == Redirected(old(forests[..]), e.x, xf, v.part[e.x] + v.part[e.y], forests.Length)
    ensures Holds(forests[..], numedges, Merged(v, e))
  {
    xf := Combine(forests, e, numedges, v);
    RedirectAll(forests, e, numedges, xf, v);
  }

  /** The arrays merged, and with that exactly the vertices of the two components touched. */
  ghost predicate Combined(fs: seq<Forest>, e: Edge, numedges: nat, xf: Forest, v: View)
    requires |v.part| == |v.list| == |fs| && e.x < |fs| && e.y < |fs|
    reads set u | 0 <= u < |fs| :: fs[u].bitmap
    reads set u | 0 <= u < |fs| :: fs[u].edges
    reads xf.bitmap, xf.edges
  {
    && Record(xf, numedges, v.part[e.x] + v.part[e.y], v.list[e.x] + [e] + v.list[e.y])
    && (forall u :: 0 <= u < |fs| && u !in v.part[e.x] + v.part[e.y] ==> Record(fs[u], numedges, v.part[u], v.list[u]))
    && forall u :: 0 <= u < |fs| ==>
      fs[u].bitmap.Length == MapLen(numedges) && (Touched(fs[u].bitmap, e) <==> u in v.part[e.x] + v.part[e.y])
  }

  method Combine(forests: array<Forest>, e: Edge, numedges: nat, ghost v: View) returns (xf: Forest)
    requires Partition(forests.Length, v) && Holds(forests[..], numedges, v)
    requires forests.Length <= numedges + 1
    requires e.x < forests.Length && e.y < forests.Length && e.y !in v.part[e.x]
    modifies forests[e.x].bitmap, forests[e.x].edges, forests[e.y].bitmap
    ensures forests[..] == old(forests[..])
    ensures xf.bitmap == forests[e.x].bitmap && xf.edges == forests[e.x].edges
    ensures Combined(forests[..], e, numedges, xf, v)
  {
    ghost var was := forests[..];
    MergedSize(forests.Length, v, e);
    AllApart(was, v, e);
    xf := MergeArrays(forests, e, numedges, v);
    AllTouched(forests[..], xf, e, numedges, v);
  }

  lemma AllApart(fs: seq<Forest>, v: View, e: Edge)
    requires Partition(|fs|, v) && Sharing(fs, v.part) && e.x < |fs| && e.y < |fs|
    ensures forall u :: 0 <= u < |fs| && u !in v.part[e.x] + v.part[e.y] ==> Separate(fs, e, u)
  {
    forall u | 0 <= u < |fs| && u !in v.part[e.x] + v.part[e.y] ensures Separate(fs, e, u) {
      ApartArrays(fs, v, e, u);
    }
  }

  /** Exactly the vertices of the two components are touched. */
  lemma AllTouched(fs: seq<Forest>, xf: Forest, e: Edge, numedges: nat, v: View)
    requires Partition(|fs|, v) && Sharing(fs, v.part) && |fs| <= numedges + 1
    requires e.x < |fs| && e.y < |fs|
    requires ArraysMerged(fs, e, numedges, xf, v)
    ensures Combined(fs, e, numedges, xf, v)
  {
    forall u | 0 <= u < |fs|
      ensures fs[u].bitmap.Length == MapLen(numedges) && (Touched(fs[u].bitmap, e) <==> u in v.part[e.x] + v.part[e.y])
    {
      if u !in v.part[e.x] + v.part[e.y] { Apart(|fs|, v, e, u); }
    }
  }

  /** The second half: xf becomes the record of all vertices of the two components. */
  method RedirectAll(forests: array<Forest>, e: Edge, numedges: nat, xf: Forest, ghost v: View)
    requires Partition(forests.Length, v) && forests.Length <= numedges + 1
    requires e.x < forests.Length && e.y < forests.Length && Sharing(forests[..], v.part)
    requires xf.bitmap == forests[e.x].bitmap && xf.edges == forests[e.x].edges
    requires Combined(forests[..], e, numedges, xf, v)
    modifies forests
    ensures forests[..] == Redirected(old(forests[..]), e.x, xf, v.part[e.x] + v.part[e.y], forests.Length)
    ensures Holds(forests[..], numedges, Merged(v, e))
  {
    ghost var was := forests[..];
    RedirectedHolds(was, xf, e, numedges, v);
    Redirect(forests, e, numedges, xf, v.part[e.x] + v.part[e.y]);
  }

  /** u's arrays are none of those that the merge of e's components writes. */
  ghost predicate Separate(fs: seq<Forest>, e: Edge, u: nat)
    requires e.x < |fs| && e.y < |fs| && u < |fs|
  {
    fs[u].bitmap != fs[e.x].bitmap && fs[u].edges != fs[e.x].edges && fs[u].bitmap != fs[e.y].bitmap
  }

  lemma RedirectedHolds(was: seq<Forest>, xf: Forest, e: Edge, numedges: nat, v: View)
    requires Partition(|was|, v) && Sharing(was, v.part) && e.x < |was| && e.y < |was|
    requires Combined(was, e, numedges, xf, v)
    requires xf.bitmap == was[e.x].bitmap && xf.edges == was[e.x].edges
    ensures Holds(Redirected(was, e.x, xf, v.part[e.x] + v.part[e.y], |was|), numedges, Merged(v, e))
  {
    MergedSharing(v, e, was, Redirected(was, e.x, xf, v.part[e.x] + v.part[e.y], |was|));
  }

  lemma Apart(n: nat, v: View, e: Edge, u: nat)
    requires Partition(n, v) && e.x < n && e.y < n && u < n && u !in v.part[e.x] + v.part[e.y]
    ensures e.x !in v.part[u] && e.y !in v.part[u]
  {
  }

  lemma ApartArrays(fs: seq<Forest>, v: View, e: Edge, u: nat)
    requires Partition(|fs|, v) && Sharing(fs, v.part)
    requires e.x < |fs| && e.y < |fs| && u < |fs| && u !in v.part[e.x] + v.part[e.y]
    ensures Separate(fs, e, u)
  {
    Apart(|fs|, v, e, u);
  }

  lemma MergedSharing(v: View, e: Edge, was: seq<Forest>, now: seq<Forest>)
    requires Partition(|was|, v) && Sharing(was, v.part) && |now| == |was|
    requires e.x < |was| && e.y < |was|
    requires forall u :: 0 <= u < |was| ==>
      if u in v.part[e.x] + v.part[e.y] then now[u] == now[e.x] else now[u] == was[u]
    requires now[e.x].bitmap == was[e.x].bitmap && now[e.x].edges == was[e.x].edges
    ensures Sharing(now, Merged(v, e).part)
  {
    var P := v.part[e.x] + v.part[e.y];
    forall u, w | 0 <= u < |now| && 0 <= w < |now| && w !in Merged(v, e).part[u]
      ensures now[w].bitmap != now[u].bitmap && now[w].edges != now[u].edges
    {
      if u !in P { Apart(|was|, v, e, u); }
      if w !in P { Apart(|was|, v, e, w); }
    }
  }

  // ---------- Why the chosen edges form a minimum spanning forest ----------

  ghost function EdgeSet(es: seq<Edge>): set<Edge> {
    set e | e in es
  }

  ghost predicate NoDuplicates(es: seq<Edge>) {
    forall i, j :: 0 <= i < j < |es| ==> es[i] != es[j]
  }

  /** A is a promising forest that joins the ends of the first i edges of es. */
  ghost predicate Greedy(es: seq<Edge>, i: nat, A: set<Edge>)
    requires i <= |es|
  {
    && A <= EdgeSet(es) && Acyclic(A) && Promising(EdgeSet(es), A)
    && forall j :: 0 <= j < i ==> Connected(A, es[j].x, es[j].y)
  }

  /** Parts are the components of A; lists are the edges of A by component. */
  ghost predicate Represents(n: nat, A: set<Edge>, v: View)
    requires Partition(n, v)
  {
    && (forall u, w :: 0 <= u < n && 0 <= w < n ==> (w in v.part[u] <==> Connected(A, u, w)))
    && (forall u :: 0 <= u < n ==> Lists(A, v.part[u], v.list[u]))
  }

  ghost predicate Lists(A: set<Edge>, p: set<nat>, l: seq<Edge>) {
    NoDuplicates(l) && forall e :: e in l <==> e in A && e.x in p
  }

  lemma GreedyStart(es: seq<Edge>)
    ensures Greedy(es, 0, {})
  {
    PromisingEmpty(EdgeSet(es));
  }

  /** One iteration: an edge whose ends are joined is dropped, any other is taken. */
  lemma GreedyStep(es: seq<Edge>, i: nat, n: nat, A: set<Edge>)
    requires i < |es| && SortedRange(es, 0, |es| - 1) && Greedy(es, i, A)
    requires InRange(EdgeSet(es), n)
    ensures Greedy(es, i + 1, if Connected(A, es[i].x, es[i].y) then A else A + {es[i]})
  {
    var e, G := es[i], EdgeSet(es);
    if !Connected(A, e.x, e.y) {
      var S := ComponentOf(A, n, e.x);
      ConnectedRefl(A, e.x);
      forall a: Edge | Connected(A, a.x, a.y) && a.x < n && a.y < n
        ensures !Crosses(a, S)
      {
        if Connected(A, e.x, a.x) { ConnectedTrans(A, e.x, a.x, a.y); }
        if Connected(A, e.x, a.y) { ConnectedSym(A, a.x, a.y); ConnectedTrans(A, e.x, a.y, a.x); }
      }
      forall a | a in A ensures !Crosses(a, S) { ConnectedEdge(A, a); }
      forall g | g in G && Crosses(g, S)
        ensures e.weight <= g.weight
      {
        var j :| 0 <= j < |es| && es[j] == g;
        assert j >= i;
      }
      CutProperty(G, A, S, e);
      AcyclicAdd(A, e);
      ConnectedEdge(A + {e}, e);
      forall j | 0 <= j < i
        ensures Connected(A + {e}, es[j].x, es[j].y)
      {
        ConnectedMono(A, A + {e}, es[j].x, es[j].y);
      }
    }
  }

  ghost function ComponentOf(A: set<Edge>, n: nat, u: nat): (s: set<nat>)
    ensures forall w: nat :: w in s <==> w < n && Connected(A, u, w)
  {
    set w: nat | w < n && Connected(A, u, w)
  }

  lemma GreedyEnd(es: seq<Edge>, A: set<Edge>)
    requires Greedy(es, |es|, A)
    ensures MinimumSpanningForest(EdgeSet(es), A)
  {
    forall e | e in EdgeSet(es) ensures Connected(A, e.x, e.y) {
      var j :| 0 <= j < |es| && es[j] == e;
    }
    PromisingIsMinimum(EdgeSet(es), A);
  }

  lemma RepresentsStart(n: nat)
    requires Partition(n, Singletons(n))
    ensures Represents(n, {}, Singletons(n))
  {
    forall u, w | 0 <= u < n && 0 <= w < n
      ensures u == w <==> Connected({}, u, w)
    {
      ConnectedRefl({}, u);
      if Connected({}, u, w) { var p :| Leads({}, u, p, w); }
    }
  }

  /** Merging two components in the records is adding their edge to the chosen ones. */
  lemma RepresentsMerge(n: nat, A: set<Edge>, v: View, e: Edge)
    requires Partition(n, v) && Represents(n, A, v) && InRange(A, n)
    requires e.x < n && e.y < n && e.y !in v.part[e.x]
    ensures Partition(n, Merged(v, e)) && Represents(n, A + {e}, Merged(v, e))
  {
    MergedPartition(n, v, e);
    var m, P := Merged(v, e), v.part[e.x] + v.part[e.y];
    forall u, w | 0 <= u < n && 0 <= w < n
      ensures w in m.part[u] <==> Connected(A + {e}, u, w)
    {
      MergedConnected(n, A, v, e, u, w);
    }
    if e in A { ConnectedEdge(A, e); }
    MergedLists(A, v.part[e.x], v.part[e.y], v.list[e.x], v.list[e.y], e);
    forall u | 0 <= u < n && u !in P
      ensures Lists(A + {e}, v.part[u], v.list[u])
    {
      Apart(n, v, e, u);
      OtherList(A, v.part[u], v.list[u], e);
    }
  }

  lemma OtherList(A: set<Edge>, p: set<nat>, l: seq<Edge>, e: Edge)
    requires Lists(A, p, l) && e.x !in p
    ensures Lists(A + {e}, p, l)
  {
  }

  lemma MergedConnected(n: nat, A: set<Edge>, v: View, e: Edge, u: nat, w: nat)
    requires Partition(n, v) && Represents(n, A, v)
    requires e.x < n && e.y < n && u < n && w < n
    ensures w in Merged(v, e).part[u] <==> Connected(A + {e}, u, w)
  {
    var P := v.part[e.x] + v.part[e.y];
    AddEdge(A, e, u, w);
    assert u in v.part[e.x] <==> Connected(A, u, e.x) by { SymParts(n, v, e.x, u); }
    assert u in v.part[e.y] <==> Connected(A, u, e.y) by { SymParts(n, v, e.y, u); }
    assert w in v.part[e.x] <==> Connected(A, e.x, w);
    assert w in v.part[e.y] <==> Connected(A, e.y, w);
    assert w in v.part[u] <==> Connected(A, u, w);
    if u in P && w in P {
      assert u in v.part[e.x] && w in v.part[e.x] ==> w in v.part[u] by { SymParts(n, v, e.x, u); }
      assert u in v.part[e.y] && w in v.part[e.y] ==> w in v.part[u] by { SymParts(n, v, e.y, u); }
    } else if u in P && w in v.part[u] {
      SymParts(n, v, u, w);
    }
  }

  lemma SymParts(n: nat, v: View, a: nat, b: nat)
    requires Partition(n, v) && a < n && b < n
    ensures b in v.part[a] <==> a in v.part[b]
    ensures b in v.part[a] ==> v.part[a] == v.part[b]
  {
  }

  lemma MergedLists(A: set<Edge>, p: set<nat>, q: set<nat>, l: seq<Edge>, m: seq<Edge>, e: Edge)
    requires Lists(A, p, l) && Lists(A, q, m) && p !! q && e !in A && e.x in p
    ensures Lists(A + {e}, p + q, l + [e] + m)
  {
    var r := l + [e] + m;
    forall i, j | 0 <= i < j < |r|
      ensures r[i] != r[j]
    {
      if i < |l| { assert r[i] in l; }
      if j < |l| { assert r[j] in l; }
      if |l| < i { assert r[i] in m; }
      if |l| < j { assert r[j] in m; }
    }
  }

  // ---------- The main loop ----------

  ghost predicate Owned(forests: array<Forest>, own: set<object>)
    reads forests
  {
    forests in own && AllOwned(forests[..], own)
  }

  ghost predicate AllOwned(fs: seq<Forest>, own: set<object>) {
    forall u :: 0 <= u < |fs| ==> fs[u].bitmap in own && fs[u].edges in own
  }

  lemma RedirectedOwned(was: seq<Forest>, x: nat, xf: Forest, P: set<nat>, own: set<object>)
    requires AllOwned(was, own) && xf.bitmap in own && xf.edges in own
    ensures AllOwned(Redirected(was, x, xf, P, |was|), own)
  {
  }

  /** One iteration of the main loop: take the edge e unless it creates a cycle. */
  method TakeEdge(forests: array<Forest>, e: Edge, numedges: nat, ghost v: View, ghost own: set<object>)
    returns (taken: bool)
    requires Partition(forests.Length, v) && Holds(forests[..], numedges, v) && Owned(forests, own)
    requires forests.Length <= numedges + 1 && e.x < forests.Length && e.y < forests.Length
    modifies own
    ensures taken <==> e.y !in v.part[e.x]
    ensures Holds(forests[..], numedges, if taken then Merged(v, e) else v) && Owned(forests, own)
  {
    assert Record(forests[e.x], numedges, v.part[e.x], v.list[e.x]);
    var inside := GetBit(forests[e.x].bitmap, e.y);
    taken := !inside;
    if taken {
      MergeOwned(forests, e, numedges, v, own);
    }
  }

  method MergeOwned(forests: array<Forest>, e: Edge, numedges: nat, ghost v: View, ghost own: set<object>)
    requires Partition(forests.Length, v) && Holds(forests[..], numedges, v) && Owned(forests, own)
    requires forests.Length <= numedges + 1
    requires e.x < forests.Length && e.y < forests.Length && e.y !in v.part[e.x]
    modifies own
    ensures Holds(forests[..], numedges, Merged(v, e)) && Owned(forests, own)
  {
    ghost var was := forests[..];
    var xf := Merge(forests, e, numedges, v);
    RedirectedOwned(was, e.x, xf, v.part[e.x] + v.part[e.y], own);
  }

  /** Loop over the sorted edges, taking each edge unless it creates a cycle. */
  method BuildForests(n: nat, edges: array<Edge>, numedges: nat)
    returns (forests: array<Forest>, ghost A: set<Edge>, ghost v: View)
    requires numedges <= edges.Length && 0 < n <= numedges + 1
    requires InRange(EdgeSet(edges[..numedges]), n)
    requires SortedRange(edges[..numedges], 0, numedges - 1)
    ensures forests.Length == n && Partition(n, v) && Holds(forests[..], numedges, v) && Represents(n, A, v)
    ensures MinimumSpanningForest(EdgeSet(edges[..numedges]), A)
  {
    ghost var es := edges[..numedges];
    ghost var own: set<object>;
    forests, v, own := InitForests(n, numedges);
    own := own + {forests as object};
    A := {};
    ProgressStart(es, n);
    for i := 0 to numedges
      invariant fresh(own) && Owned(forests, own) && forests.Length == n
      invariant Progress(es, i, n, A, v) && Holds(forests[..], numedges, v)
    {
      var e := edges[i];
      ProgressStep(es, i, n, A, v);
      var taken := TakeEdge(forests, e, numedges, v, own);
      if taken {
        A, v := A + {e}, Merged(v, e);
      }
    }
    GreedyEnd(es, A);
  }

  /** What holds before iteration i: the records represent the components of a promising forest. */
  ghost predicate Progress(es: seq<Edge>, i: nat, n: nat, A: set<Edge>, v: View) {
    i <= |es| && Greedy(es, i, A) && Partition(n, v) && Represents(n, A, v)
  }

  lemma ProgressStart(es: seq<Edge>, n: nat)
    ensures Progress(es, 0, n, {}, Singletons(n))
  {
    GreedyStart(es);
    RepresentsStart(n);
  }

  lemma ProgressStep(es: seq<Edge>, i: nat, n: nat, A: set<Edge>, v: View)
    requires i < |es| && SortedRange(es, 0, |es| - 1) && InRange(EdgeSet(es), n)
    requires Progress(es, i, n, A, v)
    ensures es[i].x < n && es[i].y < n
    ensures if es[i].y !in v.part[es[i].x] then Progress(es, i + 1, n, A + {es[i]}, Merged(v, es[i]))
            else Progress(es, i + 1, n, A, v)
  {
    var e := es[i];
    assert e in EdgeSet(es);
    GreedyStep(es, i, n, A);
    if e.y !in v.part[e.x] { RepresentsMerge(n, A, v, e); }
  }

  ghost function SeqWeight(es: seq<Edge>): int {
    if es == [] then 0 else SeqWeight(es[..|es| - 1]) + es[|es| - 1].weight
  }

  lemma {:induction false} SeqWeightIsWeight(es: seq<Edge>)
    requires NoDuplicates(es)
    ensures SeqWeight(es) == Weight(EdgeSet(es))
  {
    if es == [] {
      assert EdgeSet(es) == {};
    } else {
      var front, e := es[..|es| - 1], es[|es| - 1];
      SeqWeightIsWeight(front);
      assert EdgeSet(es) == EdgeSet(front) + {e};
      WeightAdd(EdgeSet(front), e);
    }
  }

  lemma SpanningConnected(G: set<Edge>, T: set<Edge>, u: nat, w: nat)
    requires SpanningForest(G, T)
    ensures Connected(T, u, w) <==> Connected(G, u, w)
  {
    if Connected(T, u, w) {
      ConnectedMono(T, G, u, w);
    } else if Connected(G, u, w) {
      var p :| Leads(G, u, p, w);
      ConnectedCover(G, T, u, p, w);
    }
  }

  /** The edge list of a forest and its total weight, as printed at the end. */
  method Report(f: Forest, numedges: nat, ghost p: set<nat>, ghost l: seq<Edge>)
    returns (tree: seq<Edge>, mstweight: int)
    requires Record(f, numedges, p, l)
    ensures tree == l && mstweight == SeqWeight(l)
  {
    tree := f.edges[..f.nextedge];
    mstweight := 0;
    for i := 0 to f.nextedge
      invariant mstweight == SeqWeight(tree[..i])
    {
      assert tree[..i + 1][..i] == tree[..i];
      mstweight := mstweight + f.edges[i].weight;
    }
    assert tree[..|tree|] == tree;
  }

  /** The edges left in forest 0 and their weight. For any sorted edge array they are the part of
      a minimum spanning forest that lies in the component of vertex 0; when the graph is connected
      they are a minimum spanning tree. */
  method Kruskal(n: nat, edges: array<Edge>, numedges: nat)
    returns (tree: seq<Edge>, mstweight: int, ghost chosen: set<Edge>)
    requires numedges <= edges.Length && 0 < n <= numedges + 1
    requires InRange(EdgeSet(edges[..numedges]), n)
    requires SortedRange(edges[..numedges], 0, numedges - 1)
    ensures MinimumSpanningForest(EdgeSet(edges[..numedges]), chosen)
    ensures NoDuplicates(tree)
    ensures forall e :: e in tree <==> e in chosen && Connected(EdgeSet(edges[..numedges]), 0, e.x)
    ensures |tree| == |ComponentOf(EdgeSet(edges[..numedges]), n, 0)| - 1
    ensures mstweight == Weight(EdgeSet(tree))
    ensures ConnectedGraph(n, EdgeSet(edges[..numedges])) ==>
      |tree| == n - 1 && EdgeSet(tree) == chosen && MinimumSpanningTree(n, EdgeSet(edges[..numedges]), EdgeSet(tree))
  {
    var forests;
    ghost var v;
    forests, chosen, v := BuildForests(n, edges, numedges);
    assert Record(forests[0], numedges, v.part[0], v.list[0]);
    tree, mstweight := Report(forests[0], numedges, v.part[0], v.list[0]);
    ForestZero(n, EdgeSet(edges[..numedges]), chosen, v);
    SeqWeightIsWeight(tree);
  }

  lemma ForestZero(n: nat, G: set<Edge>, A: set<Edge>, v: View)
    requires n > 0 && Partition(n, v) && Represents(n, A, v) && InRange(G, n) && MinimumSpanningForest(G, A)
    ensures forall e :: e in v.list[0] <==> e in A && Connected(G, 0, e.x)
    ensures v.part[0] == ComponentOf(G, n, 0)
    ensures ConnectedGraph(n, G) ==>
      v.part[0] == Vertices(n) && EdgeSet(v.list[0]) == A && MinimumSpanningTree(n, G, A)
  {
    forall w: nat
      ensures w < n ==> (w in v.part[0] <==> Connected(G, 0, w))
    {
      SpanningConnected(G, A, 0, w);
    }
    assert Lists(A, v.part[0], v.list[0]);
    if ConnectedGraph(n, G) {
      MinimumTree(n, G, A);
    }
  }
}
