/** The adjacency matrix of spanningtree/graph.c and the depth-first connectivity test. A positive
    entry (x, y) is an edge; the test follows rows, so it reads edges with their direction. */
module Matrices {
  import opened Graphs

  ghost predicate Square(m: array2<int>) {
    m.Length0 == m.Length1
  }

  /** The shape initgraph and randomize leave: no entry on the diagonal. */
  ghost predicate ZeroDiagonal(m: array2<int>)
    requires Square(m)
    reads m
  {
    forall u :: 0 <= u < m.Length0 ==> m[u, u] == 0
  }

  ghost predicate Symmetric(m: array2<int>)
    requires Square(m)
    reads m
  {
    forall u, v :: 0 <= u < m.Length0 && 0 <= v < m.Length0 ==> m[u, v] == m[v, u]
  }

  ghost function MatrixEdges(m: array2<int>): (E: set<Edge>)
    requires Square(m)
    reads m
    ensures forall e :: e in E <==> e.x < m.Length0 && e.y < m.Length0 && m[e.x, e.y] == e.weight > 0
    ensures InRange(E, m.Length0)
  {
    set x: nat, y: nat | x < m.Length0 && y < m.Length0 && m[x, y] > 0 :: Edge(x, y, m[x, y])
  }

  // ---------- Reachability along rows ----------

  /** The vertices each row leads to, itself excepted. */
  ghost function Rows(m: array2<int>): (adj: seq<set<nat>>)
    requires Square(m)
    reads m
    ensures |adj| == m.Length0
    ensures forall u, x: nat :: 0 <= u < m.Length0 ==> (x in adj[u] <==> x < m.Length0 && x != u && m[u, x] > 0)
  {
    seq(m.Length0, u requires 0 <= u < m.Length0 reads m =>
      set x: nat | x < m.Length0 && x != u && m[u, x] > 0)
  }

  ghost predicate Route(adj: seq<set<nat>>, u: nat, p: seq<nat>, v: nat)
    decreases p
  {
    if p == [] then u == v else u < |adj| && p[0] in adj[u] && Route(adj, p[0], p[1..], v)
  }

  ghost predicate Reachable(adj: seq<set<nat>>, u: nat, v: nat) {
    exists p :: Route(adj, u, p, v)
  }

  lemma ReachableRefl(adj: seq<set<nat>>, u: nat)
    ensures Reachable(adj, u, u)
  {
    assert Route(adj, u, [], u);
  }

  lemma ReachableStep(adj: seq<set<nat>>, u: nat, x: nat, v: nat)
    requires u < |adj| && x in adj[u] && Reachable(adj, x, v)
    ensures Reachable(adj, u, v)
  {
    var p :| Route(adj, x, p, v);
    assert ([x] + p)[1..] == p;
    assert Route(adj, u, [x] + p, v);
  }

  /** A set closed under the rows holds whatever can be reached from inside it. */
  lemma {:induction false} ClosedHolds(adj: seq<set<nat>>, S: set<nat>, u: nat, p: seq<nat>, v: nat)
    requires forall a :: a in S ==> a < |adj| && adj[a] <= S
    requires u in S && Route(adj, u, p, v)
    ensures v in S
    decreases p
  {
    if p != [] { ClosedHolds(adj, S, p[0], p[1..], v); }
  }

  // ---------- Counting ----------

  /** How many row entries the vertices of S have, diagonal excepted. */
  ghost function Degrees(adj: seq<set<nat>>, S: set<nat>): nat
    requires forall u :: u in S ==> u < |adj|
  {
    if S == {} then 0 else var u :| u in S; |adj[u]| + Degrees(adj, S - {u})
  }

  lemma {:induction false} DegreesSplit(adj: seq<set<nat>>, S: set<nat>, u: nat)
    requires (forall w :: w in S ==> w < |adj|) && u in S
    ensures Degrees(adj, S) == |adj[u]| + Degrees(adj, S - {u})
    decreases |S|
  {
    var w :| w in S && Degrees(adj, S) == |adj[w]| + Degrees(adj, S - {w});
    if w != u {
      DegreesSplit(adj, S - {w}, u);
      DegreesSplit(adj, S - {u}, w);
      assert S - {w} - {u} == S - {u} - {w};
    }
  }

  lemma {:induction false} DegreesUnion(adj: seq<set<nat>>, S: set<nat>, U: set<nat>)
    requires (forall w :: w in S + U ==> w < |adj|) && S !! U
    ensures Degrees(adj, S + U) == Degrees(adj, S) + Degrees(adj, U)
    decreases |U|
  {
    if U == {} {
      assert S + U == S;
    } else {
      var u :| u in U;
      assert forall w :: w in U ==> w in S + U;
      DegreesSplit(adj, U, u);
      DegreesSplit(adj, S + U, u);
      assert S + U - {u} == S + (U - {u});
      DegreesUnion(adj, S, U - {u});
    }
  }

  // ---------- The program ----------

  ghost function Marked(visit: seq<int>): (s: set<nat>)
    ensures forall u: nat :: u in s <==> u < |visit| && visit[u] == 1
  {
    set u: nat | u < |visit| && visit[u] == 1
  }

  /** What a call has settled: the vertices it marked are reachable and their rows lead to marks. */
  ghost predicate Explored(adj: seq<set<nat>>, vertex: nat, before: set<nat>, after: set<nat>) {
    && before <= after
    && forall u :: u in after - before ==> u < |adj| && Reachable(adj, vertex, u) && adj[u] <= after
  }

  predicate Flags(visit: seq<int>) {
    forall i :: 0 <= i < |visit| ==> visit[i] == 0 || visit[i] == 1
  }

  /** Marks what can be reached through unmarked vertices. The count it returns is the number of
      row entries it followed less the number of vertices it newly marked, plus one. */
  method DfsMark(m: array2<int>, visit: array<int>, vertex: nat) returns (count: int)
    requires Square(m) && visit.Length == m.Length0 && vertex < m.Length0 && Flags(visit[..])
    modifies visit
    ensures Flags(visit[..]) && vertex in Marked(visit[..])
    ensures Explored(Rows(m), vertex, old(Marked(visit[..])), Marked(visit[..]))
    ensures Counted(Rows(m), Marked(visit[..]) - old(Marked(visit[..])), count)
    decreases m.Length0 - |Marked(visit[..])|
  {
    ghost var adj, before := Rows(m), Marked(visit[..]);
    count := 0;
    if visit[vertex] == 1 {
      assert before - before == {};
      return 1;
    }
    visit[vertex] := 1;
    ghost var now := Marked(visit[..]);
    assert now == before + {vertex};
    Fewer(now, Vertices(m.Length0));
    ghost var seen: set<nat> := {};
    LoopStart(adj, vertex, before);
    for x := 0 to m.Length0
      invariant Rows(m) == adj && now == Marked(visit[..]) && Flags(visit[..])
      invariant before + {vertex} <= now
      invariant LoopReach(adj, vertex, before, now, seen, x) && LoopCount(adj, vertex, before, now, seen, count)
    {
      if m[vertex, x] <= 0 || x == vertex { StepSkip(adj, vertex, before, now, seen, x); }
      if x == vertex {
        continue;
      }
      if m[vertex, x] > 0 {
        ghost var was := now;
        Fewer(before + {vertex}, was);
        Fewer(was, Vertices(m.Length0));
        var c := DfsMark(m, visit, x);
        now := Marked(visit[..]);
        StepReach(adj, vertex, before, was, now, seen, x);
        StepCount(adj, vertex, before, was, now, seen, x, count, c);
        seen := seen + {x};
        count := count + c;
      }
    }
    LoopEnd(adj, vertex, before, now, seen, count);
  }

  ghost predicate Counted(adj: seq<set<nat>>, marked: set<nat>, count: int) {
    && (forall u :: u in marked ==> u < |adj|)
    && count == Degrees(adj, marked) - |marked| + 1 >= 0
  }

  /** In the loop over vertex's row, with the entries `seen` below k followed. */
  ghost predicate LoopReach(adj: seq<set<nat>>, vertex: nat, before: set<nat>, now: set<nat>, seen: set<nat>, k: nat) {
    && vertex < |adj| && vertex !in before && vertex in now && before <= now && seen <= now
    && (forall u :: u in now - before ==> u < |adj| && Reachable(adj, vertex, u) && (u != vertex ==> adj[u] <= now))
    && (forall u :: u in seen <==> u in adj[vertex] && u < k)
  }

  ghost predicate LoopCount(adj: seq<set<nat>>, vertex: nat, before: set<nat>, now: set<nat>, seen: set<nat>,
                            count: int) {
    && (forall u :: u in now - before - {vertex} ==> u < |adj|)
    && count == Degrees(adj, now - before - {vertex}) + |seen| - |now - before| + 1 >= 0
  }

  lemma LoopStart(adj: seq<set<nat>>, vertex: nat, before: set<nat>)
    requires vertex < |adj| && vertex !in before
    ensures LoopReach(adj, vertex, before, before + {vertex}, {}, 0)
    ensures LoopCount(adj, vertex, before, before + {vertex}, {}, 0)
  {
    ReachableRefl(adj, vertex);
    assert before + {vertex} - before == {vertex};
    assert before + {vertex} - before - {vertex} == {};
  }

  lemma StepSkip(adj: seq<set<nat>>, vertex: nat, before: set<nat>, now: set<nat>, seen: set<nat>, x: nat)
    requires LoopReach(adj, vertex, before, now, seen, x) && x !in adj[vertex]
    ensures LoopReach(adj, vertex, before, now, seen, x + 1)
  {
    forall u ensures u in seen <==> u in adj[vertex] && u < x + 1 {}
  }

  lemma StepReach(adj: seq<set<nat>>, vertex: nat, before: set<nat>, was: set<nat>, now: set<nat>, seen: set<nat>,
                  x: nat)
    requires LoopReach(adj, vertex, before, was, seen, x)
    requires x in adj[vertex] && x in now && Explored(adj, x, was, now)
    ensures LoopReach(adj, vertex, before, now, seen + {x}, x + 1)
  {
    forall u | u in now - before
      ensures u < |adj| && Reachable(adj, vertex, u) && (u != vertex ==> adj[u] <= now)
    {
      if u in was {
        assert u in was - before;
      } else {
        assert u in now - was;
        ReachableStep(adj, vertex, x, u);
      }
    }
  }

  lemma StepCount(adj: seq<set<nat>>, vertex: nat, before: set<nat>, was: set<nat>, now: set<nat>, seen: set<nat>,
                  x: nat, count: int, c: int)
    requires LoopCount(adj, vertex, before, was, seen, count) && x !in seen
    requires before + {vertex} <= was <= now && Counted(adj, now - was, c)
    ensures LoopCount(adj, vertex, before, now, seen + {x}, count + c)
  {
    var olds, news, all := was - before - {vertex}, now - was, was - before;
    assert now - before - {vertex} == olds + news && now - before == all + news;
    UnionSize(all, news);
    UnionSize(seen, {x});
    DegreesUnion(adj, olds, news);
  }

  lemma UnionSize(a: set<nat>, b: set<nat>)
    requires a !! b
    ensures |a + b| == |a| + |b|
  {
  }

  lemma LoopEnd(adj: seq<set<nat>>, vertex: nat, before: set<nat>, now: set<nat>, seen: set<nat>, count: int)
    requires LoopReach(adj, vertex, before, now, seen, |adj|) && LoopCount(adj, vertex, before, now, seen, count)
    requires forall u :: u in adj[vertex] ==> u < |adj|
    ensures Explored(adj, vertex, before, now) && Counted(adj, now - before, count)
  {
    assert seen == adj[vertex];
    DegreesSplit(adj, now - before, vertex);
  }

  ghost predicate AllIn(S: set<nat>, n: nat) {
    forall w: nat :: w < n ==> w in S
  }

  ghost predicate ReachesAll(adj: seq<set<nat>>, start: nat) {
    forall w: nat :: w < |adj| ==> Reachable(adj, start, w)
  }

  /** Returns 1 exactly when every vertex can be reached from vertex 0; then the matrix has at
      least one entry fewer than it has vertices. */
  method IsConnected(m: array2<int>) returns (result: int)
    requires Square(m) && m.Length0 > 0
    ensures result == 1 <==> ReachesAll(Rows(m), 0)
    ensures result == 0 || result == 1
    ensures result == 1 ==> Degrees(Rows(m), Vertices(m.Length0)) >= m.Length0 - 1
  {
    var visit := new int[m.Length0](_ => 0);
    assert Marked(visit[..]) == {};
    var count := DfsMark(m, visit, 0);
    MarkedFromZero(Rows(m), Marked(visit[..]), count);
    result := AllMarked(visit);
  }

  lemma MarkedFromZero(adj: seq<set<nat>>, S: set<nat>, count: int)
    requires 0 in S && Explored(adj, 0, {}, S) && Counted(adj, S - {}, count)
    ensures AllIn(S, |adj|) <==> ReachesAll(adj, 0)
    ensures AllIn(S, |adj|) ==> Degrees(adj, Vertices(|adj|)) >= |adj| - 1
  {
    assert S - {} == S;
    ReachedMarked(adj, S);
    if AllIn(S, |adj|) {
      assert S == Vertices(|adj|);
    }
  }

  /** The loop at the end of the test. */
  method AllMarked(visit: array<int>) returns (result: int)
    requires Flags(visit[..])
    ensures result == 0 || result == 1
    ensures result == 1 <==> AllIn(Marked(visit[..]), visit.Length)
  {
    for x := 0 to visit.Length
      invariant AllIn(Marked(visit[..]), x)
    {
      assert x in Marked(visit[..]) <==> visit[..][x] == 1;
      if visit[x] == 0 {
        return 0;
      }
    }
    return 1;
  }

  lemma ReachedMarked(adj: seq<set<nat>>, S: set<nat>)
    requires 0 in S && Explored(adj, 0, {}, S)
    ensures forall w :: w in S <==> Reachable(adj, 0, w)
  {
    assert S - {} == S;
    forall w | Reachable(adj, 0, w) ensures w in S {
      var p :| Route(adj, 0, p, w);
      ClosedHolds(adj, S, 0, p, w);
    }
  }
}
