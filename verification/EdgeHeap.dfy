/** The binary heap of spanningtree/prim.c. Slot 0 is not an edge: its x field counts the edges,
    which sit in slots 1..count with the lightest in slot 1. */
module EdgeHeap {
  import opened Graphs
  import opened EdgeSort

  datatype Option<T> = None | Some(value: T)

  /** The edge in slot i is at least as heavy as the one in its parent slot. */
  ghost predicate Link(s: seq<Edge>, i: int)
    requires 2 <= i < |s|
  {
    s[i / 2].weight <= s[i].weight
  }

  /** Every link from slots 2..n up holds, slot x's own excepted (there is no exception when x is 1);
      x's children are no lighter than x's parent. */
  ghost predicate OrderedBut(s: seq<Edge>, n: int, x: int) {
    && 0 <= n < |s|
    && (forall i {:trigger Link(s, i)} :: 2 <= i <= n && i != x ==> Link(s, i))
    && ChildrenFit(s, n, x)
  }

  /** Every link holds but those between slot x and its children. */
  ghost predicate OrderedBelow(s: seq<Edge>, n: int, x: int) {
    && 0 <= n < |s|
    && (forall i {:trigger Link(s, i)} :: 2 <= i <= n && i / 2 != x ==> Link(s, i))
    && ChildrenFit(s, n, x)
  }

  ghost predicate ChildrenFit(s: seq<Edge>, n: int, x: int)
    requires n < |s|
  {
    forall i {:trigger Link(s, i)} :: 2 <= i <= n && i / 2 == x > 1 ==> s[x / 2].weight <= s[i].weight
  }

  ghost predicate Ordered(s: seq<Edge>, n: int) {
    0 <= n < |s| && forall i {:trigger Link(s, i)} :: 2 <= i <= n ==> Link(s, i)
  }

  ghost function Slots(s: seq<Edge>, n: int): multiset<Edge>
    requires 0 <= n < |s|
  {
    multiset(s[1..n + 1])
  }

  /** The root of an ordered heap is a minimum. */
  lemma {:induction false} RootIsLightest(s: seq<Edge>, n: int, k: int)
    requires Ordered(s, n) && 1 <= k <= n
    ensures s[1].weight <= s[k].weight
    decreases k
  {
    if k > 1 {
      assert Link(s, k);
      RootIsLightest(s, n, k / 2);
    }
  }

  lemma RootLightestOfAll(s: seq<Edge>, n: int)
    requires Ordered(s, n)
    ensures forall f :: f in Slots(s, n) ==> s[1].weight <= f.weight
  {
    forall f | f in Slots(s, n)
      ensures s[1].weight <= f.weight
    {
      assert f in s[1..n + 1];
      var k :| 0 <= k < |s[1..n + 1]| && s[1..n + 1][k] == f;
      RootIsLightest(s, n, k + 1);
    }
  }

  /** Swapping slot i with its lighter child moves the broken link down to that child. */
  lemma SiftDown(s: seq<Edge>, n: int, i: int, min: int)
    requires OrderedBelow(s, n, i) && 1 <= i && (min == 2 * i || min == 2 * i + 1) && min <= n
    requires s[min].weight < s[i].weight
    requires forall c :: 2 <= c <= n && c / 2 == i ==> s[min].weight <= s[c].weight
    ensures OrderedBelow(s[i := s[min]][min := s[i]], n, min)
  {
    var t := s[i := s[min]][min := s[i]];
    assert min / 2 == i && !Link(s, min);
    forall c | 2 <= c <= n && c / 2 != min
      ensures Link(t, c)
    {
      if c / 2 != i { assert Link(s, c); }
    }
    forall c | 2 <= c <= n && c / 2 == min > 1
      ensures t[min / 2].weight <= t[c].weight
    {
      assert Link(s, c);
    }
  }

  /** Swapping slot x with its heavier parent moves the broken link up to the parent. */
  lemma SiftUp(s: seq<Edge>, n: int, x: int)
    requires OrderedBut(s, n, x) && 2 <= x <= n && s[x].weight < s[x / 2].weight
    ensures OrderedBut(s[x := s[x / 2]][x / 2 := s[x]], n, x / 2)
  {
    var t := s[x := s[x / 2]][x / 2 := s[x]];
    forall i | 2 <= i <= n && i != x / 2
      ensures Link(t, i)
    {
      if i != x { assert Link(s, i); }
    }
    if x / 2 > 1 { assert Link(s, x / 2); }
    forall i | 2 <= i <= n && i / 2 == x / 2 > 1
      ensures t[x / 2 / 2].weight <= t[i].weight
    {
      if i != x { assert Link(s, i); }
    }
  }

  /** An edge put behind the last one breaks at most its own link. */
  lemma Appended(s: seq<Edge>, n: int, t: seq<Edge>)
    requires Ordered(s, n) && |t| == |s| && n + 1 < |s| && forall k :: 1 <= k <= n ==> t[k] == s[k]
    ensures OrderedBut(t, n + 1, n + 1)
  {
    forall i | 2 <= i <= n ensures Link(t, i) { assert Link(s, i); }
  }

  /** Which edge moves to slot i when the links below it are restored: its own unless a child is lighter, then
      the lighter child, of two equally light ones the one in the odd slot. */
  function Lighter(s: seq<Edge>, n: nat, i: nat): Edge
    requires 1 <= i <= n < |s|
  {
    var r, l := 2 * i, 2 * i + 1;
    if l <= n && s[l].weight < s[i].weight && s[l].weight <= s[r].weight then s[l]
    else if r <= n && s[r].weight < s[i].weight then s[r]
    else s[i]
  }

  lemma LighterSame(s: seq<Edge>, t: seq<Edge>, n: nat)
    requires 1 <= n < |s| == |t| && forall k :: 1 <= k < |s| ==> s[k] == t[k]
    ensures Lighter(s, n, 1) == Lighter(t, n, 1)
  {
  }

  class Heap {
    var items: array<Edge>

    ghost predicate Valid()
      reads this, items
    {
      items.Length > 0 && Ordered(items[..], items[0].x)
    }

    ghost function Contents(): multiset<Edge>
      requires Valid()
      reads this, items
    {
      Slots(items[..], items[0].x)
    }

    constructor (size: nat)
      requires size > 0
      ensures Valid() && fresh(items) && items.Length == size && Contents() == multiset{}
    {
      items := new Edge[size](_ => Edge(0, 0, 0));
    }

    /** Adds an edge; there must be a free slot. */
    method Enqueue(e: Edge)
      requires Valid() && |Contents()| + 1 < items.Length
      modifies items
      ensures Valid() && Contents() == old(Contents()) + multiset{e}
      ensures items[0].x == old(items[0].x) + 1
      ensures items[1] == if old(items[0].x) > 0 && old(items[1]).weight <= e.weight then old(items[1]) else e
    {
      ghost var was, n := items[..], items[0].x;
      items[items[0].x + 1] := e;
      items[0] := items[0].(x := items[0].x + 1);
      assert items[1..n + 2] == was[1..n + 1] + [e];
      Appended(was, n, items[..]);
      BuildHeap();
    }

    /** Moves the last edge up to where it belongs. */
    method BuildHeap()
      requires items.Length > 0 && OrderedBut(items[..], items[0].x, items[0].x)
      modifies items
      ensures items[0] == old(items[0]) && Valid()
      ensures Contents() == old(Slots(items[..], items[0].x))
      ensures old(items[0].x) > 0 ==>
        items[1] == old(if items[1].weight <= items[items[0].x].weight then items[1] else items[items[0].x])
    {
      var x := items[0].x;
      ghost var was, n := items[..], items[0].x;
      while x > 1
        invariant 0 <= x <= n && (n > 0 ==> x > 0) && items[0] == was[0]
        invariant OrderedBut(items[..], n, x)
        invariant Slots(items[..], n) == Slots(was, n)
        invariant x > 0 ==> items[x] == was[n] && (x > 1 ==> items[1] == was[1])
        invariant x == 1 < n ==> was[n].weight < was[1].weight
      {
        if items[x].weight >= items[x / 2].weight {
          break;
        }
        SiftUp(items[..], n, x);
        SwapSlots(x, x / 2, n);
        x := x / 2;
      }
      if x > 1 { RootIsLightest(items[..], n, x); }
    }

    method SwapSlots(i: nat, j: nat, ghost n: nat)
      requires 1 <= i <= n < items.Length && 1 <= j <= n
      modifies items
      ensures items[..] == old(items[..])[i := old(items[j])][j := old(items[i])]
      ensures Slots(items[..], n) == old(Slots(items[..], n))
    {
      ghost var was := items[..];
      Swap(items, i, j);
      assert items[..] == was[i := was[j]][j := was[i]];
      RangeKept(was, items[..], 1, n);
    }

    /** The slot whose edge belongs in slot i. */
    method Least(i: nat) returns (min: nat)
      requires items.Length > 0 && 1 <= i && 0 <= items[0].x < items.Length
      ensures i > items[0].x ==> min == i
      ensures i <= items[0].x ==> i <= min <= items[0].x && items[min] == Lighter(items[..], items[0].x, i)
      ensures min != i ==> (min == 2 * i || min == 2 * i + 1) && items[min].weight < items[i].weight
      ensures forall c :: 2 <= c <= items[0].x && c / 2 == i ==> items[min].weight <= items[c].weight
    {
      var size := items[0].x;
      var r := i * 2;
      var l := r + 1;
      min := i;
      if l <= size && items[l].weight < items[i].weight {
        min := l;
      }
      if r <= size && items[r].weight < items[min].weight {
        min := r;
      }
    }

    /** Moves the edge in slot i down to where it belongs. */
    method Heapify(i: nat)
      requires items.Length > 0 && 1 <= i && OrderedBelow(items[..], items[0].x, i)
      modifies items
      ensures items[0] == old(items[0]) && Valid()
      ensures Contents() == old(Slots(items[..], items[0].x))
      ensures i <= items[0].x ==> items[i] == Lighter(old(items[..]), items[0].x, i)
      ensures forall k {:trigger items[k]} :: 0 <= k < i && k < items.Length ==> items[k] == old(items[k])
      decreases items[0].x - i
    {
      var min := Least(i);
      if min != i {
        SiftDown(items[..], items[0].x, i, min);
        SwapSlots(i, min, items[0].x);
        Heapify(min);
      }
    }

    /** Takes a lightest edge out, or None when there is none. */
    method Dequeue() returns (t: Option<Edge>)
      requires Valid()
      modifies items
      ensures Valid()
      ensures t.None? <==> old(items[0].x) == 0
      ensures t.None? ==> old(Contents()) == multiset{} && items[..] == old(items[..])
      ensures t.Some? ==> items[0].x == old(items[0].x) - 1
      ensures t.Some? ==>
        && t.value in old(Contents())
        && (forall f :: f in old(Contents()) ==> t.value.weight <= f.weight)
        && Contents() == old(Contents()) - multiset{t.value}
      ensures t.Some? ==> t.value == old(items[1])
      ensures items[0].x > 0 ==> items[1] == Lighter(old(items[..])[1 := old(items[items[0].x])], items[0].x, 1)
    {
      if items[0].x == 0 {
        return None;
      }
      ghost var was, n := items[..], items[0].x;
      t := Some(items[1]);
      RootLightestOfAll(was, n);
      items[1] := items[items[0].x];
      items[0] := items[0].(x := items[0].x - 1);
      TakeRoot(was, items[..], n);
      if n > 1 { LighterSame(was[1 := was[n]], items[..], n - 1); }
      Heapify(1);
    }

    /** One iteration of Drain: appends a lightest edge of those held. */
    method DrainOne(out: seq<Edge>, ghost held: multiset<Edge>) returns (out': seq<Edge>, ghost held': multiset<Edge>)
      requires Valid() && held == Contents() && items[0].x > 0 && Drained(out, held)
      modifies items
      ensures Valid() && held' == Contents() && items[0].x == old(items[0].x) - 1
      ensures Drained(out', held') && multiset(out') + held' == multiset(out) + held
    {
      var t := Dequeue();
      DrainStep(out, held, t.value);
      out', held' := out + [t.value], held - multiset{t.value};
    }

    /** Repeated dequeuing yields all edges in order of weight. */
    method Drain() returns (out: seq<Edge>)
      requires Valid()
      modifies items
      ensures Valid() && Contents() == multiset{}
      ensures multiset(out) == old(Contents()) && SortedRange(out, 0, |out| - 1)
    {
      out := [];
      ghost var all, held := Contents(), Contents();
      while items[0].x > 0
        invariant Valid() && held == Contents()
        invariant multiset(out) + held == all
        invariant Drained(out, held)
        decreases items[0].x
      {
        out, held := DrainOne(out, held);
      }
      assert items[1..1] == [];
    }
  }

  /** The edges out are in order and none is heavier than what is left. */
  ghost predicate Drained(out: seq<Edge>, rest: multiset<Edge>) {
    && SortedRange(out, 0, |out| - 1)
    && forall i, f :: 0 <= i < |out| && f in rest ==> out[i].weight <= f.weight
  }

  lemma DrainStep(out: seq<Edge>, rest: multiset<Edge>, t: Edge)
    requires Drained(out, rest) && t in rest && forall f :: f in rest ==> t.weight <= f.weight
    ensures Drained(out + [t], rest - multiset{t})
  {
  }

  lemma TakeRoot(was: seq<Edge>, now: seq<Edge>, n: nat)
    requires Ordered(was, n) && n > 0 && |now| == |was|
    requires forall k :: 2 <= k < |was| ==> now[k] == was[k]
    requires now[1] == was[n]
    ensures OrderedBelow(now, n - 1, 1)
    ensures Slots(now, n - 1) == Slots(was, n) - multiset{was[1]}
  {
    if n == 1 {
      assert was[1..2] == [was[1]];
      assert now[1..1] == [];
    } else {
      assert was[1..n + 1] == [was[1]] + was[2..n] + [was[n]];
      assert now[1..n] == [was[n]] + was[2..n];
      forall i | 2 <= i <= n - 1 && i / 2 != 1 ensures Link(now, i) { assert Link(was, i); }
    }
  }
}
