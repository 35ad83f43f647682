/** The in-place quicksort of spanningtree/kruskal.c over an inclusive range of an edge array. */
module EdgeSort {
  import opened Graphs

  /** b is a with only the entries lo..hi (inclusive; none when hi < lo) rearranged. */
  ghost predicate Rearranges(a: seq<Edge>, b: seq<Edge>, lo: int, hi: int) {
    && |a| == |b| && multiset(a) == multiset(b)
    && forall k {:trigger b[k]} :: 0 <= k < |a| && !(lo <= k <= hi) ==> a[k] == b[k]
  }

  predicate SortedRange(a: seq<Edge>, lo: int, hi: int) {
    forall i, j :: 0 <= i < |a| && 0 <= j < |a| && lo <= i <= j <= hi ==> a[i].weight <= a[j].weight
  }

  predicate AtMost(a: seq<Edge>, lo: int, hi: int, w: int) {
    forall i :: 0 <= i < |a| && lo <= i <= hi ==> a[i].weight <= w
  }

  predicate Above(a: seq<Edge>, lo: int, hi: int, w: int) {
    forall i :: 0 <= i < |a| && lo <= i <= hi ==> a[i].weight > w
  }

  lemma MiddleMultiset(p: seq<Edge>, m: seq<Edge>, r: seq<Edge>, q: seq<Edge>)
    requires multiset(p + m + q) == multiset(p + r + q)
    ensures multiset(m) == multiset(r)
  {
    assert multiset(p + m + q) == multiset(p) + multiset(m) + multiset(q);
    assert multiset(p + r + q) == multiset(p) + multiset(r) + multiset(q);
    forall e ensures multiset(m)[e] == multiset(r)[e] {
      assert multiset(p + m + q)[e] == multiset(p)[e] + multiset(m)[e] + multiset(q)[e];
      assert multiset(p + r + q)[e] == multiset(p)[e] + multiset(r)[e] + multiset(q)[e];
    }
  }

  /** A rearranged range holds the same edges. */
  lemma RangeKept(a: seq<Edge>, b: seq<Edge>, lo: int, hi: int)
    requires Rearranges(a, b, lo, hi) && 0 <= lo <= hi + 1 <= |a|
    ensures multiset(a[lo..hi + 1]) == multiset(b[lo..hi + 1])
  {
    assert a == a[..lo] + a[lo..hi + 1] + a[hi + 1..];
    assert b == a[..lo] + b[lo..hi + 1] + a[hi + 1..];
    MiddleMultiset(a[..lo], a[lo..hi + 1], b[lo..hi + 1], a[hi + 1..]);
  }

  lemma RearrangesMember(a: seq<Edge>, b: seq<Edge>, lo: int, hi: int, k: int) returns (i: int)
    requires Rearranges(a, b, lo, hi) && 0 <= lo <= k <= hi < |a|
    ensures lo <= i <= hi && a[i] == b[k]
  {
    RangeKept(a, b, lo, hi);
    assert b[k] == b[lo..hi + 1][k - lo];
    assert b[k] in multiset(a[lo..hi + 1]);
    var m :| 0 <= m < |a[lo..hi + 1]| && a[lo..hi + 1][m] == b[k];
    i := lo + m;
  }

  /** So bounds on the weights of a range survive rearranging it. */
  lemma BoundsSurvive(a: seq<Edge>, b: seq<Edge>, lo: int, hi: int, w: int)
    requires Rearranges(a, b, lo, hi) && 0 <= lo && hi < |a|
    ensures AtMost(a, lo, hi, w) ==> AtMost(b, lo, hi, w)
    ensures Above(a, lo, hi, w) ==> Above(b, lo, hi, w)
  {
    forall k | 0 <= k < |b| && lo <= k <= hi
      ensures AtMost(a, lo, hi, w) ==> b[k].weight <= w
      ensures Above(a, lo, hi, w) ==> b[k].weight > w
    {
      var i := RearrangesMember(a, b, lo, hi, k);
    }
  }

  function Swapped(s: seq<Edge>, i: nat, j: nat): (t: seq<Edge>)
    requires i < |s| && j < |s|
    ensures |t| == |s| && multiset(t) == multiset(s)
  {
    s[i := s[j]][j := s[i]]
  }

  method Swap(edges: array<Edge>, i: nat, j: nat)
    requires i < edges.Length && j < edges.Length
    modifies edges
    ensures edges[..] == Swapped(old(edges[..]), i, j)
  {
    edges[i], edges[j] := edges[j], edges[i];
  }

  // ---------- Where the sort puts an edge ----------

  /** Those of the first n edges that are heavier than w, in order. */
  function Heavier(q: seq<Edge>, n: nat, w: int): (h: seq<Edge>)
    requires n <= |q|
    ensures |h| <= n
  {
    if n == 0 then [] else Heavier(q, n - 1, w) + if q[n - 1].weight > w then [q[n - 1]] else []
  }

  lemma {:induction false} HeavierThan(q: seq<Edge>, n: nat, w: int)
    requires n <= |q|
    ensures forall k :: 0 <= k < |Heavier(q, n, w)| ==> Heavier(q, n, w)[k].weight > w
  {
    if n > 0 { HeavierThan(q, n - 1, w); }
  }

  /** How many edges from position i on are not heavier than w. */
  function NotHeavier(q: seq<Edge>, i: nat, w: int): (k: nat)
    requires i <= |q|
    ensures k <= |q| - i
    decreases |q| - i
  {
    if i == |q| then 0 else NotHeavier(q, i + 1, w) + if q[i].weight <= w then 1 else 0
  }

  /** The edges heavier than the first. */
  function Heavies(q: seq<Edge>): seq<Edge>
    requires q != []
  {
    Heavier(q, |q|, q[0].weight)
  }

  /** What the partition of q around its first edge leaves at position i, one of as many last positions as
      there are edges heavier than the first: a heavier edge stays, and the others are replaced from the back
      by the heavier edges from the front. */
  function Placed(q: seq<Edge>, i: nat): (e: Edge)
    requires q != [] && |q| - |Heavies(q)| <= i < |q|
    ensures e.weight > q[0].weight
  {
    HeavierThan(q, |q|, q[0].weight);
    if q[i].weight > q[0].weight then q[i] else Heavies(q)[NotHeavier(q, i, q[0].weight) - 1]
  }

  function RightSide(q: seq<Edge>): (r: seq<Edge>)
    requires q != []
    ensures |r| == |Heavies(q)| < |q|
    ensures forall p :: 0 <= p < |r| ==> r[p] == Placed(q, |q| - |r| + p)
  {
    LightFirst(q, |q|);
    var h := |Heavies(q)|;
    seq(h, p requires 0 <= p < h => Placed(q, |q| - h + p))
  }

  lemma {:induction false} LightFirst(q: seq<Edge>, n: nat)
    requires 0 < n <= |q|
    ensures |Heavier(q, n, q[0].weight)| < n
  {
    if n > 1 { LightFirst(q, n - 1); }
  }

  /** Which of the edges q the sort leaves last: the first one if nothing is heavier, else that of the edges
      right of it. */
  function LastSorted(q: seq<Edge>): Edge
    requires q != []
    decreases |q|
  {
    if Heavies(q) == [] then q[0] else LastSorted(RightSide(q))
  }

  lemma LastAlone(q: seq<Edge>)
    requires |q| == 1
    ensures LastSorted(q) == q[0]
  {
    assert Heavies(q) == [];
  }

  lemma {:induction false} HeavierPrefix(q: seq<Edge>, a: nat, b: nat, w: int)
    requires a <= b <= |q|
    ensures |Heavier(q, a, w)| <= |Heavier(q, b, w)|
    ensures forall k :: 0 <= k < |Heavier(q, a, w)| ==> Heavier(q, a, w)[k] == Heavier(q, b, w)[k]
  {
    if a < b { HeavierPrefix(q, a, b - 1, w); }
  }

  lemma {:induction false} HeavierSame(q: seq<Edge>, a: nat, b: nat, w: int)
    requires a <= b <= |q| && forall i :: a <= i < b ==> q[i].weight <= w
    ensures Heavier(q, a, w) == Heavier(q, b, w)
  {
    if a < b { HeavierSame(q, a, b - 1, w); }
  }

  lemma {:induction false} NotHeavierSame(q: seq<Edge>, a: nat, b: nat, w: int)
    requires a <= b <= |q| && forall i :: a <= i < b ==> q[i].weight > w
    ensures NotHeavier(q, a, w) == NotHeavier(q, b, w)
    decreases b - a
  {
    if a < b { NotHeavierSame(q, a + 1, b, w); }
  }

  lemma {:induction false} CountSplit(q: seq<Edge>, b: nat, w: int)
    requires b <= |q|
    ensures |Heavier(q, |q|, w)| == |Heavier(q, b, w)| + |q| - b - NotHeavier(q, b, w)
    decreases |q| - b
  {
    if b < |q| { CountSplit(q, b + 1, w); }
  }

  /** How far the partition of q has come, now p: nothing between a and b has moved, what is left of a is not
      heavier than the first, what is right of b is in place, one swap for each edge that had to leave. */
  ghost predicate Settled(q: seq<Edge>, p: seq<Edge>, a: nat, b: int) {
    && |q| == |p| > 0 && p[0] == q[0] && 0 <= a <= b + 1 <= |q|
    && (forall i :: 0 <= i < a ==> p[i].weight <= q[0].weight)
    && (forall i {:trigger p[i]} :: a <= i <= b ==> p[i] == q[i])
    && (forall i {:trigger p[i]} :: b < i < |q| ==> |q| - |Heavies(q)| <= i && p[i] == Placed(q, i))
    && |Heavier(q, a, q[0].weight)| == NotHeavier(q, b + 1, q[0].weight)
  }

  /** Where the scans stop. */
  ghost predicate Stopped(p: seq<Edge>, l: nat, g: nat) {
    && l < |p| && g < |p|
    && (forall i :: 0 <= i < l ==> p[i].weight <= p[0].weight)
    && (forall i :: g < i < |p| ==> p[i].weight > p[0].weight)
    && (l < |p| - 1 ==> p[l].weight > p[0].weight) && p[g].weight <= p[0].weight
  }

  /** Moving a and b up to the scans. */
  lemma Extended(q: seq<Edge>, p: seq<Edge>, a: nat, b: int, l: nat, g: nat)
    requires Settled(q, p, a, b) && Stopped(p, l, g)
    ensures a <= g + 1 <= b + 1
    ensures g > l ==> a <= l && Settled(q, p, l, g)
    ensures g <= l ==> Settled(q, p, g + 1, g)
  {
    assert a == 0 || p[a - 1].weight <= q[0].weight;
    if g > l {
      assert p[l].weight > p[0].weight;
      Narrowed(q, p, a, b, l, g);
    } else {
      Narrowed(q, p, a, b, g + 1, g);
    }
  }

  lemma Narrowed(q: seq<Edge>, p: seq<Edge>, a: nat, b: int, a': nat, b': int)
    requires Settled(q, p, a, b) && a <= a' <= b' + 1 <= b + 1
    requires forall i :: a <= i < a' ==> p[i].weight <= q[0].weight
    requires forall i :: b' < i <= b ==> p[i].weight > q[0].weight
    ensures Settled(q, p, a', b')
  {
    var w := q[0].weight;
    forall i | a <= i < a' ensures q[i].weight <= w { assert p[i] == q[i]; }
    forall i | b' < i <= b ensures p[i] == q[i] && q[i].weight > w {}
    HeavierSame(q, a, a', w);
    NotHeavierSame(q, b' + 1, b + 1, w);
    CountSplit(q, b' + 1, w);
    HeavierPrefix(q, a', b' + 1, w);
    forall i | b' < i < |q| ensures |q| - |Heavies(q)| <= i && p[i] == Placed(q, i) {}
  }

  /** The edge swapped to position g is the one that belongs there. */
  lemma SwapPlaces(q: seq<Edge>, l: nat, g: nat)
    requires l < g < |q| && q[l].weight > q[0].weight >= q[g].weight
    requires |Heavier(q, l, q[0].weight)| == NotHeavier(q, g + 1, q[0].weight)
    ensures |q| - |Heavies(q)| <= g && Placed(q, g) == q[l]
    ensures |Heavier(q, l + 1, q[0].weight)| == NotHeavier(q, g, q[0].weight)
  {
    var w := q[0].weight;
    CountSplit(q, g, w);
    HeavierPrefix(q, l + 1, g, w);
    HeavierPrefix(q, l + 1, |q|, w);
    assert Heavier(q, l + 1, w) == Heavier(q, l, w) + [q[l]];
    assert Heavier(q, l + 1, w)[|Heavier(q, l, w)|] == q[l];
  }

  /** A round with a swap. */
  lemma SwapSettles(q: seq<Edge>, p: seq<Edge>, a: nat, b: int, l: nat, g: nat)
    requires Settled(q, p, a, b) && Stopped(p, l, g) && l < g
    ensures Settled(q, Swapped(p, l, g), l + 1, g - 1)
  {
    Extended(q, p, a, b, l, g);
    assert p[l] == q[l] && p[g] == q[g];
    SwapPlaces(q, l, g);
  }

  /** When the scans have met, the right side is that of the specification. */
  lemma Met(q: seq<Edge>, p: seq<Edge>, a: nat, b: int, l: nat, g: nat)
    requires Settled(q, p, a, b) && Stopped(p, l, g) && g <= l
    ensures p[g + 1..] == RightSide(q)
  {
    Extended(q, p, a, b, l, g);
    CountSplit(q, g + 1, q[0].weight);
    var r := RightSide(q);
    assert |r| == |q| - (g + 1);
    forall k | 0 <= k < |r| ensures p[g + 1..][k] == r[k] {
      assert p[g + 1 + k] == Placed(q, g + 1 + k);
    }
  }

  // ---------- The program ----------

  /** The loop over lt. */
  method ScanUp(edges: array<Edge>, start: nat, end: nat, from: nat) returns (lt: nat)
    requires start <= from <= end < edges.Length
    ensures from <= lt <= end && forall i :: from <= i < lt ==> edges[i].weight <= edges[start].weight
    ensures lt < end ==> edges[lt].weight > edges[start].weight
    ensures from < end && edges[from].weight <= edges[start].weight ==> from < lt
  {
    lt := from;
    while edges[lt].weight <= edges[start].weight && lt < end
      invariant from <= lt <= end && forall i :: from <= i < lt ==> edges[i].weight <= edges[start].weight
      decreases end - lt
    {
      lt := lt + 1;
    }
  }

  /** The loop over gt. */
  method ScanDown(edges: array<Edge>, start: nat, from: nat) returns (gt: nat)
    requires start <= from < edges.Length
    ensures start <= gt <= from && forall i :: gt < i <= from ==> edges[i].weight > edges[start].weight
    ensures edges[gt].weight <= edges[start].weight
  {
    gt := from;
    while edges[gt].weight > edges[start].weight && gt > start
      invariant start <= gt <= from && forall i :: gt < i <= from ==> edges[i].weight > edges[start].weight
      decreases gt - start
    {
      gt := gt - 1;
    }
  }

  /** The edges of the range. */
  ghost function Range(s: seq<Edge>, start: nat, end: nat): (q: seq<Edge>)
    requires start <= end < |s|
    ensures |q| == end - start + 1 && forall k :: 0 <= k < |q| ==> q[k] == s[start + k]
  {
    seq(end - start + 1, k requires 0 <= k <= end - start => s[start + k])
  }

  /** Where the scans stand, at lt and gt, in a partition that began with `was`. */
  ghost predicate Scanning(was: seq<Edge>, now: seq<Edge>, start: nat, end: nat, lt: nat, gt: nat) {
    && start <= lt <= end < |was| && start <= gt <= end && Rearranges(was, now, start, end)
    && now[start] == was[start]
    && AtMost(now, start, lt - 1, was[start].weight) && Above(now, gt + 1, end, was[start].weight)
  }

  /** What the two scans see. */
  ghost predicate Seen(now: seq<Edge>, start: nat, end: nat, lt: nat, gt: nat, l: nat, g: nat) {
    && start <= lt <= l <= end < |now| && start <= g <= gt <= end
    && AtMost(now, lt, l - 1, now[start].weight) && Above(now, g + 1, gt, now[start].weight)
    && now[g].weight <= now[start].weight && (l < end ==> now[l].weight > now[start].weight)
  }

  lemma ScansStop(was: seq<Edge>, now: seq<Edge>, start: nat, end: nat, lt: nat, gt: nat, l: nat, g: nat)
    requires Scanning(was, now, start, end, lt, gt) && Seen(now, start, end, lt, gt, l, g)
    ensures Scanning(was, now, start, end, l, g) && Stopped(Range(now, start, end), l - start, g - start)
    ensures g <= l ==> AtMost(now, start, g, was[start].weight)
    ensures l < g ==> Scanning(was, Swapped(now, l, g), start, end, l, g)
  {
  }

  /** A partition that began with `was` and has come to `now`: after its first round the last swap was at lt
      and gt. */
  ghost predicate Partial(was: seq<Edge>, now: seq<Edge>, start: nat, end: nat, lt: nat, gt: nat) {
    && Scanning(was, now, start, end, lt, gt) && lt < gt && now[lt].weight <= now[start].weight
    && if lt == start then Settled(Range(was, start, end), Range(now, start, end), 0, end - start)
       else Settled(Range(was, start, end), Range(now, start, end), lt - start + 1, gt - start - 1)
  }

  /** It has come to an end, with only the first edge still to be put between the two sides. */
  ghost predicate Parted(was: seq<Edge>, now: seq<Edge>, start: nat, end: nat, gt: nat) {
    && start <= gt <= end < |was| && Rearranges(was, now, start, end)
    && now[start] == was[start] && now[gt].weight <= now[start].weight
    && AtMost(now, start, gt, now[start].weight) && Above(now, gt + 1, end, now[start].weight)
    && now[gt + 1..end + 1] == RightSide(Range(was, start, end))
  }

  lemma RoundKeeps(was: seq<Edge>, now: seq<Edge>, start: nat, end: nat, lt: nat, gt: nat, l: nat, g: nat)
    requires Partial(was, now, start, end, lt, gt) && Seen(now, start, end, lt, gt, l, g)
    ensures g <= l ==> Parted(was, now, start, end, g)
    ensures l < g ==> lt < l && Partial(was, Swapped(now, l, g), start, end, l, g)
  {
    ScansStop(was, now, start, end, lt, gt, l, g);
    var a, b := if lt == start then 0 else lt - start + 1, if lt == start then end - start else gt - start - 1;
    if g <= l {
      RoundEnds(Range(was, start, end), now, start, end, a, b, l, g);
    } else {
      RoundSwaps(Range(was, start, end), now, start, end, a, b, l, g);
    }
  }

  lemma RoundEnds(q: seq<Edge>, now: seq<Edge>, start: nat, end: nat, a: nat, b: int, l: nat, g: nat)
    requires start <= g <= l <= end < |now| && Settled(q, Range(now, start, end), a, b)
    requires Stopped(Range(now, start, end), l - start, g - start)
    ensures now[g + 1..end + 1] == RightSide(q)
  {
    Met(q, Range(now, start, end), a, b, l - start, g - start);
    RangeEnd(now, start, end, g + 1);
  }

  lemma RoundSwaps(q: seq<Edge>, now: seq<Edge>, start: nat, end: nat, a: nat, b: int, l: nat, g: nat)
    requires start <= l < g <= end < |now| && Settled(q, Range(now, start, end), a, b)
    requires Stopped(Range(now, start, end), l - start, g - start)
    ensures Settled(q, Range(Swapped(now, l, g), start, end), l - start + 1, g - start - 1)
  {
    SwapSettles(q, Range(now, start, end), a, b, l - start, g - start);
    RangeSwapped(now, start, end, l, g);
  }

  lemma RangeSwapped(s: seq<Edge>, start: nat, end: nat, i: nat, j: nat)
    requires start <= i < j <= end < |s|
    ensures Range(Swapped(s, i, j), start, end) == Swapped(Range(s, start, end), i - start, j - start)
  {
  }

  lemma RangeEnd(s: seq<Edge>, start: nat, end: nat, i: nat)
    requires start <= i <= end + 1 <= |s| && start <= end
    ensures Range(s, start, end)[i - start..] == s[i..end + 1]
  {
  }

  /** Both scans, and a swap unless they have met. */
  method Round(edges: array<Edge>, start: nat, end: nat, lt: nat, gt: nat, ghost was: seq<Edge>)
    returns (l: nat, g: nat)
    requires start < end < edges.Length && Partial(was, edges[..], start, end, lt, gt)
    modifies edges
    ensures g <= l ==> Parted(was, edges[..], start, end, g)
    ensures l < g ==> lt < l && Partial(was, edges[..], start, end, l, g)
  {
    ghost var now := edges[..];
    l := ScanUp(edges, start, end, lt);
    g := ScanDown(edges, start, gt);
    RoundKeeps(was, now, start, end, lt, gt, l, g);
    if g > l {
      Swap(edges, l, g);
    }
  }

  /** The scans until they meet. */
  method Meet(edges: array<Edge>, start: nat, end: nat) returns (gt: nat)
    requires start < end < edges.Length
    modifies edges
    ensures Parted(old(edges[..]), edges[..], start, end, gt)
  {
    ghost var was := edges[..];
    gt := end;
    var lt: nat := start;
    while true
      invariant Partial(was, edges[..], start, end, lt, gt)
      decreases end - lt
    {
      lt, gt := Round(edges, start, end, lt, gt, was);
      if gt <= lt { break; }
    }
  }

  /** Partition around the first edge: what ends up left of it is no heavier, what ends up right of it is
      strictly heavier, in the order of RightSide. */
  ghost predicate Partitioned(was: seq<Edge>, now: seq<Edge>, start: nat, end: nat, gt: nat) {
    && start <= gt <= end < |was| && Rearranges(was, now, start, end) && now[gt] == was[start]
    && AtMost(now, start, gt, now[gt].weight) && Above(now, gt + 1, end, now[gt].weight)
    && now[gt + 1..end + 1] == RightSide(Range(was, start, end))
  }

  method QsortPartition(edges: array<Edge>, start: int, end: int) returns (gt: int)
    requires 0 <= start < end < edges.Length
    modifies edges
    ensures start <= gt <= end && Partitioned(old(edges[..]), edges[..], start, end, gt)
  {
    gt := Meet(edges, start, end);
    PivotBetween(old(edges[..]), edges[..], start, end, gt);
    Swap(edges, start, gt);
  }

  lemma PivotBetween(was: seq<Edge>, now: seq<Edge>, start: nat, end: nat, gt: nat)
    requires Parted(was, now, start, end, gt)
    ensures Partitioned(was, Swapped(now, start, gt), start, end, gt)
  {
    var t := Swapped(now, start, gt);
    assert t[gt + 1..end + 1] == now[gt + 1..end + 1];
  }

  /** The entries start..end are in order of weight, the edges there and everything outside are kept. The
      sort is not stable: LastSorted says which edge is last. */
  ghost predicate Sorts(was: seq<Edge>, now: seq<Edge>, start: int, end: int)
    requires start <= end ==> 0 <= start && end < |was|
  {
    && Rearranges(was, now, start, end) && SortedRange(now, start, end)
    && (start <= end ==> now[end] == LastSorted(Range(was, start, end)))
  }

  method DoQsort(edges: array<Edge>, start: int, end: int)
    requires start <= end ==> 0 <= start && end < edges.Length
    modifies edges
    ensures Sorts(old(edges[..]), edges[..], start, end)
    decreases end - start, 1
  {
    if start < end {
      var piv := QsortPartition(edges, start, end);
      ghost var s1 := edges[..];
      ghost var s2 := SortSides(edges, start, piv, end);
      SortedBoth(old(edges[..]), s1, s2, edges[..], start, piv, end);
    } else if start == end {
      LastAlone(Range(edges[..], start, end));
    }
  }

  /** The two recursive calls. */
  method SortSides(edges: array<Edge>, start: nat, piv: nat, end: nat) returns (ghost s2: seq<Edge>)
    requires start <= piv <= end < edges.Length && start < end
    modifies edges
    ensures |s2| == edges.Length
    ensures Sorts(old(edges[..]), s2, start, piv - 1) && Sorts(s2, edges[..], piv + 1, end)
    decreases end - start, 0
  {
    DoQsort(edges, start, piv - 1);
    s2 := edges[..];
    DoQsort(edges, piv + 1, end);
  }

  /** The range partitioned around piv, then its two sides sorted. */
  lemma SortedBoth(s0: seq<Edge>, s1: seq<Edge>, s2: seq<Edge>, s3: seq<Edge>, start: nat, piv: nat, end: nat)
    requires start < end && Partitioned(s0, s1, start, end, piv)
    requires Sorts(s1, s2, start, piv - 1) && Sorts(s2, s3, piv + 1, end)
    ensures Sorts(s0, s3, start, end)
  {
    SortedAround(s1, s2, s3, start, piv, end);
    LastOfBoth(s0, s1, s2, s3, start, piv, end);
  }

  lemma LastOfBoth(s0: seq<Edge>, s1: seq<Edge>, s2: seq<Edge>, s3: seq<Edge>, start: nat, piv: nat, end: nat)
    requires start < end && Partitioned(s0, s1, start, end, piv)
    requires Rearranges(s1, s2, start, piv - 1) && Sorts(s2, s3, piv + 1, end)
    ensures s3[end] == LastSorted(Range(s0, start, end))
  {
    var q := Range(s0, start, end);
    if piv < end {
      assert Range(s2, piv + 1, end) == RightSide(q);
    } else {
      assert RightSide(q) == [];
    }
  }

  /** When the first edge is a heaviest one, it is the one left last. */
  lemma FirstHeaviestLast(q: seq<Edge>)
    requires q != [] && AtMost(q, 0, |q| - 1, q[0].weight)
    ensures LastSorted(q) == q[0]
  {
    HeavierSame(q, 0, |q|, q[0].weight);
  }

  lemma SortedAround(s1: seq<Edge>, s2: seq<Edge>, s3: seq<Edge>, start: int, piv: int, end: int)
    requires 0 <= start <= piv <= end < |s1|
    requires AtMost(s1, start, piv, s1[piv].weight) && Above(s1, piv + 1, end, s1[piv].weight)
    requires Rearranges(s1, s2, start, piv - 1) && SortedRange(s2, start, piv - 1)
    requires Rearranges(s2, s3, piv + 1, end) && SortedRange(s3, piv + 1, end)
    ensures Rearranges(s1, s3, start, end) && SortedRange(s3, start, end)
  {
    var w := s1[piv].weight;
    BoundsSurvive(s1, s2, start, piv - 1, w);
    assert Above(s2, piv + 1, end, w);
    BoundsSurvive(s2, s3, piv + 1, end, w);
    assert AtMost(s3, start, piv, w);
  }
}
