/** What the order of the writer's Sets decides: exactly when a bucket of a row that no rule writes is
    up to date, over all interleavings with the evaluator and from any stored contents. */
module FancyRuns {
  import opened FancyDb

  /** The store after Sets by the writer alone. */
  function After(db: Store, sets: seq<Write>): Store {
    if sets == [] then db
    else
      var last := sets[|sets| - 1];
      After(db, sets[..|sets| - 1])[(last.row, last.timestamp) := last.value]
  }

  /** No rule writes the bucket's source row. */
  ghost predicate Primary(rules: seq<Rule>, n: Note) {
    n.rule < |rules| && forall i :: 0 <= i < |rules| ==> rules[i].target != rules[n.rule].source
  }

  /** A Set inside the half-open bucket: the kind that notifies it. */
  predicate Interior(rules: seq<Rule>, n: Note, w: Write)
    requires n.rule < |rules|
  {
    w.row == rules[n.rule].source && n.start <= w.timestamp < End(rules, n)
  }

  ghost predicate Touched(rules: seq<Rule>, sets: seq<Write>, n: Note)
    requires n.rule < |rules|
  {
    exists i :: 0 <= i < |sets| && Interior(rules, n, sets[i])
  }

  /** From Set k on none is inside the bucket. */
  ghost predicate QuietFrom(rules: seq<Rule>, sets: seq<Write>, n: Note, k: nat)
    requires n.rule < |rules|
  {
    k <= |sets| && forall i :: k <= i < |sets| ==> !Interior(rules, n, sets[i])
  }

  /** The condition, on the stored contents and the Sets: every reading of the bucket that was possible
      since the last Set inside it has the same result as the last one. Without such a Set nothing is
      evaluated, and the derived entry must be right from the start. */
  ghost predicate Settled(rules: seq<Rule>, db: Store, sets: seq<Write>, n: Note)
    requires n.rule < |rules|
  {
    var compute, last := rules[n.rule].compute, Bucket(rules, After(db, sets), n);
    var key := (rules[n.rule].target, End(rules, n));
    if Touched(rules, sets, n) then
      forall k: nat :: QuietFrom(rules, sets, n, k) ==> compute(Bucket(rules, After(db, sets[..k]), n)) == compute(last)
    else last != map[] ==> key in db && db[key] == compute(last)
  }

  /** In particular where each Set at the bucket's end is followed by one inside, if the bucket was up to
      date to begin with. */
  ghost predicate EndCovered(rules: seq<Rule>, sets: seq<Write>, n: Note)
    requires n.rule < |rules|
  {
    forall i {:trigger sets[i]} ::
      0 <= i < |sets| && sets[i].row == rules[n.rule].source && sets[i].timestamp == End(rules, n) ==>
        !QuietFrom(rules, sets, n, i)
  }

  // ---------- Readings ----------

  ghost predicate SameRow(a: Store, b: Store, row: string) {
    forall t :: ((row, t) in a <==> (row, t) in b) && ((row, t) in a ==> a[(row, t)] == b[(row, t)])
  }

  ghost predicate SameEntry(a: Store, b: Store, key: (string, int)) {
    (key in a <==> key in b) && (key in a ==> a[key] == b[key])
  }

  lemma SliceSame(a: Store, b: Store, row: string, lo: int, hi: int)
    requires SameRow(a, b, row)
    ensures Slice(a, row, lo, hi) == Slice(b, row, lo, hi)
  {
  }

  /** got is what the bucket held from lo on after k of the Sets, none of the later ones inside it. */
  ghost predicate ReadAt(rules: seq<Rule>, db: Store, sets: seq<Write>, n: Note, lo: int, got: map<int, Value>, k: nat)
    requires n.rule < |rules|
  {
    && QuietFrom(rules, sets, n, k)
    && got == Slice(After(db, sets[..k]), rules[n.rule].source, lo, End(rules, n))
  }

  ghost predicate SomeRead(rules: seq<Rule>, db: Store, sets: seq<Write>, n: Note, lo: int, got: map<int, Value>)
    requires n.rule < |rules|
  {
    exists k: nat :: ReadAt(rules, db, sets, n, lo, got, k)
  }

  lemma ReadStill(rules: seq<Rule>, db: Store, sets: seq<Write>, n: Note, lo: int, got: map<int, Value>, w: Write)
    requires n.rule < |rules| && SomeRead(rules, db, sets, n, lo, got) && !Interior(rules, n, w)
    ensures SomeRead(rules, db, sets + [w], n, lo, got)
  {
    var k: nat :| ReadAt(rules, db, sets, n, lo, got, k);
    assert (sets + [w])[..k] == sets[..k];
    assert ReadAt(rules, db, sets + [w], n, lo, got, k);
  }

  lemma ReadNow(rules: seq<Rule>, db: Store, sets: seq<Write>, n: Note, lo: int)
    requires n.rule < |rules|
    ensures SomeRead(rules, db, sets, n, lo, Slice(After(db, sets), rules[n.rule].source, lo, End(rules, n)))
  {
    assert sets[..|sets|] == sets;
    assert ReadAt(rules, db, sets, n, lo, Slice(After(db, sets), rules[n.rule].source, lo, End(rules, n)), |sets|);
  }

  /** While no Set is inside the bucket its inside stays. */
  lemma {:induction false} InsideStays(rules: seq<Rule>, db: Store, sets: seq<Write>, n: Note, k: nat, t: int)
    requires n.rule < |rules| && QuietFrom(rules, sets, n, k) && n.start <= t < End(rules, n)
    ensures var a, b, key := After(db, sets[..k]), After(db, sets), (rules[n.rule].source, t);
      (key in a <==> key in b) && (key in a ==> a[key] == b[key])
    decreases |sets|
  {
    if k == |sets| {
      assert sets[..k] == sets;
    } else {
      var front := sets[..|sets| - 1];
      assert front[..k] == sets[..k];
      assert !Interior(rules, n, sets[|sets| - 1]);
      InsideStays(rules, db, front, n, k, t);
    }
  }

  /** A reading extended downwards by entries read later, inside the bucket. */
  lemma ReadFurther(rules: seq<Rule>, db: Store, sets: seq<Write>, n: Note, at: int, got: map<int, Value>, lo: int)
    requires n.rule < |rules| && SomeRead(rules, db, sets, n, at, got) && n.start <= lo <= at <= End(rules, n)
    ensures SomeRead(rules, db, sets, n, lo, got + Slice(After(db, sets), rules[n.rule].source, lo, at - 1))
  {
    var row, end, now := rules[n.rule].source, End(rules, n), After(db, sets);
    var k: nat :| ReadAt(rules, db, sets, n, at, got, k);
    var then_ := After(db, sets[..k]);
    forall t | lo <= t < at
      ensures SameEntry(then_, now, (row, t))
    {
      InsideStays(rules, db, sets, n, k, t);
    }
    Spliced(then_, now, row, lo, at, end);
    assert ReadAt(rules, db, sets, n, lo, got + Slice(now, row, lo, at - 1), k);
  }

  lemma ReadDown(rules: seq<Rule>, db: Store, sets: seq<Write>, n: Note, at: int, got: map<int, Value>)
    requires n.rule < |rules| && SomeRead(rules, db, sets, n, at, got) && n.start <= at <= End(rules, n)
    requires Slice(After(db, sets), rules[n.rule].source, n.start, at - 1) == map[]
    ensures SomeRead(rules, db, sets, n, n.start, got)
  {
    ReadFurther(rules, db, sets, n, at, got, n.start);
    NothingAdded(got, Slice(After(db, sets), rules[n.rule].source, n.start, at - 1));
  }

  lemma NothingAdded(a: map<int, Value>, b: map<int, Value>)
    requires b == map[]
    ensures a + b == a
  {
  }

  lemma Spliced(a: Store, b: Store, row: string, lo: int, at: int, hi: int)
    requires lo <= at <= hi
    requires forall t :: lo <= t < at ==> SameEntry(a, b, (row, t))
    ensures Slice(a, row, lo, hi) == Slice(a, row, at, hi) + Slice(b, row, lo, at - 1)
  {
  }

  lemma {:induction false} InsideStored(rules: seq<Rule>, db: Store, sets: seq<Write>, n: Note, i: nat)
    requires n.rule < |rules| && i < |sets| && Interior(rules, n, sets[i])
    ensures (rules[n.rule].source, sets[i].timestamp) in After(db, sets)
    decreases |sets|
  {
    if i < |sets| - 1 { InsideStored(rules, db, sets[..|sets| - 1], n, i); }
  }

  /** A bucket that a Set is inside of has a reading that is not empty. */
  lemma TouchedReads(rules: seq<Rule>, db: Store, sets: seq<Write>, n: Note, k: nat)
    requires n.rule < |rules| && Touched(rules, sets, n) && QuietFrom(rules, sets, n, k)
    ensures Bucket(rules, After(db, sets[..k]), n) != map[] && Touched(rules, sets[..k], n)
  {
    var i :| 0 <= i < |sets| && Interior(rules, n, sets[i]);
    assert sets[..k][i] == sets[i];
    InsideStored(rules, db, sets[..k], n, i);
    assert sets[i].timestamp in Bucket(rules, After(db, sets[..k]), n);
  }

  // ---------- What every run keeps ----------

  /** The evaluator waits and nothing is being set; the contents are arbitrary. */
  ghost predicate Resting(s: State) {
    s == State(s.db, [], {}, false, Waiting, s.seen, [])
  }

  ghost function Key(rules: seq<Rule>, n: Note): (string, int)
    requires n.rule < |rules|
  {
    (rules[n.rule].target, End(rules, n))
  }

  /** Unless bucket n is due, what has been read of it is what it held after some of the Sets, at a time
      since the last Set inside it; and its derived entry is the result of such a reading. */
  ghost predicate Traced(rules: seq<Rule>, s0: State, s: State, n: Note)
    requires n.rule < |rules|
  {
    && SameRow(s.db, After(s0.db, s.sets), rules[n.rule].source)
    && (Due(s, n) || InHand(s, n) ==> Touched(rules, s.sets, n))
    && (!Due(s, n) ==> Reading(rules, s0, s, n))
  }

  ghost predicate Reading(rules: seq<Rule>, s0: State, s: State, n: Note)
    requires n.rule < |rules|
  {
    if InHand(s, n) && s.phase.eval.Scanning? then
      ScanSoFar(rules, s0, s, n, s.phase.eval.at, s.phase.eval.got)
    else if InHand(s, n) then SomeRead(rules, s0.db, s.sets, n, n.start, s.phase.eval.got)
    else if Touched(rules, s.sets, n) then ResultOfRead(rules, s0, s, n)
    else SameEntry(s.db, s0.db, Key(rules, n))
  }

  ghost predicate ScanSoFar(rules: seq<Rule>, s0: State, s: State, n: Note, at: int, got: map<int, Value>)
    requires n.rule < |rules|
  {
    || (at == End(rules, n) + 1 && got == map[])
    || (n.start <= at <= End(rules, n) && SomeRead(rules, s0.db, s.sets, n, at, got))
  }

  ghost predicate ResultOfRead(rules: seq<Rule>, s0: State, s: State, n: Note)
    requires n.rule < |rules|
  {
    exists got :: SomeRead(rules, s0.db, s.sets, n, n.start, got) && ResultIs(rules, s, n, got)
  }

  ghost predicate ResultIs(rules: seq<Rule>, s: State, n: Note, got: map<int, Value>)
    requires n.rule < |rules|
  {
    Key(rules, n) in s.db && s.db[Key(rules, n)] == rules[n.rule].compute(got)
  }

  lemma TouchedMore(rules: seq<Rule>, sets: seq<Write>, n: Note, w: Write)
    requires n.rule < |rules|
    ensures Touched(rules, sets + [w], n) <==> Touched(rules, sets, n) || Interior(rules, n, w)
  {
    if Touched(rules, sets, n) {
      var i :| 0 <= i < |sets| && Interior(rules, n, sets[i]);
      assert (sets + [w])[i] == sets[i];
    }
    if Interior(rules, n, w) { assert (sets + [w])[|sets|] == w; }
  }

  /** The listeners of a Set hold bucket n exactly when the Set is inside it. */
  lemma NotifiedInside(rules: seq<Rule>, n: Note, w: Write)
    requires Rules(rules) && IsBucket(rules, n)
    ensures n in Listeners(rules, w.row, w.timestamp) <==> Interior(rules, n, w)
  {
    var r := rules[n.rule];
    BucketHolds(r, w.timestamp);
    if Interior(rules, n, w) { SameBucket(r, n.start, BucketStart(r, w.timestamp), w.timestamp); }
  }

  lemma TracedSet(rules: seq<Rule>, s0: State, s: State, t: State, n: Note, w: Write)
    requires Rules(rules) && IsBucket(rules, n) && Primary(rules, n) && Traced(rules, s0, s, n)
    requires WriterSet(rules, s, t, w.row, w.value, w.timestamp)
    ensures Traced(rules, s0, t, n)
  {
    assert t.sets == s.sets + [w] && t.sets[..|s.sets|] == s.sets;
    TouchedMore(rules, s.sets, n, w);
    NotifiedInside(rules, n, w);
    if !Interior(rules, n, w) && !Due(s, n) { ReadingStays(rules, s0, s, t, n, w); }
  }

  lemma ReadingStays(rules: seq<Rule>, s0: State, s: State, t: State, n: Note, w: Write)
    requires Rules(rules) && IsBucket(rules, n) && !Interior(rules, n, w) && Reading(rules, s0, s, n)
    requires WriterSet(rules, s, t, w.row, w.value, w.timestamp) && t.sets == s.sets + [w]
    ensures Reading(rules, s0, t, n)
  {
    TouchedMore(rules, s.sets, n, w);
    if InHand(s, n) && s.phase.eval.Scanning? {
      var at, got := s.phase.eval.at, s.phase.eval.got;
      if at <= End(rules, n) { ReadStill(rules, s0.db, s.sets, n, at, got, w); }
    } else if InHand(s, n) {
      ReadStill(rules, s0.db, s.sets, n, n.start, s.phase.eval.got, w);
    } else if Touched(rules, s.sets, n) {
      var got :| SomeRead(rules, s0.db, s.sets, n, n.start, got) && ResultIs(rules, s, n, got);
      ReadStill(rules, s0.db, s.sets, n, n.start, got, w);
      assert ResultIs(rules, t, n, got);
    }
  }

  /** Steps that touch neither the store nor an evaluation. */
  lemma TracedSame(rules: seq<Rule>, s0: State, s: State, t: State, n: Note)
    requires n.rule < |rules| && Traced(rules, s0, s, n) && t.db == s.db && t.sets == s.sets
    requires (Due(t, n) <==> Due(s, n)) && (InHand(t, n) <==> InHand(s, n))
    requires InHand(s, n) ==> t.phase == s.phase
    ensures Traced(rules, s0, t, n)
  {
    if !Due(s, n) && !InHand(s, n) && Touched(rules, s.sets, n) {
      var got :| SomeRead(rules, s0.db, s.sets, n, n.start, got) && ResultIs(rules, s, n, got);
      assert ResultIs(rules, t, n, got);
    }
  }

  lemma FirstRead(db: Store, now: Store, row: string, next: int, hi: int)
    requires SameRow(db, now, row) && (row, next) in db && next <= hi && forall u :: next < u <= hi ==> (row, u) !in db
    ensures Slice(now, row, next, hi) == map[next := db[(row, next)]]
  {
  }

  lemma NextRead(db: Store, now: Store, row: string, next: int, at: int, got: map<int, Value>)
    requires SameRow(db, now, row) && (row, next) in db && next < at && forall u :: next < u < at ==> (row, u) !in db
    ensures got[next := db[(row, next)]] == got + Slice(now, row, next, at - 1)
  {
    FirstRead(db, now, row, next, at - 1);
  }

  lemma TracedScanEntry(rules: seq<Rule>, s0: State, s: State, t: State, n: Note, next: int)
    requires IsBucket(rules, n) && Traced(rules, s0, s, n) && ScanEntry(rules, s, t, next)
    ensures Traced(rules, s0, t, n)
  {
    if s.phase.eval.note != n {
      TracedSame(rules, s0, s, t, n);
    } else if !Due(s, n) {
      var row, at, got := rules[n.rule].source, s.phase.eval.at, s.phase.eval.got;
      var now := After(s0.db, s.sets);
      if at == End(rules, n) + 1 && got == map[] {
        FirstRead(s.db, now, row, next, End(rules, n));
        ReadNow(rules, s0.db, s.sets, n, next);
      } else {
        NextRead(s.db, now, row, next, at, got);
        ReadFurther(rules, s0.db, s.sets, n, at, got, next);
      }
    }
  }

  lemma TracedScanEnd(rules: seq<Rule>, s0: State, s: State, t: State, n: Note)
    requires IsBucket(rules, n) && Traced(rules, s0, s, n) && ScanEnd(rules, s, t)
    ensures Traced(rules, s0, t, n)
  {
    if s.phase.eval.note != n {
      TracedSame(rules, s0, s, t, n);
    } else if !Due(s, n) {
      var row, at, got := rules[n.rule].source, s.phase.eval.at, s.phase.eval.got;
      var now := After(s0.db, s.sets);
      if at == End(rules, n) + 1 && got == map[] {
        ReadNow(rules, s0.db, s.sets, n, n.start);
      } else {
        ReadDown(rules, s0.db, s.sets, n, at, got);
      }
    }
  }

  lemma TracedStore(rules: seq<Rule>, s0: State, s: State, t: State, n: Note)
    requires Rules(rules) && IsBucket(rules, n) && Primary(rules, n) && Traced(rules, s0, s, n)
    requires StoreResult(rules, s, t)
    ensures Traced(rules, s0, t, n)
  {
    var b, got := s.phase.eval.note, s.phase.eval.got;
    assert Due(t, n) <==> Due(s, n);
    if b == n && !Due(s, n) {
      var k: nat :| ReadAt(rules, s0.db, s.sets, n, n.start, got, k);
      TouchedReads(rules, s0.db, s.sets, n, k);
      assert ResultIs(rules, t, n, got);
    } else if !Due(s, n) {
      assert Key(rules, n) != (rules[b.rule].target, End(rules, b));
      if Touched(rules, s.sets, n) {
        var seen :| SomeRead(rules, s0.db, s.sets, n, n.start, seen) && ResultIs(rules, s, n, seen);
        assert ResultIs(rules, t, n, seen);
      }
    }
  }

  lemma TracedPick(rules: seq<Rule>, s0: State, s: State, t: State, n: Note, b: Note)
    requires n.rule < |rules| && Traced(rules, s0, s, n) && Pick(rules, s, t, b)
    ensures Traced(rules, s0, t, n)
  {
    if b != n { TracedSame(rules, s0, s, t, n); }
  }

  lemma TracedStep(rules: seq<Rule>, s0: State, s: State, t: State, n: Note, l: Label)
    requires Rules(rules) && IsBucket(rules, n) && Primary(rules, n) && Traced(rules, s0, s, n) && Step(rules, s, t, l)
    ensures Traced(rules, s0, t, n)
  {
    match l {
      case LSet(row, value, timestamp) => TracedSet(rules, s0, s, t, n, Write(row, value, timestamp));
      case LPick(b) => TracedPick(rules, s0, s, t, n, b);
      case LScanEntry(next) => TracedScanEntry(rules, s0, s, t, n, next);
      case LScanEnd => TracedScanEnd(rules, s0, s, t, n);
      case LStore => TracedStore(rules, s0, s, t, n);
      case LNotify => TracedSame(rules, s0, s, t, n);
      case LClose => TracedSame(rules, s0, s, t, n);
      case LTake => TracedSame(rules, s0, s, t, n);
      case LEvaluatorNotify => TracedSame(rules, s0, s, t, n);
      case LRest => TracedSame(rules, s0, s, t, n);
    }
  }

  // ---------- Reachable states ----------

  ghost predicate Leads(rules: seq<Rule>, run: seq<State>, labels: seq<Label>, s: State, t: State)
    requires Rules(rules)
  {
    Steps(rules, run, labels) && run[0] == s && run[|run| - 1] == t
  }

  /** Some steps lead from s to t. */
  ghost predicate Reach(rules: seq<Rule>, s: State, t: State)
    requires Rules(rules)
  {
    exists run, labels :: Leads(rules, run, labels, s, t)
  }

  lemma ReachSame(rules: seq<Rule>, s: State)
    requires Rules(rules)
    ensures Reach(rules, s, s)
  {
    assert Leads(rules, [s], [], s, s);
  }

  lemma ReachStep(rules: seq<Rule>, s: State, t: State, l: Label)
    requires Rules(rules) && Step(rules, s, t, l)
    ensures Reach(rules, s, t)
  {
    assert StepAt(rules, [s, t], [l], 0);
    assert Leads(rules, [s, t], [l], s, t);
  }

  lemma ReachOn(rules: seq<Rule>, s: State, t: State, u: State)
    requires Rules(rules) && Reach(rules, s, t) && Reach(rules, t, u)
    ensures Reach(rules, s, u)
  {
    var run, labels :| Leads(rules, run, labels, s, t);
    var more, labels' :| Leads(rules, more, labels', t, u);
    var all, ls := run + more[1..], labels + labels';
    forall i | 0 <= i < |ls| ensures StepAt(rules, all, ls, i) {
      if i < |labels| {
        assert StepAt(rules, run, labels, i);
      } else {
        assert StepAt(rules, more, labels', i - |labels|);
      }
    }
    assert Leads(rules, all, ls, s, u);
  }

  lemma {:induction false} TracedRun(rules: seq<Rule>, s0: State, run: seq<State>, labels: seq<Label>, i: nat, n: Note)
    requires Rules(rules) && Steps(rules, run, labels) && i < |run| && run[0] == s0 && Resting(s0)
    requires IsBucket(rules, n) && Primary(rules, n)
    ensures Traced(rules, s0, run[i], n)
  {
    if i > 0 {
      TracedRun(rules, s0, run, labels, i - 1, n);
      assert StepAt(rules, run, labels, i - 1);
      TracedStep(rules, s0, run[i - 1], run[i], n, labels[i - 1]);
    }
  }

  /** Where the condition holds a bucket is up to date whenever it is neither due nor in hand. */
  lemma SettledIsUpToDate(rules: seq<Rule>, s0: State, s: State, n: Note)
    requires Rules(rules) && IsBucket(rules, n) && Primary(rules, n) && Resting(s0) && Reach(rules, s0, s)
    requires Settled(rules, s0.db, s.sets, n) && !Due(s, n) && !InHand(s, n)
    ensures UpToDate(rules, s.db, n)
  {
    var run, labels :| Leads(rules, run, labels, s0, s);
    TracedRun(rules, s0, run, labels, |run| - 1, n);
    SliceSame(s.db, After(s0.db, s.sets), rules[n.rule].source, n.start, End(rules, n));
    if Touched(rules, s.sets, n) {
      var got :| SomeRead(rules, s0.db, s.sets, n, n.start, got) && ResultIs(rules, s, n, got);
      var k: nat :| ReadAt(rules, s0.db, s.sets, n, n.start, got, k);
    }
  }

  /** The evaluator ends only with nothing left to do, from any stored contents. */
  ghost predicate Emptied(s: State) {
    && (s.closing ==> s.pending == [])
    && (s.phase.Processing? && s.phase.done ==> s.phase.todo == {} && s.phase.eval.Idle? && s.queue == {} && s.closing)
    && (s.phase.Exited? ==> s.queue == {} && s.closing)
  }

  lemma {:induction false} EmptiedRun(rules: seq<Rule>, run: seq<State>, labels: seq<Label>, i: nat)
    requires Rules(rules) && Steps(rules, run, labels) && i < |run| && Resting(run[0])
    ensures Emptied(run[i])
  {
    if i > 0 {
      EmptiedRun(rules, run, labels, i - 1);
      assert StepAt(rules, run, labels, i - 1);
    }
  }

  lemma NothingLeft(rules: seq<Rule>, s0: State, t: State, n: Note)
    requires Rules(rules) && Resting(s0) && Reach(rules, s0, t) && t.phase.Exited?
    ensures !Due(t, n) && !InHand(t, n)
  {
    var run, labels :| Leads(rules, run, labels, s0, t);
    EmptiedRun(rules, run, labels, |run| - 1);
  }

  // ---------- Sets at the end that do no harm ----------

  /** Sets at the bucket's end that are followed by one inside it do no harm. */
  lemma EndCoveredSettles(rules: seq<Rule>, db: Store, sets: seq<Write>, n: Note)
    requires Rules(rules) && IsBucket(rules, n) && EndCovered(rules, sets, n) && UpToDate(rules, db, n)
    ensures Settled(rules, db, sets, n)
  {
    if Touched(rules, sets, n) {
      forall k: nat | QuietFrom(rules, sets, n, k)
        ensures Bucket(rules, After(db, sets[..k]), n) == Bucket(rules, After(db, sets), n)
      {
        BucketStays(rules, db, sets, n, k);
      }
    } else {
      assert QuietFrom(rules, sets, n, 0) && After(db, sets[..0]) == db;
      BucketStays(rules, db, sets, n, 0);
    }
  }

  lemma BucketStays(rules: seq<Rule>, db: Store, sets: seq<Write>, n: Note, k: nat)
    requires IsBucket(rules, n) && EndCovered(rules, sets, n) && QuietFrom(rules, sets, n, k)
    ensures Bucket(rules, After(db, sets[..k]), n) == Bucket(rules, After(db, sets), n)
  {
    assert sets[..|sets|] == sets;
    forall t | n.start <= t <= End(rules, n)
      ensures SameEntry(After(db, sets[..k]), After(db, sets), (rules[n.rule].source, t))
    {
      if t < End(rules, n) { InsideStays(rules, db, sets, n, k, t); } else { EndStays(rules, db, sets, n, k, |sets|); }
    }
  }

  lemma {:induction false} EndStays(rules: seq<Rule>, db: Store, sets: seq<Write>, n: Note, k: nat, m: nat)
    requires n.rule < |rules| && EndCovered(rules, sets, n) && QuietFrom(rules, sets, n, k) && k <= m <= |sets|
    ensures SameEntry(After(db, sets[..k]), After(db, sets[..m]), (rules[n.rule].source, End(rules, n)))
    decreases m
  {
    if k < m {
      EndStays(rules, db, sets, n, k, m - 1);
      assert sets[..m][..m - 1] == sets[..m - 1];
      assert QuietFrom(rules, sets, n, m - 1);
    }
  }
}
