/** Runs of FancyDb built step by step, which show that the condition of FancyRuns is exact. */
module FancySchedules {
  import opened FancyDb
  import opened FancyRuns

  // ---------- Runs that do one thing after the other ----------

  /** The pending notifications are made. */
  lemma {:induction false} NotifyAll(rules: seq<Rule>, s: State) returns (t: State)
    requires Rules(rules)
    ensures Reach(rules, s, t) && t == s.(pending := [], queue := t.queue)
    ensures forall x :: x in t.queue <==> x in s.queue || x in s.pending
    decreases |s.pending|
  {
    if s.pending == [] {
      t := s;
      ReachSame(rules, s);
    } else {
      var u := s.(queue := s.queue + {s.pending[0]}, pending := s.pending[1..]);
      ReachStep(rules, s, u, LNotify);
      t := NotifyAll(rules, u);
      ReachOn(rules, s, u, t);
    }
  }

  /** Sets a writer may make. */
  ghost predicate Writable(rules: seq<Rule>, sets: seq<Write>) {
    forall i, j :: 0 <= i < |sets| && 0 <= j < |rules| ==> rules[j].target != sets[i].row
  }

  /** Notifications that can be picked. */
  ghost predicate Known(rules: seq<Rule>, notes: set<Note>) {
    forall x :: x in notes ==> IsBucket(rules, x)
  }

  /** The writer makes the given Sets, the evaluator does nothing. */
  ghost predicate SetsMade(rules: seq<Rule>, s: State, t: State, sets: seq<Write>, n: Note)
    requires n.rule < |rules|
  {
    && t == s.(db := After(s.db, sets), sets := s.sets + sets, queue := t.queue)
    && (Known(rules, s.queue) ==> Known(rules, t.queue))
    && (n in t.queue <==> n in s.queue || Touched(rules, sets, n))
  }

  lemma {:induction false} SetAll(rules: seq<Rule>, s: State, sets: seq<Write>, n: Note) returns (t: State)
    requires Rules(rules) && IsBucket(rules, n) && Writable(rules, sets) && s.pending == [] && !s.closing
    ensures Reach(rules, s, t) && SetsMade(rules, s, t, sets, n)
    decreases |sets|
  {
    if sets == [] {
      t := s;
      ReachSame(rules, s);
      assert s.sets + [] == s.sets;
    } else {
      var front, w := sets[..|sets| - 1], sets[|sets| - 1];
      var u := SetAll(rules, s, front, n);
      t := SetOne(rules, u, w, n);
      ReachOn(rules, s, u, t);
      assert s.sets + front + [w] == s.sets + sets && front + [w] == sets;
      TouchedMore(rules, front, n, w);
    }
  }

  lemma SetOne(rules: seq<Rule>, s: State, w: Write, n: Note) returns (t: State)
    requires Rules(rules) && IsBucket(rules, n) && s.pending == [] && !s.closing
    requires forall j :: 0 <= j < |rules| ==> rules[j].target != w.row
    ensures Reach(rules, s, t)
    ensures t == s.(db := s.db[(w.row, w.timestamp) := w.value], sets := s.sets + [w], queue := t.queue)
    ensures Known(rules, s.queue) ==> Known(rules, t.queue)
    ensures n in t.queue <==> n in s.queue || Interior(rules, n, w)
  {
    var u := s.(db := s.db[(w.row, w.timestamp) := w.value], sets := s.sets + [w],
                pending := Listeners(rules, w.row, w.timestamp));
    ReachStep(rules, s, u, LSet(w.row, w.value, w.timestamp));
    t := NotifyAll(rules, u);
    ReachOn(rules, s, u, t);
    NotifiedInside(rules, n, w);
    forall x | x in u.pending ensures IsBucket(rules, x) { ListenersAreBuckets(rules, w.row, w.timestamp, x); }
  }

  /** The newest entry below `at`, if there is one from lo on. */
  lemma {:induction false} Newest(db: Store, row: string, lo: int, at: int) returns (found: bool, next: int)
    ensures found ==> lo <= next < at && (row, next) in db && forall u :: next < u < at ==> (row, u) !in db
    ensures !found ==> forall u :: lo <= u < at ==> (row, u) !in db
    decreases at - lo
  {
    if at <= lo {
      found, next := false, lo;
    } else if (row, at - 1) in db {
      found, next := true, at - 1;
    } else {
      found, next := Newest(db, row, lo, at - 1);
    }
  }

  /** The evaluator reads a bucket to the end. */
  lemma {:induction false} ScanAll(rules: seq<Rule>, s: State, n: Note, at: int, got: map<int, Value>)
    returns (t: State)
    requires Rules(rules) && n.rule < |rules| && s.phase.Processing? && s.phase.eval == Scanning(n, at, got)
    requires n.start <= at <= End(rules, n) + 1 && got == Slice(s.db, rules[n.rule].source, at, End(rules, n))
    ensures Reach(rules, s, t) && t == s.(phase := s.phase.(eval := Storing(n, Bucket(rules, s.db, n))))
    decreases at - n.start
  {
    var row := rules[n.rule].source;
    var found, next := Newest(s.db, row, n.start, at);
    if found {
      var u := s.(phase := s.phase.(eval := Scanning(n, next, got[next := s.db[(row, next)]])));
      ReachStep(rules, s, u, LScanEntry(next));
      assert got[next := s.db[(row, next)]] == Slice(s.db, row, next, End(rules, n));
      t := ScanAll(rules, u, n, next, got[next := s.db[(row, next)]]);
      ReachOn(rules, s, u, t);
    } else {
      t := s.(phase := s.phase.(eval := Storing(n, got)));
      ReachStep(rules, s, t, LScanEnd);
      assert got == Bucket(rules, s.db, n);
    }
  }

  /** What evaluations leave as it was, a row that no rule writes included. */
  ghost predicate Beside(s: State, t: State, row: string) {
    && t.pending == s.pending && t.queue == s.queue && t.closing == s.closing && t.sets == s.sets
    && SameRow(t.db, s.db, row)
  }

  /** A bucket is picked, read and its result stored. */
  lemma Evaluate(rules: seq<Rule>, s: State, n: Note, row: string) returns (t: State)
    requires Rules(rules) && n.rule < |rules| && s.phase.Processing? && s.phase.eval.Idle? && n in s.phase.todo
    requires rules[n.rule].target != row
    ensures Reach(rules, s, t) && Beside(s, t, row)
    ensures t.phase.Processing? && t.phase.done == s.phase.done && t.phase.todo == s.phase.todo - {n}
    ensures t.phase.eval == Idle ||
      t.phase.eval == Notifying(Listeners(rules, rules[n.rule].target, End(rules, n)))
    ensures forall key :: key != Key(rules, n) ==> SameEntry(t.db, s.db, key)
    ensures Bucket(rules, s.db, n) != map[] ==> ResultIs(rules, t, n, Bucket(rules, s.db, n))
  {
    var r, got := rules[n.rule], Bucket(rules, s.db, n);
    var u := s.(phase := s.phase.(todo := s.phase.todo - {n}, eval := Scanning(n, End(rules, n) + 1, map[])));
    ReachStep(rules, s, u, LPick(n));
    var v := ScanAll(rules, u, n, End(rules, n) + 1, map[]);
    ReachOn(rules, s, u, v);
    t := if got == map[]
         then v.(seen := v.seen[n := got], phase := v.phase.(eval := Idle))
         else v.(db := v.db[(r.target, End(rules, n)) := r.compute(got)], seen := v.seen[n := got],
                 phase := v.phase.(eval := Notifying(Listeners(rules, r.target, End(rules, n)))));
    ReachStep(rules, v, t, LStore);
    ReachOn(rules, s, v, t);
  }

  /** No rule listens to a derived row. */
  ghost predicate NotCascaded(rules: seq<Rule>) {
    forall i, j :: 0 <= i < |rules| && 0 <= j < |rules| ==> rules[i].source != rules[j].target
  }

  lemma SomeListener(rules: seq<Rule>, row: string, timestamp: int)
    requires Rules(rules) && Listeners(rules, row, timestamp) != []
    ensures exists i :: 0 <= i < |rules| && rules[i].source == row
  {
    var x := Listeners(rules, row, timestamp)[0];
    assert x in Listeners(rules, row, timestamp);
  }

  lemma SameOn(a: Store, b: Store, c: Store, row: string, key: (string, int))
    ensures SameRow(a, b, row) && SameRow(b, c, row) ==> SameRow(a, c, row)
    ensures SameEntry(a, b, key) && SameEntry(b, c, key) ==> SameEntry(a, c, key)
  {
  }

  /** One evaluation to its end, without cascades. */
  lemma EvaluateOne(rules: seq<Rule>, s: State, n: Note, row: string) returns (t: State)
    requires Rules(rules) && NotCascaded(rules) && n.rule < |rules| && rules[n.rule].target != row
    requires s.phase.Processing? && s.phase.eval.Idle? && n in s.phase.todo
    ensures Reach(rules, s, t) && Beside(s, t, row)
    ensures t.phase == Processing(s.phase.done, s.phase.todo - {n}, Idle)
    ensures forall key :: key != Key(rules, n) ==> SameEntry(t.db, s.db, key)
  {
    var notes := Listeners(rules, rules[n.rule].target, End(rules, n));
    if notes != [] { SomeListener(rules, rules[n.rule].target, End(rules, n)); }
    t := Evaluate(rules, s, n, row);
    if t.phase.eval.Notifying? {
      var u := t.(phase := t.phase.(eval := Idle));
      ReachStep(rules, t, u, LEvaluatorNotify);
      ReachOn(rules, s, t, u);
      t := u;
    }
  }

  /** All notifications taken are worked off; a bucket that is not among them keeps its entry. */
  lemma {:induction false} EvaluateTodo(rules: seq<Rule>, s: State, n: Note) returns (t: State)
    requires Rules(rules) && NotCascaded(rules) && IsBucket(rules, n)
    requires s.phase.Processing? && s.phase.eval.Idle? && Known(rules, s.phase.todo)
    ensures Reach(rules, s, t) && Beside(s, t, rules[n.rule].source)
    ensures t.phase == Processing(s.phase.done, {}, Idle)
    ensures n !in s.phase.todo ==> SameEntry(t.db, s.db, Key(rules, n))
    decreases |s.phase.todo|
  {
    if x :| x in s.phase.todo {
      var u := EvaluateOne(rules, s, x, rules[n.rule].source);
      t := EvaluateTodo(rules, u, n);
      ReachOn(rules, s, u, t);
      SameOn(t.db, u.db, s.db, rules[n.rule].source, Key(rules, n));
    } else {
      t := s;
      ReachSame(rules, s);
    }
  }

  lemma WorkOff(rules: seq<Rule>, s: State, n: Note) returns (t: State)
    requires Rules(rules) && NotCascaded(rules) && IsBucket(rules, n)
    requires s.phase.Processing? && s.phase.eval.Idle? && !s.phase.done && Known(rules, s.phase.todo)
    ensures Reach(rules, s, t) && Beside(s, t, rules[n.rule].source) && t.phase == Waiting
    ensures n !in s.phase.todo ==> SameEntry(t.db, s.db, Key(rules, n))
  {
    var u := EvaluateTodo(rules, s, n);
    t := u.(phase := Waiting);
    ReachStep(rules, u, t, LRest);
    ReachOn(rules, s, u, t);
  }

  /** The evaluator takes what is queued, works it off and waits. */
  lemma TakeAll(rules: seq<Rule>, s: State, n: Note) returns (t: State)
    requires Rules(rules) && NotCascaded(rules) && IsBucket(rules, n) && s.phase.Waiting? && Known(rules, s.queue)
    ensures Reach(rules, s, t) && t.pending == s.pending && t.closing == s.closing && t.sets == s.sets
    ensures t.phase == Waiting && t.queue == {}
    ensures n !in s.queue ==> SameEntry(t.db, s.db, Key(rules, n))
  {
    if s.queue == {} {
      t := s;
      ReachSame(rules, s);
    } else {
      var u := s.(queue := {}, phase := Processing(false, s.queue, Idle));
      ReachStep(rules, s, u, LTake);
      t := WorkOff(rules, u, n);
      ReachOn(rules, s, u, t);
    }
  }

  lemma Exit(rules: seq<Rule>, s: State) returns (t: State)
    requires Rules(rules) && s.phase.Waiting? && s.queue == {} && s.closing
    ensures Reach(rules, s, t) && t == s.(phase := Exited)
  {
    var u := s.(phase := Processing(true, {}, Idle));
    t := s.(phase := Exited);
    ReachStep(rules, s, u, LTake);
    ReachStep(rules, u, t, LRest);
    ReachOn(rules, s, u, t);
  }

  /** Close: everything is worked off and the evaluator returns. */
  lemma Finish(rules: seq<Rule>, s: State, n: Note) returns (t: State)
    requires Rules(rules) && NotCascaded(rules) && IsBucket(rules, n) && s.pending == [] && Known(rules, s.queue)
    requires s.phase.Waiting?
          || (s.phase.Processing? && s.phase.eval.Idle? && !s.phase.done && Known(rules, s.phase.todo))
    ensures Reach(rules, s, t) && t.phase.Exited? && t.sets == s.sets
    ensures n !in s.queue && !(s.phase.Processing? && n in s.phase.todo) ==> SameEntry(t.db, s.db, Key(rules, n))
  {
    var u := s.(closing := true);
    ReachStep(rules, s, u, LClose);
    var v := u;
    if u.phase.Processing? {
      v := WorkOff(rules, u, n);
      ReachOn(rules, s, u, v);
    }
    var w := TakeAll(rules, v, n);
    ReachOn(rules, s, v, w);
    t := Exit(rules, w);
    ReachOn(rules, s, w, t);
    var source, key := rules[n.rule].source, Key(rules, n);
    SameOn(t.db, v.db, s.db, source, key);
  }

  // ---------- The condition is exact ----------

  /** All Sets are made and bucket n is left alone: it will not be evaluated again. */
  ghost predicate LeftAlone(rules: seq<Rule>, s: State, n: Note)
    requires Rules(rules) && n.rule < |rules|
  {
    && s.pending == [] && !s.closing && n !in s.queue && Known(rules, s.queue)
    && (s.phase.Waiting? || (s.phase.Processing? && LeftInPhase(rules, s, n)))
  }

  ghost predicate LeftInPhase(rules: seq<Rule>, s: State, n: Note)
    requires Rules(rules) && n.rule < |rules| && s.phase.Processing?
  {
    && !s.phase.done && n !in s.phase.todo && Known(rules, s.phase.todo)
    && (s.phase.eval == Idle || s.phase.eval == Notifying(Listeners(rules, rules[n.rule].target, End(rules, n))))
  }

  /** A run in which the evaluator reads bucket n after k of the Sets and the rest is set afterwards. */
  lemma ReadEarly(rules: seq<Rule>, s0: State, sets: seq<Write>, n: Note, k: nat) returns (t: State)
    requires Rules(rules) && IsBucket(rules, n) && Primary(rules, n) && Resting(s0) && Writable(rules, sets)
    requires Touched(rules, sets, n) && QuietFrom(rules, sets, n, k)
    ensures Reach(rules, s0, t) && t.sets == sets && LeftAlone(rules, t, n)
    ensures ResultIs(rules, t, n, Bucket(rules, After(s0.db, sets[..k]), n))
  {
    var front, back := sets[..k], sets[k..];
    TouchedReads(rules, s0.db, sets, n, k);
    var u := SetAll(rules, s0, front, n);
    var v := u.(queue := {}, phase := Processing(false, u.queue, Idle));
    ReachStep(rules, u, v, LTake);
    ReachOn(rules, s0, u, v);
    var w := Evaluate(rules, v, n, rules[n.rule].source);
    ReachOn(rules, s0, v, w);
    t := SetAll(rules, w, back, n);
    ReachOn(rules, s0, w, t);
    assert front + back == sets;
    KeyKept(rules, w.db, back, n);
  }

  /** The writer does not touch derived entries. */
  lemma {:induction false} KeyKept(rules: seq<Rule>, db: Store, sets: seq<Write>, n: Note)
    requires n.rule < |rules| && Writable(rules, sets)
    ensures SameEntry(After(db, sets), db, Key(rules, n))
  {
    if sets != [] {
      assert rules[n.rule].target != sets[|sets| - 1].row;
      KeyKept(rules, db, sets[..|sets| - 1], n);
    }
  }

  /** What the bucket holds after the Sets, in whatever run. */
  lemma BucketAfter(rules: seq<Rule>, s0: State, t: State, n: Note)
    requires Rules(rules) && IsBucket(rules, n) && Primary(rules, n) && Resting(s0) && Reach(rules, s0, t)
    ensures Bucket(rules, t.db, n) == Bucket(rules, After(s0.db, t.sets), n)
  {
    var run, labels :| Leads(rules, run, labels, s0, t);
    TracedRun(rules, s0, run, labels, |run| - 1, n);
    SliceSame(t.db, After(s0.db, t.sets), rules[n.rule].source, n.start, End(rules, n));
  }

  lemma StaleTouched(rules: seq<Rule>, s0: State, sets: seq<Write>, n: Note, k: nat) returns (t: State)
    requires Rules(rules) && IsBucket(rules, n) && Primary(rules, n) && Resting(s0) && Writable(rules, sets)
    requires Touched(rules, sets, n) && QuietFrom(rules, sets, n, k)
    requires rules[n.rule].compute(Bucket(rules, After(s0.db, sets[..k]), n))
          != rules[n.rule].compute(Bucket(rules, After(s0.db, sets), n))
    ensures Reach(rules, s0, t) && t.sets == sets && LeftAlone(rules, t, n) && !UpToDate(rules, t.db, n)
  {
    t := ReadEarly(rules, s0, sets, n, k);
    assert QuietFrom(rules, sets, n, |sets|) && sets[..|sets|] == sets;
    TouchedReads(rules, s0.db, sets, n, |sets|);
    BucketAfter(rules, s0, t, n);
  }

  lemma StaleUntouched(rules: seq<Rule>, s0: State, sets: seq<Write>, n: Note) returns (t: State)
    requires Rules(rules) && IsBucket(rules, n) && Primary(rules, n) && Resting(s0) && Writable(rules, sets)
    requires !Touched(rules, sets, n) && !Settled(rules, s0.db, sets, n)
    ensures Reach(rules, s0, t) && t.sets == sets && LeftAlone(rules, t, n) && !UpToDate(rules, t.db, n)
  {
    t := SetAll(rules, s0, sets, n);
    KeyKept(rules, s0.db, sets, n);
    BucketAfter(rules, s0, t, n);
  }

  /** Where the condition fails some run leaves the bucket alone, and stale. */
  lemma StaleRun(rules: seq<Rule>, s0: State, sets: seq<Write>, n: Note) returns (t: State)
    requires Rules(rules) && IsBucket(rules, n) && Primary(rules, n) && Resting(s0) && Writable(rules, sets)
    requires !Settled(rules, s0.db, sets, n)
    ensures Reach(rules, s0, t) && t.sets == sets && LeftAlone(rules, t, n) && !UpToDate(rules, t.db, n)
  {
    if Touched(rules, sets, n) {
      var k: nat :| QuietFrom(rules, sets, n, k) &&
        rules[n.rule].compute(Bucket(rules, After(s0.db, sets[..k]), n)) !=
        rules[n.rule].compute(Bucket(rules, After(s0.db, sets), n));
      t := StaleTouched(rules, s0, sets, n, k);
    } else {
      t := StaleUntouched(rules, s0, sets, n);
    }
  }

  /** For any rules, any stored contents and any Sets: a bucket of a row that no rule writes is up to date
      in every state, reached with these Sets, in which it is neither due nor in hand, exactly when the
      Sets settle it. */
  lemma UpToDateExactly(rules: seq<Rule>, s0: State, sets: seq<Write>, n: Note)
    requires Rules(rules) && IsBucket(rules, n) && Primary(rules, n) && Resting(s0) && Writable(rules, sets)
    ensures (forall t :: Reach(rules, s0, t) && t.sets == sets && !Due(t, n) && !InHand(t, n) ==>
               UpToDate(rules, t.db, n))
      <==> Settled(rules, s0.db, sets, n)
  {
    if Settled(rules, s0.db, sets, n) {
      forall t | Reach(rules, s0, t) && t.sets == sets && !Due(t, n) && !InHand(t, n)
        ensures UpToDate(rules, t.db, n)
      {
        SettledIsUpToDate(rules, s0, t, n);
      }
    } else {
      var t := StaleRun(rules, s0, sets, n);
    }
  }

  /** Closing after a run that left the bucket alone leaves it as it is. */
  lemma CloseAlone(rules: seq<Rule>, s: State, n: Note) returns (t: State)
    requires Rules(rules) && NotCascaded(rules) && IsBucket(rules, n) && LeftAlone(rules, s, n)
    ensures Reach(rules, s, t) && t.phase.Exited? && t.sets == s.sets && SameEntry(t.db, s.db, Key(rules, n))
  {
    if s.phase.Processing? && s.phase.eval.Notifying? {
      var notes := Listeners(rules, rules[n.rule].target, End(rules, n));
      if notes != [] { SomeListener(rules, rules[n.rule].target, End(rules, n)); }
      var u := s.(phase := s.phase.(eval := Idle));
      ReachStep(rules, s, u, LEvaluatorNotify);
      t := Finish(rules, u, n);
      ReachOn(rules, s, u, t);
    } else {
      t := Finish(rules, s, n);
    }
  }

  /** Once Close has seen the evaluator end: for rules that do not listen to derived rows, a bucket is up
      to date after every run with the given Sets exactly when these settle it. */
  lemma UpToDateAfterCloseExactly(rules: seq<Rule>, s0: State, sets: seq<Write>, n: Note)
    requires Rules(rules) && NotCascaded(rules) && IsBucket(rules, n) && Resting(s0) && Writable(rules, sets)
    ensures (forall t :: Reach(rules, s0, t) && t.sets == sets && t.phase.Exited? ==> UpToDate(rules, t.db, n))
      <==> Settled(rules, s0.db, sets, n)
  {
    if Settled(rules, s0.db, sets, n) {
      forall t | Reach(rules, s0, t) && t.sets == sets && t.phase.Exited? ensures UpToDate(rules, t.db, n) {
        NothingLeft(rules, s0, t, n);
        SettledIsUpToDate(rules, s0, t, n);
      }
    } else {
      var t := StaleAfterClose(rules, s0, sets, n);
    }
  }

  lemma StaleAfterClose(rules: seq<Rule>, s0: State, sets: seq<Write>, n: Note) returns (t: State)
    requires Rules(rules) && NotCascaded(rules) && IsBucket(rules, n) && Resting(s0) && Writable(rules, sets)
    requires !Settled(rules, s0.db, sets, n)
    ensures Reach(rules, s0, t) && t.sets == sets && t.phase.Exited? && !UpToDate(rules, t.db, n)
  {
    var s := StaleRun(rules, s0, sets, n);
    t := CloseAlone(rules, s, n);
    ReachOn(rules, s0, s, t);
    BucketAfter(rules, s0, s, n);
    BucketAfter(rules, s0, t, n);
  }

  // ---------- An example ----------

  /** LAST: the newest value read. */
  ghost function Last(m: map<int, Value>): Value {
    if t :| t in m && forall u :: u in m ==> u <= t then m[t] else 0.0
  }

  lemma LastIs(m: map<int, Value>, t: int)
    requires t in m && forall u :: u in m ==> u <= t
    ensures Last(m) == m[t]
  {
  }

  ghost const NEWEST: Rule := Rule("s", "d", 1, Last)

  const START: State := State(map[], [], {}, false, Waiting, map[], [])

  const TWO_SETS: seq<Write> := [Write("s", 1.0, 500000), Write("s", 2.0, 1000000)]

  lemma TwoSets()
    ensures After(map[], TWO_SETS[..1]) == map[("s", 500000) := 1.0]
    ensures After(map[], TWO_SETS) == map[("s", 500000) := 1.0, ("s", 1000000) := 2.0]
  {
    assert TWO_SETS[..1] == [Write("s", 1.0, 500000)];
    assert TWO_SETS[..1][..0] == [];
  }

  /** One entry inside the bucket 0..1000000 and one exactly at its end, under the LAST rule. */
  ghost predicate EndSet(rules: seq<Rule>, s0: State, sets: seq<Write>, n: Note) {
    rules == [NEWEST] && s0 == START && sets == TWO_SETS && n == Note(0, 0)
  }

  lemma EndSetUnsettled(rules: seq<Rule>, s0: State, sets: seq<Write>, n: Note)
    requires EndSet(rules, s0, sets, n)
    ensures !Settled(rules, s0.db, sets, n)
  {
    TwoSets();
    LastIs(Bucket(rules, After(map[], TWO_SETS[..1]), n), 500000);
    LastIs(Bucket(rules, After(map[], TWO_SETS), n), 1000000);
    assert Interior(rules, n, sets[0]) && QuietFrom(rules, sets, n, 1);
  }

  /** In some run to the end of Close the derived entry is that of the first entry alone. */
  lemma EndGoesUnnoticed(rules: seq<Rule>, s0: State, sets: seq<Write>, n: Note) returns (t: State)
    requires EndSet(rules, s0, sets, n)
    ensures Rules(rules) && Resting(s0) && Reach(rules, s0, t) && t.sets == sets && t.phase.Exited?
    ensures IsBucket(rules, n) && !UpToDate(rules, t.db, n)
  {
    EndSetUnsettled(rules, s0, sets, n);
    t := StaleAfterClose(rules, s0, sets, n);
  }
}
