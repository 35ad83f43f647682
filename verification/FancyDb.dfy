/** The rule evaluation of stats/storageutils/fancydb.py as a state machine: a writer that stores
    entries and notifies rules, and an evaluator thread that turns notified buckets into derived
    entries. Every lock-protected section and every store access is a step of its own, so all
    interleavings of the two threads are runs of the machine. */
module FancyDb {

  type Value = real
  type Store = map<(string, int), Value>

  /** steps: the bucket length in seconds. compute: the rule's function of the entries read, whose
      order their timestamps fix. */
  datatype Rule = Rule(source: string, target: string, steps: nat, compute: map<int, Value> -> Value)

  /** RuleNotification: the rule's number and the start of a bucket, which fixes its end. */
  datatype Note = Note(rule: nat, start: int)

  /** Where Rule.EvaluateTime is: before the next notification, reading source entries newest first
      (those at or after `at` are read), about to store the result, or notifying the listeners of
      the derived row. */
  datatype Eval =
    | Idle
    | Scanning(note: Note, at: int, got: map<int, Value>)
    | Storing(note: Note, got: map<int, Value>)
    | Notifying(notes: seq<Note>)

  /** RuleEvaluator.run: waiting for the lock, working on the notifications it took, or returned. */
  datatype Phase = Waiting | Processing(done: bool, todo: set<Note>, eval: Eval) | Exited

  /** A Set by the writer. */
  datatype Write = Write(row: string, value: Value, timestamp: int)

  /** pending: notifications that the Set in progress still has to make; queue: _notifications;
      closing: the _done event. Two history variables: seen, the entries that the last evaluation of
      a bucket read, and sets, the Sets made so far. */
  datatype State = State(
    db: Store, pending: seq<Note>, queue: set<Note>, closing: bool, phase: Phase,
    seen: map<Note, map<int, Value>>, sets: seq<Write>)

  // ---------- Rules ----------

  /** Rules as AddRule accepts them: distinct targets, positive bucket lengths. */
  ghost predicate Rules(rules: seq<Rule>) {
    && (forall i :: 0 <= i < |rules| ==> rules[i].steps > 0)
    && (forall i, j :: 0 <= i < j < |rules| ==> rules[i].target != rules[j].target)
  }

  function Period(r: Rule): int {
    r.steps * 1000000
  }

  /** GetTimeRangeForTimestamp */
  function BucketStart(r: Rule, timestamp: int): int
    requires r.steps > 0
  {
    timestamp - timestamp % Period(r)
  }

  lemma BucketHolds(r: Rule, timestamp: int)
    requires r.steps > 0
    ensures BucketStart(r, timestamp) <= timestamp < BucketStart(r, timestamp) + Period(r)
    ensures BucketStart(r, timestamp) % Period(r) == 0
  {
    var p, q, m := Period(r), timestamp / Period(r), timestamp % Period(r);
    assert timestamp == q * p + m;
    MultipleModulo(q, p);
  }

  lemma Multiple(k: int, p: int)
    requires p > 0
    ensures k >= 1 ==> k * p >= p
    ensures k <= -1 ==> k * p <= -p
  {
    if k >= 1 { assert (k - 1) * p >= 0 && k * p == (k - 1) * p + p; }
    if k <= -1 { assert (-k - 1) * p >= 0 && k * p == -((-k - 1) * p) - p; }
  }

  lemma MultipleModulo(q: int, p: int)
    requires p > 0
    ensures q * p % p == 0
  {
    var x := q * p;
    var d, m := x / p, x % p;
    assert x == d * p + m;
    assert (q - d) * p == q * p - d * p;
    Multiple(q - d, p);
  }

  lemma SameMultiple(a: int, b: int, p: int)
    requires p > 0 && a % p == 0 && b % p == 0 && -p < a - b < p
    ensures a == b
  {
    var i, j := a / p, b / p;
    assert a == i * p && b == j * p;
    assert (i - j) * p == i * p - j * p;
    Multiple(i - j, p);
  }

  /** Two buckets of a rule that share an instant are the same. */
  lemma SameBucket(r: Rule, a: int, b: int, t: int)
    requires r.steps > 0 && a % Period(r) == 0 && b % Period(r) == 0
    requires a <= t < a + Period(r) && b <= t < b + Period(r)
    ensures a == b
  {
    SameMultiple(a, b, Period(r));
  }

  ghost predicate IsBucket(rules: seq<Rule>, n: Note) {
    n.rule < |rules| && rules[n.rule].steps > 0 && n.start % Period(rules[n.rule]) == 0
  }

  function End(rules: seq<Rule>, n: Note): int
    requires n.rule < |rules|
  {
    n.start + Period(rules[n.rule])
  }

  /** The notifications that storing (row, timestamp) makes, one for each rule that listens. */
  function Listeners(rules: seq<Rule>, row: string, timestamp: int, from: nat := 0): (notes: seq<Note>)
    requires from <= |rules| && forall i :: 0 <= i < |rules| ==> rules[i].steps > 0
    ensures forall n :: n in notes <==>
      from <= n.rule < |rules| && rules[n.rule].source == row && n.start == BucketStart(rules[n.rule], timestamp)
    decreases |rules| - from
  {
    if from == |rules| then []
    else if rules[from].source == row then
      [Note(from, BucketStart(rules[from], timestamp))] + Listeners(rules, row, timestamp, from + 1)
    else Listeners(rules, row, timestamp, from + 1)
  }

  /** The entries of a row with lo <= timestamp <= hi. */
  function Slice(db: Store, row: string, lo: int, hi: int): map<int, Value> {
    map t: int | lo <= t <= hi && (row, t) in db :: db[(row, t)]
  }

  /** What EvaluateTime reads for a bucket; its scan is closed at both ends. */
  function Bucket(rules: seq<Rule>, db: Store, n: Note): map<int, Value>
    requires n.rule < |rules|
  {
    Slice(db, rules[n.rule].source, n.start, End(rules, n))
  }

  // ---------- Steps ----------

  /** A database is opened over a store whose derived entries were up to date, or were left as the
      evaluations before saw them; the evaluator waits and no Set has been made. */
  ghost predicate Init(rules: seq<Rule>, s: State) {
    s == State(s.db, [], {}, false, Waiting, s.seen, []) && Good(rules, s)
  }

  /** SimpleDB.Set in FancyDB.Set; nobody but the evaluator writes derived rows. */
  ghost predicate WriterSet(rules: seq<Rule>, s: State, t: State, row: string, value: Value, timestamp: int)
    requires Rules(rules)
  {
    && !s.closing && s.pending == [] && (forall i :: 0 <= i < |rules| ==> rules[i].target != row)
    && t == s.(db := s.db[(row, timestamp) := value], pending := Listeners(rules, row, timestamp),
               sets := s.sets + [Write(row, value, timestamp)])
  }

  /** EvaluatorNotify by the writer, under the lock. */
  ghost predicate WriterNotify(s: State, t: State) {
    s.pending != [] && t == s.(queue := s.queue + {s.pending[0]}, pending := s.pending[1..])
  }

  /** Finish, called by Close once no Set is in progress. */
  ghost predicate WriterClose(s: State, t: State) {
    s.pending == [] && t == s.(closing := true)
  }

  /** The evaluator takes all notifications, under the lock. */
  ghost predicate Take(s: State, t: State) {
    && s.phase.Waiting? && (s.queue != {} || s.closing)
    && t == s.(queue := {}, phase := Processing(s.queue == {} && s.closing, s.queue, Idle))
  }

  /** The next notification of Process, in whatever order the dictionary yields them. */
  ghost predicate Pick(rules: seq<Rule>, s: State, t: State, n: Note) {
    && s.phase.Processing? && s.phase.eval.Idle? && n in s.phase.todo && n.rule < |rules|
    && t == s.(phase := s.phase.(todo := s.phase.todo - {n}, eval := Scanning(n, End(rules, n) + 1, map[])))
  }

  /** The newest source entry of the bucket that is older than what has been read. */
  ghost predicate IsOlder(rules: seq<Rule>, db: Store, n: Note, at: int, next: int)
    requires n.rule < |rules|
  {
    && n.start <= next < at && (rules[n.rule].source, next) in db
    && forall u :: next < u < at ==> (rules[n.rule].source, u) !in db
  }

  /** The cursor yields one more entry. */
  ghost predicate ScanEntry(rules: seq<Rule>, s: State, t: State, next: int) {
    && s.phase.Processing? && s.phase.eval.Scanning? && s.phase.eval.note.rule < |rules|
    && var n, at, got := s.phase.eval.note, s.phase.eval.at, s.phase.eval.got;
    && IsOlder(rules, s.db, n, at, next)
    && t == s.(phase := s.phase.(eval := Scanning(n, next, got[next := s.db[(rules[n.rule].source, next)]])))
  }

  /** The cursor yields nothing more for the bucket. */
  ghost predicate ScanEnd(rules: seq<Rule>, s: State, t: State) {
    && s.phase.Processing? && s.phase.eval.Scanning? && s.phase.eval.note.rule < |rules|
    && var n, at, got := s.phase.eval.note, s.phase.eval.at, s.phase.eval.got;
    && (forall u :: n.start <= u < at ==> (rules[n.rule].source, u) !in s.db)
    && t == s.(phase := s.phase.(eval := Storing(n, got)))
  }

  /** Stores the result at the bucket's end if any entry was read, and turns to the listeners of
      the derived row. */
  ghost predicate StoreResult(rules: seq<Rule>, s: State, t: State)
    requires Rules(rules)
  {
    && s.phase.Processing? && s.phase.eval.Storing? && s.phase.eval.note.rule < |rules|
    && var n, got := s.phase.eval.note, s.phase.eval.got;
    && var r := rules[n.rule];
    && t == if got == map[]
            then s.(seen := s.seen[n := got], phase := s.phase.(eval := Idle))
            else s.(db := s.db[(r.target, End(rules, n)) := r.compute(got)], seen := s.seen[n := got],
                    phase := s.phase.(eval := Notifying(Listeners(rules, r.target, End(rules, n)))))
  }

  /** EvaluatorNotify by the evaluator itself; after the last one the evaluation is over. */
  ghost predicate EvaluatorNotify(s: State, t: State) {
    && s.phase.Processing? && s.phase.eval.Notifying?
    && t == if s.phase.eval.notes == [] then s.(phase := s.phase.(eval := Idle))
            else s.(queue := s.queue + {s.phase.eval.notes[0]},
                    phase := s.phase.(eval := Notifying(s.phase.eval.notes[1..])))
  }

  /** The end of an iteration of run. */
  ghost predicate Rest(s: State, t: State) {
    && s.phase.Processing? && s.phase.eval.Idle? && s.phase.todo == {}
    && t == s.(phase := if s.phase.done then Exited else Waiting)
  }

  datatype Label =
    | LSet(row: string, value: Value, timestamp: int) | LNotify | LClose | LTake | LPick(n: Note)
    | LScanEntry(next: int) | LScanEnd | LStore | LEvaluatorNotify | LRest

  ghost predicate Step(rules: seq<Rule>, s: State, t: State, l: Label)
    requires Rules(rules)
  {
    match l
    case LSet(row, value, timestamp) => WriterSet(rules, s, t, row, value, timestamp)
    case LNotify => WriterNotify(s, t)
    case LClose => WriterClose(s, t)
    case LTake => Take(s, t)
    case LPick(n) => Pick(rules, s, t, n)
    case LScanEntry(next) => ScanEntry(rules, s, t, next)
    case LScanEnd => ScanEnd(rules, s, t)
    case LStore => StoreResult(rules, s, t)
    case LEvaluatorNotify => EvaluatorNotify(s, t)
    case LRest => Rest(s, t)
  }

  ghost predicate StepAt(rules: seq<Rule>, run: seq<State>, labels: seq<Label>, i: nat)
    requires Rules(rules) && i < |labels| < |run|
  {
    Step(rules, run[i], run[i + 1], labels[i])
  }

  /** Steps with the given labels lead from each state to the next. */
  ghost predicate Steps(rules: seq<Rule>, run: seq<State>, labels: seq<Label>)
    requires Rules(rules)
  {
    |run| == |labels| + 1 && forall i :: 0 <= i < |labels| ==> StepAt(rules, run, labels, i)
  }

  ghost predicate IsRun(rules: seq<Rule>, run: seq<State>, labels: seq<Label>)
    requires Rules(rules)
  {
    Steps(rules, run, labels) && Init(rules, run[0])
  }

  // ---------- The invariant ----------

  /** About to be notified, queued, or taken and waiting for its turn. */
  predicate Due(s: State, n: Note) {
    || n in s.pending || n in s.queue
    || (s.phase.Processing? && (n in s.phase.todo || (s.phase.eval.Notifying? && n in s.phase.eval.notes)))
  }

  /** Being evaluated: its entries are read or its result is about to be stored. */
  predicate InHand(s: State, n: Note) {
    s.phase.Processing? && (s.phase.eval.Scanning? || s.phase.eval.Storing?) && s.phase.eval.note == n
  }

  function Seen(s: State, n: Note): map<int, Value> {
    if n in s.seen then s.seen[n] else map[]
  }

  /** Two readings of a bucket agree but perhaps for an entry exactly at its end. */
  predicate Agree(a: map<int, Value>, b: map<int, Value>, end: int) {
    a - {end} == b - {end}
  }

  /** Unless it is due, what has been read of a bucket is what the store holds of it. */
  ghost predicate Current(rules: seq<Rule>, s: State, n: Note)
    requires IsBucket(rules, n)
  {
    var end := End(rules, n);
    if Due(s, n) then true
    else if InHand(s, n) && s.phase.eval.Scanning? then
      && n.start <= s.phase.eval.at <= end + 1
      && Agree(s.phase.eval.got, Slice(s.db, rules[n.rule].source, s.phase.eval.at, end), end)
    else if InHand(s, n) then Agree(s.phase.eval.got, Bucket(rules, s.db, n), end)
    else Agree(Seen(s, n), Bucket(rules, s.db, n), end)
  }

  /** A bucket's derived entry is the rule's function of the entries last read. */
  ghost predicate Computed(rules: seq<Rule>, s: State, n: Note)
    requires IsBucket(rules, n)
  {
    var key := (rules[n.rule].target, End(rules, n));
    Seen(s, n) != map[] ==> key in s.db && s.db[key] == rules[n.rule].compute(Seen(s, n))
  }

  ghost predicate Inv(rules: seq<Rule>, s: State) {
    && (forall n {:trigger Current(rules, s, n)} {:trigger Computed(rules, s, n)} ::
          IsBucket(rules, n) ==> Current(rules, s, n) && Computed(rules, s, n))
    && (s.phase.Processing? && (s.phase.eval.Scanning? || s.phase.eval.Storing?) ==> IsBucket(rules, s.phase.eval.note))
    && (forall n :: Due(s, n) ==> IsBucket(rules, n))
    && (s.closing ==> s.pending == [])
    && (s.phase.Processing? && s.phase.done ==> s.phase.todo == {} && s.phase.eval.Idle? && s.queue == {} && s.closing)
    && (s.phase.Exited? ==> s.queue == {} && s.closing)
  }

  // ---------- Every step keeps it ----------

  /** Storing an entry changes a bucket's reading only if the entry belongs to the bucket, and then
      its listeners hear of it, or lies exactly at the bucket's end. */
  lemma WriteElsewhere(rules: seq<Rule>, db: Store, n: Note, row: string, timestamp: int, value: Value, lo: int)
    requires Rules(rules) && IsBucket(rules, n) && n.start <= lo
    requires n !in Listeners(rules, row, timestamp)
    ensures Agree(Slice(db[(row, timestamp) := value], rules[n.rule].source, lo, End(rules, n)),
                  Slice(db, rules[n.rule].source, lo, End(rules, n)), End(rules, n))
  {
    var r := rules[n.rule];
    if row == r.source && n.start <= timestamp < End(rules, n) {
      BucketHolds(r, timestamp);
      SameBucket(r, n.start, BucketStart(r, timestamp), timestamp);
      assert false;
    }
  }

  lemma ListenersAreBuckets(rules: seq<Rule>, row: string, timestamp: int, n: Note)
    requires Rules(rules) && n in Listeners(rules, row, timestamp)
    ensures IsBucket(rules, n)
  {
    BucketHolds(rules[n.rule], timestamp);
  }

  lemma WriterSetKeeps(rules: seq<Rule>, s: State, t: State, row: string, value: Value, timestamp: int)
    requires Rules(rules) && Inv(rules, s) && WriterSet(rules, s, t, row, value, timestamp)
    ensures Inv(rules, t)
  {
    forall n | IsBucket(rules, n)
      ensures Current(rules, t, n) && Computed(rules, t, n)
    {
      if !Due(t, n) {
        assert Current(rules, s, n);
        var lo := if InHand(s, n) && s.phase.eval.Scanning? then s.phase.eval.at else n.start;
        WriteElsewhere(rules, s.db, n, row, timestamp, value, lo);
      }
      assert Computed(rules, s, n);
    }
    forall n | Due(t, n) ensures IsBucket(rules, n) {
      if n in t.pending { ListenersAreBuckets(rules, row, timestamp, n); } else { assert Due(s, n); }
    }
  }

  lemma SameStoreKeeps(rules: seq<Rule>, s: State, t: State)
    requires Inv(rules, s) && t.db == s.db && t.seen == s.seen
    requires forall n :: Due(t, n) <==> Due(s, n)
    requires forall n :: InHand(t, n) <==> InHand(s, n)
    requires s.phase.Processing? && (s.phase.eval.Scanning? || s.phase.eval.Storing?) ==>
      t.phase.Processing? && t.phase.eval == s.phase.eval
    ensures forall n :: IsBucket(rules, n) ==> Current(rules, t, n) && Computed(rules, t, n)
    ensures forall n :: Due(t, n) ==> IsBucket(rules, n)
  {
    forall n | IsBucket(rules, n)
      ensures Current(rules, t, n) && Computed(rules, t, n)
    {
      assert Current(rules, s, n) && Computed(rules, s, n);
    }
  }

  lemma PickKeeps(rules: seq<Rule>, s: State, t: State, n: Note)
    requires Rules(rules) && Inv(rules, s) && Pick(rules, s, t, n)
    ensures Inv(rules, t)
  {
    assert Due(s, n);
    forall b | IsBucket(rules, b)
      ensures Current(rules, t, b) && Computed(rules, t, b)
    {
      assert Current(rules, s, b) && Computed(rules, s, b);
    }
    forall b | Due(t, b) ensures IsBucket(rules, b) { assert Due(s, b); }
  }

  lemma AgreeMore(a: map<int, Value>, b: map<int, Value>, end: int, t: int, v: Value)
    requires Agree(a, b, end)
    ensures Agree(a[t := v], b[t := v], end)
  {
    var a', b' := a[t := v] - {end}, b[t := v] - {end};
    assert forall u :: u in a' <==> u != end && (u == t || u in a - {end});
    assert forall u :: u in b' <==> u != end && (u == t || u in b - {end});
    assert forall u :: u in a' ==> a'[u] == (if u == t then v else (a - {end})[u]);
    assert forall u :: u in b' ==> b'[u] == (if u == t then v else (b - {end})[u]);
  }

  lemma ScanEntryKeeps(rules: seq<Rule>, s: State, t: State, next: int)
    requires Rules(rules) && Inv(rules, s) && ScanEntry(rules, s, t, next)
    ensures Inv(rules, t)
  {
    var n, at, got := s.phase.eval.note, s.phase.eval.at, s.phase.eval.got;
    forall b | IsBucket(rules, b)
      ensures Current(rules, t, b) && Computed(rules, t, b)
    {
      assert Current(rules, s, b) && Computed(rules, s, b);
      if b == n && !Due(t, b) {
        var row, end := rules[n.rule].source, End(rules, n);
        assert Slice(s.db, row, next, end) == Slice(s.db, row, at, end)[next := s.db[(row, next)]];
        AgreeMore(got, Slice(s.db, row, at, end), end, next, s.db[(row, next)]);
      }
    }
    forall b | Due(t, b) ensures IsBucket(rules, b) { assert Due(s, b); }
  }

  lemma ScanEndKeeps(rules: seq<Rule>, s: State, t: State)
    requires Rules(rules) && Inv(rules, s) && ScanEnd(rules, s, t)
    ensures Inv(rules, t)
  {
    var n, at := s.phase.eval.note, s.phase.eval.at;
    forall b | IsBucket(rules, b)
      ensures Current(rules, t, b) && Computed(rules, t, b)
    {
      assert Current(rules, s, b) && Computed(rules, s, b);
      if b == n && !Due(t, b) {
        assert Bucket(rules, s.db, n) == Slice(s.db, rules[n.rule].source, at, End(rules, n));
      }
    }
    forall b | Due(t, b) ensures IsBucket(rules, b) { assert Due(s, b); }
  }

  lemma StoreResultKeeps(rules: seq<Rule>, s: State, t: State)
    requires Rules(rules) && Inv(rules, s) && StoreResult(rules, s, t)
    ensures Inv(rules, t)
  {
    var n, got := s.phase.eval.note, s.phase.eval.got;
    var target, end := rules[n.rule].target, End(rules, n);
    forall b | IsBucket(rules, b)
      ensures Current(rules, t, b) && Computed(rules, t, b)
    {
      assert Current(rules, s, b) && Computed(rules, s, b);
      if !Due(t, b) && got != map[] {
        WriteElsewhere(rules, s.db, b, target, end, rules[n.rule].compute(got), b.start);
      }
      if b != n {
        assert b.rule == n.rule ==> End(rules, b) != end;
      }
    }
    forall b | Due(t, b) ensures IsBucket(rules, b) {
      if !Due(s, b) { ListenersAreBuckets(rules, target, end, b); }
    }
  }

  lemma StepKeeps(rules: seq<Rule>, s: State, t: State, l: Label)
    requires Rules(rules) && Inv(rules, s) && Step(rules, s, t, l)
    ensures Inv(rules, t)
  {
    match l {
      case LSet(row, value, timestamp) => WriterSetKeeps(rules, s, t, row, value, timestamp);
      case LPick(n) => PickKeeps(rules, s, t, n);
      case LScanEntry(next) => ScanEntryKeeps(rules, s, t, next);
      case LScanEnd => ScanEndKeeps(rules, s, t);
      case LStore => StoreResultKeeps(rules, s, t);
      case LNotify => SameStoreKeeps(rules, s, t);
      case LClose => SameStoreKeeps(rules, s, t);
      case LTake => SameStoreKeeps(rules, s, t);
      case LEvaluatorNotify => SameStoreKeeps(rules, s, t);
      case LRest => SameStoreKeeps(rules, s, t);
    }
  }

  /** What every reachable state satisfies. */
  ghost predicate Good(rules: seq<Rule>, s: State) {
    Inv(rules, s) && History(rules, s)
  }

  lemma StepAtKeeps(rules: seq<Rule>, run: seq<State>, labels: seq<Label>, i: nat)
    requires Rules(rules) && IsRun(rules, run, labels) && 0 < i < |run| && Good(rules, run[i - 1])
    ensures Good(rules, run[i])
  {
    var j := i - 1;
    assert StepAt(rules, run, labels, j);
    StepKeeps(rules, run[j], run[i], labels[j]);
    HistoryKept(rules, run[j], run[i], labels[j]);
  }

  /** The empty store is a start. */
  lemma EmptyStoreStarts(rules: seq<Rule>)
    requires Rules(rules)
    ensures Init(rules, State(map[], [], {}, false, Waiting, map[], []))
  {
    var s := State(map[], [], {}, false, Waiting, map[], []);
    forall n | IsBucket(rules, n) ensures Current(rules, s, n) {
      assert Bucket(rules, s.db, n) == map[];
    }
  }

  lemma {:induction false} RunInv(rules: seq<Rule>, run: seq<State>, labels: seq<Label>, i: nat)
    requires Rules(rules) && IsRun(rules, run, labels) && i < |run|
    ensures Good(rules, run[i])
  {
    if i > 0 {
      assert Good(rules, run[i]) by {
        RunInv(rules, run, labels, i - 1);
        StepAtKeeps(rules, run, labels, i);
      }
    }
  }

  // ---------- What evaluations have read stays stored ----------

  /** A reading of bucket n consists of entries the store (still) has. */
  ghost predicate ReadFrom(rules: seq<Rule>, db: Store, n: Note, entries: map<int, Value>)
    requires n.rule < |rules|
  {
    forall t :: t in entries ==> n.start <= t <= End(rules, n) && (rules[n.rule].source, t) in db
  }

  ghost predicate History(rules: seq<Rule>, s: State) {
    && (forall n :: IsBucket(rules, n) ==>
          && ReadFrom(rules, s.db, n, Seen(s, n))
          && (Seen(s, n) == map[] ==> (rules[n.rule].target, End(rules, n)) !in s.db))
    && (s.phase.Processing? && s.phase.eval.Scanning? && IsBucket(rules, s.phase.eval.note) ==>
          && s.phase.eval.at <= End(rules, s.phase.eval.note) + 1
          && ReadFrom(rules, s.db, s.phase.eval.note, s.phase.eval.got)
          && forall t :: t in Seen(s, s.phase.eval.note) && t >= s.phase.eval.at ==> t in s.phase.eval.got)
    && (s.phase.Processing? && s.phase.eval.Storing? && IsBucket(rules, s.phase.eval.note) ==>
          && ReadFrom(rules, s.db, s.phase.eval.note, s.phase.eval.got)
          && forall t :: t in Seen(s, s.phase.eval.note) ==> t in s.phase.eval.got)
  }

  lemma StoreHistory(rules: seq<Rule>, s: State, t: State)
    requires Rules(rules) && Inv(rules, s) && History(rules, s) && StoreResult(rules, s, t)
    ensures History(rules, t)
  {
    var n, got := s.phase.eval.note, s.phase.eval.got;
    assert Seen(t, n) == got;
    forall b | IsBucket(rules, b)
      ensures ReadFrom(rules, t.db, b, Seen(t, b))
      ensures Seen(t, b) == map[] ==> (rules[b.rule].target, End(rules, b)) !in t.db
    {
      assert ReadFrom(rules, s.db, b, Seen(s, b));
      if b != n {
        assert Seen(t, b) == Seen(s, b);
        assert b.rule == n.rule ==> End(rules, b) != End(rules, n);
      } else if got == map[] {
        assert forall u :: u !in Seen(s, n);
        assert Seen(s, n) == map[];
      }
    }
  }

  /** All other steps keep what was seen and take nothing out of the store. */
  lemma SeenHistory(rules: seq<Rule>, s: State, t: State)
    requires Rules(rules) && History(rules, s) && t.seen == s.seen
    requires forall k :: k in s.db ==> k in t.db
    requires forall k, i :: k in t.db && k !in s.db && 0 <= i < |rules| ==> k.0 != rules[i].target
    ensures forall b :: IsBucket(rules, b) ==>
      ReadFrom(rules, t.db, b, Seen(t, b)) && (Seen(t, b) == map[] ==> (rules[b.rule].target, End(rules, b)) !in t.db)
  {
    forall b | IsBucket(rules, b)
      ensures ReadFrom(rules, t.db, b, Seen(t, b))
      ensures Seen(t, b) == map[] ==> (rules[b.rule].target, End(rules, b)) !in t.db
    {
      assert ReadFrom(rules, s.db, b, Seen(s, b)) && Seen(t, b) == Seen(s, b);
    }
  }

  lemma ScanHistory(rules: seq<Rule>, s: State, t: State, next: int)
    requires Rules(rules) && Inv(rules, s) && History(rules, s) && ScanEntry(rules, s, t, next)
    ensures History(rules, t)
  {
    SeenHistory(rules, s, t);
  }

  lemma HistoryKept(rules: seq<Rule>, s: State, t: State, l: Label)
    requires Rules(rules) && Inv(rules, s) && History(rules, s) && Step(rules, s, t, l)
    ensures History(rules, t)
  {
    match l {
      case LStore => StoreHistory(rules, s, t);
      case LScanEntry(next) => ScanHistory(rules, s, t, next);
      case _ => SeenHistory(rules, s, t);
    }
  }

  // ---------- Derived rows are never silently stale ----------

  /** A bucket holding source entries has the derived entry its rule computes from them. */
  ghost predicate UpToDate(rules: seq<Rule>, db: Store, n: Note)
    requires IsBucket(rules, n)
  {
    var entries, key := Bucket(rules, db, n), (rules[n.rule].target, End(rules, n));
    entries != map[] ==> key in db && db[key] == rules[n.rule].compute(entries)
  }

  /** What the last evaluation saw exactly at the bucket's end is what is there now. */
  predicate EndAsSeen(rules: seq<Rule>, s: State, n: Note)
    requires n.rule < |rules|
  {
    var end, now := End(rules, n), Bucket(rules, s.db, n);
    if end in now then end in Seen(s, n) && Seen(s, n)[end] == now[end] else end !in Seen(s, n)
  }

  lemma AgreeAtEnd(a: map<int, Value>, b: map<int, Value>, end: int)
    requires Agree(a, b, end) && if end in b then end in a && a[end] == b[end] else end !in a
    ensures a == b
  {
    forall t ensures (t in a <==> t in b) && (t in a ==> a[t] == b[t]) {
      if t != end {
        assert t in a <==> t in a - {end};
        assert t in b <==> t in b - {end};
        if t in a { assert (a - {end})[t] == a[t] && (b - {end})[t] == b[t]; }
      }
    }
  }

  /** The last evaluation saw a reading with the result that the bucket has now. */
  ghost predicate SeenResult(rules: seq<Rule>, s: State, n: Note)
    requires n.rule < |rules|
  {
    Seen(s, n) != map[] && rules[n.rule].compute(Seen(s, n)) == rules[n.rule].compute(Bucket(rules, s.db, n))
  }

  /** In every state of every run, a bucket that is neither due nor in hand is up to date exactly when
      the last evaluation saw a reading with the same result, in particular if nothing at its end
      changed since. */
  lemma NeverSilentlyStale(rules: seq<Rule>, run: seq<State>, labels: seq<Label>, i: nat, n: Note)
    requires Rules(rules) && IsRun(rules, run, labels) && i < |run| && IsBucket(rules, n)
    requires !Due(run[i], n) && !InHand(run[i], n)
    ensures UpToDate(rules, run[i].db, n) <==> Bucket(rules, run[i].db, n) == map[] || SeenResult(rules, run[i], n)
    ensures EndAsSeen(rules, run[i], n) ==> UpToDate(rules, run[i].db, n)
  {
    RunInv(rules, run, labels, i);
    GoodIsExact(rules, run[i], n);
    if EndAsSeen(rules, run[i], n) {
      assert Current(rules, run[i], n);
      AgreeAtEnd(Seen(run[i], n), Bucket(rules, run[i].db, n), End(rules, n));
    }
  }

  lemma GoodIsExact(rules: seq<Rule>, s: State, n: Note)
    requires Rules(rules) && Good(rules, s) && IsBucket(rules, n)
    ensures UpToDate(rules, s.db, n) <==> Bucket(rules, s.db, n) == map[] || SeenResult(rules, s, n)
  {
    assert Computed(rules, s, n);
    assert Seen(s, n) == map[] ==> (rules[n.rule].target, End(rules, n)) !in s.db;
  }

  /** In particular where no source entry lies exactly on the end of a bucket. */
  lemma InteriorNeverStale(rules: seq<Rule>, run: seq<State>, labels: seq<Label>, i: nat, n: Note)
    requires Rules(rules) && IsRun(rules, run, labels) && i < |run| && IsBucket(rules, n)
    requires (rules[n.rule].source, End(rules, n)) !in run[i].db
    ensures Due(run[i], n) || InHand(run[i], n) || UpToDate(rules, run[i].db, n)
  {
    if !Due(run[i], n) && !InHand(run[i], n) {
      RunInv(rules, run, labels, i);
      assert ReadFrom(rules, run[i].db, n, Seen(run[i], n));
      NeverSilentlyStale(rules, run, labels, i, n);
    }
  }

  /** The evaluator returns only when nothing is left to notify, to take or to work on. */
  lemma NothingLeftBehind(rules: seq<Rule>, run: seq<State>, labels: seq<Label>, i: nat, n: Note)
    requires Rules(rules) && IsRun(rules, run, labels) && i < |run| && run[i].phase.Exited?
    ensures run[i].closing && !Due(run[i], n) && !InHand(run[i], n)
  {
    RunInv(rules, run, labels, i);
  }

  /** So once Close has seen the evaluator end, every bucket without an entry on its end is up to
      date. */
  lemma UpToDateAfterClose(rules: seq<Rule>, run: seq<State>, labels: seq<Label>, i: nat, n: Note)
    requires Rules(rules) && IsRun(rules, run, labels) && i < |run| && run[i].phase.Exited?
    requires IsBucket(rules, n) && (rules[n.rule].source, End(rules, n)) !in run[i].db
    ensures UpToDate(rules, run[i].db, n)
  {
    NothingLeftBehind(rules, run, labels, i, n);
    InteriorNeverStale(rules, run, labels, i, n);
  }

  // ---------- Buckets and derived entries by timestamp ----------

  /** The bucket of a timestamp, in microseconds: the multiple of the bucket length at or before it. */
  lemma BucketOf(r: Rule, timestamp: int)
    requires r.steps > 0
    ensures BucketStart(r, timestamp) == timestamp / (1000000 * r.steps) * (1000000 * r.steps)
  {
    assert Period(r) == 1000000 * r.steps;
  }

  /** Two timestamps share a bucket exactly when they have the same quotient by the bucket length. */
  lemma SameQuotient(r: Rule, a: int, b: int)
    requires r.steps > 0
    ensures BucketStart(r, a) == BucketStart(r, b) <==> a / (1000000 * r.steps) == b / (1000000 * r.steps)
  {
    var p := 1000000 * r.steps;
    BucketOf(r, a);
    BucketOf(r, b);
    var i, j := a / p, b / p;
    assert (i - j) * p == i * p - j * p;
    Multiple(i - j, p);
  }

  /** A Set notifies exactly the rules on its row, each for the bucket of its timestamp. */
  lemma SetNotifies(rules: seq<Rule>, s: State, t: State, row: string, value: Value, timestamp: int, n: Note)
    requires Rules(rules) && WriterSet(rules, s, t, row, value, timestamp)
    ensures n in t.pending <==>
      && n.rule < |rules| && rules[n.rule].source == row
      && n.start == timestamp / (1000000 * rules[n.rule].steps) * (1000000 * rules[n.rule].steps)
  {
    if n.rule < |rules| { BucketOf(rules[n.rule], timestamp); }
  }

  /** The evaluation of the bucket of a timestamp stores its result at the next multiple. */
  lemma StoredAtNext(rules: seq<Rule>, s: State, t: State, timestamp: int)
    requires Rules(rules) && StoreResult(rules, s, t) && s.phase.eval.got != map[]
    requires s.phase.eval.note.start == BucketStart(rules[s.phase.eval.note.rule], timestamp)
    ensures var r := rules[s.phase.eval.note.rule];
      t.db == s.db[(r.target, (timestamp / (1000000 * r.steps) + 1) * (1000000 * r.steps)) :=
                     r.compute(s.phase.eval.got)]
  {
    var r := rules[s.phase.eval.note.rule];
    var q, p := timestamp / (1000000 * r.steps), 1000000 * r.steps;
    BucketOf(r, timestamp);
    assert (q + 1) * p == q * p + p;
  }

  /** The entries of derived rows lie on multiples of the bucket length. */
  ghost predicate DerivedAtEnds(rules: seq<Rule>, db: Store) {
    forall k, i {:trigger k in db, rules[i]} ::
      k in db && 0 <= i < |rules| && rules[i].steps > 0 && k.0 == rules[i].target ==>
        k.1 % (1000000 * rules[i].steps) == 0
  }

  lemma StepDerives(rules: seq<Rule>, s: State, t: State, l: Label)
    requires Rules(rules) && Inv(rules, s) && Step(rules, s, t, l) && DerivedAtEnds(rules, s.db)
    ensures DerivedAtEnds(rules, t.db)
  {
    if l.LStore? {
      var n := s.phase.eval.note;
      var p, q := Period(rules[n.rule]), n.start / Period(rules[n.rule]);
      assert End(rules, n) == (q + 1) * p by { assert (q + 1) * p == q * p + p; }
      MultipleModulo(q + 1, p);
    }
  }

  lemma {:induction false} RunDerives(rules: seq<Rule>, run: seq<State>, labels: seq<Label>, i: nat)
    requires Rules(rules) && IsRun(rules, run, labels) && DerivedAtEnds(rules, run[0].db) && i < |run|
    ensures DerivedAtEnds(rules, run[i].db)
  {
    if i > 0 {
      RunDerives(rules, run, labels, i - 1);
      RunInv(rules, run, labels, i - 1);
      var j := i - 1;
      assert StepAt(rules, run, labels, j);
      StepDerives(rules, run[j], run[i], labels[j]);
    }
  }

  /** The readings of the half-open interval before e. */
  function Before(db: Store, row: string, length: int, e: int): map<int, Value> {
    map t: int | e - length <= t < e && (row, t) in db :: db[(row, t)]
  }

  /** A derived row once Close has seen the evaluator end: it has an entry at e exactly when e is a multiple of
      the bucket length and the source row has entries in the bucket before e, and that is the rule's function
      of them. Where the source row has an entry exactly at e, Settled decides. */
  lemma DerivedRow(rules: seq<Rule>, run: seq<State>, labels: seq<Label>, i: nat, rule: nat, e: int)
    requires Rules(rules) && IsRun(rules, run, labels) && DerivedAtEnds(rules, run[0].db)
    requires i < |run| && run[i].phase.Exited? && rule < |rules| && (rules[rule].source, e) !in run[i].db
    ensures var db, r := run[i].db, rules[rule];
      var entries := Before(db, r.source, 1000000 * r.steps, e);
      && ((r.target, e) in db <==> e % (1000000 * r.steps) == 0 && entries != map[])
      && ((r.target, e) in db ==> db[(r.target, e)] == r.compute(entries))
  {
    RunDerives(rules, run, labels, i);
    RunInv(rules, run, labels, i);
    var db, r := run[i].db, rules[rule];
    var p := Period(r);
    if e % p == 0 {
      var n := Note(rule, e - p);
      StartsAtMultiple(e, p);
      UpToDateAfterClose(rules, run, labels, i, n);
      assert Bucket(rules, db, n) == Before(db, r.source, p, e);
      assert ReadFrom(rules, db, n, Seen(run[i], n));
      if Bucket(rules, db, n) == map[] {
        assert forall t :: t in Seen(run[i], n) ==> t in Bucket(rules, db, n);
        assert Seen(run[i], n) == map[];
      }
    } else if (r.target, e) in db {
      assert r == rules[rule];
    }
  }

  lemma StartsAtMultiple(e: int, p: int)
    requires p > 0 && e % p == 0
    ensures (e - p) % p == 0
  {
    var q := e / p;
    assert e - p == (q - 1) * p by { assert (q - 1) * p == q * p - p; }
    MultipleModulo(q - 1, p);
  }
}
