/** Batching of input tokens into tasks, and the pool of workers that runs them (dxargs/dxargs.py). */
module TaskPool {

  // ---------- Batching ----------

  /** What a task runs on, and its number. */
  datatype Task = Task(args: seq<string>, id: nat)

  function Flatten(ss: seq<seq<string>>): seq<string> {
    if ss == [] then [] else Flatten(ss[..|ss| - 1]) + ss[|ss| - 1]
  }

  /** The arguments of all tasks in order. */
  function Arguments(tasks: seq<Task>): seq<string> {
    if tasks == [] then [] else Arguments(tasks[..|tasks| - 1]) + tasks[|tasks| - 1].args
  }

  /** Numbered from 0 and full. */
  predicate Full(tasks: seq<Task>, n: nat) {
    forall k :: 0 <= k < |tasks| ==> tasks[k].id == k && |tasks[k].args| == n
  }

  /** Tasks of exactly n arguments, numbered in order; only the last may be shorter, and none is empty. */
  predicate Batches(tasks: seq<Task>, n: nat) {
    tasks == [] || (Full(tasks[..|tasks| - 1], n)
                    && tasks[|tasks| - 1].id == |tasks| - 1 && 0 < |tasks[|tasks| - 1].args| <= n)
  }

  /** Splits off full tasks as long as there are enough tokens. */
  method Split(tasks: seq<Task>, tokens: seq<string>, n: nat) returns (tasks': seq<Task>, tokens': seq<string>)
    requires n >= 1 && Full(tasks, n)
    ensures Full(tasks', n) && |tokens'| < n && Arguments(tasks') + tokens' == Arguments(tasks) + tokens
  {
    tasks', tokens' := tasks, tokens;
    while Enough(tokens', n)
      invariant Full(tasks', n) && Arguments(tasks') + tokens' == Arguments(tasks) + tokens
      decreases |tokens'|
    {
      ghost var before := tasks';
      tasks' := tasks' + [Task(tokens'[..n], |tasks'|)];
      assert tasks'[..|before|] == before;
      assert Arguments(before) + tokens' == Arguments(before) + tokens'[..n] + tokens'[n..];
      tokens' := tokens'[n..];
    }
  }

  /** The test of the inner loop. */
  predicate Enough(tokens: seq<string>, n: int) {
    |tokens| >= n
  }

  /** With a batch size below 1 the inner loop, once entered, never ends: its test holds of any tokens. */
  lemma NeverEnds(n: int)
    ensures n < 1 <==> forall tokens :: Enough(tokens, n)
  {
    if n >= 1 { assert !Enough([], n); }
  }

  /** The batching loop of main over the token lists of the input lines. A batch size below 1 is harmless
      only if there is no line to batch. */
  method Batch(lines: seq<seq<string>>, n: int) returns (tasks: seq<Task>)
    requires n >= 1 || lines == []
    ensures Arguments(tasks) == Flatten(lines) && if n >= 1 then Batches(tasks, n) else tasks == []
  {
    tasks := [];
    var tokens := [];
    for i := 0 to |lines|
      invariant n >= 1 ==> Full(tasks, n) && |tokens| < n
      invariant lines == [] ==> tasks == [] && tokens == []
      invariant Arguments(tasks) + tokens == Flatten(lines[..i])
    {
      assert lines[..i + 1][..i] == lines[..i];
      assert Arguments(tasks) + (tokens + lines[i]) == Arguments(tasks) + tokens + lines[i];
      tasks, tokens := Split(tasks, tokens + lines[i], n);
    }
    assert lines[..|lines|] == lines;
    if |tokens| > 0 {
      ghost var before := tasks;
      tasks := tasks + [Task(tokens[..if |tokens| < n then |tokens| else n], |tasks|)];
      assert tasks[..|before|] == before;
    }
  }

  /** There is one way to batch the tokens. */
  lemma {:induction false} BatchesUnique(a: seq<Task>, b: seq<Task>, n: nat)
    requires n >= 1 && Batches(a, n) && Batches(b, n) && Arguments(a) == Arguments(b)
    ensures a == b
  {
    BatchesLength(a, n);
    BatchesLength(b, n);
    if a != [] && b != [] {
      SameCount(|a|, |b|, n, |Arguments(a)|);
      var fa, fb, la, lb := a[..|a| - 1], b[..|b| - 1], a[|a| - 1], b[|b| - 1];
      FullLength(fa, n);
      FullLength(fb, n);
      assert Arguments(a)[..|Arguments(fa)|] == Arguments(fa) && Arguments(a)[|Arguments(fa)|..] == la.args;
      assert Arguments(b)[..|Arguments(fb)|] == Arguments(fb) && Arguments(b)[|Arguments(fb)|..] == lb.args;
      FullUnique(fa, fb, n);
      assert a == fa + [la] && b == fb + [lb];
    }
  }

  lemma {:induction false} FullUnique(a: seq<Task>, b: seq<Task>, n: nat)
    requires Full(a, n) && Full(b, n) && |a| == |b| && Arguments(a) == Arguments(b)
    ensures a == b
  {
    if a != [] {
      var fa, fb, la, lb := a[..|a| - 1], b[..|b| - 1], a[|a| - 1], b[|b| - 1];
      FullLength(fa, n);
      FullLength(fb, n);
      assert Arguments(a)[..|Arguments(fa)|] == Arguments(fa) && Arguments(a)[|Arguments(fa)|..] == la.args;
      assert Arguments(b)[..|Arguments(fb)|] == Arguments(fb) && Arguments(b)[|Arguments(fb)|..] == lb.args;
      FullUnique(fa, fb, n);
      assert a == fa + [la] && b == fb + [lb];
    }
  }

  lemma {:induction false} FullLength(tasks: seq<Task>, n: nat)
    requires Full(tasks, n)
    ensures |Arguments(tasks)| == |tasks| * n
  {
    if tasks != [] {
      var q := |tasks| - 1;
      FullLength(tasks[..q], n);
      assert |tasks| * n == q * n + n;
    }
  }

  /** The number of tasks is fixed by the number of tokens. */
  lemma BatchesLength(tasks: seq<Task>, n: nat)
    requires n >= 1 && Batches(tasks, n)
    ensures (|tasks| as int - 1) * n < |Arguments(tasks)| <= |tasks| * n || (tasks == [] && Arguments(tasks) == [])
  {
    if tasks != [] {
      var q, last := |tasks| - 1, |tasks[|tasks| - 1].args|;
      FullLength(tasks[..q], n);
      assert |Arguments(tasks)| == q * n + last;
      assert |tasks| * n == q * n + n;
    }
  }

  lemma SameCount(p: int, q: int, n: nat, length: nat)
    requires (p - 1) * n < length <= p * n && (q - 1) * n < length <= q * n
    ensures p == q
  {
    if p < q { Scale(p, q - 1, n); }
    if q < p { Scale(q, p - 1, n); }
  }

  lemma Scale(a: int, b: int, n: nat)
    requires a <= b
    ensures a * n <= b * n
  {
  }

  // ---------- The pool as a state machine ----------

  datatype Item = Work(id: nat) | Stop

  datatype Worker = Idle | Running(id: nat) | Stopped

  /** The queue and the workers, how many items the main thread has put and how many workers it has
      joined. `log` records which worker took which task, `done` the tasks that returned. */
  datatype Pool = Pool(sent: nat, queue: seq<Item>, workers: seq<Worker>, joined: nat,
                       log: seq<(nat, nat)>, done: seq<nat>)

  predicate Init(size: nat, s: Pool) {
    s == Pool(0, [], seq(size, i => Idle), 0, [], [])
  }

  /** What the main thread puts k-th: the tasks, and after them one stop task for each worker. */
  function Put(tasks: nat, k: nat): Item {
    if k < tasks then Work(k) else Stop
  }

  datatype Event = Submit | Take(worker: nat) | Return(worker: nat) | Join

  predicate Enabled(tasks: nat, size: nat, s: Pool, e: Event) {
    match e
    case Submit => s.sent < tasks + size
    case Take(w) => w < |s.workers| && s.workers[w] == Idle && s.queue != []
    case Return(w) => w < |s.workers| && s.workers[w].Running?
    case Join => s.sent == tasks + size && s.joined < |s.workers| && s.workers[s.joined] == Stopped
  }

  function Next(tasks: nat, size: nat, s: Pool, e: Event): Pool
    requires Enabled(tasks, size, s, e)
  {
    match e
    case Submit => s.(sent := s.sent + 1, queue := s.queue + [Put(tasks, s.sent)])
    case Take(w) =>
      (match s.queue[0]
       case Work(i) => s.(queue := s.queue[1..], workers := s.workers[w := Running(i)], log := s.log + [(w, i)])
       case Stop => s.(queue := s.queue[1..], workers := s.workers[w := Stopped]))
    case Return(w) => s.(workers := s.workers[w := Idle], done := s.done + [s.workers[w].id])
    case Join => s.(joined := s.joined + 1)
  }

  /** A run from the start: every state follows from the one before by an enabled event. */
  ghost predicate Run(tasks: nat, size: nat, run: seq<Pool>, events: seq<Event>) {
    && |run| == |events| + 1 && Init(size, run[0])
    && forall j :: 0 <= j < |events| ==> Steps(tasks, size, run[j], events[j], run[j + 1])
  }

  ghost predicate Steps(tasks: nat, size: nat, s: Pool, e: Event, s': Pool) {
    Enabled(tasks, size, s, e) && s' == Next(tasks, size, s, e)
  }

  // ---------- What every step keeps ----------

  function Count(ws: seq<Worker>, f: Worker -> bool): (c: nat)
    ensures c <= |ws|
    ensures c == |ws| <==> forall w :: 0 <= w < |ws| ==> f(ws[w])
    ensures c == 0 <==> forall w :: 0 <= w < |ws| ==> !f(ws[w])
  {
    if ws == [] then 0
    else
      assert forall w :: 0 < w < |ws| ==> ws[w] == ws[1..][w - 1];
      (if f(ws[0]) then 1 else 0) + Count(ws[1..], f)
  }

  lemma {:induction false} CountUpdate(ws: seq<Worker>, w: nat, x: Worker, f: Worker -> bool)
    requires w < |ws|
    ensures Count(ws[w := x], f) + (if f(ws[w]) then 1 else 0) == Count(ws, f) + (if f(x) then 1 else 0)
  {
    if w > 0 {
      assert ws[w := x][1..] == ws[1..][w - 1 := x];
      CountUpdate(ws[1..], w - 1, x, f);
    } else {
      assert ws[w := x][1..] == ws[1..];
    }
  }

  function Halted(ws: seq<Worker>): nat { Count(ws, (w: Worker) => w.Stopped?) }
  function Busy(ws: seq<Worker>): nat { Count(ws, (w: Worker) => w.Running?) }

  lemma WorkerChanges(ws: seq<Worker>, w: nat, x: Worker)
    requires w < |ws|
    ensures Halted(ws[w := x]) + (if ws[w].Stopped? then 1 else 0) == Halted(ws) + (if x.Stopped? then 1 else 0)
    ensures Busy(ws[w := x]) + (if ws[w].Running? then 1 else 0) == Busy(ws) + (if x.Running? then 1 else 0)
  {
    CountUpdate(ws, w, x, (w: Worker) => w.Stopped?);
    CountUpdate(ws, w, x, (w: Worker) => w.Running?);
  }

  /** How many items workers have taken. */
  function Taken(s: Pool): int { s.sent - |s.queue| }

  ghost predicate QueueInv(tasks: nat, size: nat, s: Pool) {
    && 0 <= Taken(s) && s.sent <= tasks + size && |s.workers| == size
    && (forall j :: 0 <= j < |s.queue| ==> s.queue[j] == Put(tasks, Taken(s) + j))
    && Halted(s.workers) == (if Taken(s) > tasks then Taken(s) - tasks else 0)
    && s.joined <= size && (s.joined > 0 ==> s.sent == tasks + size)
    && forall w :: 0 <= w < s.joined ==> s.workers[w] == Stopped
  }

  /** Tasks are taken in order, each by one worker, which still runs it or has returned it once. */
  ghost predicate LogInv(tasks: nat, s: Pool) {
    && |s.log| == (if Taken(s) < tasks then Taken(s) else tasks)
    && (forall i :: 0 <= i < |s.log| ==> s.log[i].1 == i && s.log[i].0 < |s.workers|)
    && (forall i :: 0 <= i < |s.log| ==> (i in s.done <==> s.workers[s.log[i].0] != Running(i)))
    && (forall w :: 0 <= w < |s.workers| && s.workers[w].Running? ==>
          s.workers[w].id < |s.log| && s.log[s.workers[w].id].0 == w)
    && Once(s.done, |s.log|) && |s.done| + Busy(s.workers) == |s.log|
  }

  /** Different numbers below n. */
  ghost predicate Once(done: seq<nat>, n: nat) {
    (forall i, j :: 0 <= i < j < |done| ==> done[i] != done[j]) && forall i :: i in done ==> i < n
  }

  lemma OnceMore(done: seq<nat>, t: nat, n: nat)
    requires Once(done, n) && t !in done && t < n
    ensures Once(done + [t], n)
  {
  }

  ghost predicate Inv(tasks: nat, size: nat, s: Pool) {
    QueueInv(tasks, size, s) && LogInv(tasks, s)
  }

  lemma StepKeeps(tasks: nat, size: nat, s: Pool, e: Event)
    requires Inv(tasks, size, s) && Enabled(tasks, size, s, e)
    ensures Inv(tasks, size, Next(tasks, size, s, e))
  {
    match e {
      case Submit =>
      case Take(w) => TakeKeeps(tasks, size, s, w);
      case Return(w) => ReturnKeeps(tasks, size, s, w);
      case Join =>
    }
  }

  lemma TakeKeeps(tasks: nat, size: nat, s: Pool, w: nat)
    requires Inv(tasks, size, s) && Enabled(tasks, size, s, Take(w))
    ensures Inv(tasks, size, Next(tasks, size, s, Take(w)))
  {
    TakeQueued(tasks, size, s, w);
    assert s.queue[0] == Put(tasks, Taken(s) + 0);
    if s.queue[0].Stop? { StopLogged(tasks, size, s, w); } else { WorkLogged(tasks, size, s, w); }
  }

  lemma TakeQueued(tasks: nat, size: nat, s: Pool, w: nat)
    requires QueueInv(tasks, size, s) && Enabled(tasks, size, s, Take(w))
    ensures QueueInv(tasks, size, Next(tasks, size, s, Take(w)))
  {
    assert s.queue[0] == Put(tasks, Taken(s) + 0);
    WorkerChanges(s.workers, w, if s.queue[0].Work? then Running(s.queue[0].id) else Stopped);
  }

  lemma StopLogged(tasks: nat, size: nat, s: Pool, w: nat)
    requires Inv(tasks, size, s) && Enabled(tasks, size, s, Take(w)) && s.queue[0].Stop?
    requires Taken(s) >= tasks
    ensures LogInv(tasks, Next(tasks, size, s, Take(w)))
  {
    WorkerChanges(s.workers, w, Stopped);
    var s' := Next(tasks, size, s, Take(w));
    assert s'.log == s.log && s'.done == s.done && s'.workers == s.workers[w := Stopped];
    assert forall i :: 0 <= i < |s.log| ==>
      (s'.workers[s.log[i].0] == Running(i) <==> s.workers[s.log[i].0] == Running(i));
  }

  lemma WorkLogged(tasks: nat, size: nat, s: Pool, w: nat)
    requires Inv(tasks, size, s) && Enabled(tasks, size, s, Take(w)) && s.queue[0].Work?
    requires s.queue[0].id == Taken(s) < tasks
    ensures LogInv(tasks, Next(tasks, size, s, Take(w)))
  {
    var s', t := Next(tasks, size, s, Take(w)), Taken(s);
    WorkerChanges(s.workers, w, Running(t));
    assert s'.log == s.log + [(w, t)] && s'.done == s.done && s'.workers == s.workers[w := Running(t)];
    assert forall i :: 0 <= i < |s.log| ==>
      (s'.workers[s.log[i].0] == Running(i) <==> s.workers[s.log[i].0] == Running(i));
  }

  lemma ReturnKeeps(tasks: nat, size: nat, s: Pool, w: nat)
    requires Inv(tasks, size, s) && Enabled(tasks, size, s, Return(w))
    ensures Inv(tasks, size, Next(tasks, size, s, Return(w)))
  {
    ReturnQueued(tasks, size, s, w);
    ReturnLogged(tasks, size, s, w);
  }

  lemma ReturnQueued(tasks: nat, size: nat, s: Pool, w: nat)
    requires QueueInv(tasks, size, s) && Enabled(tasks, size, s, Return(w))
    ensures QueueInv(tasks, size, Next(tasks, size, s, Return(w)))
  {
    WorkerChanges(s.workers, w, Idle);
  }

  lemma ReturnLogged(tasks: nat, size: nat, s: Pool, w: nat)
    requires LogInv(tasks, s) && Enabled(tasks, size, s, Return(w))
    ensures LogInv(tasks, Next(tasks, size, s, Return(w)))
  {
    var s', t := Next(tasks, size, s, Return(w)), s.workers[w].id;
    WorkerChanges(s.workers, w, Idle);
    assert s'.log == s.log && s'.done == s.done + [t] && s'.workers == s.workers[w := Idle];
    assert t !in s.done;
    OnceMore(s.done, t, |s.log|);
    forall i | 0 <= i < |s.log| ensures i in s'.done <==> s'.workers[s'.log[i].0] != Running(i) {
      if i != t { assert s'.workers[s.log[i].0] == Running(i) <==> s.workers[s.log[i].0] == Running(i); }
    }
  }

  lemma {:induction false} RunInv(tasks: nat, size: nat, run: seq<Pool>, events: seq<Event>, j: nat)
    requires Run(tasks, size, run, events) && j < |run|
    ensures Inv(tasks, size, run[j])
  {
    if j > 0 {
      RunInv(tasks, size, run, events, j - 1);
      assert Steps(tasks, size, run[j - 1], events[j - 1], run[j - 1 + 1]);
      StepKeeps(tasks, size, run[j - 1], events[j - 1]);
    }
  }

  // ---------- Runs end, and with everything done ----------

  /** What is left: items to put and to take, tasks to return, workers to join. */
  function Remaining(tasks: nat, size: nat, s: Pool): int {
    (tasks + size - s.sent) + (tasks + size - Taken(s)) + (tasks - |s.done|) + (size - s.joined)
  }

  /** Every step does one unit of the work: no run is longer than 3 * (tasks + workers). */
  lemma {:induction false} RunsAreBounded(tasks: nat, size: nat, run: seq<Pool>, events: seq<Event>)
    requires Run(tasks, size, run, events)
    ensures |events| <= 3 * (tasks + size)
    ensures |events| == 3 * (tasks + size) - Remaining(tasks, size, run[|events|])
  {
    RunInv(tasks, size, run, events, |events|);
    if events != [] {
      var n := |events| - 1;
      assert Steps(tasks, size, run[n], events[n], run[n + 1]);
      RunsAreBounded(tasks, size, run[..n + 1], events[..n]);
    }
  }

  /** While some work is left an event is enabled, provided there is a worker. */
  lemma NoDeadlock(tasks: nat, size: nat, s: Pool) returns (e: Event)
    requires Inv(tasks, size, s) && Remaining(tasks, size, s) > 0 && size >= 1
    ensures Enabled(tasks, size, s, e)
  {
    if s.sent < tasks + size {
      e := Submit;
    } else if Busy(s.workers) > 0 {
      var w :| 0 <= w < |s.workers| && s.workers[w].Running?;
      e := Return(w);
    } else if s.queue != [] {
      var w :| 0 <= w < |s.workers| && !s.workers[w].Stopped?;
      assert !((w: Worker) => w.Running?)(s.workers[w]);
      e := Take(w);
    } else {
      assert forall w :: 0 <= w < |s.workers| ==> s.workers[w].Stopped?;
      e := Join;
    }
  }

  /** Where a run can go no further every worker has stopped and been joined, and every task was
      taken by one worker, in order, and returned once. */
  lemma Completion(tasks: nat, size: nat, run: seq<Pool>, events: seq<Event>)
    requires Run(tasks, size, run, events) && size >= 1
    requires forall e :: !Enabled(tasks, size, run[|events|], e)
    ensures var s := run[|events|];
      && |s.workers| == size && (forall w :: 0 <= w < size ==> s.workers[w] == Stopped) && s.joined == size
      && |s.log| == tasks && (forall i :: 0 <= i < tasks ==> s.log[i].1 == i && i in s.done)
      && |s.done| == tasks
    ensures |events| == 3 * (tasks + size)
  {
    var s := run[|events|];
    RunInv(tasks, size, run, events, |events|);
    RunsAreBounded(tasks, size, run, events);
    if Remaining(tasks, size, s) > 0 {
      var e := NoDeadlock(tasks, size, s);
    }
  }

  /** No stop task is taken before every task has been. */
  lemma StopsComeLast(tasks: nat, size: nat, run: seq<Pool>, events: seq<Event>, j: nat, w: nat)
    requires Run(tasks, size, run, events) && j < |run|
    requires w < |run[j].workers| && run[j].workers[w] == Stopped
    ensures |run[j].log| == tasks
  {
    RunInv(tasks, size, run, events, j);
  }

  /** Without workers no task is ever run. */
  lemma {:induction false} NobodyWorks(tasks: nat, run: seq<Pool>, events: seq<Event>, j: nat)
    requires Run(tasks, 0, run, events) && j < |run|
    ensures run[j].log == [] && run[j].done == []
  {
    if j > 0 {
      NobodyWorks(tasks, run, events, j - 1);
      RunInv(tasks, 0, run, events, j - 1);
      assert Steps(tasks, 0, run[j - 1], events[j - 1], run[j - 1 + 1]);
    }
  }
}
