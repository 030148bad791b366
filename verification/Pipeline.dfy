/**
  The producer-consumer pipeline of src/decrypt/batch_decryptor.cpp as a step system.

  The calling thread submits every task and then collects every result; the workers
  take tasks, decrypt them and hand the results over. Each critical section is one
  step. A thread waiting on a condition variable sleeps until a notification or a
  spurious wake-up, and then tests its predicate again. The result of a task is
  pushed under the lock but announced after the lock is released, so a worker that
  has pushed still owes a notification.
 */
module Pipeline {
  import opened Common

  datatype Task<T> = Task(index: nat, record: T)

  datatype Item<R> = Item(index: nat, result: R)

  datatype Worker<T> =
    | Idle              // about to lock the task queue and test for a task
    | Asleep            // waiting on taskNotEmpty
    | Busy(task: Task<T>)
    | Notifying         // result pushed, resultReady not yet notified

  datatype Caller =
    | Submitting        // about to lock the task queue and test for space
    | AsleepFull        // waiting on taskNotFull
    | Collecting        // about to lock the result queue and test for a result
    | AsleepEmpty       // waiting on resultReady
    | Returned

  datatype Config<!T, R> = Config(records: seq<T>, capacity: nat, decrypt: T -> R)

  datatype State<T, R> = State(
    caller: Caller,
    submitted: nat,
    tasks: seq<Task<T>>,
    workers: seq<Worker<T>>,
    ready: seq<Item<R>>,
    results: seq<Option<R>>,
    finished: nat
  )

  datatype Step =
    | Submit(wake: Option<nat>)  // the worker notify_one picks, if any is asleep
    | SleepFull
    | Take(w: nat)
    | SleepTask(w: nat)
    | Finish(w: nat)
    | Notify(w: nat)
    | Collect
    | SleepEmpty
    | WakeCaller       // spurious
    | WakeWorker(w: nat)  // spurious

  predicate Spurious(step: Step) {
    step.WakeCaller? || step.WakeWorker?
  }

  // The steps that move a task on.
  predicate Moves(step: Step) {
    step.Submit? || step.Take? || step.Finish? || step.Collect?
  }

  predicate Enabled<T, R>(c: Config<T, R>, s: State<T, R>, step: Step) {
    match step
    case Submit(None) =>
      s.caller.Submitting? && s.submitted < |c.records| && |s.tasks| < c.capacity
      && forall k :: 0 <= k < |s.workers| ==> !s.workers[k].Asleep?
    case Submit(Some(k)) =>
      s.caller.Submitting? && s.submitted < |c.records| && |s.tasks| < c.capacity
      && k < |s.workers| && s.workers[k].Asleep?
    case SleepFull => s.caller.Submitting? && |s.tasks| >= c.capacity
    case Take(w) => w < |s.workers| && s.workers[w].Idle? && |s.tasks| > 0
    case SleepTask(w) => w < |s.workers| && s.workers[w].Idle? && |s.tasks| == 0
    case Finish(w) => w < |s.workers| && s.workers[w].Busy?
    case Notify(w) => w < |s.workers| && s.workers[w].Notifying?
    case Collect => s.caller.Collecting? && |s.ready| > 0 && s.ready[0].index < |s.results|
    case SleepEmpty => s.caller.Collecting? && |s.ready| == 0
    case WakeCaller => s.caller.AsleepFull? || s.caller.AsleepEmpty?
    case WakeWorker(w) => w < |s.workers| && s.workers[w].Asleep?
  }

  function Apply<T, R>(c: Config<T, R>, s: State<T, R>, step: Step): State<T, R>
    requires Enabled(c, s, step)
  {
    match step
    case Submit(wake) =>
      s.(tasks := s.tasks + [Task(s.submitted, c.records[s.submitted])],
         submitted := s.submitted + 1,
         workers := if wake.Some? then s.workers[wake.value := Idle] else s.workers,
         caller := if s.submitted + 1 < |c.records| then Submitting else Collecting)
    case SleepFull => s.(caller := AsleepFull)
    case Take(w) =>
      s.(workers := s.workers[w := Busy(s.tasks[0])],
         tasks := s.tasks[1..],
         caller := if s.caller.AsleepFull? then Submitting else s.caller)
    case SleepTask(w) => s.(workers := s.workers[w := Asleep])
    case Finish(w) =>
      var task := s.workers[w].task;
      s.(workers := s.workers[w := Notifying], ready := s.ready + [Item(task.index, c.decrypt(task.record))])
    case Notify(w) =>
      s.(workers := s.workers[w := Idle], caller := if s.caller.AsleepEmpty? then Collecting else s.caller)
    case Collect =>
      s.(ready := s.ready[1..],
         results := s.results[s.ready[0].index := Some(s.ready[0].result)],
         finished := s.finished + 1,
         caller := if s.finished + 1 < |c.records| then Collecting else Returned)
    case SleepEmpty => s.(caller := AsleepEmpty)
    case WakeCaller => s.(caller := if s.caller.AsleepFull? then Submitting else Collecting)
    case WakeWorker(w) => s.(workers := s.workers[w := Idle])
  }

  // A call starts with both queues empty and no worker holding a task; a worker
  // may still owe a notification from the previous call.
  ghost predicate Init<T, R>(c: Config<T, R>, s: State<T, R>) {
    && |c.records| > 0 && |s.workers| > 0
    && s.caller.Submitting? && s.submitted == 0 && s.finished == 0
    && s.tasks == [] && s.ready == []
    && |s.results| == |c.records| && (forall i :: 0 <= i < |s.results| ==> s.results[i] == None)
    && forall k :: 0 <= k < |s.workers| ==> !s.workers[k].Busy?
  }

  // ---- Where index i is ----

  ghost function Expected<T, R>(c: Config<T, R>, i: nat): Item<R>
    requires i < |c.records|
  {
    Item(i, c.decrypt(c.records[i]))
  }

  ghost function Unsubmitted<T, R>(s: State<T, R>, i: nat): nat {
    if i >= s.submitted then 1 else 0
  }

  ghost function Queued<T, R>(c: Config<T, R>, s: State<T, R>, i: nat): nat
    requires i < |c.records|
  {
    multiset(s.tasks)[Task(i, c.records[i])]
  }

  ghost function InWorker<T, R>(c: Config<T, R>, s: State<T, R>, i: nat): nat
    requires i < |c.records|
  {
    multiset(s.workers)[Busy(Task(i, c.records[i]))]
  }

  ghost function InResults<T, R>(c: Config<T, R>, s: State<T, R>, i: nat): nat
    requires i < |c.records|
  {
    multiset(s.ready)[Expected(c, i)]
  }

  ghost function Collected<T, R>(s: State<T, R>, i: nat): nat
    requires i < |s.results|
  {
    if s.results[i].Some? then 1 else 0
  }

  ghost predicate InOnePlace<T, R>(c: Config<T, R>, s: State<T, R>, i: nat)
    requires i < |c.records| == |s.results|
  {
    Unsubmitted(s, i) + Queued(c, s, i) + InWorker(c, s, i) + InResults(c, s, i) + Collected(s, i) == 1
  }

  // ---- Invariants ----

  ghost predicate Genuine<T, R>(c: Config<T, R>, s: State<T, R>) {
    && (forall k :: 0 <= k < |s.tasks| ==> GenuineTask(c, s.tasks[k]))
    && (forall k :: 0 <= k < |s.workers| && s.workers[k].Busy? ==> GenuineTask(c, s.workers[k].task))
    && (forall k :: 0 <= k < |s.ready| ==>
        s.ready[k].index < |c.records| && s.ready[k] == Expected(c, s.ready[k].index))
    && |s.results| == |c.records|
    && (forall i :: 0 <= i < |s.results| && s.results[i].Some? ==> s.results[i].value == c.decrypt(c.records[i]))
  }

  ghost predicate GenuineTask<T, R>(c: Config<T, R>, t: Task<T>) {
    t.index < |c.records| && t.record == c.records[t.index]
  }

  ghost predicate CallerOk<T, R>(c: Config<T, R>, s: State<T, R>) {
    && s.submitted <= |c.records| && s.finished <= |c.records|
    && (s.caller.Submitting? || s.caller.AsleepFull? ==> s.submitted < |c.records| && s.finished == 0)
    && (s.caller.Collecting? || s.caller.AsleepEmpty? ==> s.submitted == |c.records| && s.finished < |c.records|)
    && (s.caller.Returned? ==> s.submitted == |c.records| && s.finished == |c.records|)
  }

  // No wake-up is lost.
  ghost predicate WakeUps<T, R>(c: Config<T, R>, s: State<T, R>) {
    && |s.workers| > 0
    && (s.tasks != [] ==> exists k :: 0 <= k < |s.workers| && !s.workers[k].Asleep?)
    && (s.caller.AsleepFull? ==> |s.tasks| >= c.capacity)
    && (s.caller.AsleepEmpty? && s.ready != [] ==> exists k :: 0 <= k < |s.workers| && s.workers[k].Notifying?)
  }

  // The queue holds the tasks submitted last, in the order of submission.
  ghost predicate FirstInFirstOut<T, R>(s: State<T, R>) {
    && |s.tasks| <= s.submitted
    && forall k :: 0 <= k < |s.tasks| ==> s.tasks[k].index == s.submitted - |s.tasks| + k
  }

  ghost function Arrived<T, R>(s: State<T, R>): set<nat> {
    set i: nat | i < |s.results| && s.results[i].Some?
  }

  ghost predicate Inv<T(!new), R(!new)>(c: Config<T, R>, s: State<T, R>) {
    && Genuine(c, s) && CallerOk(c, s) && WakeUps(c, s) && |s.tasks| <= c.capacity && FirstInFirstOut(s)
    && (forall i: nat :: i < |c.records| ==> InOnePlace(c, s, i))
    && |Arrived(s)| == s.finished
  }

  lemma InitInv<T(!new), R(!new)>(c: Config<T, R>, s: State<T, R>)
    requires Init(c, s)
    ensures Inv(c, s)
  {
    assert Arrived(s) == {};
    forall i: nat | i < |c.records| ensures InOnePlace(c, s, i) {
      assert Busy(Task(i, c.records[i])) !in s.workers;
    }
  }

  lemma StepKeepsGenuine<T, R>(c: Config<T, R>, s: State<T, R>, step: Step)
    requires Genuine(c, s) && CallerOk(c, s) && Enabled(c, s, step)
    ensures Genuine(c, Apply(c, s, step))
  {
  }

  lemma StepKeepsWakeUps<T, R>(c: Config<T, R>, s: State<T, R>, step: Step)
    requires WakeUps(c, s) && Enabled(c, s, step)
    ensures WakeUps(c, Apply(c, s, step))
  {
    var s' := Apply(c, s, step);
    if step.Submit? {
      var k := if step.wake.Some? then step.wake.value else 0;
      assert !s'.workers[k].Asleep?;
    } else if step.Finish? {
      assert s'.workers[step.w].Notifying?;
    } else if s.tasks != [] {
      var k :| 0 <= k < |s.workers| && !s.workers[k].Asleep?;
      assert !s'.workers[k].Asleep?;
    }
    if s.caller.AsleepEmpty? && s.ready != [] && !step.Notify? {
      var k :| 0 <= k < |s.workers| && s.workers[k].Notifying?;
      assert s'.workers[k].Notifying?;
    }
  }

  // Each step moves at most one index from one place to the next.
  lemma SubmitKeepsPlaces<T(!new), R(!new)>(c: Config<T, R>, s: State<T, R>, step: Step, i: nat)
    requires step.Submit? && Inv(c, s) && Enabled(c, s, step) && i < |c.records|
    ensures InOnePlace(c, Apply(c, s, step), i)
  {
    var s' := Apply(c, s, step);
    assert InOnePlace(c, s, i);
    assert Queued(c, s', i) == Queued(c, s, i) + if i == s.submitted then 1 else 0;
    assert InWorker(c, s', i) == InWorker(c, s, i);
    assert InResults(c, s', i) == InResults(c, s, i);
  }

  lemma TakeKeepsPlaces<T(!new), R(!new)>(c: Config<T, R>, s: State<T, R>, step: Step, i: nat)
    requires step.Take? && Inv(c, s) && Enabled(c, s, step) && i < |c.records|
    ensures InOnePlace(c, Apply(c, s, step), i)
  {
    var s' := Apply(c, s, step);
    var task := s.tasks[0];
    assert InOnePlace(c, s, i);
    assert GenuineTask(c, task) && s.tasks == [task] + s.tasks[1..];
    assert Queued(c, s, i) == Queued(c, s', i) + if task.index == i then 1 else 0;
    assert InWorker(c, s', i) == InWorker(c, s, i) + if task.index == i then 1 else 0;
  }

  lemma FinishKeepsPlaces<T(!new), R(!new)>(c: Config<T, R>, s: State<T, R>, step: Step, i: nat)
    requires step.Finish? && Inv(c, s) && Enabled(c, s, step) && i < |c.records|
    ensures InOnePlace(c, Apply(c, s, step), i)
  {
    var s' := Apply(c, s, step);
    var task := s.workers[step.w].task;
    assert InOnePlace(c, s, i) && GenuineTask(c, task);
    assert InWorker(c, s, i) == InWorker(c, s', i) + if task.index == i then 1 else 0;
    assert InResults(c, s', i) == InResults(c, s, i) + if task.index == i then 1 else 0;
  }

  lemma CollectKeepsPlaces<T(!new), R(!new)>(c: Config<T, R>, s: State<T, R>, step: Step, i: nat)
    requires step.Collect? && Inv(c, s) && Enabled(c, s, step) && i < |c.records|
    ensures InOnePlace(c, Apply(c, s, step), i)
  {
    var s' := Apply(c, s, step);
    var item := s.ready[0];
    assert InOnePlace(c, s, i);
    assert item == Expected(c, item.index) && s.ready == [item] + s.ready[1..];
    assert InResults(c, s, i) == InResults(c, s', i) + if item.index == i then 1 else 0;
  }

  lemma OthersKeepPlaces<T(!new), R(!new)>(c: Config<T, R>, s: State<T, R>, step: Step, i: nat)
    requires !Moves(step) && Inv(c, s) && Enabled(c, s, step) && i < |c.records|
    ensures InOnePlace(c, Apply(c, s, step), i)
  {
    var s' := Apply(c, s, step);
    assert InOnePlace(c, s, i);
    assert InWorker(c, s', i) == InWorker(c, s, i);
  }

  lemma StepKeepsArrived<T(!new), R(!new)>(c: Config<T, R>, s: State<T, R>, step: Step)
    requires Inv(c, s) && Enabled(c, s, step)
    ensures |Arrived(Apply(c, s, step))| == Apply(c, s, step).finished
    ensures step.Collect? ==> s.ready[0].index !in Arrived(s)
  {
    var s' := Apply(c, s, step);
    if step.Collect? {
      var i := s.ready[0].index;
      assert s.ready[0] == Expected(c, i);
      assert InOnePlace(c, s, i) && InResults(c, s, i) >= 1;
      assert Arrived(s') == Arrived(s) + {i};
    } else {
      assert Arrived(s') == Arrived(s);
    }
  }

  lemma StepKeepsInv<T(!new), R(!new)>(c: Config<T, R>, s: State<T, R>, step: Step)
    requires Inv(c, s) && Enabled(c, s, step)
    ensures Inv(c, Apply(c, s, step))
  {
    var s' := Apply(c, s, step);
    StepKeepsGenuine(c, s, step);
    StepKeepsWakeUps(c, s, step);
    StepKeepsArrived(c, s, step);
    forall i: nat | i < |c.records| ensures InOnePlace(c, s', i) {
      if step.Submit? {
        SubmitKeepsPlaces(c, s, step, i);
      } else if step.Take? {
        TakeKeepsPlaces(c, s, step, i);
      } else if step.Finish? {
        FinishKeepsPlaces(c, s, step, i);
      } else if step.Collect? {
        CollectKeepsPlaces(c, s, step, i);
      } else {
        OthersKeepPlaces(c, s, step, i);
      }
    }
    assert CallerOk(c, s');
  }

  // ---- What is left to do ----

  ghost function Total<T>(ws: seq<Worker<T>>, weight: Worker<T> -> nat): nat {
    if ws == [] then 0 else Total(ws[..|ws| - 1], weight) + weight(ws[|ws| - 1])
  }

  lemma {:induction false} TotalUpdate<T>(ws: seq<Worker<T>>, weight: Worker<T> -> nat, k: nat, v: Worker<T>)
    requires k < |ws|
    ensures Total(ws[k := v], weight) == Total(ws, weight) - weight(ws[k]) + weight(v)
  {
    var n := |ws| - 1;
    if k == n {
      assert ws[k := v][..n] == ws[..n];
    } else {
      assert ws[k := v][..n] == ws[..n][k := v];
      TotalUpdate(ws[..n], weight, k, v);
    }
  }

  lemma {:induction false} TotalBound<T>(ws: seq<Worker<T>>, weight: Worker<T> -> nat, most: nat)
    requires forall w :: weight(w) <= most
    ensures Total(ws, weight) <= |ws| * most
  {
    if ws != [] {
      TotalBound(ws[..|ws| - 1], weight, most);
    }
  }

  lemma {:induction false} TotalZero<T>(ws: seq<Worker<T>>, weight: Worker<T> -> nat)
    requires forall k :: 0 <= k < |ws| ==> weight(ws[k]) == 0
    ensures Total(ws, weight) == 0
  {
    if ws != [] {
      TotalZero(ws[..|ws| - 1], weight);
    }
  }

  ghost function BusyWeight<T>(w: Worker<T>): nat {
    if w.Busy? then 2 else 0
  }

  ghost function AlertWeight<T>(w: Worker<T>): nat {
    match w case Notifying => 3 case Idle => 1 case _ => 0
  }

  // The moves still to be made: four for an unsubmitted task, three for a queued
  // one, two for one in a worker, one for one in the result queue.
  ghost function Remaining<T, R>(c: Config<T, R>, s: State<T, R>): nat
    requires s.submitted <= |c.records|
  {
    4 * (|c.records| - s.submitted) + 3 * |s.tasks| + Total(s.workers, BusyWeight) + |s.ready|
  }

  // How many steps other than moves can be made before the next move, at most.
  ghost function Restless<T, R>(s: State<T, R>): nat {
    Total(s.workers, AlertWeight) + if s.caller.Submitting? || s.caller.Collecting? then 1 else 0
  }

  lemma StepCounts<T(!new), R(!new)>(c: Config<T, R>, s: State<T, R>, step: Step)
    requires Inv(c, s) && Enabled(c, s, step)
    ensures CallerOk(c, Apply(c, s, step))
    ensures Moves(step) ==> Remaining(c, Apply(c, s, step)) == Remaining(c, s) - 1
    ensures !Moves(step) ==> Remaining(c, Apply(c, s, step)) == Remaining(c, s)
    ensures !Moves(step) && !Spurious(step) ==> Restless(Apply(c, s, step)) < Restless(s)
  {
    var s' := Apply(c, s, step);
    StepKeepsInv(c, s, step);
    var touched := Touched(step);
    if touched.Some? {
      var k := touched.value;
      assert s'.workers == s.workers[k := s'.workers[k]];
      TotalUpdate(s.workers, BusyWeight, k, s'.workers[k]);
      TotalUpdate(s.workers, AlertWeight, k, s'.workers[k]);
    } else {
      assert s'.workers == s.workers;
    }
  }

  // The worker a step changes.
  function Touched(step: Step): Option<nat> {
    match step
    case Submit(wake) => wake
    case Take(w) => Some(w)
    case SleepTask(w) => Some(w)
    case Finish(w) => Some(w)
    case Notify(w) => Some(w)
    case WakeWorker(w) => Some(w)
    case _ => None
  }

  // ---- No deadlock ----

  // While results are outstanding some thread can run without a spurious wake-up.
  lemma NoDeadlock<T(!new), R(!new)>(c: Config<T, R>, s: State<T, R>) returns (step: Step)
    requires Inv(c, s) && c.capacity > 0 && !s.caller.Returned?
    ensures Enabled(c, s, step) && !Spurious(step)
  {
    if s.caller.Submitting? {
      if |s.tasks| >= c.capacity {
        step := SleepFull;
      } else if k: nat :| k < |s.workers| && s.workers[k].Asleep? {
        step := Submit(Some(k));
      } else {
        step := Submit(None);
      }
    } else if s.caller.Collecting? {
      step := if |s.ready| == 0 then SleepEmpty else Collect;
    } else if s.tasks != [] {
      var k: nat :| k < |s.workers| && !s.workers[k].Asleep?;
      step := match s.workers[k] case Idle => Take(k) case Busy(_) => Finish(k) case Notifying => Notify(k);
    } else if s.ready != [] {
      var k: nat :| k < |s.workers| && s.workers[k].Notifying?;
      step := Notify(k);
    } else {
      var i := Outstanding(c, s);
      assert InOnePlace(c, s, i);
      assert Busy(Task(i, c.records[i])) in s.workers;
      var k: nat :| k < |s.workers| && s.workers[k] == Busy(Task(i, c.records[i]));
      step := Finish(k);
    }
  }

  // An index whose result has not been collected.
  lemma Outstanding<T(!new), R(!new)>(c: Config<T, R>, s: State<T, R>) returns (i: nat)
    requires Inv(c, s) && s.finished < |c.records|
    ensures i < |c.records| && s.results[i].None?
  {
    assert Arrived(s) != Below(|c.records|);
    i :| i < |c.records| && s.results[i].None?;
  }

  ghost function Below(n: nat): (r: set<nat>)
    ensures |r| == n && forall i: nat :: i in r <==> i < n
  {
    if n == 0 then {} else Below(n - 1) + {n - 1}
  }

  // ---- Runs ----

  ghost predicate ValidRun<T, R>(c: Config<T, R>, s: State<T, R>, steps: seq<Step>)
    decreases |steps|
  {
    steps == [] || (Enabled(c, s, steps[0]) && ValidRun(c, Apply(c, s, steps[0]), steps[1..]))
  }

  ghost function After<T, R>(c: Config<T, R>, s: State<T, R>, steps: seq<Step>): State<T, R>
    requires ValidRun(c, s, steps)
    decreases |steps|
  {
    if steps == [] then s else After(c, Apply(c, s, steps[0]), steps[1..])
  }

  function MoveCount(steps: seq<Step>): nat {
    if steps == [] then 0 else (if Moves(steps[0]) then 1 else 0) + MoveCount(steps[1..])
  }

  lemma {:induction false} RunKeepsInv<T(!new), R(!new)>(c: Config<T, R>, s: State<T, R>, steps: seq<Step>)
    requires Inv(c, s) && ValidRun(c, s, steps)
    ensures Inv(c, After(c, s, steps))
    ensures Remaining(c, s) == MoveCount(steps) + Remaining(c, After(c, s, steps))
    decreases |steps|
  {
    if steps != [] {
      StepKeepsInv(c, s, steps[0]);
      StepCounts(c, s, steps[0]);
      RunKeepsInv(c, Apply(c, s, steps[0]), steps[1..]);
    }
  }

  // The results in input order: the sequential map.
  function Mapped<T, R>(c: Config<T, R>): seq<Option<R>> {
    seq(|c.records|, i requires 0 <= i < |c.records| => Some(c.decrypt(c.records[i])))
  }

  // What Returned means for the state: all results in place...
  lemma AllCollected<T(!new), R(!new)>(c: Config<T, R>, s: State<T, R>, i: nat)
    requires Inv(c, s) && s.caller.Returned? && i < |c.records|
    ensures s.results[i] == Some(c.decrypt(c.records[i]))
    ensures Queued(c, s, i) == 0 && InWorker(c, s, i) == 0 && InResults(c, s, i) == 0
  {
    FullSubset(Arrived(s), Below(|c.records|));
    assert i in Arrived(s) && InOnePlace(c, s, i);
  }

  // ... and nothing left over.
  lemma ReturnedIsComplete<T(!new), R(!new)>(c: Config<T, R>, s: State<T, R>)
    requires Inv(c, s) && s.caller.Returned?
    ensures s.results == Mapped(c)
    ensures s.tasks == [] && s.ready == []
    ensures forall k :: 0 <= k < |s.workers| ==> !s.workers[k].Busy?
    ensures Remaining(c, s) == 0
  {
    assert |s.tasks| > 0 ==> s.tasks[0] in s.tasks && Queued(c, s, s.tasks[0].index) > 0;
    assert |s.ready| > 0 ==> s.ready[0] in s.ready && InResults(c, s, s.ready[0].index) > 0;
    assert forall k :: 0 <= k < |s.workers| && s.workers[k].Busy? ==>
      s.workers[k] in s.workers && InWorker(c, s, s.workers[k].task.index) > 0;
    forall i: nat | i < |c.records|
      ensures s.results[i] == Some(c.decrypt(c.records[i])) && Queued(c, s, i) == 0 && InWorker(c, s, i) == 0
      ensures InResults(c, s, i) == 0
    {
      AllCollected(c, s, i);
    }
    TotalZero(s.workers, BusyWeight);
  }

  lemma {:induction false} FullSubset(a: set<nat>, b: set<nat>)
    requires a <= b && |a| == |b|
    ensures a == b
  {
    assert b == a + (b - a) && a !! b - a;
    assert |b - a| == 0;
  }

  // Every schedule of the pipeline yields the sequential map, in exactly 4n moves,
  // and leaves the queues as the next call expects them.
  lemma EverySchedule<T(!new), R(!new)>(c: Config<T, R>, s: State<T, R>, steps: seq<Step>)
    requires Init(c, s) && ValidRun(c, s, steps)
    ensures After(c, s, steps).caller.Returned? ==>
      && After(c, s, steps).results == Mapped(c)
      && MoveCount(steps) == 4 * |c.records|
      && After(c, s, steps).tasks == [] && After(c, s, steps).ready == []
      && forall k :: 0 <= k < |After(c, s, steps).workers| ==> !After(c, s, steps).workers[k].Busy?
    ensures MoveCount(steps) <= 4 * |c.records|
  {
    InitInv(c, s);
    RunKeepsInv(c, s, steps);
    TotalZero(s.workers, BusyWeight);
    if After(c, s, steps).caller.Returned? {
      ReturnedIsComplete(c, After(c, s, steps));
    }
  }

  // At every moment of every schedule each index is in exactly one place, no wake-up is lost, and
  // the task queue is within its capacity and in the order of submission.
  lemma AtEveryMoment<T(!new), R(!new)>(c: Config<T, R>, s: State<T, R>, steps: seq<Step>, i: nat)
    requires Init(c, s) && ValidRun(c, s, steps) && i < |c.records|
    ensures |After(c, s, steps).results| == |c.records| && InOnePlace(c, After(c, s, steps), i)
    ensures WakeUps(c, After(c, s, steps)) && |After(c, s, steps).tasks| <= c.capacity
    ensures FirstInFirstOut(After(c, s, steps))
  {
    InitInv(c, s);
    RunKeepsInv(c, s, steps);
  }

  // ---- Every schedule ends ----

  // An upper bound on the number of steps left, spurious wake-ups aside.
  ghost function Rank<T, R>(c: Config<T, R>, s: State<T, R>): nat
    requires s.submitted <= |c.records|
  {
    Remaining(c, s) * (3 * |s.workers| + 2) + Restless(s)
  }

  lemma RankDecreases<T(!new), R(!new)>(c: Config<T, R>, s: State<T, R>, step: Step)
    requires Inv(c, s) && Enabled(c, s, step) && !Spurious(step)
    ensures CallerOk(c, Apply(c, s, step))
    ensures Rank(c, Apply(c, s, step)) < Rank(c, s)
  {
    var s' := Apply(c, s, step);
    StepCounts(c, s, step);
    TotalBound(s'.workers, AlertWeight, 3);
    var m := 3 * |s.workers| + 2;
    assert |s'.workers| == |s.workers|;
    if Moves(step) {
      assert (Remaining(c, s) - 1) * m == Remaining(c, s) * m - m;
    }
  }

  // A schedule without spurious wake-ups is shorter than the rank of its first state,
  // and one that cannot be extended has collected every result.
  lemma {:induction false} SchedulesEnd<T(!new), R(!new)>(c: Config<T, R>, s: State<T, R>, steps: seq<Step>)
    requires Inv(c, s) && c.capacity > 0 && ValidRun(c, s, steps)
    requires forall i :: 0 <= i < |steps| ==> !Spurious(steps[i])
    ensures |steps| <= Rank(c, s)
    ensures (forall step :: Enabled(c, After(c, s, steps), step) ==> Spurious(step)) ==>
      After(c, s, steps).caller.Returned?
    decreases |steps|
  {
    if steps == [] {
      if !s.caller.Returned? {
        var step := NoDeadlock(c, s);
      }
    } else {
      StepKeepsInv(c, s, steps[0]);
      RankDecreases(c, s, steps[0]);
      SchedulesEnd(c, Apply(c, s, steps[0]), steps[1..]);
    }
  }
}
