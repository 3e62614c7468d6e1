/**
 The timed scheduler (network/kcp/timesched.go:33-151) as a state machine over
 the steps of its goroutines: any number of callers of `Put`, the one that
 passes tasks on, and the workers, each with a heap and one timer. Until
 `Close`, no task is lost, run twice, or run before it is due, and none is
 forgotten: something is always about to look at it.
 */
module TimedSched {
  import opened TimedHeap
  import opened Wire

  /** A timer: set to go off at `at` for a task due at `due`, or not running. */
  datatype Timer = Armed(at: int, due: int) | Off

  /** Where a worker stands between two steps. */
  datatype WorkerPc =
    | Select
    | Got(task: TimedFunc)
    | Stopping(now: int)
    | Draining(now: int)
    | Rearming(now: int)
    | Running(now: int)
    | Gone

  /** `fire` is the value waiting in the timer's channel. */
  datatype Worker = Worker(heap: seq<TimedFunc>, timer: Timer, fire: Option<int>, drained: bool, pc: WorkerPc)

  /** Where the goroutine that passes tasks on stands; `tasks` are in its hands. */
  datatype PrependPc = Waiting | Locking | Sending(tasks: seq<TimedFunc>) | Returned

  datatype Execution = Execution(task: TimedFunc, at: int)

  /** `putters` have appended their task and not yet notified; `put` and `abandoned` are history. */
  datatype State = State(
    clock: int, prepended: seq<TimedFunc>, notify: bool, putters: nat, pc: PrependPc, workers: seq<Worker>,
    executed: seq<Execution>, put: multiset<TimedFunc>, abandoned: multiset<TimedFunc>, died: bool)

  // ----- the steps of a worker -----

  datatype WorkerStep =
    | Take(pushed: seq<TimedFunc>)
    | StopTimer
    | Drain
    | Rearm
    | TimerFires
    | ReceiveFire
    | RunNext(popped: seq<TimedFunc>)

  ghost predicate Pushed(h: seq<TimedFunc>, x: TimedFunc, g: seq<TimedFunc>) {
    IsHeap(g) && multiset(g) == multiset(h) + multiset{x}
  }

  ghost predicate Popped(h: seq<TimedFunc>, g: seq<TimedFunc>)
    requires h != []
  {
    IsHeap(g) && multiset(h) == multiset(g) + multiset{h[0]}
  }

  /** `timer.Reset(tasks[0].ts.Sub(now))` at time `clock`. */
  function Reset(w: Worker, now: int, clock: int): Worker
    requires w.heap != []
  {
    w.(timer := Armed(clock + (w.heap[0].ts - now), w.heap[0].ts), drained := false, pc := Select)
  }

  /** One step of a worker, and what it runs. */
  ghost predicate WorkerNext(w: Worker, clock: int, step: WorkerStep, v: Worker, ran: seq<TimedFunc>) {
    match step
    case Take(pushed) =>
      && w.pc.Got?
      && (if clock > w.pc.task.ts then v == w.(pc := Select) && ran == [w.pc.task]
          else Pushed(w.heap, w.pc.task, pushed) && v == w.(heap := pushed, pc := Stopping(clock)) && ran == [])
    case StopTimer =>
      && w.pc.Stopping? && ran == []
      && v == w.(timer := Off, pc := if w.timer.Off? && !w.drained then Draining(w.pc.now) else Rearming(w.pc.now))
    case Drain =>
      w.pc.Draining? && w.fire.Some? && ran == [] && v == w.(fire := None, pc := Rearming(w.pc.now))
    case Rearm =>
      w.pc.Rearming? && w.heap != [] && ran == [] && v == Reset(w, w.pc.now, clock)
    case TimerFires =>
      && w.timer.Armed? && w.timer.at <= clock && ran == []
      && v == w.(timer := Off, fire := if w.fire.None? then Some(clock) else w.fire)
    case ReceiveFire =>
      && w.pc.Select? && w.fire.Some? && ran == []
      && v == w.(fire := None, drained := true, pc := Running(w.fire.value))
    case RunNext(popped) =>
      && w.pc.Running?
      && (if w.heap == [] then v == w.(pc := Select) && ran == []
          else if w.pc.now > w.heap[0].ts
          then Popped(w.heap, popped) && v == w.(heap := popped) && ran == [w.heap[0]]
          else v == Reset(w, w.pc.now, clock) && ran == [])
  }

  // ----- the steps of the whole scheduler -----

  datatype Step =
    | Tick(now: int)
    | PutLock(task: TimedFunc)
    | PutNotify
    | PrependWake
    | PrependLock
    | PrependSend(w: nat)
    | PrependLoop
    | WorkerDoes(i: nat, step: WorkerStep, v: Worker, ran: seq<TimedFunc>)
    | Close
    | PrependQuit
    | WorkerQuit(j: nat)

  function RunAt(ran: seq<TimedFunc>, clock: int): (es: seq<Execution>)
    ensures |es| == |ran|
  {
    seq(|ran|, i requires 0 <= i < |ran| => Execution(ran[i], clock))
  }

  function InTransit(pc: PrependPc): seq<TimedFunc> {
    if pc.Sending? then pc.tasks else []
  }

  ghost predicate Next(s: State, step: Step, t: State) {
    match step
    case Tick(now) => now >= s.clock && t == s.(clock := now)
    case PutLock(task) =>
      t == s.(prepended := s.prepended + [task], putters := s.putters + 1, put := s.put + multiset{task})
    case PutNotify => s.putters > 0 && t == s.(putters := s.putters - 1, notify := true)
    case PrependWake => s.pc.Waiting? && s.notify && t == s.(notify := false, pc := Locking)
    case PrependLock => s.pc.Locking? && t == s.(prepended := [], pc := Sending(s.prepended))
    case PrependSend(w) =>
      && s.pc.Sending? && s.pc.tasks != [] && w < |s.workers| && s.workers[w].pc.Select?
      && t == s.(pc := Sending(s.pc.tasks[1..]), workers := s.workers[w := s.workers[w].(pc := Got(s.pc.tasks[0]))])
    case PrependLoop => s.pc == Sending([]) && t == s.(pc := Waiting)
    case WorkerDoes(i, step, v, ran) =>
      && i < |s.workers| && WorkerNext(s.workers[i], s.clock, step, v, ran)
      && t == s.(workers := s.workers[i := v], executed := s.executed + RunAt(ran, s.clock))
    case Close => t == s.(died := true)
    case PrependQuit =>
      && s.died && (s.pc.Waiting? || s.pc.Sending?)
      && t == s.(pc := Returned, abandoned := s.abandoned + multiset(InTransit(s.pc)))
    case WorkerQuit(j) =>
      && s.died && j < |s.workers| && s.workers[j].pc.Select?
      && t == s.(workers := s.workers[j := s.workers[j].(heap := [], timer := Off, fire := None, pc := Gone)],
                 abandoned := s.abandoned + multiset(s.workers[j].heap))
  }

  /** A worker just started: `time.NewTimer(0)` at `clock`. */
  function NewWorker(clock: int): Worker {
    Worker([], Armed(clock, clock), None, false, Select)
  }

  ghost predicate Initial(s: State) {
    && s.prepended == [] && !s.notify && s.putters == 0 && s.pc == Waiting
    && (forall i :: 0 <= i < |s.workers| ==> s.workers[i] == NewWorker(s.clock))
    && s.executed == [] && s.put == multiset{} && s.abandoned == multiset{} && !s.died
  }

  ghost predicate IsRun(run: seq<State>, steps: seq<Step>) {
    && |run| == |steps| + 1 && Initial(run[0])
    && forall i :: 0 <= i < |steps| ==> Next(run[i], steps[i], run[i + 1])
  }

  // ----- a worker's invariant -----

  /** Armed, gone off but not looked at, or looked at: exactly one of the three. */
  ghost predicate Phase(w: Worker) {
    if w.timer.Armed? then w.fire.None? && !w.drained
    else w.fire.Some? <==> !w.drained
  }

  /** A non-empty heap has its timer set for its first task, or a fire waiting. */
  ghost predicate Watched(w: Worker) {
    w.heap != [] ==>
      || (w.timer.Armed? && w.timer.due == w.heap[0].ts <= w.timer.at)
      || w.fire.Some?
  }

  ghost predicate WorkerOk(w: Worker, clock: int) {
    && IsHeap(w.heap) && (w.fire.Some? ==> w.fire.value <= clock)
    && match w.pc
       case Select => Phase(w) && Watched(w)
       case Got(task) => Phase(w) && Watched(w)
       case Stopping(now) => Phase(w) && w.heap != [] && now <= clock
       case Draining(now) => w.timer.Off? && w.fire.Some? && w.heap != [] && now <= clock
       case Rearming(now) => w.timer.Off? && w.fire.None? && w.heap != [] && now <= clock
       case Running(now) => w.timer.Off? && w.fire.None? && w.drained && now <= clock
       case Gone => w.heap == [] && w.timer.Off?
  }

  /** The tasks a worker has in hand. */
  function Held(w: Worker): multiset<TimedFunc> {
    multiset(w.heap) + if w.pc.Got? then multiset{w.pc.task} else multiset{}
  }

  lemma WorkerStepOk(w: Worker, clock: int, step: WorkerStep, v: Worker, ran: seq<TimedFunc>)
    requires WorkerOk(w, clock) && WorkerNext(w, clock, step, v, ran)
    ensures WorkerOk(v, clock)
  {
  }

  /** What is run is due. */
  lemma WorkerRunsDue(w: Worker, clock: int, step: WorkerStep, v: Worker, ran: seq<TimedFunc>)
    requires WorkerOk(w, clock) && WorkerNext(w, clock, step, v, ran)
    ensures ran == [] || (|ran| == 1 && ran[0].ts < clock)
  {
  }

  lemma WorkerKeepsTasks(w: Worker, clock: int, step: WorkerStep, v: Worker, ran: seq<TimedFunc>)
    requires WorkerNext(w, clock, step, v, ran)
    ensures Held(w) == Held(v) + multiset(ran)
  {
  }

  lemma WorkerStepHolds(w: Worker, clock: int, step: WorkerStep, v: Worker, ran: seq<TimedFunc>)
    requires WorkerOk(w, clock) && WorkerNext(w, clock, step, v, ran)
    ensures Held(w) == Held(v) + multiset(ran)
    ensures forall t :: t in ran ==> t.ts < clock
  {
    WorkerRunsDue(w, clock, step, v, ran);
    WorkerKeepsTasks(w, clock, step, v, ran);
  }

  /** `<-timer.C` while re-arming never blocks: the fire is there. */
  lemma DrainNeverBlocks(w: Worker, clock: int)
    requires WorkerOk(w, clock) && w.pc.Draining?
    ensures WorkerNext(w, clock, Drain, w.(fire := None, pc := Rearming(w.pc.now)), [])
  {
  }

  /**
   Three steps of a waiting worker whose first task is due and whose timer has run
   out: the timer fires, the worker looks, and runs exactly that task.
   */
  lemma DueTaskRuns(w: Worker, clock: int, popped: seq<TimedFunc>) returns (a: Worker, b: Worker, c: Worker)
    requires WorkerOk(w, clock) && w.pc.Select? && w.heap != [] && Popped(w.heap, popped)
    requires w.timer.Armed? && w.timer.at <= clock && w.heap[0].ts < clock
    ensures WorkerNext(w, clock, TimerFires, a, []) && WorkerNext(a, clock, ReceiveFire, b, [])
    ensures WorkerNext(b, clock, RunNext(popped), c, [w.heap[0]]) && c.heap == popped
  {
    a := w.(timer := Off, fire := Some(clock));
    b := a.(fire := None, drained := true, pc := Running(clock));
    c := b.(heap := popped);
  }

  // ----- the scheduler's invariant -----

  /** The tasks in the hands of all workers. */
  function HeldByAll(ws: seq<Worker>): multiset<TimedFunc> {
    if ws == [] then multiset{} else Held(ws[0]) + HeldByAll(ws[1..])
  }

  /** How often task `x` is in the hands of the workers. */
  function HeldAt(ws: seq<Worker>, x: TimedFunc): nat {
    if ws == [] then 0 else Held(ws[0])[x] + HeldAt(ws[1..], x)
  }

  lemma {:induction false} HeldCounts(ws: seq<Worker>, x: TimedFunc)
    ensures HeldByAll(ws)[x] == HeldAt(ws, x)
  {
    if ws != [] {
      HeldCounts(ws[1..], x);
    }
  }

  function Tasks(es: seq<Execution>): (ts: seq<TimedFunc>)
    ensures |ts| == |es|
  {
    seq(|es|, i requires 0 <= i < |es| => es[i].task)
  }

  /** In how many places task `x` is. */
  ghost function Places(s: State, x: TimedFunc): nat {
    multiset(s.prepended)[x] + multiset(InTransit(s.pc))[x] + HeldAt(s.workers, x)
    + multiset(Tasks(s.executed))[x] + s.abandoned[x]
  }

  /** Every task ever put is in exactly one place. */
  ghost predicate Conserved(s: State) {
    forall x :: s.put[x] == Places(s, x)
  }

  /** A waiting list has somebody coming for it. */
  ghost predicate Noticed(s: State) {
    s.prepended != [] ==> s.notify || s.putters > 0 || s.pc.Locking?
  }

  ghost predicate Punctual(s: State) {
    forall e :: e in s.executed ==> e.task.ts < e.at <= s.clock
  }

  ghost predicate Ok(s: State) {
    && Conserved(s) && Noticed(s) && Punctual(s)
    && (!s.died ==> s.abandoned == multiset{})
    && forall i :: 0 <= i < |s.workers| ==> WorkerOk(s.workers[i], s.clock)
  }

  lemma {:induction false} HeldUpdate(ws: seq<Worker>, i: nat, v: Worker, x: TimedFunc)
    requires i < |ws|
    ensures HeldAt(ws[i := v], x) + Held(ws[i])[x] == HeldAt(ws, x) + Held(v)[x]
  {
    if i == 0 {
      assert ws[0 := v][1..] == ws[1..];
    } else {
      assert ws[i := v][1..] == ws[1..][i - 1 := v];
      HeldUpdate(ws[1..], i - 1, v, x);
    }
  }

  lemma {:induction false} NothingHeld(ws: seq<Worker>, x: TimedFunc)
    requires forall i :: 0 <= i < |ws| ==> Held(ws[i])[x] == 0
    ensures HeldAt(ws, x) == 0
  {
    if ws != [] {
      NothingHeld(ws[1..], x);
    }
  }

  lemma InitialOk(s: State)
    requires Initial(s)
    ensures Ok(s)
  {
    forall x ensures s.put[x] == Places(s, x) {
      NothingHeld(s.workers, x);
    }
  }

  lemma TasksRun(es: seq<Execution>, ran: seq<TimedFunc>, clock: int, x: TimedFunc)
    ensures multiset(Tasks(es + RunAt(ran, clock)))[x] == multiset(Tasks(es))[x] + multiset(ran)[x]
  {
    assert Tasks(es + RunAt(ran, clock)) == Tasks(es) + ran;
  }

  lemma HeadCounts(ts: seq<TimedFunc>, x: TimedFunc)
    requires ts != []
    ensures multiset(ts)[x] == multiset{ts[0]}[x] + multiset(ts[1..])[x]
  {
    assert ts == [ts[0]] + ts[1..];
  }

  /** Handing a task to a worker. */
  lemma SendPlaces(s: State, w: nat, t: State, x: TimedFunc)
    requires Next(s, PrependSend(w), t)
    ensures Places(t, x) == Places(s, x)
  {
    HeldUpdate(s.workers, w, t.workers[w], x);
    HeadCounts(s.pc.tasks, x);
    assert Held(t.workers[w])[x] == Held(s.workers[w])[x] + multiset{s.pc.tasks[0]}[x];
  }

  lemma WorkerPlaces(s: State, i: nat, step: WorkerStep, v: Worker, ran: seq<TimedFunc>, t: State, x: TimedFunc)
    requires Next(s, WorkerDoes(i, step, v, ran), t) && WorkerOk(s.workers[i], s.clock)
    ensures Places(t, x) == Places(s, x)
  {
    HeldUpdate(s.workers, i, v, x);
    TasksRun(s.executed, ran, s.clock, x);
    assert Held(s.workers[i])[x] == Held(v)[x] + multiset(ran)[x] by {
      WorkerStepHolds(s.workers[i], s.clock, step, v, ran);
    }
  }

  lemma QuitPlaces(s: State, j: nat, t: State, x: TimedFunc)
    requires Next(s, WorkerQuit(j), t)
    ensures Places(t, x) == Places(s, x)
  {
    HeldUpdate(s.workers, j, t.workers[j], x);
  }

  lemma PutPlaces(s: State, task: TimedFunc, t: State, x: TimedFunc)
    requires Next(s, PutLock(task), t)
    ensures Places(t, x) == Places(s, x) + multiset{task}[x] && t.put[x] == s.put[x] + multiset{task}[x]
  {
  }

  /** The other steps move no task, or only from one hand to the next. */
  lemma OtherPlaces(s: State, step: Step, t: State, x: TimedFunc)
    requires Next(s, step, t) && s.put[x] == Places(s, x)
    requires !step.PutLock? && !step.PrependSend? && !step.WorkerDoes? && !step.WorkerQuit?
    ensures t.put[x] == Places(t, x)
  {
  }

  /** Each step moves tasks from one place to another. */
  lemma PlacesNext(s: State, step: Step, t: State, x: TimedFunc)
    requires Next(s, step, t) && s.put[x] == Places(s, x)
    requires step.WorkerDoes? ==> WorkerOk(s.workers[step.i], s.clock)
    ensures t.put[x] == Places(t, x)
  {
    match step
    case PutLock(task) => PutPlaces(s, task, t, x);
    case PrependSend(w) => SendPlaces(s, w, t, x);
    case WorkerDoes(i, ws, v, ran) => WorkerPlaces(s, i, ws, v, ran, t, x);
    case WorkerQuit(j) => QuitPlaces(s, j, t, x);
    case _ => OtherPlaces(s, step, t, x);
  }

  lemma ConservedNext(s: State, step: Step, t: State)
    requires Ok(s) && Next(s, step, t)
    ensures Conserved(t)
  {
    forall x ensures t.put[x] == Places(t, x) {
      PlacesNext(s, step, t, x);
    }
  }

  lemma WorkerLater(w: Worker, clock: int, later: int)
    requires WorkerOk(w, clock) && clock <= later
    ensures WorkerOk(w, later)
  {
  }

  lemma WorkersNext(s: State, step: Step, t: State, i: nat)
    requires Next(s, step, t) && i < |s.workers| && WorkerOk(s.workers[i], s.clock)
    ensures |t.workers| == |s.workers| && WorkerOk(t.workers[i], t.clock)
  {
    match step
    case Tick(now) =>
      WorkerLater(s.workers[i], s.clock, now);
    case WorkerDoes(j, ws, v, ran) =>
      if i == j {
        WorkerStepOk(s.workers[i], s.clock, ws, v, ran);
      }
    case _ =>
  }

  lemma PunctualNext(s: State, step: Step, t: State)
    requires Ok(s) && Next(s, step, t)
    ensures Punctual(t)
  {
    if step.WorkerDoes? {
      WorkerStepHolds(s.workers[step.i], s.clock, step.step, step.v, step.ran);
      forall e | e in t.executed ensures e.task.ts < e.at <= t.clock {
        if e !in s.executed {
          assert e.task in step.ran;
        }
      }
    }
  }

  lemma NextOk(s: State, step: Step, t: State)
    requires Ok(s) && Next(s, step, t)
    ensures Ok(t)
  {
    ConservedNext(s, step, t);
    PunctualNext(s, step, t);
    forall i | 0 <= i < |t.workers| ensures WorkerOk(t.workers[i], t.clock) {
      WorkersNext(s, step, t, i);
    }
  }

  lemma {:induction false} RunOk(run: seq<State>, steps: seq<Step>, i: nat)
    requires IsRun(run, steps) && i < |run|
    ensures Ok(run[i])
  {
    InitialOk(run[0]);
    for j := 0 to i
      invariant Ok(run[j])
    {
      NextOk(run[j], steps[j], run[j + 1]);
    }
  }

  /** No task is run more often than it was put. */
  lemma NeverTwice(s: State, t: TimedFunc)
    requires Ok(s)
    ensures multiset(Tasks(s.executed))[t] <= s.put[t]
  {
  }

  lemma AllPlaces(s: State)
    requires Conserved(s) && s.abandoned == multiset{}
    ensures s.put
      == multiset(s.prepended) + multiset(InTransit(s.pc)) + HeldByAll(s.workers) + multiset(Tasks(s.executed))
  {
    forall x ensures s.put[x] == (multiset(s.prepended) + multiset(InTransit(s.pc)) + HeldByAll(s.workers)
                                  + multiset(Tasks(s.executed)))[x] {
      HeldCounts(s.workers, x);
      assert s.put[x] == Places(s, x);
    }
  }

  /** Nobody goes on with a reading of the clock that is older than `lag`. */
  ghost predicate Brisk(s: State, lag: nat) {
    forall w :: w in s.workers ==>
      (w.pc.Stopping? || w.pc.Draining? || w.pc.Rearming? || w.pc.Running? ==> s.clock - w.pc.now <= lag)
  }

  ghost predicate InTime(w: Worker, lag: nat) {
    w.timer.Armed? ==> w.timer.due <= w.timer.at <= w.timer.due + lag
  }

  lemma WorkerInTime(w: Worker, clock: int, step: WorkerStep, v: Worker, ran: seq<TimedFunc>, lag: nat)
    requires WorkerOk(w, clock) && WorkerNext(w, clock, step, v, ran) && InTime(w, lag)
    requires w.pc.Stopping? || w.pc.Draining? || w.pc.Rearming? || w.pc.Running? ==> clock - w.pc.now <= lag
    ensures InTime(v, lag)
  {
  }

  lemma NextInTime(s: State, step: Step, t: State, k: nat, lag: nat)
    requires Next(s, step, t) && Brisk(s, lag) && k < |s.workers|
    requires WorkerOk(s.workers[k], s.clock) && InTime(s.workers[k], lag)
    ensures k < |t.workers| == |s.workers| && InTime(t.workers[k], lag)
  {
    WorkersNext(s, step, t, k);
    if step.WorkerDoes? && step.i == k {
      assert s.workers[k] in s.workers;
      WorkerInTime(s.workers[k], s.clock, step.step, step.v, step.ran, lag);
    }
  }

  ghost predicate AllInTime(s: State, lag: nat) {
    forall k :: 0 <= k < |s.workers| ==> InTime(s.workers[k], lag)
  }

  lemma StepInTime(s: State, step: Step, t: State, lag: nat)
    requires Next(s, step, t) && Ok(s) && Brisk(s, lag) && AllInTime(s, lag)
    ensures AllInTime(t, lag)
  {
    assert |t.workers| == |s.workers|;
    forall k | 0 <= k < |s.workers| ensures InTime(t.workers[k], lag) {
      NextInTime(s, step, t, k, lag);
    }
  }

  /**
   As long as no worker takes longer than `lag` from reading the clock, or from
   its timer's going off, to setting the timer, no timer is set to go off before
   its task is due or more than `lag` after it.
   */
  lemma {:induction false} TimersInTime(run: seq<State>, steps: seq<Step>, i: nat, lag: nat)
    requires IsRun(run, steps) && i < |run| && forall j :: 0 <= j < i ==> Brisk(run[j], lag)
    ensures AllInTime(run[i], lag)
  {
    if i > 0 {
      TimersInTime(run, steps, i - 1, lag);
      RunOk(run, steps, i - 1);
      assert Next(run[i - 1], steps[i - 1], run[i]);
      StepInTime(run[i - 1], steps[i - 1], run[i], lag);
    }
  }

  /**
   In every state of every run before `Close`: the tasks ever put are exactly
   those in the list, in transit, in a worker's hands, and executed; each was
   executed after it was due and no more often than put; a non-empty list has a
   notification pending, a `Put` about to notify, or the list about to be
   fetched; and every waiting worker with tasks has its timer set for the first
   of them or a fire to look at, so draining the timer never blocks.
   */
  lemma SchedulerKeepsTasks(run: seq<State>, steps: seq<Step>, i: nat, t: TimedFunc)
    requires IsRun(run, steps) && i < |run| && !run[i].died
    ensures var s := run[i];
      && s.put == multiset(s.prepended) + multiset(InTransit(s.pc)) + HeldByAll(s.workers) + multiset(Tasks(s.executed))
      && (forall e :: e in s.executed ==> e.task.ts < e.at)
      && multiset(Tasks(s.executed))[t] <= s.put[t]
      && Noticed(s)
      && (forall w :: w in s.workers && w.pc.Select? ==> Watched(w))
      && (forall w :: w in s.workers && w.pc.Draining? ==> w.fire.Some?)
  {
    RunOk(run, steps, i);
    NeverTwice(run[i], t);
    AllPlaces(run[i]);
    forall w | w in run[i].workers ensures WorkerOk(w, run[i].clock) {
      var k :| 0 <= k < |run[i].workers| && run[i].workers[k] == w;
    }
  }
}
