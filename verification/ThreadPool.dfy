/**
 * `ThreadPoolExecutor`: workers that share a queue under a mutex and sleep on a
 * condition variable. What happens under the mutex is one step; notifying is a step
 * of its own after it. A sleeping worker may also wake up for no reason.
 */
module ThreadPool {
  import opened Basics

  /** A worker waits for the mutex to look at the queue, sleeps, runs a task, or is gone. */
  datatype Worker = Checking | Asleep | Running(task: nat) | Exited

  /**
   * Tasks are numbered as they are scheduled. `started` and `done` are history, not
   * part of the program.
   */
  datatype State = State(
    workers: seq<Worker>, queue: seq<nat>, stop: bool,
    notifies: nat, notifyAll: bool,
    scheduled: nat, started: seq<nat>, done: multiset<nat>)

  function Init(n: nat): State {
    State(seq(n, _ => Checking), [], false, 0, false, 0, [], multiset{})
  }

  /** `Schedule` and `Stop` are by the owner of the pool, the rest by workers and the condition variable. */
  datatype Turn = Schedule | Stop | NotifyOne(i: nat) | NotifyAll | Spurious(i: nat) | Work(i: nat)

  predicate SomeAsleep(ws: seq<Worker>) {
    exists i :: 0 <= i < |ws| && ws[i].Asleep?
  }

  function Woken(w: Worker): Worker {
    if w.Asleep? then Checking else w
  }

  /** Every sleeping worker wakes up. */
  function WakeAll(ws: seq<Worker>): (ws': seq<Worker>)
    ensures |ws'| == |ws| && forall i :: 0 <= i < |ws| ==> ws'[i] == Woken(ws[i])
  {
    if ws == [] then [] else [Woken(ws[0])] + WakeAll(ws[1..])
  }

  /** Worker `i` goes on: it takes a task, falls asleep or exits; or it has finished its task. */
  function WorkStep(s: State, i: nat): State
    requires i < |s.workers|
  {
    match s.workers[i]
    case Checking =>
      if s.queue != [] then
        s.(workers := s.workers[i := Running(s.queue[0])], queue := s.queue[1..], started := s.started + [s.queue[0]])
      else s.(workers := s.workers[i := if s.stop then Exited else Asleep])
    case Running(t) => s.(workers := s.workers[i := Checking], done := s.done + multiset{t})
    case _ => s
  }

  /** A turn that cannot be taken leaves everything as it is. Once the pool is stopped its owner is gone. */
  function Step(s: State, t: Turn): State {
    match t
    case Schedule =>
      if s.stop then s
      else s.(queue := s.queue + [s.scheduled], scheduled := s.scheduled + 1, notifies := s.notifies + 1)
    case Stop => if s.stop then s else s.(stop := true, notifyAll := true)
    case NotifyOne(i) =>
      if s.notifies == 0 then s
      else if i < |s.workers| && s.workers[i].Asleep? then
        s.(notifies := s.notifies - 1, workers := s.workers[i := Checking])
      else if SomeAsleep(s.workers) then s
      else s.(notifies := s.notifies - 1)
    case NotifyAll =>
      if !s.notifyAll then s
      else s.(notifyAll := false, workers := WakeAll(s.workers))
    case Spurious(i) =>
      if i < |s.workers| && s.workers[i].Asleep? then s.(workers := s.workers[i := Checking]) else s
    case Work(i) =>
      if i < |s.workers| then WorkStep(s, i) else s
  }

  // ---- Conservation ----

  /** The tasks that are running. */
  function RunningTasks(ws: seq<Worker>): multiset<nat> {
    if ws == [] then multiset{} else RunningTasks(ws[1..]) + TaskOf(ws[0])
  }

  function TaskOf(w: Worker): multiset<nat> {
    if w.Running? then multiset{w.task} else multiset{}
  }

  lemma {:induction false} RunningUpdate(ws: seq<Worker>, i: nat, w: Worker)
    requires i < |ws|
    ensures RunningTasks(ws[i := w]) + TaskOf(ws[i]) == RunningTasks(ws) + TaskOf(w)
  {
    hide TaskOf;
    var ws' := ws[i := w];
    if i == 0 {
      assert ws'[1..] == ws[1..] && ws'[0] == w;
      Swap(RunningTasks(ws[1..]), TaskOf(w), TaskOf(ws[0]));
    } else {
      RunningUpdate(ws[1..], i - 1, w);
      assert ws'[1..] == ws[1..][i - 1 := w] && ws'[0] == ws[0];
      Swap(RunningTasks(ws'[1..]), TaskOf(ws[0]), TaskOf(ws[i]));
      Swap(RunningTasks(ws[1..]), TaskOf(ws[0]), TaskOf(w));
    }
  }

  lemma Swap(r: multiset<nat>, a: multiset<nat>, b: multiset<nat>)
    ensures r + a + b == r + b + a
  {}

  lemma {:induction false} SameRunning(ws: seq<Worker>, ws': seq<Worker>)
    requires |ws| == |ws'| && forall i :: 0 <= i < |ws| ==> TaskOf(ws[i]) == TaskOf(ws'[i])
    ensures RunningTasks(ws) == RunningTasks(ws')
  {
    if ws != [] {
      assert TaskOf(ws[0]) == TaskOf(ws'[0]);
      assert forall i :: 0 <= i < |ws[1..]| ==> ws[1..][i] == ws[i + 1] && ws'[1..][i] == ws'[i + 1];
      SameRunning(ws[1..], ws'[1..]);
    }
  }

  /** The numbers below `n`. */
  function UpTo(n: nat): seq<nat> {
    if n == 0 then [] else UpTo(n - 1) + [n - 1]
  }

  /** Tasks start in the order they were scheduled; those started are running or done. */
  ghost predicate Conserved(s: State) {
    && s.started + s.queue == UpTo(s.scheduled)
    && multiset(s.started) == RunningTasks(s.workers) + s.done
  }

  // ---- Waking up ----

  predicate Awake(w: Worker) {
    w.Checking? || w.Running?
  }

  /** A task in the queue has somebody who is going to look for it. */
  ghost predicate Attended(s: State) {
    && (s.queue != [] && s.workers != [] ==> s.notifies > 0 || exists i :: 0 <= i < |s.workers| && Awake(s.workers[i]))
    && (forall i :: 0 <= i < |s.workers| && s.workers[i].Exited? ==> s.stop && s.queue == [])
    && (s.stop && !s.notifyAll ==> !SomeAsleep(s.workers))
    && (s.notifyAll ==> s.stop)
  }

  ghost predicate Inv(s: State) {
    Conserved(s) && Attended(s)
  }

  lemma InitInv(n: nat)
    ensures Inv(Init(n))
  {
    SameRunning(Init(n).workers, Init(n).workers);
    NoneRunning(Init(n).workers);
  }

  lemma {:induction false} NoneRunning(ws: seq<Worker>)
    requires forall i :: 0 <= i < |ws| ==> !ws[i].Running?
    ensures RunningTasks(ws) == multiset{}
  {
    if ws != [] {
      NoneRunning(ws[1..]);
    }
  }

  lemma WorkKeepsOrder(s: State, i: nat)
    requires i < |s.workers|
    ensures WorkStep(s, i).started + WorkStep(s, i).queue == s.started + s.queue
    ensures WorkStep(s, i).scheduled == s.scheduled
  {
    if s.workers[i].Checking? && s.queue != [] {
      assert s.started + s.queue == s.started + [s.queue[0]] + s.queue[1..];
    }
  }

  lemma WorkKeepsCount(s: State, i: nat)
    requires i < |s.workers| && multiset(s.started) == RunningTasks(s.workers) + s.done
    ensures multiset(WorkStep(s, i).started) == RunningTasks(WorkStep(s, i).workers) + WorkStep(s, i).done
  {
    var s' := WorkStep(s, i);
    WorkUpdates(s, i);
    RunningUpdate(s.workers, i, s'.workers[i]);
    hide RunningTasks, WorkStep, TaskOf;
    var took, stopped := TaskOf(s'.workers[i]), TaskOf(s.workers[i]);
    Rearrange(RunningTasks(s.workers), RunningTasks(s'.workers), s.done, took, stopped);
  }

  lemma Rearrange(r: multiset<nat>, r': multiset<nat>, d: multiset<nat>, took: multiset<nat>, stopped: multiset<nat>)
    requires r' + stopped == r + took
    ensures r + d + took == r' + (d + stopped)
  {
    assert r + d + took == r + took + d;
    assert r' + stopped + d == r' + (d + stopped);
  }

  /** What a worker takes it runs, and what it stops running is done. */
  lemma WorkUpdates(s: State, i: nat)
    requires i < |s.workers|
    ensures var s' := WorkStep(s, i);
            && |s'.workers| == |s.workers| && s'.workers == s.workers[i := s'.workers[i]]
            && multiset(s'.started) == multiset(s.started) + TaskOf(s'.workers[i])
            && s'.done == s.done + TaskOf(s.workers[i])
  {
    match s.workers[i]
    case Checking =>
      if s.queue != [] {
        assert multiset(s.started + [s.queue[0]]) == multiset(s.started) + multiset{s.queue[0]};
      }
    case Running(t) =>
      assert TaskOf(s.workers[i]) == multiset{t};
    case Asleep =>
      assert s.workers[i := s.workers[i]] == s.workers;
    case Exited =>
      assert s.workers[i := s.workers[i]] == s.workers;
  }

  lemma SameCount(s: State, t: Turn)
    requires !t.Work?
    ensures |Step(s, t).workers| == |s.workers|
  {}

  lemma OtherLeavesRunning(s: State, t: Turn, i: nat)
    requires !t.Work? && i < |s.workers| == |Step(s, t).workers|
    ensures var w, w' := s.workers[i], Step(s, t).workers[i]; w' == w || (w.Asleep? && w'.Checking?)
  {
    hide WakeAll, WorkStep, SomeAsleep;
  }

  lemma WakingIsNotRunning(w: Worker, w': Worker)
    requires w' == w || (w.Asleep? && w'.Checking?)
    ensures TaskOf(w) == TaskOf(w')
  {}

  /** No turn but a worker's own changes what it runs. */
  lemma OthersRunOn(s: State, t: Turn)
    requires !t.Work?
    ensures RunningTasks(Step(s, t).workers) == RunningTasks(s.workers)
  {
    hide RunningTasks, Step, TaskOf;
    SameCount(s, t);
    forall i | 0 <= i < |s.workers| ensures TaskOf(s.workers[i]) == TaskOf(Step(s, t).workers[i]) {
      OtherLeavesRunning(s, t, i);
      WakingIsNotRunning(s.workers[i], Step(s, t).workers[i]);
    }
    SameRunning(s.workers, Step(s, t).workers);
  }

  /** What the other turns do to the queue and to history. */
  lemma OthersSchedule(s: State, t: Turn)
    requires !t.Work?
    ensures var s' := Step(s, t);
            && s'.started == s.started && s'.done == s.done
            && (if t.Schedule? && !s.stop then s'.queue == s.queue + [s.scheduled] && s'.scheduled == s.scheduled + 1
                else s'.queue == s.queue && s'.scheduled == s.scheduled)
  {}

  lemma StepConserves(s: State, t: Turn)
    requires Conserved(s)
    ensures Conserved(Step(s, t))
  {
    hide RunningTasks, WorkStep;
    if t.Work? {
      if t.i < |s.workers| {
        WorkKeepsOrder(s, t.i);
        WorkKeepsCount(s, t.i);
      }
    } else {
      OthersRunOn(s, t);
      OthersSchedule(s, t);
      hide Step;
      assert s.started + (s.queue + [s.scheduled]) == s.started + s.queue + [s.scheduled];
    }
  }

  /** A worker that is awake stays so, except when it finds nothing to do. */
  lemma StaysAwake(s: State, t: Turn, i: nat)
    requires i < |s.workers| && Awake(s.workers[i])
    requires s.queue != [] || !s.workers[i].Checking?
    ensures |Step(s, t).workers| == |s.workers| && Awake(Step(s, t).workers[i])
  {}

  lemma StepAttends(s: State, t: Turn)
    requires Attended(s)
    ensures Attended(Step(s, t)) && |Step(s, t).workers| == |s.workers|
  {
    hide WakeAll;
    var s' := Step(s, t);
    if s.queue != [] && s.workers != [] && s.notifies == 0 {
      var i :| 0 <= i < |s.workers| && Awake(s.workers[i]);
      StaysAwake(s, t, i);
    }
    if t.NotifyOne? && s.notifies > 0 && s.queue != [] && s.workers != [] {
      if t.i < |s.workers| && s.workers[t.i].Asleep? {
        assert Awake(s'.workers[t.i]);
      } else if !SomeAsleep(s.workers) {
        assert !s.workers[0].Asleep? && !s.workers[0].Exited?;
        assert Awake(s'.workers[0]);
      }
    }
    match t
    case Schedule =>
    case Stop =>
    case NotifyOne(_) =>
    case NotifyAll =>
    case Spurious(_) =>
    case Work(_) =>
  }

  lemma StepKeeps(s: State, t: Turn)
    requires Inv(s)
    ensures Inv(Step(s, t))
  {
    hide Conserved, Attended, Step;
    StepConserves(s, t);
    StepAttends(s, t);
  }

  function From(s: State, turns: seq<Turn>): State
    decreases turns
  {
    if turns == [] then s else From(Step(s, turns[0]), turns[1..])
  }

  lemma OneStepSameWorkers(s: State, t: Turn)
    ensures |Step(s, t).workers| == |s.workers|
  {}

  /** What every step keeps every run does, and with it the workers there are. */
  lemma {:induction false} FromKeeps(s: State, turns: seq<Turn>)
    requires Inv(s)
    ensures Inv(From(s, turns)) && |From(s, turns).workers| == |s.workers|
    decreases turns
  {
    if turns != [] {
      StepKeeps(s, turns[0]);
      OneStepSameWorkers(s, turns[0]);
      hide Inv, Step;
      FromKeeps(Step(s, turns[0]), turns[1..]);
    }
  }

  /**
   * In every run each scheduled task is queued, running or done, and only one of
   * these; tasks start in the order they were scheduled; a worker exits only from a
   * stopped pool with an empty queue; and, in a pool that has workers, no task is
   * left in the queue with every worker asleep and no notification pending. Only a
   * stop broadcasts.
   */
  lemma EveryRun(n: nat, turns: seq<Turn>)
    ensures var s := From(Init(n), turns);
            && multiset(UpTo(s.scheduled)) == multiset(s.queue) + RunningTasks(s.workers) + s.done
            && s.started + s.queue == UpTo(s.scheduled)
            && (forall i :: 0 <= i < |s.workers| && s.workers[i].Exited? ==> s.stop && s.queue == [])
            && !(n > 0 && s.queue != [] && s.notifies == 0 && forall i :: 0 <= i < |s.workers| ==> s.workers[i].Asleep?)
            && (s.notifyAll ==> s.stop)
  {
    InitInv(n);
    FromKeeps(Init(n), turns);
    var s := From(Init(n), turns);
    hide From, RunningTasks, UpTo;
    assert multiset(s.started + s.queue) == multiset(s.started) + multiset(s.queue);
  }

  // ---- Draining ----

  function Weight(w: Worker): nat {
    match w case Checking => 1 case Asleep => 2 case Running(_) => 2 case Exited => 0
  }

  function Weights(ws: seq<Worker>): nat {
    if ws == [] then 0 else Weights(ws[1..]) + Weight(ws[0])
  }

  /** What a stopped pool still has to do. */
  function Left(s: State): nat {
    3 * |s.queue| + Weights(s.workers)
  }

  lemma {:induction false} WeightsUpdate(ws: seq<Worker>, i: nat, w: Worker)
    requires i < |ws|
    ensures Weights(ws[i := w]) + Weight(ws[i]) == Weights(ws) + Weight(w)
  {
    var ws' := ws[i := w];
    if i == 0 {
      assert ws'[1..] == ws[1..] && ws'[0] == w;
    } else {
      WeightsUpdate(ws[1..], i - 1, w);
      assert ws'[1..] == ws[1..][i - 1 := w] && ws'[0] == ws[0];
    }
  }

  /** In a stopped pool every step of a worker that is awake brings the pool closer to its end. */
  lemma AwakeStepDrains(s: State, i: nat)
    requires s.stop && i < |s.workers| && Awake(s.workers[i])
    ensures Left(Step(s, Work(i))) < Left(s)
  {
    WeightsUpdate(s.workers, i, WorkStep(s, i).workers[i]);
    hide Weights;
    match s.workers[i]
    case Checking =>
    case Running(_) =>
  }

  /** When every worker of a stopped pool is gone, every task that was scheduled is done. */
  lemma AllDone(s: State)
    requires s.workers != [] && Inv(s) && forall i :: 0 <= i < |s.workers| ==> s.workers[i].Exited?
    ensures s.queue == [] && s.done == multiset(UpTo(s.scheduled))
  {
    assert s.workers[0].Exited?;
    NoneRunning(s.workers);
    assert s.started + [] == s.started;
  }

  lemma {:induction false} WakingLightens(ws: seq<Worker>, i: nat)
    ensures Weights(WakeAll(ws)) <= Weights(ws)
    ensures i < |ws| && ws[i].Asleep? ==> Weights(WakeAll(ws)) < Weights(ws)
  {
    if ws != [] {
      WakingLightens(ws[1..], if i > 0 then i - 1 else 0);
      assert WakeAll(ws)[1..] == WakeAll(ws[1..]) && WakeAll(ws)[0] == Woken(ws[0]);
    }
  }

  /** In a stopped pool no turn adds to what is left to do. */
  lemma NothingIsAdded(s: State, t: Turn)
    requires s.stop && (s.notifyAll || !SomeAsleep(s.workers))
    ensures var s' := Step(s, t);
            s'.stop && s'.scheduled == s.scheduled && Left(s') <= Left(s)
  {
    match t
    case Schedule =>
    case Stop =>
    case NotifyOne(i) =>
      if i < |s.workers| {
        WeightsUpdate(s.workers, i, Checking);
      }
    case NotifyAll =>
      WakingLightens(s.workers, 0);
    case Spurious(i) =>
      if i < |s.workers| {
        WeightsUpdate(s.workers, i, Checking);
      }
    case Work(i) =>
      if i < |s.workers| {
        WeightsUpdate(s.workers, i, WorkStep(s, i).workers[i]);
      }
  }

  lemma {:induction false} NothingIsAddedInARun(s: State, turns: seq<Turn>)
    requires Inv(s) && s.stop
    ensures var e := From(s, turns);
            Inv(e) && e.stop && e.scheduled == s.scheduled && |e.workers| == |s.workers| && Left(e) <= Left(s)
    decreases turns
  {
    if turns != [] {
      NothingIsAdded(s, turns[0]);
      StepKeeps(s, turns[0]);
      OneStepSameWorkers(s, turns[0]);
      hide Inv, Step, Left;
      NothingIsAddedInARun(Step(s, turns[0]), turns[1..]);
    }
  }

  /** A turn of another than worker `i` leaves it awake. */
  lemma OthersLeaveAwake(s: State, t: Turn, i: nat)
    requires i < |s.workers| && Awake(s.workers[i]) && t != Work(i)
    ensures |Step(s, t).workers| == |s.workers| && Awake(Step(s, t).workers[i])
  {
    hide WakeAll;
  }

  /** A worker that is awake brings the pool closer to its end when it gets a turn. */
  lemma {:induction false} AwakeDrains(s: State, turns: seq<Turn>, i: nat)
    requires Inv(s) && s.stop && i < |s.workers| && Awake(s.workers[i]) && Work(i) in turns
    ensures Left(From(s, turns)) < Left(s)
    decreases turns
  {
    var s' := Step(s, turns[0]);
    NothingIsAdded(s, turns[0]);
    StepKeeps(s, turns[0]);
    if turns[0] == Work(i) {
      AwakeStepDrains(s, i);
      hide Inv, Step, Left;
      NothingIsAddedInARun(s', turns[1..]);
    } else {
      OthersLeaveAwake(s, turns[0], i);
      hide Inv, Step, Left;
      assert turns == [turns[0]] + turns[1..];
      AwakeDrains(s', turns[1..], i);
    }
  }

  /** While a worker sleeps and the broadcast is pending, a turn either brings the end closer or changes neither. */
  lemma StillPending(s: State, t: Turn, i: nat)
    requires Inv(s) && s.stop && s.notifyAll && i < |s.workers| && s.workers[i].Asleep?
    ensures var s' := Step(s, t);
            Left(s') < Left(s) || (t != NotifyAll && |s'.workers| == |s.workers| && s'.notifyAll && s'.workers[i].Asleep?)
  {
    hide Inv, Weights, WakeAll;
    match t
    case Schedule =>
    case Stop =>
    case NotifyOne(j) =>
      if j < |s.workers| {
        WeightsUpdate(s.workers, j, Checking);
      }
    case NotifyAll =>
      WakingLightens(s.workers, i);
    case Spurious(j) =>
      if j < |s.workers| {
        WeightsUpdate(s.workers, j, Checking);
      }
    case Work(j) =>
      if j < |s.workers| {
        WeightsUpdate(s.workers, j, WorkStep(s, j).workers[j]);
      }
  }

  lemma {:induction false} BroadcastDrains(s: State, turns: seq<Turn>, i: nat)
    requires Inv(s) && s.stop && s.notifyAll && i < |s.workers| && s.workers[i].Asleep? && NotifyAll in turns
    ensures Left(From(s, turns)) < Left(s)
    decreases turns
  {
    var s' := Step(s, turns[0]);
    StillPending(s, turns[0], i);
    NothingIsAdded(s, turns[0]);
    StepKeeps(s, turns[0]);
    hide Inv, Step, Left;
    if Left(s') < Left(s) {
      NothingIsAddedInARun(s', turns[1..]);
    } else {
      assert turns == [turns[0]] + turns[1..];
      BroadcastDrains(s', turns[1..], i);
    }
  }

  /** A stretch of a run in which a pending broadcast is delivered and every one of `n` workers gets a turn. */
  predicate Fair(turns: seq<Turn>, n: nat) {
    NotifyAll in turns && forall i :: 0 <= i < n ==> Work(i) in turns
  }

  predicate Gone(s: State) {
    forall i :: 0 <= i < |s.workers| ==> s.workers[i].Exited?
  }

  /** Such a stretch, whatever else is in it, brings a stopped pool closer to its end. */
  lemma FairDrains(s: State, turns: seq<Turn>)
    requires Inv(s) && s.stop && Fair(turns, |s.workers|) && !Gone(s)
    ensures Left(From(s, turns)) < Left(s)
  {
    var i :| 0 <= i < |s.workers| && !s.workers[i].Exited?;
    if Awake(s.workers[i]) {
      AwakeDrains(s, turns, i);
    } else {
      BroadcastDrains(s, turns, i);
    }
  }

  /** Stretches of a run, one after another. */
  function FromAll(s: State, stretches: seq<seq<Turn>>): State
    decreases stretches
  {
    if stretches == [] then s else FromAll(From(s, stretches[0]), stretches[1..])
  }

  /**
   * From any state in which it is stopped, every run in which all workers keep
   * getting turns and the broadcast is delivered brings the pool to its end, after
   * as many such stretches as there is left to do, with every scheduled task done.
   */
  lemma {:induction false} StoppedPoolDrains(s: State, stretches: seq<seq<Turn>>)
    requires s.workers != [] && Inv(s) && s.stop
    requires |stretches| >= Left(s) && forall k :: 0 <= k < |stretches| ==> Fair(stretches[k], |s.workers|)
    ensures var e := FromAll(s, stretches);
            Gone(e) && e.queue == [] && e.done == multiset(UpTo(s.scheduled))
    decreases stretches
  {
    if stretches == [] {
      NoneLeft(s);
      AllDone(s);
    } else {
      var s' := From(s, stretches[0]);
      NothingIsAddedInARun(s, stretches[0]);
      if Gone(s) {
        AllGone(s);
      } else {
        assert Fair(stretches[0], |s.workers|);
        FairDrains(s, stretches[0]);
      }
      hide Inv, From, Left, Fair, Gone, UpTo;
      StoppedPoolDrains(s', stretches[1..]);
    }
  }

  /** Nothing is left to do only when every worker is gone. */
  lemma NoneLeft(s: State)
    requires Left(s) == 0
    ensures Gone(s)
  {
    forall i | 0 <= i < |s.workers| ensures s.workers[i].Exited? {
      WeightsUpdate(s.workers, i, Exited);
    }
  }

  lemma {:induction false} NoWeight(ws: seq<Worker>)
    requires forall i :: 0 <= i < |ws| ==> ws[i].Exited?
    ensures Weights(ws) == 0
  {
    if ws != [] {
      NoWeight(ws[1..]);
    }
  }

  /** When every worker is gone nothing is left to do. */
  lemma AllGone(s: State)
    requires s.workers != [] && Inv(s) && Gone(s)
    ensures Left(s) == 0
  {
    assert s.workers[0].Exited?;
    NoWeight(s.workers);
  }

  // ---- The life of a pool ----

  /** How many tasks are handed to a pool before its owner stops it. */
  function Handed(turns: seq<Turn>): nat {
    if turns == [] || turns[0].Stop? then 0
    else (if turns[0].Schedule? then 1 else 0) + Handed(turns[1..])
  }

  lemma OneStepOfOwner(s: State, t: Turn)
    ensures var s' := Step(s, t);
            && s'.stop == (s.stop || t.Stop?)
            && s'.scheduled == s.scheduled + (if t.Schedule? && !s.stop then 1 else 0)
  {
    hide WakeAll, SomeAsleep;
  }

  lemma {:induction false} StoppedTakesNone(s: State, turns: seq<Turn>)
    requires s.stop
    ensures var e := From(s, turns); e.stop && e.scheduled == s.scheduled
    decreases turns
  {
    if turns != [] {
      OneStepOfOwner(s, turns[0]);
      hide Step;
      StoppedTakesNone(Step(s, turns[0]), turns[1..]);
    }
  }

  /** A pool is stopped if and only if its owner has stopped it, and takes every task up to then and none after. */
  lemma {:induction false} TakenExactly(s: State, turns: seq<Turn>)
    requires !s.stop
    ensures From(s, turns).stop <==> Stop in turns
    ensures From(s, turns).scheduled == s.scheduled + Handed(turns)
    decreases turns
  {
    if turns != [] {
      var s' := Step(s, turns[0]);
      OneStepOfOwner(s, turns[0]);
      hide Step;
      assert turns == [turns[0]] + turns[1..];
      if turns[0].Stop? {
        StoppedTakesNone(s', turns[1..]);
      } else {
        TakenExactly(s', turns[1..]);
      }
    }
  }

  lemma {:induction false} UpToLists(n: nat)
    ensures |UpTo(n)| == n && forall k :: 0 <= k < n ==> UpTo(n)[k] == k
    ensures forall t: nat :: multiset(UpTo(n))[t] == if t < n then 1 else 0
  {
    if n > 0 {
      UpToLists(n - 1);
      var last: nat := n - 1;
      assert multiset(UpTo(n)) == multiset(UpTo(n - 1)) + multiset{last};
    }
  }

  lemma {:induction false} WeightsBound(ws: seq<Worker>)
    ensures Weights(ws) <= 2 * |ws|
  {
    if ws != [] {
      WeightsBound(ws[1..]);
    }
  }

  /** Every task below `count` has started, one after another, and is done once; there is no other. */
  ghost predicate AllTasksDone(s: State, count: nat) {
    && |s.started| == count && (forall k :: 0 <= k < count ==> s.started[k] == k)
    && forall t: nat :: s.done[t] == if t < count then 1 else 0
  }

  lemma {:induction false} FromAllKeeps(s: State, stretches: seq<seq<Turn>>)
    requires Inv(s) && s.stop
    ensures var e := FromAll(s, stretches);
            Inv(e) && e.stop && e.scheduled == s.scheduled && |e.workers| == |s.workers|
    decreases stretches
  {
    if stretches != [] {
      NothingIsAddedInARun(s, stretches[0]);
      hide Inv, From;
      FromAllKeeps(From(s, stretches[0]), stretches[1..]);
    }
  }

  lemma FirstStretchLeft(n: nat, s: State, count: nat)
    requires Inv(s) && s.scheduled == count && |s.workers| == n
    ensures Left(s) <= 3 * count + 2 * n
  {
    hide RunningTasks, UpTo, Weights;
    UpToLists(count);
    WeightsBound(s.workers);
    assert |s.started + s.queue| == count;
  }

  lemma ListedIsDone(s: State, count: nat)
    requires Inv(s) && s.queue == [] && s.done == multiset(UpTo(count)) && s.scheduled == count
    ensures AllTasksDone(s, count)
  {
    hide RunningTasks, UpTo, Attended;
    UpToLists(count);
    assert s.started + s.queue == s.started;
  }

  /** The broadcast is over and does not come back. */
  lemma {:induction false} BroadcastIsOver(s: State, turns: seq<Turn>)
    requires s.stop && (s.notifyAll ==> NotifyAll in turns)
    ensures var e := From(s, turns); e.stop && !e.notifyAll
    decreases turns
  {
    if turns != [] {
      BroadcastStep(s, turns[0]);
      hide Step;
      assert turns == [turns[0]] + turns[1..];
      BroadcastIsOver(Step(s, turns[0]), turns[1..]);
    }
  }

  lemma BroadcastStep(s: State, t: Turn)
    requires s.stop
    ensures var s' := Step(s, t); s'.stop && s'.notifyAll == (s.notifyAll && t != NotifyAll)
  {
    hide WakeAll, SomeAsleep;
  }

  lemma {:induction false} BroadcastsAreOver(s: State, stretches: seq<seq<Turn>>)
    requires s.stop && (s.notifyAll ==> stretches != [] && NotifyAll in stretches[0])
    ensures !FromAll(s, stretches).notifyAll
    decreases stretches
  {
    if stretches != [] {
      BroadcastIsOver(s, stretches[0]);
      hide From;
      BroadcastsAreOver(From(s, stretches[0]), stretches[1..]);
    }
  }

  /**
   * A pool of `n` workers, whatever its owner and the scheduler do until it has been
   * stopped: if from there on all workers keep getting turns and the broadcast is
   * delivered, then after so many stretches every worker is gone, the queue is empty,
   * and exactly the tasks handed over before the stop are done, each of them once.
   */
  lemma LifeOfPool(n: nat, turns: seq<Turn>, stretches: seq<seq<Turn>>)
    requires n > 0 && Stop in turns
    requires |stretches| >= 3 * Handed(turns) + 2 * n && forall k :: 0 <= k < |stretches| ==> Fair(stretches[k], n)
    ensures var e := FromAll(From(Init(n), turns), stretches);
            && |e.workers| == n && (forall i :: 0 <= i < n ==> e.workers[i] == Exited)
            && e.queue == [] && !e.notifyAll && AllTasksDone(e, Handed(turns))
  {
    var s := From(Init(n), turns);
    InitInv(n);
    FromKeeps(Init(n), turns);
    TakenExactly(Init(n), turns);
    assert Fair(stretches[0], n);
    hide From, FromAll, Inv, Handed, Left, AllTasksDone, UpTo;
    FirstStretchLeft(n, s, Handed(turns));
    StoppedPoolDrains(s, stretches);
    FromAllKeeps(s, stretches);
    BroadcastsAreOver(s, stretches);
    ListedIsDone(FromAll(s, stretches), Handed(turns));
  }

  // ---- Notifications ----

  /** A sleeping worker wakes up only when it is notified, or all are, or for no reason. */
  lemma WakesExactly(s: State, t: Turn, i: nat)
    requires i < |s.workers| && s.workers[i] == Asleep
    ensures |Step(s, t).workers| == |s.workers|
    ensures Step(s, t).workers[i] ==
              if (t == NotifyOne(i) && s.notifies > 0) || (t == NotifyAll && s.notifyAll) || t == Spurious(i)
              then Checking else Asleep
  {
    hide SomeAsleep;
  }

  /** How many workers the notifications of a run wake up. */
  ghost function WokenUp(s: State, turns: seq<Turn>): nat
    decreases turns
  {
    if turns == [] then 0
    else
      var t := turns[0];
      WokenUp(Step(s, t), turns[1..])
        + if t.NotifyOne? && s.notifies > 0 && t.i < |s.workers| && s.workers[t.i] == Asleep then 1 else 0
  }

  /** How many notifications of a run find nobody asleep. */
  ghost function Missed(s: State, turns: seq<Turn>): nat
    decreases turns
  {
    if turns == [] then 0
    else
      var t := turns[0];
      Missed(Step(s, t), turns[1..])
        + if t.NotifyOne? && s.notifies > 0 && forall i :: 0 <= i < |s.workers| ==> s.workers[i] != Asleep then 1 else 0
  }

  lemma OneNotification(s: State, t: Turn)
    ensures Step(s, t).notifies + WokenUp(s, [t]) + Missed(s, [t]) - Step(s, t).scheduled == s.notifies - s.scheduled
  {
    var s' := Step(s, t);
    assert [t][1..] == [];
    assert WokenUp(s', []) == 0 && Missed(s', []) == 0;
    assert SomeAsleep(s.workers) <==> !(forall i :: 0 <= i < |s.workers| ==> s.workers[i] != Asleep);
    hide WakeAll, WorkStep;
  }

  lemma {:induction false} NotificationsFrom(s: State, turns: seq<Turn>)
    ensures From(s, turns).notifies + WokenUp(s, turns) + Missed(s, turns) - From(s, turns).scheduled == s.notifies - s.scheduled
    decreases turns
  {
    if turns != [] {
      OneNotification(s, turns[0]);
      assert [turns[0]][1..] == [];
      assert WokenUp(Step(s, turns[0]), []) == 0 && Missed(Step(s, turns[0]), []) == 0;
      hide Step;
      NotificationsFrom(Step(s, turns[0]), turns[1..]);
    }
  }

  /** Every task scheduled sends one notification: it wakes one worker, finds nobody asleep, or is still to come. */
  lemma OneNotificationEach(n: nat, turns: seq<Turn>)
    ensures var s := From(Init(n), turns);
            s.notifies + WokenUp(Init(n), turns) + Missed(Init(n), turns) == s.scheduled
  {
    NotificationsFrom(Init(n), turns);
    hide From, WokenUp, Missed;
  }

  // ---- Every task gets its turn ----

  /** A stretch in which every one of `n` workers gets a turn and a notification may reach it. */
  predicate Round(turns: seq<Turn>, n: nat) {
    forall i :: 0 <= i < n ==> Work(i) in turns && NotifyOne(i) in turns
  }

  /** A step starts a task or leaves the queue no shorter, and every worker that is looking goes on looking. */
  lemma StartsOrWaits(s: State, t: Turn)
    requires s.queue != []
    ensures var s' := Step(s, t);
            && |s'.workers| == |s.workers| && s.started <= s'.started
            && (|s'.started| > |s.started|
                || (s'.queue != [] && forall i :: 0 <= i < |s.workers| && s.workers[i].Checking? ==> s'.workers[i].Checking?))
  {}

  lemma StartedStays(s: State, t: Turn)
    ensures s.started <= Step(s, t).started
  {}

  lemma {:induction false} StartedGrows(s: State, turns: seq<Turn>)
    ensures s.started <= From(s, turns).started
    decreases turns
  {
    if turns != [] {
      StartedStays(s, turns[0]);
      hide Step;
      StartedGrows(Step(s, turns[0]), turns[1..]);
    }
  }

  /** A task has started since `s`. */
  ghost predicate MovesOn(s: State, e: State) {
    |e.started| > |s.started|
  }

  /** While no task starts a worker that is looking goes on looking. */
  lemma {:induction false} KeepsLooking(s: State, turns: seq<Turn>, i: nat)
    requires s.queue != [] && i < |s.workers| && s.workers[i].Checking?
    ensures var e := From(s, turns);
            MovesOn(s, e) || (e.queue != [] && |e.workers| == |s.workers| && e.workers[i].Checking?)
    decreases turns
  {
    if turns != [] {
      StartsOrWaits(s, turns[0]);
      var s' := Step(s, turns[0]);
      hide Step;
      StartedGrows(s', turns[1..]);
      if |s'.started| == |s.started| {
        KeepsLooking(s', turns[1..], i);
      }
    }
  }

  lemma {:induction false} LookingStarts(s: State, turns: seq<Turn>, i: nat)
    requires s.queue != [] && i < |s.workers| && s.workers[i].Checking? && Work(i) in turns
    ensures MovesOn(s, From(s, turns))
    decreases turns
  {
    StartsOrWaits(s, turns[0]);
    var s' := Step(s, turns[0]);
    StartedGrows(s', turns[1..]);
    if |s'.started| == |s.started| {
      assert turns[0] != Work(i);
      assert turns == [turns[0]] + turns[1..];
      hide Step;
      LookingStarts(s', turns[1..], i);
    }
  }

  lemma OthersLetRun(s: State, t: Turn, i: nat)
    requires i < |s.workers| && s.workers[i].Running?
    ensures var s' := Step(s, t);
            && |s'.workers| == |s.workers|
            && (if t == Work(i) then s'.workers[i].Checking? && s'.done[s.workers[i].task] > 0 else s'.workers[i] == s.workers[i])
  {
    hide SomeAsleep;
  }

  /** A worker that has finished its task looks for another. */
  lemma {:induction false} RunningLooks(s: State, turns: seq<Turn>, i: nat)
    requires s.queue != [] && i < |s.workers| && s.workers[i].Running? && Work(i) in turns
    ensures var e := From(s, turns);
            MovesOn(s, e) || (e.queue != [] && |e.workers| == |s.workers| && e.workers[i].Checking?)
    decreases turns
  {
    StartsOrWaits(s, turns[0]);
    OthersLetRun(s, turns[0], i);
    var s' := Step(s, turns[0]);
    StartedGrows(s', turns[1..]);
    hide Step;
    if |s'.started| == |s.started| {
      if turns[0] == Work(i) {
        KeepsLooking(s', turns[1..], i);
      } else {
        assert turns == [turns[0]] + turns[1..];
        RunningLooks(s', turns[1..], i);
      }
    }
  }

  lemma {:induction false} KeepsAwake(s: State, turns: seq<Turn>, i: nat)
    requires s.queue != [] && i < |s.workers| && Awake(s.workers[i])
    ensures var e := From(s, turns);
            MovesOn(s, e) || (e.queue != [] && |e.workers| == |s.workers| && Awake(e.workers[i]))
    decreases turns
  {
    if turns != [] {
      StartsOrWaits(s, turns[0]);
      StaysAwake(s, turns[0], i);
      var s' := Step(s, turns[0]);
      hide Step, Awake;
      StartedGrows(s', turns[1..]);
      if |s'.started| == |s.started| {
        KeepsAwake(s', turns[1..], i);
      }
    }
  }

  /** Somebody is awake. */
  ghost predicate SomeAwake(s: State) {
    exists i :: 0 <= i < |s.workers| && Awake(s.workers[i])
  }

  lemma NotificationWakes(s: State)
    requires Attended(s) && s.queue != [] && s.workers != []
    ensures SomeAwake(Step(s, NotifyOne(0)))
  {
    var s' := Step(s, NotifyOne(0));
    assert !s.workers[0].Exited?;
    if s.workers[0].Asleep? && s.notifies > 0 {
      assert Awake(s'.workers[0]);
    } else if s.workers[0].Asleep? {
      var i :| 0 <= i < |s.workers| && Awake(s.workers[i]);
      assert Awake(s'.workers[i]);
    } else {
      assert Awake(s'.workers[0]);
    }
  }

  /** While there is a task in the queue a notification that is delivered leaves somebody awake. */
  lemma {:induction false} NotifiedIsAwake(s: State, turns: seq<Turn>)
    requires Inv(s) && s.queue != [] && s.workers != [] && NotifyOne(0) in turns
    ensures var e := From(s, turns);
            MovesOn(s, e) || (e.queue != [] && |e.workers| == |s.workers| && SomeAwake(e))
    decreases turns
  {
    StartsOrWaits(s, turns[0]);
    StepKeeps(s, turns[0]);
    var s' := Step(s, turns[0]);
    StartedGrows(s', turns[1..]);
    if |s'.started| == |s.started| {
      if turns[0] == NotifyOne(0) {
        NotificationWakes(s);
        hide Step;
        var i :| 0 <= i < |s'.workers| && Awake(s'.workers[i]);
        KeepsAwake(s', turns[1..], i);
      } else {
        hide Step, Inv;
        assert turns == [turns[0]] + turns[1..];
        NotifiedIsAwake(s', turns[1..]);
      }
    }
  }

  lemma AwakeLooks(s: State, turns: seq<Turn>)
    requires s.queue != [] && SomeAwake(s) && Round(turns, |s.workers|)
    ensures var e := From(s, turns);
            MovesOn(s, e) || (e.queue != [] && |e.workers| == |s.workers| && exists i :: 0 <= i < |e.workers| && e.workers[i].Checking?)
  {
    hide From;
    var i :| 0 <= i < |s.workers| && Awake(s.workers[i]);
    if s.workers[i].Checking? {
      KeepsLooking(s, turns, i);
    } else {
      RunningLooks(s, turns, i);
    }
  }

  /** Three rounds start a task: one wakes somebody up, one lets it finish what it does, and in one it takes the next. */
  lemma ThreeRounds(s: State, first: seq<Turn>, second: seq<Turn>, third: seq<Turn>)
    requires Inv(s) && s.queue != [] && s.workers != []
    requires Round(first, |s.workers|) && Round(second, |s.workers|) && Round(third, |s.workers|)
    ensures MovesOn(s, From(From(From(s, first), second), third))
  {
    var a := From(s, first);
    var b := From(a, second);
    NotifiedIsAwake(s, first);
    hide From, Inv;
    StartedGrows(s, first);
    StartedGrows(a, second);
    StartedGrows(b, third);
    if !MovesOn(s, a) {
      AwakeLooks(a, second);
      if !MovesOn(a, b) {
        var i :| 0 <= i < |b.workers| && b.workers[i].Checking?;
        LookingStarts(b, third, i);
      }
    }
  }

  lemma OneStepKeepsDone(s: State, t: Turn)
    ensures s.done <= Step(s, t).done && s.scheduled <= Step(s, t).scheduled
  {
    hide WakeAll, SomeAsleep;
  }

  lemma {:induction false} DoneStays(s: State, turns: seq<Turn>)
    ensures s.done <= From(s, turns).done && s.scheduled <= From(s, turns).scheduled
    decreases turns
  {
    if turns != [] {
      OneStepKeepsDone(s, turns[0]);
      hide Step;
      DoneStays(Step(s, turns[0]), turns[1..]);
    }
  }

  lemma {:induction false} RunningEnds(s: State, turns: seq<Turn>, i: nat)
    requires i < |s.workers| && s.workers[i].Running? && Work(i) in turns
    ensures From(s, turns).done[s.workers[i].task] > 0
    decreases turns
  {
    OthersLetRun(s, turns[0], i);
    var s' := Step(s, turns[0]);
    hide Step;
    DoneStays(s', turns[1..]);
    if turns[0] != Work(i) {
      assert turns == [turns[0]] + turns[1..];
      RunningEnds(s', turns[1..], i);
    }
  }

  lemma {:induction false} RunBySomebody(ws: seq<Worker>, t: nat) returns (i: nat)
    requires t in RunningTasks(ws)
    ensures i < |ws| && ws[i] == Running(t)
  {
    if t in TaskOf(ws[0]) {
      i := 0;
    } else {
      i := RunBySomebody(ws[1..], t);
      i := i + 1;
    }
  }

  /** After a round every task that had been started is done. */
  lemma StartedIsDone(s: State, turns: seq<Turn>, t: nat)
    requires Inv(s) && Round(turns, |s.workers|) && t < |s.started|
    ensures From(s, turns).done[t] > 0
  {
    UpToLists(s.scheduled);
    assert (s.started + s.queue)[t] == t;
    assert s.started[t] == t;
    assert t in multiset(s.started);
    DoneStays(s, turns);
    hide From, RunningTasks, UpTo;
    if t !in s.done {
      var i := RunBySomebody(s.workers, t);
      RunningEnds(s, turns, i);
    }
  }

  lemma {:induction false} AllKeepDone(s: State, stretches: seq<seq<Turn>>)
    requires Inv(s)
    ensures s.done <= FromAll(s, stretches).done && Inv(FromAll(s, stretches))
    decreases stretches
  {
    if stretches != [] {
      DoneStays(s, stretches[0]);
      FromKeeps(s, stretches[0]);
      hide Inv, From;
      AllKeepDone(From(s, stretches[0]), stretches[1..]);
    }
  }

  lemma DoneOnce(s: State, t: nat)
    requires Inv(s)
    ensures s.done[t] <= 1
  {
    hide RunningTasks, UpTo;
    UpToLists(s.scheduled);
    assert multiset(s.started + s.queue) == multiset(s.started) + multiset(s.queue);
    assert multiset(s.started)[t] <= multiset(UpTo(s.scheduled))[t];
    assert multiset(s.started)[t] == RunningTasks(s.workers)[t] + s.done[t];
  }

  ghost predicate AllRounds(stretches: seq<seq<Turn>>, n: nat) {
    forall k :: 0 <= k < |stretches| ==> Round(stretches[k], n)
  }

  lemma ThreeStretches(s: State, stretches: seq<seq<Turn>>)
    requires |stretches| >= 3
    ensures FromAll(s, stretches) == FromAll(From(From(From(s, stretches[0]), stretches[1]), stretches[2]), stretches[3..])
  {
    hide From;
    var a := From(s, stretches[0]);
    var b := From(a, stretches[1]);
    assert stretches[1..][0] == stretches[1] && stretches[1..][1..] == stretches[2..];
    assert stretches[2..][0] == stretches[2] && stretches[2..][1..] == stretches[3..];
    assert FromAll(a, stretches[1..]) == FromAll(b, stretches[2..]);
  }

  /** Three rounds of a pool with a task in its queue. */
  lemma RoundsMoveOn(s: State, first: seq<Turn>, second: seq<Turn>, third: seq<Turn>)
    requires Inv(s) && s.queue != [] && s.workers != []
    requires Round(first, |s.workers|) && Round(second, |s.workers|) && Round(third, |s.workers|)
    ensures var e := From(From(From(s, first), second), third);
            MovesOn(s, e) && Inv(e) && |e.workers| == |s.workers| && e.scheduled >= s.scheduled
  {
    hide From, Inv, Round, MovesOn;
    var a := From(s, first);
    var b := From(a, second);
    FromKeeps(s, first);
    FromKeeps(a, second);
    FromKeeps(b, third);
    DoneStays(s, first);
    DoneStays(a, second);
    DoneStays(b, third);
    ThreeRounds(s, first, second, third);
  }

  lemma {:induction false} DoneAfterRounds(s: State, stretches: seq<seq<Turn>>, t: nat)
    requires Inv(s) && s.workers != [] && t < s.scheduled && AllRounds(stretches, |s.workers|)
    requires |stretches| >= 3 * (t + 1 - |s.started|) + 1 && |stretches| >= 1
    ensures FromAll(s, stretches).done[t] > 0
    decreases stretches
  {
    hide From, Inv, Round;
    assert Round(stretches[0], |s.workers|);
    if t < |s.started| {
      StartedIsDone(s, stretches[0], t);
      FromKeeps(s, stretches[0]);
      AllKeepDone(From(s, stretches[0]), stretches[1..]);
      return;
    }
    hide FromAll;
    QueueHolds(s, t);
    RoundsMoveOn(s, stretches[0], stretches[1], stretches[2]);
    ThreeStretches(s, stretches);
    DoneAfterRounds(From(From(From(s, stretches[0]), stretches[1]), stretches[2]), stretches[3..], t);
  }

  lemma QueueHolds(s: State, t: nat)
    requires Inv(s) && |s.started| <= t < s.scheduled
    ensures s.queue != []
  {
    UpToLists(s.scheduled);
    assert |s.started + s.queue| == s.scheduled;
  }

  /**
   * No task is left behind. Whatever has happened so far in a pool of `n` workers:
   * when from there on every worker keeps getting turns and notifications keep being
   * delivered, then each task handed over by now is done, once, after so many
   * rounds, whatever else is scheduled meanwhile and whether or not the pool is
   * stopped.
   */
  lemma EveryTaskIsDone(n: nat, turns: seq<Turn>, stretches: seq<seq<Turn>>, t: nat)
    requires n > 0 && t < Handed(turns)
    requires |stretches| >= 3 * (t + 1) + 1 && forall k :: 0 <= k < |stretches| ==> Round(stretches[k], n)
    ensures FromAll(From(Init(n), turns), stretches).done[t] == 1
  {
    InitInv(n);
    FromKeeps(Init(n), turns);
    TakenExactly(Init(n), turns);
    hide From, Inv, Round;
    var s := From(Init(n), turns);
    DoneAfterRounds(s, stretches, t);
    AllKeepDone(s, stretches);
    DoneOnce(FromAll(s, stretches), t);
  }

  /** A worker that wakes up for no reason looks once, and sleeps again if there is nothing to do. */
  lemma NoReasonNoHarm(s: State, i: nat)
    requires i < |s.workers| && s.workers[i].Asleep? && !s.stop
    ensures Step(s, Spurious(i)).workers[i].Checking?
    ensures var e := From(s, [Spurious(i), Work(i)]);
            if s.queue == [] then e == s
            else |e.workers| == |s.workers| && e.workers[i] == Running(s.queue[0]) && e.queue == s.queue[1..] && e.started == s.started + [s.queue[0]]
  {
    var s' := Step(s, Spurious(i));
    assert [Spurious(i), Work(i)][1..] == [Work(i)];
    assert s.workers[i := Checking][i := Asleep] == s.workers;
    assert From(s, [Spurious(i), Work(i)]) == From(s', [Work(i)]) == Step(s', Work(i));
  }
}
