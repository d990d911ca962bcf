/** Threads adding to a shared counter under one mutex, with every load and store a step of its own. */
module MutexCounter {
  import opened Options

  // ----- States --------------------------------------------------------------------------------------

  /** Where a worker is, with `i` iterations behind it. */
  datatype Worker =
    | Unborn
    | AtTest(i: nat)
    | Holding(i: nat)
    | Loaded(i: nat, value: int)
    | Stored(i: nat)
    | Exited

  /** Where the main thread is: creating worker `t`, joining worker `t`, or past the last join. */
  datatype Main = Creating(t: nat) | Joining(t: nat) | Finished

  datatype State = State(iters: seq<int>, workers: seq<Worker>, lock: Option<nat>, counter: int, main: Main)

  ghost predicate Init(s: State) {
    && |s.workers| == |s.iters|
    && (forall t | 0 <= t < |s.workers| :: s.workers[t] == Unborn)
    && s.lock == None && s.counter == 0 && s.main == Creating(0)
  }

  function Goto(s: State, t: nat, w: Worker): State
    requires t < |s.workers|
  {
    s.(workers := s.workers[t := w])
  }

  /** The state after the main thread's step; None while it waits for a worker or when it is through. */
  function MainStep(s: State): Option<State> {
    match s.main
    case Creating(t) =>
      if t < |s.workers| then Some(Goto(s, t, AtTest(0)).(main := Creating(t + 1))) else Some(s.(main := Joining(0)))
    case Joining(t) =>
      if t >= |s.workers| then Some(s.(main := Finished))
      else if s.workers[t] == Exited then Some(s.(main := Joining(t + 1)))
      else None
    case Finished => None
  }

  /** The state after a step of worker `t`; None while it waits for the mutex, before it is created and after it ends. */
  function WorkerStep(s: State, t: nat): Option<State>
    requires t < |s.workers| == |s.iters|
  {
    match s.workers[t]
    case Unborn => None
    case AtTest(i) =>
      if i >= s.iters[t] then Some(Goto(s, t, Exited))
      else if s.lock == None then Some(Goto(s, t, Holding(i)).(lock := Some(t)))
      else None
    case Holding(i) => Some(Goto(s, t, Loaded(i, s.counter)))
    case Loaded(i, value) => Some(Goto(s, t, Stored(i)).(counter := value + 1))
    case Stored(i) => Some(Goto(s, t, AtTest(i + 1)).(lock := None))
    case Exited => None
  }

  ghost predicate Next(s: State, s': State)
    requires |s.workers| == |s.iters|
  {
    MainStep(s) == Some(s') || exists t :: 0 <= t < |s.workers| && WorkerStep(s, t) == Some(s')
  }

  // ----- The invariant -------------------------------------------------------------------------------

  function Goal(iters: int): nat {
    if iters < 0 then 0 else iters
  }

  predicate InCritical(w: Worker) {
    w.Holding? || w.Loaded? || w.Stored?
  }

  /** The increments a worker has stored. */
  function Done(w: Worker, iters: int): nat {
    match w
    case Unborn => 0
    case AtTest(i) => i
    case Holding(i) => i
    case Loaded(i, _) => i
    case Stored(i) => i + 1
    case Exited => Goal(iters)
  }

  /** The increments the first `n` workers have stored. */
  function AllDone(ws: seq<Worker>, iters: seq<int>, n: nat): nat
    requires n <= |ws| == |iters|
  {
    if n == 0 then 0 else AllDone(ws, iters, n - 1) + Done(ws[n - 1], iters[n - 1])
  }

  function AllGoals(iters: seq<int>, n: nat): nat
    requires n <= |iters|
  {
    if n == 0 then 0 else AllGoals(iters, n - 1) + Goal(iters[n - 1])
  }

  ghost predicate WorkerOk(s: State, t: nat)
    requires t < |s.workers| == |s.iters|
  {
    var w := s.workers[t];
    && (InCritical(w) <==> s.lock == Some(t))
    && (w.Loaded? ==> w.value == s.counter)
    && Done(w, s.iters[t]) <= Goal(s.iters[t])
    && (w.Holding? || w.Loaded? ==> w.i < Goal(s.iters[t]))
  }

  ghost predicate MainOk(s: State) {
    match s.main
    case Creating(t) => t <= |s.workers| && forall k | 0 <= k < |s.workers| :: s.workers[k] == Unborn <==> k >= t
    case Joining(t) =>
      && t <= |s.workers|
      && (forall k | 0 <= k < |s.workers| :: s.workers[k] != Unborn)
      && forall k | 0 <= k < t :: s.workers[k] == Exited
    case Finished => forall k | 0 <= k < |s.workers| :: s.workers[k] == Exited
  }

  ghost predicate Inv(s: State) {
    && |s.workers| == |s.iters|
    && (s.lock.Some? ==> s.lock.value < |s.workers|)
    && (forall t | 0 <= t < |s.workers| :: WorkerOk(s, t))
    && MainOk(s)
    && s.counter == AllDone(s.workers, s.iters, |s.workers|)
  }

  lemma {:induction false} AllDoneUpdate(ws: seq<Worker>, iters: seq<int>, n: nat, t: nat, w: Worker)
    requires n <= |ws| == |iters| && t < |ws|
    ensures AllDone(ws[t := w], iters, n) ==
            AllDone(ws, iters, n) + if t < n then Done(w, iters[t]) - Done(ws[t], iters[t]) else 0
  {
    if n > 0 {
      AllDoneUpdate(ws, iters, n - 1, t, w);
    }
  }

  lemma {:induction false} NothingDone(ws: seq<Worker>, iters: seq<int>, n: nat)
    requires n <= |ws| == |iters| && forall t | 0 <= t < n :: ws[t] == Unborn
    ensures AllDone(ws, iters, n) == 0
  {
    if n > 0 {
      NothingDone(ws, iters, n - 1);
    }
  }

  lemma InitInv(s: State)
    requires Init(s)
    ensures Inv(s)
  {
    NothingDone(s.workers, s.iters, |s.workers|);
  }

  lemma MainKeepsInv(s: State, s': State)
    requires Inv(s) && MainStep(s) == Some(s')
    ensures Inv(s')
  {
    if s.main.Creating? && s.main.t < |s.workers| {
      AllDoneUpdate(s.workers, s.iters, |s.workers|, s.main.t, AtTest(0));
    }
    forall t | 0 <= t < |s'.workers|
      ensures WorkerOk(s', t)
    {
      assert WorkerOk(s, t);
    }
  }

  lemma WorkerKeepsInv(s: State, s': State, t: nat)
    requires Inv(s) && t < |s.workers| && WorkerStep(s, t) == Some(s')
    ensures Inv(s')
  {
    assert WorkerOk(s, t);
    AllDoneUpdate(s.workers, s.iters, |s.workers|, t, s'.workers[t]);
    forall k | 0 <= k < |s'.workers|
      ensures WorkerOk(s', k)
    {
      assert WorkerOk(s, k);
    }
  }

  lemma NextKeepsInv(s: State, s': State)
    requires Inv(s) && Next(s, s')
    ensures Inv(s')
  {
    if MainStep(s) == Some(s') {
      MainKeepsInv(s, s');
    } else {
      var t :| 0 <= t < |s.workers| && WorkerStep(s, t) == Some(s');
      WorkerKeepsInv(s, s', t);
    }
  }

  // ----- Steps still to come -------------------------------------------------------------------------

  function WorkerLeft(w: Worker, iters: int): int {
    match w
    case Unborn => 4 * Goal(iters) + 1
    case AtTest(i) => 4 * (Goal(iters) - i) + 1
    case Holding(i) => 4 * (Goal(iters) - i)
    case Loaded(i, _) => 4 * (Goal(iters) - i) - 1
    case Stored(i) => 4 * (Goal(iters) - i) - 2
    case Exited => 0
  }

  function AllLeft(ws: seq<Worker>, iters: seq<int>, n: nat): int
    requires n <= |ws| == |iters|
  {
    if n == 0 then 0 else AllLeft(ws, iters, n - 1) + WorkerLeft(ws[n - 1], iters[n - 1])
  }

  function MainLeft(s: State): int {
    match s.main
    case Creating(t) => 2 * |s.workers| - t + 2
    case Joining(t) => |s.workers| - t + 1
    case Finished => 0
  }

  function Left(s: State): int
    requires |s.workers| == |s.iters|
  {
    AllLeft(s.workers, s.iters, |s.workers|) + MainLeft(s)
  }

  lemma {:induction false} AllLeftUpdate(ws: seq<Worker>, iters: seq<int>, n: nat, t: nat, w: Worker)
    requires n <= |ws| == |iters| && t < |ws|
    ensures AllLeft(ws[t := w], iters, n) ==
            AllLeft(ws, iters, n) + if t < n then WorkerLeft(w, iters[t]) - WorkerLeft(ws[t], iters[t]) else 0
  {
    if n > 0 {
      AllLeftUpdate(ws, iters, n - 1, t, w);
    }
  }

  lemma {:induction false} AllLeftIsNat(s: State, n: nat)
    requires Inv(s) && n <= |s.workers|
    ensures AllLeft(s.workers, s.iters, n) >= 0
  {
    if n > 0 {
      AllLeftIsNat(s, n - 1);
      assert WorkerOk(s, n - 1);
    }
  }

  /** Every step of any thread takes exactly one off the steps still to come. */
  lemma NextTakesOne(s: State, s': State)
    requires Inv(s) && Next(s, s')
    ensures |s'.workers| == |s'.iters| && Left(s') == Left(s) - 1
  {
    if MainStep(s) == Some(s') {
      if s.main.Creating? && s.main.t < |s.workers| {
        AllLeftUpdate(s.workers, s.iters, |s.workers|, s.main.t, AtTest(0));
      }
    } else {
      var t :| 0 <= t < |s.workers| && WorkerStep(s, t) == Some(s');
      assert WorkerOk(s, t);
      AllLeftUpdate(s.workers, s.iters, |s.workers|, t, s'.workers[t]);
    }
  }

  ghost predicate CannotGoOn(s: State) {
    |s.workers| == |s.iters| && forall s' :: !Next(s, s')
  }

  // ----- Runs ----------------------------------------------------------------------------------------

  ghost predicate IsRun(run: seq<State>) {
    && run != [] && Init(run[0])
    && forall k | 0 <= k < |run| - 1 :: |run[k].workers| == |run[k].iters| && Next(run[k], run[k + 1])
  }

  lemma NextKeepsIters(s: State, s': State)
    requires |s.workers| == |s.iters| && Next(s, s')
    ensures s'.iters == s.iters
  {
  }

  lemma {:induction false} RunKeeps(run: seq<State>, k: nat)
    requires IsRun(run) && k < |run|
    ensures Inv(run[k]) && run[k].iters == run[0].iters && Left(run[k]) == Left(run[0]) - k
  {
    if k == 0 {
      InitInv(run[0]);
    } else {
      RunKeeps(run, k - 1);
      assert Next(run[k - 1], run[k - 1 + 1]);
      NextKeepsInv(run[k - 1], run[k]);
      NextKeepsIters(run[k - 1], run[k]);
      NextTakesOne(run[k - 1], run[k]);
    }
  }

  /** At no time are two workers between lock and unlock. */
  lemma MutualExclusion(run: seq<State>, k: nat, a: nat, b: nat)
    requires IsRun(run) && k < |run| && a < |run[k].workers| && b < |run[k].workers|
    requires InCritical(run[k].workers[a]) && InCritical(run[k].workers[b])
    ensures a == b
  {
    RunKeeps(run, k);
    assert WorkerOk(run[k], a) && WorkerOk(run[k], b);
  }

  lemma {:induction false} DoneIsBounded(s: State, n: nat)
    requires Inv(s) && n <= |s.workers|
    ensures AllDone(s.workers, s.iters, n) <= AllGoals(s.iters, n)
  {
    if n > 0 {
      DoneIsBounded(s, n - 1);
      assert WorkerOk(s, n - 1);
    }
  }

  /** The counter is always the number of increments stored, and never more than is asked for. */
  lemma CounterIsExact(run: seq<State>, k: nat)
    requires IsRun(run) && k < |run|
    ensures |run[k].workers| == |run[k].iters|
    ensures run[k].counter == AllDone(run[k].workers, run[k].iters, |run[k].workers|)
    ensures 0 <= run[k].counter <= AllGoals(run[0].iters, |run[0].iters|)
  {
    RunKeeps(run, k);
    DoneIsBounded(run[k], |run[k].workers|);
  }

  /** Some thread can move until the main thread has joined every worker. */
  lemma NoDeadlock(s: State) returns (s': State)
    requires Inv(s) && s.main != Finished
    ensures Next(s, s')
  {
    if MainStep(s).Some? {
      s' := MainStep(s).value;
    } else if s.lock == None {
      var t := s.main.t;
      assert WorkerOk(s, t);
      s' := WorkerStep(s, t).value;
    } else {
      var t := s.lock.value;
      assert WorkerOk(s, t);
      s' := WorkerStep(s, t).value;
    }
  }

  lemma {:induction false} AllExited(s: State, n: nat)
    requires |s.workers| == |s.iters| && n <= |s.workers| && forall k | 0 <= k < n :: s.workers[k] == Exited
    ensures AllDone(s.workers, s.iters, n) == AllGoals(s.iters, n) && AllLeft(s.workers, s.iters, n) == 0
  {
    if n > 0 {
      AllExited(s, n - 1);
    }
  }

  /** Once everything is joined no step is left and the counter holds all the increments asked for. */
  lemma FinalCounter(run: seq<State>, k: nat)
    requires IsRun(run) && k < |run| && run[k].main == Finished
    ensures run[k].counter == AllGoals(run[0].iters, |run[0].iters|)
    ensures CannotGoOn(run[k])
    ensures Left(run[0]) == k
  {
    RunKeeps(run, k);
    AllExited(run[k], |run[k].workers|);
  }

  lemma {:induction false} LeftAtStart(s: State, n: nat)
    requires Init(s) && n <= |s.workers|
    ensures AllLeft(s.workers, s.iters, n) == 4 * AllGoals(s.iters, n) + n
  {
    if n > 0 {
      LeftAtStart(s, n - 1);
    }
  }

  /**
   * However the threads are scheduled, a run that cannot go on has joined every worker, has the full
   * count, and took four steps an increment and three a worker, and two more.
   */
  lemma EveryScheduleFinishes(run: seq<State>)
    requires IsRun(run)
    ensures var total, n := AllGoals(run[0].iters, |run[0].iters|), |run[0].iters|;
            && |run| - 1 <= 4 * total + 3 * n + 2
            && (CannotGoOn(run[|run| - 1]) <==> |run| - 1 == 4 * total + 3 * n + 2)
            && (|run| - 1 == 4 * total + 3 * n + 2 ==> run[|run| - 1].counter == total)
  {
    var last := run[|run| - 1];
    RunKeeps(run, |run| - 1);
    LeftAtStart(run[0], |run[0].workers|);
    AllLeftIsNat(last, |last.workers|);
    if last.main == Finished {
      FinalCounter(run, |run| - 1);
    } else {
      var s' := NoDeadlock(last);
    }
  }
}
