/** `IsaSim::launch`, `ThreadPool` and the running-block counter of `CUResource` as one system of
    atomic steps: a launcher thread, the pool's workers, and the condition variables between them.
    Each step is one critical section or one unlocked read; tasks are named by the linear index of
    their block. */
module LaunchProtocol {

  /** `blocks`: grid points to run; `maxRunning`: m_max_cta_per_cu; `bars`: bar_used of the kernel;
      `freeBars`: m_free_bar_slots before the launch; `workers`: pool size. */
  datatype Config = Config(blocks: nat, maxRunning: nat, bars: nat, freeBars: nat, workers: nat) {
    ghost predicate Valid() {
      maxRunning > 0 && (blocks > 0 ==> workers > 0)
    }
  }

  /** The launcher: the loop test; inside allocRunningBlock before its predicate; asleep there; holding
      a running-block slot; task pushed but notify_one outstanding; then ~ThreadPool: about to set stop;
      notify_all outstanding; joining; returned. */
  datatype Launcher =
    AtLoop | Allocating | SlotAsleep | Allocated | PushNotify | SetStop | StopNotify | Joining | Returned

  /** A worker: at the loop guard; inside the lock before the wait predicate; asleep; running a task;
      between freeBarSlot and freeRunningBlock; re-queued an unfinished task, notify outstanding; gone. */
  datatype Worker = AtGuard | AtWait | Asleep | Running(task: nat) | Releasing | RequeueNotify | Exited

  datatype State = State(
    launcher: Launcher,
    next: nat,
    pending: seq<nat>,
    workers: seq<Worker>,
    finished: multiset<nat>,
    running: int,
    freeBars: nat,
    stop: bool)

  ghost predicate Init(c: Config, s: State) {
    && s.launcher == AtLoop && s.next == 0 && s.pending == [] && s.finished == multiset{}
    && |s.workers| == c.workers && (forall w | 0 <= w < c.workers :: s.workers[w] == AtGuard)
    && s.running == 0 && s.freeBars == c.freeBars && !s.stop
  }

  // ---------- the launcher's steps ----------

  predicate CanAllocate(c: Config, s: State) {
    s.running < c.maxRunning && c.bars < s.freeBars
  }

  /** `notify_one` on the pool's condition variable: one sleeper, if there is any, goes on to re-test. */
  ghost predicate NotifiedOne(before: seq<Worker>, after: seq<Worker>) {
    || (after == before && forall w | 0 <= w < |before| :: before[w] != Asleep)
    || exists w: nat :: w < |before| && before[w] == Asleep && after == before[w := AtWait]
  }

  function WokenAll(ws: seq<Worker>): (r: seq<Worker>)
    ensures |r| == |ws| && forall w | 0 <= w < |ws| :: r[w] == if ws[w] == Asleep then AtWait else ws[w]
  {
    seq(|ws|, w requires 0 <= w < |ws| => if ws[w] == Asleep then AtWait else ws[w])
  }

  ghost predicate LauncherStep(c: Config, s: State, t: State) {
    match s.launcher
    case AtLoop => t == s.(launcher := if s.next < c.blocks then Allocating else SetStop)
    case Allocating => t == if CanAllocate(c, s) then s.(launcher := Allocated, running := s.running + 1)
                            else s.(launcher := SlotAsleep)
    case SlotAsleep => false
    case Allocated => t == s.(launcher := PushNotify, pending := s.pending + [s.next])
    case PushNotify =>
      && NotifiedOne(s.workers, t.workers)
      && t == s.(launcher := AtLoop, next := s.next + 1, workers := t.workers)
    case SetStop => t == s.(launcher := StopNotify, stop := true)
    case StopNotify => t == s.(launcher := Joining, workers := WokenAll(s.workers))
    case Joining => (forall w | 0 <= w < |s.workers| :: s.workers[w] == Exited) && t == s.(launcher := Returned)
    case Returned => false
  }

  // ---------- a worker's steps ----------

  function SetWorker(s: State, w: nat, p: Worker): State
    requires w < |s.workers|
  {
    s.(workers := s.workers[w := p])
  }

  /** `freeRunningBlock`: the counter and the notification are one critical section. */
  function SlotFreed(s: State): State {
    s.(running := s.running - 1, launcher := if s.launcher == SlotAsleep then Allocating else s.launcher)
  }

  /** One step of worker `w`; `completes` is the result of executing its block. */
  ghost predicate WorkerStep(c: Config, s: State, t: State, w: nat, completes: bool) {
    && w < |s.workers|
    && match s.workers[w]
       case AtGuard => t == SetWorker(s, w, if !s.stop || s.pending != [] then AtWait else Exited)
       case AtWait =>
         if s.pending != [] then t == SetWorker(s, w, Running(s.pending[0])).(pending := s.pending[1..])
         else t == SetWorker(s, w, if s.stop then AtGuard else Asleep)
       case Running(task) =>
         if completes then
           t == SetWorker(s, w, Releasing).(finished := s.finished + multiset{task}, freeBars := s.freeBars + c.bars)
         else t == SetWorker(s, w, RequeueNotify).(pending := s.pending + [task])
       case Releasing => t == SlotFreed(SetWorker(s, w, AtGuard))
       case RequeueNotify =>
         && |t.workers| == |s.workers|
         && NotifiedOne(s.workers[w := AtGuard], t.workers) && t == s.(workers := t.workers)
       case Asleep => false
       case Exited => false
  }

  /** A sleeping thread may wake without being notified. */
  ghost predicate SpuriousWakeup(s: State, t: State) {
    || (s.launcher == SlotAsleep && t == s.(launcher := Allocating))
    || exists w: nat :: w < |s.workers| && s.workers[w] == Asleep && t == SetWorker(s, w, AtWait)
  }

  ghost predicate Next(c: Config, s: State, t: State) {
    || LauncherStep(c, s, t)
    || SpuriousWakeup(s, t)
    || exists w: nat, completes: bool :: WorkerStep(c, s, t, w, completes)
  }

  // ---------- counting over the workers ----------

  function Sum(ws: seq<Worker>, f: Worker -> nat): nat {
    if ws == [] then 0 else Sum(ws[..|ws| - 1], f) + f(ws[|ws| - 1])
  }

  function SlotsOf(p: Worker): nat {
    if p.Running? || p.Releasing? then 1 else 0
  }

  lemma {:induction false} SumUpdate(ws: seq<Worker>, w: nat, p: Worker, f: Worker -> nat)
    requires w < |ws|
    ensures Sum(ws[w := p], f) + f(ws[w]) == Sum(ws, f) + f(p)
  {
    var n := |ws| - 1;
    if w == n {
      assert ws[w := p][..n] == ws[..n];
    } else {
      SumUpdate(ws[..n], w, p, f);
      assert ws[w := p][..n] == ws[..n][w := p];
    }
  }

  /** 1 for the worker that runs task `x`. */
  function RunsTask(x: nat): Worker -> nat {
    (p: Worker) => if p == Running(x) then 1 else 0
  }

  lemma {:induction false} WokenAllCounts(ws: seq<Worker>, f: Worker -> nat)
    requires f(Asleep) == f(AtWait)
    ensures Sum(WokenAll(ws), f) == Sum(ws, f)
  {
    if ws != [] {
      var n := |ws| - 1;
      WokenAllCounts(ws[..n], f);
      assert WokenAll(ws)[..n] == WokenAll(ws[..n]);
    }
  }

  lemma {:induction false} SumZero(ws: seq<Worker>, f: Worker -> nat)
    requires forall w | 0 <= w < |ws| :: f(ws[w]) == 0
    ensures Sum(ws, f) == 0
  {
    if ws != [] {
      SumZero(ws[..|ws| - 1], f);
    }
  }

  lemma {:induction false} SumPositive(ws: seq<Worker>, f: Worker -> nat) returns (w: nat)
    requires Sum(ws, f) > 0
    ensures w < |ws| && f(ws[w]) > 0
  {
    var n := |ws| - 1;
    if f(ws[n]) > 0 {
      w := n;
    } else {
      w := SumPositive(ws[..n], f);
    }
  }

  // ---------- the invariant ----------

  /** Blocks handed to the pool so far. */
  function Queued(s: State): nat {
    if s.launcher == PushNotify then s.next + 1 else s.next
  }

  /** How often task `x` occurs: in the queue, in a worker's hands, or finished. */
  ghost function Copies(s: State, x: nat): nat {
    multiset(s.pending)[x] + Sum(s.workers, RunsTask(x)) + s.finished[x]
  }

  /** No task is lost or duplicated. */
  ghost predicate Conserved(s: State) {
    forall x: nat :: Copies(s, x) == if x < Queued(s) then 1 else 0
  }

  /** The running-block counter counts exactly the blocks that hold a slot. */
  ghost predicate Counted(c: Config, s: State) {
    && 0 <= s.running <= c.maxRunning
    && s.running == |s.pending| + Sum(s.workers, SlotsOf) + if s.launcher == Allocated then 1 else 0
  }

  predicate Awake(p: Worker) {
    p != Asleep && p != Exited
  }

  ghost predicate SomeAwake(ws: seq<Worker>) {
    exists w: nat :: w < |ws| && Awake(ws[w])
  }

  ghost predicate SomeLeft(ws: seq<Worker>) {
    exists w: nat :: w < |ws| && ws[w] != Exited
  }

  lemma AwakeIsLeft(ws: seq<Worker>)
    requires SomeAwake(ws)
    ensures SomeLeft(ws)
  {
    var w: nat :| w < |ws| && Awake(ws[w]);
    assert ws[w] != Exited;
  }

  /** A queued task is never left to sleepers: some worker is awake, or a notification is on its way. */
  ghost predicate NoLostWakeup(s: State) {
    s.pending != [] ==> s.launcher == PushNotify || SomeAwake(s.workers)
  }

  ghost predicate Phases(c: Config, s: State) {
    && |s.workers| == c.workers && s.next <= c.blocks && s.freeBars >= c.freeBars
    && (s.launcher in {Allocating, SlotAsleep, Allocated, PushNotify} ==> s.next < c.blocks)
    && (s.launcher in {SetStop, StopNotify, Joining, Returned} ==> s.next == c.blocks)
    && (s.stop <==> s.launcher in {StopNotify, Joining, Returned})
    && (forall w | 0 <= w < |s.workers| && s.workers[w] == Exited :: s.stop)
    && (s.launcher in {Joining, Returned} ==> forall w | 0 <= w < |s.workers| :: s.workers[w] != Asleep)
    && (s.launcher == Returned ==> forall w | 0 <= w < |s.workers| :: s.workers[w] == Exited)
    && (s.launcher == SlotAsleep ==> s.running >= c.maxRunning || c.bars >= c.freeBars)
  }

  ghost predicate Inv(c: Config, s: State) {
    Conserved(s) && Counted(c, s) && NoLostWakeup(s) && Phases(c, s)
  }

  lemma InitInv(c: Config, s: State)
    requires c.Valid() && Init(c, s)
    ensures Inv(c, s)
  {
    SumZero(s.workers, SlotsOf);
    forall x: nat ensures Copies(s, x) == 0 {
      SumZero(s.workers, RunsTask(x));
    }
  }

  /** What a notification may do to the workers. */
  ghost predicate OnlyWoken(before: seq<Worker>, after: seq<Worker>) {
    && |after| == |before|
    && forall w | 0 <= w < |before| :: after[w] == before[w] || (before[w] == Asleep && after[w] == AtWait)
  }

  lemma NotifiedCounts(before: seq<Worker>, after: seq<Worker>, f: Worker -> nat)
    requires NotifiedOne(before, after) && f(Asleep) == f(AtWait)
    ensures Sum(after, f) == Sum(before, f)
  {
    if w: nat :| w < |before| && before[w] == Asleep && after == before[w := AtWait] {
      SumUpdate(before, w, AtWait, f);
    }
  }

  /** A notification leaves a worker awake unless all have gone. */
  lemma NotifiedWakes(before: seq<Worker>, after: seq<Worker>)
    requires NotifiedOne(before, after)
    ensures OnlyWoken(before, after)
    ensures SomeLeft(before) ==> SomeAwake(after)
  {
    if w: nat :| w < |before| && before[w] == Asleep && after == before[w := AtWait] {
      assert Awake(after[w]);
    } else if SomeLeft(before) {
      var w: nat :| w < |before| && before[w] != Exited;
      assert Awake(after[w]);
    }
  }

  // Each step of the launcher keeps each part of the invariant.

  lemma LauncherCounts(c: Config, s: State, t: State, f: Worker -> nat)
    requires LauncherStep(c, s, t) && f(Asleep) == f(AtWait)
    ensures Sum(t.workers, f) == Sum(s.workers, f)
  {
    match s.launcher
    case PushNotify => NotifiedCounts(s.workers, t.workers, f);
    case StopNotify => WokenAllCounts(s.workers, f);
    case _ =>
  }

  lemma LauncherConserves(c: Config, s: State, t: State)
    requires Inv(c, s) && LauncherStep(c, s, t)
    ensures Conserved(t) && Counted(c, t)
  {
    hide NotifiedOne, Sum, NoLostWakeup, WokenAll;
    LauncherCounts(c, s, t, SlotsOf);
    forall x: nat ensures Copies(t, x) == if x < Queued(t) then 1 else 0 {
      LauncherCounts(c, s, t, RunsTask(x));
      assert Copies(s, x) == if x < Queued(s) then 1 else 0;
    }
  }

  lemma LauncherKeepsWakeups(c: Config, s: State, t: State)
    requires c.Valid() && Inv(c, s) && LauncherStep(c, s, t)
    ensures NoLostWakeup(t)
  {
    hide Conserved, Counted;
    if s.launcher == PushNotify {
      NotifiedWakes(s.workers, t.workers);
      assert s.workers[0] != Exited;
      assert SomeLeft(s.workers);
    } else if s.launcher == StopNotify && s.pending != [] {
      var w: nat :| w < |s.workers| && Awake(s.workers[w]);
      assert Awake(t.workers[w]);
    }
  }

  lemma LauncherPhases(c: Config, s: State, t: State)
    requires c.Valid() && Inv(c, s) && LauncherStep(c, s, t)
    ensures Phases(c, t)
  {
    hide Conserved, NoLostWakeup, NotifiedOne;
    if s.launcher == PushNotify {
      NotifiedWakes(s.workers, t.workers);
    }
  }

  // Each step of a worker keeps each part of the invariant.

  lemma WorkerCounts(c: Config, s: State, t: State, w: nat, completes: bool, f: Worker -> nat)
    requires WorkerStep(c, s, t, w, completes) && f(Asleep) == f(AtWait)
    ensures |t.workers| == |s.workers|
    ensures s.workers[w] != RequeueNotify ==> Sum(t.workers, f) + f(s.workers[w]) == Sum(s.workers, f) + f(t.workers[w])
    ensures s.workers[w] == RequeueNotify ==> Sum(t.workers, f) + f(RequeueNotify) == Sum(s.workers, f) + f(AtGuard)
  {
    if s.workers[w] == RequeueNotify {
      SumUpdate(s.workers, w, AtGuard, f);
      NotifiedCounts(s.workers[w := AtGuard], t.workers, f);
    } else {
      SumUpdate(s.workers, w, t.workers[w], f);
      assert t.workers == s.workers[w := t.workers[w]];
    }
  }

  lemma WorkerKeepsCopies(c: Config, s: State, t: State, w: nat, completes: bool, x: nat)
    requires WorkerStep(c, s, t, w, completes)
    ensures Copies(t, x) == Copies(s, x)
  {
    hide NotifiedOne, Sum;
    WorkerCounts(c, s, t, w, completes, RunsTask(x));
    if s.workers[w] == AtWait && s.pending != [] {
      FrontCount(s.pending, x);
    }
  }

  lemma FrontCount(q: seq<nat>, x: nat)
    requires q != []
    ensures multiset(q)[x] == multiset(q[1..])[x] + if q[0] == x then 1 else 0
  {
    assert q == [q[0]] + q[1..];
  }

  lemma WorkerConserves(c: Config, s: State, t: State, w: nat, completes: bool)
    requires Inv(c, s) && WorkerStep(c, s, t, w, completes)
    ensures Conserved(t)
  {
    hide Copies;
    assert Queued(t) == Queued(s);
    hide Queued, WorkerStep;
    forall x: nat ensures Copies(t, x) == if x < Queued(t) then 1 else 0 {
      WorkerKeepsCopies(c, s, t, w, completes, x);
      assert Copies(s, x) == if x < Queued(s) then 1 else 0;
    }
  }

  lemma WorkerKeepsCount(c: Config, s: State, t: State, w: nat, completes: bool)
    requires Inv(c, s) && WorkerStep(c, s, t, w, completes)
    ensures Counted(c, t)
  {
    hide NotifiedOne, Sum, NoLostWakeup, Phases, Conserved;
    WorkerCounts(c, s, t, w, completes, SlotsOf);
  }

  lemma WorkerKeepsWakeups(c: Config, s: State, t: State, w: nat, completes: bool)
    requires Inv(c, s) && WorkerStep(c, s, t, w, completes)
    ensures NoLostWakeup(t)
  {
    hide Conserved, Counted, Phases;
    if s.workers[w] == RequeueNotify {
      var middle := s.workers[w := AtGuard];
      NotifiedWakes(middle, t.workers);
      assert middle[w] != Exited;
      assert SomeLeft(middle);
    } else {
      assert t.pending != [] ==> Awake(t.workers[w]);
    }
  }

  lemma WorkerPhases(c: Config, s: State, t: State, w: nat, completes: bool)
    requires Inv(c, s) && WorkerStep(c, s, t, w, completes)
    ensures Phases(c, t)
  {
    hide Conserved, NoLostWakeup, NotifiedOne;
    if s.workers[w] == RequeueNotify {
      NotifiedWakes(s.workers[w := AtGuard], t.workers);
    }
  }

  lemma SpuriousInv(c: Config, s: State, t: State)
    requires Inv(c, s) && SpuriousWakeup(s, t)
    ensures Inv(c, t)
  {
    hide Sum;
    if w: nat :| w < |s.workers| && s.workers[w] == Asleep && t == SetWorker(s, w, AtWait) {
      SumUpdate(s.workers, w, AtWait, SlotsOf);
      forall x: nat ensures Copies(t, x) == Copies(s, x) {
        SumUpdate(s.workers, w, AtWait, RunsTask(x));
      }
      assert Awake(t.workers[w]);
    }
    forall x: nat ensures Copies(t, x) == if x < Queued(t) then 1 else 0 {
      assert Copies(s, x) == if x < Queued(s) then 1 else 0;
    }
  }

  lemma NextInv(c: Config, s: State, t: State)
    requires c.Valid() && Inv(c, s) && Next(c, s, t)
    ensures Inv(c, t)
  {
    hide LauncherStep, WorkerStep, SpuriousWakeup;
    if LauncherStep(c, s, t) {
      LauncherConserves(c, s, t);
      LauncherKeepsWakeups(c, s, t);
      LauncherPhases(c, s, t);
    } else if SpuriousWakeup(s, t) {
      SpuriousInv(c, s, t);
    } else {
      var w: nat, completes: bool :| WorkerStep(c, s, t, w, completes);
      WorkerConserves(c, s, t, w, completes);
      WorkerKeepsCount(c, s, t, w, completes);
      WorkerKeepsWakeups(c, s, t, w, completes);
      WorkerPhases(c, s, t, w, completes);
    }
  }
}
