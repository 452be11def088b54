/** Whole runs of the launch protocol: exactly-once execution, slot safety, no deadlock, termination. */
module LaunchRuns {
  import opened LaunchProtocol
  import Grid
  import Words

  ghost predicate IsRun(c: Config, ss: seq<State>) {
    && ss != [] && Init(c, ss[0])
    && forall k | 0 <= k < |ss| - 1 :: Next(c, ss[k], ss[k + 1])
  }

  lemma {:induction false} RunInv(c: Config, ss: seq<State>, n: nat)
    requires c.Valid() && IsRun(c, ss) && n < |ss|
    ensures Inv(c, ss[n])
  {
    if n == 0 {
      InitInv(c, ss[0]);
    } else {
      RunInv(c, ss, n - 1);
      NextInv(c, ss[n - 1], ss[n]);
    }
  }

  // ---------- safety ----------

  /** When the pool's destructor has returned, every block of the grid has been executed to completion
      exactly once, nothing else has, no task is left, and every running-block slot has been given back. */
  lemma ReturnedMeansExactlyOnce(c: Config, ss: seq<State>, n: nat)
    requires c.Valid() && IsRun(c, ss) && n < |ss| && ss[n].launcher == Returned
    ensures forall x: nat :: ss[n].finished[x] == if x < c.blocks then 1 else 0
    ensures ss[n].pending == [] && ss[n].running == 0
    ensures forall w | 0 <= w < |ss[n].workers| :: ss[n].workers[w] == Exited
  {
    RunInv(c, ss, n);
    var s := ss[n];
    assert s.pending == [];
    SumZero(s.workers, SlotsOf);
    forall x: nat ensures s.finished[x] == if x < c.blocks then 1 else 0 {
      SumZero(s.workers, RunsTask(x));
      assert Copies(s, x) == if x < Queued(s) then 1 else 0;
    }
  }

  /** In every reachable state each queued block is in exactly one place, the counter of running blocks
      is within its bounds and equals the blocks holding a slot, and a queued task has an awake worker or
      an outstanding notification. */
  lemma AlwaysAccounted(c: Config, ss: seq<State>, n: nat, x: nat)
    requires c.Valid() && IsRun(c, ss) && n < |ss|
    ensures Copies(ss[n], x) == if x < Queued(ss[n]) then 1 else 0
    ensures 0 <= ss[n].running <= c.maxRunning
    ensures ss[n].running
            == |ss[n].pending| + Sum(ss[n].workers, SlotsOf) + if ss[n].launcher == Allocated then 1 else 0
    ensures ss[n].pending != [] ==> ss[n].launcher == PushNotify || SomeAwake(ss[n].workers)
  {
    RunInv(c, ss, n);
  }

  /** Once all workers have gone nothing is left in the queue, even though tasks may be re-queued by
      running tasks after stop is set. */
  lemma AllGoneMeansEmptyQueue(c: Config, ss: seq<State>, n: nat)
    requires c.Valid() && IsRun(c, ss) && n < |ss| && ss[n].stop && !SomeLeft(ss[n].workers)
    ensures ss[n].pending == []
  {
    RunInv(c, ss, n);
    if SomeAwake(ss[n].workers) {
      AwakeIsLeft(ss[n].workers);
    }
  }

  // ---------- no deadlock ----------

  ghost predicate Ordinary(c: Config, s: State, t: State) {
    LauncherStep(c, s, t) || exists w: nat :: WorkerStep(c, s, t, w, true)
  }

  lemma AwakeWorkerCanStep(c: Config, s: State, w: nat) returns (t: State)
    requires w < |s.workers| && Awake(s.workers[w])
    ensures WorkerStep(c, s, t, w, true)
  {
    match s.workers[w]
    case AtGuard => t := SetWorker(s, w, if !s.stop || s.pending != [] then AtWait else Exited);
    case AtWait =>
      t := if s.pending != [] then SetWorker(s, w, Running(s.pending[0])).(pending := s.pending[1..])
           else SetWorker(s, w, if s.stop then AtGuard else Asleep);
    case Running(task) =>
      t := SetWorker(s, w, Releasing).(finished := s.finished + multiset{task}, freeBars := s.freeBars + c.bars);
    case Releasing => t := SlotFreed(SetWorker(s, w, AtGuard));
    case RequeueNotify =>
      var ws := NotifyOne(s.workers[w := AtGuard]);
      t := s.(workers := ws);
  }

  lemma NotifyOne(ws: seq<Worker>) returns (r: seq<Worker>)
    ensures NotifiedOne(ws, r) && |r| == |ws|
  {
    if w: nat :| w < |ws| && ws[w] == Asleep {
      r := ws[w := AtWait];
    } else {
      r := ws;
    }
  }

  /** A full counter means some worker is at work: the launcher never waits for a slot in vain. */
  lemma FullMeansAwake(c: Config, s: State) returns (w: nat)
    requires c.Valid() && Inv(c, s) && s.running >= c.maxRunning && s.launcher == SlotAsleep
    ensures w < |s.workers| && Awake(s.workers[w])
  {
    if s.pending != [] {
      w :| w < |s.workers| && Awake(s.workers[w]);
    } else {
      w := SumPositive(s.workers, SlotsOf);
    }
  }

  /** As long as the launch has not returned some thread can take a step that is not a spurious wakeup,
      provided the kernel asks for fewer barrier slots than were free. */
  lemma NoDeadlock(c: Config, s: State) returns (t: State)
    requires c.Valid() && Inv(c, s) && s.launcher != Returned
    requires c.blocks == 0 || c.bars < c.freeBars
    ensures Ordinary(c, s, t)
  {
    match s.launcher
    case AtLoop => t := s.(launcher := if s.next < c.blocks then Allocating else SetStop);
    case Allocating => t := if CanAllocate(c, s) then s.(launcher := Allocated, running := s.running + 1)
                            else s.(launcher := SlotAsleep);
    case SlotAsleep =>
      var w := FullMeansAwake(c, s);
      t := AwakeWorkerCanStep(c, s, w);
    case Allocated => t := s.(launcher := PushNotify, pending := s.pending + [s.next]);
    case PushNotify =>
      var ws := NotifyOne(s.workers);
      t := s.(launcher := AtLoop, next := s.next + 1, workers := ws);
    case SetStop => t := s.(launcher := StopNotify, stop := true);
    case StopNotify => t := s.(launcher := Joining, workers := WokenAll(s.workers));
    case Joining =>
      if w: nat :| w < |s.workers| && s.workers[w] != Exited {
        t := AwakeWorkerCanStep(c, s, w);
      } else {
        t := s.(launcher := Returned);
      }
  }

  // ---------- termination ----------

  /** Nothing is queued and nothing more will be. */
  predicate Quiet(s: State) {
    s.stop && s.pending == []
  }

  function BusyRank(p: Worker): nat {
    match p
    case AtGuard => 3
    case AtWait => 2
    case Asleep => 1
    case Running(_) => 6
    case Releasing => 5
    case RequeueNotify => 5
    case Exited => 0
  }

  function QuietRank(p: Worker): nat {
    if p == AtGuard then 1 else BusyRank(p)
  }

  function LauncherRank(c: Config, l: Launcher): nat {
    match l
    case AtLoop => c.workers + 14
    case Allocating => c.workers + 13
    case SlotAsleep => c.workers + 12
    case Allocated => c.workers + 11
    case PushNotify => c.workers + 5
    case SetStop => c.workers + 3
    case StopNotify => c.workers + 2
    case Joining => 1
    case Returned => 0
  }

  function WorkerRanks(s: State): nat {
    Sum(s.workers, if Quiet(s) then QuietRank else BusyRank)
  }

  /** The steps still to come. */
  function Measure(c: Config, s: State): int {
    11 * (c.blocks - s.next) + LauncherRank(c, s.launcher) + 5 * |s.pending| + WorkerRanks(s)
  }

  lemma {:induction false} QuietBelowBusy(ws: seq<Worker>)
    ensures Sum(ws, QuietRank) <= Sum(ws, BusyRank) <= Sum(ws, QuietRank) + 2 * |ws|
  {
    if ws != [] {
      QuietBelowBusy(ws[..|ws| - 1]);
    }
  }

  lemma {:induction false} WokenAllRank(ws: seq<Worker>)
    ensures Sum(WokenAll(ws), BusyRank) <= Sum(ws, BusyRank) + |ws|
    ensures Sum(WokenAll(ws), QuietRank) <= Sum(ws, QuietRank) + |ws|
  {
    if ws != [] {
      var n := |ws| - 1;
      WokenAllRank(ws[..n]);
      assert WokenAll(ws)[..n] == WokenAll(ws[..n]);
    }
  }

  lemma NotifiedRank(before: seq<Worker>, after: seq<Worker>)
    requires NotifiedOne(before, after)
    ensures Sum(after, BusyRank) <= Sum(before, BusyRank) + 1
    ensures Sum(after, QuietRank) <= Sum(before, QuietRank) + 1
  {
    if w: nat :| w < |before| && before[w] == Asleep && after == before[w := AtWait] {
      SumUpdate(before, w, AtWait, BusyRank);
      SumUpdate(before, w, AtWait, QuietRank);
    }
  }

  lemma LauncherStepDecreases(c: Config, s: State, t: State)
    requires Inv(c, s) && LauncherStep(c, s, t)
    ensures Measure(c, t) < Measure(c, s)
  {
    hide Sum, Conserved, Counted, NoLostWakeup, NotifiedOne;
    QuietBelowBusy(s.workers);
    match s.launcher
    case PushNotify => NotifiedRank(s.workers, t.workers);
    case StopNotify => WokenAllRank(s.workers);
    case _ =>
  }

  lemma WorkerStepDecreases(c: Config, s: State, t: State, w: nat)
    requires Inv(c, s) && WorkerStep(c, s, t, w, true)
    ensures Measure(c, t) < Measure(c, s)
  {
    hide Sum, Conserved, Counted, NoLostWakeup, NotifiedOne;
    QuietBelowBusy(t.workers);
    if s.workers[w] == RequeueNotify {
      SumUpdate(s.workers, w, AtGuard, BusyRank);
      SumUpdate(s.workers, w, AtGuard, QuietRank);
      NotifiedRank(s.workers[w := AtGuard], t.workers);
    } else {
      SumUpdate(s.workers, w, t.workers[w], BusyRank);
      SumUpdate(s.workers, w, t.workers[w], QuietRank);
      assert t.workers == s.workers[w := t.workers[w]];
    }
  }

  /** A wakeup without a notification, or a block that did not complete and goes back to the queue. */
  ghost predicate Disturbance(c: Config, s: State, t: State) {
    || SpuriousWakeup(s, t)
    || exists w: nat :: w < |s.workers| && s.workers[w].Running? && WorkerStep(c, s, t, w, false)
  }

  lemma DisturbanceBounded(c: Config, s: State, t: State)
    requires Inv(c, s) && Disturbance(c, s, t)
    ensures Measure(c, t) <= Measure(c, s) + 2 * c.workers + 4
  {
    hide Sum, Conserved, Counted, NoLostWakeup;
    QuietBelowBusy(s.workers);
    QuietBelowBusy(t.workers);
    if SpuriousWakeup(s, t) {
      if w: nat :| w < |s.workers| && s.workers[w] == Asleep && t == SetWorker(s, w, AtWait) {
        SumUpdate(s.workers, w, AtWait, BusyRank);
        SumUpdate(s.workers, w, AtWait, QuietRank);
      }
    } else {
      var w: nat :| w < |s.workers| && s.workers[w].Running? && WorkerStep(c, s, t, w, false);
      SumUpdate(s.workers, w, RequeueNotify, BusyRank);
      assert t.workers == s.workers[w := RequeueNotify];
    }
  }

  lemma NextMeasure(c: Config, s: State, t: State)
    requires Inv(c, s) && Next(c, s, t)
    ensures Disturbance(c, s, t) || Measure(c, t) < Measure(c, s)
  {
    hide Measure, Inv;
    if LauncherStep(c, s, t) {
      LauncherStepDecreases(c, s, t);
    } else if !SpuriousWakeup(s, t) {
      var w: nat, completes: bool :| WorkerStep(c, s, t, w, completes);
      if s.workers[w].Running? && !completes {
        assert Disturbance(c, s, t);
      } else {
        assert WorkerStep(c, s, t, w, true);
        WorkerStepDecreases(c, s, t, w);
      }
    }
  }

  /** The disturbances among the first `n` steps of a run. */
  ghost function Disturbances(c: Config, ss: seq<State>, n: nat): nat
    requires n < |ss|
  {
    if n == 0 then 0 else Disturbances(c, ss, n - 1) + if Disturbance(c, ss[n - 1], ss[n]) then 1 else 0
  }

  lemma {:induction false} RunMeasure(c: Config, ss: seq<State>, n: nat)
    requires c.Valid() && IsRun(c, ss) && n < |ss|
    ensures n + Measure(c, ss[n]) <= Measure(c, ss[0]) + (2 * c.workers + 5) * Disturbances(c, ss, n)
  {
    hide Measure, Disturbance, Inv, Next;
    if n > 0 {
      RunMeasure(c, ss, n - 1);
      RunInv(c, ss, n - 1);
      assert Next(c, ss[n - 1], ss[n - 1 + 1]);
      NextMeasure(c, ss[n - 1], ss[n]);
      var credit, d := 2 * c.workers + 5, Disturbances(c, ss, n - 1);
      if Disturbance(c, ss[n - 1], ss[n]) {
        DisturbanceBounded(c, ss[n - 1], ss[n]);
        assert credit * (d + 1) == credit * d + credit;
      }
    }
  }

  lemma {:induction false} InitRank(ws: seq<Worker>)
    requires forall w | 0 <= w < |ws| :: ws[w] == AtGuard
    ensures Sum(ws, BusyRank) == 3 * |ws|
  {
    if ws != [] {
      InitRank(ws[..|ws| - 1]);
    }
  }

  /** Every run is finite: at most `11 * blocks + 4 * workers + 14` steps, and `2 * workers + 5` more
      for each spurious wakeup and each re-queued block, however the threads are scheduled. */
  lemma RunLength(c: Config, ss: seq<State>)
    requires c.Valid() && IsRun(c, ss)
    ensures |ss| - 1 <= 11 * c.blocks + 4 * c.workers + 14 + (2 * c.workers + 5) * Disturbances(c, ss, |ss| - 1)
  {
    var n := |ss| - 1;
    RunMeasure(c, ss, n);
    RunInv(c, ss, n);
    InitRank(ss[0].workers);
    MeasureNonNegative(c, ss[n]);
  }

  lemma MeasureNonNegative(c: Config, s: State)
    requires Inv(c, s)
    ensures Measure(c, s) >= 0
  {
  }

  // ---------- when the launch completes ----------

  /** Some schedule finishes the launch from here; with `RunLength` and `NoDeadlock`, every undisturbed
      schedule that keeps going does. */
  lemma FinishRun(c: Config, ss: seq<State>) returns (r: seq<State>)
    requires c.Valid() && (c.blocks == 0 || c.bars < c.freeBars) && IsRun(c, ss)
    ensures IsRun(c, r) && r[0] == ss[0] && r[|r| - 1].launcher == Returned
    decreases Measure(c, ss[|ss| - 1])
  {
    hide Measure, Init, Inv, Next;
    var s := ss[|ss| - 1];
    RunInv(c, ss, |ss| - 1);
    if s.launcher == Returned {
      r := ss;
    } else {
      MeasureNonNegative(c, s);
      var t := NoDeadlock(c, s);
      OrdinaryIsNext(c, s, t);
      OrdinaryDecreases(c, s, t);
      r := FinishRun(c, ss + [t]);
    }
  }

  /** However the threads are scheduled: a run that can go on by no ordinary step has returned, and only
      such a one has. */
  lemma NoStepLeftIffReturned(c: Config, ss: seq<State>, n: nat)
    requires c.Valid() && (c.blocks == 0 || c.bars < c.freeBars) && IsRun(c, ss) && n < |ss|
    ensures (forall t :: !Ordinary(c, ss[n], t)) <==> ss[n].launcher == Returned
  {
    RunInv(c, ss, n);
    if ss[n].launcher == Returned {
      ReturnedMeansExactlyOnce(c, ss, n);
    } else {
      var t := NoDeadlock(c, ss[n]);
    }
  }

  lemma OrdinaryIsNext(c: Config, s: State, t: State)
    requires Ordinary(c, s, t)
    ensures Next(c, s, t)
  {
    hide LauncherStep, WorkerStep;
  }

  lemma OrdinaryDecreases(c: Config, s: State, t: State)
    requires Inv(c, s) && Ordinary(c, s, t)
    ensures Measure(c, t) < Measure(c, s)
  {
    hide LauncherStep, WorkerStep, Measure;
    if LauncherStep(c, s, t) {
      LauncherStepDecreases(c, s, t);
    } else {
      var w: nat :| WorkerStep(c, s, t, w, true);
      WorkerStepDecreases(c, s, t, w);
    }
  }

  /** With as many barrier slots asked for as are free, the first block is never allocated. */
  ghost predicate NothingStarted(c: Config, s: State) {
    && s.next == 0 && s.launcher in {AtLoop, Allocating, SlotAsleep}
    && s.freeBars == c.freeBars && s.pending == [] && !s.stop
    && forall w | 0 <= w < |s.workers| :: s.workers[w] in {AtGuard, AtWait, Asleep}
  }

  lemma {:induction false} TooManyBarsBlock(c: Config, ss: seq<State>, n: nat)
    requires c.Valid() && c.blocks > 0 && c.bars >= c.freeBars && IsRun(c, ss) && n < |ss|
    ensures NothingStarted(c, ss[n])
  {
    if n > 0 {
      TooManyBarsBlock(c, ss, n - 1);
      var s, t := ss[n - 1], ss[n];
      assert Next(c, ss[n - 1], ss[n - 1 + 1]);
      if !LauncherStep(c, s, t) && !SpuriousWakeup(s, t) {
        var w: nat, completes: bool :| WorkerStep(c, s, t, w, completes);
      }
    }
  }

  /** Without workers the launcher fills the running-block slots and waits. */
  ghost predicate OnlyLauncher(c: Config, s: State) {
    && s.workers == [] && !s.stop
    && s.launcher in {AtLoop, Allocating, SlotAsleep, Allocated, PushNotify}
    && s.running == s.next + (if s.launcher in {Allocated, PushNotify} then 1 else 0) <= c.maxRunning
  }

  lemma {:induction false} NoWorkersBlock(c: Config, ss: seq<State>, n: nat)
    requires c.workers == 0 && c.blocks > c.maxRunning && IsRun(c, ss) && n < |ss|
    ensures OnlyLauncher(c, ss[n])
  {
    if n > 0 {
      NoWorkersBlock(c, ss, n - 1);
      var s, t := ss[n - 1], ss[n];
      assert Next(c, ss[n - 1], ss[n - 1 + 1]);
      if LauncherStep(c, s, t) && s.launcher == PushNotify {
        assert NotifiedOne([], t.workers);
      }
    }
  }

  ghost predicate StartsAt(c: Config, s: State, ss: seq<State>) {
    IsRun(c, ss) && ss[0] == s
  }

  /** The launch can return exactly when the grid is empty, or the pool has a worker and the kernel asks
      for fewer barrier slots than were free before it. */
  lemma LaunchCompletesIff(c: Config, s: State)
    requires c.maxRunning > 0 && Init(c, s)
    requires c.workers == 0 ==> c.blocks == 0 || c.blocks > c.maxRunning
    ensures (c.blocks == 0 || (c.workers > 0 && c.bars < c.freeBars))
            <==> exists ss: seq<State> :: StartsAt(c, s, ss) && ss[|ss| - 1].launcher == Returned
  {
    if c.blocks == 0 || (c.workers > 0 && c.bars < c.freeBars) {
      var ss := FinishRun(c, [s]);
      assert StartsAt(c, s, ss);
    } else {
      forall ss: seq<State> | StartsAt(c, s, ss) ensures ss[|ss| - 1].launcher != Returned {
        if c.workers == 0 {
          NoWorkersBlock(c, ss, |ss| - 1);
        } else {
          TooManyBarsBlock(c, ss, |ss| - 1);
        }
      }
    }
  }

  // ---------- the grid ----------

  /** `ThreadPool(num_blocks)`: twice the processors, at most the block count, which is a 32-bit product. */
  function PoolSize(cpus: nat, grid: Grid.Dim3): nat {
    var blocks := Words.Wrap(grid.Volume());
    if 2 * cpus <= blocks then 2 * cpus else blocks
  }

  /** The pool has at most two workers for each processor and at most one for each block, below 2^32 blocks
      as many as that allows, and none exactly for a multiple of 2^32 blocks. */
  lemma PoolSizes(cpus: nat, grid: Grid.Dim3)
    ensures PoolSize(cpus, grid) <= 2 * cpus && PoolSize(cpus, grid) <= grid.Volume()
    ensures grid.Volume() < Words.WORD && PoolSize(cpus, grid) != 2 * cpus ==> PoolSize(cpus, grid) == grid.Volume()
    ensures PoolSize(cpus, grid) == 0 <==> cpus == 0 || grid.Volume() % Words.WORD == 0
    ensures PoolSize(4, Grid.Dim3(100, 1, 1)) == 8 && PoolSize(4, Grid.Dim3(65536, 65536, 1)) == 0
  {
    assert Grid.Dim3(100, 1, 1).Volume() == 100 && Grid.Dim3(65536, 65536, 1).Volume() == Words.WORD;
    hide Grid.Dim3.Volume;
  }

  const MAX_RUNNING_BLOCKS: nat := 100

  function LaunchConfig(grid: Grid.Dim3, cpus: nat, bars: nat, freeBars: nat): Config {
    Config(grid.Volume(), MAX_RUNNING_BLOCKS, bars, freeBars, PoolSize(cpus, grid))
  }

  /** End to end, for grids of any size: when the launch of a grid has returned, every point of the grid
      has been executed exactly once, as the block the counter assigned to it. */
  lemma EveryPointOnce(grid: Grid.Dim3, cpus: nat, bars: nat, freeBars: nat, ss: seq<State>, n: nat, p: Grid.Dim3)
    requires grid.IsUint() && cpus > 0 && Grid.InBox(p, grid)
    requires IsRun(LaunchConfig(grid, cpus, bars, freeBars), ss) && n < |ss| && ss[n].launcher == Returned
    ensures Grid.At(Grid.Value(p, grid), grid) == p
    ensures ss[n].finished[Grid.Value(p, grid)] == 1
    ensures forall k | 0 <= k < grid.Volume() && Grid.At(k, grid) == p :: k == Grid.Value(p, grid)
    ensures forall k: nat | k >= grid.Volume() :: ss[n].finished[k] == 0
  {
    hide Grid.At, Grid.Value, Grid.Dim3.Volume;
    Grid.EachPointOnce(p, grid);
    var c := LaunchConfig(grid, cpus, bars, freeBars);
    if c.workers == 0 {
      NoWorkersBlock(c, ss, n);
    } else {
      ReturnedMeansExactlyOnce(c, ss, n);
    }
  }

  /** A launch of a grid can return exactly when the grid is empty, or its number of blocks is not a
      multiple of 2^32 and the kernel asks for fewer barrier slots than were free. */
  lemma GridLaunchCompletesIff(grid: Grid.Dim3, cpus: nat, bars: nat, freeBars: nat, s: State)
    requires grid.IsUint() && cpus > 0 && Init(LaunchConfig(grid, cpus, bars, freeBars), s)
    ensures (grid.Volume() == 0 || (grid.Volume() % Words.WORD != 0 && bars < freeBars))
            <==> exists ss: seq<State> ::
                   StartsAt(LaunchConfig(grid, cpus, bars, freeBars), s, ss) && ss[|ss| - 1].launcher == Returned
  {
    hide Grid.Dim3.Volume;
    LaunchCompletesIff(LaunchConfig(grid, cpus, bars, freeBars), s);
  }
}
