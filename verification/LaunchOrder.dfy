/** The order in which the pool runs its tasks, seen from the launcher's and the workers' steps alone, and
    what finished blocks do to the free barrier slots. */
module LaunchOrder {
  import opened LaunchProtocol
  import opened LaunchRuns
  import opened Words

  /** Worker `w` begins a task with this step; or gives one back unfinished. */
  predicate Begins(s: State, t: State, w: nat) {
    w < |s.workers| && w < |t.workers| && s.workers[w] == AtWait && t.workers[w].Running?
  }

  predicate GivesBack(s: State, t: State, w: nat) {
    w < |s.workers| && w < |t.workers| && s.workers[w].Running? && t.workers[w] == RequeueNotify
  }

  /** The task a step begins, if any. */
  ghost function Begun(s: State, t: State): seq<nat> {
    if w: nat :| Begins(s, t, w) then [t.workers[w].task] else []
  }

  /** The task a step hands to the pool, if any. */
  ghost function Handed(s: State, t: State): seq<nat> {
    if s.launcher == Allocated && t.launcher == PushNotify then [s.next]
    else if w: nat :| GivesBack(s, t, w) then [s.workers[w].task]
    else []
  }

  lemma LauncherQueue(c: Config, s: State, t: State)
    requires LauncherStep(c, s, t)
    ensures s.pending + Handed(s, t) == Begun(s, t) + t.pending
  {
    forall w: nat ensures !Begins(s, t, w) && !GivesBack(s, t, w) {
      if s.launcher == PushNotify {
        NotifiedWakes(s.workers, t.workers);
      }
    }
  }

  lemma WorkerQueue(c: Config, s: State, t: State, w: nat, completes: bool)
    requires WorkerStep(c, s, t, w, completes)
    ensures s.pending + Handed(s, t) == Begun(s, t) + t.pending
  {
    if s.workers[w] == RequeueNotify {
      NotifiedWakes(s.workers[w := AtGuard], t.workers);
    }
    assert forall v: nat | v != w :: !Begins(s, t, v) && !GivesBack(s, t, v);
    if Begins(s, t, w) {
      assert s.pending == [s.pending[0]] + s.pending[1..];
      assert Begun(s, t) == [t.workers[w].task] == [s.pending[0]];
    } else if GivesBack(s, t, w) {
      assert Handed(s, t) == [s.workers[w].task];
    }
  }

  /** The queue is the tasks handed over and not begun yet: they are begun at the front and handed over at
      the back. */
  lemma StepQueue(c: Config, s: State, t: State)
    requires Next(c, s, t)
    ensures s.pending + Handed(s, t) == Begun(s, t) + t.pending
  {
    hide LauncherStep, WorkerStep;
    if LauncherStep(c, s, t) {
      LauncherQueue(c, s, t);
    } else if SpuriousWakeup(s, t) {
      assert forall w: nat :: !Begins(s, t, w) && !GivesBack(s, t, w);
    } else {
      var w: nat, completes: bool :| WorkerStep(c, s, t, w, completes);
      WorkerQueue(c, s, t, w, completes);
    }
  }

  // ---------- whole runs ----------

  ghost function BegunSoFar(ss: seq<State>, n: nat): seq<nat>
    requires n < |ss|
  {
    if n == 0 then [] else BegunSoFar(ss, n - 1) + Begun(ss[n - 1], ss[n])
  }

  ghost function HandedSoFar(ss: seq<State>, n: nat): seq<nat>
    requires n < |ss|
  {
    if n == 0 then [] else HandedSoFar(ss, n - 1) + Handed(ss[n - 1], ss[n])
  }

  /** First in, first out, under every schedule, re-queued blocks included: the tasks begun so far are, in
      this order, the first of those handed over, and the queue holds the others. */
  lemma {:induction false} FirstInFirstOut(c: Config, ss: seq<State>, n: nat)
    requires IsRun(c, ss) && n < |ss|
    ensures HandedSoFar(ss, n) == BegunSoFar(ss, n) + ss[n].pending
  {
    hide Next, Begun, Handed;
    if n > 0 {
      var s, t := ss[n - 1], ss[n];
      FirstInFirstOut(c, ss, n - 1);
      assert Next(c, ss[n - 1], ss[n - 1 + 1]);
      StepQueue(c, s, t);
      Regroup(BegunSoFar(ss, n - 1), s.pending, Handed(s, t), Begun(s, t), t.pending);
    }
  }

  lemma Regroup(begun: seq<nat>, before: seq<nat>, handed: seq<nat>, begins: seq<nat>, after: seq<nat>)
    requires before + handed == begins + after
    ensures begun + before + handed == begun + begins + after
  {
    assert begun + before + handed == begun + (before + handed);
  }

  ghost predicate GivesNoneBack(s: State, t: State) {
    forall w: nat :: !GivesBack(s, t, w)
  }

  ghost predicate NoneGivenBack(ss: seq<State>, n: nat) {
    forall k | 0 <= k < n && k + 1 < |ss| :: GivesNoneBack(ss[k], ss[k + 1])
  }

  lemma StepHands(c: Config, s: State, t: State)
    requires Next(c, s, t) && GivesNoneBack(s, t)
    ensures Handed(s, t) == if Queued(t) == Queued(s) then [] else [Queued(s)]
    ensures Queued(s) <= Queued(t) <= Queued(s) + 1
  {
    hide NotifiedOne, WokenAll;
  }

  lemma {:induction false} HandedInOrder(c: Config, ss: seq<State>, n: nat)
    requires IsRun(c, ss) && n < |ss| && NoneGivenBack(ss, n)
    ensures |HandedSoFar(ss, n)| == Queued(ss[n])
    ensures forall k | 0 <= k < |HandedSoFar(ss, n)| :: HandedSoFar(ss, n)[k] == k
  {
    hide Next, Handed, GivesNoneBack;
    if n > 0 {
      HandedInOrder(c, ss, n - 1);
      assert Next(c, ss[n - 1], ss[n - 1 + 1]);
      assert GivesNoneBack(ss[n - 1], ss[n - 1 + 1]);
      StepHands(c, ss[n - 1], ss[n]);
    }
  }

  /** Blocks begin in the order of their ids: in a run in which no block is given back, the `m` blocks begun
      so far are 0 to m - 1 in this order, the queue holds the following ones in order, and every block
      that is running or finished is one of the former. */
  lemma BlocksBeginInOrder(c: Config, ss: seq<State>, n: nat)
    requires c.Valid() && IsRun(c, ss) && n < |ss| && NoneGivenBack(ss, n)
    ensures var m := |BegunSoFar(ss, n)|;
            && (forall k | 0 <= k < m :: BegunSoFar(ss, n)[k] == k)
            && (forall k | 0 <= k < |ss[n].pending| :: ss[n].pending[k] == m + k)
            && m + |ss[n].pending| == Queued(ss[n])
            && (forall w | 0 <= w < |ss[n].workers| && ss[n].workers[w].Running? :: ss[n].workers[w].task < m)
            && (forall x: nat | ss[n].finished[x] > 0 :: x < m)
  {
    hide Next, BegunSoFar, HandedSoFar;
    FirstInFirstOut(c, ss, n);
    HandedInOrder(c, ss, n);
    RunInv(c, ss, n);
    var begun, s := BegunSoFar(ss, n), ss[n];
    var all := begun + s.pending;
    assert forall k | 0 <= k < |s.pending| :: s.pending[k] == all[|begun| + k];
    assert forall k | 0 <= k < |begun| :: begun[k] == all[k];
    forall x: nat | |begun| <= x < Queued(s) ensures multiset(s.pending)[x] >= 1 {
      assert s.pending[x - |begun|] == x && x in s.pending;
    }
    forall x: nat | s.finished[x] > 0 || Sum(s.workers, RunsTask(x)) > 0 ensures x < |begun| {
      assert Copies(s, x) == if x < Queued(s) then 1 else 0;
    }
    forall w | 0 <= w < |s.workers| && s.workers[w].Running? ensures s.workers[w].task < |begun| {
      SumAtLeast(s.workers, w, RunsTask(s.workers[w].task));
    }
  }

  lemma {:induction false} SumAtLeast(ws: seq<Worker>, w: nat, f: Worker -> nat)
    requires w < |ws|
    ensures Sum(ws, f) >= f(ws[w])
  {
    if w < |ws| - 1 {
      SumAtLeast(ws[..|ws| - 1], w, f);
    }
  }

  // ---------- barrier slots ----------

  /** Blocks give barrier slots back that none has taken: after `k` blocks the free count is `k` times the
      kernel's demand above what it was before the launch. */
  lemma {:induction false} FreeBarsGrow(c: Config, ss: seq<State>, n: nat)
    requires IsRun(c, ss) && n < |ss|
    ensures ss[n].freeBars == c.freeBars + |ss[n].finished| * c.bars
  {
    if n > 0 {
      FreeBarsGrow(c, ss, n - 1);
      var s, t := ss[n - 1], ss[n];
      assert Next(c, ss[n - 1], ss[n - 1 + 1]);
      StepBars(c, s, t);
      if |t.finished| == |s.finished| + 1 {
        assert (|s.finished| + 1) * c.bars == |s.finished| * c.bars + c.bars;
      }
    }
  }

  lemma StepBars(c: Config, s: State, t: State)
    requires Next(c, s, t)
    ensures (t.finished == s.finished && t.freeBars == s.freeBars)
            || (|t.finished| == |s.finished| + 1 && t.freeBars == s.freeBars + c.bars)
  {
  }

  lemma {:induction false} AllFinished(f: multiset<nat>, n: nat)
    requires forall x: nat :: f[x] == if x < n then 1 else 0
    ensures |f| == n
  {
    if n == 0 {
      assert f == multiset{};
    } else {
      AllFinished(f - multiset{n - 1}, n - 1);
      assert f == (f - multiset{n - 1}) + multiset{n - 1};
    }
  }

  lemma {:induction false} AtMostFinished(f: multiset<nat>, n: nat)
    requires forall x: nat :: f[x] <= if x < n then 1 else 0
    ensures |f| <= n
  {
    if n == 0 {
      assert f == multiset{};
    } else {
      var rest := f - multiset{n - 1};
      AtMostFinished(rest, n - 1);
      assert f == rest || f == rest + multiset{n - 1};
    }
  }

  /** The count, 32 bits wide in the code, cannot wrap if it can hold the demand of all blocks together. */
  lemma BarsFit(c: Config, ss: seq<State>, n: nat)
    requires c.Valid() && IsRun(c, ss) && n < |ss|
    ensures c.freeBars <= ss[n].freeBars <= c.freeBars + c.blocks * c.bars
  {
    RunInv(c, ss, n);
    FreeBarsGrow(c, ss, n);
    forall x: nat ensures ss[n].finished[x] <= if x < c.blocks then 1 else 0 {
      assert Copies(ss[n], x) == if x < Queued(ss[n]) then 1 else 0;
    }
    AtMostFinished(ss[n].finished, c.blocks);
    MulMonotone(|ss[n].finished|, c.blocks, c.bars);
  }

  /** So a launch that has returned has raised it by the demand of every block. */
  lemma ReturnedRaisesBars(c: Config, ss: seq<State>, n: nat)
    requires c.Valid() && IsRun(c, ss) && n < |ss| && ss[n].launcher == Returned
    ensures ss[n].freeBars == c.freeBars + c.blocks * c.bars
  {
    ReturnedMeansExactlyOnce(c, ss, n);
    FreeBarsGrow(c, ss, n);
    AllFinished(ss[n].finished, c.blocks);
  }
}
