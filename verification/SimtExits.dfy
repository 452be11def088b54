/** When `ThreadItem::Execute` can meet a finished lane, over whole runs. */
module SimtExits {
  import opened SimtStack
  import opened SimtAgreement
  import opened SimtParents
  import opened SimtFrame
  import opened SimtRun

  /** The lanes that the instruction finishes, if any, leave the stack with it. */
  ghost predicate ExitsSafely(w: Warp, prog: Program, c: Choice)
    requires StepOk(w, prog, c)
  {
    DoneAfter(w, prog) == w.done || SafeExit(w.stack, Collected(w, prog, c))
  }

  lemma StepCleanIff(w: Warp, prog: Program, c: Choice)
    requires StepOk(w, prog, c) && Parented(w.stack)
    ensures NoFinishedLane(Step(w, prog, c).stack, Step(w, prog, c).done)
            <==> NoFinishedLane(w.stack, w.done) && ExitsSafely(w, prog, c)
  {
    hide NextStack, Parented, NoFinishedLane, Asserts, WellFormedRecvg;
    var s, i := w.stack, Collected(w, prog, c);
    SafeExitIff(s, i);
    TopFinished(s, w.done);
    if NoFinishedLane(Pop(s), i.done) {
      FewerFinished(Pop(s), w.done, i.done);
    }
  }

  lemma FewerFinished(s: seq<Entry>, before: set<nat>, after: set<nat>)
    requires before <= after && NoFinishedLane(s, after)
    ensures NoFinishedLane(s, before)
  {
  }

  /** A finished lane that is stored once is stored for ever, calls or no calls: it lies below the top,
      and no entry below the top is dropped but a caller whose lanes another entry holds as well. */
  lemma FinishedLaneStays(w: Warp, prog: Program, c: Choice)
    requires StepOk(w, prog, c) && Parented(w.stack)
    requires !NoFinishedLane(w.stack, w.done)
    ensures !NoFinishedLane(Step(w, prog, c).stack, Step(w, prog, c).done)
  {
    StepCleanIff(w, prog, c);
  }

  /** The exact condition over whole runs, with calls and returns anywhere: the stack is free of finished
      lanes if and only if every exit so far was safe. */
  lemma {:induction false} CleanRunIff(prog: Program, ws: seq<Warp>, cs: seq<Choice>, n: nat)
    requires IsRun(prog, ws, cs) && StartsAtLaunch(ws) && n < |ws|
    ensures NoFinishedLane(ws[n].stack, ws[n].done) <==> forall k | 0 <= k < n :: ExitsSafely(ws[k], prog, cs[k])
  {
    hide Step, Issuable, NoFinishedLane, ExitsSafely, Launch, Inv;
    if n == 0 {
      LaunchIsClean(ws);
    } else {
      CleanRunIff(prog, ws, cs, n - 1);
      RunIsParented(prog, ws, cs, n - 1);
      StepCleanIff(ws[n - 1], prog, cs[n - 1]);
    }
  }

  lemma LaunchIsClean(ws: seq<Warp>)
    requires StartsAtLaunch(ws)
    ensures NoFinishedLane(ws[0].stack, ws[0].done)
  {
  }

  lemma RunIsParented(prog: Program, ws: seq<Warp>, cs: seq<Choice>, n: nat)
    requires IsRun(prog, ws, cs) && StartsAtLaunch(ws) && n < |ws|
    ensures Parented(ws[n].stack)
  {
    RunInv(prog, ws, cs, n);
  }

  /** In a run whose exits are safe the assertion in `ThreadItem::Execute` cannot fail at the next
      instruction. */
  lemma SafeRunMeetsNoFinishedLane(prog: Program, ws: seq<Warp>, cs: seq<Choice>, n: nat)
    requires IsRun(prog, ws, cs) && StartsAtLaunch(ws) && n < |ws|
    requires forall k | 0 <= k < n :: ExitsSafely(ws[k], prog, cs[k])
    ensures NoFinishedLane(ws[n].stack, ws[n].done)
    ensures ws[n].stack != [] ==> Top(ws[n].stack).mask !! ws[n].done
  {
    hide ExitsSafely;
    CleanRunIff(prog, ws, cs, n);
  }

  /** A run that has emptied its stack had safe exits only; after an unsafe one, the warp cannot finish. */
  lemma CompletedRunExitedSafely(prog: Program, ws: seq<Warp>, cs: seq<Choice>, n: nat, a: nat)
    requires IsRun(prog, ws, cs) && StartsAtLaunch(ws) && a < n < |ws| && ws[n].stack == []
    ensures ExitsSafely(ws[a], prog, cs[a])
  {
    hide ExitsSafely;
    CleanRunIff(prog, ws, cs, n);
  }
}
