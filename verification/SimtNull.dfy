/** The simulator as it stands: every decoded instruction carries the null reconvergence counter
    (isa/inc/Instruction.h).  Lanes that diverge are then brought together again by returns only, every
    argument of the update is well formed, and without calls no finished lane is ever met; with calls
    one can be. */
module SimtNull {
  import opened SimtStack
  import opened SimtAgreement
  import opened SimtShape
  import opened SimtParents
  import opened SimtFrame
  import opened SimtExits
  import opened SimtRun
  import opened Words

  ghost predicate NoneRejoin(s: seq<Entry>) {
    forall k | 0 <= k < |s| :: s[k].rpc == NULL_PC
  }

  ghost predicate Apart(s: seq<Entry>) {
    forall a: nat, b: nat | a < b < |s| :: s[a].mask !! s[b].mask
  }

  /** With null counters no entry ever waits for another, calls included, and every argument is well
      formed. */
  lemma NullKeepsNoneRejoin(s: seq<Entry>, i: Issue)
    requires Asserts(s, i) && NoneRejoin(s) && i.recvg == NULL_PC
    ensures NoneRejoin(NextStack(s, i)) && WellFormedRecvg(s, i)
  {
  }

  /** Without calls a null divergence splits the top in two; the masks stay apart, and a lane that
      finishes leaves the stack at once. */
  lemma NullKeepsApart(s: seq<Entry>, i: Issue, done: set<nat>)
    requires Asserts(s, i) && NoneRejoin(s) && CallFree(s) && Apart(s) && NoFinishedLane(s, done)
    requires i.recvg == NULL_PC && !i.op.CallOp? && i.done <= done + Top(s).mask
    ensures Apart(NextStack(s, i)) && NoFinishedLane(NextStack(s, i), i.done)
  {
    hide NextStack;
    var s', n := NextStack(s, i), |s| - 1;
    NextMasks(s, i);
    NewApart(s, i);
    forall k | 0 <= k < |s'| ensures s'[k].mask !! i.done && (k < n ==> s'[k] == s[k]) {
      if k < n {
        assert s'[k] == s'[..n][k] == Pop(s)[k];
      }
    }
    forall a: nat, b: nat | a < b < |s'| ensures s'[a].mask !! s'[b].mask {
      if a < n <= b {
        assert s[a].mask !! s[n].mask && s'[b].mask <= s[n].mask;
      }
    }
  }

  /** The entries that replace the top share no lane. */
  lemma NewApart(s: seq<Entry>, i: Issue)
    requires Asserts(s, i) && NoneRejoin(s) && CallFree(s) && i.recvg == NULL_PC && !i.op.CallOp?
    ensures forall a: nat, b: nat | |s| - 1 <= a < b < |NextStack(s, i)| ::
              NextStack(s, i)[a].mask !! NextStack(s, i)[b].mask
  {
    var live := Live(s, i);
    var paths := Paths(live, i);
    if |paths| == 2 {
      var p := FirstPath(paths, i.pc + i.size);
      assert |paths - {p}| == 1;
      var q := MinPath(paths - {p});
      TwoPaths(live, i, p, q);
      assert NextStack(s, i) == Diverge(s, i, p, q);
    }
  }

  /** Without calls a null update puts entries for lanes of the top in its place; of two paths the one
      handled first waits under the other. */
  lemma NullNext(s: seq<Entry>, i: Issue)
    requires Asserts(s, i) && NoneRejoin(s) && CallFree(s) && i.recvg == NULL_PC && !i.op.CallOp?
    ensures var s', n := NextStack(s, i), |s| - 1;
            && |s'| >= n && (forall k | 0 <= k < n :: s'[k] == s[k])
            && (forall k | n <= k < |s'| :: s'[k].mask <= Top(s).mask)
            && forall k | n <= k < |s'| - 1 ::
                 var paths := Paths(Live(s, i), i);
                 |paths| == 2 && s'[k].pc == FirstPath(paths, i.pc + i.size)
  {
    var s', n, live := NextStack(s, i), |s| - 1, Live(s, i);
    NextMasks(s, i);
    forall k | 0 <= k < n ensures s'[k] == s[k] {
      assert s'[k] == s'[..n][k] == Pop(s)[k];
    }
  }

  // ---------- exits under calls ----------

  /** With null counters an exit is safe exactly when the exiting lanes lie in no entry below the top and
      the instruction is not a call that leaves lanes to go on. */
  ghost predicate ExitsAtOnce(s: seq<Entry>, i: Issue)
    requires s != []
  {
    NoFinishedLane(Pop(s), i.done) && (!(Top(s).mask !! i.done) && i.op.CallOp? ==> Live(s, i) == {})
  }

  lemma NullExitIff(s: seq<Entry>, i: Issue)
    requires Asserts(s, i) && NoneRejoin(s) && i.recvg == NULL_PC
    ensures SafeExit(s, i) <==> ExitsAtOnce(s, i)
    ensures NoFinishedLane(NextStack(s, i), i.done) <==> ExitsAtOnce(s, i)
  {
    SafeExitIff(s, i);
  }

  /** A finished lane is met with null counters, too: lanes 0 and 1 call a function at 16, branch inside
      it, and lane 1 exits there; when lane 0 returns, the caller's entry is issued with both lanes. */
  lemma ExitInCalleeIsMet() returns (s: seq<Entry>, call: Issue, branch: Issue, exit: Issue, ret: Issue)
    ensures s == LaunchStack(0, {0, 1}) && Asserts(s, call)
    ensures call == Issue({}, [16, 16], NULL_PC, CallOp, 4, 0)
    ensures branch == Issue({}, [20, 24], NULL_PC, OtherOp, 4, 16)
    ensures exit == Issue({1}, [20, NULL_PC], NULL_PC, OtherOp, 4, 24)
    ensures ret == Issue({1}, [4, NULL_PC], NULL_PC, RetOp, 4, 20)
    ensures var s1 := NextStack(s, call);
            && Asserts(s1, branch)
            && var s2 := NextStack(s1, branch);
            && Asserts(s2, exit) && Top(s2).mask == {1} && !ExitsAtOnce(s2, exit)
            && var s3 := NextStack(s2, exit);
            && Asserts(s3, ret) && Top(s3).mask !! ret.done
            && NextStack(s3, ret) == [Entry(4, 1, {0, 1}, NULL_PC, Normal)]
  {
    s := LaunchStack(0, {0, 1});
    call, branch := Issue({}, [16, 16], NULL_PC, CallOp, 4, 0), Issue({}, [20, 24], NULL_PC, OtherOp, 4, 16);
    exit, ret := Issue({1}, [20, NULL_PC], NULL_PC, OtherOp, 4, 24), Issue({1}, [4, NULL_PC], NULL_PC, RetOp, 4, 20);
    CalledAt16(s, call);
    SplitInCallee(s, branch);
    ExitInCallee(s, exit);
    ReturnFromCallee(s, ret);
  }

  lemma CalledAt16(s: seq<Entry>, i: Issue)
    requires s == LaunchStack(0, {0, 1}) && i == Issue({}, [16, 16], NULL_PC, CallOp, 4, 0)
    ensures Asserts(s, i) && NextStack(s, i) == s + [Callee(16, {0, 1})]
  {
    assert i.Target(0) == 16 && i.Target(1) == 16;
    assert Live(s, i) == {0, 1} && Paths({0, 1}, i) == {16};
  }

  lemma SplitInCallee(s: seq<Entry>, i: Issue)
    requires |s| == 1 && i == Issue({}, [20, 24], NULL_PC, OtherOp, 4, 16)
    ensures var s1 := s + [Callee(16, {0, 1})];
            && Asserts(s1, i)
            && NextStack(s1, i) == s + [Callee(20, {0})] + [Branch(FRESH_ENTRY, 24, {1}, NULL_PC)]
  {
    var s1 := s + [Callee(16, {0, 1})];
    assert i.Target(0) == 20 && i.Target(1) == 24;
    assert Live(s1, i) == {0, 1} && Paths({0, 1}, i) == {20, 24};
    assert {20, 24} - {20} == {24};
    assert NextStack(s1, i) == Diverge(s1, i, 20, 24);
    assert LanesAt({0, 1}, i, 20) == {0} && LanesAt({0, 1}, i, 24) == {1};
    assert Pop(s1) == s;
  }

  lemma ExitInCallee(s: seq<Entry>, i: Issue)
    requires |s| == 1 && s[0].mask == {0, 1} && i == Issue({1}, [20, NULL_PC], NULL_PC, OtherOp, 4, 24)
    ensures var s2 := s + [Callee(20, {0})] + [Branch(FRESH_ENTRY, 24, {1}, NULL_PC)];
            && Asserts(s2, i) && !ExitsAtOnce(s2, i) && NextStack(s2, i) == s + [Callee(20, {0})]
  {
    var s2 := s + [Callee(20, {0})] + [Branch(FRESH_ENTRY, 24, {1}, NULL_PC)];
    assert Live(s2, i) == {};
    assert Pop(s2) == s + [Callee(20, {0})];
    assert Pop(s2)[0].mask * i.done == {1};
  }

  lemma ReturnFromCallee(s: seq<Entry>, i: Issue)
    requires |s| == 1 && s[0].rpc == NULL_PC && i == Issue({1}, [4, NULL_PC], NULL_PC, RetOp, 4, 20)
    ensures var s3 := s + [Callee(20, {0})]; Asserts(s3, i) && NextStack(s3, i) == [s[0].(pc := 4)]
  {
    var s3 := s + [Callee(20, {0})];
    assert i.Target(0) == 4;
    assert Live(s3, i) == {0} && Paths({0}, i) == {4};
    assert Pop(s3) == s;
  }

  // ---------- whole runs ----------

  /** Nothing is asked of a step but that its lanes decide for at most two counters. */
  ghost predicate NullStep(w: Warp, prog: Program, c: Choice) {
    && c.recvg == NULL_PC && !c.op.CallOp?
    && w.stack != [] && Top(w.stack).mask <= w.trace.Keys
    && |Paths(Live(w.stack, Collected(w, prog, c)), Collected(w, prog, c))| <= 2
  }

  /** (A step is defined where the update's assertions hold; `NullRunIsRun` shows that they do.) */
  ghost predicate IsNullRun(prog: Program, ws: seq<Warp>, cs: seq<Choice>) {
    && |ws| == |cs| + 1
    && forall k | 0 <= k < |cs| ::
         NullStep(ws[k], prog, cs[k]) && (Issuable(ws[k], prog, cs[k]) ==> ws[k + 1] == Step(ws[k], prog, cs[k]))
  }

  /** What holds in every state of such a run. */
  ghost predicate Flat(w: Warp) {
    NoneRejoin(w.stack) && CallFree(w.stack) && Apart(w.stack) && NoFinishedLane(w.stack, w.done)
  }

  lemma NullStepIsStep(w: Warp, prog: Program, c: Choice)
    requires Inv(w, prog) && Flat(w) && NullStep(w, prog, c)
    ensures StepOk(w, prog, c) && Flat(Step(w, prog, c))
  {
    hide NextStack, Shape, LaneRefines;
    var i := Collected(w, prog, c);
    IssuableIff(w, prog, c);
    NullKeepsNoneRejoin(w.stack, i);
    NullKeepsApart(w.stack, i, w.done);
    StepCallFree(w.stack, i);
  }

  /** Over whole runs the hypotheses on finished lanes and on the reconvergence counter are met: a run
      with null counters is a run in the sense of `SimtRun`, so that its results apply. */
  lemma {:induction false} NullRunIsRun(prog: Program, ws: seq<Warp>, cs: seq<Choice>, n: nat)
    requires IsNullRun(prog, ws, cs) && StartsAtLaunch(ws) && n < |ws|
    ensures IsRun(prog, ws[..n + 1], cs[..n]) && Flat(ws[n])
  {
    hide Inv, Step, Flat, NullStep, Issuable, WellFormedRecvg, Launch;
    if n == 0 {
      LaunchIsFlat(ws);
    } else {
      NullRunIsRun(prog, ws, cs, n - 1);
      RunInv(prog, ws[..n], cs[..n - 1], n - 1);
      NullStepIsStep(ws[n - 1], prog, cs[n - 1]);
      StepIsIssuable(ws[n - 1], prog, cs[n - 1]);
      forall k | 0 <= k < n
        ensures StepOk(ws[..n + 1][k], prog, cs[..n][k]) && ws[..n + 1][k + 1] == Step(ws[..n + 1][k], prog, cs[..n][k])
      {
        if k < n - 1 {
          assert ws[..n][k] == ws[k] && cs[..n - 1][k] == cs[k] && ws[..n][k + 1] == ws[k + 1];
        }
      }
    }
  }

  lemma StepIsIssuable(w: Warp, prog: Program, c: Choice)
    requires StepOk(w, prog, c)
    ensures Issuable(w, prog, c)
  {
  }

  lemma LaunchIsFlat(ws: seq<Warp>)
    requires StartsAtLaunch(ws)
    ensures Flat(ws[0])
  {
  }

  /** The exact condition over whole runs with null counters, calls included: no stored mask holds a
      finished lane if and only if all lanes have exited at once. */
  lemma NullRunCleanIff(prog: Program, ws: seq<Warp>, cs: seq<Choice>, n: nat)
    requires IsRun(prog, ws, cs) && StartsAtLaunch(ws) && n < |ws|
    requires forall k | 0 <= k < n :: cs[k].recvg == NULL_PC
    ensures NoFinishedLane(ws[n].stack, ws[n].done)
            <==> forall k | 0 <= k < n ::
                   DoneAfter(ws[k], prog) == ws[k].done || ExitsAtOnce(ws[k].stack, Collected(ws[k], prog, cs[k]))
  {
    hide NextStack, NoFinishedLane, ExitsAtOnce, SafeExit, NoneRejoin, Launch;
    CleanRunIff(prog, ws, cs, n);
    forall k | 0 <= k < n
      ensures ExitsSafely(ws[k], prog, cs[k])
              <==> DoneAfter(ws[k], prog) == ws[k].done || ExitsAtOnce(ws[k].stack, Collected(ws[k], prog, cs[k]))
    {
      RunNoneRejoin(prog, ws, cs, k);
      NullExitIff(ws[k].stack, Collected(ws[k], prog, cs[k]));
    }
  }

  lemma {:induction false} RunNoneRejoin(prog: Program, ws: seq<Warp>, cs: seq<Choice>, n: nat)
    requires IsRun(prog, ws, cs) && StartsAtLaunch(ws) && n < |ws|
    requires forall k | 0 <= k < n :: cs[k].recvg == NULL_PC
    ensures NoneRejoin(ws[n].stack)
  {
    hide NextStack;
    if n > 0 {
      RunNoneRejoin(prog, ws, cs, n - 1);
      NullKeepsNoneRejoin(ws[n - 1].stack, Collected(ws[n - 1], prog, cs[n - 1]));
    }
  }

  /** Refinement with no hypothesis on the steps but two-way branching: no active lane is ever done,
      each lane executes what it executes alone, and the stack holds at most one entry a lane. */
  lemma NullRunRefines(prog: Program, ws: seq<Warp>, cs: seq<Choice>, n: nat, l: nat)
    requires IsNullRun(prog, ws, cs) && StartsAtLaunch(ws) && n < |ws| && l in ws[0].lanes
    ensures l in ws[n].trace && ws[n].trace[l] == Alone(prog, l, ws[0].startPc, |ws[n].trace[l]|)
    ensures l in ws[n].done <==> AloneAt(prog, l, ws[0].startPc, ws[n].trace[l]).Exit?
    ensures l !in ws[n].done ==>
              l in ws[n].pc && StackPc(ws[n].stack, l) == ws[n].pc[l] < WORD
              && AloneAt(prog, l, ws[0].startPc, ws[n].trace[l]) == Goto(ws[n].pc[l])
    ensures forall k: nat | k < |ws[n].stack| :: ws[n].stack[k].mask !! ws[n].done
    ensures |ws[n].stack| <= |ws[0].lanes|
  {
    hide Inv, IsRun, StepOk, Launch;
    NullRunIsRun(prog, ws, cs, n);
    RunRefinesLanes(prog, ws[..n + 1], cs[..n], n, l);
    RunMasks(prog, ws[..n + 1], cs[..n], n);
    ApartBound(ws[n].stack, ws[0].lanes);
  }

  lemma RunMasks(prog: Program, ws: seq<Warp>, cs: seq<Choice>, n: nat)
    requires IsRun(prog, ws, cs) && StartsAtLaunch(ws) && n < |ws|
    ensures MasksWithin(ws[n].stack, ws[0].lanes)
  {
    RunInv(prog, ws, cs, n);
  }

  /** Non-empty masks that are apart are at most as many as the lanes. */
  lemma {:induction false} ApartBound(s: seq<Entry>, lanes: set<nat>)
    requires Apart(s) && MasksWithin(s, lanes)
    ensures |s| <= |lanes|
  {
    if s != [] {
      var rest := lanes - Top(s).mask;
      ApartBound(Pop(s), rest);
      assert lanes == rest + Top(s).mask;
    }
  }
}
