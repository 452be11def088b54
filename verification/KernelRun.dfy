/** The code of the warp step carries out the steps of `SimtRun`, and a whole kernel run on it leaves
    every lane with what it does alone. */
module KernelRun {
  import opened SimtStack
  import opened SimtAgreement
  import opened SimtShape
  import opened SimtFrame
  import opened SimtNull
  import opened ThreadBlock
  import opened LaneBits
  import opened Words
  import R = SimtRun

  // ---------- one warp instruction is a step ----------

  /** The state of a warp as `SimtRun` sees it; `trace` is what the lanes have executed. */
  ghost function Snapshot(width: nat, s: seq<Entry>, lanes: set<nat>, pc: seq<nat>, done: seq<bool>,
                          trace: map<nat, seq<nat>>): R.Warp
    requires forall l | l in lanes :: l < |pc|
  {
    R.Warp(lanes, 0, width, s, map l | l in lanes :: pc[l], DoneLanes(lanes, done), trace)
  }

  /** What the instruction makes of each active lane is what the program of the lane says. */
  ghost predicate Follows(inst: Instruction, mask: set<nat>, pc: seq<nat>, trace: map<nat, seq<nat>>, top: nat,
                          prog: R.Program)
    requires forall l | l in mask :: l < |pc|
  {
    forall l | l in mask :: l in trace &&
      prog(l, trace[l] + [top]) == if inst.opcode.TExit? then R.Exit else R.Goto(NextPc(inst, mask, pc, l))
  }

  ghost function ChoiceOf(inst: Instruction): R.Choice {
    R.Choice(inst.recvg, inst.op, inst.size)
  }

  /** An update depends on its arguments only for the lanes of the top entry. */
  lemma SameUpdate(s: seq<Entry>, i: Issue, j: Issue)
    requires Asserts(s, i) && j.recvg == i.recvg && j.op == i.op && j.size == i.size && j.pc == i.pc
    requires Live(s, i) == Live(s, j) && forall l | l in Live(s, i) :: i.Target(l) == j.Target(l)
    ensures Asserts(s, j) && NextStack(s, i) == NextStack(s, j)
    ensures WellFormedRecvg(s, i) == WellFormedRecvg(s, j)
  {
    var live := Live(s, i);
    assert Paths(live, i) == Paths(live, j);
    forall p ensures LanesAt(live, i, p) == LanesAt(live, j, p) { }
  }

  /** The vectors collected after the lane loop are, for the active lanes, those of the step. */
  lemma SameCollected(width: nat, s: seq<Entry>, inst: Instruction, lanes: set<nat>, pc: seq<nat>, done: seq<bool>,
                      trace: map<nat, seq<nat>>, prog: R.Program)
    requires s != [] && |pc| == |done| == width && (forall l | l in lanes :: l < width)
    requires Top(s).mask <= lanes == trace.Keys && Top(s).mask !! DoneLanes(lanes, done)
    requires Follows(inst, Top(s).mask, pc, trace, Top(s).pc, prog)
    ensures var i := Issued(inst, Top(s).mask, lanes, pc, done, Top(s).pc);
            var j := R.Collected(Snapshot(width, s, lanes, pc, done, trace), prog, ChoiceOf(inst));
            && j.recvg == i.recvg && j.op == i.op && j.size == i.size && j.pc == i.pc
            && Live(s, i) == Live(s, j) && forall l | l in Live(s, i) :: i.Target(l) == j.Target(l)
  {
    hide NextPc;
    var w, mask := Snapshot(width, s, lanes, pc, done, trace), Top(s).mask;
    var i, j := Issued(inst, mask, lanes, pc, done, Top(s).pc), R.Collected(w, prog, ChoiceOf(inst));
    forall l | l in mask
      ensures l in i.done <==> l in j.done
      ensures l !in i.done ==> i.Target(l) == j.Target(l)
    {
      assert R.After(w, prog)[l] == prog(l, trace[l] + [Top(s).pc]);
    }
    assert Live(s, i) == Live(s, j);
  }

  /** What the code leaves is the state after the step. */
  lemma MovedIsStep(width: nat, s: seq<Entry>, inst: Instruction, lanes: set<nat>, pc: seq<nat>, done: seq<bool>,
                    trace: map<nat, seq<nat>>, prog: R.Program, pc': seq<nat>, done': seq<bool>)
    requires s != [] && |pc| == |done| == width && (forall l | l in lanes :: l < width)
    requires Top(s).mask <= lanes == trace.Keys && Top(s).mask !! DoneLanes(lanes, done)
    requires forall l | l in Top(s).mask :: pc[l] == Top(s).pc
    requires Follows(inst, Top(s).mask, pc, trace, Top(s).pc, prog)
    requires Asserts(s, Issued(inst, Top(s).mask, lanes, pc, done, Top(s).pc))
    requires WellFormedRecvg(s, Issued(inst, Top(s).mask, lanes, pc, done, Top(s).pc))
    requires Moved(inst, Top(s).mask, pc, done, pc', done')
    ensures var w := Snapshot(width, s, lanes, pc, done, trace);
            && R.StepOk(w, prog, ChoiceOf(inst))
            && R.Step(w, prog, ChoiceOf(inst))
               == Snapshot(width, NextStack(s, Issued(inst, Top(s).mask, lanes, pc, done, Top(s).pc)),
                           lanes, pc', done', R.Executed(w))
  {
    hide Asserts, NextStack, WellFormedRecvg, NextPc, Follows;
    var w, mask, c := Snapshot(width, s, lanes, pc, done, trace), Top(s).mask, ChoiceOf(inst);
    SameCollected(width, s, inst, lanes, pc, done, trace, prog);
    SameUpdate(s, Issued(inst, mask, lanes, pc, done, Top(s).pc), R.Collected(w, prog, c));
    MovedLanes(width, s, inst, lanes, pc, done, trace, prog, pc', done');
  }

  lemma MovedLanes(width: nat, s: seq<Entry>, inst: Instruction, lanes: set<nat>, pc: seq<nat>, done: seq<bool>,
                   trace: map<nat, seq<nat>>, prog: R.Program, pc': seq<nat>, done': seq<bool>)
    requires s != [] && |pc| == |done| == width && (forall l | l in lanes :: l < width)
    requires Top(s).mask <= lanes == trace.Keys
    requires forall l | l in Top(s).mask :: pc[l] == Top(s).pc
    requires Follows(inst, Top(s).mask, pc, trace, Top(s).pc, prog)
    requires Moved(inst, Top(s).mask, pc, done, pc', done')
    ensures var w := Snapshot(width, s, lanes, pc, done, trace);
            && R.DoneAfter(w, prog) == DoneLanes(lanes, done')
            && R.PcAfter(w, prog, inst.size) == map l | l in lanes :: pc'[l]
  {
    hide NextPc, Follows, R.After;
    var w, mask := Snapshot(width, s, lanes, pc, done, trace), Top(s).mask;
    ActiveDecide(w, prog);
    forall l | l in lanes
      ensures l in R.DoneAfter(w, prog) <==> done'[l]
      ensures R.PcAfter(w, prog, inst.size)[l] == pc'[l]
    {
      if l in mask {
        Decided(width, s, inst, lanes, pc, done, trace, prog, l);
        ExitMovesOn(inst, mask, pc, Top(s).pc, l);
      }
    }
  }

  lemma ActiveDecide(w: R.Warp, prog: R.Program)
    requires w.stack != [] && Top(w.stack).mask <= w.trace.Keys
    ensures R.After(w, prog).Keys == Top(w.stack).mask
  {
  }

  lemma Decided(width: nat, s: seq<Entry>, inst: Instruction, lanes: set<nat>, pc: seq<nat>, done: seq<bool>,
                trace: map<nat, seq<nat>>, prog: R.Program, l: nat)
    requires s != [] && |pc| == |done| == width && (forall k | k in lanes :: k < width)
    requires Top(s).mask <= lanes == trace.Keys && l in Top(s).mask
    requires Follows(inst, Top(s).mask, pc, trace, Top(s).pc, prog)
    ensures var a := R.After(Snapshot(width, s, lanes, pc, done, trace), prog);
            l in a && a[l] == if inst.opcode.TExit? then R.Exit else R.Goto(NextPc(inst, Top(s).mask, pc, l))
  {
    hide NextPc;
    assert R.After(Snapshot(width, s, lanes, pc, done, trace), prog)[l] == prog(l, trace[l] + [Top(s).pc]);
  }

  lemma ExitMovesOn(inst: Instruction, mask: set<nat>, pc: seq<nat>, top: nat, l: nat)
    requires l in mask && forall k | k in mask :: k < |pc| && pc[k] == top
    ensures inst.opcode.TExit? ==> NextPc(inst, mask, pc, l) == Wrap(top + inst.size)
  {
  }

  /** The instruction's reconvergence counter and operation type reach the stack: a divergence towards a new
      point leaves the old top waiting there, a call adds a call entry, and a return from one drops it. */
  lemma InstructionReachesStack(s: seq<Entry>, inst: Instruction, lanes: set<nat>, pc: seq<nat>, done: seq<bool>)
    requires s != [] && |pc| == |done| && forall l | l in Top(s).mask :: l < |pc|
    requires Asserts(s, Issued(inst, Top(s).mask, lanes, pc, done, Top(s).pc))
    ensures var i := Issued(inst, Top(s).mask, lanes, pc, done, Top(s).pc);
            var s' := NextStack(s, i);
            && (|Paths(Live(s, i), i)| == 2 && inst.recvg != Top(s).rpc ==>
                  |s'| >= |s| && s'[|s| - 1] == Top(s).(pc := inst.recvg))
            && (inst.op.CallOp? && Live(s, i) != {} ==> |s'| == |s| + 1 && s'[..|s|] == s && Top(s').kind.Call?)
            && (inst.op.RetOp? && Top(s).kind.Call? ==> |s'| < |s|)
  {
    var i := Issued(inst, Top(s).mask, lanes, pc, done, Top(s).pc);
    if |Paths(Live(s, i), i)| == 2 && inst.recvg != Top(s).rpc {
      DivergeOpens(s, i);
      assert NextStack(s, i)[|s| - 1] == NextStack(s, i)[..|s|][|s| - 1];
    }
  }

  ghost function State(u: WarpUnit, trace: map<nat, seq<nat>>): R.Warp
    requires u.Valid()
    reads u, u.warp, u.threads
  {
    Snapshot(u.threads.warpSize, u.warp.stack, u.threads.lanes, u.threads.pc, u.threads.done, trace)
  }

  /** `executeWarp` carries out a step of `SimtRun`, for any program whose lanes decide as the
      instruction does. */
  method ExecuteStep(u: WarpUnit, inst: Instruction, trace: map<nat, seq<nat>>, ghost prog: R.Program)
    returns (trace': map<nat, seq<nat>>)
    requires u.Valid() && u.warp.stack != [] && CallsTogether(u.warp.stack, inst)
    requires Top(u.warp.stack).mask !! u.threads.Done() && trace.Keys == u.threads.lanes
    requires WellFormedRecvg(u.warp.stack, u.NextIssue(inst))
    requires Follows(inst, Top(u.warp.stack).mask, u.threads.pc, trace, Top(u.warp.stack).pc, prog)
    modifies u.warp, u.threads
    ensures u.Valid() && trace'.Keys == u.threads.lanes
    ensures forall l | l in trace ::
              trace'[l] == if l in Top(old(u.warp.stack)).mask then trace[l] + [Top(old(u.warp.stack)).pc] else trace[l]
    ensures Asserts(old(u.warp.stack), old(u.NextIssue(inst)))
    ensures u.warp.stack == NextStack(old(u.warp.stack), old(u.NextIssue(inst)))
    ensures R.StepOk(old(State(u, trace)), prog, ChoiceOf(inst))
    ensures State(u, trace') == R.Step(old(State(u, trace)), prog, ChoiceOf(inst))
  {
    hide Agree, Asserts, NextStack, WellFormedRecvg, Follows, Moved, CallsTogether, Issued, NextPc, DoneLanes;
    hide R.StepOk, R.Step;
    var top := u.warp.stack[|u.warp.stack| - 1];
    ghost var s, pc, done, lanes := u.warp.stack, u.threads.pc, u.threads.done, u.threads.lanes;
    IssueIsAccepted(s, inst, lanes, pc, done);
    u.ExecuteWarp(inst);
    trace' := map l | l in trace :: if l in top.mask then trace[l] + [top.pc] else trace[l];
    MovedIsStep(u.threads.warpSize, s, inst, lanes, pc, done, trace, prog, u.threads.pc, u.threads.done);
  }

  // ---------- a kernel ----------

  /** What stands at a program counter. */
  datatype Code = Straight(warpOp: bool) | Jump(simm: int) | TccJump(simm: int, onSet: bool) | End

  /** The code with instruction sizes, and the bit that a lane's own instructions have left in the
      condition register when the lane gets to a conditional branch. */
  datatype Kernel = Kernel(code: nat -> Code, size: nat -> nat, flag: (nat, seq<nat>) -> bool) {

    /** A lane of the kernel on its own. */
    function Decide(l: nat, h: seq<nat>): R.Outcome {
      if h == [] then R.Exit
      else
        var pc := h[|h| - 1];
        match code(pc)
        case Straight(_) => R.Goto(Wrap(pc + size(pc)))
        case Jump(simm) => R.Goto(Wrap(pc + simm))
        case TccJump(simm, onSet) => R.Goto(Wrap(pc + if flag(l, h) == onSet then simm else size(pc)))
        case End => R.Exit
    }

    ghost function Lanes(): R.Program {
      (l: nat, h: seq<nat>) => Decide(l, h)
    }

    function Decoded(pc: nat, tcc: bv32): Instruction {
      Decode(code(pc), size(pc), tcc)
    }
  }

  /** The decoded instruction; its reconvergence counter is the null one. */
  function Decode(code: Code, size: nat, tcc: bv32): Instruction {
    var opcode := match code
                  case Straight(warpOp) => Plain(warpOp)
                  case Jump(simm) => SBranch(simm)
                  case TccJump(simm, onSet) => TccBranch(simm, tcc, onSet)
                  case End => TExit;
    Instruction(opcode, OtherOp, size, NULL_PC)
  }

  /** The condition register as the active lanes find it. */
  method ConditionRegister(k: Kernel, width: nat, mask: set<nat>, pc: nat, trace: map<nat, seq<nat>>)
    returns (tcc: bv32)
    requires width <= 32 && mask <= trace.Keys && forall l | l in mask :: l < width
    ensures forall l | l in mask :: Bit(tcc, l) == k.flag(l, trace[l] + [pc])
  {
    hide Bit, WithBit;
    tcc := 0;
    for n := 0 to width
      invariant forall l | l in mask && l < n :: Bit(tcc, l) == k.flag(l, trace[l] + [pc])
    {
      if n in mask {
        var on := k.flag(n, trace[n] + [pc]);
        forall l | l in mask && l <= n ensures Bit(WithBit(tcc, n, on), l) == if l == n then on else Bit(tcc, l) {
          BitOfWithBit(tcc, n, l, on);
        }
        tcc := WithBit(tcc, n, on);
      }
    }
  }

  /** Lanes that stand together decide by the decoded instruction as each decides alone. */
  lemma DecodedFollows(k: Kernel, mask: set<nat>, pc: seq<nat>, trace: map<nat, seq<nat>>, top: nat, tcc: bv32)
    requires mask <= trace.Keys && forall l | l in mask :: l < |pc| && pc[l] == top
    requires forall l | l in mask :: Bit(tcc, l) == k.flag(l, trace[l] + [top])
    ensures Follows(k.Decoded(top, tcc), mask, pc, trace, top, k.Lanes())
  {
    hide Bit, Wrap;
    forall l | l in mask
      ensures k.Decide(l, trace[l] + [top])
              == if k.Decoded(top, tcc).opcode.TExit? then R.Exit else R.Goto(NextPc(k.Decoded(top, tcc), mask, pc, l))
    {
      assert IsMin(Leader(mask), mask);
      assert pc[Leader(mask)] == top;
    }
  }

  /** What a warp that has run `cs` from its launch is in: a run of `SimtRun` with null counters. */
  ghost predicate Reached(u: WarpUnit, k: Kernel, trace: map<nat, seq<nat>>, ws: seq<R.Warp>, cs: seq<R.Choice>)
    requires u.Valid()
    reads u, u.warp, u.threads
  {
    && R.IsRun(k.Lanes(), ws, cs) && R.StartsAtLaunch(ws) && ws[0].startPc == 0 && ws[0].lanes == u.threads.lanes
    && ws[|cs|] == State(u, trace) && Flat(ws[|cs|])
  }

  lemma LiveMeansStack(u: WarpUnit)
    requires u.Valid() && u.threads.liveThreads > 0
    ensures u.warp.stack != []
  {
    assert u.threads.lanes - u.threads.Done() != {};
    var l: nat :| l in u.threads.lanes - u.threads.Done();
    assert Standing(u.warp.stack, l, u.threads.pc[l]);
  }

  /** In a reached state the next instruction meets what the step asks: no active lane is done, all
      stand at the top's counter, and the null argument is well formed. */
  lemma ReachedCanStep(u: WarpUnit, k: Kernel, trace: map<nat, seq<nat>>, ws: seq<R.Warp>, cs: seq<R.Choice>)
    requires u.Valid() && u.warp.stack != [] && Reached(u, k, trace, ws, cs)
    ensures trace.Keys == u.threads.lanes && Top(u.warp.stack).mask <= u.threads.lanes
    ensures Top(u.warp.stack).mask !! u.threads.Done()
    ensures forall l | l in Top(u.warp.stack).mask :: u.threads.pc[l] == Top(u.warp.stack).pc
    ensures forall tcc :: WellFormedRecvg(u.warp.stack, u.NextIssue(k.Decoded(Top(u.warp.stack).pc, tcc)))
  {
    hide NextStack, Shape, R.LaneRefines, R.IsRun, Issued, Asserts, WellFormedRecvg;
    TraceKeys(k.Lanes(), ws, cs);
    var s, threads := u.warp.stack, u.threads;
    assert Top(s).mask !! threads.Done();
    forall tcc ensures WellFormedRecvg(s, u.NextIssue(k.Decoded(Top(s).pc, tcc))) {
      var inst := k.Decoded(Top(s).pc, tcc);
      IssueIsAccepted(s, inst, threads.lanes, threads.pc, threads.done);
      NullIsWellFormed(s, u.NextIssue(inst));
    }
    IssueIsAccepted(s, k.Decoded(Top(s).pc, 0), threads.lanes, threads.pc, threads.done);
  }

  lemma NullIsWellFormed(s: seq<Entry>, i: Issue)
    requires Asserts(s, i) && NoneRejoin(s)
    ensures WellFormedRecvg(s, i)
  {
  }

  lemma TraceKeys(prog: R.Program, ws: seq<R.Warp>, cs: seq<R.Choice>)
    requires R.IsRun(prog, ws, cs) && R.StartsAtLaunch(ws)
    ensures ws[|cs|].trace.Keys == ws[|cs|].lanes
  {
    R.RunInv(prog, ws, cs, |cs|);
  }

  lemma StaysFlat(prog: R.Program, ws: seq<R.Warp>, cs: seq<R.Choice>, c: R.Choice)
    requires R.IsRun(prog, ws, cs) && R.StartsAtLaunch(ws) && Flat(ws[|cs|])
    requires R.StepOk(ws[|cs|], prog, c) && c.recvg == NULL_PC && !c.op.CallOp?
    ensures Flat(R.Step(ws[|cs|], prog, c))
  {
    hide R.Inv, R.Step, R.IsRun, R.StartsAtLaunch, Flat, NextStack;
    RunLength(prog, ws, cs);
    R.RunInv(prog, ws, cs, |cs|);
    NullStepIsStep(ws[|cs|], prog, c);
  }

  lemma RunExtends(prog: R.Program, ws: seq<R.Warp>, cs: seq<R.Choice>, c: R.Choice, w: R.Warp)
    requires R.IsRun(prog, ws, cs) && R.StartsAtLaunch(ws)
    requires R.StepOk(ws[|cs|], prog, c) && w == R.Step(ws[|cs|], prog, c)
    ensures R.IsRun(prog, ws + [w], cs + [c]) && R.StartsAtLaunch(ws + [w])
  {
    hide R.Step, R.Issuable, WellFormedRecvg, R.Launch;
  }

  /** A run with null counters goes on by one step. */
  lemma RunGrows(prog: R.Program, ws: seq<R.Warp>, cs: seq<R.Choice>, c: R.Choice, w: R.Warp)
    requires R.IsRun(prog, ws, cs) && R.StartsAtLaunch(ws) && Flat(ws[|cs|])
    requires R.StepOk(ws[|cs|], prog, c) && c.recvg == NULL_PC && !c.op.CallOp? && w == R.Step(ws[|cs|], prog, c)
    ensures R.IsRun(prog, ws + [w], cs + [c]) && R.StartsAtLaunch(ws + [w]) && Flat(w)
    ensures (ws + [w])[0] == ws[0] && (ws + [w])[|cs + [c]|] == w
  {
    hide R.Step, R.StepOk, R.IsRun, R.StartsAtLaunch, Flat;
    RunLength(prog, ws, cs);
    StaysFlat(prog, ws, cs, c);
    RunExtends(prog, ws, cs, c, w);
  }

  /** One instruction of a kernel, decoded from what stands at the top's counter and the condition
      register. */
  method IssueStep(u: WarpUnit, tcc: bv32, inst: Instruction, trace: map<nat, seq<nat>>, ghost k: Kernel,
                   ghost ws: seq<R.Warp>, ghost cs: seq<R.Choice>)
    returns (trace': map<nat, seq<nat>>, ghost ws': seq<R.Warp>, ghost cs': seq<R.Choice>)
    requires u.Valid() && u.warp.stack != [] && Reached(u, k, trace, ws, cs)
    requires inst == k.Decoded(Top(u.warp.stack).pc, tcc)
    requires forall l | l in Top(u.warp.stack).mask && l in trace ::
               Bit(tcc, l) == k.flag(l, trace[l] + [Top(u.warp.stack).pc])
    modifies u.warp, u.threads
    ensures u.Valid() && Reached(u, k, trace', ws', cs') && |cs'| == |cs| + 1
    ensures Asserts(old(u.warp.stack), old(u.NextIssue(inst)))
    ensures u.warp.stack == NextStack(old(u.warp.stack), old(u.NextIssue(inst)))
    ensures trace'.Keys == trace.Keys == u.threads.lanes
    ensures forall l | l in trace ::
              trace'[l] == if l in Top(old(u.warp.stack)).mask then trace[l] + [Top(old(u.warp.stack)).pc] else trace[l]
  {
    hide WellFormedRecvg, NextStack, Asserts, Agree, Follows, R.IsRun, R.StartsAtLaunch, R.StepOk, R.Step, Flat, Bit;
    hide Snapshot;
    var top := u.warp.stack[|u.warp.stack| - 1];
    ReachedCanStep(u, k, trace, ws, cs);
    DecodedFollows(k, top.mask, u.threads.pc, trace, top.pc, tcc);
    RunLength(k.Lanes(), ws, cs);
    trace' := ExecuteStep(u, inst, trace, k.Lanes());
    RunGrows(k.Lanes(), ws, cs, ChoiceOf(inst), State(u, trace'));
    ws', cs' := ws + [State(u, trace')], cs + [ChoiceOf(inst)];
  }

  /** One turn of the loop of `ThreadBlock::execute`. */
  method RunStep(u: WarpUnit, k: Kernel, trace: map<nat, seq<nat>>, ghost ws: seq<R.Warp>, ghost cs: seq<R.Choice>)
    returns (trace': map<nat, seq<nat>>, ghost ws': seq<R.Warp>, ghost cs': seq<R.Choice>)
    requires u.Valid() && u.threads.warpSize <= 32 && u.threads.liveThreads > 0 && Reached(u, k, trace, ws, cs)
    modifies u.warp, u.threads
    ensures u.Valid() && Reached(u, k, trace', ws', cs') && |cs'| == |cs| + 1
  {
    hide Reached, Agree, Bit;
    LiveMeansStack(u);
    var top := u.warp.stack[|u.warp.stack| - 1];
    ReachedCanStep(u, k, trace, ws, cs);
    var tcc := ConditionRegister(k, u.threads.warpSize, top.mask, top.pc, trace);
    trace', ws', cs' := IssueStep(u, tcc, k.Decoded(top.pc, tcc), trace, k, ws, cs);
  }

  lemma RunLength(prog: R.Program, ws: seq<R.Warp>, cs: seq<R.Choice>)
    requires R.IsRun(prog, ws, cs)
    ensures |ws| == |cs| + 1
  {
  }

  /** A lane that has exited has done all it does alone. */
  lemma {:induction false} ExitedIsAll(prog: R.Program, l: nat, h: seq<nat>, b: nat)
    requires h == R.Alone(prog, l, 0, |h|) && R.AloneAt(prog, l, 0, h).Exit? && R.ExitsWithin(prog, l, 0, b)
    ensures h == R.Alone(prog, l, 0, b)
  {
    assert R.ExitsWithin(prog, l, 0, |h|);
    if |h| <= b {
      R.AloneLength(prog, l, 0, |h|, b);
    } else {
      R.AloneLength(prog, l, 0, b, |h|);
    }
  }

  lemma LaunchReached(u: WarpUnit, k: Kernel, trace: map<nat, seq<nat>>, w: R.Warp)
    requires u.Valid() && u.threads.lanes != {} && u.warp.stack == LaunchStack(0, u.threads.lanes)
    requires u.threads.Done() == {} && forall l | l in u.threads.lanes :: u.threads.pc[l] == 0
    requires trace == map l | l in u.threads.lanes :: []
    requires w == State(u, trace)
    ensures Reached(u, k, trace, [w], [])
  {
    assert w.pc == map l | l in u.threads.lanes :: 0;
    assert w == R.Launch(w.lanes, 0, w.width);
  }

  /** The loop of `ThreadBlock::execute` for one warp, started at launch: for every kernel whose lanes
      alone exit within `b` instructions it comes to an end, with all lanes done and the stack empty, and
      each lane has executed exactly what it executes alone. */
  method RunKernel(u: WarpUnit, k: Kernel, ghost b: nat) returns (trace: map<nat, seq<nat>>)
    requires u.Valid() && u.threads.warpSize <= 32 && u.threads.lanes != {}
    requires u.warp.stack == LaunchStack(0, u.threads.lanes) && u.threads.Done() == {}
    requires forall l | l in u.threads.lanes :: u.threads.pc[l] == 0
    requires forall l | l in u.threads.lanes :: R.ExitsWithin(k.Lanes(), l, 0, b)
    modifies u.warp, u.threads
    ensures u.Valid() && u.threads.liveThreads == 0 && u.threads.Done() == u.threads.lanes && u.warp.stack == []
    ensures trace.Keys == u.threads.lanes
    ensures forall l | l in trace :: trace[l] == R.Alone(k.Lanes(), l, 0, b)
  {
    hide Agree, R.IsRun, R.StartsAtLaunch, R.ExitsWithin, Flat;
    trace := map l | l in u.threads.lanes :: [];
    ghost var ws, cs := [State(u, trace)], [];
    LaunchReached(u, k, trace, ws[0]);
    R.RunTerminates(k.Lanes(), ws, cs, b);
    while u.threads.liveThreads > 0
      invariant u.Valid() && Reached(u, k, trace, ws, cs)
      invariant |cs| <= |u.threads.lanes| * b
      decreases |u.threads.lanes| * b - |cs|
    {
      trace, ws, cs := RunStep(u, k, trace, ws, cs);
      R.RunTerminates(k.Lanes(), ws, cs, b);
    }
    AllDone(u, k, trace, ws, cs, b);
  }

  /** When no live lane is counted. */
  lemma AllDone(u: WarpUnit, k: Kernel, trace: map<nat, seq<nat>>, ws: seq<R.Warp>, cs: seq<R.Choice>, b: nat)
    requires u.Valid() && u.threads.liveThreads <= 0 && Reached(u, k, trace, ws, cs)
    requires forall l | l in u.threads.lanes :: R.ExitsWithin(k.Lanes(), l, 0, b)
    ensures u.threads.liveThreads == 0 && u.threads.Done() == u.threads.lanes && u.warp.stack == []
    ensures trace.Keys == u.threads.lanes && forall l | l in trace :: trace[l] == R.Alone(k.Lanes(), l, 0, b)
  {
    hide Agree, R.IsRun, R.StartsAtLaunch, R.ExitsWithin, R.Inv;
    var n, lanes := |cs|, u.threads.lanes;
    TraceKeys(k.Lanes(), ws, cs);
    assert lanes - u.threads.Done() == {};
    assert u.threads.Done() == lanes;
    RunLength(k.Lanes(), ws, cs);
    R.RunInv(k.Lanes(), ws, cs, n);
    NothingStored(ws[n], k.Lanes());
    forall l | l in trace ensures trace[l] == R.Alone(k.Lanes(), l, 0, b) {
      R.RunRefinesLanes(k.Lanes(), ws, cs, n, l);
      ExitedIsAll(k.Lanes(), l, trace[l], b);
    }
  }

  lemma NothingStored(w: R.Warp, prog: R.Program)
    requires R.Inv(w, prog) && Flat(w) && w.done == w.lanes
    ensures w.stack == []
  {
    if w.stack != [] {
      HoldsSome(w.stack, w.lanes);
    }
  }

  lemma HoldsSome(s: seq<Entry>, lanes: set<nat>)
    requires MasksWithin(s, lanes) && s != []
    ensures !NoFinishedLane(s, lanes)
  {
    assert s[0].mask * lanes == s[0].mask;
  }
}
