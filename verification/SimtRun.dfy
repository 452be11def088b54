/** Whole runs of one warp: lock-step execution with the reconvergence stack against each lane
    running its own program alone. */
module SimtRun {
  import opened SimtStack
  import opened SimtAgreement
  import opened SimtShape
  import opened SimtParents
  import opened SimtFrame
  import opened Words

  /** A lane's program counter is 32 bits wide (`ThreadItem::m_PC`). */
  datatype Outcome = Goto(pc: Word) | Exit

  /** What lane `l` does after executing the instructions at the program counters in the history,
      oldest first: any deterministic behaviour of the lane on its own.  (Under a scalar conditional
      branch a lane's behaviour depends on whether it leads; see `AsAloneIff` in ThreadBlock.dfy.) */
  type Program = (nat, seq<nat>) -> Outcome

  /** What the instruction being issued brings with it besides the lanes' own outcomes. */
  datatype Choice = Choice(recvg: nat, op: OpType, size: nat)

  /** `done` lanes have exited; `trace` is what each lane has executed so far. */
  datatype Warp = Warp(lanes: set<nat>, startPc: Word, width: nat, stack: seq<Entry>, pc: map<nat, nat>,
                       done: set<nat>, trace: map<nat, seq<nat>>)

  function Launch(lanes: set<nat>, startPc: Word, width: nat): Warp {
    var pc := map l | l in lanes :: startPc as nat;
    Warp(lanes, startPc, width, LaunchStack(startPc, lanes), pc, {}, map l | l in lanes :: [])
  }

  // ---------- one warp instruction ----------

  /** Every active lane executes the instruction at the top entry's program counter. */
  function Executed(w: Warp): map<nat, seq<nat>>
    requires w.stack != [] && Top(w.stack).mask <= w.trace.Keys
  {
    map l | l in w.trace :: if l in Top(w.stack).mask then w.trace[l] + [Top(w.stack).pc] else w.trace[l]
  }

  function After(w: Warp, prog: Program): map<nat, Outcome>
    requires w.stack != [] && Top(w.stack).mask <= w.trace.Keys
  {
    var t := Executed(w);
    map l | l in Top(w.stack).mask :: prog(l, t[l])
  }

  function DoneAfter(w: Warp, prog: Program): set<nat>
    requires w.stack != [] && Top(w.stack).mask <= w.trace.Keys
  {
    w.done + set l | l in Top(w.stack).mask && After(w, prog)[l].Exit?
  }

  /** Active lanes go where they decide; one that exits still moves on to the next instruction. */
  function PcAfter(w: Warp, prog: Program, size: nat): map<nat, nat>
    requires w.stack != [] && Top(w.stack).mask <= w.trace.Keys
  {
    var a := After(w, prog);
    map l | l in w.pc ::
      if l !in a then w.pc[l] else if a[l].Goto? then a[l].pc as nat else Wrap(Top(w.stack).pc + size)
  }

  /** The vectors that `ThreadBlock::updateSIMTStack` collects. */
  function Collected(w: Warp, prog: Program, c: Choice): Issue
    requires w.stack != [] && Top(w.stack).mask <= w.trace.Keys
  {
    var done := DoneAfter(w, prog);
    var pc := PcAfter(w, prog, c.size);
    var next := seq(w.width, l => if l in pc && l !in done then pc[l] else NULL_PC);
    Issue(done, next, c.recvg, c.op, c.size, Top(w.stack).pc)
  }

  /** The assertions of `Warp::update` hold. */
  ghost predicate Issuable(w: Warp, prog: Program, c: Choice) {
    w.stack != [] && Top(w.stack).mask <= w.trace.Keys && Asserts(w.stack, Collected(w, prog, c))
  }

  /** The step is one the source carries out: no active lane is done (asserted by
      `ThreadItem::Execute`), the assertions of `Warp::update` hold, and the reconvergence
      argument is well formed. */
  ghost predicate StepOk(w: Warp, prog: Program, c: Choice) {
    && Issuable(w, prog, c)
    && Top(w.stack).mask !! w.done
    && WellFormedRecvg(w.stack, Collected(w, prog, c))
  }

  ghost function Step(w: Warp, prog: Program, c: Choice): Warp
    requires Issuable(w, prog, c)
  {
    w.(stack := NextStack(w.stack, Collected(w, prog, c)), pc := PcAfter(w, prog, c.size),
       done := DoneAfter(w, prog), trace := Executed(w))
  }

  // ---------- a lane alone ----------

  /** Where lane `l` stands after history `h`; None once it has exited. */
  function AloneAt(prog: Program, l: nat, startPc: Word, h: seq<nat>): Outcome {
    if h == [] then Goto(startPc) else prog(l, h)
  }

  /** The first `n` program counters lane `l` executes when it runs alone (fewer if it exits). */
  function Alone(prog: Program, l: nat, startPc: Word, n: nat): seq<nat> {
    if n == 0 then []
    else
      var h := Alone(prog, l, startPc, n - 1);
      match AloneAt(prog, l, startPc, h)
      case Goto(pc) => h + [pc]
      case Exit => h
  }

  // ---------- the invariant ----------

  ghost predicate LaneRefines(w: Warp, prog: Program, l: nat)
    requires l in w.trace && l in w.pc
  {
    && w.trace[l] == Alone(prog, l, w.startPc, |w.trace[l]|)
    && if l in w.done then AloneAt(prog, l, w.startPc, w.trace[l]).Exit?
       else w.pc[l] < WORD && AloneAt(prog, l, w.startPc, w.trace[l]) == Goto(w.pc[l])
  }

  ghost predicate Inv(w: Warp, prog: Program) {
    && w.trace.Keys == w.lanes && w.pc.Keys == w.lanes && w.done <= w.lanes
    && (forall l | l in w.lanes :: l < w.width)
    && Shape(w.stack, w.lanes) && MasksNest(w.stack) && CallsNeverRejoin(w.stack) && Parented(w.stack)
    && (forall l | l in w.lanes - w.done :: Standing(w.stack, l, w.pc[l]))
    && forall l | l in w.lanes :: LaneRefines(w, prog, l)
  }

  lemma LaunchInv(lanes: set<nat>, startPc: Word, width: nat, prog: Program)
    requires lanes != {} && forall l | l in lanes :: l < width
    ensures Inv(Launch(lanes, startPc, width), prog)
  {
  }

  /** What is left of the update's assertions: the lanes decide for at most two counters, and for one
      only when they call or return. */
  lemma IssuableIff(w: Warp, prog: Program, c: Choice)
    requires Inv(w, prog) && w.stack != [] && Top(w.stack).mask !! w.done
    ensures Top(w.stack).mask <= w.trace.Keys
    ensures var paths := Paths(Live(w.stack, Collected(w, prog, c)), Collected(w, prog, c));
            Issuable(w, prog, c)
            <==> |paths| <= 2 && (c.op.CallOp? || Returning(w.stack, Collected(w, prog, c)) ==> |paths| <= 1)
  {
    hide Shape, MasksNest, Parented, CallsNeverRejoin, LaneRefines;
    ShapeNonEmpty(w.stack, w.lanes);
    ShapeWithin(w.stack, w.lanes);
    var i := Collected(w, prog, c);
    forall l | l in Live(w.stack, i) ensures i.Target(l) != NULL_PC {
      assert After(w, prog)[l].Goto?;
    }
    if Returning(w.stack, i) {
      var l :| l in Top(w.stack).mask;
      assert Standing(w.stack, l, w.pc[l]);
      assert Waiting(Pop(w.stack), l, Top(w.stack).kind, Top(w.stack).rpc);
    }
  }

  lemma StepLane(w: Warp, prog: Program, c: Choice, l: nat)
    requires Inv(w, prog) && StepOk(w, prog, c) && l in w.lanes
    ensures LaneRefines(Step(w, prog, c), prog, l)
  {
    if l in Top(w.stack).mask {
      StandingPc(w.stack, l, w.pc[l]);
      var h := w.trace[l];
      assert Alone(prog, l, w.startPc, |h| + 1) == h + [w.pc[l]];
    }
  }

  lemma CollectedTarget(w: Warp, prog: Program, c: Choice, l: nat)
    requires Inv(w, prog) && StepOk(w, prog, c) && l in w.lanes - DoneAfter(w, prog)
    ensures LanePc(w.stack, Collected(w, prog, c), l, w.pc[l]) == PcAfter(w, prog, c.size)[l]
  {
  }

  lemma StepStanding(w: Warp, prog: Program, c: Choice, l: nat)
    requires Inv(w, prog) && StepOk(w, prog, c) && l in w.lanes - Step(w, prog, c).done
    ensures Standing(Step(w, prog, c).stack, l, Step(w, prog, c).pc[l])
  {
    UpdateKeepsStanding(w.stack, Collected(w, prog, c), l, w.pc[l]);
    CollectedTarget(w, prog, c, l);
  }

  lemma StepInv(w: Warp, prog: Program, c: Choice)
    requires Inv(w, prog) && StepOk(w, prog, c)
    ensures Inv(Step(w, prog, c), prog)
  {
    hide Standing, Shape, CallsNeverRejoin, LaneRefines, NextStack, MasksNest, Parented;
    var i := Collected(w, prog, c);
    var w' := Step(w, prog, c);
    UpdateKeepsShape(w.stack, i, w.lanes);
    UpdateKeepsNesting(w.stack, i);
    UpdateKeepsCallsNeverRejoin(w.stack, i);
    ShapeNonEmpty(w.stack, w.lanes);
    UpdateKeepsParents(w.stack, i);
    forall l | l in w.lanes - w'.done ensures Standing(w'.stack, l, w'.pc[l]) {
      StepStanding(w, prog, c, l);
    }
    forall l | l in w.lanes ensures LaneRefines(w', prog, l) {
      StepLane(w, prog, c, l);
    }
  }

  // ---------- whole runs ----------

  ghost predicate IsRun(prog: Program, ws: seq<Warp>, cs: seq<Choice>) {
    && |ws| == |cs| + 1
    && forall k | 0 <= k < |cs| :: StepOk(ws[k], prog, cs[k]) && ws[k + 1] == Step(ws[k], prog, cs[k])
  }

  ghost predicate StartsAtLaunch(ws: seq<Warp>) {
    && ws != [] && ws[0].lanes != {} && (forall l | l in ws[0].lanes :: l < ws[0].width)
    && ws[0] == Launch(ws[0].lanes, ws[0].startPc, ws[0].width)
  }

  lemma {:induction false} RunInv(prog: Program, ws: seq<Warp>, cs: seq<Choice>, n: nat)
    requires IsRun(prog, ws, cs) && StartsAtLaunch(ws) && n < |ws|
    ensures Inv(ws[n], prog) && ws[n].lanes == ws[0].lanes
    ensures ws[n].startPc == ws[0].startPc && ws[n].width == ws[0].width
  {
    if n == 0 {
      LaunchInv(ws[0].lanes, ws[0].startPc, ws[0].width, prog);
    } else {
      RunInv(prog, ws, cs, n - 1);
      StepInv(ws[n - 1], prog, cs[n - 1]);
    }
  }

  /** Refinement: in every run from launch, with calls, returns and exits anywhere, each lane has
      executed exactly what it executes alone, and each lane that is not done stands at the program
      counter of the topmost entry that contains it. */
  lemma RunRefinesLanes(prog: Program, ws: seq<Warp>, cs: seq<Choice>, n: nat, l: nat)
    requires IsRun(prog, ws, cs) && StartsAtLaunch(ws) && n < |ws| && l in ws[0].lanes
    ensures l in ws[n].trace && ws[n].trace[l] == Alone(prog, l, ws[0].startPc, |ws[n].trace[l]|)
    ensures l in ws[n].done <==> AloneAt(prog, l, ws[0].startPc, ws[n].trace[l]).Exit?
    ensures l !in ws[n].done ==>
              l in ws[n].pc && StackPc(ws[n].stack, l) == ws[n].pc[l] < WORD
              && AloneAt(prog, l, ws[0].startPc, ws[n].trace[l]) == Goto(ws[n].pc[l])
  {
    RunInv(prog, ws, cs, n);
    if l !in ws[n].done {
      StandingPc(ws[n].stack, l, ws[n].pc[l]);
    }
  }

  /** In every reachable state any two masks are nested or disjoint, across calls as well, and below a
      branch entry the nearest entry that shares a lane with it waits at its reconvergence point. */
  lemma RunNestsAndMatches(prog: Program, ws: seq<Warp>, cs: seq<Choice>, n: nat)
    requires IsRun(prog, ws, cs) && StartsAtLaunch(ws) && n < |ws|
    ensures var s := ws[n].stack;
            && (forall a: nat, b: nat | a < b < |s| :: s[a].mask !! s[b].mask || s[b].mask <= s[a].mask)
            && (forall j: nat, k: nat | Nearest(s, j, k) && s[k].kind.Normal? && s[k].rpc != NULL_PC ::
                  s[j].pc == s[k].rpc && s[k].mask <= s[j].mask)
            && (forall k: nat | k < |s| && s[k].kind.Normal? && s[k].rpc != NULL_PC ::
                  s[k].pc != s[k].rpc && exists j: nat :: Nearest(s, j, k))
  {
    hide IsRun, LaneRefines, Standing;
    RunInv(prog, ws, cs, n);
    var s := ws[n].stack;
    assert forall a: nat, b: nat | a < b < |s| :: InsideOrApart(s[a].mask, s[b].mask);
    forall k: nat | k < |s| && Branches(s[k]) ensures s[k].pc != s[k].rpc && exists j: nat :: Nearest(s, j, k) {
      assert HasParent(s, k);
    }
    forall j: nat, k: nat | Nearest(s, j, k) && Branches(s[k])
      ensures s[j].pc == s[k].rpc && s[k].mask <= s[j].mask
    {
      ParentMatches(s, j, k);
    }
  }

  /** When the stack has run empty every lane has run its own program to its exit. */
  lemma EmptyStackMeansAllExited(prog: Program, ws: seq<Warp>, cs: seq<Choice>, n: nat)
    requires IsRun(prog, ws, cs) && StartsAtLaunch(ws) && n < |ws| && ws[n].stack == []
    ensures ws[n].done == ws[0].lanes
    ensures forall l | l in ws[0].lanes ::
              l in ws[n].trace && AloneAt(prog, l, ws[0].startPc, ws[n].trace[l]).Exit?
  {
    RunInv(prog, ws, cs, n);
    assert forall l: nat, pc: nat :: !Standing([], l, pc);
  }

  /** The stack never holds more than `2 * lanes - 1` entries for the kernel and each call in progress. */
  lemma RunHeight(prog: Program, ws: seq<Warp>, cs: seq<Choice>, n: nat)
    requires IsRun(prog, ws, cs) && StartsAtLaunch(ws) && n < |ws|
    ensures |ws[n].stack| <= (CallDepth(ws[n].stack) + 1) * (2 * |ws[0].lanes| - 1)
  {
    hide IsRun, Shape, LaneRefines;
    RunInv(prog, ws, cs, n);
    HeightBound(ws[n].stack, ws[0].lanes);
  }

  // ---------- call-free runs ----------

  ghost predicate CallFree(s: seq<Entry>) {
    forall k | 0 <= k < |s| :: s[k].kind.Normal?
  }

  lemma StepCallFree(s: seq<Entry>, i: Issue)
    requires Asserts(s, i) && CallFree(s) && !i.op.CallOp?
    ensures CallFree(NextStack(s, i))
  {
  }

  lemma {:induction false} CallFreeDepth(s: seq<Entry>)
    requires CallFree(s)
    ensures CallDepth(s) == 0
  {
    if s != [] {
      CallFreeDepth(Pop(s));
    }
  }

  lemma {:induction false} RunCallFree(prog: Program, ws: seq<Warp>, cs: seq<Choice>, n: nat)
    requires IsRun(prog, ws, cs) && StartsAtLaunch(ws) && n < |ws|
    requires forall k | 0 <= k < n :: !cs[k].op.CallOp?
    ensures CallFree(ws[n].stack)
  {
    if n > 0 {
      RunCallFree(prog, ws, cs, n - 1);
      StepCallFree(ws[n - 1].stack, Collected(ws[n - 1], prog, cs[n - 1]));
    }
  }

  /** In a call-free run the stored masks are non-empty and distinct, and there are at most
      `2 * lanes - 1` of them. */
  lemma CallFreeHeight(prog: Program, ws: seq<Warp>, cs: seq<Choice>, n: nat)
    requires IsRun(prog, ws, cs) && StartsAtLaunch(ws) && n < |ws|
    requires forall k | 0 <= k < n :: !cs[k].op.CallOp?
    ensures |ws[n].stack| <= 2 * |ws[0].lanes| - 1
    ensures forall a: nat | a < |ws[n].stack| :: ws[n].stack[a].mask != {}
    ensures forall a: nat, b: nat | a < b < |ws[n].stack| :: ws[n].stack[a].mask != ws[n].stack[b].mask
  {
    hide IsRun, Shape, LaneRefines;
    RunCallFree(prog, ws, cs, n);
    RunInv(prog, ws, cs, n);
    CallFreeDepth(ws[n].stack);
    HeightBound(ws[n].stack, ws[0].lanes);
    CallFreeDistinct(ws[n].stack, ws[0].lanes);
    ShapeNonEmpty(ws[n].stack, ws[0].lanes);
  }

  lemma CallFreeDistinct(s: seq<Entry>, lanes: set<nat>)
    requires CallFree(s) && Shape(s, lanes)
    ensures forall a: nat, b: nat | a < b < |s| :: s[a].mask != s[b].mask
  {
    forall a: nat, b: nat | a < b < |s| ensures s[a].mask != s[b].mask {
      assert SameFrame(s, a, b);
    }
  }

  // ---------- termination ----------

  ghost predicate ExitsWithin(prog: Program, l: nat, startPc: Word, b: nat) {
    AloneAt(prog, l, startPc, Alone(prog, l, startPc, b)).Exit?
  }

  lemma {:induction false} AloneLength(prog: Program, l: nat, startPc: Word, b: nat, n: nat)
    requires ExitsWithin(prog, l, startPc, b)
    ensures |Alone(prog, l, startPc, n)| <= b && (n >= b ==> Alone(prog, l, startPc, n) == Alone(prog, l, startPc, b))
  {
    if n > 0 {
      AloneLength(prog, l, startPc, b, n - 1);
    }
    if n <= b {
      AloneAtMost(prog, l, startPc, n);
    }
  }

  lemma {:induction false} AloneAtMost(prog: Program, l: nat, startPc: Word, n: nat)
    ensures |Alone(prog, l, startPc, n)| <= n
  {
    if n > 0 {
      AloneAtMost(prog, l, startPc, n - 1);
    }
  }

  /** Instructions executed so far by the lanes below `k`. */
  function Work(trace: map<nat, seq<nat>>, k: nat): nat {
    if k == 0 then 0 else Work(trace, k - 1) + if k - 1 in trace then |trace[k - 1]| else 0
  }

  lemma {:induction false} WorkBound(trace: map<nat, seq<nat>>, k: nat, b: nat)
    requires forall l | l in trace :: |trace[l]| <= b
    ensures Work(trace, k) <= |set l | l in trace && l < k| * b
  {
    if k > 0 {
      WorkBound(trace, k - 1, b);
      var below := set l | l in trace && l < k - 1;
      var upTo := set l | l in trace && l < k;
      if k - 1 in trace {
        assert upTo == below + {k - 1};
        assert (|below| + 1) * b == |below| * b + b;
      } else {
        assert upTo == below;
      }
    }
  }

  lemma {:induction false} WorkGrows(before: map<nat, seq<nat>>, after: map<nat, seq<nat>>, k: nat)
    requires before.Keys == after.Keys && forall l | l in before :: |before[l]| <= |after[l]|
    ensures Work(before, k) <= Work(after, k)
    ensures (exists l | l in before :: l < k && |before[l]| < |after[l]|) ==> Work(before, k) < Work(after, k)
  {
    if k > 0 {
      WorkGrows(before, after, k - 1);
    }
  }

  lemma {:induction false} RunWork(prog: Program, ws: seq<Warp>, cs: seq<Choice>, n: nat)
    requires IsRun(prog, ws, cs) && StartsAtLaunch(ws) && n < |ws|
    ensures n <= Work(ws[n].trace, ws[0].width)
  {
    hide Inv, Step, Executed, StepOk, Work;
    if n > 0 {
      RunWork(prog, ws, cs, n - 1);
      RunInv(prog, ws, cs, n - 1);
      StepWork(ws[n - 1], prog, cs[n - 1]);
    }
  }

  lemma StepWork(w: Warp, prog: Program, c: Choice)
    requires Inv(w, prog) && StepOk(w, prog, c)
    ensures Work(w.trace, w.width) < Work(Step(w, prog, c).trace, w.width)
  {
    hide Shape, LaneRefines, NextStack, Asserts, WellFormedRecvg;
    var l := SomeActiveLane(w, prog, c);
    var after := Executed(w);
    assert l in w.trace && l < w.width && |w.trace[l]| < |after[l]|;
    WorkGrows(w.trace, after, w.width);
  }

  lemma SomeActiveLane(w: Warp, prog: Program, c: Choice) returns (l: nat)
    requires Inv(w, prog) && StepOk(w, prog, c)
    ensures l in Top(w.stack).mask && l in w.lanes
  {
    l :| l in Top(w.stack).mask;
  }

  /** If every lane alone exits within `b` instructions, no run of the warp is longer than `lanes * b`. */
  lemma RunTerminates(prog: Program, ws: seq<Warp>, cs: seq<Choice>, b: nat)
    requires IsRun(prog, ws, cs) && StartsAtLaunch(ws)
    requires forall l | l in ws[0].lanes :: ExitsWithin(prog, l, ws[0].startPc, b)
    ensures |cs| <= |ws[0].lanes| * b
  {
    var w := ws[|cs|];
    RunInv(prog, ws, cs, |cs|);
    RunWork(prog, ws, cs, |cs|);
    forall l | l in w.trace ensures |w.trace[l]| <= b {
      AloneLength(prog, l, w.startPc, b, |w.trace[l]|);
    }
    WorkBound(w.trace, w.width, b);
    assert (set l | l in w.trace && l < w.width) == w.lanes;
  }

  // ---------- reconvergence and exits along a run ----------

  lemma RunStackReconverges(prog: Program, ws: seq<Warp>, cs: seq<Choice>, a: nat, n: nat)
    requires IsRun(prog, ws, cs) && a < n < |ws|
    requires OpensReconvergence(ws[a].stack, Issued(prog, ws, cs, a))
    requires forall k | a < k < n :: |ws[k].stack| > |ws[a].stack|
    requires |ws[n].stack| <= |ws[a].stack|
    ensures ws[n].stack == Reconverged(ws[a].stack, Issued(prog, ws, cs, a))
  {
    hide NextStack, OpensReconvergence, Asserts;
    var ss := seq(n - a + 1, k requires 0 <= k <= n - a => ws[a + k].stack);
    var issues := seq(n - a, k requires 0 <= k < n - a => Issued(prog, ws, cs, a + k));
    forall k | 0 <= k < |issues| ensures Asserts(ss[k], issues[k]) && ss[k + 1] == NextStack(ss[k], issues[k]) {
      assert StepOk(ws[a + k], prog, cs[a + k]) && ws[a + k + 1] == Step(ws[a + k], prog, cs[a + k]);
      assert ss[k] == ws[a + k].stack && ss[k + 1] == ws[a + (k + 1)].stack && issues[k] == Issued(prog, ws, cs, a + k);
    }
    ReconvergenceRestores(ss, issues, n - a);
  }

  /** When the stack first comes back to its height before a divergence, every lane of the diverged
      entry that is not done stands at the reconvergence point. */
  lemma RunReconverges(prog: Program, ws: seq<Warp>, cs: seq<Choice>, a: nat, n: nat)
    requires IsRun(prog, ws, cs) && StartsAtLaunch(ws) && a < n < |ws|
    requires OpensReconvergence(ws[a].stack, Issued(prog, ws, cs, a))
    requires forall k | a < k < n :: |ws[k].stack| > |ws[a].stack|
    requires |ws[n].stack| <= |ws[a].stack|
    ensures ws[n].stack == Reconverged(ws[a].stack, Issued(prog, ws, cs, a))
    ensures forall l | l in Top(ws[a].stack).mask - ws[n].done :: l in ws[n].pc && ws[n].pc[l] == cs[a].recvg
  {
    hide NextStack, OpensReconvergence, Shape, LaneRefines, StepOk;
    RunStackReconverges(prog, ws, cs, a, n);
    RunInv(prog, ws, cs, a);
    RunInv(prog, ws, cs, n);
    TopStands(ws[n], prog);
    assert Top(ws[n].stack).pc == cs[a].recvg && Top(ws[n].stack).mask == Top(ws[a].stack).mask;
  }

  lemma TopStands(w: Warp, prog: Program)
    requires Inv(w, prog) && w.stack != []
    ensures forall l | l in Top(w.stack).mask - w.done :: l in w.pc && w.pc[l] == Top(w.stack).pc
  {
    forall l | l in Top(w.stack).mask - w.done ensures l in w.pc && w.pc[l] == Top(w.stack).pc {
      assert l in w.lanes - w.done;
      StandingPc(w.stack, l, w.pc[l]);
    }
  }

  /** The update issued by step `k` of a run. */
  function Issued(prog: Program, ws: seq<Warp>, cs: seq<Choice>, k: nat): Issue
    requires k < |cs| && k < |ws| && ws[k].stack != [] && Top(ws[k].stack).mask <= ws[k].trace.Keys
  {
    Collected(ws[k], prog, cs[k])
  }
}
