/** One warp instruction as `ThreadBlock::executeWarp` carries it out: the loop over active lanes
    (`ThreadItem::Execute` with the program-counter updates of `WarpState` and `InstructionSOPP`),
    then the collection of next program counters and the stack update. */
module ThreadBlock {
  import opened SimtStack
  import opened SimtAgreement
  import opened SimtShape
  import opened WarpDevice
  import opened LaneBits
  import opened Words

  /** Instructions by what they do to program counters.  `warpOp` instructions are executed by the
      leading lane only. */
  datatype Opcode =
    | Plain(warpOp: bool)
    | SBranch(simm: int)
    | TccBranch(simm: int, tcc: bv32, onSet: bool)
    | SccBranch(simm: int, scc: bv32, onSet: bool)
    | TExit
  {
    /** All lanes go the same way. */
    predicate Uniform() {
      Plain? || SBranch? || TExit?
    }

    predicate IsWarpOp() {
      match this
      case Plain(w) => w
      case SBranch(_) => true
      case SccBranch(_, _, _) => true
      case _ => false
    }

    /** The distance lane `l` moves when it executes this instruction itself. */
    function Distance(size: nat, l: nat): int {
      match this
      case SBranch(simm) => simm
      case TccBranch(simm, tcc, onSet) => if Bit(tcc, l) == onSet then simm else size
      case SccBranch(simm, scc, onSet) => if Bit(scc, l) == onSet then simm else size
      case _ => size
    }

    /** The distance the other lanes move when the leading lane executes a warp instruction. */
    function FollowDistance(size: nat): int {
      match this
      case SBranch(simm) => simm
      case _ => size
    }
  }

  datatype Instruction = Instruction(opcode: Opcode, op: OpType, size: nat, recvg: nat)

  /** The least lane of the mask executes first and leads. */
  ghost function Leader(mask: set<nat>): nat
    requires mask != {}
  {
    MinPath(mask)
  }

  /** Where active lane `l` goes, given the lanes' program counters before the instruction. */
  ghost function NextPc(inst: Instruction, mask: set<nat>, pc: seq<nat>, l: nat): (r: nat)
    requires l in mask && forall k | k in mask :: k < |pc|
    ensures r < WORD
  {
    if !inst.opcode.IsWarpOp() then Wrap(pc[l] + inst.opcode.Distance(inst.size, l))
    else
      var lead := Leader(mask);
      var distance := if l == lead then inst.opcode.Distance(inst.size, l) else inst.opcode.FollowDistance(inst.size);
      Wrap(pc[lead] + distance)
  }

  // ---------- a lane in the warp and a lane alone ----------

  /** The scalar conditional branches are executed by the leading lane only: lane 1 is to branch and
      falls through, because lane 0 leads. */
  lemma SccMovesTheLeaderOnly() returns (inst: Instruction)
    ensures inst == Instruction(SccBranch(16, 3, true), OtherOp, 4, NULL_PC)
    ensures NextPc(inst, {0, 1}, [0, 0], 1) == 4 && NextPc(inst, {1}, [0, 0], 1) == 16
  {
    inst := Instruction(SccBranch(16, 3, true), OtherOp, 4, NULL_PC);
    assert IsMin(Leader({0, 1}), {0, 1}) && IsMin(Leader({1}), {1});
    assert Bit(3, 1);
  }

  /** Bit `l` of the condition register moves lane `l`: on a branch on set bits, exactly the lanes whose bit
      is one jump; on a branch on clear bits, exactly the others. */
  lemma TccMovesByOwnBit(simm: int, tcc: bv32, onSet: bool, size: nat, op: OpType, recvg: nat, mask: set<nat>,
                         pc: seq<nat>, l: nat)
    requires l in mask && l < 32 && forall k | k in mask :: k < |pc|
    ensures NextPc(Instruction(TccBranch(simm, tcc, onSet), op, size, recvg), mask, pc, l)
            == Wrap(pc[l] + if ((tcc >> l) & 1 == 1) == onSet then simm else size)
  {
    hide Bit;
    BitIs(tcc, l);
  }

  /** Every lane goes where it would go alone, exactly unless the instruction is a scalar conditional
      branch that some lane other than the leading one is to take, to a different place. */
  lemma AsAloneIff(inst: Instruction, mask: set<nat>, pc: seq<nat>, top: nat)
    requires mask != {} && forall l | l in mask :: l < |pc| && pc[l] == top
    ensures (forall l | l in mask :: NextPc(inst, mask, pc, l) == NextPc(inst, {l}, pc, l))
            <==> (inst.opcode.SccBranch? && Wrap(top + inst.opcode.simm) != Wrap(top + inst.size) ==>
                    forall l | l in mask && l != Leader(mask) :: Bit(inst.opcode.scc, l) != inst.opcode.onSet)
  {
    hide Bit, Wrap;
    assert IsMin(Leader(mask), mask);
    forall l | l in mask
      ensures NextPc(inst, {l}, pc, l) == Wrap(top + inst.opcode.Distance(inst.size, l))
      ensures NextPc(inst, mask, pc, l)
              == Wrap(top + if l == Leader(mask) || !inst.opcode.IsWarpOp() then inst.opcode.Distance(inst.size, l)
                            else inst.opcode.FollowDistance(inst.size))
    {
      assert IsMin(Leader({l}), {l});
    }
  }

  function DoneLanes(lanes: set<nat>, done: seq<bool>): set<nat> {
    set l | l in lanes && l < |done| && done[l]
  }

  /** The lanes of one warp: the fields of its `ThreadItem` objects, one column each, with the warp
      state (`WarpState`) and the live-thread counter of the block.  `lanes` have a thread object. */
  class WarpThreads {
    const warpSize: nat
    const lanes: set<nat>
    var pc: seq<nat>
    var npc: seq<nat>
    var done: seq<bool>
    var leading: seq<bool>
    var activeMask: set<nat>
    var exited: set<nat>
    var liveThreads: int

    ghost predicate Valid()
      reads this
    {
      && |pc| == |npc| == |done| == |leading| == warpSize
      && (forall l | l in lanes :: l < warpSize)
      && (forall l | l in lanes :: pc[l] < WORD)
      && activeMask <= lanes
    }

    ghost function Done(): set<nat>
      reads this`done
    {
      DoneLanes(lanes, done)
    }

    /** Between instructions: exactly the exited lanes are done, and the live count is theirs. */
    ghost predicate Settled()
      reads this`done, this`exited, this`liveThreads
    {
      exited == Done() && liveThreads == |lanes - Done()|
    }

    constructor (warpSize: nat, lanes: set<nat>)
      requires forall l | l in lanes :: l < warpSize
      ensures Valid() && Settled() && Done() == {}
      ensures this.warpSize == warpSize && this.lanes == lanes && pc == seq(warpSize, _ => 0)
    {
      this.warpSize, this.lanes := warpSize, lanes;
      pc, npc := seq(warpSize, _ => 0), seq(warpSize, _ => 0);
      done, leading := seq(warpSize, _ => false), seq(warpSize, _ => false);
      activeMask, exited, liveThreads := {}, {}, |lanes|;
      new;
      assert lanes - Done() == lanes;
    }

    /** `WarpState::incWarpPC`: every active lane's next program counter follows lane `lane`. */
    method IncWarpPC(increment: int, lane: nat)
      requires Valid() && lane in lanes
      modifies this`npc
      ensures Valid()
      ensures forall l | l in activeMask :: npc[l] == Wrap(pc[lane] + increment)
    {
      for l := 0 to warpSize
        invariant Valid()
        invariant forall k | k in activeMask && k < l :: npc[k] == Wrap(pc[lane] + increment)
      {
        if l in activeMask {
          npc := npc[l := Wrap(pc[lane] + increment)];
        }
      }
    }

    /** `WarpState::incThreadPC`. */
    method IncThreadPC(increment: int, lane: nat)
      requires Valid() && lane in lanes
      modifies this`npc
      ensures Valid() && npc == old(npc)[lane := Wrap(pc[lane] + increment)]
    {
      npc := npc[lane := Wrap(pc[lane] + increment)];
    }

    /** The instruction's own `Execute`, for the lane it is given. */
    method ExecuteOpcode(inst: Instruction, lane: nat)
      requires Valid() && lane in activeMask
      requires forall l | l in activeMask :: npc[l] == Wrap(pc[lane] + inst.size)
      modifies this`npc, this`exited
      ensures Valid()
      ensures npc[lane] == Wrap(pc[lane] + inst.opcode.Distance(inst.size, lane))
      ensures inst.opcode.IsWarpOp() ==>
                forall l | l in activeMask && l != lane ::
                    npc[l] == Wrap(pc[lane] + inst.opcode.FollowDistance(inst.size))
      ensures exited == old(exited) + if inst.opcode.TExit? then {lane} else {}
    {
      match inst.opcode
      case SBranch(simm) =>
        IncWarpPC(simm, lane);
      case TccBranch(simm, tcc, onSet) =>
        if Bit(tcc, lane) == onSet {
          IncThreadPC(simm, lane);
        }
      case SccBranch(simm, scc, onSet) =>
        if Bit(scc, lane) == onSet {
          IncThreadPC(simm, lane);
        }
      case TExit =>
        exited := exited + {lane};
      case Plain(_) =>
    }

    /** `ThreadItem::Execute`; it asserts that the lane is not done. */
    method ExecuteItem(inst: Instruction, lane: nat)
      requires Valid() && lane in activeMask && !done[lane]
      requires inst.opcode.IsWarpOp() && !leading[lane] ==> npc[lane] < WORD
      modifies this`npc, this`exited, this`pc
      ensures Valid()
      ensures inst.opcode.IsWarpOp() && !leading[lane] ==>
                pc == old(pc)[lane := npc[lane]] && npc == old(npc) && exited == old(exited)
      ensures !(inst.opcode.IsWarpOp() && !leading[lane]) ==>
                && pc == old(pc)[lane := Wrap(old(pc)[lane] + inst.opcode.Distance(inst.size, lane))]
                && exited == old(exited) + if inst.opcode.TExit? then {lane} else {}
      ensures inst.opcode.IsWarpOp() && leading[lane] ==>
                forall l | l in activeMask && l != lane ::
                  npc[l] == Wrap(old(pc)[lane] + inst.opcode.FollowDistance(inst.size))
    {
      hide Opcode.Distance, Opcode.FollowDistance;
      if !inst.opcode.IsWarpOp() {
        npc := npc[lane := Wrap(pc[lane] + inst.size)];
      }
      if inst.opcode.IsWarpOp() && !leading[lane] {
      } else {
        IncWarpPC(inst.size, lane);
        ExecuteOpcode(inst, lane);
      }
      pc := pc[lane := npc[lane]];
    }

    /** The part of a turn that moves lane `t` and prepares the others. */
    method MoveLane(inst: Instruction, t: nat, leads: bool)
      requires Valid() && t in activeMask && !done[t]
      requires inst.opcode.IsWarpOp() && !leads ==> npc[t] < WORD
      modifies this`pc, this`npc, this`leading, this`exited
      ensures Valid()
      ensures pc == old(pc)[t := if inst.opcode.IsWarpOp() && !leads then old(npc)[t]
                                 else Wrap(old(pc)[t] + inst.opcode.Distance(inst.size, t))]
      ensures inst.opcode.IsWarpOp() && leads ==>
                forall l | l in activeMask && l != t ::
                  npc[l] == Wrap(old(pc)[t] + inst.opcode.FollowDistance(inst.size))
      ensures inst.opcode.IsWarpOp() && !leads ==> npc == old(npc)
      ensures exited == old(exited) + if inst.opcode.TExit? then {t} else {}
    {
      hide Opcode.Distance, Opcode.FollowDistance, Wrap;
      leading := leading[t := leads];
      ExecuteItem(inst, t);
    }

    /** The body of the lane loop for active lane `t`. */
    method Turn(inst: Instruction, t: nat, leads: bool)
      requires Valid() && Settled() && t in activeMask && !done[t]
      requires inst.opcode.IsWarpOp() && !leads ==> npc[t] < WORD
      modifies this`pc, this`npc, this`done, this`leading, this`exited, this`liveThreads
      ensures Valid() && Settled()
      ensures pc == old(pc)[t := if inst.opcode.IsWarpOp() && !leads then old(npc)[t]
                                 else Wrap(old(pc)[t] + inst.opcode.Distance(inst.size, t))]
      ensures inst.opcode.IsWarpOp() && leads ==>
                forall l | l in activeMask && l != t ::
                  npc[l] == Wrap(old(pc)[t] + inst.opcode.FollowDistance(inst.size))
      ensures inst.opcode.IsWarpOp() && !leads ==> npc == old(npc)
      ensures done == if inst.opcode.TExit? then old(done)[t := true] else old(done)
    {
      hide Opcode.Distance, Opcode.FollowDistance, Opcode.IsWarpOp, Wrap;
      MoveLane(inst, t, leads);
      assert t !in Done();
      Retire(t);
    }

    /** After lane `t` has executed: an exited lane becomes done and leaves the live count. */
    method Retire(t: nat)
      requires Valid() && t in lanes && !done[t]
      requires exited == Done() || exited == Done() + {t}
      requires liveThreads == |lanes - Done()|
      modifies this`done, this`liveThreads
      ensures Valid() && Settled()
      ensures done == if t in exited then old(done)[t := true] else old(done)
    {
      ghost var finished := Done();
      if t in exited {
        done := done[t := true];
        assert Done() == finished + {t};
        assert lanes - Done() == (lanes - finished) - {t};
      }
      if done[t] {
        liveThreads := liveThreads - 1;
      }
    }

    /** `ThreadBlock::executeInstruction`: each active lane ends at its own next program counter although
        every lane's turn rewrites the pending counters of all active lanes; other lanes do not move. */
    method ExecuteInstruction(inst: Instruction, mask: set<nat>)
      requires Valid() && Settled()
      requires mask <= lanes && mask !! Done()
      modifies this
      ensures Valid() && Settled() && activeMask == mask
      ensures Moved(inst, mask, old(pc), old(done), pc, done)
    {
      hide NextPc, Opcode.Distance, Opcode.FollowDistance, Opcode.IsWarpOp, Settled;
      activeMask := mask;
      var leads := true;
      for t := 0 to warpSize
        invariant Valid() && Settled() && activeMask == mask
        invariant leads <==> forall l | l in mask :: l >= t
        invariant forall l | 0 <= l < warpSize ::
                    pc[l] == if l in mask && l < t then NextPc(inst, mask, old(pc), l) else old(pc)[l]
        invariant inst.opcode.IsWarpOp() && !leads ==>
                    forall l | l in mask && l >= t :: npc[l] == NextPc(inst, mask, old(pc), l)
        invariant forall l | 0 <= l < warpSize ::
                    done[l] == (old(done)[l] || (inst.opcode.TExit? && l in mask && l < t))
      {
        if t in mask {
          NextPcOf(inst, mask, old(pc), t);
          Turn(inst, t, leads);
          leads := false;
        }
      }
    }
  }

  lemma NextPcOf(inst: Instruction, mask: set<nat>, pc: seq<nat>, t: nat)
    requires t in mask && forall k | k in mask :: k < |pc|
    ensures inst.opcode.IsWarpOp() ==>
              || (exists l :: l in mask && l < t)
              || forall l | l in mask && l != t ::
                  NextPc(inst, mask, pc, l) == Wrap(pc[t] + inst.opcode.FollowDistance(inst.size))
    ensures !inst.opcode.IsWarpOp() || (forall l | l in mask :: l >= t) ==>
              NextPc(inst, mask, pc, t) == Wrap(pc[t] + inst.opcode.Distance(inst.size, t))
  {
    assert IsMin(Leader(mask), mask);
  }

  // ---------- the whole warp step ----------

  /** The update that issuing `inst` leads to, from the state before it. */
  ghost function Issued(inst: Instruction, mask: set<nat>, lanes: set<nat>, pc: seq<nat>, done: seq<bool>,
      topPc: nat): Issue
    requires |pc| == |done| && forall k | k in mask :: k < |pc|
  {
    var exits := inst.opcode.TExit?;
    var finished := set l: nat | l < |pc| && (l !in lanes || done[l] || (exits && l in mask));
    var next := seq(|pc|, l requires 0 <= l < |pc| =>
      if l in finished then NULL_PC else if l in mask then NextPc(inst, mask, pc, l) else pc[l]);
    Issue(finished, next, inst.recvg, inst.op, inst.size, topPc)
  }

  /** Straight-line code, branches and exits never split a group of lanes that share a program counter
      into more than the fall-through and the branch target. */
  lemma AtMostTwoPaths(inst: Instruction, mask: set<nat>, lanes: set<nat>, pc: seq<nat>, done: seq<bool>,
      topPc: nat, live: set<nat>)
    requires |pc| == |done| && forall k | k in mask :: k < |pc|
    requires forall k | k in mask :: pc[k] == topPc
    requires live <= mask
    requires live !! Issued(inst, mask, lanes, pc, done, topPc).done
    ensures |Paths(live, Issued(inst, mask, lanes, pc, done, topPc))| <= 2
  {
    var i := Issued(inst, mask, lanes, pc, done, topPc);
    var a := Wrap(topPc + inst.size);
    var b := Wrap(topPc + match inst.opcode
                          case SBranch(simm) => simm
                          case TccBranch(simm, _, _) => simm
                          case SccBranch(simm, _, _) => simm
                          case _ => 0);
    forall l | l in live ensures i.Target(l) in {a, b} {
      assert i.Target(l) == NextPc(inst, mask, pc, l);
      if mask != {} { assert IsMin(Leader(mask), mask); }
    }
    assert Paths(live, i) <= {a, b};
    SubsetCard(Paths(live, i), {a, b});
    assert |{a, b}| <= 2;
  }

  lemma UniformIsOnePath(inst: Instruction, mask: set<nat>, lanes: set<nat>, pc: seq<nat>, done: seq<bool>,
                         topPc: nat, live: set<nat>)
    requires |pc| == |done| && forall k | k in mask :: k < |pc| && pc[k] == topPc
    requires live <= mask && live !! Issued(inst, mask, lanes, pc, done, topPc).done
    requires inst.opcode.Uniform()
    ensures |Paths(live, Issued(inst, mask, lanes, pc, done, topPc))| <= 1
  {
    var i := Issued(inst, mask, lanes, pc, done, topPc);
    var a := Wrap(topPc + inst.opcode.FollowDistance(inst.size));
    forall l | l in live ensures i.Target(l) == a {
      assert i.Target(l) == NextPc(inst, mask, pc, l);
      assert IsMin(Leader(mask), mask);
    }
    assert Paths(live, i) <= {a};
    SubsetCard(Paths(live, i), {a});
  }

  /** Lanes call and return together. */
  ghost predicate CallsTogether(s: seq<Entry>, inst: Instruction)
    requires s != []
  {
    inst.op.CallOp? || (inst.op.RetOp? && Top(s).kind.Call?) ==> inst.opcode.Uniform()
  }

  /** `i` is what the loop over all lanes collects after the instruction. */
  ghost predicate IsCollected(i: Issue, inst: Instruction, topPc: nat, lanes: set<nat>, pc: seq<nat>, done: seq<bool>) {
    && i.recvg == inst.recvg && i.op == inst.op && i.size == inst.size && i.pc == topPc
    && |i.nextPc| == |pc| == |done|
    && (forall l: nat :: l in i.done <==> l < |pc| && (l !in lanes || done[l]))
    && forall l | 0 <= l < |pc| :: i.nextPc[l] == if l in i.done then NULL_PC else pc[l]
  }

  /** The lanes and the stack agree, as values. */
  ghost predicate Agree(s: seq<Entry>, lanes: set<nat>, pc: seq<nat>, done: seq<bool>) {
    && |pc| == |done| && (forall l | l in lanes :: l < |pc| && pc[l] < WORD)
    && Shape(s, lanes) && CallsNeverRejoin(s)
    && forall l | l in lanes && !done[l] :: Standing(s, l, pc[l])
  }

  lemma LaunchAgrees(lanes: set<nat>, pc: seq<nat>, done: seq<bool>)
    requires lanes != {} && |pc| == |done| && forall l | l in lanes :: l < |pc| && pc[l] == 0
    ensures Agree(LaunchStack(0, lanes), lanes, pc, done)
  {
  }

  /** Every active lane stands at the top entry's program counter, so `Warp::update`'s assertions hold. */
  lemma IssueIsAccepted(s: seq<Entry>, inst: Instruction, lanes: set<nat>, pc: seq<nat>, done: seq<bool>)
    requires Agree(s, lanes, pc, done) && s != [] && Top(s).mask !! DoneLanes(lanes, done)
    requires CallsTogether(s, inst)
    ensures Top(s).mask <= lanes
    ensures Asserts(s, Issued(inst, Top(s).mask, lanes, pc, done, Top(s).pc))
    ensures forall l | l in Top(s).mask :: pc[l] == Top(s).pc
    ensures Top(s).pc < WORD
  {
    var mask := Top(s).mask;
    assert mask <= lanes && mask != {};
    var i := Issued(inst, mask, lanes, pc, done, Top(s).pc);
    forall l | l in mask ensures pc[l] == Top(s).pc {
      assert l in lanes && l !in DoneLanes(lanes, done);
      StandingPc(s, l, pc[l]);
    }
    var l :| l in mask;
    AtMostTwoPaths(inst, mask, lanes, pc, done, Top(s).pc, Live(s, i));
    if inst.opcode.Uniform() {
      UniformIsOnePath(inst, mask, lanes, pc, done, Top(s).pc, Live(s, i));
    }
    if Top(s).kind.Call? {
      assert Waiting(Pop(s), l, Top(s).kind, Top(s).rpc);
    }
  }

  /** The state of the lanes after the instruction. */
  ghost predicate Moved(inst: Instruction, mask: set<nat>, pc: seq<nat>, done: seq<bool>, pc': seq<nat>,
      done': seq<bool>) {
    && |pc| == |done| == |pc'| == |done'| && (forall k | k in mask :: k < |pc|)
    && (forall l | 0 <= l < |pc| :: pc'[l] == if l in mask then NextPc(inst, mask, pc, l) else pc[l])
    && forall l | 0 <= l < |pc| :: done'[l] == (done[l] || (inst.opcode.TExit? && l in mask))
  }

  lemma MovedIsCollected(inst: Instruction, mask: set<nat>, lanes: set<nat>, topPc: nat, pc: seq<nat>,
      done: seq<bool>, pc': seq<nat>, done': seq<bool>)
    requires Moved(inst, mask, pc, done, pc', done') && mask <= lanes
    ensures IsCollected(Issued(inst, mask, lanes, pc, done, topPc), inst, topPc, lanes, pc', done')
    ensures DoneLanes(lanes, done') == DoneLanes(lanes, done) + if inst.opcode.TExit? then mask else {}
  {
    hide NextPc;
    var i := Issued(inst, mask, lanes, pc, done, topPc);
    forall l: nat ensures l in i.done <==> l < |pc| && (l !in lanes || done'[l]) { }
    forall l | 0 <= l < |pc| ensures i.nextPc[l] == if l in i.done then NULL_PC else pc'[l] { }
  }

  lemma StepAgrees(s: seq<Entry>, inst: Instruction, lanes: set<nat>, pc: seq<nat>, done: seq<bool>,
      pc': seq<nat>, done': seq<bool>)
    requires Agree(s, lanes, pc, done) && s != [] && Top(s).mask <= lanes && |pc| == |pc'| == |done'|
    requires Asserts(s, Issued(inst, Top(s).mask, lanes, pc, done, Top(s).pc))
    requires WellFormedRecvg(s, Issued(inst, Top(s).mask, lanes, pc, done, Top(s).pc))
    requires Moved(inst, Top(s).mask, pc, done, pc', done')
    ensures Agree(NextStack(s, Issued(inst, Top(s).mask, lanes, pc, done, Top(s).pc)), lanes, pc', done')
  {
    hide NextStack, NextPc, Shape, WellFormedRecvg, Asserts, CallsNeverRejoin;
    var i := Issued(inst, Top(s).mask, lanes, pc, done, Top(s).pc);
    UpdateKeepsShape(s, i, lanes);
    UpdateKeepsCallsNeverRejoin(s, i);
    forall l | l in lanes && !done'[l] ensures Standing(NextStack(s, i), l, pc'[l]) {
      assert l !in i.done;
      UpdateKeepsStanding(s, i, l, pc[l]);
    }
  }

  class WarpUnit {
    const warp: Warp
    const threads: WarpThreads

    /** The stack and the lanes agree. */
    ghost predicate Valid()
      reads this, warp, threads
    {
      && threads.Valid() && threads.Settled() && threads.warpSize == warp.warpSize
      && Agree(warp.stack, threads.lanes, threads.pc, threads.done)
    }

    /** `ThreadBlock::createWarp` and `Warp::launch`: all launched lanes start at program counter 0. */
    constructor (warpSize: nat, lanes: set<nat>)
      requires lanes != {} && forall l | l in lanes :: l < warpSize
      ensures Valid() && fresh(warp) && fresh(threads)
      ensures threads.warpSize == warpSize && threads.lanes == lanes && threads.Done() == {}
      ensures warp.stack == LaunchStack(0, lanes) && forall l | l in lanes :: threads.pc[l] == 0
    {
      warp := new Warp(warpSize);
      threads := new WarpThreads(warpSize, lanes);
      new;
      hide Agree;
      warp.Launch(0, lanes);
      LaunchAgrees(lanes, threads.pc, threads.done);
    }

    ghost function NextIssue(inst: Instruction): Issue
      requires Valid() && warp.stack != []
      reads this, warp, threads
    {
      var mask := Top(warp.stack).mask;
      Issued(inst, mask, threads.lanes, threads.pc, threads.done, Top(warp.stack).pc)
    }

    /** `ThreadBlock::updateSIMTStack`: collect the lanes' state and update the stack. */
    method UpdateSimtStack(inst: Instruction, pc: nat, ghost i: Issue)
      requires threads.Valid() && threads.warpSize == warp.warpSize
      requires Asserts(warp.stack, i) && Top(warp.stack).mask <= threads.lanes
      requires IsCollected(i, inst, pc, threads.lanes, threads.pc, threads.done)
      modifies warp
      ensures warp.stack == NextStack(old(warp.stack), i)
    {
      var done: set<nat> := {};
      var nextPc: seq<nat> := [];
      for k := 0 to threads.warpSize
        invariant |nextPc| == k
        invariant forall l: nat :: l in done <==> l < k && l in i.done
        invariant forall l | 0 <= l < k :: nextPc[l] == i.nextPc[l]
      {
        if k !in threads.lanes || threads.done[k] {
          done := done + {k};
          nextPc := nextPc + [NULL_PC];
        } else {
          nextPc := nextPc + [threads.pc[k]];
        }
      }
      assert done == i.done && nextPc == i.nextPc;
      warp.Update(Issue(done, nextPc, inst.recvg, inst.op, inst.size, pc));
    }

    /** `ThreadBlock::executeWarp` for one instruction: none of the assertions on the way can fail, and
        the stack still agrees with every lane that is not done. */
    method ExecuteWarp(inst: Instruction)
      requires Valid() && warp.stack != [] && CallsTogether(warp.stack, inst)
      requires Top(warp.stack).mask !! threads.Done()
      requires WellFormedRecvg(warp.stack, NextIssue(inst))
      modifies warp, threads
      ensures Valid()
      ensures Asserts(old(warp.stack), old(NextIssue(inst)))
      ensures warp.stack == NextStack(old(warp.stack), old(NextIssue(inst)))
      ensures Moved(inst, Top(old(warp.stack)).mask, old(threads.pc), old(threads.done), threads.pc, threads.done)
      ensures threads.Done() == old(threads.Done()) + if inst.opcode.TExit? then Top(old(warp.stack)).mask else {}
    {
      hide NextStack, NextPc, WellFormedRecvg, Asserts, Agree, Issued, Moved, DoneLanes, IsCollected;
      var top := warp.stack[|warp.stack| - 1];
      ghost var s, i, pc, done, lanes := warp.stack, NextIssue(inst), threads.pc, threads.done, threads.lanes;
      IssueIsAccepted(s, inst, lanes, pc, done);
      threads.ExecuteInstruction(inst, top.mask);
      MovedIsCollected(inst, top.mask, lanes, top.pc, pc, done, threads.pc, threads.done);
      UpdateSimtStack(inst, top.pc, i);
      StepAgrees(s, inst, lanes, pc, done, threads.pc, threads.done);
    }
  }
}
