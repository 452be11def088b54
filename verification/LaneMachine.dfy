/** Kernels of vector instructions, compares and branches run by one warp: control (the stack) and data
    (the register files) together leave every lane with the registers it computes alone. */
module LaneMachine {
  import opened SimtStack
  import opened SimtNull
  import opened ThreadBlock
  import opened LaneBits
  import opened Registers
  import opened VectorSteps
  import opened Words
  import K = KernelRun
  import R = SimtRun

  // ---------- one lane alone ----------

  /** An instruction.  `f` and `flag` are the opcode's functions of one lane's source values; a vector
      instruction that sets the carry register puts `flag` there. */
  datatype Op =
    | Skip(warpOp: bool)
    | Jump(simm: int)
    | TccJump(tcc: nat, simm: int, onSet: bool)
    | End
    | Compute(srcs: seq<Source>, dst: nat, f: seq<Word> -> Word, setsVcc: bool, vcc: nat, flag: seq<Word> -> bool)
    | Compare(srcs: seq<Source>, tcc: nat, flag: seq<Word> -> bool)
  {
    function Code(): K.Code {
      match this
      case Skip(warpOp) => K.Straight(warpOp)
      case Jump(simm) => K.Jump(simm)
      case TccJump(_, simm, onSet) => K.TccJump(simm, onSet)
      case End => K.End
      case _ => K.Straight(false)
    }
  }

  datatype Machine = Machine(op: nat -> Op, size: nat -> nat)

  /** A lane: its registers, and its bits of the mask registers (condition and carry registers). */
  datatype Lane = Lane(pc: Word, v: seq<Word>, bits: map<nat, bool>, exited: bool)

  /** A source as the lane sees it; `sc` are the scalar registers that no instruction writes.  A lane that
      the warp has just switched to is given zeros for its vector registers; it is not `warm`. */
  function Value(src: Source, v: seq<Word>, sc: nat -> Word, warm: bool): Word {
    match src
    case Immediate(x) => x
    case ScalarReg(s) => sc(s)
    case VectorReg(r) => if warm && r < |v| then v[r] else 0
  }

  function Values(srcs: seq<Source>, v: seq<Word>, sc: nat -> Word, warm: bool): (xs: seq<Word>)
    ensures |xs| == |srcs| && forall k | 0 <= k < |srcs| :: xs[k] == Value(srcs[k], v, sc, warm)
  {
    seq(|srcs|, k requires 0 <= k < |srcs| => Value(srcs[k], v, sc, warm))
  }

  /** What an instruction does to a lane's registers and bits. */
  function Data(op: Op, sc: nat -> Word, st: Lane, warm: bool): Lane {
    match op
    case Compute(srcs, dst, f, setsVcc, vcc, flag) =>
      var xs := Values(srcs, st.v, sc, warm);
      st.(v := if dst < |st.v| then st.v[dst := f(xs)] else st.v,
          bits := if setsVcc then st.bits[vcc := flag(xs)] else st.bits)
    case Compare(srcs, tcc, flag) => st.(bits := st.bits[tcc := flag(Values(srcs, st.v, sc, warm))])
    case _ => st
  }

  function Flag(op: Op, st: Lane): bool {
    op.TccJump? && op.tcc in st.bits && st.bits[op.tcc]
  }

  /** Where the lane goes. */
  function Target(op: Op, size: nat, st: Lane): Word {
    match op
    case Jump(simm) => Wrap(st.pc + simm)
    case TccJump(_, simm, onSet) => Wrap(st.pc + if Flag(op, st) == onSet then simm else size)
    case _ => Wrap(st.pc + size)
  }

  function LaneStep(m: Machine, sc: nat -> Word, st: Lane): Lane {
    if st.exited then st
    else Data(m.op(st.pc), sc, st, true).(pc := Target(m.op(st.pc), m.size(st.pc), st), exited := m.op(st.pc).End?)
  }

  /** The lane after `n` instructions of its own, alone: its warp never switches to another. */
  function LaneAt(m: Machine, sc: nat -> Word, start: Lane, n: nat): Lane {
    if n == 0 then start else LaneStep(m, sc, LaneAt(m, sc, start, n - 1))
  }

  lemma {:induction false} ExitedStays(m: Machine, sc: nat -> Word, start: Lane, n: nat, k: nat)
    requires n <= k && LaneAt(m, sc, start, n).exited
    ensures LaneAt(m, sc, start, k) == LaneAt(m, sc, start, n)
  {
    if n < k {
      ExitedStays(m, sc, start, n, k - 1);
    }
  }

  // ---------- the kernel a machine is ----------

  /** The machine as a kernel: a lane finds its condition bit where its own instructions have left it. */
  ghost function AsKernel(m: Machine, sc: nat -> Word, start: nat -> Lane): K.Kernel {
    K.Kernel((pc: nat) => m.op(pc).Code(), m.size,
             (l: nat, h: seq<nat>) => h != [] && Flag(m.op(h[|h| - 1]), LaneAt(m, sc, start(l), |h| - 1)))
  }

  lemma KernelFlag(m: Machine, sc: nat -> Word, start: nat -> Lane, l: nat, h: seq<nat>, pc: nat)
    ensures AsKernel(m, sc, start).flag(l, h + [pc]) == Flag(m.op(pc), LaneAt(m, sc, start(l), |h|))
  {
    hide LaneAt, Flag;
    var h' := h + [pc];
    assert h'[|h'| - 1] == pc && |h'| - 1 == |h|;
  }

  /** The lane's own outcome. */
  function OutcomeOf(st: Lane): R.Outcome {
    if st.exited then R.Exit else R.Goto(st.pc)
  }

  /** The kernel decides for the lane as the lane's own step does. */
  lemma Decides(m: Machine, sc: nat -> Word, start: nat -> Lane, l: nat, h: seq<nat>, st: Lane)
    requires st == LaneAt(m, sc, start(l), |h|) && !st.exited
    ensures AsKernel(m, sc, start).Decide(l, h + [st.pc])
            == OutcomeOf(LaneStep(m, sc, st))
  {
    KernelFlag(m, sc, start, l, h, st.pc);
    hide LaneAt, Data, Wrap, Flag;
    var k, h' := AsKernel(m, sc, start), h + [st.pc];
    assert h' != [] && h'[|h'| - 1] == st.pc;
    assert k.code(st.pc) == m.op(st.pc).Code() && k.size(st.pc) == m.size(st.pc);
    hide AsKernel;
  }

  /** What a lane executes alone as a kernel is what the machine does, instruction by instruction. */
  lemma {:induction false} AloneIsLane(m: Machine, sc: nat -> Word, start: nat -> Lane, l: nat, n: nat)
    requires start(l).pc == 0 && !start(l).exited
    ensures var prog, h := AsKernel(m, sc, start).Lanes(), R.Alone(AsKernel(m, sc, start).Lanes(), l, 0, n);
            && |h| <= n && (|h| < n ==> LaneAt(m, sc, start(l), |h|).exited)
            && (forall i | 0 <= i < |h| :: h[i] == LaneAt(m, sc, start(l), i).pc)
            && R.AloneAt(prog, l, 0, h) == OutcomeOf(LaneAt(m, sc, start(l), |h|))
  {
    hide AsKernel, LaneStep, K.Kernel.Decide;
    var prog := AsKernel(m, sc, start).Lanes();
    if n > 0 {
      AloneIsLane(m, sc, start, l, n - 1);
      var h := R.Alone(prog, l, 0, n - 1);
      var st := LaneAt(m, sc, start(l), |h|);
      if !st.exited {
        Decides(m, sc, start, l, h, st);
        assert R.Alone(prog, l, 0, n) == h + [st.pc];
      }
    }
  }

  // ---------- the instruction on the warp's registers ----------

  ghost predicate SourceOk(w: WarpState, masks: set<nat>, src: Source) {
    Admits(w, src) && (src.ScalarReg? ==> src.s !in masks)
  }

  /** The instruction names registers the warp has, keeps its masks in `masks`, and reads other scalar
      registers only. */
  ghost predicate OpOk(w: WarpState, masks: set<nat>, op: Op) {
    match op
    case Compute(srcs, dst, _, setsVcc, vcc, _) =>
      (forall k | 0 <= k < |srcs| :: SourceOk(w, masks, srcs[k])) && dst < w.vregs && (setsVcc ==> vcc in masks)
    case Compare(srcs, tcc, _) => (forall k | 0 <= k < |srcs| :: SourceOk(w, masks, srcs[k])) && tcc in masks
    case TccJump(tcc, _, _) => tcc in masks
    case _ => true
  }

  ghost predicate Masks(w: WarpState, masks: set<nat>) {
    forall t: nat | t in masks :: w.Usable(t)
  }

  /** Lane `l`'s column of the vector registers, and its bits of the masks. */
  ghost function Regs(w: WarpState, l: nat): (v: seq<Word>)
    requires w.Valid() && l < w.warpSize
    reads w, w.vreg
    ensures |v| == w.vregs && forall r | 0 <= r < w.vregs :: v[r] == w.V(r, l)
  {
    VectorWords(w, 0, w.vregs, l)
  }

  ghost function Bits(w: WarpState, masks: set<nat>, l: nat): map<nat, bool>
    requires w.Valid() && l < w.warpSize && Masks(w, masks)
    reads w, w.sreg
  {
    map t | t in masks :: Bit(w.S(t), l)
  }

  ghost predicate Holds(w: WarpState, masks: set<nat>, l: nat, st: Lane)
    requires w.Valid() && l < w.warpSize && Masks(w, masks)
    reads w, w.vreg, w.sreg
  {
    Regs(w, l) == st.v && Bits(w, masks, l) == st.bits
  }

  ghost predicate Scalars(w: WarpState, masks: set<nat>, sc: nat -> Word)
    requires w.Valid()
    reads w, w.sreg
  {
    forall t: nat | w.Readable(t) && t !in masks :: Unsigned(w.S(t)) == sc(t)
  }

  ghost predicate AllAdmit(w: WarpState, srcs: seq<Source>) {
    forall k | 0 <= k < |srcs| :: Admits(w, srcs[k])
  }

  ghost function GathersAll(w: WarpState, srcs: seq<Source>, l: nat): (xs: seq<Word>)
    requires w.Valid() && l < w.warpSize && AllAdmit(w, srcs)
    reads w, w.vreg, w.sreg
    ensures |xs| == |srcs| && forall k | 0 <= k < |srcs| :: xs[k] == Gathers(w, srcs[k], l)
  {
    if srcs == [] then [] else GathersAll(w, srcs[..|srcs| - 1], l) + [Gathers(w, srcs[|srcs| - 1], l)]
  }

  /** What is gathered for lane `l` is what it reads alone, if it was active already. */
  lemma GathersAlone(w: WarpState, masks: set<nat>, sc: nat -> Word, srcs: seq<Source>, l: nat, st: Lane)
    requires w.Valid() && l < w.warpSize && Masks(w, masks) && Holds(w, masks, l, st) && Scalars(w, masks, sc)
    requires forall k | 0 <= k < |srcs| :: SourceOk(w, masks, srcs[k])
    ensures AllAdmit(w, srcs)
    ensures GathersAll(w, srcs, l) == Values(srcs, st.v, sc, l in w.activeMask)
  {
    hide Bit, Unsigned, WarpState.V, WarpState.S, WarpState.Readable;
    var warm := l in w.activeMask;
    assert forall k | 0 <= k < |srcs| ::
        SourceOk(w, masks, srcs[k]) && Gathers(w, srcs[k], l) == Value(srcs[k], st.v, sc, warm);
  }

  function Firsts(args: seq<seq<Word>>): (xs: seq<Word>)
    ensures |xs| == |args| && forall k | 0 <= k < |args| && args[k] != [] :: xs[k] == args[k][0]
  {
    seq(|args|, k requires 0 <= k < |args| => if args[k] == [] then 0 else args[k][0])
  }

  method DecodeSources(w: WarpState, srcs: seq<Source>) returns (ops: seq<Operand>)
    requires w.Valid() && AllAdmit(w, srcs)
    ensures |ops| == |srcs| && fresh(ops) && (forall j, k | 0 <= j < k < |ops| :: ops[j] != ops[k])
    ensures AllFit(ops, w) && AllInFile(ops, w)
    ensures forall l | 0 <= l < w.warpSize :: Firsts(GatheredAll(ops, w, l)) == GathersAll(w, srcs, l)
  {
    hide Gathers, Admits, Operand.Gathered, Operand.InFile;
    ops := [];
    for n := 0 to |srcs|
      invariant |ops| == n && fresh(ops) && (forall j, k | 0 <= j < k < n :: ops[j] != ops[k])
      invariant AllFit(ops, w) && AllInFile(ops, w)
      invariant forall k, l | 0 <= k < n && 0 <= l < w.warpSize :: ops[k].Gathered(w, l) == [Gathers(w, srcs[k], l)]
    {
      var o := DecodeSource(w, srcs[n]);
      ops := ops + [o];
    }
    forall l | 0 <= l < w.warpSize ensures Firsts(GatheredAll(ops, w, l)) == GathersAll(w, srcs, l) {
      assert forall k | 0 <= k < |srcs| :: GatheredAll(ops, w, l)[k] == [Gathers(w, srcs[k], l)];
    }
  }

  /** A vector instruction over the lanes of `mask`, by what is gathered for them. */
  method ComputeStep(w: WarpState, op: Op, mask: set<nat>)
    requires w.Valid() && op.Compute? && AllAdmit(w, op.srcs) && op.dst < w.vregs
    requires (op.setsVcc ==> w.Usable(op.vcc)) && forall l | l in mask :: l < w.warpSize
    modifies w`activeMask, w.vreg, w.sreg
    ensures w.activeMask == mask
    ensures forall r, l | 0 <= r < w.vregs && 0 <= l < w.warpSize :: w.V(r, l) ==
              if r == op.dst && l in mask then op.f(old(GathersAll(w, op.srcs, l))) else old(w.V(r, l))
    ensures op.setsVcc ==>
              forall l | 0 <= l < w.warpSize :: Bit(w.S(op.vcc), l) ==
                if l in mask then op.flag(old(GathersAll(w, op.srcs, l))) else Bit(old(w.S(op.vcc)), l)
    ensures forall t: nat | w.Readable(t) && !(op.setsVcc && t == op.vcc) :: w.S(t) == old(w.S(t))
  {
    hide Bit, Gathers, Admits, GathersAll, GatheredAll, Operand.Gathered, Firsts;
    hide WarpState.V, WarpState.S, WarpState.Readable;
    var srcs := DecodeSources(w, op.srcs);
    var dst := new Operand(false, 0, Vector, op.dst, 1, w.warpSize);
    var inst := new VectorInstruction(srcs, dst, (args: seq<seq<Word>>) => [op.f(Firsts(args))],
                                      (args: seq<seq<Word>>) => op.flag(Firsts(args)), op.setsVcc, op.vcc);
    inst.Step(w, mask);
  }

  /** A compare over the lanes of `mask`. */
  method CompareStep(w: WarpState, op: Op, mask: set<nat>)
    requires w.Valid() && op.Compare? && AllAdmit(w, op.srcs) && w.Usable(op.tcc)
    requires forall l | l in mask :: l < w.warpSize
    modifies w`activeMask, w.sreg
    ensures w.activeMask == mask
    ensures forall r, l | 0 <= r < w.vregs && 0 <= l < w.warpSize :: w.V(r, l) == old(w.V(r, l))
    ensures forall l | 0 <= l < w.warpSize :: Bit(w.S(op.tcc), l) ==
              if l in mask then op.flag(old(GathersAll(w, op.srcs, l))) else Bit(old(w.S(op.tcc)), l)
    ensures forall t: nat | w.Readable(t) && t != op.tcc :: w.S(t) == old(w.S(t))
  {
    hide Bit, Gathers, Admits, GathersAll, GatheredAll, Operand.Gathered, Firsts;
    hide WarpState.V, WarpState.S, WarpState.Readable;
    var srcs := DecodeSources(w, op.srcs);
    var dst := new Operand(false, 0, Tcc, op.tcc, 1, w.warpSize);
    var inst := new VectorInstruction(srcs, dst, (args: seq<seq<Word>>) => [],
                                      (args: seq<seq<Word>>) => op.flag(Firsts(args)), false, 0);
    inst.CompareStep(w, mask);
  }

  /** The registers hold the lanes of `st`, and the scalar registers that no instruction writes. */
  ghost predicate HoldsAll(w: WarpState, masks: set<nat>, sc: nat -> Word, st: map<nat, Lane>)
    reads w, w.vreg, w.sreg
  {
    && w.Valid() && Masks(w, masks) && Scalars(w, masks, sc)
    && forall l: nat | l in st :: l < w.warpSize && Holds(w, masks, l, st[l])
  }

  /** The lanes after the instruction on those of `mask`; those of `before` were active already. */
  function DataAll(op: Op, sc: nat -> Word, mask: set<nat>, before: set<nat>, st: map<nat, Lane>): map<nat, Lane> {
    map l | l in st :: if l in mask then Data(op, sc, st[l], l in before) else st[l]
  }

  lemma GathersAllAlone(w: WarpState, masks: set<nat>, sc: nat -> Word, srcs: seq<Source>, st: map<nat, Lane>)
    requires HoldsAll(w, masks, sc, st) && forall k | 0 <= k < |srcs| :: SourceOk(w, masks, srcs[k])
    ensures AllAdmit(w, srcs)
    ensures forall l | l in st :: GathersAll(w, srcs, l) == Values(srcs, st[l].v, sc, l in w.activeMask)
  {
    hide Holds, Scalars, GathersAll, Values;
    forall l | l in st ensures GathersAll(w, srcs, l) == Values(srcs, st[l].v, sc, l in w.activeMask) {
      GathersAlone(w, masks, sc, srcs, l, st[l]);
    }
  }

  method ComputeColumns(w: WarpState, op: Op, mask: set<nat>, ghost masks: set<nat>)
    requires w.Valid() && Masks(w, masks) && op.Compute? && OpOk(w, masks, op) && AllAdmit(w, op.srcs)
    requires forall l | l in mask :: l < w.warpSize
    modifies w`activeMask, w.vreg, w.sreg
    ensures w.activeMask == mask
    ensures forall l | 0 <= l < w.warpSize :: Regs(w, l) ==
              if l in mask then old(Regs(w, l))[op.dst := op.f(old(GathersAll(w, op.srcs, l)))] else old(Regs(w, l))
    ensures forall l | 0 <= l < w.warpSize :: Bits(w, masks, l) ==
              if l in mask && op.setsVcc
              then old(Bits(w, masks, l))[op.vcc := op.flag(old(GathersAll(w, op.srcs, l)))] else old(Bits(w, masks, l))
    ensures forall t: nat | w.Readable(t) && t !in masks :: w.S(t) == old(w.S(t))
  {
    hide Bit, Admits, GathersAll, WarpState.V, WarpState.S, WarpState.Readable, SourceOk;
    ComputeStep(w, op, mask);
  }

  method CompareColumns(w: WarpState, op: Op, mask: set<nat>, ghost masks: set<nat>)
    requires w.Valid() && Masks(w, masks) && op.Compare? && OpOk(w, masks, op) && AllAdmit(w, op.srcs)
    requires forall l | l in mask :: l < w.warpSize
    modifies w`activeMask, w.sreg
    ensures w.activeMask == mask
    ensures forall l | 0 <= l < w.warpSize :: Regs(w, l) == old(Regs(w, l))
    ensures forall l | 0 <= l < w.warpSize :: Bits(w, masks, l) ==
              if l in mask
              then old(Bits(w, masks, l))[op.tcc := op.flag(old(GathersAll(w, op.srcs, l)))] else old(Bits(w, masks, l))
    ensures forall t: nat | w.Readable(t) && t !in masks :: w.S(t) == old(w.S(t))
  {
    hide Bit, Admits, GathersAll, WarpState.V, WarpState.S, WarpState.Readable, SourceOk;
    CompareStep(w, op, mask);
  }

  method ComputeLanes(w: WarpState, op: Op, mask: set<nat>, ghost masks: set<nat>, ghost sc: nat -> Word,
                      ghost st: map<nat, Lane>)
    requires HoldsAll(w, masks, sc, st) && op.Compute? && OpOk(w, masks, op) && forall l | l in mask :: l < w.warpSize
    modifies w`activeMask, w.vreg, w.sreg
    ensures w.activeMask == mask && HoldsAll(w, masks, sc, DataAll(op, sc, mask, old(w.activeMask), st))
  {
    hide Bits, Unsigned, Admits, GathersAll, WarpState.V, WarpState.S, WarpState.Readable, Values, SourceOk;
    GathersAllAlone(w, masks, sc, op.srcs, st);
    ComputeColumns(w, op, mask, masks);
  }

  method CompareLanes(w: WarpState, op: Op, mask: set<nat>, ghost masks: set<nat>, ghost sc: nat -> Word,
                      ghost st: map<nat, Lane>)
    requires HoldsAll(w, masks, sc, st) && op.Compare? && OpOk(w, masks, op) && forall l | l in mask :: l < w.warpSize
    modifies w`activeMask, w.sreg
    ensures w.activeMask == mask && HoldsAll(w, masks, sc, DataAll(op, sc, mask, old(w.activeMask), st))
  {
    hide Bits, Unsigned, Admits, GathersAll, WarpState.V, WarpState.S, WarpState.Readable, Values, SourceOk;
    GathersAllAlone(w, masks, sc, op.srcs, st);
    CompareColumns(w, op, mask, masks);
  }

  method Activate(w: WarpState, mask: set<nat>, ghost masks: set<nat>, ghost sc: nat -> Word,
                  ghost st: map<nat, Lane>)
    requires HoldsAll(w, masks, sc, st) && forall l | l in mask :: l < w.warpSize
    modifies w`activeMask
    ensures w.activeMask == mask && HoldsAll(w, masks, sc, st)
  {
    hide Bit, Unsigned, WarpState.V, WarpState.S, WarpState.Readable;
    w.SetActiveMask(mask);
  }

  /** An instruction carried out on the register files is carried out by every lane of `mask` on its own
      registers, except that lanes not active before are given zeros; the other lanes keep theirs. */
  method DataStep(w: WarpState, op: Op, mask: set<nat>, ghost masks: set<nat>, ghost sc: nat -> Word,
                  ghost st: map<nat, Lane>)
    requires HoldsAll(w, masks, sc, st) && OpOk(w, masks, op) && forall l | l in mask :: l < w.warpSize
    modifies w`activeMask, w.vreg, w.sreg
    ensures w.activeMask == mask && HoldsAll(w, masks, sc, DataAll(op, sc, mask, old(w.activeMask), st))
  {
    hide Holds, Scalars;
    if op.Compute? {
      ComputeLanes(w, op, mask, masks, sc, st);
    } else if op.Compare? {
      CompareLanes(w, op, mask, masks, sc, st);
    } else {
      assert DataAll(op, sc, mask, w.activeMask, st) == st;
      Activate(w, mask, masks, sc, st);
    }
  }

  // ---------- lanes the warp has just switched to ----------

  predicate ZeroSources(srcs: seq<Source>, v: seq<Word>) {
    forall k | 0 <= k < |srcs| && srcs[k].VectorReg? && srcs[k].r < |v| :: v[srcs[k].r] == 0
  }

  lemma ColdValuesIff(srcs: seq<Source>, v: seq<Word>, sc: nat -> Word)
    ensures Values(srcs, v, sc, false) == Values(srcs, v, sc, true) <==> ZeroSources(srcs, v)
  {
    var cold, own := Values(srcs, v, sc, false), Values(srcs, v, sc, true);
    if cold == own {
      forall k | 0 <= k < |srcs| && srcs[k].VectorReg? && srcs[k].r < |v| ensures v[srcs[k].r] == 0 {
        assert cold[k] == own[k];
      }
    }
  }

  /** Whatever the opcode computes, the active lanes get what they compute alone: exactly when each of them
      was active before, or its vector sources are zero. */
  lemma OwnDataIff(op: Op, sc: nat -> Word, mask: set<nat>, before: set<nat>, st: map<nat, Lane>)
    requires op.Compute? && forall l | l in st :: op.dst < |st[l].v|
    ensures (forall f: seq<Word> -> Word, flag: seq<Word> -> bool ::
               DataAll(op.(f := f, flag := flag), sc, mask, before, st)
               == DataAll(op.(f := f, flag := flag), sc, mask, mask, st))
            <==> forall l | l in st && l in mask && l !in before :: ZeroSources(op.srcs, st[l].v)
  {
    if l :| l in st && l in mask && l !in before && !ZeroSources(op.srcs, st[l].v) {
      ColdValuesIff(op.srcs, st[l].v, sc);
      var own := Values(op.srcs, st[l].v, sc, true);
      var o := op.(f := (xs: seq<Word>) => if xs == own then 1 else 0, flag := (xs: seq<Word>) => false);
      assert DataAll(o, sc, mask, before, st)[l].v[op.dst] == 0;
      assert DataAll(o, sc, mask, mask, st)[l].v[op.dst] == 1;
    } else {
      forall f: seq<Word> -> Word, flag: seq<Word> -> bool, l | l in st
        ensures DataAll(op.(f := f, flag := flag), sc, mask, before, st)[l]
                == DataAll(op.(f := f, flag := flag), sc, mask, mask, st)[l]
      {
        ColdValuesIff(op.srcs, st[l].v, sc);
      }
    }
  }

  /** Such a lane is met: a branch sends lane 1 to 16, where it exits; lane 0, which has waited at 4, is then
      given 0 for its register, which holds 7. */
  lemma SwitchedLaneReadsZero(sc: nat -> Word) returns (branch: Issue, exit: Issue, op: Op, st: Lane)
    ensures branch == Issue({}, [4, 16], NULL_PC, OtherOp, 4, 0) && Asserts(LaunchStack(0, {0, 1}), branch)
    ensures exit == Issue({1}, [4, NULL_PC], NULL_PC, OtherOp, 4, 16)
    ensures var s1 := NextStack(LaunchStack(0, {0, 1}), branch);
            && Asserts(s1, exit) && Top(s1).mask == {1}
            && NextStack(s1, exit) == [Entry(4, 0, {0}, NULL_PC, Normal)]
    ensures op.Compute? && op.srcs == [VectorReg(0)] && op.dst == 1 && (forall xs | |xs| == 1 :: op.f(xs) == xs[0])
    ensures st.v == [7, 3] && Data(op, sc, st, true).v == [7, 7]
    ensures DataAll(op, sc, {0}, {1}, map[0 := st])[0].v == [7, 0]
  {
    branch := Issue({}, [4, 16], NULL_PC, OtherOp, 4, 0);
    exit := Issue({1}, [4, NULL_PC], NULL_PC, OtherOp, 4, 16);
    op := Compute([VectorReg(0)], 1, (xs: seq<Word>) => if |xs| == 1 then xs[0] else 0, false, 0,
                  (xs: seq<Word>) => false);
    st := Lane(4, [7, 3], map[], false);
    SplitAtLaunch(branch);
  }

  lemma SplitAtLaunch(i: Issue)
    requires i == Issue({}, [4, 16], NULL_PC, OtherOp, 4, 0)
    ensures Asserts(LaunchStack(0, {0, 1}), i)
    ensures NextStack(LaunchStack(0, {0, 1}), i)
            == [Entry(4, 0, {0}, NULL_PC, Normal), Entry(16, 0, {1}, NULL_PC, Normal)]
  {
    var s := LaunchStack(0, {0, 1});
    var live := Live(s, i);
    assert live == {0, 1};
    assert i.Target(0) == 4 && i.Target(1) == 16;
    var paths := Paths(live, i);
    assert paths == {4, 16};
    assert FirstPath(paths, 4) == 4;
    assert paths - {4} == {16};
    assert IsMin(MinPath(paths - {4}), {16});
    assert LanesAt(live, i, 4) == {0} && LanesAt(live, i, 16) == {1};
    assert NextStack(s, i) == Diverge(s, i, 4, 16);
  }

  // ---------- the run ----------

  /** The lanes after as many instructions of their own as each has executed in the warp. */
  ghost function Now(m: Machine, sc: nat -> Word, start: nat -> Lane, trace: map<nat, seq<nat>>): map<nat, Lane> {
    map l | l in trace :: LaneAt(m, sc, start(l), |trace[l]|)
  }

  /** The active lanes stand, each in its own run, at the top's counter. */
  lemma ActiveLanes(u: WarpUnit, m: Machine, sc: nat -> Word, start: nat -> Lane, trace: map<nat, seq<nat>>,
                    ws: seq<R.Warp>, cs: seq<R.Choice>)
    requires u.Valid() && u.warp.stack != [] && K.Reached(u, AsKernel(m, sc, start), trace, ws, cs)
    requires forall l | l in u.threads.lanes :: start(l).pc == 0 && !start(l).exited
    ensures trace.Keys == u.threads.lanes && Top(u.warp.stack).mask <= u.threads.lanes
    ensures forall l | l in Top(u.warp.stack).mask :: l < u.threads.warpSize
    ensures forall l | l in Top(u.warp.stack).mask ::
              Now(m, sc, start, trace)[l].pc == Top(u.warp.stack).pc && !Now(m, sc, start, trace)[l].exited
  {
    hide AsKernel, LaneAt, R.IsRun, R.StartsAtLaunch, Agree;
    var k := AsKernel(m, sc, start);
    K.ReachedCanStep(u, k, trace, ws, cs);
    K.RunLength(k.Lanes(), ws, cs);
    forall l | l in Top(u.warp.stack).mask
      ensures LaneAt(m, sc, start(l), |trace[l]|).pc == Top(u.warp.stack).pc
      ensures !LaneAt(m, sc, start(l), |trace[l]|).exited
    {
      R.RunRefinesLanes(k.Lanes(), ws, cs, |cs|, l);
      AloneIsLane(m, sc, start, l, |trace[l]|);
    }
  }

  lemma NoBits(l: nat)
    ensures !Bit(0, l)
  {
  }

  /** The condition register that the instruction tests. */
  method ReadFlags(w: WarpState, op: Op) returns (tcc: bv32)
    requires w.Valid() && (op.TccJump? ==> w.Readable(op.tcc))
    ensures forall l: nat :: Bit(tcc, l) == (op.TccJump? && Bit(w.S(op.tcc), l))
  {
    hide Bit;
    tcc := 0;
    forall l: nat ensures !Bit(0, l) {
      NoBits(l);
    }
    if op.TccJump? {
      tcc := w.GetSreg(op.tcc);
    }
  }

  ghost predicate Starts(lanes: set<nat>, start: nat -> Lane) {
    forall l | l in lanes :: start(l).pc == 0 && !start(l).exited
  }

  /** What the lanes find in the condition register is what each has left there. */
  lemma FlagsAreOwn(w: WarpState, m: Machine, masks: set<nat>, sc: nat -> Word, start: nat -> Lane,
                    trace: map<nat, seq<nat>>, pc: nat)
    requires HoldsAll(w, masks, sc, Now(m, sc, start, trace)) && OpOk(w, masks, m.op(pc))
    ensures m.op(pc).TccJump? ==> w.Readable(m.op(pc).tcc)
    ensures forall l | l in trace ::
              AsKernel(m, sc, start).flag(l, trace[l] + [pc]) == (m.op(pc).TccJump? && Bit(w.S(m.op(pc).tcc), l))
  {
    hide AsKernel, LaneAt, Bit, WarpState.S, Scalars;
    forall l | l in trace
      ensures AsKernel(m, sc, start).flag(l, trace[l] + [pc])
              == (m.op(pc).TccJump? && Bit(w.S(m.op(pc).tcc), l))
    {
      KernelFlag(m, sc, start, l, trace[l], pc);
      assert Holds(w, masks, l, Now(m, sc, start, trace)[l]);
    }
  }

  predicate NoVector(op: Op) {
    op.Compute? || op.Compare? ==> forall k | 0 <= k < |op.srcs| :: !op.srcs[k].VectorReg?
  }

  lemma ColdData(op: Op, sc: nat -> Word, st: Lane, warm: bool)
    requires NoVector(op)
    ensures Data(op, sc, st, warm) == Data(op, sc, st, true)
  {
    if op.Compute? || op.Compare? {
      assert Values(op.srcs, st.v, sc, warm) == Values(op.srcs, st.v, sc, true);
    }
  }

  /** One more instruction of each active lane. */
  lemma NowSteps(w: WarpState, m: Machine, masks: set<nat>, sc: nat -> Word, start: nat -> Lane,
                 trace: map<nat, seq<nat>>, trace': map<nat, seq<nat>>, mask: set<nat>, before: set<nat>, pc: nat)
    requires trace'.Keys == trace.Keys
    requires forall l | l in trace :: trace'[l] == if l in mask then trace[l] + [pc] else trace[l]
    requires forall l | l in trace && l in mask ::
               Now(m, sc, start, trace)[l].pc == pc && !Now(m, sc, start, trace)[l].exited
    requires mask <= before || NoVector(m.op(pc))
    requires HoldsAll(w, masks, sc, DataAll(m.op(pc), sc, mask, before, Now(m, sc, start, trace)))
    ensures HoldsAll(w, masks, sc, Now(m, sc, start, trace'))
  {
    hide Scalars, Data, Target, NoVector;
    var now, now' := Now(m, sc, start, trace), Now(m, sc, start, trace');
    forall l: nat | l in now' ensures l < w.warpSize && Holds(w, masks, l, now'[l]) {
      assert Holds(w, masks, l, DataAll(m.op(pc), sc, mask, before, now)[l]);
      if l in mask {
        if l !in before {
          ColdData(m.op(pc), sc, now[l], false);
        }
        assert now'[l] == LaneStep(m, sc, now[l]);
      }
    }
  }

  /** Where the lanes wait that a conditional branch leaves behind. */
  function WaitingPc(op: Op, size: nat, pc: nat): nat
    requires op.TccJump?
  {
    if pc + size < WORD then pc + size
    else if Wrap(pc + size) <= Wrap(pc + op.simm) then Wrap(pc + size) else Wrap(pc + op.simm)
  }

  /** The first instruction of the kernel, and the instruction that waits when a conditional branch splits
      the warp, read no vector register. */
  ghost predicate ColdSafe(m: Machine) {
    && NoVector(m.op(0))
    && forall pc: nat | m.op(pc).TccJump? :: NoVector(m.op(WaitingPc(m.op(pc), m.size(pc), pc)))
  }

  /** Entries whose lanes are not active now begin with such an instruction. */
  ghost predicate Ready(m: Machine, s: seq<Entry>, active: set<nat>) {
    forall k | 0 <= k < |s| && (k < |s| - 1 || !(s[k].mask <= active)) :: NoVector(m.op(s[k].pc))
  }

  lemma NextReady(m: Machine, s: seq<Entry>, i: Issue, active: set<nat>)
    requires Asserts(s, i) && NoneRejoin(s) && R.CallFree(s) && i.recvg == NULL_PC && !i.op.CallOp?
    requires Ready(m, s, active)
    requires var paths := Paths(Live(s, i), i);
             |paths| == 2 ==> NoVector(m.op(FirstPath(paths, i.pc + i.size)))
    ensures Ready(m, NextStack(s, i), Top(s).mask)
  {
    hide NextStack, NoVector, Paths;
    NullNext(s, i);
    var s' := NextStack(s, i);
    forall k | 0 <= k < |s'| && (k < |s'| - 1 || !(s'[k].mask <= Top(s).mask)) ensures NoVector(m.op(s'[k].pc)) {
      assert k < |s| - 1 ==> s'[k] == s[k];
    }
  }

  /** Lanes that stand together go two ways at conditional branches only; then the waiting path is known. */
  lemma TwoWays(m: Machine, tcc: bv32, mask: set<nat>, lanes: set<nat>, pc: seq<nat>, done: seq<bool>, top: nat,
                live: set<nat>)
    requires |pc| == |done| && forall l | l in mask :: l < |pc| && pc[l] == top
    requires var i := Issued(K.Decode(m.op(top).Code(), m.size(top), tcc), mask, lanes, pc, done, top);
             live <= mask && live !! i.done && |Paths(live, i)| == 2
    ensures var i := Issued(K.Decode(m.op(top).Code(), m.size(top), tcc), mask, lanes, pc, done, top);
            m.op(top).TccJump? && FirstPath(Paths(live, i), top + m.size(top)) == WaitingPc(m.op(top), m.size(top), top)
  {
    hide Bit, Wrap;
    var inst := K.Decode(m.op(top).Code(), m.size(top), tcc);
    var i := Issued(inst, mask, lanes, pc, done, top);
    var paths := Paths(live, i);
    if inst.opcode.Uniform() {
      UniformIsOnePath(inst, mask, lanes, pc, done, top, live);
    } else {
      var a, b := Wrap(top + m.size(top)), Wrap(top + m.op(top).simm);
      forall l | l in live ensures i.Target(l) in {a, b} {
        assert i.Target(l) == NextPc(inst, mask, pc, l);
      }
      BothPaths(paths, a, b, top + m.size(top));
    }
  }

  lemma BothPaths(paths: set<nat>, a: nat, b: nat, next: nat)
    requires paths <= {a, b} && |paths| == 2 && a == Wrap(next) && b < WORD
    ensures FirstPath(paths, next) == if next < WORD then next else if a <= b then a else b
  {
    SubsetCard(paths, {a, b});
    assert |{a, b}| <= 2;
    assert paths == {a, b} by {
      assert |{a, b} - paths| == |{a, b}| - |paths|;
    }
  }

  /** The instruction's work on the registers, by the lanes of `mask`; `tcc` is the condition register as
      they find it. */
  method DataPart(w: WarpState, m: Machine, mask: set<nat>, pc: nat, ghost trace: map<nat, seq<nat>>,
                  ghost masks: set<nat>, ghost sc: nat -> Word, ghost start: nat -> Lane)
    returns (tcc: bv32)
    requires HoldsAll(w, masks, sc, Now(m, sc, start, trace)) && OpOk(w, masks, m.op(pc))
    requires mask <= trace.Keys && forall l | l in mask :: l < w.warpSize
    modifies w`activeMask, w.vreg, w.sreg
    ensures w.activeMask == mask
    ensures HoldsAll(w, masks, sc, DataAll(m.op(pc), sc, mask, old(w.activeMask), Now(m, sc, start, trace)))
    ensures forall l | l in mask :: Bit(tcc, l) == AsKernel(m, sc, start).flag(l, trace[l] + [pc])
  {
    hide Holds, Scalars, Masks, OpOk, AsKernel, Now, DataAll, Bit, WarpState.S, WarpState.Readable;
    FlagsAreOwn(w, m, masks, sc, start, trace, pc);
    tcc := ReadFlags(w, m.op(pc));
    DataStep(w, m.op(pc), mask, masks, sc, Now(m, sc, start, trace));
  }

  /** One warp instruction: the registers first, then the lanes' counters and the stack. */
  method MachineStep(u: WarpUnit, w: WarpState, m: Machine, trace: map<nat, seq<nat>>, ghost masks: set<nat>,
                     ghost sc: nat -> Word, ghost start: nat -> Lane, ghost ws: seq<R.Warp>, ghost cs: seq<R.Choice>)
    returns (trace': map<nat, seq<nat>>, ghost ws': seq<R.Warp>, ghost cs': seq<R.Choice>)
    requires u.Valid() && u.threads.liveThreads > 0 && K.Reached(u, AsKernel(m, sc, start), trace, ws, cs)
    requires w.warpSize == u.threads.warpSize && Starts(u.threads.lanes, start)
    requires HoldsAll(w, masks, sc, Now(m, sc, start, trace)) && forall pc :: OpOk(w, masks, m.op(pc))
    requires ColdSafe(m) && Ready(m, u.warp.stack, w.activeMask)
    modifies u.warp, u.threads, w`activeMask, w.vreg, w.sreg
    ensures u.Valid() && K.Reached(u, AsKernel(m, sc, start), trace', ws', cs') && |cs'| == |cs| + 1
    ensures HoldsAll(w, masks, sc, Now(m, sc, start, trace')) && Ready(m, u.warp.stack, w.activeMask)
  {
    hide HoldsAll, OpOk, K.Reached, Agree, Now, DataAll, Bit, Masks, Scalars, Holds, AsKernel, NextStack, Asserts;
    hide WarpThreads.Valid, WarpThreads.Settled, WarpThreads.Done, WarpState.Valid, K.Kernel.Lanes, NoVector;
    hide Issued;
    K.LiveMeansStack(u);
    var top := u.warp.stack[|u.warp.stack| - 1];
    ghost var s, active := u.warp.stack, w.activeMask;
    ActiveLanes(u, m, sc, start, trace, ws, cs);
    var tcc := DataPart(w, m, top.mask, top.pc, trace, masks, sc, start);
    var inst := K.Decode(m.op(top.pc).Code(), m.size(top.pc), tcc);
    DecodedAs(m, sc, start, top.pc, tcc);
    ghost var i := u.NextIssue(inst);
    NextWaits(u, m, sc, start, trace, ws, cs, tcc);
    trace', ws', cs' := K.IssueStep(u, tcc, inst, trace, AsKernel(m, sc, start), ws, cs);
    NextReady(m, s, i, active);
    NowSteps(w, m, masks, sc, start, trace, trace', top.mask, active, top.pc);
  }

  /** In a reached state, the path that the next instruction leaves waiting reads no vector register. */
  lemma NextWaits(u: WarpUnit, m: Machine, sc: nat -> Word, start: nat -> Lane, trace: map<nat, seq<nat>>,
                  ws: seq<R.Warp>, cs: seq<R.Choice>, tcc: bv32)
    requires u.Valid() && u.warp.stack != [] && K.Reached(u, AsKernel(m, sc, start), trace, ws, cs) && ColdSafe(m)
    ensures var s, top := u.warp.stack, Top(u.warp.stack).pc;
            var i := u.NextIssue(K.Decode(m.op(top).Code(), m.size(top), tcc));
            var paths := Paths(Live(s, i), i);
            && NoneRejoin(s) && R.CallFree(s) && i.recvg == NULL_PC && !i.op.CallOp?
            && (|paths| == 2 ==> NoVector(m.op(FirstPath(paths, i.pc + i.size))))
  {
    hide AsKernel, Agree, R.IsRun, R.StartsAtLaunch, NoVector, Paths, FirstPath;
    var s, threads, top := u.warp.stack, u.threads, Top(u.warp.stack).pc;
    var i := u.NextIssue(K.Decode(m.op(top).Code(), m.size(top), tcc));
    K.ReachedCanStep(u, AsKernel(m, sc, start), trace, ws, cs);
    if |Paths(Live(s, i), i)| == 2 {
      TwoWays(m, tcc, Top(s).mask, threads.lanes, threads.pc, threads.done, top, Live(s, i));
    }
  }

  lemma DecodedAs(m: Machine, sc: nat -> Word, start: nat -> Lane, pc: nat, tcc: bv32)
    ensures AsKernel(m, sc, start).Decoded(pc, tcc) == K.Decode(m.op(pc).Code(), m.size(pc), tcc)
  {
  }

  lemma ExitsAsKernel(m: Machine, sc: nat -> Word, start: nat -> Lane, l: nat, b: nat)
    requires start(l).pc == 0 && !start(l).exited && LaneAt(m, sc, start(l), b).exited
    ensures R.ExitsWithin(AsKernel(m, sc, start).Lanes(), l, 0, b)
    ensures LaneAt(m, sc, start(l), |R.Alone(AsKernel(m, sc, start).Lanes(), l, 0, b)|) == LaneAt(m, sc, start(l), b)
  {
    hide AsKernel, LaneAt;
    AloneIsLane(m, sc, start, l, b);
    var n := |R.Alone(AsKernel(m, sc, start).Lanes(), l, 0, b)|;
    if n < b {
      ExitedStays(m, sc, start(l), n, b);
    }
  }

  ghost function After(m: Machine, sc: nat -> Word, lanes: set<nat>, start: nat -> Lane, n: nat): map<nat, Lane> {
    map l | l in lanes :: LaneAt(m, sc, start(l), n)
  }

  lemma AtLaunch(m: Machine, sc: nat -> Word, start: nat -> Lane, lanes: set<nat>)
    ensures Now(m, sc, start, map l | l in lanes :: []) == After(m, sc, lanes, start, 0)
  {
  }

  lemma AtEnd(m: Machine, sc: nat -> Word, start: nat -> Lane, trace: map<nat, seq<nat>>, b: nat)
    requires Starts(trace.Keys, start) && forall l | l in trace :: LaneAt(m, sc, start(l), b).exited
    requires forall l | l in trace :: trace[l] == R.Alone(AsKernel(m, sc, start).Lanes(), l, 0, b)
    ensures Now(m, sc, start, trace) == After(m, sc, trace.Keys, start, b)
  {
    hide AsKernel, LaneAt;
    forall l | l in trace ensures Now(m, sc, start, trace)[l] == LaneAt(m, sc, start(l), b) {
      ExitsAsKernel(m, sc, start, l, b);
    }
  }

  lemma AllExit(m: Machine, sc: nat -> Word, start: nat -> Lane, lanes: set<nat>, b: nat)
    requires Starts(lanes, start) && forall l | l in lanes :: LaneAt(m, sc, start(l), b).exited
    ensures forall l | l in lanes :: R.ExitsWithin(AsKernel(m, sc, start).Lanes(), l, 0, b)
  {
    hide AsKernel, LaneAt, R.ExitsWithin;
    forall l | l in lanes ensures R.ExitsWithin(AsKernel(m, sc, start).Lanes(), l, 0, b) {
      ExitsAsKernel(m, sc, start, l, b);
    }
  }

  /** One warp runs the machine to its end.  If each lane alone exits within `b` instructions, then so does
      the warp, with the stack empty, and every vector register of every lane and every lane's bit of
      every mask register are what the lane computes alone. */
  method RunMachine(u: WarpUnit, w: WarpState, m: Machine, ghost masks: set<nat>, ghost sc: nat -> Word,
                    ghost start: nat -> Lane, ghost b: nat)
    returns (trace: map<nat, seq<nat>>)
    requires u.Valid() && u.threads.lanes != {} && w.warpSize == u.threads.warpSize
    requires u.warp.stack == LaunchStack(0, u.threads.lanes) && u.threads.Done() == {}
    requires forall l | l in u.threads.lanes :: u.threads.pc[l] == 0
    requires Starts(u.threads.lanes, start) && HoldsAll(w, masks, sc, After(m, sc, u.threads.lanes, start, 0))
    requires ColdSafe(m) && forall pc :: OpOk(w, masks, m.op(pc))
    requires forall l | l in u.threads.lanes :: LaneAt(m, sc, start(l), b).exited
    modifies u.warp, u.threads, w`activeMask, w.vreg, w.sreg
    ensures u.Valid() && u.threads.liveThreads == 0 && u.threads.Done() == u.threads.lanes && u.warp.stack == []
    ensures HoldsAll(w, masks, sc, After(m, sc, u.threads.lanes, start, b))
  {
    hide HoldsAll, OpOk, Agree, AsKernel, R.IsRun, R.StartsAtLaunch, R.ExitsWithin, LaneAt, Now, After;
    ghost var k, lanes := AsKernel(m, sc, start), u.threads.lanes;
    trace := map l | l in u.threads.lanes :: [];
    ghost var ws, cs := [K.State(u, trace)], [];
    K.LaunchReached(u, k, trace, ws[0]);
    AtLaunch(m, sc, start, lanes);
    AllExit(m, sc, start, lanes, b);
    R.RunTerminates(k.Lanes(), ws, cs, b);
    while u.threads.liveThreads > 0
      invariant u.Valid() && K.Reached(u, k, trace, ws, cs)
      invariant HoldsAll(w, masks, sc, Now(m, sc, start, trace)) && Ready(m, u.warp.stack, w.activeMask)
      invariant |cs| <= |lanes| * b
      decreases |lanes| * b - |cs|
    {
      trace, ws, cs := MachineStep(u, w, m, trace, masks, sc, start, ws, cs);
      R.RunTerminates(k.Lanes(), ws, cs, b);
    }
    K.AllDone(u, k, trace, ws, cs, b);
    AtEnd(m, sc, start, trace, b);
  }
}
