/** A vector instruction as a warp carries it out (isa/inc/Instruction.h): operands are collected
    from the register files into buffers, every active lane computes from the buffers, and the
    destination is written back. */
module VectorSteps {
  import opened LaneBits
  import opened Registers
  import opened Words

  datatype RegType = Scalar | Tcc | Vector

  function UnsignedAll(s: seq<bv32>): (words: seq<Word>)
    ensures |words| == |s| && forall i | 0 <= i < |s| :: words[i] == Unsigned(s[i])
  {
    seq(|s|, i requires 0 <= i < |s| => Unsigned(s[i]))
  }

  function Column(rows: seq<seq<Word>>, l: nat): (words: seq<Word>)
    requires forall row | row in rows :: l < |row|
    ensures |words| == |rows| && forall i | 0 <= i < |rows| :: words[i] == rows[i][l]
  {
    seq(|rows|, i requires 0 <= i < |rows| => rows[i][l])
  }

  ghost function VectorWords(w: WarpState, r: nat, n: nat, l: nat): (words: seq<Word>)
    requires w.Valid() && r + n <= w.vregs && l < w.warpSize
    reads w, w.vreg
    ensures |words| == n && forall i | 0 <= i < n :: words[i] == w.V(r + i, l)
  {
    if n == 0 then [] else VectorWords(w, r, n - 1, l) + [w.V(r + n - 1, l)]
  }

  ghost function ScalarWords(w: WarpState, r: nat, n: nat): (words: seq<Word>)
    requires w.Valid() && w.AllReadable(r, n)
    reads w, w.sreg
    ensures |words| == n && forall i | 0 <= i < n :: words[i] == Unsigned(w.S(r + i))
  {
    if n == 0 then [] else ScalarWords(w, r, n - 1) + [Unsigned(w.S(r + n - 1))]
  }

  class Operand {
    const isImm: bool
    const imm: Word
    const regType: RegType
    const regIdx: nat
    const range: nat
    var value: seq<bv32>
    var vectorValue: seq<seq<Word>>
    var ready: seq<bool>

    constructor (isImm: bool, imm: Word, regType: RegType, regIdx: nat, range: nat, warpSize: nat)
      ensures this.isImm == isImm && this.imm == imm && this.regType == regType
      ensures this.regIdx == regIdx && this.range == range
      ensures forall w: WarpState | w.warpSize == warpSize && (isImm || InFile(w)) :: Fits(w)
    {
      this.isImm, this.imm, this.regType, this.regIdx, this.range := isImm, imm, regType, regIdx, range;
      value, ready := seq(range, _ => 0), seq(warpSize, _ => false);
      vectorValue := seq(range, _ => seq(warpSize, _ => 0));
    }

    /** The operand names registers the warp has, and its buffers have the operand's sizes. */
    ghost predicate Fits(w: WarpState)
      reads this
    {
      && |value| == |vectorValue| == range && |ready| == w.warpSize
      && (forall i | 0 <= i < range :: |vectorValue[i]| == w.warpSize)
      && (!isImm ==> InFile(w))
    }

    ghost predicate InFile(w: WarpState) {
      if regType.Vector? then regIdx + range <= w.vregs
      else w.AllReadable(regIdx, range)
    }

    /** The registers the operand names, as lane `l` sees them. */
    ghost function Current(w: WarpState, l: nat): (words: seq<Word>)
      requires w.Valid() && l < w.warpSize && (isImm || InFile(w))
      reads w, w.vreg, w.sreg
    {
      if isImm then [imm]
      else if regType.Vector? then VectorWords(w, regIdx, range, l)
      else ScalarWords(w, regIdx, range)
    }

    /** What collection under the mask in force finds for lane `l`: a lane outside the mask reads vector
        registers as zero. */
    ghost function Gathered(w: WarpState, l: nat): (words: seq<Word>)
      requires w.Valid() && l < w.warpSize && (isImm || InFile(w))
      reads w, w.vreg, w.sreg
    {
      if isImm || !regType.Vector? || l in w.activeMask then Current(w, l) else seq(range, _ => 0)
    }

    /** What lane `l` finds in the buffers. */
    ghost function Held(w: WarpState, l: nat): (words: seq<Word>)
      requires Fits(w) && l < w.warpSize
      reads this
      ensures !isImm ==> |words| == range
    {
      if isImm then [imm]
      else if regType.Vector? then Column(vectorValue, l)
      else UnsignedAll(value)
    }

    /** One register of a vector operand, active lanes only; the others read as zero. */
    method ReadRow(w: WarpState, r: nat) returns (row: seq<Word>)
      requires w.Valid() && r < w.vregs && |ready| == w.warpSize
      modifies this`ready
      ensures |ready| == |row| == w.warpSize
      ensures forall l | 0 <= l < w.warpSize :: row[l] == if l in w.activeMask then w.V(r, l) else 0
    {
      row := seq(w.warpSize, _ => 0);
      for j := 0 to w.warpSize
        invariant |ready| == |row| == w.warpSize
        invariant forall l | 0 <= l < w.warpSize :: row[l] == if l in w.activeMask && l < j then w.V(r, l) else 0
      {
        if j in w.activeMask {
          ready := ready[j := true];
          var v := w.GetVreg(r, j);
          row := row[j := v];
        }
      }
    }

    method ReadVector(w: WarpState)
      requires w.Valid() && Fits(w) && !isImm && regType.Vector?
      modifies this
      ensures Fits(w)
      ensures forall l | 0 <= l < w.warpSize :: Held(w, l) == Gathered(w, l)
    {
      for i := 0 to range
        invariant Fits(w)
        invariant forall k, l | 0 <= k < i && 0 <= l < w.warpSize ::
                    vectorValue[k][l] == if l in w.activeMask then w.V(regIdx + k, l) else 0
      {
        var row := ReadRow(w, regIdx + i);
        vectorValue := vectorValue[i := row];
      }
      forall l | 0 <= l < w.warpSize ensures Held(w, l) == Gathered(w, l) {
        assert forall i | 0 <= i < range :: Held(w, l)[i] == Gathered(w, l)[i];
      }
    }

    method ReadScalar(w: WarpState)
      requires w.Valid() && Fits(w) && !isImm && !regType.Vector?
      modifies this`value
      ensures Fits(w)
      ensures forall i | 0 <= i < range :: value[i] == w.S(regIdx + i)
      ensures forall l | 0 <= l < w.warpSize :: Held(w, l) == Gathered(w, l)
    {
      for i := 0 to range
        invariant Fits(w)
        invariant forall k | 0 <= k < i :: value[k] == w.S(regIdx + k)
      {
        var v := w.GetSreg(regIdx + i);
        value := value[i := v];
      }
      assert UnsignedAll(value) == ScalarWords(w, regIdx, range);
    }

    method ReadReg(w: WarpState)
      requires w.Valid() && Fits(w)
      modifies this
      ensures Fits(w)
      ensures forall l | 0 <= l < w.warpSize :: Held(w, l) == Gathered(w, l)
      ensures !isImm && !regType.Vector? ==> forall i | 0 <= i < range :: value[i] == w.S(regIdx + i)
    {
      if isImm {
      } else if regType.Vector? {
        ReadVector(w);
      } else {
        ReadScalar(w);
      }
    }

    method GetValueX(w: WarpState, l: nat) returns (words: seq<Word>)
      requires Fits(w) && l < w.warpSize
      ensures words == Held(w, l)
    {
      if isImm { return [imm]; }
      if !regType.Vector? { return UnsignedAll(value); }
      words := [];
      for i := 0 to range
        invariant |words| == i && forall k | 0 <= k < i :: words[k] == vectorValue[k][l]
      {
        words := words + [vectorValue[i][l]];
      }
      assert words == Held(w, l);
    }

    /** `setValueX` on a vector operand: one lane's column and nothing else. */
    method SetValueX(w: WarpState, words: seq<Word>, l: nat)
      requires Fits(w) && l < w.warpSize && !isImm && regType.Vector? && |words| == range
      modifies this`vectorValue, this`ready
      ensures Fits(w)
      ensures Held(w, l) == words && (range > 0 ==> ready[l])
      ensures forall k | 0 <= k < w.warpSize && k != l :: Held(w, k) == old(Held(w, k)) && ready[k] == old(ready[k])
    {
      for i := 0 to range
        invariant Fits(w) && (i > 0 ==> ready[l])
        invariant forall r | 0 <= r < i :: vectorValue[r][l] == words[r]
        invariant forall r, k | 0 <= r < range && 0 <= k < w.warpSize && k != l ::
            vectorValue[r][k] == old(vectorValue)[r][k]
        invariant forall k | 0 <= k < w.warpSize && k != l :: ready[k] == old(ready)[k]
      {
        ready := ready[l := true];
        vectorValue := vectorValue[i := vectorValue[i][l := words[i]]];
      }
    }

    /** `setBitmask`: one lane's bit of the buffered first word. */
    method SetBitmask(w: WarpState, on: bool, l: nat)
      requires Fits(w) && l < w.warpSize <= 32 && !isImm && !regType.Vector? && range > 0
      modifies this`value
      ensures Fits(w) && value == old(value)[0 := WithBit(old(value)[0], l, on)]
    {
      value := value[0 := WithBit(value[0], l, on)];
    }

    method WriteVector(w: WarpState)
      requires w.Valid() && Fits(w) && !isImm && regType.Vector?
      requires range > 0 ==> forall l: nat | l in w.activeMask :: ready[l]
      modifies w.vreg
      ensures forall r, l | 0 <= r < w.vregs && 0 <= l < w.warpSize ::
                w.V(r, l) == if l in w.activeMask && regIdx <= r < regIdx + range then Held(w, l)[r - regIdx]
                             else old(w.V(r, l))
    {
      for i := 0 to range
        invariant forall r, l | 0 <= r < w.vregs && 0 <= l < w.warpSize ::
                    w.V(r, l) == if l in w.activeMask && regIdx <= r < regIdx + i then vectorValue[r - regIdx][l]
                                 else old(w.V(r, l))
      {
        for j := 0 to w.warpSize
          invariant forall r, l | 0 <= r < w.vregs && 0 <= l < w.warpSize ::
                      w.V(r, l) == if l in w.activeMask && (regIdx <= r < regIdx + i || (r == regIdx + i && l < j))
                                   then vectorValue[r - regIdx][l] else old(w.V(r, l))
        {
          if j in w.activeMask {
            assert ready[j];
            w.SetVreg(regIdx + i, vectorValue[i][j], j);
          }
        }
      }
    }

    method WriteScalar(w: WarpState)
      requires w.Valid() && Fits(w) && !isImm && !regType.Vector?
      requires forall r | regIdx <= r < regIdx + range :: w.Usable(r)
      modifies w.sreg
      ensures forall i | 0 <= i < range :: w.S(regIdx + i) == value[i]
      ensures forall t: nat | w.Readable(t) && !(regIdx <= t < regIdx + range) :: w.S(t) == old(w.S(t))
    {
      for i := 0 to range
        invariant forall k | 0 <= k < i :: w.S(regIdx + k) == value[k]
        invariant forall t: nat | w.Readable(t) && !(regIdx <= t < regIdx + range) :: w.S(t) == old(w.S(t))
      {
        assert w.Usable(regIdx + i);
        w.SetSreg(regIdx + i, value[i]);
      }
    }
  }

  /** A source of one register, as the decoders of vector instructions make them. */
  datatype Source = Immediate(value: Word) | ScalarReg(s: nat) | VectorReg(r: nat)

  ghost predicate Admits(w: WarpState, src: Source) {
    match src
    case Immediate(_) => true
    case ScalarReg(s) => w.Readable(s)
    case VectorReg(r) => r < w.vregs
  }

  /** What lane `l` reads from it. */
  ghost function Reads(w: WarpState, src: Source, l: nat): Word
    requires w.Valid() && Admits(w, src) && l < w.warpSize
    reads w, w.vreg, w.sreg
  {
    match src
    case Immediate(v) => v
    case ScalarReg(s) => Unsigned(w.S(s))
    case VectorReg(r) => w.V(r, l)
  }

  /** What an instruction gathers for lane `l`, under the mask in force. */
  ghost function Gathers(w: WarpState, src: Source, l: nat): Word
    requires w.Valid() && Admits(w, src) && l < w.warpSize
    reads w, w.vreg, w.sreg
  {
    if src.VectorReg? && l !in w.activeMask then 0 else Reads(w, src, l)
  }

  /** `makeOperand` for a source. */
  method DecodeSource(w: WarpState, src: Source) returns (o: Operand)
    requires w.Valid() && Admits(w, src)
    ensures fresh(o) && o.Fits(w)
    ensures forall l | 0 <= l < w.warpSize :: o.Gathered(w, l) == [Gathers(w, src, l)]
  {
    hide WarpState.V, WarpState.S, Unsigned, WarpState.Readable;
    match src
    case Immediate(v) =>
      o := new Operand(true, v, Scalar, 0, 1, w.warpSize);
    case ScalarReg(s) =>
      o := new Operand(false, 0, Scalar, s, 1, w.warpSize);
      assert forall l | 0 <= l < w.warpSize :: o.Current(w, l) == [Unsigned(w.S(s + 0))];
    case VectorReg(r) =>
      o := new Operand(false, 0, Vector, r, 1, w.warpSize);
      assert forall l | 0 <= l < w.warpSize :: o.Current(w, l) == [w.V(r + 0, l)];
  }

  ghost predicate AllFit(ops: seq<Operand>, w: WarpState)
    reads ops
  {
    forall k | 0 <= k < |ops| :: ops[k].Fits(w)
  }

  ghost predicate AllInFile(ops: seq<Operand>, w: WarpState) {
    forall k | 0 <= k < |ops| :: ops[k].isImm || ops[k].InFile(w)
  }

  /** What lane `l` would read from the operands' registers, what is gathered for it, and what it finds in
      the buffers. */
  ghost function CurrentAll(ops: seq<Operand>, w: WarpState, l: nat): (args: seq<seq<Word>>)
    requires w.Valid() && l < w.warpSize && AllInFile(ops, w)
    reads w, w.vreg, w.sreg
    ensures |args| == |ops| && forall k | 0 <= k < |ops| :: args[k] == ops[k].Current(w, l)
  {
    seq(|ops|, k requires 0 <= k < |ops| && w.Valid() reads w, w.vreg, w.sreg => ops[k].Current(w, l))
  }

  ghost function GatheredAll(ops: seq<Operand>, w: WarpState, l: nat): (args: seq<seq<Word>>)
    requires w.Valid() && l < w.warpSize && AllInFile(ops, w)
    reads w, w.vreg, w.sreg
    ensures |args| == |ops| && forall k | 0 <= k < |ops| :: args[k] == ops[k].Gathered(w, l)
  {
    seq(|ops|, k requires 0 <= k < |ops| && w.Valid() reads w, w.vreg, w.sreg => ops[k].Gathered(w, l))
  }

  ghost function HeldAll(ops: seq<Operand>, w: WarpState, l: nat): (args: seq<seq<Word>>)
    requires AllFit(ops, w) && l < w.warpSize
    reads ops
    ensures |args| == |ops| && forall k | 0 <= k < |ops| :: args[k] == ops[k].Held(w, l)
  {
    if ops == [] then [] else HeldAll(ops[..|ops| - 1], w, l) + [ops[|ops| - 1].Held(w, l)]
  }

  /** The operand's vector registers, if it names any, are zero in the lane. */
  ghost predicate Zero(o: Operand, w: WarpState, l: nat)
    requires w.Valid() && (o.isImm || o.InFile(w)) && l < w.warpSize
    reads w, w.vreg
  {
    !o.isImm && o.regType.Vector? ==> forall r | o.regIdx <= r < o.regIdx + o.range :: w.V(r, l) == 0
  }

  lemma GatheredOneIff(o: Operand, w: WarpState, l: nat)
    requires w.Valid() && (o.isImm || o.InFile(w)) && l < w.warpSize
    ensures o.Gathered(w, l) == o.Current(w, l) <==> l in w.activeMask || Zero(o, w, l)
  {
    hide WarpState.V, WarpState.S;
    if !o.isImm && o.regType.Vector? {
      var own, zeros := o.Current(w, l), seq(o.range, _ => 0 as Word);
      assert forall r | o.regIdx <= r < o.regIdx + o.range :: own[r - o.regIdx] == w.V(r, l);
      assert own == zeros <==> forall i | 0 <= i < o.range :: own[i] == 0;
    }
  }

  /** A lane is given its own registers' values exactly when it was active already, or they are zero. */
  lemma GatheredIsCurrentIff(ops: seq<Operand>, w: WarpState, l: nat)
    requires w.Valid() && AllInFile(ops, w) && l < w.warpSize
    ensures GatheredAll(ops, w, l) == CurrentAll(ops, w, l)
            <==> l in w.activeMask || forall k | 0 <= k < |ops| :: Zero(ops[k], w, l)
  {
    hide Operand.Current, Operand.Gathered, Zero;
    forall k | 0 <= k < |ops|
      ensures ops[k].Gathered(w, l) == ops[k].Current(w, l) <==> l in w.activeMask || Zero(ops[k], w, l)
    {
      GatheredOneIff(ops[k], w, l);
    }
    var own, args := CurrentAll(ops, w, l), GatheredAll(ops, w, l);
    assert own == args <==> forall k | 0 <= k < |ops| :: own[k] == args[k];
  }

  /** A vector instruction: `compute` and `flag` are its opcode's function of one lane's source
      values, `flag` going to the lane's bit of `vcc` (when `setsVcc`) or of the destination (a
      compare). */
  class VectorInstruction {
    const srcs: seq<Operand>
    const dst: Operand
    const compute: seq<seq<Word>> -> seq<Word>
    const flag: seq<seq<Word>> -> bool
    const setsVcc: bool
    const vcc: nat

    constructor (srcs: seq<Operand>, dst: Operand, compute: seq<seq<Word>> -> seq<Word>,
                 flag: seq<seq<Word>> -> bool, setsVcc: bool, vcc: nat)
      ensures this.srcs == srcs && this.dst == dst && this.compute == compute && this.flag == flag
      ensures this.setsVcc == setsVcc && this.vcc == vcc
    {
      this.srcs, this.dst, this.compute, this.flag, this.setsVcc, this.vcc := srcs, dst, compute, flag, setsVcc, vcc;
    }

    ghost predicate Decoded(w: WarpState)
      reads w, srcs, dst
    {
      && w.Valid() && AllFit(srcs, w) && AllInFile(srcs, w) && dst.Fits(w) && !dst.isImm
      && dst !in srcs && (forall j, k | 0 <= j < k < |srcs| :: srcs[j] != srcs[k])
      && (setsVcc ==> w.Usable(vcc))
    }

    ghost function Wanted(w: WarpState, n: nat): (args: seq<seq<seq<Word>>>)
      requires w.Valid() && n <= w.warpSize && AllInFile(srcs, w)
      reads w, w.vreg, w.sreg
      ensures |args| == n && forall l | 0 <= l < n :: args[l] == GatheredAll(srcs, w, l)
    {
      if n == 0 then [] else Wanted(w, n - 1) + [GatheredAll(srcs, w, n - 1)]
    }

    /** Collection leaves in the buffers what the registers hold, and zeros for lanes outside the mask in
        force; `args` names it. */
    method CollectSources(w: WarpState, ghost args: seq<seq<seq<Word>>>)
      requires Decoded(w) && |args| == w.warpSize
      requires forall l | 0 <= l < w.warpSize :: args[l] == GatheredAll(srcs, w, l)
      modifies srcs
      ensures Decoded(w)
      ensures forall l | 0 <= l < w.warpSize :: HeldAll(srcs, w, l) == args[l]
    {
      hide Operand.Held, Operand.Gathered, Operand.Fits, WarpState.Readable, HeldAll, GatheredAll;
      for n := 0 to |srcs|
        invariant Decoded(w)
        invariant forall k, l | 0 <= k < n && 0 <= l < w.warpSize :: srcs[k].Held(w, l) == args[l][k]
      {
        srcs[n].ReadReg(w);
      }
    }

    method OperandCollect(w: WarpState, ghost args: seq<seq<seq<Word>>>)
      requires Decoded(w) && |args| == w.warpSize
      requires forall l | 0 <= l < w.warpSize :: args[l] == GatheredAll(srcs, w, l)
      modifies srcs, dst
      ensures Decoded(w)
      ensures forall l | 0 <= l < w.warpSize :: HeldAll(srcs, w, l) == args[l]
      ensures dst.regType.Tcc? ==> forall i | 0 <= i < dst.range :: dst.value[i] == w.S(dst.regIdx + i)
    {
      CollectSources(w, args);
      if dst.regType.Tcc? {
        dst.ReadReg(w);
      }
    }

    method Arguments(w: WarpState, l: nat) returns (args: seq<seq<Word>>)
      requires AllFit(srcs, w) && l < w.warpSize
      ensures args == HeldAll(srcs, w, l)
    {
      args := [];
      for n := 0 to |srcs|
        invariant |args| == n && forall k | 0 <= k < n :: args[k] == srcs[k].Held(w, l)
      {
        var a := srcs[n].GetValueX(w, l);
        args := args + [a];
      }
      assert args == HeldAll(srcs, w, l);
    }

    /** The opcode on one lane, whose buffered sources are `args`. */
    method Execute(w: WarpState, l: nat, ghost args: seq<seq<Word>>)
      requires Decoded(w) && dst.regType.Vector? && l < w.warpSize
      requires HeldAll(srcs, w, l) == args && |compute(args)| == dst.range
      modifies dst, w.sreg
      ensures Decoded(w)
      ensures dst.Held(w, l) == compute(args) && (dst.range > 0 ==> dst.ready[l])
      ensures forall k | 0 <= k < w.warpSize && k != l ::
                dst.Held(w, k) == old(dst.Held(w, k)) && dst.ready[k] == old(dst.ready[k])
      ensures setsVcc ==>
                forall k | 0 <= k < w.warpSize ::
                    Bit(w.S(vcc), k) == if k == l then flag(args) else Bit(old(w.S(vcc)), k)
      ensures forall t: nat | w.Readable(t) && !(setsVcc && t == vcc) :: w.S(t) == old(w.S(t))
    {
      var read := Arguments(w, l);
      dst.SetValueX(w, compute(read), l);
      if setsVcc {
        w.SetBit(vcc, flag(read), l);
      }
    }

    method ExecuteLanes(w: WarpState, ghost args: seq<seq<seq<Word>>>)
      requires Decoded(w) && dst.regType.Vector?
      requires forall x :: |compute(x)| == dst.range
      requires |args| == w.warpSize && forall l: nat | l in w.activeMask :: HeldAll(srcs, w, l) == args[l]
      modifies dst, w.sreg
      ensures Decoded(w)
      ensures forall l: nat | l in w.activeMask ::
                dst.Held(w, l) == compute(args[l]) && (dst.range > 0 ==> dst.ready[l])
      ensures setsVcc ==>
                forall l | 0 <= l < w.warpSize ::
                  Bit(w.S(vcc), l) == if l in w.activeMask then flag(args[l]) else Bit(old(w.S(vcc)), l)
      ensures forall t: nat | w.Readable(t) && !(setsVcc && t == vcc) :: w.S(t) == old(w.S(t))
    {
      hide Operand.Held, Bit;
      for n := 0 to w.warpSize
        invariant Decoded(w)
        invariant forall l: nat | l in w.activeMask :: HeldAll(srcs, w, l) == args[l]
        invariant forall l: nat | l in w.activeMask && l < n ::
                    dst.Held(w, l) == compute(args[l]) && (dst.range > 0 ==> dst.ready[l])
        invariant setsVcc ==>
                    forall l | 0 <= l < w.warpSize ::
                      Bit(w.S(vcc), l) == if l in w.activeMask && l < n then flag(args[l]) else Bit(old(w.S(vcc)), l)
        invariant forall t: nat | w.Readable(t) && !(setsVcc && t == vcc) :: w.S(t) == old(w.S(t))
      {
        if n in w.activeMask {
          Execute(w, n, args[n]);
        }
      }
    }

    /** The whole instruction, for the lanes of `mask`.  The operands are collected before the mask is set,
        so under the mask of the instruction before.  It is a simultaneous map: every destination register
        of every active lane takes the opcode's value at what the lane has gathered, also where the
        destination overlaps a source, and nothing else changes but the active lanes' carry bits. */
    method Step(w: WarpState, mask: set<nat>)
      requires Decoded(w) && dst.regType.Vector? && forall l | l in mask :: l < w.warpSize
      requires forall x :: |compute(x)| == dst.range
      modifies srcs, dst, w`activeMask, w.vreg, w.sreg
      ensures Decoded(w) && w.activeMask == mask
      ensures forall r, l | 0 <= r < w.vregs && 0 <= l < w.warpSize ::
                w.V(r, l) == if l in mask && dst.regIdx <= r < dst.regIdx + dst.range
                             then compute(old(GatheredAll(srcs, w, l)))[r - dst.regIdx] else old(w.V(r, l))
      ensures setsVcc ==>
                forall l | 0 <= l < w.warpSize :: Bit(w.S(vcc), l) ==
                  if l in mask then flag(old(GatheredAll(srcs, w, l))) else Bit(old(w.S(vcc)), l)
      ensures forall t: nat | w.Readable(t) && !(setsVcc && t == vcc) :: w.S(t) == old(w.S(t))
    {
      hide Operand.Held, Operand.Gathered, Operand.Fits, WarpState.Readable, HeldAll, GatheredAll,
          WarpState.V, WarpState.S, Wanted;
      ghost var args := Wanted(w, w.warpSize);
      OperandCollect(w, args);
      w.SetActiveMask(mask);
      ExecuteLanes(w, args);
      dst.WriteVector(w);
    }

    method CompareLanes(w: WarpState, ghost args: seq<seq<seq<Word>>>)
      requires Decoded(w) && dst.regType.Tcc? && dst.range > 0
      requires |args| == w.warpSize && forall l: nat | l in w.activeMask :: HeldAll(srcs, w, l) == args[l]
      modifies dst`value
      ensures Decoded(w)
      ensures forall l | 0 <= l < w.warpSize ::
                Bit(dst.value[0], l) == if l in w.activeMask then flag(args[l]) else Bit(old(dst.value)[0], l)
      ensures dst.value[1..] == old(dst.value)[1..]
    {
      hide Bit, WithBit;
      for n := 0 to w.warpSize
        invariant Decoded(w)
        invariant forall l: nat | l in w.activeMask :: HeldAll(srcs, w, l) == args[l]
        invariant forall l | 0 <= l < w.warpSize ::
                    Bit(dst.value[0], l) == if l in w.activeMask && l < n then flag(args[l])
                                            else Bit(old(dst.value)[0], l)
        invariant dst.value[1..] == old(dst.value)[1..]
      {
        if n in w.activeMask {
          var read := Arguments(w, n);
          forall l | 0 <= l < w.warpSize
            ensures Bit(WithBit(dst.value[0], n, flag(read)), l) == if l == n then flag(read) else Bit(dst.value[0], l)
          {
            BitOfWithBit(dst.value[0], n, l, flag(read));
          }
          dst.SetBitmask(w, flag(read), n);
        }
      }
    }

    /** A compare changes the active lanes' bits of its destination register and nothing else. */
    method CompareStep(w: WarpState, mask: set<nat>)
      requires Decoded(w) && dst.regType.Tcc? && dst.range > 0 && forall l | l in mask :: l < w.warpSize
      requires forall t | dst.regIdx <= t < dst.regIdx + dst.range :: w.Usable(t)
      modifies srcs, dst, w`activeMask, w.sreg
      ensures Decoded(w) && w.activeMask == mask
      ensures forall r, l | 0 <= r < w.vregs && 0 <= l < w.warpSize :: w.V(r, l) == old(w.V(r, l))
      ensures forall l | 0 <= l < w.warpSize :: Bit(w.S(dst.regIdx), l) ==
                if l in mask then flag(old(GatheredAll(srcs, w, l))) else Bit(old(w.S(dst.regIdx)), l)
      ensures forall t: nat | t != dst.regIdx && w.Readable(t) :: w.S(t) == old(w.S(t))
    {
      hide Operand.Held, Operand.Gathered, HeldAll, GatheredAll, WarpState.V, WarpState.S, Wanted, Bit;
      ghost var args := Wanted(w, w.warpSize);
      OperandCollect(w, args);
      ghost var before := dst.value;
      w.SetActiveMask(mask);
      CompareLanes(w, args);
      dst.WriteScalar(w);
      assert w.S(dst.regIdx + 0) == dst.value[0] && before[0] == old(w.S(dst.regIdx + 0));
      forall t: nat | t != dst.regIdx && w.Readable(t) ensures w.S(t) == old(w.S(t)) {
        if dst.regIdx <= t < dst.regIdx + dst.range {
          var i := t - dst.regIdx;
          assert w.S(dst.regIdx + i) == dst.value[i] == dst.value[1..][i - 1] == before[1..][i - 1] == before[i];
        }
      }
    }
  }
}
