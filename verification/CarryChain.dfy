/** Addition of numbers of any length, one 32-bit limb an instruction: V_ADDCO_U32 for the lowest
    limb (isa/InstructionVOP2.cpp), then V_ADDC_U32 through one carry register
    (isa/InstructionVOP3B.cpp). */
module CarryChain {
  import opened LaneBits
  import opened Registers
  import opened VectorSteps
  import opened Words

  function Num(c: bool): nat {
    if c then 1 else 0
  }

  function Sum(x: Word, y: Word, c: bool): Word {
    Wrap(x + y + Num(c))
  }

  predicate CarryOut(x: Word, y: Word, c: bool) {
    (x + y + Num(c)) / WORD != 0
  }

  function Pow(n: nat): nat {
    if n == 0 then 1 else WORD * Pow(n - 1)
  }

  /** The number a list of limbs stands for, lowest limb first. */
  function Value(limbs: seq<Word>): nat {
    if limbs == [] then 0 else Value(limbs[..|limbs| - 1]) + limbs[|limbs| - 1] * Pow(|limbs| - 1)
  }

  lemma {:induction false} ValueBelow(x: seq<Word>)
    ensures Value(x) < Pow(|x|)
  {
    if x != [] {
      var n := |x| - 1;
      ValueBelow(x[..n]);
      MulMonotone(x[n], WORD - 1, Pow(n));
    }
  }

  /** Limbs are digits: numbers of the same length are equal only if all their limbs are. */
  lemma {:induction false} LimbsAreDigits(x: seq<Word>, y: seq<Word>)
    requires |x| == |y| && Value(x) == Value(y)
    ensures x == y
  {
    if x != [] {
      var n := |x| - 1;
      ValueBelow(x[..n]);
      ValueBelow(y[..n]);
      Quotient(Value(x), Pow(n), x[n], Value(x[..n]));
      Quotient(Value(y), Pow(n), y[n], Value(y[..n]));
      LimbsAreDigits(x[..n], y[..n]);
      assert x == x[..n] + [x[n]] && y == y[..n] + [y[n]];
    }
  }

  /** The carry into limb `n`, and the limbs a ripple of carries leaves. */
  predicate Carry(x: seq<Word>, y: seq<Word>, n: nat)
    requires n <= |x| == |y|
  {
    n > 0 && CarryOut(x[n - 1], y[n - 1], Carry(x, y, n - 1))
  }

  function Limb(x: seq<Word>, y: seq<Word>, i: nat): Word
    requires i < |x| == |y|
  {
    Sum(x[i], y[i], Carry(x, y, i))
  }

  /** One limb of the sum: what is lost to wrap-around is exactly the carry. */
  lemma LimbSum(x: Word, y: Word, c: bool)
    ensures Sum(x, y, c) + Num(CarryOut(x, y, c)) * WORD == x + y + Num(c)
  {
  }

  lemma Extend(vz: nat, vx: nat, vy: nat, z: nat, x: nat, y: nat, c: nat, d: nat, b: nat, p: nat)
    requires vz + c * p == vx + vy && z + d * b == x + y + c
    ensures (vz + z * p) + d * (b * p) == (vx + x * p) + (vy + y * p)
  {
    calc {
      z * p + d * (b * p);
      (z + d * b) * p;
      (x + y + c) * p;
      x * p + y * p + c * p;
    }
  }

  /** Rippled limbs and the final carry are the exact sum. */
  lemma {:induction false} RippleIsSum(x: seq<Word>, y: seq<Word>, z: seq<Word>, n: nat)
    requires n == |z| <= |x| == |y| && forall i | 0 <= i < n :: z[i] == Limb(x, y, i)
    ensures Value(z) + Num(Carry(x, y, n)) * Pow(n) == Value(x[..n]) + Value(y[..n])
  {
    if n > 0 {
      var m := n - 1;
      RippleIsSum(x, y, z[..m], m);
      LimbSum(x[m], y[m], Carry(x, y, m));
      assert x[..n][..m] == x[..m] && y[..n][..m] == y[..m];
      Extend(Value(z[..m]), Value(x[..m]), Value(y[..m]), z[m], x[m], y[m],
             Num(Carry(x, y, m)), Num(Carry(x, y, n)), WORD, Pow(m));
    }
  }

  /** `V_ADDCO_U32` as a function of one lane's collected sources. */
  function Addco(args: seq<seq<Word>>): (words: seq<Word>)
    ensures |words| == 1
  {
    if |args| == 2 && |args[0]| == 1 && |args[1]| == 1 then [Sum(args[1][0], args[0][0], false)] else [0]
  }

  predicate AddcoCarry(args: seq<seq<Word>>) {
    |args| == 2 && |args[0]| == 1 && |args[1]| == 1 && CarryOut(args[1][0], args[0][0], false)
  }

  method DecodeAddco(w: WarpState, vsrc: nat, src: Source, vdst: nat, vcc: nat) returns (inst: VectorInstruction)
    requires w.Valid() && vsrc < w.vregs && Admits(w, src) && vdst < w.vregs && w.Usable(vcc)
    ensures fresh(inst.dst) && fresh(inst.srcs)
    ensures inst.Decoded(w) && inst.setsVcc && inst.vcc == vcc
    ensures inst.dst.regType.Vector? && inst.dst.regIdx == vdst && inst.dst.range == 1
    ensures forall x :: |inst.compute(x)| == 1
    ensures forall l | 0 <= l < w.warpSize ::
              var x, y := Gathers(w, src, l), Gathers(w, VectorReg(vsrc), l);
              && inst.compute(GatheredAll(inst.srcs, w, l)) == [Sum(x, y, false)]
              && inst.flag(GatheredAll(inst.srcs, w, l)) == CarryOut(x, y, false)
  {
    hide Bit, WarpState.V, WarpState.S, WarpState.Readable, GatheredAll, Operand.Gathered, Gathers, Unsigned;
    var s0 := DecodeSource(w, VectorReg(vsrc));
    var s1 := DecodeSource(w, src);
    var dst := new Operand(false, 0, Vector, vdst, 1, w.warpSize);
    inst := new VectorInstruction([s0, s1], dst, Addco, AddcoCarry, true, vcc);
    forall l | 0 <= l < w.warpSize
      ensures GatheredAll(inst.srcs, w, l) == [[Gathers(w, VectorReg(vsrc), l)], [Gathers(w, src, l)]]
    {
    }
  }

  /** The instruction over the lanes of `mask`, through the operand buffers. */
  method AddcoStep(w: WarpState, mask: set<nat>, vsrc: nat, src: Source, vdst: nat, vcc: nat)
    requires w.Valid() && vsrc < w.vregs && Admits(w, src) && vdst < w.vregs && w.Usable(vcc)
    requires forall l | l in mask :: l < w.warpSize
    modifies w`activeMask, w.vreg, w.sreg
    ensures w.activeMask == mask
    ensures forall r, l | 0 <= r < w.vregs && 0 <= l < w.warpSize :: w.V(r, l) ==
              if r == vdst && l in mask
              then Sum(old(Gathers(w, src, l)), old(Gathers(w, VectorReg(vsrc), l)), false) else old(w.V(r, l))
    ensures forall l | 0 <= l < w.warpSize :: Bit(w.S(vcc), l) ==
              if l in mask then CarryOut(old(Gathers(w, src, l)), old(Gathers(w, VectorReg(vsrc), l)), false)
              else Bit(old(w.S(vcc)), l)
    ensures forall t: nat | t != vcc && w.Readable(t) :: w.S(t) == old(w.S(t))
  {
    hide Bit, Sum, CarryOut, Gathers, Admits, WarpState.V, WarpState.S, WarpState.Readable, GatheredAll;
    hide VectorInstruction.Decoded;
    var inst := DecodeAddco(w, vsrc, src, vdst, vcc);
    inst.Step(w, mask);
  }

  /** `V_ADDC_U32`'s Execute: registers are read and written directly. */
  method Addc(w: WarpState, src0: nat, vsrc1: nat, ssrc2: nat, vdst: nat, sdst: nat, l: nat)
    requires w.Valid() && l < w.warpSize && vsrc1 < w.vregs && vdst < w.vregs
    requires w.Readable(src0) && w.Readable(ssrc2) && w.Usable(sdst)
    modifies w.vreg, w.sreg
    ensures w.V(vdst, l) == Sum(Unsigned(old(w.S(src0))), old(w.V(vsrc1, l)), Bit(old(w.S(ssrc2)), l))
    ensures forall r, k | 0 <= r < w.vregs && 0 <= k < w.warpSize && (r != vdst || k != l) ::
              w.V(r, k) == old(w.V(r, k))
    ensures w.S(sdst) == WithBit(old(w.S(sdst)), l,
                                 CarryOut(Unsigned(old(w.S(src0))), old(w.V(vsrc1, l)), Bit(old(w.S(ssrc2)), l)))
    ensures forall t: nat | t != sdst && w.Readable(t) :: w.S(t) == old(w.S(t))
  {
    hide Bit, Sum, CarryOut, Unsigned, WithBit, WarpState.V, WarpState.S, WarpState.Readable;
    var s0 := w.GetSreg(src0);
    var s1 := w.GetVreg(vsrc1, l);
    var s2 := w.GetSreg(ssrc2);
    var carryIn := Bit(s2, l);
    var sum := Sum(Unsigned(s0), s1, carryIn);
    var carryOut := CarryOut(Unsigned(s0), s1, carryIn);
    w.SetVreg(vdst, sum, l);
    w.SetBit(sdst, carryOut, l);
  }

  /** The carry-out register after the first `n` lanes, for the addends `y` and the carries in `cin`; it
      held `c` before.  The other addend is the scalar `a`, or, when the instruction names the carry-out
      register there as well, what the lanes before have left in it. */
  function CarryWord(aliased: bool, a: bv32, cin: bv32, c: bv32, mask: set<nat>, y: seq<Word>, n: nat): bv32
    requires n <= |y| <= 32
  {
    if n == 0 then c
    else
      var w := CarryWord(aliased, a, cin, c, mask, y, n - 1);
      if n - 1 !in mask then w
      else WithBit(w, n - 1, CarryOut(Unsigned(if aliased then w else a), y[n - 1], Bit(cin, n - 1)))
  }

  function Addend(aliased: bool, a: bv32, cin: bv32, c: bv32, mask: set<nat>, y: seq<Word>, l: nat): Word
    requires l < |y| <= 32
  {
    Unsigned(if aliased then CarryWord(aliased, a, cin, c, mask, y, l) else a)
  }

  /** Each lane's bit is its carry. */
  lemma {:induction false} CarryWordBits(aliased: bool, a: bv32, cin: bv32, c: bv32, mask: set<nat>, y: seq<Word>,
                                         n: nat, l: nat)
    requires n <= |y| <= 32 && l < |y|
    ensures Bit(CarryWord(aliased, a, cin, c, mask, y, n), l)
            == if l < n && l in mask then CarryOut(Addend(aliased, a, cin, c, mask, y, l), y[l], Bit(cin, l))
               else Bit(c, l)
  {
    hide Bit, WithBit, CarryOut, Unsigned;
    if n > 0 {
      CarryWordBits(aliased, a, cin, c, mask, y, n - 1, l);
      var w := CarryWord(aliased, a, cin, c, mask, y, n - 1);
      BitOfWithBit(w, n - 1, l, CarryOut(Unsigned(if aliased then w else a), y[n - 1], Bit(cin, n - 1)));
    }
  }

  ghost function LaneWords(w: WarpState, r: nat, n: nat): (y: seq<Word>)
    requires w.Valid() && r < w.vregs && n <= w.warpSize
    reads w, w.vreg
    ensures |y| == n && forall l | 0 <= l < n :: y[l] == w.V(r, l)
  {
    if n == 0 then [] else LaneWords(w, r, n - 1) + [w.V(r, n - 1)]
  }

  /** The loop over the active lanes; carry-in and carry-out may be one register. */
  method AddcLanes(w: WarpState, src0: nat, vsrc1: nat, ssrc2: nat, vdst: nat, sdst: nat, ghost y: seq<Word>,
                   ghost a: bv32, ghost cin: bv32, ghost c: bv32)
    requires w.Valid() && vsrc1 < w.vregs && vdst < w.vregs
    requires w.Readable(src0) && w.Readable(ssrc2) && w.Usable(sdst)
    requires y == LaneWords(w, vsrc1, w.warpSize) && a == w.S(src0) && cin == w.S(ssrc2) && c == w.S(sdst)
    modifies w.vreg, w.sreg
    ensures forall r, l | 0 <= r < w.vregs && 0 <= l < w.warpSize :: w.V(r, l) ==
              if r == vdst && l in w.activeMask
              then Sum(Addend(src0 == sdst, a, cin, c, w.activeMask, y, l), y[l], Bit(cin, l)) else old(w.V(r, l))
    ensures w.S(sdst) == CarryWord(src0 == sdst, a, cin, c, w.activeMask, y, w.warpSize)
    ensures forall t: nat | t != sdst && w.Readable(t) :: w.S(t) == old(w.S(t))
  {
    hide Bit, WithBit, Sum, CarryOut, Unsigned, WarpState.V, WarpState.S, WarpState.Readable;
    ghost var mask := w.activeMask;
    for n := 0 to w.warpSize
      invariant forall r, l | 0 <= r < w.vregs && 0 <= l < w.warpSize :: w.V(r, l) ==
                  if r == vdst && l in mask && l < n
                  then Sum(Addend(src0 == sdst, a, cin, c, mask, y, l), y[l], Bit(cin, l)) else old(w.V(r, l))
      invariant w.S(sdst) == CarryWord(src0 == sdst, a, cin, c, mask, y, n)
      invariant forall t: nat | t != sdst && w.Readable(t) :: w.S(t) == old(w.S(t))
    {
      if n in w.activeMask {
        CarryWordBits(src0 == sdst, a, cin, c, mask, y, n, n);
        assert w.V(vsrc1, n) == y[n];
        assert Bit(w.S(ssrc2), n) == Bit(cin, n);
        Addc(w, src0, vsrc1, ssrc2, vdst, sdst, n);
      }
    }
  }

  /** The instruction over the active lanes: sums and carry bits of the active lanes, nothing else. */
  method AddcStep(w: WarpState, src0: nat, vsrc1: nat, ssrc2: nat, vdst: nat, sdst: nat)
    requires w.Valid() && vsrc1 < w.vregs && vdst < w.vregs
    requires w.Readable(src0) && w.Readable(ssrc2) && w.Usable(sdst)
    modifies w.vreg, w.sreg
    ensures forall r, l | 0 <= r < w.vregs && 0 <= l < w.warpSize :: w.V(r, l) ==
              if r == vdst && l in w.activeMask
              then Sum(old(AddendOf(w, src0, vsrc1, ssrc2, sdst, l)), old(w.V(vsrc1, l)), Bit(old(w.S(ssrc2)), l))
              else old(w.V(r, l))
    ensures forall l | 0 <= l < w.warpSize :: Bit(w.S(sdst), l) ==
              if l in w.activeMask
              then CarryOut(old(AddendOf(w, src0, vsrc1, ssrc2, sdst, l)), old(w.V(vsrc1, l)), Bit(old(w.S(ssrc2)), l))
              else Bit(old(w.S(sdst)), l)
    ensures forall t: nat | t != sdst && w.Readable(t) :: w.S(t) == old(w.S(t))
  {
    hide Bit, Sum, CarryOut, Unsigned, WarpState.V, WarpState.S, WarpState.Readable, Addend, CarryWord;
    ghost var y, a, cin, c := LaneWords(w, vsrc1, w.warpSize), w.S(src0), w.S(ssrc2), w.S(sdst);
    AddcLanes(w, src0, vsrc1, ssrc2, vdst, sdst, y, a, cin, c);
    forall l | 0 <= l < w.warpSize
      ensures Bit(w.S(sdst), l)
              == if l in w.activeMask
                 then CarryOut(Addend(src0 == sdst, a, cin, c, w.activeMask, y, l), y[l], Bit(cin, l))
                 else Bit(c, l)
    {
      CarryWordBits(src0 == sdst, a, cin, c, w.activeMask, y, w.warpSize, l);
    }
  }

  /** The scalar addend as lane `l` finds it. */
  ghost function AddendOf(w: WarpState, src0: nat, vsrc1: nat, ssrc2: nat, sdst: nat, l: nat): (x: Word)
    requires w.Valid() && vsrc1 < w.vregs && l < w.warpSize
    requires w.Readable(src0) && w.Readable(ssrc2) && w.Readable(sdst)
    reads w, w.vreg, w.sreg
    ensures src0 != sdst ==> x == Unsigned(w.S(src0))
  {
    var y := LaneWords(w, vsrc1, w.warpSize);
    Addend(src0 == sdst, w.S(src0), w.S(ssrc2), w.S(sdst), w.activeMask, y, l)
  }

  /** One limb of a chain: the first instruction ignores the carry register, the others add its bits. */
  method LimbStep(w: WarpState, src: Source, vsrc: nat, vdst: nat, carry: nat, first: bool)
    requires w.Valid() && vsrc < w.vregs && vdst < w.vregs && Admits(w, src) && w.Usable(carry)
    requires first || (src.ScalarReg? && src.s != carry)
    modifies w`activeMask, w.vreg, w.sreg
    ensures w.activeMask == old(w.activeMask)
    ensures forall l: nat | l in w.activeMask ::
              var c := !first && Bit(old(w.S(carry)), l);
              && w.V(vdst, l) == Sum(old(Reads(w, src, l)), old(w.V(vsrc, l)), c)
              && Bit(w.S(carry), l) == CarryOut(old(Reads(w, src, l)), old(w.V(vsrc, l)), c)
    ensures forall r, l | 0 <= r < w.vregs && 0 <= l < w.warpSize && (r != vdst || l !in w.activeMask) ::
              w.V(r, l) == old(w.V(r, l))
    ensures forall l | 0 <= l < w.warpSize && l !in w.activeMask :: Bit(w.S(carry), l) == Bit(old(w.S(carry)), l)
    ensures forall t: nat | t != carry && w.Readable(t) :: w.S(t) == old(w.S(t))
  {
    hide Bit, Sum, CarryOut, Unsigned, WarpState.V, WarpState.S, WarpState.Readable, AddendOf;
    if first {
      AddcoStep(w, w.activeMask, vsrc, src, vdst, carry);
    } else {
      AddcStep(w, src.s, vsrc, carry, vdst, carry);
    }
  }

  /** The number an addend stands for in lane `l`, limb by limb. */
  ghost function SourceLimbs(w: WarpState, a: seq<Source>, l: nat): (limbs: seq<Word>)
    requires w.Valid() && l < w.warpSize && forall i | 0 <= i < |a| :: Admits(w, a[i])
    reads w, w.vreg, w.sreg
    ensures |limbs| == |a| && forall i | 0 <= i < |a| :: limbs[i] == Reads(w, a[i], l)
  {
    if a == [] then [] else SourceLimbs(w, a[..|a| - 1], l) + [Reads(w, a[|a| - 1], l)]
  }

  ghost function VectorLimbs(w: WarpState, regs: seq<nat>, l: nat): (limbs: seq<Word>)
    requires w.Valid() && l < w.warpSize && forall i | 0 <= i < |regs| :: regs[i] < w.vregs
    reads w, w.vreg
    ensures |limbs| == |regs| && forall i | 0 <= i < |regs| :: limbs[i] == w.V(regs[i], l)
  {
    if regs == [] then [] else VectorLimbs(w, regs[..|regs| - 1], l) + [w.V(regs[|regs| - 1], l)]
  }

  /** No limb of the sum overwrites a limb of the sum or a later limb of an addend. */
  predicate Independent(b: seq<nat>, d: seq<nat>) {
    |b| == |d| && forall i, j | 0 <= i < j < |d| :: d[i] != d[j] && d[i] != b[j]
  }

  /** The registers of a chain: `a` and `b` the addends, `d` the sum; above the lowest limb the first
      addend is scalar, and not the carry register. */
  ghost predicate Chain(w: WarpState, a: seq<Source>, b: seq<nat>, d: seq<nat>, vcc: nat) {
    && |a| == |b| && Independent(b, d) && w.Usable(vcc)
    && (forall i | 0 <= i < |a| :: Admits(w, a[i]) && b[i] < w.vregs && d[i] < w.vregs)
    && forall i | 0 < i < |a| :: a[i].ScalarReg? && a[i].s != vcc
  }

  /** After `n` limbs: what the lanes have computed, and that the rest of the addends is intact. */
  ghost predicate ChainAt(w: WarpState, x: seq<seq<Word>>, y: seq<seq<Word>>, a: seq<Source>, b: seq<nat>,
                          d: seq<nat>, vcc: nat, n: nat)
    requires w.Valid() && Chain(w, a, b, d, vcc) && n <= |a|
    requires |x| == |y| == w.warpSize && forall l | 0 <= l < |y| :: |x[l]| == |y[l]| == |a|
    reads w, w.vreg, w.sreg
  {
    && (forall i, l: nat | n <= i < |a| && l in w.activeMask :: Reads(w, a[i], l) == x[l][i])
    && (forall i, l: nat | n <= i < |b| && l in w.activeMask :: w.V(b[i], l) == y[l][i])
    && (forall i, l: nat | 0 <= i < n && l in w.activeMask :: w.V(d[i], l) == Limb(x[l], y[l], i))
    && (n > 0 ==> forall l: nat | l in w.activeMask :: Bit(w.S(vcc), l) == Carry(x[l], y[l], n))
  }

  method ChainStep(w: WarpState, ghost x: seq<seq<Word>>, ghost y: seq<seq<Word>>, a: seq<Source>, b: seq<nat>,
                   d: seq<nat>, vcc: nat, n: nat)
    requires w.Valid() && Chain(w, a, b, d, vcc) && n < |a|
    requires |x| == |y| == w.warpSize && forall l | 0 <= l < |y| :: |x[l]| == |y[l]| == |a|
    requires ChainAt(w, x, y, a, b, d, vcc, n)
    modifies w`activeMask, w.vreg, w.sreg
    ensures w.activeMask == old(w.activeMask)
    ensures ChainAt(w, x, y, a, b, d, vcc, n + 1)
    ensures forall r, l | 0 <= r < w.vregs && 0 <= l < w.warpSize && (r != d[n] || l !in w.activeMask) ::
              w.V(r, l) == old(w.V(r, l))
    ensures forall l | 0 <= l < w.warpSize && l !in w.activeMask :: Bit(w.S(vcc), l) == Bit(old(w.S(vcc)), l)
    ensures forall t: nat | t != vcc && w.Readable(t) :: w.S(t) == old(w.S(t))
  {
    hide Bit, Sum, CarryOut, Unsigned, WarpState.V, WarpState.S, WarpState.Readable;
    LimbStep(w, a[n], b[n], d[n], vcc, n == 0);
    forall l: nat | l in w.activeMask
      ensures w.V(d[n], l) == Limb(x[l], y[l], n) && Bit(w.S(vcc), l) == Carry(x[l], y[l], n + 1)
    {
      assert old(Reads(w, a[n], l)) == x[l][n] && old(w.V(b[n], l)) == y[l][n];
      assert Carry(x[l], y[l], n) == (n != 0 && Bit(old(w.S(vcc)), l));
    }
    assert forall i | n < i < |a| :: w.S(a[i].s) == old(w.S(a[i].s));
    assert forall i, l: nat | n < i < |a| && l in w.activeMask :: Reads(w, a[i], l) == old(Reads(w, a[i], l));
    assert forall i, l: nat | n < i < |b| && l in w.activeMask :: w.V(b[i], l) == old(w.V(b[i], l));
    assert forall i, l: nat | 0 <= i < n && l in w.activeMask :: w.V(d[i], l) == old(w.V(d[i], l));
  }

  ghost function LaneSources(w: WarpState, a: seq<Source>, n: nat): (limbs: seq<seq<Word>>)
    requires w.Valid() && n <= w.warpSize && forall i | 0 <= i < |a| :: Admits(w, a[i])
    reads w, w.vreg, w.sreg
    ensures |limbs| == n && forall l | 0 <= l < n :: limbs[l] == SourceLimbs(w, a, l)
  {
    if n == 0 then [] else LaneSources(w, a, n - 1) + [SourceLimbs(w, a, n - 1)]
  }

  ghost function LaneLimbs(w: WarpState, regs: seq<nat>, n: nat): (limbs: seq<seq<Word>>)
    requires w.Valid() && n <= w.warpSize && forall i | 0 <= i < |regs| :: regs[i] < w.vregs
    reads w, w.vreg
    ensures |limbs| == n && forall l | 0 <= l < n :: limbs[l] == VectorLimbs(w, regs, l)
  {
    if n == 0 then [] else LaneLimbs(w, regs, n - 1) + [VectorLimbs(w, regs, n - 1)]
  }

  /** In every active lane the chain adds exactly: the destination limbs and the last carry stand for
      the sum of the numbers the addends stood for.  Inactive lanes keep registers and carry bits. */
  method AddChain(w: WarpState, a: seq<Source>, b: seq<nat>, d: seq<nat>, vcc: nat)
    requires w.Valid() && Chain(w, a, b, d, vcc) && a != []
    modifies w`activeMask, w.vreg, w.sreg
    ensures w.activeMask == old(w.activeMask)
    ensures forall l: nat | l in w.activeMask ::
              Value(VectorLimbs(w, d, l)) + Num(Bit(w.S(vcc), l)) * Pow(|a|)
              == Value(old(SourceLimbs(w, a, l))) + Value(old(VectorLimbs(w, b, l)))
    ensures forall r, l | 0 <= r < w.vregs && 0 <= l < w.warpSize && (r !in d || l !in w.activeMask) ::
              w.V(r, l) == old(w.V(r, l))
    ensures forall l | 0 <= l < w.warpSize && l !in w.activeMask :: Bit(w.S(vcc), l) == Bit(old(w.S(vcc)), l)
    ensures forall t: nat | t != vcc && w.Readable(t) :: w.S(t) == old(w.S(t))
  {
    hide Bit, Sum, CarryOut, Reads, Admits, WarpState.V, WarpState.S, WarpState.Readable, Value, Pow, Num;
    ghost var x, y := LaneSources(w, a, w.warpSize), LaneLimbs(w, b, w.warpSize);
    for n := 0 to |a|
      invariant w.activeMask == old(w.activeMask) && ChainAt(w, x, y, a, b, d, vcc, n)
      invariant forall r, l | 0 <= r < w.vregs && 0 <= l < w.warpSize && (r !in d || l !in w.activeMask) ::
                  w.V(r, l) == old(w.V(r, l))
      invariant forall l | 0 <= l < w.warpSize && l !in w.activeMask :: Bit(w.S(vcc), l) == Bit(old(w.S(vcc)), l)
      invariant forall t: nat | t != vcc && w.Readable(t) :: w.S(t) == old(w.S(t))
    {
      ChainStep(w, x, y, a, b, d, vcc, n);
    }
    forall l: nat | l in w.activeMask
      ensures Value(VectorLimbs(w, d, l)) + Num(Bit(w.S(vcc), l)) * Pow(|a|) == Value(x[l]) + Value(y[l])
    {
      ChainEnd(w, x, y, a, b, d, vcc, l);
    }
  }

  lemma ChainEnd(w: WarpState, x: seq<seq<Word>>, y: seq<seq<Word>>, a: seq<Source>, b: seq<nat>, d: seq<nat>,
                 vcc: nat, l: nat)
    requires w.Valid() && Chain(w, a, b, d, vcc) && a != [] && l in w.activeMask
    requires |x| == |y| == w.warpSize && forall k | 0 <= k < |y| :: |x[k]| == |y[k]| == |a|
    requires ChainAt(w, x, y, a, b, d, vcc, |a|)
    ensures Value(VectorLimbs(w, d, l)) + Num(Bit(w.S(vcc), l)) * Pow(|a|) == Value(x[l]) + Value(y[l])
  {
    hide Bit, Sum, CarryOut, Reads, WarpState.V, WarpState.S, WarpState.Readable, Value, Pow, Num;
    RippleIsSum(x[l], y[l], VectorLimbs(w, d, l), |a|);
    assert x[l][..|a|] == x[l] && y[l][..|a|] == y[l];
  }
}
