/** The bits of a 32-bit scalar register: one for each lane, and together the number it holds. */
module LaneBits {
  import opened Words

  function Mask(l: nat): bv32
    requires l < 32
  {
    (1 as bv32) << l
  }

  predicate Meets(v: bv32, m: bv32) {
    v & m != 0
  }

  function With(v: bv32, m: bv32, on: bool): bv32 {
    if on then v | m else v & !m
  }

  predicate Bit(v: bv32, l: nat) {
    l < 32 && Meets(v, Mask(l))
  }

  function WithBit(v: bv32, l: nat, on: bool): bv32
    requires l < 32
  {
    With(v, Mask(l), on)
  }

  lemma MasksApart(l: nat, k: nat)
    requires l < 32 && k < 32
    ensures Meets(Mask(l), Mask(k)) <==> l == k
  {
    if l != k {
      assert Mask(l) & Mask(k) == 0;
    } else {
      assert Mask(l) & Mask(l) == Mask(l) != 0;
    }
  }

  lemma SetKeeps(v: bv32, m: bv32, n: bv32)
    requires !Meets(m, n)
    ensures Meets(With(v, m, true), n) <==> Meets(v, n)
  {
  }

  lemma ClearKeeps(v: bv32, m: bv32, n: bv32)
    requires !Meets(m, n)
    ensures Meets(With(v, m, false), n) <==> Meets(v, n)
  {
  }

  lemma MaskKept(v: bv32, m: bv32, n: bv32, on: bool)
    requires !Meets(m, n)
    ensures Meets(With(v, m, on), n) <==> Meets(v, n)
  {
    hide Meets, With;
    if on {
      SetKeeps(v, m, n);
    } else {
      ClearKeeps(v, m, n);
    }
  }

  lemma MaskSet(v: bv32, m: bv32, on: bool)
    requires Meets(m, m)
    ensures Meets(With(v, m, on), m) <==> on
  {
  }

  /** Setting one lane's bit sets that bit and no other. */
  lemma BitOfWithBit(v: bv32, l: nat, k: nat, on: bool)
    requires l < 32 && k < 32
    ensures Bit(WithBit(v, l, on), k) == if k == l then on else Bit(v, k)
  {
    hide Mask, Meets, With;
    MasksApart(l, k);
    if k == l {
      MaskSet(v, Mask(l), on);
    } else {
      MaskKept(v, Mask(l), Mask(k), on);
    }
  }

  lemma ClearIsClear(v: bv32, l: nat)
    requires l < 32 && !Meets(v, Mask(l))
    ensures (v >> l) & 1 == 0
  {
  }

  lemma SetIsSet(v: bv32, l: nat)
    requires l < 32 && (v >> l) & 1 == 0
    ensures !Meets(v, Mask(l))
  {
  }

  lemma LowestBit(v: bv32)
    ensures v & 1 == 0 || v & 1 == 1
  {
  }

  /** Lane `l`'s bit is the one at position `l`. */
  lemma BitIs(v: bv32, l: nat)
    requires l < 32
    ensures Bit(v, l) <==> (v >> l) & 1 == 1
  {
    hide Meets, Mask;
    LowestBit(v >> l);
    if Bit(v, l) {
      if (v >> l) & 1 == 0 {
        SetIsSet(v, l);
      }
    } else {
      ClearIsClear(v, l);
    }
  }

  /** The number in the lowest `n` bits. */
  function LowNumber(v: bv32, n: nat): (x: nat)
    requires n <= 32
    ensures x < Pow2(n)
  {
    if n == 0 then 0 else LowNumber(v, n - 1) + if Bit(v, n - 1) then Pow2(n - 1) else 0
  }

  /** The `as_uint` view of a register. */
  function Unsigned(v: bv32): Word {
    Pow2Word();
    LowNumber(v, 32)
  }

  lemma {:induction false} LowNumberOfWithBit(v: bv32, l: nat, on: bool, n: nat)
    requires l < 32 && n <= 32
    ensures LowNumber(WithBit(v, l, on), n) + (if l < n && Bit(v, l) then Pow2(l) else 0)
            == LowNumber(v, n) + if l < n && on then Pow2(l) else 0
  {
    hide Bit, WithBit, Pow2;
    if n > 0 {
      LowNumberOfWithBit(v, l, on, n - 1);
      BitOfWithBit(v, l, n - 1, on);
    }
  }

  lemma {:induction false} LowNumberOfZero(n: nat)
    requires n <= 32
    ensures LowNumber(0, n) == 0
  {
    if n > 0 {
      LowNumberOfZero(n - 1);
    }
  }

  /** Counting from zero, each bit that is set adds its power of two: the number has all 32 bits. */
  lemma UnsignedOfWithBit(v: bv32, l: nat, on: bool)
    requires l < 32
    ensures Unsigned(0) == 0
    ensures Unsigned(WithBit(v, l, on)) + (if Bit(v, l) then Pow2(l) else 0)
            == Unsigned(v) + if on then Pow2(l) else 0
  {
    LowNumberOfZero(32);
    LowNumberOfWithBit(v, l, on, 32);
  }

  lemma Digit(x: nat, high: nat, p: nat, b: nat)
    requires x < p && b < 2
    ensures (x + b * p + high * (2 * p)) / p % 2 == b
  {
    var q := b + 2 * high;
    assert x + b * p + high * (2 * p) == q * p + x;
    Quotient(q * p + x, p, q, x);
  }

  lemma NextHigh(high: nat, p: nat, q: nat)
    ensures high * p + q * p == (high + q) * p
  {
  }

  lemma HigherBit(n: nat, m: nat)
    requires n <= m
    ensures Pow2(m) == Pow2(m - n) * Pow2(n)
  {
    Pow2Sum(m - n, n);
  }

  /** The number is what the lowest `n` bits hold, and a multiple of the next power of two. */
  lemma {:induction false} LowNumberSplits(v: bv32, n: nat, m: nat) returns (high: nat)
    requires n <= m <= 32
    ensures LowNumber(v, m) == LowNumber(v, n) + high * Pow2(n)
  {
    hide Bit, Pow2;
    high := 0;
    if n < m {
      var rest := LowNumberSplits(v, n, m - 1);
      var q := if Bit(v, m - 1) then Pow2(m - 1 - n) else 0;
      HigherBit(n, m - 1);
      NextHigh(rest, Pow2(n), q);
      high := rest + q;
    }
  }

  /** Bit `l` of the register is binary digit `l` of the number, so each determines the other. */
  lemma UnsignedDigit(v: bv32, l: nat)
    requires l < 32
    ensures Bit(v, l) <==> Unsigned(v) / Pow2(l) % 2 == 1
  {
    hide Bit, Pow2;
    var high := LowNumberSplits(v, l + 1, 32);
    DoubledPower(l);
    Digit(LowNumber(v, l), high, Pow2(l), if Bit(v, l) then 1 else 0);
  }
}

/** The register files of one warp (model/WarpState.cpp). */
module Registers {
  import opened LaneBits
  import opened Words

  /** A position in the flat vector register array. */
  function Slot(r: nat, l: nat, warpSize: nat): nat {
    r * warpSize + l
  }

  lemma SlotInRange(r: nat, l: nat, warpSize: nat, regs: nat)
    requires r < regs && l < warpSize
    ensures Slot(r, l, warpSize) < regs * warpSize
  {
    assert (r + 1) * warpSize <= regs * warpSize;
  }

  lemma SlotInjective(r: nat, l: nat, r': nat, l': nat, warpSize: nat)
    requires l < warpSize && l' < warpSize && (r != r' || l != l')
    ensures Slot(r, l, warpSize) != Slot(r', l', warpSize)
  {
    if r < r' {
      assert (r + 1) * warpSize <= r' * warpSize;
    } else if r' < r {
      assert (r' + 1) * warpSize <= r * warpSize;
    }
  }

  /** Scalar registers have a hole, the constant window, which reads go around and writes do not
      quite: `reserved` is MAX_RESERVED_SREG_NUM, `consts` the number of kernel constants. */
  function ReadSlot(s: nat, reserved: nat, consts: nat): nat {
    if s < reserved then s else if s < consts + reserved then s else s - consts
  }

  function WriteSlot(s: nat, reserved: nat, consts: nat): nat {
    if s > consts + reserved then s - consts else s
  }

  predicate InConstWindow(s: nat, reserved: nat, consts: nat) {
    reserved <= s < consts + reserved
  }

  /** Outside the window and its end boundary. */
  predicate Plain(s: nat, reserved: nat, consts: nat) {
    s < reserved || s > consts + reserved || consts == 0
  }

  class WarpState {
    const warpSize: nat
    const reserved: nat
    const constBuffer: seq<bv32>
    const sreg: array<bv32>
    const vreg: array<Word>
    const vregs: nat
    var activeMask: set<nat>

    constructor (warpSize: nat, vregs: nat, reserved: nat, constBuffer: seq<bv32>)
      requires warpSize <= 32
      ensures Valid() && fresh(sreg) && fresh(vreg) && activeMask == {}
      ensures this.warpSize == warpSize && this.vregs == vregs
      ensures this.reserved == reserved && this.constBuffer == constBuffer
    {
      this.warpSize, this.vregs, this.reserved, this.constBuffer := warpSize, vregs, reserved, constBuffer;
      sreg := new bv32[256];
      vreg := new Word[vregs * warpSize];
      activeMask := {};
    }

    ghost predicate Valid()
      reads this
    {
      && warpSize <= 32 && sreg.Length == 256 && vreg.Length == vregs * warpSize
      && (vreg as object) != sreg
      && forall l | l in activeMask :: l < warpSize
    }

    /** What an instruction sees of vector register `r` in lane `l`. */
    ghost function V(r: nat, l: nat): Word
      requires Valid() && r < vregs && l < warpSize
      reads this, vreg
    {
      SlotInRange(r, l, warpSize, vregs);
      vreg[Slot(r, l, warpSize)]
    }

    method GetVreg(r: nat, l: nat) returns (v: Word)
      requires Valid() && r < vregs && l < warpSize
      ensures v == V(r, l)
    {
      SlotInRange(r, l, warpSize, vregs);
      v := vreg[r * warpSize + l];
    }

    method SetVreg(r: nat, v: Word, l: nat)
      requires Valid() && r < vregs && l < warpSize
      modifies vreg
      ensures V(r, l) == v
      ensures forall r', l' | 0 <= r' < vregs && 0 <= l' < warpSize && (r' != r || l' != l) ::
          V(r', l') == old(V(r', l'))
    {
      SlotInRange(r, l, warpSize, vregs);
      forall r', l' | 0 <= r' < vregs && 0 <= l' < warpSize && (r' != r || l' != l)
        ensures Slot(r', l', warpSize) != Slot(r, l, warpSize)
      {
        SlotInjective(r, l, r', l', warpSize);
      }
      vreg[r * warpSize + l] := v;
    }

    /** A new mask leaves the registers alone. */
    method SetActiveMask(mask: set<nat>)
      requires Valid() && forall l | l in mask :: l < warpSize
      modifies this`activeMask
      ensures Valid() && activeMask == mask
      ensures forall r, l | 0 <= r < vregs && 0 <= l < warpSize :: V(r, l) == old(V(r, l))
      ensures forall t: nat | Readable(t) :: S(t) == old(S(t))
    {
      activeMask := mask;
    }

    predicate Readable(s: nat) {
      InConstWindow(s, reserved, |constBuffer|) || ReadSlot(s, reserved, |constBuffer|) < 256
    }

    predicate AllReadable(s: nat, n: nat) {
      forall t | s <= t < s + n :: Readable(t)
    }

    /** What an instruction reads from scalar register `s`. */
    ghost function S(s: nat): bv32
      requires Valid() && Readable(s)
      reads this, sreg
    {
      if InConstWindow(s, reserved, |constBuffer|) then constBuffer[s - reserved]
      else sreg[ReadSlot(s, reserved, |constBuffer|)]
    }

    /** A register this warp may both read and write. */
    predicate Usable(s: nat) {
      Plain(s, reserved, |constBuffer|) && Readable(s)
    }

    method GetSreg(s: nat) returns (v: bv32)
      requires Valid() && Readable(s)
      ensures v == S(s)
      ensures forall k | 0 <= k < |constBuffer| :: s == reserved + k ==> v == constBuffer[k]
    {
      if s < reserved {
        v := sreg[s];
      } else if s < |constBuffer| + reserved {
        v := constBuffer[s - reserved];
      } else {
        v := sreg[s - |constBuffer|];
      }
    }

    method SetSreg(s: nat, v: bv32)
      requires Valid() && WriteSlot(s, reserved, |constBuffer|) < 256
      modifies sreg
      ensures sreg[..] == old(sreg[..])[WriteSlot(s, reserved, |constBuffer|) := v]
      ensures Usable(s) ==> S(s) == v && forall t: nat | t != s && Readable(t) :: S(t) == old(S(t))
    {
      var t := s;
      if s < reserved {
      } else if s > |constBuffer| + reserved {
        t := s - |constBuffer|;
      }
      sreg[t] := v;
    }

    /** `setBitmaskSreg`: one lane's bit, through the register's read and write paths. */
    method SetBit(s: nat, on: bool, l: nat)
      requires Valid() && l < warpSize && Usable(s)
      modifies sreg
      ensures S(s) == WithBit(old(S(s)), l, on)
      ensures forall k | 0 <= k < warpSize :: Bit(S(s), k) == if k == l then on else Bit(old(S(s)), k)
      ensures forall t: nat | t != s && Readable(t) :: S(t) == old(S(t))
    {
      var field := GetSreg(s);
      forall k | 0 <= k < warpSize ensures Bit(WithBit(field, l, on), k) == if k == l then on else Bit(field, k) {
        BitOfWithBit(field, l, k, on);
      }
      SetSreg(s, WithBit(field, l, on));
    }
  }

  /** The registers of a row lie side by side, one for each lane. */
  lemma VectorLayout(w: WarpState, r: nat, l: nat)
    requires w.Valid() && r < w.vregs && l < w.warpSize
    ensures r * w.warpSize + l < w.vreg.Length && w.V(r, l) == w.vreg[r * w.warpSize + l]
  {
    SlotInRange(r, l, w.warpSize, w.vregs);
  }

  /** The constant window shows the constants in order; below it a register is its own slot, and from its
      end on registers continue where those below stop. */
  lemma WindowInOrder(w: WarpState)
    requires w.Valid()
    ensures forall s: nat | w.reserved <= s < w.reserved + |w.constBuffer| ::
              w.Readable(s) && w.S(s) == w.constBuffer[s - w.reserved]
    ensures forall s: nat | s < w.reserved && w.Readable(s) :: w.S(s) == w.sreg[s]
    ensures forall s: nat | s >= w.reserved && w.Readable(s + |w.constBuffer|) ::
              w.S(s + |w.constBuffer|) == w.sreg[s]
  {
  }

  /** The slot a write goes to is the slot a read comes from, and no constant shadows it, exactly
      outside the constant window and its end boundary. */
  lemma SregRoundTripIff(s: nat, reserved: nat, consts: nat)
    ensures Plain(s, reserved, consts)
            <==> !InConstWindow(s, reserved, consts) && ReadSlot(s, reserved, consts) == WriteSlot(s, reserved, consts)
  {
  }
}
