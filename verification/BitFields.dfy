/** Field extraction (isa/InstructionVOP3A.cpp, isa/inc/OperandUtil.h).  Registers are 32-bit unsigned
    numbers; a right shift is a division, a left shift a product and a mask of low ones a remainder by
    a power of two. */
module BitFields {
  import opened Words

  /** The `as_int` view of a register. */
  function Signed(x: nat): int {
    if x < 0x8000_0000 then x else x - WORD
  }

  function ShiftRight(x: int, n: nat): int {
    x / Pow2(n)
  }

  function ShiftLeft(x: nat, n: nat): Word {
    Wrap(x * Pow2(n))
  }

  /** Right shift of the `as_int` view. */
  function ShiftRightSigned(x: nat, n: nat): Word {
    Wrap(Signed(x) / Pow2(n))
  }

  function LowBits(x: int, n: nat): int {
    x % Pow2(n)
  }

  /** V_BFE_U32 and V_BFE_I32: offset and width count modulo 32. */
  function ExtractUnsigned(s0: Word, s1: Word, s2: Word): int {
    LowBits(ShiftRight(s0, s1 % 32), s2 % 32)
  }

  function ExtractSigned(s0: Word, s1: Word, s2: Word): nat {
    var offset, width := s1 % 32, s2 % 32;
    if width == 0 then 0
    else if width + offset < 32 then ShiftRightSigned(ShiftLeft(s0, 32 - offset - width), 32 - width)
    else ShiftRightSigned(s0, offset)
  }

  /** The sign bit is bit `b - 1`; it fills everything above. */
  function SignExtend(x: int, b: nat): int
    requires b >= 1
  {
    if ShiftRight(x, b - 1) % 2 == 1 then WORD - Pow2(b) + LowBits(x, b) else LowBits(x, b)
  }

  lemma DivideScaled(r: nat, a: nat, b: nat)
    requires a > 0 && b > 0
    ensures r * a / (a * b) == r / b
  {
    var q, s := r / b, r % b;
    assert r * a == q * (a * b) + s * a;
    assert s * a < b * a;
    Quotient(r * a, a * b, q, s * a);
  }

  lemma RemainderScaled(x: nat, a: nat, b: nat)
    requires a > 0 && b > 0
    ensures x * a % (a * b) == x % b * a
  {
    var q, r := x / b, x % b;
    assert x * a == q * (a * b) + r * a;
    assert r * a < b * a;
    Quotient(x * a, a * b, q, r * a);
  }

  lemma Regroup(q: int, r: int, s: int, a: int, b: int)
    ensures (q * b + r) * a + s == q * (a * b) + (r * a + s)
  {
  }

  lemma RemainderDivided(x: nat, a: nat, b: nat)
    requires a > 0 && b > 0
    ensures x % (a * b) / a == x / a % b
  {
    var t, s := x / a, x % a;
    var q, r := t / b, t % b;
    Regroup(q, r, s, a, b);
    MulMonotone(r, b - 1, a);
    Quotient(x, a * b, q, r * a + s);
    Quotient(r * a + s, a, r, s);
  }

  /** Shifting the field to the top drops what is above it; shifting down by the rest drops what is
      below. */
  lemma FieldMoves(x: nat, l: nat, o: nat, w: nat)
    requires l + o + w == 32
    ensures ShiftRight(ShiftLeft(x, l), l + o) == LowBits(ShiftRight(x, o), w)
  {
    Pow2Word();
    Pow2Sum(l, o + w);
    Pow2Sum(l, o);
    Pow2Sum(o, w);
    RemainderScaled(x, Pow2(l), Pow2(o + w));
    DivideScaled(x % Pow2(o + w), Pow2(l), Pow2(o));
    RemainderDivided(x, Pow2(o), Pow2(w));
  }

  lemma {:induction false} Pow2Monotone(m: nat, n: nat)
    requires m <= n
    ensures Pow2(m) <= Pow2(n)
  {
    Pow2Sum(m, n - m);
    Multiple(Pow2(n - m), Pow2(m));
  }

  lemma DivideBelow(x: nat, d: nat, b: nat)
    requires d > 0
    ensures x < b * d <==> x / d < b
  {
    Multiple(x / d - b, d);
    Multiple(x / d - b + 1, d);
    assert x / d * d <= x < x / d * d + d;
  }

  lemma SignExtendField(u: int, b: nat)
    requires b >= 1 && 0 <= u < Pow2(b)
    ensures SignExtend(u, b) == if u < Pow2(b - 1) then u else WORD - Pow2(b) + u
  {
    Quotient(u, Pow2(b), 0, u);
    if u < Pow2(b - 1) {
      Quotient(u, Pow2(b - 1), 0, u);
    } else {
      Quotient(u, Pow2(b - 1), 1, u - Pow2(b - 1));
    }
  }

  /** Dividing a signed register by `d` leaves its top bits, counted from `h` as negative. */
  lemma TopBits(y: nat, d: nat, h: nat)
    requires y < WORD && d > 0 && h * d == 0x8000_0000
    ensures 0 <= y / d < 2 * h && (y / d < h <==> y < 0x8000_0000)
    ensures Wrap(Signed(y) / d) == if y / d < h then y / d else WORD - 2 * h + y / d
  {
    assert 2 * h * d == WORD;
    DivideBelow(y, d, 0);
    DivideBelow(y, d, 2 * h);
    DivideBelow(y, d, h);
    MulMonotone(1, d, h);
    NegativeQuotient(y, d, 2 * h);
  }

  lemma NegativeQuotient(y: nat, d: nat, p: nat)
    requires d > 0 && p * d == WORD
    ensures (y - WORD) / d == y / d - p
  {
    Quotient(y - WORD, d, y / d - p, y % d);
  }

  /** The same for a shift: the `32 - n` top bits, of which the first is the sign. */
  lemma SignedShift(y: nat, n: nat)
    requires y < WORD && n < 32
    ensures Pow2(32 - n) == 2 * Pow2(31 - n)
    ensures 0 <= ShiftRight(y, n) < Pow2(32 - n) && (ShiftRight(y, n) < Pow2(31 - n) <==> y < 0x8000_0000)
    ensures ShiftRightSigned(y, n)
            == if y < 0x8000_0000 then ShiftRight(y, n) else WORD - Pow2(32 - n) + ShiftRight(y, n)
  {
    hide Signed, Wrap;
    Pow2Word();
    Pow2Sum(31 - n, n);
    TopBits(y, Pow2(n), Pow2(31 - n));
  }

  lemma SmallIsLow(u: int, w: nat)
    requires 0 <= u < Pow2(w)
    ensures LowBits(u, w) == u
  {
    Quotient(u, Pow2(w), 0, u);
  }

  lemma FieldInside(x: nat, o: nat, w: nat)
    requires 1 <= w < 32 && o + w <= 32
    ensures ShiftRightSigned(ShiftLeft(x, 32 - o - w), 32 - w) == SignExtend(LowBits(ShiftRight(x, o), w), w)
  {
    hide ShiftRight, ShiftLeft, ShiftRightSigned, LowBits, SignExtend, Pow2;
    var y := ShiftLeft(x, 32 - o - w);
    FieldMoves(x, 32 - o - w, o, w);
    SignedShift(y, 32 - w);
    SignExtendField(ShiftRight(y, 32 - w), w);
  }

  lemma FieldAtTop(x: Word, o: nat, w: nat)
    requires 1 <= w < 32 && o + w == 32
    ensures ShiftRightSigned(x, o) == SignExtend(LowBits(ShiftRight(x, o), w), w)
  {
    hide ShiftRight, ShiftRightSigned, LowBits, SignExtend;
    FieldInside(x, o, w);
    assert ShiftLeft(x, 0) == x;
  }

  lemma FieldOutside(x: nat, o: nat, w: nat)
    requires x < WORD && 1 <= w < 32 && o < 32 && o + w > 32
    ensures ShiftRightSigned(x, o) == SignExtend(LowBits(ShiftRight(x, o), w), w) <==> x < 0x8000_0000
  {
    hide ShiftRight, ShiftRightSigned, LowBits, SignExtend, Pow2;
    var u := ShiftRight(x, o);
    SignedShift(x, o);
    Pow2Word();
    Pow2Monotone(32 - o, 31);
    Pow2Monotone(32 - o, w - 1);
    Pow2Monotone(w - 1, w);
    SmallIsLow(u, w);
    SignExtendField(u, w);
  }

  /** Digit `k` of the unsigned field is digit `offset + k` of the register, and nothing comes after the
      field's width. */
  lemma UnsignedDigits(s0: Word, s1: Word, s2: Word, k: nat)
    ensures ExtractUnsigned(s0, s1, s2) / Pow2(k) % 2
            == if k < s2 % 32 then s0 / Pow2(s1 % 32 + k) % 2 else 0
  {
    hide Pow2;
    var o, w := s1 % 32, s2 % 32;
    var field := s0 / Pow2(o);
    if k < w {
      Pow2Sum(k, w - k);
      RemainderDivided(field, Pow2(k), Pow2(w - k));
      EvenModulus(field / Pow2(k), w - k);
      DivideTwice(s0, o, k);
    } else {
      Pow2Monotone(w, k);
      Quotient(field % Pow2(w), Pow2(k), 0, field % Pow2(w));
    }
  }

  lemma EvenModulus(x: nat, n: nat)
    requires n > 0
    ensures x % Pow2(n) % 2 == x % 2
  {
    DoubledPower(n - 1);
    EvenRemainder(x, Pow2(n - 1));
  }

  lemma EvenRemainder(x: nat, p: nat)
    requires p > 0
    ensures x % (2 * p) % 2 == x % 2
  {
    var half, b := x / 2, x % 2;
    var q, r := half / p, half % p;
    assert half == q * p + r;
    Regroup(q, r, b, 2, p);
    Quotient(x, 2 * p, q, r * 2 + b);
  }

  lemma DivideTwice(x: nat, m: nat, n: nat)
    ensures x / Pow2(m) / Pow2(n) == x / Pow2(m + n)
  {
    hide Pow2;
    Pow2Sum(m, n);
    var a, b := Pow2(m), Pow2(n);
    var t, s := x / a, x % a;
    var q, r := t / b, t % b;
    Regroup(q, r, s, a, b);
    MulMonotone(r, b - 1, a);
    Quotient(x, a * b, q, r * a + s);
  }

  /** A field of no width is zero, signed or not. */
  lemma NoWidth(s0: Word, s1: Word, s2: Word)
    requires s2 % 32 == 0
    ensures ExtractUnsigned(s0, s1, s2) == 0 && ExtractSigned(s0, s1, s2) == 0
  {
  }

  /** Signed extraction is sign extension of unsigned extraction exactly when the field lies within the
      register or the register is not negative. */
  lemma ExtractSignedIff(s0: Word, s1: Word, s2: Word)
    requires s2 % 32 >= 1
    ensures ExtractSigned(s0, s1, s2) == SignExtend(ExtractUnsigned(s0, s1, s2), s2 % 32)
            <==> s1 % 32 + s2 % 32 <= 32 || s0 < 0x8000_0000
  {
    hide ShiftRight, ShiftLeft, ShiftRightSigned, LowBits, SignExtend, Pow2;
    if s1 % 32 + s2 % 32 < 32 {
      FieldInside(s0, s1 % 32, s2 % 32);
    } else if s1 % 32 + s2 % 32 == 32 {
      FieldAtTop(s0, s1 % 32, s2 % 32);
    } else {
      FieldOutside(s0, s1 % 32, s2 % 32);
    }
  }
}
