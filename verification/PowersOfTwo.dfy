/** Rounding up to a power of two and the index of the highest bit (common/intmath.h), on 32 bits. */
module PowersOfTwo {

  predicate IsPowerOfTwo(x: bv32) {
    x != 0 && x & (x - 1) == 0
  }

  /** `p` is the least power of two not below `value`. */
  ghost predicate IsLeastPower(value: bv32, p: bv32) {
    IsPowerOfTwo(p) && value <= p && forall q: bv32 | IsPowerOfTwo(q) && value <= q :: p <= q
  }

  /** `r` is the position of the highest one bit of `v`. */
  predicate IsFloorLog(v: bv32, r: bv32) {
    r < 32 && v >> r == 1
  }

  /** Smearing ones to the right rounds up, as far as a result exists; above it the addition wraps. */
  method NextPow2(value: bv32) returns (p: bv32)
    ensures value <= 0x8000_0000 ==> IsLeastPower(value, p)
    ensures value > 0x8000_0000 ==> p == 0
  {
    if value == 0 { return 1; }
    var v := value - 1;
    v := v | (v >> 1);
    v := v | (v >> 2);
    v := v | (v >> 4);
    v := v | (v >> 8);
    v := v | (v >> 16);
    p := v + 1;
  }

  /** Bisection for the highest bit. */
  method Logb2(value: bv32) returns (r: bv32)
    ensures value != 0 ==> IsFloorLog(value, r)
    ensures value == 0 ==> r == 0
  {
    var v := value;
    r := 0;
    var shift: bv32 := if v & 0xFFFF_0000 != 0 then 16 else 0;
    v, r := v >> shift, r | shift;
    shift := if v & 0xFF00 != 0 then 8 else 0;
    v, r := v >> shift, r | shift;
    shift := if v & 0xF0 != 0 then 4 else 0;
    v, r := v >> shift, r | shift;
    shift := if v & 0xC != 0 then 2 else 0;
    v, r := v >> shift, r | shift;
    shift := if v & 0x2 != 0 then 1 else 0;
    v, r := v >> shift, r | shift;
  }

  /** Together they give the ceiling logarithm: the least shift that reaches the value. */
  lemma LogOfLeastPower(value: bv32, p: bv32, r: bv32, s: bv32)
    requires IsLeastPower(value, p) && IsFloorLog(p, r) && s < 32
    ensures p == (1 as bv32) << r
    ensures value <= (1 as bv32) << s <==> r <= s
  {
    assert IsPowerOfTwo((1 as bv32) << s);
  }
}
