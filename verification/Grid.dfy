/** Grid enumeration (model/KernelInfo.cpp, model/inc/KernelInfo.h): a mixed-radix counter kept in
    32-bit unsigned fields. */
module Grid {
  import opened Words

  datatype Dim3 = Dim3(x: nat, y: nat, z: nat) {
    predicate IsUint() {
      x < WORD && y < WORD && z < WORD
    }

    /** The number of points in the box; not reduced to 32 bits. */
    function Volume(): nat {
      x * y * z
    }
  }

  /** `increment_x_then_y_then_z`. */
  function Increment(i: Dim3, bound: Dim3): Dim3 {
    var x := Wrap(i.x + 1);
    if x >= bound.x then
      var y := Wrap(i.y + 1);
      if y >= bound.y then
        Dim3(0, 0, if i.z < bound.z then Wrap(i.z + 1) else i.z)
      else Dim3(0, y, i.z)
    else Dim3(x, i.y, i.z)
  }

  predicate Exhausted(i: Dim3, bound: Dim3) {
    i.x >= bound.x || i.y >= bound.y || i.z >= bound.z
  }

  /** `get_next_cta_id_single`, every operation in 32-bit unsigned arithmetic. */
  function LinearId(i: Dim3, bound: Dim3): nat {
    Wrap(Wrap(i.x + Wrap(bound.x * i.y)) + Wrap(Wrap(bound.x * bound.y) * i.z))
  }

  class KernelInfo {
    const gridDim: Dim3
    const blockDim: Dim3
    var nextCta: Dim3
    var nextTid: Dim3

    constructor (gridDim: Dim3, blockDim: Dim3)
      ensures this.gridDim == gridDim && this.blockDim == blockDim
      ensures nextCta == Dim3(0, 0, 0) && nextTid == Dim3(0, 0, 0)
    {
      this.gridDim, this.blockDim := gridDim, blockDim;
      nextCta, nextTid := Dim3(0, 0, 0), Dim3(0, 0, 0);
    }

    static method IncrementInPlace(i: Dim3, bound: Dim3) returns (r: Dim3)
      ensures r == Increment(i, bound)
    {
      r := i;
      r := r.(x := Wrap(r.x + 1));
      if r.x >= bound.x {
        r := r.(x := 0);
        r := r.(y := Wrap(r.y + 1));
        if r.y >= bound.y {
          r := r.(y := 0);
          if r.z < bound.z {
            r := r.(z := Wrap(r.z + 1));
          }
        }
      }
    }

    method IncrementCtaId()
      modifies this
      ensures nextCta == Increment(old(nextCta), gridDim) && nextTid == Dim3(0, 0, 0)
    {
      nextCta := IncrementInPlace(nextCta, gridDim);
      nextTid := nextTid.(x := 0);
      nextTid := nextTid.(y := 0);
      nextTid := nextTid.(z := 0);
    }

    method IncrementThreadId()
      modifies this`nextTid
      ensures nextTid == Increment(old(nextTid), blockDim)
    {
      nextTid := IncrementInPlace(nextTid, blockDim);
    }

    /** The CTA loop of `IsaSim::launch` with checkpointing off: the blocks handed to the pool, in order. */
    method EnumerateBlocks() returns (blocks: seq<(nat, Dim3)>)
      requires gridDim.IsUint() && nextCta == Dim3(0, 0, 0)
      modifies this
      ensures |blocks| == gridDim.Volume()
      ensures forall k | 0 <= k < |blocks| :: blocks[k] == (Wrap(k), At(k, gridDim))
      ensures Exhausted(nextCta, gridDim)
    {
      hide Dim3.Volume, LinearId, Increment, Exhausted, Wrap;
      blocks := [];
      ExhaustedIff(0, gridDim);
      while !Exhausted(nextCta, gridDim)
        invariant nextCta == At(|blocks|, gridDim)
        invariant forall k | 0 <= k < |blocks| :: blocks[k] == (Wrap(k), At(k, gridDim))
        invariant |blocks| <= gridDim.Volume()
        invariant Exhausted(nextCta, gridDim) <==> |blocks| >= gridDim.Volume()
        decreases gridDim.Volume() - |blocks|
      {
        LinearIdIs(|blocks|, gridDim);
        blocks := blocks + [(LinearId(nextCta, gridDim), nextCta)];
        IncrementCtaId();
        ExhaustedIff(|blocks|, gridDim);
      }
    }
  }

  // ---------- the k-th state of the counter ----------

  function At(k: nat, bound: Dim3): Dim3 {
    if k == 0 then Dim3(0, 0, 0) else Increment(At(k - 1, bound), bound)
  }

  function Value(i: Dim3, bound: Dim3): nat {
    i.x + bound.x * i.y + bound.x * bound.y * i.z
  }

  predicate InBox(i: Dim3, bound: Dim3) {
    i.x < bound.x && i.y < bound.y && i.z < bound.z
  }

  lemma MulStep(a: nat, b: nat)
    ensures a * (b + 1) == a * b + a
  {
  }

  /** Two-digit numbers in base `n` are ordered by their high digit. */
  lemma HighDigit(r: nat, q: nat, n: nat, m: nat)
    requires r < n
    ensures q < m ==> r + n * q < n * m
    ensures q >= m ==> r + n * q >= n * m
  {
    if q < m {
      MulStep(n, q);
      MulMonotone(q + 1, m, n);
    } else {
      MulMonotone(m, q, n);
    }
  }

  lemma DigitsInjective(r1: nat, q1: nat, r2: nat, q2: nat, n: nat)
    requires r1 < n && r2 < n && r1 + n * q1 == r2 + n * q2
    ensures r1 == r2 && q1 == q2
  {
    HighDigit(r1, q1, n, q2);
    HighDigit(r2, q2, n, q1);
  }

  function Row(i: Dim3, bound: Dim3): nat {
    i.x + bound.x * i.y
  }

  lemma BoxVolume(i: Dim3, bound: Dim3)
    requires i.x < bound.x && i.y < bound.y
    ensures Row(i, bound) < bound.x * bound.y
    ensures i.z < bound.z ==> Value(i, bound) < bound.Volume()
    ensures i.z >= bound.z ==> Value(i, bound) >= bound.Volume()
  {
    HighDigit(i.x, i.y, bound.x, bound.y);
    HighDigit(Row(i, bound), i.z, bound.x * bound.y, bound.z);
  }

  lemma IncrementValue(i: Dim3, bound: Dim3)
    requires bound.IsUint() && InBox(i, bound)
    ensures Value(Increment(i, bound), bound) == Value(i, bound) + 1
    ensures Increment(i, bound).x < bound.x && Increment(i, bound).y < bound.y && Increment(i, bound).z <= bound.z
  {
    hide Value;
    assert Increment(i, bound) == if i.x + 1 < bound.x then i.(x := i.x + 1)
                                  else if i.y + 1 < bound.y then Dim3(0, i.y + 1, i.z) else Dim3(0, 0, i.z + 1);
    if i.x + 1 < bound.x {
      NextColumn(i, bound);
    } else if i.y + 1 < bound.y {
      NextRow(i, bound);
    } else {
      NextPlane(i, bound);
    }
  }

  lemma NextColumn(i: Dim3, bound: Dim3)
    ensures Value(i.(x := i.x + 1), bound) == Value(i, bound) + 1
  {
  }

  lemma NextRow(i: Dim3, bound: Dim3)
    requires i.x + 1 == bound.x
    ensures Value(Dim3(0, i.y + 1, i.z), bound) == Value(i, bound) + 1
  {
    MulStep(bound.x, i.y);
  }

  lemma NextPlane(i: Dim3, bound: Dim3)
    requires i.x + 1 == bound.x && i.y + 1 == bound.y
    ensures Value(Dim3(0, 0, i.z + 1), bound) == Value(i, bound) + 1
  {
    MulStep(bound.x, i.y);
    MulStep(bound.x * bound.y, i.z);
    assert bound.x * 0 == 0;
  }

  /** As long as points are left, the counter is inside the box and counts. */
  lemma {:induction false} CounterCounts(k: nat, bound: Dim3)
    requires bound.IsUint() && bound.x > 0 && bound.y > 0 && k <= bound.Volume()
    ensures Value(At(k, bound), bound) == k
    ensures At(k, bound).x < bound.x && At(k, bound).y < bound.y && At(k, bound).z <= bound.z
  {
    if k == 0 {
      assert bound.x * bound.y * 0 == 0;
    } else {
      CounterCounts(k - 1, bound);
      BoxVolume(At(k - 1, bound), bound);
      IncrementValue(At(k - 1, bound), bound);
    }
  }

  lemma {:induction false} StaysExhausted(k: nat, n: nat, bound: Dim3)
    requires k <= n
    requires At(k, bound).z >= bound.z || bound.x == 0 || bound.y == 0
    ensures Exhausted(At(n, bound), bound)
    ensures At(n, bound).z >= bound.z || bound.x == 0 || bound.y == 0
  {
    if k < n {
      StaysExhausted(k, n - 1, bound);
    }
  }

  lemma EmptyBox(bound: Dim3)
    requires bound.x == 0 || bound.y == 0 || bound.z == 0
    ensures bound.Volume() == 0
  {
    assert bound.y * 0 == 0;
    if bound.x == 0 {
      assert 0 * bound.y * bound.z == 0;
    }
  }

  /** The loop ends after exactly as many increments as the grid has points, and never resumes,
      whatever the bounds are. */
  lemma ExhaustedIff(k: nat, bound: Dim3)
    requires bound.IsUint()
    ensures Exhausted(At(k, bound), bound) <==> k >= bound.Volume()
  {
    var n := bound.Volume();
    if bound.x == 0 || bound.y == 0 || bound.z == 0 {
      EmptyBox(bound);
      StaysExhausted(0, k, bound);
    } else if k <= n {
      CounterCounts(k, bound);
      BoxVolume(At(k, bound), bound);
    } else {
      CounterCounts(n, bound);
      BoxVolume(At(n, bound), bound);
      StaysExhausted(n, k, bound);
    }
  }

  lemma ValueInjective(a: Dim3, b: Dim3, bound: Dim3)
    requires InBox(a, bound) && InBox(b, bound) && Value(a, bound) == Value(b, bound)
    ensures a == b
  {
    BoxVolume(a, bound);
    BoxVolume(b, bound);
    DigitsInjective(Row(a, bound), a.z, Row(b, bound), b.z, bound.x * bound.y);
    DigitsInjective(a.x, a.y, b.x, b.y, bound.x);
  }

  /** Every point of the box is visited, at exactly one step. */
  lemma EachPointOnce(p: Dim3, bound: Dim3)
    requires bound.IsUint() && InBox(p, bound)
    ensures Value(p, bound) < bound.Volume() && At(Value(p, bound), bound) == p
    ensures forall k | 0 <= k < bound.Volume() && At(k, bound) == p :: k == Value(p, bound)
  {
    BoxVolume(p, bound);
    var k := Value(p, bound);
    CounterCounts(k, bound);
    BoxVolume(At(k, bound), bound);
    ValueInjective(At(k, bound), p, bound);
    forall j | 0 <= j < bound.Volume() && At(j, bound) == p ensures j == k {
      CounterCounts(j, bound);
    }
  }

  // ---------- the 32-bit linear id ----------

  lemma WrapMul(a: nat, b: nat)
    ensures Wrap(Wrap(a) * b) == Wrap(a * b)
  {
    var q := a / WORD;
    assert a == WORD * q + Wrap(a);
    assert a * b == WORD * (q * b) + Wrap(a) * b by {
      assert (WORD * q) * b == WORD * (q * b);
    }
    WrapShift(Wrap(a) * b, q * b);
  }

  lemma WrapShift(a: nat, q: nat)
    ensures Wrap(WORD * q + a) == Wrap(a)
  {
  }

  lemma WrapAdd(a: nat, b: nat)
    ensures Wrap(Wrap(a) + Wrap(b)) == Wrap(a + b) && Wrap(a + Wrap(b)) == Wrap(a + b)
  {
  }

  /** The k-th block has linear id `k`, reduced to 32 bits; so the ids are distinct when the grid has
      at most 2^32 points. */
  lemma LinearIdIs(k: nat, bound: Dim3)
    requires bound.IsUint() && k < bound.Volume()
    ensures LinearId(At(k, bound), bound) == Wrap(k)
  {
    if bound.x == 0 || bound.y == 0 {
      EmptyBox(bound);
    }
    CounterCounts(k, bound);
    LinearIdWraps(At(k, bound), bound);
  }

  lemma LinearIdWraps(i: Dim3, bound: Dim3)
    ensures LinearId(i, bound) == Wrap(Value(i, bound))
  {
    var row, plane := bound.x * i.y, bound.x * bound.y;
    WrapMul(plane, i.z);
    WrapAdd(i.x, row);
    WrapAdd(i.x + row, plane * i.z);
  }

  /** No two blocks share a linear id exactly when the grid has at most 2^32 points. */
  lemma LinearIdsDistinctIff(bound: Dim3)
    requires bound.IsUint()
    ensures bound.Volume() <= WORD
            <==> forall j: nat, k: nat | j < k < bound.Volume() ::
                   LinearId(At(j, bound), bound) != LinearId(At(k, bound), bound)
  {
    hide LinearId, At, Dim3.Volume;
    if bound.Volume() <= WORD {
      forall j: nat, k: nat | j < k < bound.Volume()
        ensures LinearId(At(j, bound), bound) != LinearId(At(k, bound), bound)
      {
        LinearIdIs(j, bound);
        LinearIdIs(k, bound);
      }
    } else {
      LinearIdIs(0, bound);
      LinearIdIs(WORD, bound);
      assert 0 < WORD < bound.Volume();
    }
  }
}
