/** 32-bit unsigned arithmetic over unbounded integers, and what the proofs need of products and
    powers of two. */
module Words {

  const WORD: nat := 0x1_0000_0000

  type Word = x: nat | x < 0x1_0000_0000

  function Wrap(x: int): Word {
    x % WORD
  }

  lemma MulMonotone(a: int, b: int, c: int)
    requires a <= b && c >= 0
    ensures a * c <= b * c && c * a <= c * b
  {
    assert (b - a) * c >= 0;
  }

  function Pow2(n: nat): (p: nat)
    ensures p > 0
  {
    if n == 0 then 1 else 2 * Pow2(n - 1)
  }

  lemma {:induction false} Pow2Sum(m: nat, n: nat)
    ensures Pow2(m + n) == Pow2(m) * Pow2(n)
  {
    if n > 0 {
      Pow2Sum(m, n - 1);
      assert Pow2(m + n) == 2 * Pow2(m + n - 1);
    }
  }

  lemma DoubledPower(l: nat)
    ensures Pow2(l + 1) == 2 * Pow2(l)
  {
  }

  lemma Pow2Word()
    ensures Pow2(31) == 0x8000_0000 && Pow2(32) == WORD
  {
    Pow2Sum(16, 16);
    Pow2Sum(16, 15);
    assert Pow2(16) == 0x1_0000 && Pow2(15) == 0x8000;
  }

  lemma Multiple(k: int, d: int)
    requires d > 0
    ensures k > 0 ==> k * d >= d
    ensures k < 0 ==> k * d <= -d
  {
  }

  lemma Quotient(x: int, d: int, q: int, r: int)
    requires d > 0 && x == q * d + r && 0 <= r < d
    ensures x / d == q && x % d == r
  {
    assert (x / d - q) * d == r - x % d;
    Multiple(x / d - q, d);
  }
}
