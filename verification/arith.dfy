/** The few facts about multiplication that the size and index proofs lean on. */
module Arith {
  lemma MulSucc(a: int, v: int)
    ensures (a + 1) * v == a * v + v
  {
  }

  lemma MulDistributes(a: int, b: int, c: int)
    ensures a * (b + c) == a * b + a * c
  {
  }

  lemma MulAtLeast(k: int, d: int)
    requires k >= 1 && d > 0
    ensures k * d >= d
  {
  }

  lemma MulMonotone(v: nat, a: int, b: int)
    requires a <= b
    ensures v * a <= v * b
  {
  }
}
