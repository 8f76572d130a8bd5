/** The integer helpers of `util/kmath.c`. */
module KMath {

  const U32_LIMIT := 0x1_0000_0000
  const U64_LIMIT := 0x1_0000_0000_0000_0000

  /** `ceil_u64_div`: the least quotient whose multiple reaches the dividend. */
  function CeilDiv(dividend: nat, divisor: nat): (q: nat)
    requires divisor > 0
    ensures dividend <= q * divisor < dividend + divisor
  {
    var floor := dividend / divisor;
    assert floor * divisor + dividend % divisor == dividend;
    if floor * divisor == dividend then floor
    else
      assert (floor + 1) * divisor == floor * divisor + divisor;
      floor + 1
  }

  /** `floor_u32_div`: one less than the quotient when the division is inexact, in 32 bits. */
  function FloorDiv(dividend: nat, divisor: nat): nat
    requires divisor > 0
  {
    var floor := dividend / divisor;
    if floor * divisor == dividend then floor else if floor == 0 then U32_LIMIT - 1 else floor - 1
  }

  lemma {:induction false} MultipleIsLarger(q: nat, divisor: nat)
    requires divisor > 0
    ensures q <= q * divisor
    decreases divisor
  {
    if divisor > 1 {
      MultipleIsLarger(q, divisor - 1);
      assert q * divisor == q * (divisor - 1) + q;
    }
  }

  /** It rounds down exactly when nothing is left over. */
  lemma FloorDivExactly(dividend: nat, divisor: nat)
    requires dividend < U32_LIMIT && divisor > 0
    ensures FloorDiv(dividend, divisor) == dividend / divisor <==> dividend % divisor == 0
    ensures dividend % divisor != 0 ==> (FloorDiv(dividend, divisor) + 1) % U32_LIMIT == dividend / divisor
  {
    var floor := dividend / divisor;
    assert floor * divisor + dividend % divisor == dividend;
    MultipleIsLarger(floor, divisor);
  }
}
