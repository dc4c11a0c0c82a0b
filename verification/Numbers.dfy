/** Powers of two. */
module Numbers {
  function Pow2(n: nat): (r: nat)
    ensures r >= 1
  {
    if n == 0 then 1 else 2 * Pow2(n - 1)
  }

  lemma {:induction false} Pow2Grows(a: nat, b: nat)
    requires a <= b
    ensures Pow2(b) >= Pow2(a)
    ensures a < b ==> Pow2(b) >= 2 * Pow2(a)
    decreases b
  {
    if a < b { Pow2Grows(a, b - 1); }
  }
}
