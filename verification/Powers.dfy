/** Powers of two, and numbers that are multiples of a step. */
module Powers {
  function Pow2(n: nat): (p: nat)
    ensures p > 0
  {
    if n == 0 then 1 else 2 * Pow2(n - 1)
  }

  function Multiple(q: int, step: nat): int { q * step }

  ghost predicate Aligned(x: int, step: nat) { exists q: int :: x == Multiple(q, step) }

  lemma {:induction false} MultipleGap(p: int, q: int, step: nat)
    ensures Multiple(q + 1, step) == Multiple(q, step) + step
    ensures p < q ==> Multiple(p, step) + step <= Multiple(q, step)
  {
    if p < q { assert (q - p - 1) * step >= 0; }
  }
}
