/** Max-distances along a history: when each step obeys the triangle, so does the whole chain. */
module Chains {

  function Max(a: nat, b: nat): nat { if a < b then b else a }

  /** The largest distance between neighbours among the versions 0..k. */
  function WorstHop(d: (nat, nat) -> nat, k: nat): nat {
    if k == 0 then 0 else Max(WorstHop(d, k - 1), d(k - 1, k))
  }

  lemma {:induction false} ChainBound(d: (nat, nat) -> nat, k: nat)
    requires k >= 1
    requires forall i: nat :: 0 < i < k ==> d(0, i + 1) <= Max(d(0, i), d(i, i + 1))
    ensures d(0, k) <= WorstHop(d, k)
  {
    if k > 1 {
      ChainBound(d, k - 1);
      assert d(0, k - 1 + 1) <= Max(d(0, k - 1), d(k - 1, k - 1 + 1));
    }
  }
}
