/** Small facts about products and quotients of naturals, kept apart so that each proof stays linear. */
module Arith {

  /** a*w grows with a. */
  lemma {:induction false} MulMonotone(a: nat, b: nat, w: nat)
    requires a <= b
    ensures a * w <= b * w
  {
    if a < b {
      MulMonotone(a, b - 1, w);
      assert b * w == (b - 1) * w + w;
    }
  }

  /** k < r*w bounds the quotient: k / w < r. */
  lemma DivBelow(k: nat, r: nat, w: nat)
    requires w > 0 && k < r * w
    ensures k / w < r
  {
    if k / w >= r {
      MulMonotone(r, k / w, w);
      assert false;
    }
  }

  /** r*w <= k bounds the quotient from below: r <= k / w. */
  lemma DivAbove(k: nat, r: nat, w: nat)
    requires w > 0 && r * w <= k
    ensures r <= k / w
  {
    if k / w < r {
      MulMonotone(k / w + 1, r, w);
      assert false;
    }
  }
}
