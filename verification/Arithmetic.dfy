/** Division facts the solver does not find by itself. */
module Arithmetic {
  /** Between two multiples of `k` the last multiple does not move. */
  lemma NextMultiple(h: nat, k: nat)
    requires k > 0 && (h + 1) % k != 0
    ensures h + 1 - (h + 1) % k == h - h % k
  {
    assert (h + 1) % k == h % k + 1 by {
      var q, r := h / k, h % k;
      assert h == q * k + r;
      if r + 1 == k {
        assert h + 1 == (q + 1) * k;
        assert ((q + 1) * k) % k == 0 by { ModMultiple(q + 1, k); }
        assert false;
      }
      ModUnique(q, r + 1, k);
    }
  }

  lemma {:induction false} ModMultiple(q: nat, k: nat)
    requires k > 0
    ensures (q * k) % k == 0
  {
    ModUnique(q, 0, k);
  }

  lemma MultipleApart(d: int, k: nat)
    ensures d >= 1 ==> d * k >= k
    ensures d <= -1 ==> d * k <= -(k as int)
  {
  }

  lemma {:induction false} ModUnique(q: nat, r: nat, k: nat)
    requires r < k
    ensures (q * k + r) % k == r
  {
    var x := q * k + r;
    var d := x / k - q;
    MultipleApart(d, k);
    assert d * k == r - x % k;
  }
}
