/** Powers of two, sums over sequences, and the few facts about division that the proofs
    share. Dafny's own division is Euclidean; all operands here are natural numbers, for
    which it agrees with the source's. */
module Arithmetic {

  function Pow2(k: nat): (r: nat)
    ensures r > 0
  {
    if k == 0 then 1 else 2 * Pow2(k - 1)
  }

  lemma QuotientOf(q: nat, r: nat, m: nat)
    requires r < m
    ensures (q * m + r) / m == q && (q * m + r) % m == r
  {
    var n := q * m + r;
    var d, e := n / m, n % m;
    assert n == m * d + e && 0 <= e < m;
    assert m * (q - d) == e - r by {
      assert m * (q - d) == m * q - m * d;
    }
    MultipleGrows(m, q - d);
  }

  lemma MultipleGrows(m: int, k: int)
    requires m > 0
    ensures k >= 1 ==> m * k >= m
    ensures k <= -1 ==> m * k <= -m
  {
    if k >= 1 {
      assert m * k == m + m * (k - 1);
    } else if k <= -1 {
      assert m * k == -m + m * (k + 1);
    }
  }

  lemma DivTwice(n: nat, m: nat)
    requires m > 0
    ensures n / 2 / m == n / (2 * m)
  {
    var q, r := n / 2 / m, n / 2 % m;
    assert n / 2 == q * m + r;
    assert n == q * (2 * m) + (2 * r + n % 2);
    QuotientOf(q, 2 * r + n % 2, 2 * m);
  }

  function Sum(xs: seq<nat>): nat {
    if xs == [] then 0 else Sum(xs[..|xs| - 1]) + xs[|xs| - 1]
  }

  lemma {:induction false} SumUpdate(xs: seq<nat>, i: nat, x: nat)
    requires i < |xs|
    ensures Sum(xs[i := x]) == Sum(xs) - xs[i] + x
  {
    var init, last := xs[..|xs| - 1], |xs| - 1;
    if i == last {
      assert xs[i := x][..last] == init;
    } else {
      assert xs[i := x][..last] == init[i := x];
      SumUpdate(init, i, x);
    }
  }
}
