/** Giving out tags in turn: remainders, and how many numbers have each of them. */
module Turns {

  lemma NextWorker(k: nat, n: nat)
    requires n > 0
    ensures (k % n + 1) % n == (k + 1) % n
  {
    var q, r := k / n, k % n;
    assert k == q * n + r;
    if r + 1 < n {
      Remainder(k + 1, q, r + 1, n);
    } else {
      Remainder(k + 1, q + 1, 0, n);
    }
  }

  lemma {:induction false} Remainder(k: nat, q: nat, r: nat, n: nat)
    requires r < n && k == q * n + r
    ensures k % n == r && k / n == q
  {
    var d := k / n - q;
    assert k % n == k - (k / n) * n;
    assert d * n == r - k % n;
    assert d >= 1 ==> d * n >= n;
    assert d <= -1 ==> d * n <= 0 - n;
  }

  /** How many of the first `k` tags go to worker `w` of `n`. */
  function OwnedUpTo(w: nat, n: nat, k: nat): nat
    requires n > 0
  {
    if k == 0 then 0 else OwnedUpTo(w, n, k - 1) + (if k % n == w then 1 else 0)
  }

  lemma DivStep(k: nat, n: nat)
    requires k > 0 && n > 0
    ensures var q, r := (k - 1) / n, (k - 1) % n;
            if r + 1 < n then k / n == q && k % n == r + 1 else k / n == q + 1 && k % n == 0 && r == n - 1
  {
    var q, r := (k - 1) / n, (k - 1) % n;
    assert k - 1 == q * n + r;
    if r + 1 < n {
      Remainder(k, q, r + 1, n);
    } else {
      assert k == (q + 1) * n;
      Remainder(k, q + 1, 0, n);
    }
  }

  lemma {:induction false} OwnedShare(w: nat, n: nat, k: nat)
    requires 0 <= w < n
    ensures OwnedUpTo(w, n, k) == k / n + (if 0 < w <= k % n then 1 else 0)
    decreases k
  {
    if k == 0 {
      Remainder(0, 0, 0, n);
    } else {
      OwnedShare(w, n, k - 1);
      DivStep(k, n);
    }
  }
}
