/** Facts about multiplication, division and remainder on non-negative numbers that the
    solver does not find unaided. */
module Arith {
  lemma MulMonotone(a: int, b: int, k: nat)
    requires a <= b
    ensures a * k <= b * k
  {
  }

  lemma MulNonneg(a: nat, b: nat)
    ensures a * b >= 0
  {
  }

  /** Division and remainder are determined by a == q * n + m with 0 <= m < n. */
  lemma DivModUnique(a: int, n: int, q: int, m: int)
    requires n > 0 && 0 <= m < n && a == q * n + m
    ensures a / n == q && a % n == m
  {
    var q', m' := a / n, a % n;
    assert a == q' * n + m';
    if q' > q {
      MulMonotone(q + 1, q', n);
      assert false;
    } else if q' < q {
      MulMonotone(q' + 1, q, n);
      assert false;
    }
  }

  lemma DivOfMultiple(a: nat, n: nat)
    requires n > 0
    ensures (a * n) / n == a
  {
    DivModUnique(a * n, n, a, 0);
  }

  lemma DivLe(a: int, b: int, n: nat)
    requires n > 0 && a <= b
    ensures a / n <= b / n
  {
    if a / n > b / n {
      MulMonotone(b / n + 1, a / n, n);
      assert false;
    }
  }

  /** The grid position int(len / n * i) as the floor (len * i) / n: it lies on the picture for
      i <= n, and it is the largest value whose n-fold does not pass len * i. */
  lemma GridPosition(len: nat, n: nat, i: nat)
    requires n > 0
    ensures (len * i) / n * n <= len * i < ((len * i) / n + 1) * n
    ensures i <= n ==> 0 <= (len * i) / n <= len
  {
    MulNonneg(len, i);
    if i <= n {
      MulMonotone(i, n, len);
      assert i * len <= n * len;
      DivLe(len * i, len * n, n);
      DivOfMultiple(len, n);
    }
  }
}
