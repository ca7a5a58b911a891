/** The few facts about products and quotients that the proofs need one at a time. */
module NonlinearFacts {

  lemma MulMonotone(n: nat, a: nat, b: nat)
    requires a <= b
    ensures n * a <= n * b
  {
    assert n * b - n * a == n * (b - a);
  }

  lemma MulAtLeast(k: int, d: nat)
    requires k >= 1
    ensures k * d >= d
  {
    MulMonotone(d, 1, k);
  }

  lemma DivMod(x: nat, d: nat)
    requires d > 0
    ensures (x / d) * d + x % d == x && 0 <= x % d < d
  {
  }

  /** e is the integer quotient of x by d exactly when the rest is smaller than d. */
  lemma QuotientOf(e: nat, rest: nat, x: nat, d: nat)
    requires d > 0 && e * d + rest == x
    ensures e <= x / d
    ensures e == x / d <==> rest < d
  {
    DivMod(x, d);
    var due := x / d;
    assert (due - e) * d == due * d - e * d;
    assert d * (due + 1) == due * d + d;
    if e > due {
      MulMonotone(d, due + 1, e);
    } else if e < due {
      MulAtLeast(due - e, d);
    }
  }

  /** k <= x / d is the same as k * d <= x. */
  lemma AtMostQuotient(k: nat, x: nat, d: nat)
    requires d > 0
    ensures k <= x / d <==> k * d <= x
  {
    DivMod(x, d);
    if k <= x / d {
      MulMonotone(d, k, x / d);
    } else {
      MulMonotone(d, x / d + 1, k);
    }
  }
}
