/** Multiplication and division by an unknown base. */
module Arith {
  lemma MulMonotone(a: int, b: int, k: nat)
    requires a <= b
    ensures a * k <= b * k
  {
  }

  lemma DivMod(n: nat, b: nat)
    requires 0 < b
    ensures n == n / b * b + n % b && 0 <= n / b && 0 <= n % b < b
  {
  }

  lemma DivShrinks(n: nat, b: nat)
    requires 2 <= b <= n
    ensures 0 < n / b < n
  {
    DivMod(n, b);
    var q := n / b;
    if q <= 0 { MulMonotone(q, 0, b); }
    MulMonotone(2, b, q);
  }

  /** Quotient and remainder are determined by their sum. */
  lemma DivUnique(n: nat, b: nat, q: int, r: int)
    requires 0 < b && 0 <= r < b && n == q * b + r
    ensures n / b == q && n % b == r
  {
    DivMod(n, b);
    var d := n / b - q;
    assert d * b == r - n % b;
    if d >= 1 { MulMonotone(1, d, b); }
    if d <= -1 { MulMonotone(d, -1, b); }
  }

  lemma DivBounds(n: nat, b: nat, lo: nat, hi: nat)
    requires 0 < b && lo <= n / b < hi
    ensures lo * b <= n < hi * b
  {
    DivMod(n, b);
    MulMonotone(lo, n / b, b);
    MulMonotone(n / b + 1, hi, b);
  }

  lemma MulSum(q: nat, r: nat, a: nat, b: nat)
    ensures (q * b + r) * a == q * (a * b) + r * a
  {
  }

  lemma MixedRadix(q: nat, r: nat, a: nat, b: nat)
    requires q < b && r < a
    ensures q * a + r < a * b
  {
    MulMonotone(q, b - 1, a);
    assert (b - 1) * a == a * b - a;
  }

  lemma DivDiv(n: nat, a: nat, b: nat)
    requires a > 0 && b > 0
    ensures a * b > 0 && n / a / b == n / (a * b)
  {
    var q, r := n / a, n % a;
    DivMod(n, a);
    DivMod(q, b);
    MulSum(q / b, q % b, a, b);
    MixedRadix(q % b, r, a, b);
    MulMonotone(0, q % b, a);
    DivUnique(n, a * b, q / b, q % b * a + r);
  }
}
