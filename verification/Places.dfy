/** Positional notation: powers, and the digit of a number at a place counted from the right. */
module Places {

  function Pow(base: nat, k: nat): nat {
    if k == 0 then 1 else base * Pow(base, k - 1)
  }

  /** The digit `k` places from the right: divide `k` times, and take the remainder. */
  function Place(n: nat, base: nat, k: nat): (d: nat)
    requires base >= 2
    ensures d < base
    decreases k
  {
    if k == 0 then n % base else Place(n / base, base, k - 1)
  }

  /** In one step: what remains of `n` after division by the power of that place. */
  lemma {:induction false} PlaceIs(n: nat, base: nat, k: nat)
    requires base >= 2
    ensures Pow(base, k) > 0 && Place(n, base, k) == n / Pow(base, k) % base
    decreases k
  {
    PowPositive(base, k);
    if k > 0 {
      PlaceIs(n / base, base, k - 1);
      DivDiv(n, base, Pow(base, k - 1));
    }
  }

  lemma {:induction false} PowPositive(base: nat, k: nat)
    requires base > 0
    ensures Pow(base, k) > 0
  {
    if k > 0 {
      PowPositive(base, k - 1);
      MulMono(1, Pow(base, k - 1), base);
    }
  }

  lemma MulMono(a: nat, b: nat, c: nat)
    requires a <= b
    ensures a * c <= b * c
  {
  }

  lemma DivUnique(n: nat, d: nat, q: nat, r: nat)
    requires r < d && n == q * d + r
    ensures n / d == q
  {
    var q', r' := n / d, n % d;
    assert q' * d + r' == n;
    assert (q' - q) * d == r - r';
    if q' != q {
      MulMono(1, if q' > q then q' - q else q - q', d);
    }
  }

  lemma DivDiv(n: nat, b: nat, p: nat)
    requires b > 0 && p > 0
    ensures b * p > 0 && n / b / p == n / (b * p)
  {
    var q, r := n / b, n % b;
    var q', r' := q / p, q % p;
    assert n == q * b + r && q == q' * p + r';
    assert (q' * p + r') * b + r == q' * (b * p) + (r' * b + r);
    MulMono(r' + 1, p, b);
    assert (r' + 1) * b == r' * b + b;
    MulMono(1, p, b);
    DivUnique(n, b * p, q', r' * b + r);
  }
}
