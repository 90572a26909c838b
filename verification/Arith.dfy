/** Small facts of integer arithmetic that the solver needs to be handed one at a time. */
module Arith {

  lemma MulLe(a: int, b: int, c: int)
    requires a <= b && 0 <= c
    ensures a * c <= b * c
  {
  }

  lemma Square(x: int)
    ensures 0 <= x * x
  {
  }

  lemma Distribute(a: int, b: int, c: int)
    ensures (a + b) * c == a * c + b * c
    ensures (a - b) * c == a * c - b * c
  {
  }

  lemma Associate(a: int, b: int, c: int)
    ensures (a * b) * c == a * (b * c)
  {
  }

  lemma QuotientsClose(q: int, q': int, d: int)
    requires 0 < d && -d < (q - q') * d < d
    ensures q == q'
  {
    if q > q' { MulLe(1, q - q', d); }
    if q < q' { MulLe(q - q', -1, d); }
  }

  /** Quotient and remainder are unique. */
  lemma DivModUnique(n: int, d: int, q: int, r: int)
    requires 0 <= r < d && n == q * d + r
    ensures n / d == q && n % d == r
  {
    DivMod(n, d);
    Distribute(n / d, q, d);
    QuotientsClose(n / d, q, d);
  }

  lemma DivMod(n: int, d: int)
    requires 0 < d
    ensures n == (n / d) * d + n % d && 0 <= n % d < d
  {
  }

  lemma DivMonotone(m: int, n: int, d: int)
    requires 0 < d && m <= n
    ensures m / d <= n / d
  {
    DivMod(m, d);
    DivMod(n, d);
    if m / d > n / d {
      MulLe(n / d + 1, m / d, d);
      Distribute(n / d, 1, d);
    }
  }

  lemma ProductBound(x: int, m: int, y: int, n: int)
    requires -m <= x <= m && -n <= y <= n
    ensures -(m * n) <= x * y <= m * n
  {
    if x >= 0 { AbsBound(x, m, y, n); } else { AbsBound(-x, m, y, n); }
  }

  lemma AbsBound(x: int, m: int, y: int, n: int)
    requires 0 <= x <= m && -n <= y <= n
    ensures -(m * n) <= x * y <= m * n
  {
    MulLe(x, m, n);
    MulLe(y, n, x);
    MulLe(-n, y, x);
  }

  /** A shift up by p == 2^s in a word of p * q values keeps the residue modulo q. */
  lemma ShiftKeepsLowBits(r: nat, p: nat, q: nat)
    requires 0 < p && 0 < q
    ensures 0 <= (r % q) * p <= p * q - p
    ensures r * p == (r / q) * (p * q) + (r % q) * p
    ensures (r * p) % (p * q) == (r % q) * p
  {
    DivMod(r, q);
    Distribute((r / q) * q, r % q, p);
    Associate(r / q, q, p);
    MulLe(0, r % q, p);
    MulLe(r % q, q - 1, p);
    Distribute(q, 1, p);
    DivModUnique(r * p, p * q, r / q, (r % q) * p);
  }

  lemma NonNegativeQuotient(v: int, n: int)
    requires 0 < n && 0 <= v
    ensures 0 <= v / n
  {
  }

  lemma NonZeroProduct(a: int, b: int)
    requires a != 0 && b > 0
    ensures a * b != 0
  {
  }

  lemma EqualResiduesIff(a: int, b: int, n: int)
    requires n > 0
    ensures a % n == b % n <==> (b - a) % n == 0
  {
    DivMod(a, n);
    DivMod(b, n);
    DivMod(b - a, n);
    Distribute(b / n, a / n, n);
    Distribute((b - a) / n, a / n, n);
    if a % n == b % n { DivModUnique(b - a, n, b / n - a / n, 0); }
    if (b - a) % n == 0 { DivModUnique(b, n, (b - a) / n + a / n, a % n); }
  }

  lemma ModAbsorbs(x: int, y: int, n: int)
    requires n > 0
    ensures (x % n + y) % n == (x + y) % n
  {
    DivMod(x, n);
    DivMod(x % n + y, n);
    Distribute((x % n + y) / n, x / n, n);
    DivModUnique(x + y, n, (x % n + y) / n + x / n, (x % n + y) % n);
  }
}
