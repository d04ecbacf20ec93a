/** Division with remainder, for the solver's benefit. */
module DivMod {

  lemma Divides(n: nat, d: nat)
    requires d > 0
    ensures n == d * (n / d) + n % d && n / d >= 0 && 0 <= n % d < d && n % d <= n
  {
  }

  lemma Distribute(b: int, a: int, d: int)
    ensures d * (b - a) == d * b - d * a
  {
  }

  lemma AtLeast(d: int, k: int)
    requires d > 0 && k >= 1
    ensures d * k >= d
  {
  }

  lemma AtLeastFactor(d: int, q: int)
    requires d >= 1 && q >= 0
    ensures d * q >= q
  {
  }

  lemma DivModUnique(n: nat, d: nat, q: nat, r: nat)
    requires d > 0 && n == d * q + r && r < d
    ensures n / d == q && n % d == r
  {
    var k := q - n / d;
    Divides(n, d);
    Distribute(q, n / d, d);
    if k >= 1 {
      AtLeast(d, k);
    } else if k <= -1 {
      AtLeast(d, -k);
    }
  }

  lemma DivMonotonic(a: nat, b: nat, d: nat)
    requires d > 0 && a <= b
    ensures a / d <= b / d
  {
    Divides(a, d);
    Divides(b, d);
    Distribute(a / d, b / d, d);
    if a / d > b / d {
      AtLeast(d, a / d - b / d);
    }
  }

  lemma DivAtMost(n: nat, d: nat)
    requires d > 0
    ensures n / d <= n
  {
    Divides(n, d);
    AtLeastFactor(d, n / d);
  }
}
