/** The few facts about products and quotients that the layout proofs rest on. */
module Arithmetic {
  lemma MulGap(a: int, b: int, c: int)
    requires a < b && c >= 0
    ensures a * c + c <= b * c
  {
    assert (b - a - 1) * c >= 0;
  }

  lemma MulMono(a: int, b: int, c: int)
    requires a <= b && c >= 0
    ensures a * c <= b * c
  {
    if a < b {
      MulGap(a, b, c);
    }
  }

  lemma MulDiffers(a: int, b: int, c: int)
    requires a != b && c > 0
    ensures a * c != b * c
  {
    if a < b {
      MulGap(a, b, c);
    } else {
      MulGap(b, a, c);
    }
  }

  lemma MulAssoc(a: int, b: int, c: int)
    ensures a * (b * c) == (a * b) * c
  {
  }

  lemma MulSwap(a: int, b: int, c: int)
    ensures a * (b * c) == b * (a * c)
  {
  }

  lemma MulSum(a: int, b: int, c: int)
    ensures a * (b + c) == a * b + a * c
  {
  }

  lemma MulPositive(a: nat, b: nat)
    ensures a > 0 && b > 0 <==> a * b > 0
  {
    if a > 0 && b > 0 {
      MulGap(0, a, b);
    }
  }

  /** Quotient and remainder are determined by the number they make up. */
  lemma DivModUnique(a: int, b: int, q: int, r: int, c: int)
    requires 0 <= b < c && 0 <= r < c && a * c + b == q * c + r
    ensures a == q && b == r
  {
    if a < q {
      MulGap(a, q, c);
    } else if q < a {
      MulGap(q, a, c);
    }
  }

  lemma DivModOf(n: nat, q: nat, r: nat, c: nat)
    requires r < c && n == q * c + r
    ensures n / c == q && n % c == r
  {
    assert n / c * c + n % c == n;
    DivModUnique(n / c, n % c, q, r, c);
  }

  lemma DivBound(n: nat, a: nat, c: nat)
    requires c > 0 && n < a * c
    ensures n / c < a && n / c * c + n % c == n
  {
    if a <= n / c {
      MulMono(a, n / c, c);
    }
  }
}
