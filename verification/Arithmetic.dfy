/** Quotients and multiples of a positive step. */
module Arithmetic {

  lemma {:induction false} MultipleGrows(n: nat, d: nat)
    requires n >= 1
    ensures n * d >= d
  {
    if n > 1 {
      MultipleGrows(n - 1, d);
      assert n * d == (n - 1) * d + d;
    }
  }

  lemma MultipleBeyond(n: int, d: nat)
    requires d >= 1
    ensures n >= 1 ==> n * d >= d
    ensures n <= -1 ==> n * d < 0
  {
    if n >= 1 {
      MultipleGrows(n, d);
    } else if n <= -1 {
      MultipleGrows(0 - n, d);
      assert n * d == 0 - (0 - n) * d;
    }
  }

  lemma MultipleIsStop(n: nat, d: nat)
    requires d >= 1
    ensures (n * d) % d == 0
  {
    var product := n * d;
    var quotient := product / d;
    assert product % d == product - quotient * d;
    assert product - quotient * d == (n - quotient) * d;
    MultipleBeyond(n - quotient, d);
  }

  lemma DivideAndMultiply(x: nat, d: nat)
    requires d >= 1
    ensures (x / d) * d + x % d == x
  {
  }

  /** Division with remainder is unique. */
  lemma QuotientIs(x: nat, q: nat, r: nat, d: nat)
    requires r < d && x == q * d + r
    ensures x / d == q && x % d == r
  {
    var quotient, rest := x / d, x % d;
    assert x == quotient * d + rest;
    assert (q - quotient) * d == rest - r;
    MultipleBeyond(q - quotient, d);
  }
}
