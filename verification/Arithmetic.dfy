// Products, quotients and remainders of natural numbers.
module Arithmetic {
  lemma Distribute(a: nat, b: nat, p: nat)
    ensures (a + b) * p == a * p + b * p
  {}

  lemma Associate(a: nat, b: nat, c: nat)
    ensures (a * b) * c == a * (b * c)
  {}

  lemma Ordered(a: nat, b: nat, p: nat)
    requires a <= b
    ensures a * p <= b * p && p * a <= p * b
  {}

  lemma AtMostMinus(b: nat, q: int)
    requires q < 0
    ensures b * q <= -(b as int)
  {}

  lemma QuotientIsNat(a: nat, b: nat)
    requires b > 0
    ensures a / b >= 0
  {
    assert a == b * (a / b) + a % b;
    if a / b < 0 { AtMostMinus(b, a / b); }
  }

  lemma SameQuotient(b: nat, q: nat, r: nat, q': nat, r': nat)
    requires r < b && r' < b && b * q + r == b * q' + r'
    ensures q == q' && r == r'
  {
    if q < q' { Ordered(q + 1, q', b); }
    if q' < q { Ordered(q' + 1, q, b); }
  }

  lemma DivIs(a: nat, b: nat, q: nat, r: nat)
    requires b > 0 && a == b * q + r && r < b
    ensures a / b == q && a % b == r
  {
    QuotientIsNat(a, b);
    SameQuotient(b, q, r, a / b, a % b);
  }

  lemma QuotientBelow(a: nat, b: nat, c: nat)
    requires b > 0 && a < c * b
    ensures 0 <= a / b < c
  {
    QuotientIsNat(a, b);
    assert a == b * (a / b) + a % b;
    if a / b >= c { Ordered(c, a / b, b); }
  }

  lemma QuotientSmall(a: nat, b: nat)
    requires b > 0
    ensures a / b <= a
  {
    assert a == b * (a / b) + a % b;
    QuotientIsNat(a, b);
    Ordered(1, b, a / b);
  }
}
