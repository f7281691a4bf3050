/** Quotient and remainder are unique; powers of two. */
module Division {
  lemma UniqueRemainder(v: nat, d: nat, q: nat, r: nat)
    requires d >= 1 && r < d && v == q * d + r
    ensures v % d == r && v / d == q
  {
    var q', r' := v / d, v % d;
    assert v == q' * d + r' && 0 <= r' < d;
    UniqueQuotient(d, q, r, q', r');
  }

  lemma UniqueQuotient(d: nat, q: int, r: nat, q': int, r': nat)
    requires r < d && r' < d && q * d + r == q' * d + r'
    ensures q == q' && r == r'
  {
    assert (q - q') * d == r' - r;
    if q - q' >= 1 { AtLeast(q - q', d); }
    if q' - q >= 1 { AtLeast(q' - q, d); }
  }

  lemma AtLeast(k: int, d: nat)
    requires k >= 1
    ensures k * d >= d
  {}

  function Pow2(n: nat): (p: nat)
    ensures p >= 1
  {
    if n == 0 then 1 else 2 * Pow2(n - 1)
  }

  lemma DivTwice(b: nat, p: nat)
    requires p >= 1
    ensures b / 2 / p == b / (2 * p)
  {
    var q, r := b / 2 / p, b / 2 % p;
    assert b / 2 == q * p + r;
    assert b == q * (2 * p) + (2 * r + b % 2);
    UniqueRemainder(b, 2 * p, q, 2 * r + b % 2);
  }
}
