/** Powers of two and remainders. */
module Arithmetic {
  function Pow2(n: nat): (p: nat)
    ensures p > 0
  {
    if n == 0 then 1 else 2 * Pow2(n - 1)
  }

  lemma {:induction false} Pow2Add(a: nat, b: nat)
    ensures Pow2(a + b) == Pow2(a) * Pow2(b)
    decreases b
  {
    if b > 0 {
      Pow2Add(a, b - 1);
      assert Pow2(a) * (2 * Pow2(b - 1)) == 2 * (Pow2(a) * Pow2(b - 1));
    }
  }

  lemma Remainder(n: nat, d: nat, q: nat, r: nat)
    requires n == d * q + r && r < d
    ensures n % d == r
  {
    var s := n / d - q;
    AtLeastOnce(d, s);
    assert d * s == r - n % d;
  }

  lemma AtLeastOnce(d: int, s: int)
    requires d >= 0
    ensures (s >= 1 ==> d * s >= d) && (s <= -1 ==> d * s <= -d) && (s == 0 ==> d * s == 0)
  {
  }

  /** Counting modulo `d`. */
  lemma WrapsAround(a: nat, d: nat)
    requires 0 < d
    ensures (a + 1) % d == if a % d + 1 == d then 0 else a % d + 1
  {
    if a % d + 1 == d {
      assert d * (a / d + 1) == d * (a / d) + d;
      Remainder(a + 1, d, a / d + 1, 0);
    } else {
      Remainder(a + 1, d, a / d, a % d + 1);
    }
  }

  lemma Quotient(n: nat, d: nat, q: nat, r: nat)
    requires d > 0 && n == d * q + r && r < d
    ensures n / d == q
  {
    Remainder(n, d, q, r);
    assert d * (n / d) == d * q;
    SameFactor(d, n / d, q);
  }

  lemma SameFactor(d: nat, a: nat, b: nat)
    requires d > 0 && d * a == d * b
    ensures a == b
  {
    AtLeastOnce(d, a - b);
    assert d * (a - b) == 0;
  }
}
