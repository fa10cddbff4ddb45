// Facts about products, quotients and remainders, the number of 64-bit words, and the size of a page.
module Arithmetic {
  const WORDS := 0x1_0000_0000_0000_0000
  const PAGE := 0x1000

  lemma MulMonotone(a: nat, b: nat, s: nat)
    requires a <= b
    ensures a * s <= b * s
  {
  }

  lemma MulStep(a: nat, b: nat, s: nat)
    requires a < b
    ensures a * s + s <= b * s
  {
    MulMonotone(a + 1, b, s);
    assert (a + 1) * s == a * s + s;
  }

  lemma DivMod(x: nat, s: nat)
    requires s > 0
    ensures x == x / s * s + x % s && x % s < s
  {
  }

  lemma DivUnique(x: nat, q: nat, r: nat, s: nat)
    requires r < s && x == q * s + r
    ensures x / s == q
  {
    DivMod(x, s);
    if x / s > q {
      MulStep(q, x / s, s);
    }
    if x / s < q {
      MulStep(x / s, q, s);
    }
  }

  lemma ModOfMultiple(q: nat, s: nat)
    requires s > 0
    ensures (q * s) % s == 0
  {
    DivMod(q * s, s);
    var q' := q * s / s;
    if q' < q {
      MulStep(q', q, s);
    } else if q < q' {
      MulStep(q, q', s);
    }
  }

  lemma MulAssociates(k: nat, q: nat, a: nat)
    ensures k * (q * a) == (k * q) * a
  {
  }
}
