// Powers of two, the mask that rounds an address down to a multiple of one, and the next multiple.
module Rounding {
  import opened Arithmetic

  predicate PowerOfTwo(a: nat)
    decreases a
  {
    a == 1 || (a > 0 && a % 2 == 0 && PowerOfTwo(a / 2))
  }

  predicate Aligned(x: nat, a: nat) {
    a > 0 && x % a == 0
  }

  function AlignUp(x: nat, a: nat): (r: nat)
    requires a > 0
    ensures x <= r < x + a
  {
    DivMod(x + a - 1, a);
    (x + a - 1) / a * a
  }

  lemma AlignUpIsNext(x: nat, a: nat)
    requires a > 0
    ensures Aligned(AlignUp(x, a), a)
    ensures forall m: nat :: x <= m && Aligned(m, a) ==> AlignUp(x, a) <= m
  {
    ModOfMultiple((x + a - 1) / a, a);
    forall m: nat | x <= m && Aligned(m, a)
      ensures AlignUp(x, a) <= m
    {
      NoMultipleBetween(x, a, m);
    }
  }

  lemma NoMultipleBetween(x: nat, a: nat, m: nat)
    requires a > 0 && x <= m && m % a == 0
    ensures (x + a - 1) / a * a <= m
  {
    var y := x + a - 1;
    DivMod(y, a);
    DivMod(m, a);
    if y / a > m / a {
      MulStep(m / a, y / a, a);
    } else {
      MulMonotone(y / a, m / a, a);
    }
  }

  // --- Masks --------------------------------------------------------------------------------------

  // The bitwise and of two numbers
  function And(x: nat, y: nat): (r: nat)
    ensures r <= x
    decreases x
  {
    if x == 0 then 0
    else 2 * And(x / 2, y / 2) + if x % 2 == 1 && y % 2 == 1 then 1 else 0
  }

  lemma {:induction false} AllOnes(x: nat, p: nat)
    requires PowerOfTwo(p) && x < p
    ensures And(x, p - 1) == x
    decreases x
  {
    if x > 0 {
      assert (p - 1) / 2 == p / 2 - 1;
      AllOnes(x / 2, p / 2);
    }
  }

  // Of words of p values, the complement of a - 1 is p - a, and this mask rounds down to a multiple of a.
  lemma {:induction false} MaskRounds(x: nat, a: nat, p: nat)
    requires PowerOfTwo(a) && PowerOfTwo(p) && a <= p && x < p
    ensures And(x, p - a) == x / a * a
    decreases x
  {
    if x == 0 {
      DivUnique(x, 0, 0, a);
    } else if a == 1 {
      AllOnes(x, p);
    } else {
      assert (p - a) % 2 == 0 && (p - a) / 2 == p / 2 - a / 2;
      MaskRounds(x / 2, a / 2, p / 2);
      HalfQuotient(x, a);
    }
  }

  lemma HalfQuotient(x: nat, a: nat)
    requires a > 0 && a % 2 == 0
    ensures x / a * a == 2 * (x / 2 / (a / 2) * (a / 2))
  {
    var h := a / 2;
    var q, r := x / 2 / h, x / 2 % h;
    DivMod(x / 2, h);
    assert q * a == 2 * (q * h);
    DivUnique(x, q, 2 * r + x % 2, a);
  }

  // What both allocators compute on 64-bit words: the sum of x and a - 1, masked
  function NextAligned(x: nat, a: nat): (r: nat)
    requires 0 < a < WORDS && x < WORDS
    ensures r < WORDS
  {
    And((x + a - 1) % WORDS, WORDS - a)
  }

  // This is the next multiple unless there is none below 2^64, and then it is 0.
  lemma NextAlignedIs(x: nat, a: nat)
    requires PowerOfTwo(a) && a < WORDS && x < WORDS
    ensures NextAligned(x, a) == if x + a - 1 < WORDS then AlignUp(x, a) else 0
    ensures x + a - 1 < WORDS <==> AlignUp(x, a) < WORDS
  {
    hide PowerOfTwo, And;
    WordsIsPower();
    var y := (x + a - 1) % WORDS;
    MaskRounds(y, a, WORDS);
    if x + a - 1 >= WORDS {
      assert y == x + a - 1 - WORDS < a;
      DivUnique(y, 0, y, a);
      PowerDivides(a, WORDS);
      DivMod(WORDS, a);
      DivMod(x + a - 1, a);
      if (x + a - 1) / a < WORDS / a {
        MulStep((x + a - 1) / a, WORDS / a, a);
      } else {
        MulMonotone(WORDS / a, (x + a - 1) / a, a);
      }
    }
  }

  // For an address above 0, aligning up goes up if and only if the addition does not wrap around.
  lemma AlignsUpIff(x: nat, a: nat)
    requires PowerOfTwo(a) && a < WORDS && 0 < x < WORDS
    ensures NextAligned(x, a) >= x <==> x + a - 1 < WORDS
    ensures NextAligned(x, a) < x <==> NextAligned(x, a) == 0
  {
    hide NextAligned;
    NextAlignedIs(x, a);
  }

  // --- Powers -------------------------------------------------------------------------------------

  lemma {:induction false} PowerDivides(a: nat, b: nat)
    requires PowerOfTwo(a) && PowerOfTwo(b) && a <= b
    ensures a > 0 && b % a == 0
    decreases a
  {
    if a > 1 {
      PowerDivides(a / 2, b / 2);
      DivMod(b / 2, a / 2);
      var q := b / 2 / (a / 2);
      assert b == q * a by {
        assert b == 2 * (q * (a / 2)) == q * (2 * (a / 2));
      }
      ModOfMultiple(q, a);
    }
  }

  lemma DividesTwice(m: nat, b: nat, a: nat)
    requires a > 0 && b > 0 && m % b == 0 && b % a == 0
    ensures m % a == 0
  {
    DivMod(m, b);
    DivMod(b, a);
    MulAssociates(m / b, b / a, a);
    ModOfMultiple(m / b * (b / a), a);
  }

  // What is aligned to a large power is aligned to every smaller one.
  lemma SmallerAligned(m: nat, b: nat, a: nat)
    requires PowerOfTwo(a) && PowerOfTwo(b) && a <= b && Aligned(m, b)
    ensures Aligned(m, a)
  {
    PowerDivides(a, b);
    DividesTwice(m, b, a);
  }

  lemma Twice(a: nat)
    requires PowerOfTwo(a)
    ensures PowerOfTwo(2 * a)
  {
    assert 2 * a / 2 == a;
  }

  lemma SixteenTimes(a: nat)
    requires PowerOfTwo(a)
    ensures PowerOfTwo(16 * a)
  {
    hide PowerOfTwo;
    Twice(a);
    Twice(2 * a);
    Twice(4 * a);
    Twice(8 * a);
  }

  lemma SmallPowers()
    ensures PowerOfTwo(0x10) && PowerOfTwo(0x1000) && PowerOfTwo(0x1_0000_0000)
  {
    var one := 1;
    assert PowerOfTwo(one);
    hide PowerOfTwo;
    SixteenTimes(one);
    SixteenTimes(0x10);
    SixteenTimes(0x100);
    SixteenTimes(0x1000);
    SixteenTimes(0x1_0000);
    SixteenTimes(0x10_0000);
    SixteenTimes(0x100_0000);
    SixteenTimes(0x1000_0000);
  }

  lemma WordsIsPower()
    ensures PowerOfTwo(WORDS)
  {
    hide PowerOfTwo;
    SmallPowers();
    SixteenTimes(0x1_0000_0000);
    SixteenTimes(0x10_0000_0000);
    SixteenTimes(0x100_0000_0000);
    SixteenTimes(0x1000_0000_0000);
    SixteenTimes(0x1_0000_0000_0000);
    SixteenTimes(0x10_0000_0000_0000);
    SixteenTimes(0x100_0000_0000_0000);
    SixteenTimes(0x1000_0000_0000_0000);
  }
}
