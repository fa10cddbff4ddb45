// Numerals in a base, and how they are read.
module Numerals {
  import opened Arithmetic
  import opened Bytes

  function Pow(b: nat, k: nat): nat {
    if k == 0 then 1 else b * Pow(b, k - 1)
  }

  // The number of digits of v, none for zero
  function DigitCount(b: nat, v: nat): nat
    requires b >= 2
    decreases v
  {
    if v == 0 then 0 else
      Shrinks(b, v);
      1 + DigitCount(b, v / b)
  }

  lemma Shrinks(b: nat, v: nat)
    requires b >= 2
    ensures v > 0 ==> v / b < v
    ensures v == v / b * b + v % b && v % b < b
  {
    DivMod(v, b);
    MulMonotone(2, b, v / b);
  }

  // What strtoull reads a digit as
  function CharValue(c: char): nat {
    if '0' <= c <= '9' then c as int - 48
    else if 'A' <= c <= 'F' then c as int - 55
    else if 'a' <= c <= 'f' then c as int - 87
    else 255
  }

  predicate Alphabet(alpha: string) {
    |alpha| >= 2 && forall d :: 0 <= d < |alpha| ==> CharValue(alpha[d]) == d
  }

  function Parse(b: nat, s: string): nat {
    if s == "" then 0 else Parse(b, s[..|s| - 1]) * b + CharValue(s[|s| - 1])
  }

  predicate IsNumeral(b: nat, s: string) {
    forall i :: 0 <= i < |s| ==> CharValue(s[i]) < b
  }

  // The k lowest digits of v
  function Numeral(alpha: string, v: nat, k: nat): (s: string)
    requires |alpha| >= 2
    ensures |s| == k
  {
    if k == 0 then "" else Numeral(alpha, v / |alpha|, k - 1) + [alpha[v % |alpha|]]
  }

  lemma DigitIs(alpha: string, d: nat)
    requires Alphabet(alpha) && d < |alpha|
    ensures CharValue(alpha[d]) == d
  {
    hide CharValue;
  }

  lemma {:induction false} NumeralIsOne(alpha: string, v: nat, k: nat)
    requires Alphabet(alpha)
    ensures IsNumeral(|alpha|, Numeral(alpha, v, k))
    decreases k
  {
    assert |alpha| >= 2;
    NumeralNone(alpha, v);
    hide CharValue, Alphabet, Numeral, IsNumeral;
    if k == 0 {
      NothingIsNumeral(|alpha|);
    } else {
      NumeralIsOne(alpha, v / |alpha|, k - 1);
      NumeralStep(alpha, v, k);
      DigitAdded(alpha, Numeral(alpha, v / |alpha|, k - 1), v % |alpha|);
    }
  }

  lemma NothingIsNumeral(b: nat)
    ensures IsNumeral(b, "")
  {
  }

  lemma DigitAdded(alpha: string, s: string, d: nat)
    requires Alphabet(alpha) && d < |alpha| && IsNumeral(|alpha|, s)
    ensures IsNumeral(|alpha|, s + [alpha[d]])
  {
    DigitIs(alpha, d);
    hide CharValue, Alphabet;
  }

  lemma ParseOneMore(b: nat, s: string, c: char)
    ensures Parse(b, s + [c]) == Parse(b, s) * b + CharValue(c)
  {
    assert (s + [c])[..|s|] == s;
  }

  // One digit more reads as v if and only if the ones before it read as the rest of v.
  lemma ParseLast(alpha: string, s: string, v: nat)
    requires Alphabet(alpha)
    ensures Parse(|alpha|, s + [alpha[v % |alpha|]]) == v <==> Parse(|alpha|, s) == v / |alpha|
  {
    assert |alpha| >= 2;
    hide Parse, CharValue, Alphabet;
    DivMod(v, |alpha|);
    DigitIs(alpha, v % |alpha|);
    ParseOneMore(|alpha|, s, alpha[v % |alpha|]);
    LastDigit(|alpha|, v, Parse(|alpha|, s), Parse(|alpha|, s + [alpha[v % |alpha|]]));
  }

  lemma LastDigit(b: nat, v: nat, p: nat, t: nat)
    requires b >= 2 && t == p * b + v % b
    ensures t == v <==> p == v / b
  {
    DivMod(v, b);
    SameQuotient(b, p, v / b, v % b);
  }

  // Printing k digits and reading them back gives v, exactly when k digits are enough for it.
  lemma {:induction false} NumeralRoundTrip(alpha: string, v: nat, k: nat)
    requires Alphabet(alpha)
    ensures Parse(|alpha|, Numeral(alpha, v, k)) == v <==> DigitCount(|alpha|, v) <= k
    decreases k
  {
    assert |alpha| >= 2;
    hide Parse, Numeral, DigitCount, Alphabet;
    CountStep(|alpha|, v);
    if k == 0 {
      NothingIsZero(|alpha|);
      assert Numeral(alpha, v, k) == "";
    } else {
      NumeralRoundTrip(alpha, v / |alpha|, k - 1);
      NumeralStep(alpha, v, k);
      ParseLast(alpha, Numeral(alpha, v / |alpha|, k - 1), v);
      ZeroQuotient(|alpha|);
    }
  }

  lemma ZeroQuotient(b: nat)
    requires b >= 2
    ensures 0 / b == 0 && DigitCount(b, 0) == 0
  {
  }

  lemma NothingIsZero(b: nat)
    ensures Parse(b, "") == 0
  {
  }

  lemma SameQuotient(b: nat, p: nat, q: nat, r: nat)
    requires b >= 2
    ensures p * b + r == q * b + r <==> p == q
  {
    if p < q {
      MulStep(p, q, b);
    } else if q < p {
      MulStep(q, p, b);
    }
  }

  lemma CountStep(b: nat, v: nat)
    requires b >= 2
    ensures DigitCount(b, v) == if v == 0 then 0 else 1 + DigitCount(b, v / b)
  {
  }

  lemma NumeralStep(alpha: string, v: nat, k: nat)
    requires |alpha| >= 2 && k > 0
    ensures Numeral(alpha, v, k) == Numeral(alpha, v / |alpha|, k - 1) + [alpha[v % |alpha|]]
  {
  }

  // More digits than there are come out as leading zeros.
  lemma {:induction false} NumeralPadded(alpha: string, v: nat, k: nat, m: nat)
    requires |alpha| >= 2 && alpha[0] == '0' && DigitCount(|alpha|, v) <= k
    ensures Numeral(alpha, v, k + m) == Repeat('0', m) + Numeral(alpha, v, k)
    decreases k, m
  {
    hide Numeral, DigitCount;
    ZeroQuotient(|alpha|);
    CountStep(|alpha|, v);
    if k > 0 {
      NumeralStep(alpha, v, k);
      NumeralStep(alpha, v, k + m);
      NumeralPadded(alpha, v / |alpha|, k - 1, m);
    } else {
      NumeralNone(alpha, v);
      if m > 0 {
        NumeralStep(alpha, v, m);
        NumeralPadded(alpha, v, k, m - 1);
        assert v == 0 && 0 % |alpha| == 0;
        assert Repeat('0', m) == Repeat('0', m - 1) + ['0'];
      }
    }
  }

  lemma NumeralNone(alpha: string, v: nat)
    requires |alpha| >= 2
    ensures Numeral(alpha, v, 0) == ""
  {
  }

  // Leading zeros do not count.
  lemma {:induction false} LeadingZeros(b: nat, n: nat, s: string)
    ensures Parse(b, Repeat('0', n) + s) == Parse(b, s)
    ensures b >= 2 && IsNumeral(b, s) ==> IsNumeral(b, Repeat('0', n) + s)
    decreases n, |s|
  {
    var t := Repeat('0', n) + s;
    if s != "" {
      LeadingZeros(b, n, s[..|s| - 1]);
      assert t[..|t| - 1] == Repeat('0', n) + s[..|s| - 1];
    } else if n > 0 {
      LeadingZeros(b, n - 1, s);
      assert t[..n - 1] == Repeat('0', n - 1) + s;
    }
  }

  lemma {:induction false} CountBound(b: nat, v: nat, k: nat)
    requires b >= 2
    ensures v < Pow(b, k) <==> DigitCount(b, v) <= k
    decreases k
  {
    if v == 0 {
      PowPositive(b, k);
    } else if k > 0 {
      Shrinks(b, v);
      CountBound(b, v / b, k - 1);
      BelowMultiple(b, v, Pow(b, k - 1));
    }
  }

  lemma PowPositive(b: nat, k: nat)
    requires b >= 2
    ensures Pow(b, k) > 0
  {
    if k > 0 {
      PowPositive(b, k - 1);
      MulMonotone(1, Pow(b, k - 1), b);
    }
  }

  lemma BelowMultiple(b: nat, v: nat, m: nat)
    requires b >= 2
    ensures v < b * m <==> v / b < m
  {
    DivMod(v, b);
    if v / b < m {
      MulStep(v / b, m, b);
    } else {
      MulMonotone(m, v / b, b);
    }
  }

  lemma {:induction false} PowAdd(b: nat, m: nat, n: nat)
    ensures Pow(b, m + n) == Pow(b, m) * Pow(b, n)
    decreases m
  {
    PowStep(b, m);
    PowStep(b, m + n);
    hide Pow;
    if m > 0 {
      PowAdd(b, m - 1, n);
      MulAssociates(b, Pow(b, m - 1), Pow(b, n));
    }
  }

  lemma PowStep(b: nat, k: nat)
    ensures Pow(b, k) == if k == 0 then 1 else b * Pow(b, k - 1)
  {
  }

  lemma Powers()
    ensures Pow(2, 64) == WORDS
    ensures Pow(10, 20) == 100_000_000_000_000_000_000
  {
    assert Pow(2, 4) == 16 && Pow(10, 5) == 100_000;
    hide Pow;
    PowAdd(2, 4, 4);
    PowAdd(2, 8, 8);
    PowAdd(2, 16, 16);
    PowAdd(2, 32, 32);
    PowAdd(10, 5, 5);
    PowAdd(10, 10, 10);
  }

  // 64 bits need at most 64 binary, 16 hexadecimal and 20 decimal digits; the number of leading zero
  // bits gives the number of hexadecimal ones.
  lemma {:induction false} BitsToHex(v: nat)
    ensures DigitCount(16, v) == (DigitCount(2, v) + 3) / 4
    decreases v
  {
    if v > 0 {
      var b, h := 2, 16;
      var v1 := v / 2;
      var v2 := v1 / 2;
      var v3 := v2 / 2;
      var v4 := v3 / 2;
      assert v4 == v / 16;
      Step(v);
      Step(v1);
      Step(v2);
      Step(v3);
      BitsToHex(v4);
      assert DigitCount(h, v) == 1 + DigitCount(h, v / h);
    }
  }

  lemma Step(v: nat)
    ensures DigitCount(2, v) == if v == 0 then 0 else 1 + DigitCount(2, v / 2)
  {
  }

  lemma Widths(v: nat)
    requires v < WORDS
    ensures DigitCount(2, v) <= 64 && DigitCount(16, v) <= 16 && DigitCount(10, v) <= 20
    ensures DigitCount(16, v) == 16 - (64 - DigitCount(2, v)) / 4
  {
    Powers();
    CountBound(2, v, 64);
    CountBound(10, v, 20);
    BitsToHex(v);
  }
}
