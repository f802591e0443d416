/**
 The arrays of `decode_dec_str` have room for 415241 digits to base 256 for every million decimal digits,
 and one more, where a little more than 415241.01 are needed for the power of ten next to the number. So
 there are numbers that would fit the arrays and are refused, for instance one with 27531 digits.
 */
module RefusedNumber {
  import opened Bytes
  import opened DecimalInt
  import opened BigNumber

  // ----- Powers -----

  lemma {:induction false} Pow256Sum(j: nat, k: nat)
    ensures Pow256(j + k) == Pow256(j) * Pow256(k)
  {
    if j > 0 {
      Pow256Sum(j - 1, k);
      Regroup(256, Pow256(j - 1), Pow256(k));
    }
  }

  // ----- A power of ten that is too large -----

  const SCALE: nat := 1000000000000

  /** 10^n is at least 256^m times `x` / SCALE. */
  predicate AtLeast(n: nat, m: nat, x: nat) { Pow10(n) * SCALE >= x * Pow256(m) }

  /** Squaring both sides, with another factor ten if `more` is 1, and `r` factors 256 taken out of `x`. */
  lemma Square(n: nat, m: nat, x: nat, more: nat, r: nat, y: nat)
    requires AtLeast(n, m, x) && Pow256(r) * (y * SCALE) <= Pow10(more) * (x * x)
    ensures AtLeast(2 * n + more, 2 * m + r, y)
  {
    hide Pow10, Pow256;
    var a, p, t, q := Pow10(n), Pow256(m), Pow10(more), Pow256(r);
    Pow10Sum(n, n);
    Pow10Sum(n + n, more);
    Pow256Sum(m, m);
    Pow256Sum(m + m, r);
    assert n + n + more == 2 * n + more && m + m + r == 2 * m + r;
    Squared(a * SCALE, x * p);
    Squared4(a, SCALE);
    Squared4(x, p);
    ScaleUp(t, a * a * (SCALE * SCALE), x * x * (p * p));
    ScaleUp(p * p, t * (x * x), q * (y * SCALE));
    Cancelled(t, a * a, q, y, p * p, x * x);
  }

  lemma Squared(a: nat, b: nat)
    requires a >= b
    ensures a * a >= b * b
  {
  }

  lemma Squared4(a: nat, b: nat)
    ensures a * b * (a * b) == a * a * (b * b)
  {
    Regroup(a, b, a * b);
    Regroup(b, a, b);
    assert b * (a * b) == a * (b * b) by {
      Regroup(b, a, b);
      Regroup(a, b, b);
    }
    Regroup(a, a, b * b);
  }

  lemma ScaleUp(t: nat, a: nat, b: nat)
    requires a >= b
    ensures t * a >= t * b
  {
  }

  /** From t a S^2 >= t x p and p t x >= p q y S follows a t S >= y p q. */
  lemma Cancelled(t: nat, a: nat, q: nat, y: nat, p: nat, x: nat)
    requires t * (a * (SCALE * SCALE)) >= t * (x * p)
    requires p * (t * x) >= p * (q * (y * SCALE))
    ensures a * t * SCALE >= y * (p * q)
  {
    var left, right := a * t * SCALE, y * (p * q);
    assert t * (a * (SCALE * SCALE)) == left * SCALE by {
      Regroup(t, a, SCALE * SCALE);
      Regroup(a * t, SCALE, SCALE);
    }
    assert t * (x * p) == p * (t * x) by {
      Regroup(t, x, p);
    }
    assert p * (q * (y * SCALE)) == right * SCALE by {
      Regroup(p, q, y * SCALE);
      Regroup(p * q, y, SCALE);
    }
    NoLess(left, right, SCALE);
  }

  lemma NoLess(a: nat, b: nat, k: nat)
    requires a * k >= b * k && k > 0
    ensures a >= b
  {
  }

  lemma SmallPowers()
    ensures Pow10(0) == 1 && Pow10(1) == 10 && Pow256(0) == 1 && Pow256(1) == 256 && Pow256(2) == 0x1_0000
  {
  }

  /** By repeated squaring, 10^27531 >= 1.0016 * 256^11432. */
  lemma TooLarge()
    ensures Pow10(27531) >= Pow256(11432)
  {
    SmallPowers();
    hide Pow10, Pow256;
    Square(1, 0, 10000000000000, 1, 1, 3906250000000);
    Square(3, 1, 3906250000000, 0, 0, 15258789062500);
    Square(6, 2, 15258789062500, 1, 1, 9094947017729);
    Square(13, 5, 9094947017729, 0, 0, 82718061255297);
    Square(26, 10, 82718061255297, 1, 2, 1044048714879);
    Square(53, 22, 1044048714879, 1, 0, 10900377190404);
    Square(107, 44, 10900377190404, 1, 1, 4641336831760);
    Square(215, 89, 4641336831760, 0, 0, 21542007585851);
    Square(430, 178, 21542007585851, 0, 1, 1812726917300);
    Square(860, 357, 1812726917300, 0, 0, 3285978876703);
    Square(1720, 714, 3285978876703, 1, 0, 107976571781383);
    Square(3441, 1428, 107976571781383, 0, 1, 45542734584609);
    Square(6882, 2857, 45542734584609, 1, 1, 81021120056411);
    Square(13765, 5715, 81021120056411, 1, 2, 1001651290160);
    assert AtLeast(27531, 11432, 1001651290160);
    AtLeastOne(Pow10(27531), Pow256(11432), 1001651290160);
  }

  lemma AtLeastOne(a: nat, p: nat, x: nat)
    requires a * SCALE >= x * p && x >= SCALE
    ensures a >= p
  {
    ScaleUp(p, x, SCALE);
    NoLess(a, p, SCALE);
  }

  // ----- A number that is not -----

  lemma Base10()
    ensures Pow10(59) == 100000000000000000000000000000000000000000000000000000000000
  {
    hide Pow10;
    SmallPowers();
    Pow10Sum(1, 1);
    Pow10Sum(2, 1);
    Pow10Sum(3, 3);
    Pow10Sum(6, 1);
    Pow10Sum(7, 7);
    Pow10Sum(14, 14);
    Pow10Sum(28, 28);
    Pow10Sum(56, 3);
  }

  lemma Base256()
    ensures Pow256(49) == 0x100000000000000000000000000000000000000000000000000000000000000000000000000000000000000000000000000
  {
    hide Pow256;
    SmallPowers();
    Pow256Sum(1, 2);
    Pow256Sum(3, 3);
    Pow256Sum(6, 6);
    Pow256Sum(12, 12);
    Pow256Sum(24, 24);
    Pow256Sum(48, 1);
  }

  lemma Base118()
    ensures Pow10(118) < Pow256(49)
  {
    hide Pow10, Pow256;
    Base10();
    Base256();
    Pow10Sum(59, 59);
  }

  lemma Base36()
    ensures Pow10(36) < Pow256(15)
  {
    assert Pow10(3) == 1000;
    assert Pow10(6) == 1000000;
    assert Pow256(3) == 0x100_0000;
    hide Pow10, Pow256;
    Pow10Sum(6, 6);
    Pow10Sum(12, 12);
    Pow10Sum(24, 12);
    Pow256Sum(3, 3);
    Pow256Sum(6, 6);
    Pow256Sum(12, 3);
  }

  /** 10^118 < 256^49, so `k` times that many digits fit, too. */
  lemma {:induction false} Fits118(k: nat)
    ensures Pow10(118 * k) <= Pow256(49 * k)
  {
    SmallPowers();
    hide Pow10, Pow256;
    if k > 0 {
      Fits118(k - 1);
      Base118();
      Pow10Sum(118, 118 * (k - 1));
      Pow256Sum(49, 49 * (k - 1));
      assert 118 + 118 * (k - 1) == 118 * k && 49 + 49 * (k - 1) == 49 * k;
      Products(Pow10(118), Pow256(49), Pow10(118 * (k - 1)), Pow256(49 * (k - 1)));
    }
  }

  lemma Products(a: nat, b: nat, c: nat, d: nat)
    requires a <= b && c <= d
    ensures a * c <= b * d
  {
    assert a * c <= b * c <= b * d;
  }

  lemma SmallEnough()
    ensures Pow10(27530) < Pow256(11432)
  {
    hide Pow10, Pow256;
    Fits118(233);
    Base36();
    Pow10Sum(118 * 233, 36);
    Pow256Sum(49 * 233, 15);
    Larger(Pow10(118 * 233), Pow256(49 * 233), Pow10(36), Pow256(15));
  }

  lemma Larger(a: nat, b: nat, c: nat, d: nat)
    requires a <= b && c < d && b > 0
    ensures a * c < b * d
  {
    assert a * c <= b * c < b * d;
  }

  // ----- The text -----

  lemma {:induction false} ZeroDigits(n: nat)
    ensures var s := seq(n, _ => ZERO); NumberOf(s) == 0 && DigitCount(s) == n
  {
    var s := seq(n, _ => ZERO);
    if n > 0 {
      ZeroDigits(n - 1);
      assert s[1..] == seq(n - 1, _ => ZERO);
    }
  }

  lemma OneDigit(s: bytes)
    requires s != [] && s[0] == ZERO + 1
    ensures NumberOf(s) == NumberOf(s[1..]) + Pow10(DigitCount(s[1..])) && DigitCount(s) == DigitCount(s[1..]) + 1
  {
  }

  /** A one with 27530 zeros behind it fits the array that there is for it, and `decode_dec_str` has no result for it. */
  lemma RefusedThoughItFits() returns (s: bytes)
    ensures NumberOf(s) < Pow256(OutMax(|s|))
    ensures Pow10(DigitCount(s)) >= Pow256(OutMax(|s|))
  {
    hide Pow10, Pow256;
    var zeros: bytes := seq(27530, _ => ZERO);
    s := [ZERO + 1] + zeros;
    ZeroDigits(27530);
    assert s[1..] == zeros;
    OneDigit(s);
    TooLarge();
    SmallEnough();
  }
}
