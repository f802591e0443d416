/**
 IEEE 754 bit patterns: the size tests of type_float_cast.h, the software binary16 casts of
 type_float_cast_16.h and the widening conversions of types.c. A pattern is a natural number
 on the wire and a record of its three fields in the arithmetic.
 */
module Floats {
  /** Sign bit, biased exponent and fraction. */
  datatype Fields = Fields(sign: nat, exp: nat, frac: nat)

  const TWO52: nat := 0x10_0000_0000_0000
  const TWO42: nat := 0x400_0000_0000
  const TWO29: nat := 0x2000_0000

  predicate Is64(f: Fields) { f.sign < 2 && f.exp < 0x800 && f.frac < TWO52 }

  predicate Is32(f: Fields) { f.sign < 2 && f.exp < 0x100 && f.frac < 0x80_0000 }

  predicate Is16(f: Fields) { f.sign < 2 && f.exp < 0x20 && f.frac < 0x400 }

  function Unpack64(b: nat): Fields {
    Fields(b / TWO52 / 0x800, b / TWO52 % 0x800, b % TWO52)
  }

  function Pack64(f: Fields): nat { (f.sign * 0x800 + f.exp) * TWO52 + f.frac }

  function Unpack32(b: nat): Fields {
    Fields(b / 0x80_0000 / 0x100, b / 0x80_0000 % 0x100, b % 0x80_0000)
  }

  function Pack32(f: Fields): nat { (f.sign * 0x100 + f.exp) * 0x80_0000 + f.frac }

  function Unpack16(h: nat): Fields { Fields(h / 0x400 / 0x20, h / 0x400 % 0x20, h % 0x400) }

  function Pack16(f: Fields): nat { (f.sign * 0x20 + f.exp) * 0x400 + f.frac }

  predicate IsNaN64(f: Fields) { f.exp == 0x7ff && f.frac != 0 }

  predicate IsNaN32(f: Fields) { f.exp == 0xff && f.frac != 0 }

  // ----- Size tests -----

  /** Smallest of 2, 4 and 8 bytes that holds the pattern as +0, a normal number or not finite. */
  function TestFp64Size(f: Fields): (size: nat) {
    var nonFinite := f.exp == 0x7ff;
    if f == Fields(0, 0, 0) then 2
    else if (nonFinite || 1023 - 126 <= f.exp <= 1023 + 127) && f.frac % TWO29 == 0 then
      if (nonFinite || 1023 - 14 <= f.exp <= 1023 + 15) && f.frac % TWO42 == 0 then 2 else 4
    else 8
  }

  function TestFp32Size(f: Fields): (size: nat) {
    if f == Fields(0, 0, 0) then 2
    else if (f.exp == 0xff || 127 - 14 <= f.exp <= 127 + 15) && f.frac % 0x2000 == 0 then 2
    else 4
  }

  // ----- Narrowing -----

  function BitOr(a: nat, b: nat): nat {
    if a == 0 && b == 0 then 0
    else 2 * BitOr(a / 2, b / 2) + if a % 2 == 1 || b % 2 == 1 then 1 else 0
  }

  function Pow2(k: nat): (p: nat)
    ensures p > 0
  {
    if k == 0 then 1 else 2 * Pow2(k - 1)
  }

  /** `n` shifted right by `k` bits, the result rounded half away from zero. */
  function RoundShift(n: nat, k: nat): nat
    requires k > 0
  {
    (n / Pow2(k - 1) + 1) / 2
  }

  /**
   The software cast to binary16 of a pattern with `fracBits` fraction bits and unbiased
   exponent `exp0`. Exponent and rounded fraction are combined by OR, so a carry out of the
   fraction can be lost.
   */
  function Cast16(sign: nat, exp0: int, frac: nat, fracBits: nat): nat
    requires fracBits > 10
  {
    if exp0 < -24 then sign * 0x8000
    else if exp0 < -14 then
      BitOr(BitOr(sign * 0x8000, Pow2(exp0 + 24)), RoundShift(frac, fracBits - (exp0 + 24)))
    else if exp0 <= 15 then
      BitOr(BitOr(sign * 0x8000, (exp0 + 15) * 0x400), RoundShift(frac, fracBits - 10))
    else sign * 0x8000 + 0x7c00
  }

  /** A NaN with the ten most significant payload bits `high`. */
  function NaN16(sign: nat, high: nat): nat {
    var h := sign * 0x8000 + 0x7c00 + high;
    if h == 0x7c00 then 0x7e00 else h
  }

  function Float64To16(f: Fields): nat {
    if IsNaN64(f) then NaN16(f.sign, f.frac / TWO42) else Cast16(f.sign, f.exp - 1023, f.frac, 52)
  }

  function Float32To16(f: Fields): nat {
    if IsNaN32(f) then NaN16(f.sign, f.frac / 0x2000) else Cast16(f.sign, f.exp - 127, f.frac, 23)
  }

  /** `cbor_to_fp32` on patterns that need no rounding; NaNs lose their sign. */
  function Float64To32(f: Fields): Fields
    requires TestFp64Size(f) <= 4
  {
    if IsNaN64(f) then Fields(0, 0xff, if f.frac / TWO29 == 0 then 0x40_0000 else f.frac / TWO29)
    else if f == Fields(0, 0, 0) then f
    else Fields(f.sign, if f.exp == 0x7ff then 0xff else f.exp - 896, f.frac / TWO29)
  }

  // ----- Widening -----

  function Log2(m: nat): (p: nat)
    requires m > 0
    ensures Pow2(p) <= m < 2 * Pow2(p)
  {
    if m == 1 then 0 else 1 + Log2(m / 2)
  }

  predicate LdexpIsNormal(m: nat, e: int) {
    m > 0 ==> Log2(m) <= 52 && 0 < Log2(m) + e + 1023 < 0x7ff
  }

  /** The pattern of `ldexp(m, e)` with the given sign, for results that are 0 or normal. */
  function Ldexp(sign: nat, m: nat, e: int): Fields
    requires LdexpIsNormal(m, e)
  {
    if m == 0 then Fields(sign, 0, 0)
    else
      var p := Log2(m);
      Fields(sign, p + e + 1023, Times(m - Pow2(p), Pow2(52 - p)))
  }

  function Times(x: nat, y: nat): nat { x * y }

  /** `cbor_from_fp16i` */
  function FromFloat16(h: Fields): Fields
    requires Is16(h)
  {
    PowersOfTwo();
    FractionFits(h.frac, 10, -24, h.exp - 25);
    if h.exp == 0 then Ldexp(h.sign, h.frac, -24)
    else if h.exp != 0x1f then Ldexp(h.sign, h.frac + 1024, h.exp - 25)
    else Fields(h.sign, 0x7ff, h.frac * TWO42)
  }

  /** `cbor_from_fp32`: exact, except that NaNs lose their sign. */
  function FromFloat32(f: Fields): Fields
    requires Is32(f)
  {
    PowersOfTwo();
    FractionFits(f.frac, 23, -149, f.exp - 150);
    if IsNaN32(f) then Fields(0, 0x7ff, f.frac * TWO29)
    else if f.exp == 0xff then Fields(f.sign, 0x7ff, 0)
    else if f.exp == 0 then Ldexp(f.sign, f.frac, -149)
    else Ldexp(f.sign, f.frac + 0x80_0000, f.exp - 150)
  }

  // ----- Powers and logarithms -----

  lemma {:induction false} Pow2Add(j: nat, k: nat)
    ensures Pow2(j + k) == Pow2(j) * Pow2(k)
  {
    if j > 0 {
      Pow2Add(j - 1, k);
    }
  }

  lemma {:induction false} Log2Unique(m: nat, p: nat)
    requires Pow2(p) <= m < 2 * Pow2(p)
    ensures Log2(m) == p
  {
    if p > 0 {
      Log2Unique(m / 2, p - 1);
    }
  }

  lemma {:induction false} Log2Bound(m: nat, k: nat)
    requires 0 < m < Pow2(k)
    ensures Log2(m) < k
  {
    if m > 1 {
      Log2Bound(m / 2, k - 1);
    }
  }

  lemma Log2OfFraction(frac: nat, k: nat)
    requires frac < Pow2(k)
    ensures frac > 0 ==> Log2(frac) < k
    ensures Log2(frac + Pow2(k)) == k
  {
    if frac > 0 {
      Log2Bound(frac, k);
    }
    Log2Unique(frac + Pow2(k), k);
  }

  /** A fraction of `k` bits is in range of `Ldexp` without and with the leading bit. */
  lemma FractionFits(frac: nat, k: nat, low: int, e: int)
    requires frac < Pow2(k) && k <= 52 && -1023 < low < 900
    ensures LdexpIsNormal(frac, low)
    ensures 0 < k + e + 1023 < 0x7ff ==> LdexpIsNormal(frac + Pow2(k), e)
  {
    hide Log2, Pow2;
    Log2OfFraction(frac, k);
  }

  lemma PowersOfTwo()
    ensures Pow2(10) == 0x400 && Pow2(15) == 0x8000 && Pow2(13) == 0x2000 && Pow2(23) == 0x80_0000
    ensures Pow2(29) == TWO29 && Pow2(42) == TWO42 && Pow2(52) == TWO52
  {
    assert Pow2(5) == 32;
    Pow2Add(5, 5);
    Pow2Add(10, 5);
    assert Pow2(13) * 4 == Pow2(15);
    Pow2Add(10, 13);
    Pow2Add(23, 5);
    assert Pow2(29) == 2 * Pow2(28);
    Pow2Add(29, 13);
    Pow2Add(42, 10);
  }

  lemma MulMonotonic(x: nat, y: nat, k: nat)
    requires x <= y
    ensures x * k <= y * k
  {
  }

  lemma DivExact(a: nat, d: nat)
    requires d > 0
    ensures a * d / d == a
  {
    var q := a * d / d;
    assert a * d == q * d + a * d % d;
    if q < a {
      MulMonotonic(q + 1, a, d);
    } else if a < q {
      MulMonotonic(a + 1, q, d);
    }
  }

  lemma Associate(x: nat, y: nat, z: nat)
    ensures x * (y * z) == y * x * z
  {
  }

  // ----- Bit patterns -----

  lemma PackUnpack64(b: nat)
    requires b < 0x1_0000_0000_0000_0000
    ensures Is64(Unpack64(b)) && Pack64(Unpack64(b)) == b
  {
    var q := b / TWO52;
    assert q < 0x1000 && q == q / 0x800 * 0x800 + q % 0x800;
  }

  lemma UnpackPack32(f: Fields)
    requires Is32(f)
    ensures Pack32(f) < 0x1_0000_0000 && Unpack32(Pack32(f)) == f
  {
    assert Pack32(f) / 0x80_0000 == f.sign * 0x100 + f.exp;
  }

  lemma PackUnpack32(b: nat)
    requires b < 0x1_0000_0000
    ensures Is32(Unpack32(b)) && Pack32(Unpack32(b)) == b
  {
    var q := b / 0x80_0000;
    assert q < 0x200 && q == q / 0x100 * 0x100 + q % 0x100;
  }

  lemma UnpackPack16(f: Fields)
    requires Is16(f)
    ensures Pack16(f) < 0x1_0000 && Unpack16(Pack16(f)) == f
  {
    assert Pack16(f) / 0x400 == f.sign * 0x20 + f.exp;
  }

  lemma Unpack16Is16(h: nat)
    requires h < 0x1_0000
    ensures Is16(Unpack16(h))
  {
    var q := h / 0x400;
    assert q < 0x40;
  }

  // ----- Casting -----

  lemma {:induction false} BitOrZero(a: nat)
    ensures BitOr(a, 0) == a
  {
    if a > 0 {
      BitOrZero(a / 2);
    }
  }

  /** OR of numbers without a common bit is addition. */
  lemma {:induction false} BitOrDisjoint(a: nat, b: nat, k: nat)
    requires b < Pow2(k)
    ensures BitOr(a * Pow2(k), b) == a * Pow2(k) + b
  {
    hide BitOr, Pow2;
    PowerStep(k);
    if k == 0 {
      BitOrZero(a);
    } else {
      BitOrDisjoint(a, b / 2, k - 1);
      Associate(a, 2, Pow2(k - 1));
      Associate(2, a, Pow2(k - 1));
      BitOrDouble(a * Pow2(k - 1), b);
    }
  }

  lemma PowerStep(k: nat)
    ensures if k == 0 then Pow2(k) == 1 else Pow2(k) == 2 * Pow2(k - 1)
  {
  }

  lemma {:induction false} BitOrDouble(x: nat, b: nat)
    ensures BitOr(2 * x, b) == 2 * BitOr(x, b / 2) + b % 2
  {
  }

  /** Shifting out only zeros does not round. */
  lemma RoundExact(g: nat, k: nat)
    requires k > 0
    ensures RoundShift(g * Pow2(k), k) == g
  {
    var half := Pow2(k - 1);
    Associate(g, 2, half);
    DivExact(2 * g, half);
  }

  lemma OrFields(sign: nat, e: nat, g: nat)
    requires e < 0x20 && g < 0x400
    ensures BitOr(BitOr(sign * 0x8000, e * 0x400), g) == Pack16(Fields(sign, e, g))
  {
    PowersOfTwo();
    BitOrDisjoint(sign, e * 0x400, 15);
    assert sign * 0x8000 + e * 0x400 == (sign * 0x20 + e) * 0x400;
    BitOrDisjoint(sign * 0x20 + e, g, 10);
  }

  /** A normal half precision number is cast without rounding. */
  lemma NormalCast(sign: nat, exp0: int, g: nat, fracBits: nat)
    requires sign < 2 && -14 <= exp0 <= 15 && fracBits > 10 && g < 0x400
    ensures Cast16(sign, exp0, g * Pow2(fracBits - 10), fracBits) == Pack16(Fields(sign, exp0 + 15, g))
  {
    RoundExact(g, fracBits - 10);
    OrFields(sign, exp0 + 15, g);
  }

  /** What is too small or too large becomes zero or infinite. */
  lemma CastOutside(sign: nat, exp0: int, frac: nat, fracBits: nat)
    requires fracBits > 10
    ensures exp0 < -24 ==> Cast16(sign, exp0, frac, fracBits) == sign * 0x8000
    ensures exp0 > 15 ==> Cast16(sign, exp0, frac, fracBits) == sign * 0x8000 + 0x7c00
  {
    hide BitOr, RoundShift, Pow2;
  }

  // ----- Compact encoding loses nothing -----

  lemma ToHalf(f: Fields)
    requires Is64(f) && TestFp64Size(f) == 2
    ensures var e := if f.exp == 0x7ff then 0x1f else if f.exp == 0 then 0 else f.exp - 1008;
            && Float64To16(f) == Pack16(Fields(f.sign, e, f.frac / TWO42))
            && (f.exp == 0 || f.exp == 0x7ff || 1009 <= f.exp <= 1038)
            && f.frac == f.frac / TWO42 * TWO42 && f.frac / TWO42 < 0x400
  {
    hide BitOr, RoundShift, Pow2, Cast16;
    CastOutside(f.sign, f.exp - 1023, f.frac, 52);
    PowersOfTwo();
    if f.exp != 0x7ff && f != Fields(0, 0, 0) {
      NormalCast(f.sign, f.exp - 1023, f.frac / TWO42, 52);
    }
  }

  lemma LdexpOfSignificand(sign: nat, frac: nat, k: nat, e: int)
    requires frac < Pow2(k) && k <= 52 && 0 < k + e + 1023 < 0x7ff
    ensures LdexpIsNormal(frac + Pow2(k), e)
    ensures Ldexp(sign, frac + Pow2(k), e) == Fields(sign, k + e + 1023, Times(frac, Pow2(52 - k)))
  {
    Log2OfFraction(frac, k);
  }

  lemma FromHalf(h: Fields)
    requires Is16(h) && (h.exp != 0 || h.frac == 0)
    ensures FromFloat16(h) ==
            if h.exp == 0x1f then Fields(h.sign, 0x7ff, h.frac * TWO42)
            else if h.exp == 0 then Fields(h.sign, 0, 0)
            else Fields(h.sign, h.exp + 1008, h.frac * TWO42)
  {
    PowersOfTwo();
    if 0 < h.exp < 0x1f {
      LdexpOfSignificand(h.sign, h.frac, 10, h.exp - 25);
    }
  }

  /** Whenever the size test answers 2, the half precision form expands to the identical pattern. */
  lemma HalfIsLossless(b: nat)
    requires b < 0x1_0000_0000_0000_0000 && TestFp64Size(Unpack64(b)) == 2
    ensures var h := Float64To16(Unpack64(b));
            h < 0x1_0000 && Is16(Unpack16(h)) && Pack64(FromFloat16(Unpack16(h))) == b
  {
    var f := Unpack64(b);
    PackUnpack64(b);
    ToHalf(f);
    var h := Fields(f.sign, if f.exp == 0x7ff then 0x1f else if f.exp == 0 then 0 else f.exp - 1008, f.frac / TWO42);
    UnpackPack16(h);
    FromHalf(h);
  }

  lemma FromSingle(f: Fields)
    requires Is32(f) && (f.exp != 0 || f.frac == 0)
    ensures FromFloat32(f) ==
            if IsNaN32(f) then Fields(0, 0x7ff, f.frac * TWO29)
            else if f.exp == 0xff then Fields(f.sign, 0x7ff, 0)
            else if f.exp == 0 then Fields(f.sign, 0, 0)
            else Fields(f.sign, f.exp + 896, f.frac * TWO29)
  {
    PowersOfTwo();
    if 0 < f.exp < 0xff {
      LdexpOfSignificand(f.sign, f.frac, 23, f.exp - 150);
    }
  }

  /**
   When the size test answers 4, the pattern comes back identical exactly when it is not a NaN
   with the sign bit set: both conversions between the two widths drop the sign of NaNs.
   */
  lemma SingleIsLossless(b: nat)
    requires b < 0x1_0000_0000_0000_0000 && TestFp64Size(Unpack64(b)) == 4
    ensures var f := Unpack64(b);
            var raw := Pack32(Float64To32(f));
            && raw < 0x1_0000_0000 && Is32(Unpack32(raw))
            && (Pack64(FromFloat32(Unpack32(raw))) == b <==> !(IsNaN64(f) && f.sign == 1))
  {
    var f := Unpack64(b);
    PackUnpack64(b);
    var g := Float64To32(f);
    UnpackPack32(g);
    FromSingle(g);
    if IsNaN64(f) {
      assert Pack64(FromFloat32(g)) == 0x7ff * TWO52 + f.frac;
    }
  }

  lemma SingleToHalf(f: Fields)
    requires Is32(f) && TestFp32Size(f) == 2
    ensures var e := if f.exp == 0xff then 0x1f else if f.exp == 0 then 0 else f.exp - 112;
            && Float32To16(f) == Pack16(Fields(f.sign, e, f.frac / 0x2000))
            && (f.exp == 0 || f.exp == 0xff || 113 <= f.exp <= 142)
            && f.frac == f.frac / 0x2000 * 0x2000 && f.frac / 0x2000 < 0x400
  {
    hide BitOr, RoundShift, Pow2, Cast16;
    CastOutside(f.sign, f.exp - 127, f.frac, 23);
    PowersOfTwo();
    if f.exp != 0xff && f != Fields(0, 0, 0) {
      NormalCast(f.sign, f.exp - 127, f.frac / 0x2000, 23);
    }
  }

  /** Narrowing binary32: the two forms decode alike unless the sign of a NaN is at stake. */
  lemma SingleToHalfIsLossless(f: Fields)
    requires Is32(f) && TestFp32Size(f) == 2
    ensures var h := Float32To16(f);
            && h < 0x1_0000 && Is16(Unpack16(h))
            && (FromFloat16(Unpack16(h)) == FromFloat32(f) <==> !(IsNaN32(f) && f.sign == 1))
  {
    SingleToHalf(f);
    var h := Fields(f.sign, if f.exp == 0xff then 0x1f else if f.exp == 0 then 0 else f.exp - 112, f.frac / 0x2000);
    UnpackPack16(h);
    FromHalf(h);
    FromSingle(f);
  }

  /**
   Narrowing a NaN on request keeps it a NaN exactly when it is positive or one of the ten kept
   payload bits is set; otherwise the result is minus infinity.
   */
  lemma NarrowedNaN(f: Fields)
    requires Is64(f) && IsNaN64(f)
    ensures var h := Unpack16(Float64To16(f));
            Is16(h) && h.exp == 0x1f && (h.frac != 0 <==> f.sign == 0 || f.frac / TWO42 != 0)
  {
    var high := f.frac / TWO42;
    UnpackPack16(Fields(f.sign, 0x1f, if f.sign == 0 && high == 0 then 0x200 else high));
  }

  /** A `Ldexp` pattern denotes `m * 2^e`: its significand is `m` scaled to 53 bits, its exponent fits. */
  lemma LdexpIsExact(m: nat, e: int)
    requires m > 0 && LdexpIsNormal(m, e)
    ensures var f := Ldexp(0, m, e);
            Is64(f) && TWO52 + f.frac == m * Pow2(52 - Log2(m)) && f.exp - 1075 == e - (52 - Log2(m))
  {
    hide Log2, Pow2;
    var p := Log2(m);
    PowersOfTwo();
    Pow2Add(p, 52 - p);
    Scale(m, Pow2(p), Pow2(52 - p));
  }

  lemma Scale(m: nat, p: nat, q: nat)
    requires 0 < p <= m < 2 * p && q > 0
    ensures (m - p) * q < p * q && (m - p) * q + p * q == m * q
  {
  }

  lemma Pack64Bound(f: Fields)
    requires Is64(f)
    ensures Pack64(f) < 0x1_0000_0000_0000_0000
  {
    assert f.sign * 0x800 + f.exp < 0x1000;
  }

  lemma LdexpIs64(sign: nat, m: nat, e: int)
    requires sign < 2 && LdexpIsNormal(m, e)
    ensures Is64(Ldexp(sign, m, e))
  {
    if m > 0 {
      LdexpIsExact(m, e);
    }
  }

  lemma FromFloat16Is64(f: Fields)
    requires Is16(f)
    ensures Is64(FromFloat16(f))
  {
    hide Log2, Ldexp, Pow2, LdexpIsNormal;
    PowersOfTwo();
    FractionFits(f.frac, 10, -24, f.exp - 25);
    if f.exp == 0 {
      LdexpIs64(f.sign, f.frac, -24);
    } else if f.exp != 0x1f {
      LdexpIs64(f.sign, f.frac + 1024, f.exp - 25);
    }
  }

  lemma FromFloat32Is64(f: Fields)
    requires Is32(f)
    ensures Is64(FromFloat32(f))
  {
    hide Log2, Ldexp, Pow2, LdexpIsNormal;
    PowersOfTwo();
    FractionFits(f.frac, 23, -149, f.exp - 150);
    if f.exp == 0 {
      LdexpIs64(f.sign, f.frac, -149);
    } else if f.exp != 0xff {
      LdexpIs64(f.sign, f.frac + 0x80_0000, f.exp - 150);
    }
  }
}
