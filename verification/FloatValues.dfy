/**
 What floating-point patterns denote (IEEE 754, section 3.4), that widening keeps it, and that the size tests
 answer the smallest format that holds a pattern as a normal number, infinity, NaN or +0.
 */
module FloatValues {
  import opened Bytes
  import opened Floats
  import opened Reals
  import opened Values
  import opened DecoderConfig

  // ----- Values -----

  /** `maxExp` is the exponent field of what is not finite. */
  datatype Format = Format(fracBits: nat, bias: nat, maxExp: nat)

  const BINARY16 := Format(10, 15, 0x1f)
  const BINARY32 := Format(23, 127, 0xff)
  const BINARY64 := Format(52, 1023, 0x7ff)

  datatype FloatValue =
    | Finite(negative: bool, size: real)
    | Infinite(negative: bool)
    | NotANumber(negative: bool, payload: real)  // the payload is a fraction of one

  function Exp2(e: int): real { if e >= 0 then Pow2(e) as real else 1.0 / Pow2(-e) as real }

  function Denoted(t: Format, f: Fields): FloatValue {
    var negative := f.sign == 1;
    if f.exp == t.maxExp then
      if f.frac == 0 then Infinite(negative) else NotANumber(negative, f.frac as real / Pow2(t.fracBits) as real)
    else if f.exp == 0 then Finite(negative, f.frac as real * Exp2(1 - t.bias - t.fracBits))
    else Finite(negative, (Pow2(t.fracBits) + f.frac) as real * Exp2(f.exp - t.bias - t.fracBits))
  }

  /** Scaling by 2^k changes the exponent by `k`. */
  lemma Exp2Shift(e: int, k: nat)
    ensures Exp2(e - k) * Pow2(k) as real == Exp2(e)
  {
    hide Pow2;
    if e - k >= 0 {
      Pow2Add(e - k, k);
      RealProduct(Pow2(e - k), Pow2(k));
    } else if e >= 0 {
      ShiftToFraction(e, k);
    } else {
      ShiftFraction(e, k);
    }
  }

  lemma ShiftToFraction(e: int, k: nat)
    requires 0 <= e < k
    ensures 1.0 / Pow2(k - e) as real * Pow2(k) as real == Pow2(e) as real
  {
    hide Pow2;
    Pow2Add(e, k - e);
    RealProduct(Pow2(e), Pow2(k - e));
    Cancel(Pow2(k - e), Pow2(e));
  }

  lemma ShiftFraction(e: int, k: nat)
    requires e < 0
    ensures 1.0 / Pow2(k - e) as real * Pow2(k) as real == 1.0 / Pow2(-e) as real
  {
    hide Pow2;
    Pow2Add(-e, k);
    assert -e + k == k - e;
    RealProduct(Pow2(-e), Pow2(k));
    Cancel2(Pow2(-e), Pow2(k));
  }

  /** `ldexp`: the pattern denotes m * 2^e. */
  lemma LdexpDenotes(sign: nat, m: nat, e: int)
    requires LdexpIsNormal(m, e)
    ensures Denoted(BINARY64, Ldexp(sign, m, e)) == Finite(sign == 1, m as real * Exp2(e))
  {
    hide Exp2, Pow2, Log2;
    if m > 0 {
      PowersOfTwo();
      LdexpIsExact(m, e);
      var k := 52 - Log2(m);
      Exp2Shift(e, k);
      RealProduct(m, Pow2(k));
      Regroup(m as real, Pow2(k) as real, Exp2(e - k), Exp2(e));
    }
  }

  lemma Regroup(m: real, p: real, x: real, y: real)
    requires x * p == y
    ensures m * p * x == m * y
  {
  }

  lemma SamePayload(frac: nat, p: nat, q: nat)
    requires p > 0 && q > 0
    ensures (frac * q) as real / (p * q) as real == frac as real / p as real
  {
    RealProduct(frac, q);
    RealProduct(p, q);
  }

  /** Widening binary16 keeps the value, subnormal numbers and the payload of NaNs included. */
  lemma HalfDenotes(h: Fields)
    requires Is16(h)
    ensures Denoted(BINARY64, FromFloat16(h)) == Denoted(BINARY16, h)
  {
    hide Exp2, Pow2, Ldexp, LdexpIsNormal;
    PowersOfTwo();
    FractionFits(h.frac, 10, -24, h.exp - 25);
    if h.exp == 0 {
      LdexpDenotes(h.sign, h.frac, -24);
    } else if h.exp != 0x1f {
      LdexpDenotes(h.sign, h.frac + 1024, h.exp - 25);
    } else {
      SamePayload(h.frac, 0x400, TWO42);
    }
  }

  function WithoutSign(v: FloatValue): FloatValue { if v.NotANumber? then v.(negative := false) else v }

  /** So does widening binary32, except for the sign of NaNs. */
  lemma SingleDenotes(f: Fields)
    requires Is32(f)
    ensures Denoted(BINARY64, FromFloat32(f)) == WithoutSign(Denoted(BINARY32, f))
  {
    hide Exp2, Pow2, Ldexp, LdexpIsNormal;
    PowersOfTwo();
    FractionFits(f.frac, 23, -149, f.exp - 150);
    if f.exp == 0 {
      LdexpDenotes(f.sign, f.frac, -149);
    } else if f.exp != 0xff {
      LdexpDenotes(f.sign, f.frac + 0x80_0000, f.exp - 150);
    } else {
      SamePayload(f.frac, 0x80_0000, TWO29);
    }
  }

  lemma UnpackPack64(f: Fields)
    requires Is64(f)
    ensures Unpack64(Pack64(f)) == f
  {
    assert Pack64(f) / TWO52 == f.sign * 0x800 + f.exp;
  }

  /** A decoded binary16 number is kept as it is or becomes the PHP float of the same value. */
  lemma HalfItemDenotes(cfg: Config, raw: uint16)
    ensures var v := FloatItem16(cfg, raw);
            if cfg.float16 then v.Float? && Denoted(BINARY64, Unpack64(v.raw)) == Denoted(BINARY16, Unpack16(raw))
            else v == Val.Float16(raw)
  {
    hide Denoted, FromFloat16, Pack64, Unpack64, Unpack16;
    Unpack16Is16(raw);
    HalfDenotes(Unpack16(raw));
    FromFloat16Is64(Unpack16(raw));
    UnpackPack64(FromFloat16(Unpack16(raw)));
  }

  /** So is a binary32 number, whose NaNs lose their sign. */
  lemma SingleItemDenotes(cfg: Config, raw: uint32)
    ensures var v := FloatItem32(cfg, raw);
            if cfg.float32
            then v.Float? && Denoted(BINARY64, Unpack64(v.raw)) == WithoutSign(Denoted(BINARY32, Unpack32(raw)))
            else v == Val.Float32(raw)
  {
    hide Denoted, FromFloat32, Pack64, Unpack64, Unpack32;
    PackUnpack32(raw);
    SingleDenotes(Unpack32(raw));
    FromFloat32Is64(Unpack32(raw));
    UnpackPack64(FromFloat32(Unpack32(raw)));
  }

  // ----- The smallest size -----

  /** A binary16 pattern that is +0, a normal number or not finite. */
  predicate PlainHalf(h: Fields) { Is16(h) && (h.exp != 0 || h == Fields(0, 0, 0)) }

  /** A binary32 pattern that is a normal number or not finite. */
  predicate PlainSingle(g: Fields) { Is32(g) && g.exp != 0 }

  /** `f` is `g` in binary64, with the sign of a NaN kept. */
  predicate Widens(g: Fields, f: Fields) {
    Is32(g) && g.sign == f.sign && FromFloat32(g) == if IsNaN32(g) then f.(sign := 0) else f
  }

  lemma HalfOf(f: Fields) returns (h: Fields)
    requires Is64(f) && TestFp64Size(f) == 2
    ensures PlainHalf(h) && FromFloat16(h) == f
  {
    hide FromFloat16, Float64To16;
    ToHalf(f);
    h := Fields(f.sign, if f.exp == 0x7ff then 0x1f else if f.exp == 0 then 0 else f.exp - 1008, f.frac / TWO42);
    FromHalf(h);
  }

  lemma HalfFits(h: Fields)
    requires PlainHalf(h)
    ensures TestFp64Size(FromFloat16(h)) == 2
  {
    hide FromFloat16;
    FromHalf(h);
    HalfTimes(h.frac);
  }

  /** The answer is 2 exactly if some binary16 pattern is widened to this one. */
  lemma HalfSizeIsExact(f: Fields)
    requires Is64(f)
    ensures TestFp64Size(f) == 2 <==> exists h :: PlainHalf(h) && FromFloat16(h) == f
  {
    hide FromFloat16, TestFp64Size;
    if TestFp64Size(f) == 2 {
      var h := HalfOf(f);
    } else if h :| PlainHalf(h) && FromFloat16(h) == f {
      HalfFits(h);
    }
  }

  lemma HalfTimes(frac: nat)
    ensures frac * TWO42 % TWO42 == 0 && frac * TWO42 % TWO29 == 0
  {
    Multiple(frac, TWO42);
    Multiple(frac * 0x2000, TWO29);
    assert frac * 0x2000 * TWO29 == frac * TWO42;
  }

  lemma Multiple(q: nat, d: nat)
    requires d > 0
    ensures q * d % d == 0
  {
    DivExact(q, d);
    assert q * d == q * d / d * d + q * d % d;
  }

  lemma SingleOf(f: Fields) returns (g: Fields)
    requires Is64(f) && TestFp64Size(f) == 4
    ensures PlainSingle(g) && Widens(g, f)
  {
    hide FromFloat32;
    g := Fields(f.sign, if f.exp == 0x7ff then 0xff else f.exp - 896, f.frac / TWO29);
    FromSingle(g);
  }

  lemma SingleFits(g: Fields, f: Fields)
    requires PlainSingle(g) && Widens(g, f)
    ensures TestFp64Size(f) <= 4
  {
    hide FromFloat32;
    FromSingle(g);
    assert g.frac * TWO29 % TWO29 == 0;
  }

  /** It is 4 exactly if none is, but a binary32 pattern is. */
  lemma SingleSizeIsExact(f: Fields)
    requires Is64(f)
    ensures TestFp64Size(f) == 4 <==> TestFp64Size(f) != 2 && exists g :: PlainSingle(g) && Widens(g, f)
    ensures TestFp64Size(f) in {2, 4, 8}
  {
    hide Widens;
    if TestFp64Size(f) == 4 {
      var g := SingleOf(f);
    } else if g :| PlainSingle(g) && Widens(g, f) {
      SingleFits(g, f);
    }
  }

  lemma HalfOfSingle(g: Fields) returns (h: Fields)
    requires Is32(g) && TestFp32Size(g) == 2
    ensures PlainHalf(h) && Widens(g, FromFloat16(h))
  {
    hide FromFloat16, FromFloat32, Float32To16;
    SingleToHalf(g);
    h := Fields(g.sign, if g.exp == 0xff then 0x1f else if g.exp == 0 then 0 else g.exp - 112, g.frac / 0x2000);
    FromHalf(h);
    FromSingle(g);
  }

  lemma HalfFitsSingle(g: Fields, h: Fields)
    requires PlainHalf(h) && Widens(g, FromFloat16(h))
    ensures TestFp32Size(g) == 2
  {
    hide FromFloat16, Widens;
    FromHalf(h);
    FromFloat16Is64(h);
    WidensFields(g, FromFloat16(h));
    WidensSign(g, FromFloat16(h));
    Scaled(g.frac, h.frac);
  }

  lemma WidensSign(g: Fields, f: Fields)
    requires Widens(g, f)
    ensures g.sign == f.sign
  {
  }

  lemma Scaled(g: nat, h: nat)
    ensures g * TWO29 == h * TWO42 ==> g % 0x2000 == 0
    ensures g * TWO29 == h * TWO42 && h == 0 ==> g == 0
  {
    if g * TWO29 == h * TWO42 {
      assert g == h * 0x2000;
      Multiple(h, 0x2000);
    }
  }

  /** The test of binary32: the answer is 2 exactly if a binary16 pattern has the same form in binary64. */
  lemma HalfSizeOfSingleIsExact(g: Fields)
    requires Is32(g)
    ensures TestFp32Size(g) == 2 <==> exists h :: PlainHalf(h) && Widens(g, FromFloat16(h))
    ensures TestFp32Size(g) in {2, 4}
  {
    hide FromFloat16, Widens;
    if TestFp32Size(g) == 2 {
      var h := HalfOfSingle(g);
    } else if h :| PlainHalf(h) && Widens(g, FromFloat16(h)) {
      HalfFitsSingle(g, h);
    }
  }

  /** What is widened to a normal number, +0 or something not finite has the fields shifted. */
  lemma WidensFields(g: Fields, f: Fields)
    requires Widens(g, f) && Is64(f)
    requires f.exp == 0x7ff || 1009 <= f.exp <= 1038 || f == Fields(0, 0, 0)
    ensures g.frac * TWO29 == f.frac
    ensures g.exp == if f.exp == 0x7ff then 0xff else if f.exp == 0 then 0 else f.exp - 896
  {
    if g.exp != 0 || g.frac == 0 {
      FromSingle(g);
    } else {
      SubnormalIsTiny(g);
    }
  }

  lemma SubnormalIsTiny(g: Fields)
    requires Is32(g) && g.exp == 0 && g.frac > 0
    ensures 0 < FromFloat32(g).exp < 897
  {
    PowersOfTwo();
    FractionFits(g.frac, 23, -149, -150);
    Log2OfFraction(g.frac, 23);
    hide Log2, Pow2;
  }
}
