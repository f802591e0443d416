/**
 Decimal fractions (section 3.4.4 of RFC 8949) from the text of a number, as `enc_decimal` writes them:
 whenever it succeeds, mantissa times ten to the exponent is the number the text denotes.
 */
module DecimalFraction {
  import opened Bytes
  import opened Wrappers
  import opened Values
  import opened Wire
  import opened DecoderConfig
  import opened DecimalInt
  import opened BigNumber
  import opened Reals
  import opened Encoder
  import EncodeContext

  const POINT: byte := 0x2e
  const PLUS: byte := 0x2b
  const UPPER_E: byte := 0x45
  const MAX_LENGTH_OF_LONG: nat := 20
  const TAG_BIGNUM_U: nat := 2
  const TAG_BIGNUM_N: nat := 3
  const TAG_DECIMAL: nat := 4

  // ----- Minimal binary forms -----

  function MinimalBytes(n: nat): bytes { if n == 0 then [] else MinimalBytes(n / 256) + [n % 256] }

  lemma {:induction false} MinimalIsUnique(s: bytes)
    requires Minimal(s)
    ensures MinimalBytes(BigEndian(s)) == s
  {
    if s != [] {
      var front := s[..|s| - 1];
      MinimalIsUnique(front);
      MinimalIsPositive(s);
      assert BigEndian(s) / 256 == BigEndian(front) && BigEndian(s) % 256 == s[|s| - 1];
      assert s == front + [s[|s| - 1]];
    }
  }

  lemma {:induction false} MinimalIsPositive(s: bytes)
    requires s != [] && s[0] != 0
    ensures BigEndian(s) >= Pow256(|s| - 1)
  {
    if |s| > 1 {
      MinimalIsPositive(s[..|s| - 1]);
    } else {
      assert s[..0] == [];
    }
  }

  lemma {:induction false} MinimalBytesDenote(n: nat)
    ensures BigEndian(MinimalBytes(n)) == n && Minimal(MinimalBytes(n))
  {
    if n > 0 {
      MinimalBytesDenote(n / 256);
      assert MinimalBytes(n)[..|MinimalBytes(n)| - 1] == MinimalBytes(n / 256);
    }
  }

  /** Eight bytes are enough exactly for 64-bit numbers. */
  lemma MinimalLength(n: nat)
    ensures |MinimalBytes(n)| <= 8 <==> n < UINT64_LIMIT
  {
    var s := MinimalBytes(n);
    MinimalBytesDenote(n);
    BigEndianBound(s);
    Pow256Values();
    hide BigEndian, MinimalBytes;
    if |s| <= 8 {
      Pow256Grows(|s|, 8);
    } else {
      MinimalIsPositive(s);
      Pow256Grows(8, |s| - 1);
    }
  }

  // ----- The text of a number -----

  /** `strchr`: the first position of `c`, or the end. */
  function FindChar(s: bytes, c: byte): (i: nat)
    ensures i <= |s|
  {
    if s == [] || s[0] == c then 0 else 1 + FindChar(s[1..], c)
  }

  /** `atoi` on an optional sign and digits, of a value that fits an `int`. */
  function Atoi(s: bytes): int {
    if s != [] && s[0] == MINUS then 0 as int - NumberOf(s[1..])
    else if s != [] && s[0] == PLUS then NumberOf(s[1..])
    else NumberOf(s)
  }

  /** `decode_dec_str` as a function. */
  function DecStr(s: bytes): Option<bytes> {
    if Pow10(DigitCount(s)) >= Pow256(OutMax(|s|)) then None else Some(MinimalBytes(NumberOf(s)))
  }

  /** The bytes of an integer: its magnitude, or one less for a negative one. */
  function Magnitude(m: int): bytes { MinimalBytes(if m < 0 then -1 - m else m) }

  /** What is written for a mantissa and an exponent. */
  function DecimalItem(cfg: EncConfig, st: EncState, exponent: int, mantissa: int): R<Out> {
    var bin := Magnitude(mantissa);
    var head := if exponent != 0 || |bin| > 8
                then Write(TagHead(TAG_DECIMAL)) + Write(Array(2)) + Write(IntToken(exponent)) else [];
    if |bin| <= 8 then Ok(Out(head + Write(IntToken(mantissa)), st))
    else
      var r :- EncString(cfg, st, bin, false);
      Ok(Out(head + Write(TagHead(if mantissa < 0 then TAG_BIGNUM_N else TAG_BIGNUM_U)) + r.out, r.st))
  }

  /** The part of the text after the sign. */
  function EncUnsigned(cfg: EncConfig, st: EncState, body: bytes, negative: bool): R<Out> {
    var e, p := FindChar(body, UPPER_E), FindChar(body, POINT);
    if body == [] then Err(Internal)
    else if e < |body| && |body| - e - 1 >= MAX_LENGTH_OF_LONG then Err(UnsupportedValue)
    else if DecStr(body[..e]).None? then Err(Internal)
    else
      var exp := if e < |body| then Atoi(body[e + 1..]) else 0;
      var places := if p < |body| then e - 1 - p else 0;
      var n: int := NumberOf(body[..e]);
      DecimalItem(cfg, st, exp - places, if negative then -n else n)
  }

  /** `enc_decimal` from the text on. */
  function EncDecimalStr(cfg: EncConfig, st: EncState, str: bytes): R<Out> {
    if str == [] then Err(Internal)
    else if str[0] == MINUS then EncUnsigned(cfg, st, str[1..], true)
    else EncUnsigned(cfg, st, str, false)
  }

  // ----- What a text denotes -----

  datatype Exponent = Exponent(negative: bool, sign: bool, digits: bytes)

  /** A finite number in text form: digits, and if they are there a point with more digits and an exponent. */
  datatype Number = Number(negative: bool, whole: bytes, frac: Option<bytes>, exp: Option<Exponent>)

  predicate Proper(d: Number) {
    && d.whole != [] && AllDigits(d.whole)
    && (d.frac.Some? ==> AllDigits(d.frac.value))
    && (d.exp.Some? ==> d.exp.value.digits != [] && AllDigits(d.exp.value.digits) && (d.exp.value.negative ==> d.exp.value.sign))
  }

  function RenderExponent(x: Exponent): bytes {
    (if x.sign then [if x.negative then MINUS else PLUS] else []) + x.digits
  }

  /** The digits with the point. */
  function RenderDigits(d: Number): bytes {
    d.whole + if d.frac.Some? then [POINT] + d.frac.value else []
  }

  function RenderBody(d: Number): bytes {
    RenderDigits(d) + if d.exp.Some? then [UPPER_E] + RenderExponent(d.exp.value) else []
  }

  function Render(d: Number): bytes { (if d.negative then [MINUS] else []) + RenderBody(d) }

  function ExponentOf(d: Number): int {
    match d.exp
    case None => 0
    case Some(x) => if x.negative then 0 as int - NumberOf(x.digits) else NumberOf(x.digits)
  }

  function Exp10(e: int): real { if e >= 0 then Pow10(e) as real else 1.0 / Pow10(-e) as real }

  /** The fraction that digits after the point denote. */
  function Fraction(s: bytes): real
    requires AllDigits(s)
  {
    if s == [] then 0.0 else ((s[0] - ZERO) as real + Fraction(s[1..])) / 10.0
  }

  /** The number, apart from its sign. */
  function Size(d: Number): real
    requires Proper(d)
  {
    (NumberOf(d.whole) as real + if d.frac.Some? then Fraction(d.frac.value) else 0.0) * Exp10(ExponentOf(d))
  }

  function Denoted(d: Number): real
    requires Proper(d)
  {
    if d.negative then -Size(d) else Size(d)
  }

  // ----- Exactness -----

  lemma {:induction false} AllCounted(s: bytes)
    requires AllDigits(s)
    ensures DigitCount(s) == |s|
  {
    if s != [] {
      AllCounted(s[1..]);
    }
  }

  lemma FirstDigit(s: bytes)
    requires AllDigits(s) && s != []
    ensures ZERO <= s[0] && Fraction(s) == ((s[0] - ZERO) as real + Fraction(s[1..])) / 10.0
    ensures NumberOf(s) == NumberOf(s[1..]) + (s[0] - ZERO) * Pow10(|s[1..]|) && Pow10(|s|) == 10 * Pow10(|s[1..]|)
  {
    AllCounted(s[1..]);
  }

  lemma NoDigits(s: bytes)
    requires s == []
    ensures Fraction(s) * Pow10(|s|) as real == NumberOf(s) as real
  {
    assert Fraction(s) == 0.0 && Pow10(|s|) == 1 && NumberOf(s) == 0;
  }

  lemma ShiftOne(s: bytes)
    requires AllDigits(s) && s != [] && Fraction(s[1..]) * Pow10(|s[1..]|) as real == NumberOf(s[1..]) as real
    ensures Fraction(s) * Pow10(|s|) as real == NumberOf(s) as real
  {
    hide Pow10, Fraction, NumberOf;
    FirstDigit(s);
    ShiftStep(Fraction(s), Pow10(|s|), NumberOf(s), Fraction(s[1..]), s[0] - ZERO, Pow10(|s[1..]|), NumberOf(s[1..]));
  }

  lemma ShiftStep(x: real, q: nat, m: nat, f: real, d: nat, p: nat, n: nat)
    requires f * p as real == n as real
    requires x == (d as real + f) / 10.0 && q == 10 * p && m == n + d * p
    ensures x * q as real == m as real
  {
    Shift(f, d, p, n);
  }

  /** Shifting the point to the end: the fraction becomes a whole number. */
  lemma {:induction false} FractionShifts(s: bytes)
    requires AllDigits(s)
    ensures Fraction(s) * Pow10(|s|) as real == NumberOf(s) as real
  {
    hide Pow10, Fraction, NumberOf;
    if s == [] {
      NoDigits(s);
    } else {
      FractionShifts(s[1..]);
      ShiftOne(s);
    }
  }

  lemma Shift(f: real, d: nat, p: nat, n: nat)
    requires f * p as real == n as real
    ensures (d as real + f) / 10.0 * (10 * p) as real == (n + d * p) as real
  {
    assert (10 * p) as real == 10.0 * p as real;
    assert (d as real + f) / 10.0 * (10.0 * p as real) == (d as real + f) * p as real;
    assert (d * p) as real == d as real * p as real;
  }

  lemma {:induction false} NumberOfPoint(whole: bytes, frac: bytes)
    requires AllDigits(whole) && AllDigits(frac)
    ensures NumberOf(whole + [POINT] + frac) == NumberOf(whole) * Pow10(|frac|) + NumberOf(frac)
    ensures DigitCount(whole + [POINT] + frac) == |whole| + |frac|
  {
    hide Pow10, NumberOf, DigitCount;
    var t := whole + [POINT] + frac;
    if whole == [] {
      assert t[1..] == frac && t[0] == POINT;
      PointFirst(t);
    } else {
      NumberOfPoint(whole[1..], frac);
      assert t[1..] == whole[1..] + [POINT] + frac;
      DigitFirst(t);
      FirstDigit(whole);
      Pow10Sum(|whole[1..]|, |frac|);
      Distribute(NumberOf(whole[1..]), whole[0] - ZERO, Pow10(|whole[1..]|), Pow10(|frac|));
    }
  }

  lemma PointFirst(t: bytes)
    requires t != [] && t[0] == POINT && AllDigits(t[1..])
    ensures NumberOf(t) == NumberOf(t[1..]) && DigitCount(t) == |t[1..]| && NumberOf([]) == 0
  {
    AllCounted(t[1..]);
  }

  lemma DigitFirst(t: bytes)
    requires t != [] && IsDigit(t[0])
    ensures NumberOf(t) == NumberOf(t[1..]) + (t[0] - ZERO) * Pow10(DigitCount(t[1..])) && DigitCount(t) == DigitCount(t[1..]) + 1
  {
  }

  lemma Distribute(n: nat, d: nat, p: nat, q: nat)
    ensures (n + d * p) * q == n * q + d * (p * q)
  {
  }

  /** Moving `k` places changes the exponent by `k`. */
  lemma Exp10Shift(e: int, k: nat)
    ensures Exp10(e - k) * Pow10(k) as real == Exp10(e)
  {
    hide Pow10;
    if e - k >= 0 {
      Pow10Sum(e - k, k);
      RealProduct(Pow10(e - k), Pow10(k));
    } else if e >= 0 {
      ShiftToFraction(e, k);
    } else {
      ShiftFraction(e, k);
    }
  }

  lemma ShiftToFraction(e: int, k: nat)
    requires 0 <= e < k
    ensures 1.0 / Pow10(k - e) as real * Pow10(k) as real == Pow10(e) as real
  {
    hide Pow10;
    Pow10Sum(e, k - e);
    RealProduct(Pow10(e), Pow10(k - e));
    Cancel(Pow10(k - e), Pow10(e));
  }

  lemma ShiftFraction(e: int, k: nat)
    requires e < 0
    ensures 1.0 / Pow10(k - e) as real * Pow10(k) as real == 1.0 / Pow10(-e) as real
  {
    hide Pow10;
    Pow10Sum(-e, k);
    assert -e + k == k - e;
    RealProduct(Pow10(-e), Pow10(k));
    Cancel2(Pow10(-e), Pow10(k));
  }

  // ----- Taking the text apart -----

  lemma {:induction false} FindPast(s: bytes, t: bytes, c: byte)
    requires c !in s
    ensures FindChar(s + t, c) == |s| + FindChar(t, c)
  {
    if s == [] {
      EmptyConcat(t);
    } else {
      assert (s + t)[1..] == s[1..] + t;
      FindPast(s[1..], t, c);
    }
  }

  lemma {:induction false} FindNone(s: bytes, c: byte)
    requires c !in s
    ensures FindChar(s, c) == |s|
  {
    if s != [] {
      FindNone(s[1..], c);
    }
  }

  lemma FindFirst(c: byte, t: bytes)
    ensures FindChar([c] + t, c) == 0
  {
  }

  lemma DigitsOnly(s: bytes, c: byte)
    requires AllDigits(s) && !IsDigit(c)
    ensures c !in s
  {
  }

  /** Neither is part of the exponent, and only the point is in front of it. */
  lemma NoMarks(d: Number)
    requires Proper(d)
    ensures UPPER_E !in RenderDigits(d) && POINT !in d.whole
    ensures d.exp.Some? ==> POINT !in RenderExponent(d.exp.value)
  {
    DigitsOnly(d.whole, UPPER_E);
    DigitsOnly(d.whole, POINT);
    if d.frac.Some? {
      DigitsOnly(d.frac.value, UPPER_E);
    }
    if d.exp.Some? {
      DigitsOnly(d.exp.value.digits, POINT);
    }
  }

  /** Where the exponent starts. */
  lemma ExponentFound(d: Number)
    requires Proper(d)
    ensures FindChar(RenderBody(d), UPPER_E) == |RenderDigits(d)|
    ensures d.exp.Some? ==> RenderBody(d)[|RenderDigits(d)| + 1..] == RenderExponent(d.exp.value)
    ensures RenderBody(d)[..|RenderDigits(d)|] == RenderDigits(d) && (d.exp.None? ==> RenderBody(d) == RenderDigits(d))
  {
    hide Proper, FindChar, RenderDigits, RenderExponent;
    NoMarks(d);
    var digits := RenderDigits(d);
    if d.exp.Some? {
      var exp := RenderExponent(d.exp.value);
      FindPast(digits, [UPPER_E] + exp, UPPER_E);
      FindFirst(UPPER_E, exp);
      Concat(digits, [UPPER_E], exp);
      DropConcat(digits + [UPPER_E], exp);
    } else {
      assert RenderBody(d) == digits;
      FindNone(digits, UPPER_E);
    }
  }

  /** Where the point is. */
  lemma PointFound(d: Number)
    requires Proper(d)
    ensures FindChar(RenderBody(d), POINT) == if d.frac.Some? then |d.whole| else |RenderBody(d)|
  {
    hide Proper, FindChar, RenderExponent;
    NoMarks(d);
    if d.frac.Some? {
      var tail := if d.exp.Some? then [UPPER_E] + RenderExponent(d.exp.value) else [];
      var rest := d.frac.value + tail;
      Concat4(d.whole, [POINT], d.frac.value, tail);
      Concat(d.whole, [POINT], d.frac.value);
      FindPast(d.whole, [POINT] + rest, POINT);
      FindFirst(POINT, rest);
    } else {
      FindNone(RenderBody(d), POINT);
    }
  }

  lemma ExponentRead(x: Exponent)
    requires AllDigits(x.digits) && x.digits != [] && (x.negative ==> x.sign)
    ensures Atoi(RenderExponent(x)) == if x.negative then 0 as int - NumberOf(x.digits) else NumberOf(x.digits)
  {
    var s := RenderExponent(x);
    if x.sign {
      assert s[1..] == x.digits;
    } else {
      assert s == x.digits;
    }
  }

  /** The number of digits after the point. */
  function Places(d: Number): nat { if d.frac.Some? then |d.frac.value| else 0 }

  lemma WithFraction(w: bytes, f: bytes, e: int)
    requires AllDigits(w) && AllDigits(f)
    ensures NumberOf(w + [POINT] + f) as real * Exp10(e - |f|) == (NumberOf(w) as real + Fraction(f)) * Exp10(e)
  {
    hide NumberOf, Pow10, Exp10, Fraction, AllDigits;
    Exp10Shift(e, |f|);
    NumberOfPoint(w, f);
    FractionShifts(f);
    PointBack(NumberOf(w + [POINT] + f), NumberOf(w), NumberOf(f), Pow10(|f|), Fraction(f), Exp10(e - |f|), Exp10(e));
  }

  /** The digits read as one number, and the point moved back. */
  lemma DigitsDenoteSize(d: Number)
    requires Proper(d)
    ensures NumberOf(RenderDigits(d)) as real * Exp10(ExponentOf(d) - Places(d)) == Size(d)
  {
    hide NumberOf, Exp10, Fraction, AllDigits;
    if d.frac.Some? {
      Concat(d.whole, [POINT], d.frac.value);
      WithFraction(d.whole, d.frac.value, ExponentOf(d));
    } else {
      assert d.whole + [] == d.whole;
      assert NumberOf(d.whole) as real + 0.0 == NumberOf(d.whole) as real;
    }
  }

  lemma PointBack(m: nat, w: nat, n: nat, p: nat, f: real, x: real, y: real)
    requires m == w * p + n && f * p as real == n as real && x * p as real == y
    ensures m as real * x == (w as real + f) * y
  {
    assert (w * p) as real == w as real * p as real;
    assert (w * p + n) as real == (w as real + f) * p as real;
    assert (w as real + f) * p as real * x == (w as real + f) * (x * p as real);
  }

  /**
   Encoding a decimal is exact: for every proper text that is not too long, the mantissa times ten to
   the exponent is the number denoted.
   */
  lemma DecimalIsExact(cfg: EncConfig, st: EncState, d: Number) returns (exponent: int, mantissa: int)
    requires Proper(d) && DecStr(RenderDigits(d)).Some?
    requires d.exp.Some? ==> |RenderExponent(d.exp.value)| < MAX_LENGTH_OF_LONG
    ensures EncDecimalStr(cfg, st, Render(d)) == DecimalItem(cfg, st, exponent, mantissa)
    ensures mantissa as real * Exp10(exponent) == Denoted(d)
  {
    hide NumberOf, Exp10, Size, EncDecimalStr, DecimalItem, DecStr, Proper, Render, RenderDigits, ExponentOf, Places;
    var n: int := NumberOf(RenderDigits(d));
    exponent := ExponentOf(d) - Places(d);
    mantissa := if d.negative then -n else n;
    TextEncoded(cfg, st, d);
    DigitsDenoteSize(d);
    Signed(d.negative, n, Exp10(exponent), Size(d));
  }

  lemma Signed(negative: bool, n: int, x: real, y: real)
    requires n as real * x == y
    ensures (if negative then -n else n) as real * x == if negative then -y else y
  {
    assert (-n) as real == -(n as real);
  }

  lemma TextEncoded(cfg: EncConfig, st: EncState, d: Number)
    requires Proper(d) && DecStr(RenderDigits(d)).Some?
    requires d.exp.Some? ==> |RenderExponent(d.exp.value)| < MAX_LENGTH_OF_LONG
    ensures var n: int := NumberOf(RenderDigits(d));
            EncDecimalStr(cfg, st, Render(d))
            == DecimalItem(cfg, st, ExponentOf(d) - Places(d), if d.negative then -n else n)
  {
    hide EncUnsigned, DecimalItem, DecStr, NumberOf, RenderBody, RenderDigits, RenderExponent, ExponentOf, Places, Proper;
    var body := RenderBody(d);
    UnsignedEncoded(cfg, st, d, d.negative);
    BodyStart(d);
    if d.negative {
      DropConcat([MINUS], body);
    } else {
      EmptyConcat(body);
    }
  }

  lemma UnsignedEncoded(cfg: EncConfig, st: EncState, d: Number, negative: bool)
    requires Proper(d) && DecStr(RenderDigits(d)).Some?
    requires d.exp.Some? ==> |RenderExponent(d.exp.value)| < MAX_LENGTH_OF_LONG
    ensures var n: int := NumberOf(RenderDigits(d));
            EncUnsigned(cfg, st, RenderBody(d), negative)
            == DecimalItem(cfg, st, ExponentOf(d) - Places(d), if negative then -n else n)
  {
    hide DecimalItem, DecStr, NumberOf, FindChar, Atoi, AllDigits, RenderExponent;
    ExponentFound(d);
    PointFound(d);
    BodyStart(d);
    if d.exp.Some? {
      ExponentRead(d.exp.value);
    }
  }

  lemma BodyStart(d: Number)
    requires Proper(d)
    ensures RenderBody(d) != [] && RenderBody(d)[0] != MINUS
  {
    assert RenderBody(d)[0] == d.whole[0];
  }

  // ----- Reading decimals back -----

  /** An integer or a bignum (section 3.4.3 of RFC 8949), and what follows it. */
  function ReadInteger(s: bytes): Option<(int, bytes)> {
    match Lex(s)
    case Tok(UInt(n), len) => Some((n, s[len..]))
    case Tok(NInt(n), len) => Some((-1 - n, s[len..]))
    case Tok(TagHead(tag), len) => ReadBignum(tag, s[len..])
    case _ => None
  }

  function ReadBignum(tag: nat, s: bytes): Option<(int, bytes)> {
    var r := Lex(s);
    if r.Tok? && r.tok.ByteString? && (tag == TAG_BIGNUM_U || tag == TAG_BIGNUM_N) then
      var n := BigEndian(r.tok.s);
      Some((if tag == TAG_BIGNUM_U then n else -1 - n, s[r.len..]))
    else None
  }

  /** A decimal fraction, or an integer with the exponent 0. */
  function ReadDecimal(s: bytes): Option<((int, int), bytes)> {
    var r := Lex(s);
    if r == Tok(TagHead(TAG_DECIMAL), 1) && Lex(s[1..]) == Tok(Array(2), 1) then
      match ReadInteger(s[2..])
      case None => None
      case Some((exponent, rest)) =>
        match ReadInteger(rest)
        case None => None
        case Some((mantissa, rest1)) => Some(((exponent, mantissa), rest1))
    else
      match ReadInteger(s)
      case None => None
      case Some((mantissa, rest)) => Some(((0, mantissa), rest))
  }

  lemma SmallReads(m: int, tail: bytes)
    requires -UINT64_LIMIT <= m < UINT64_LIMIT
    ensures ReadInteger(Write(IntToken(m)) + tail) == Some((m, tail))
  {
    TokenRoundTrip(IntToken(m), tail);
    hide Write, Lex;
  }

  lemma BigReads(m: int, tail: bytes)
    requires |Magnitude(m)| < UINT64_LIMIT - 9
    ensures ReadInteger(Write(TagHead(if m < 0 then TAG_BIGNUM_N else TAG_BIGNUM_U)) + Write(ByteString(Magnitude(m))) + tail)
            == Some((m, tail))
  {
    hide Write, Lex, BigEndian, MinimalBytes, Minimal, ReadInteger;
    var tag := if m < 0 then TAG_BIGNUM_N else TAG_BIGNUM_U;
    MinimalBytesDenote(if m < 0 then -1 - m else m);
    BignumReads(tag, Magnitude(m), tail);
  }

  lemma BignumReads(tag: nat, b: bytes, tail: bytes)
    requires (tag == TAG_BIGNUM_U || tag == TAG_BIGNUM_N) && |b| < UINT64_LIMIT - 9
    ensures ReadInteger(Write(TagHead(tag)) + Write(ByteString(b)) + tail)
            == Some((if tag == TAG_BIGNUM_U then BigEndian(b) else -1 - BigEndian(b), tail))
  {
    hide Write, Lex, BigEndian, ReadInteger, ReadBignum;
    var rest := Write(ByteString(b)) + tail;
    Concat(Write(TagHead(tag)), Write(ByteString(b)), tail);
    TagThenBignum(tag, rest);
    ContentReads(tag, b, tail);
  }

  lemma TagThenBignum(tag: nat, rest: bytes)
    requires tag < UINT64_LIMIT
    ensures ReadInteger(Write(TagHead(tag)) + rest) == ReadBignum(tag, rest)
  {
    hide Write, Lex, ReadBignum;
    TokenRoundTrip(TagHead(tag), rest);
    DropConcat(Write(TagHead(tag)), rest);
  }

  lemma {:induction false} ContentReads(tag: nat, b: bytes, tail: bytes)
    requires (tag == TAG_BIGNUM_U || tag == TAG_BIGNUM_N) && |b| < UINT64_LIMIT - 9
    ensures ReadBignum(tag, Write(ByteString(b)) + tail)
            == Some((if tag == TAG_BIGNUM_U then BigEndian(b) else -1 - BigEndian(b), tail))
  {
    hide Write, Lex, BigEndian;
    TokenRoundTrip(ByteString(b), tail);
    DropConcat(Write(ByteString(b)), tail);
  }

  /** The mantissa part of a decimal. */
  function MantissaBytes(m: int): bytes {
    if |Magnitude(m)| <= 8 then Write(IntToken(m))
    else Write(TagHead(if m < 0 then TAG_BIGNUM_N else TAG_BIGNUM_U)) + Write(ByteString(Magnitude(m)))
  }

  lemma MantissaReads(m: int, tail: bytes)
    requires |Magnitude(m)| < UINT64_LIMIT - 9
    ensures ReadInteger(MantissaBytes(m) + tail) == Some((m, tail))
  {
    MinimalLength(if m < 0 then -1 - m else m);
    hide Write, ReadInteger, MinimalBytes;
    if |Magnitude(m)| <= 8 {
      SmallReads(m, tail);
    } else {
      BigReads(m, tail);
    }
  }

  lemma ItemBytes(cfg: EncConfig, st: EncState, exponent: int, mantissa: int)
    requires st.srns.None?
    ensures DecimalItem(cfg, st, exponent, mantissa)
            == Ok(Out((if exponent != 0 || |Magnitude(mantissa)| > 8
                       then Write(TagHead(TAG_DECIMAL)) + Write(Array(2)) + Write(IntToken(exponent)) else [])
                      + MantissaBytes(mantissa), st))
  {
    hide Write, Magnitude;
    Concat((if exponent != 0 || |Magnitude(mantissa)| > 8
            then Write(TagHead(TAG_DECIMAL)) + Write(Array(2)) + Write(IntToken(exponent)) else []),
           Write(TagHead(if mantissa < 0 then TAG_BIGNUM_N else TAG_BIGNUM_U)), Write(ByteString(Magnitude(mantissa))));
  }

  lemma HeadReads(exponent: int, rest: bytes)
    requires IsLong(exponent)
    ensures ReadDecimal(Write(TagHead(TAG_DECIMAL)) + Write(Array(2)) + Write(IntToken(exponent)) + rest) ==
            match ReadInteger(rest)
            case None => None
            case Some((mantissa, rest1)) => Some(((exponent, mantissa), rest1))
  {
    hide Write, Lex, ReadInteger;
    var tag, pair, t := Write(TagHead(TAG_DECIMAL)), Write(Array(2)), Write(IntToken(exponent)) + rest;
    Concat4(tag, pair, Write(IntToken(exponent)), rest);
    TokenRoundTrip(TagHead(TAG_DECIMAL), pair + t);
    TokenRoundTrip(Array(2), t);
    SmallReads(exponent, rest);
    HeadLengths();
    DropConcat(tag, pair + t);
    Concat(tag, pair, t);
    DropConcat(tag + pair, t);
  }

  lemma HeadLengths()
    ensures |Write(TagHead(TAG_DECIMAL))| == 1 && |Write(Array(2))| == 1
  {
  }

  lemma NoHeadReads(m: int, rest: bytes)
    ensures ReadDecimal(MantissaBytes(m) + rest) ==
            match ReadInteger(MantissaBytes(m) + rest)
            case None => None
            case Some((mantissa, rest1)) => Some(((0, mantissa), rest1))
  {
    var tag := if m < 0 then TAG_BIGNUM_N else TAG_BIGNUM_U;
    var b := Write(ByteString(Magnitude(m)));
    Concat(Write(TagHead(tag)), b, rest);
    TokenRoundTrip(TagHead(tag), b + rest);
    if |Magnitude(m)| <= 8 {
      MinimalLength(if m < 0 then -1 - m else m);
      TokenRoundTrip(IntToken(m), rest);
    }
    hide Write, Lex, ReadInteger, Magnitude;
  }

  /** A whole number of at most 64 bits is written as an integer, without the tag of decimal fractions. */
  lemma WholeIsPlain(cfg: EncConfig, st: EncState, m: int)
    requires -UINT64_LIMIT <= m < UINT64_LIMIT
    ensures DecimalItem(cfg, st, 0, m) == Ok(Out(Write(if m >= 0 then UInt(m) else NInt(-1 - m)), st))
  {
    hide Write, MinimalBytes, EncString;
    MinimalLength(if m < 0 then -1 - m else m);
    EmptyConcat(Write(IntToken(m)));
  }

  /** What was written for an exponent and a mantissa is read back as the same two numbers. */
  lemma DecimalReads(cfg: EncConfig, st: EncState, exponent: int, mantissa: int, tail: bytes)
    requires st.srns.None? && IsLong(exponent) && |Magnitude(mantissa)| < UINT64_LIMIT - 9
    ensures DecimalItem(cfg, st, exponent, mantissa).Ok?
    ensures ReadDecimal(DecimalItem(cfg, st, exponent, mantissa).value.out + tail) == Some(((exponent, mantissa), tail))
  {
    hide Write, ReadInteger, Magnitude, MantissaBytes, DecimalItem, ReadDecimal;
    ItemBytes(cfg, st, exponent, mantissa);
    MantissaReads(mantissa, tail);
    if exponent != 0 || |Magnitude(mantissa)| > 8 {
      Concat(Write(TagHead(TAG_DECIMAL)) + Write(Array(2)) + Write(IntToken(exponent)), MantissaBytes(mantissa), tail);
      HeadReads(exponent, MantissaBytes(mantissa) + tail);
    } else {
      EmptyConcat(MantissaBytes(mantissa));
      NoHeadReads(mantissa, tail);
    }
  }

  // ----- enc_decimal -----

  /** `enc_bin_int`: up to eight bytes as an integer. */
  method EncBinInt(ctx: EncodeContext.Context, str: bytes, isNegative: bool)
    requires |str| <= 8
    modifies ctx`buf
    ensures ctx.buf == old(ctx.buf) + Write(if isNegative then NInt(BigEndian(str)) else UInt(BigEndian(str)))
  {
    hide WriteHead;
    var value: nat := 0;
    assert str[..0] == [];
    for i := 0 to |str|
      invariant value == BigEndian(str[..i])
    {
      assert str[..i + 1][..i] == str[..i];
      value := value * 256 + str[i];
    }
    assert str[..|str|] == str;
    ctx.WriteInt(if isNegative then 1 else 0, value);
  }

  /** The tail of `enc_decimal`: the numbers are known. */
  method EncParts(ctx: EncodeContext.Context, exponent: int, bin: bytes, isNegative: bool, ghost mantissa: int)
    returns (error: Option<Error>)
    requires bin == Magnitude(mantissa) && (isNegative <==> mantissa < 0)
    modifies ctx`buf, ctx`srns
    ensures ctx.Emitted(DecimalItem(ctx.cfg, old(ctx.GetState()), exponent, mantissa), old(ctx.buf), error)
  {
    hide Write, EncString, MinimalBytes;
    MinimalBytesDenote(if mantissa < 0 then -1 - mantissa else mantissa);
    ghost var was := ctx.buf;
    ghost var head: bytes := [];
    if exponent != 0 || |bin| > 8 {
      ctx.EncTagBare(TAG_DECIMAL);
      ctx.WriteToken(Array(2));
      ctx.EncLong(exponent);
      head := Write(TagHead(TAG_DECIMAL)) + Write(Array(2)) + Write(IntToken(exponent));
      assert ctx.buf == was + head;
    }
    if |bin| <= 8 {
      EncBinInt(ctx, bin, isNegative);
      Concat(was, head, Write(IntToken(mantissa)));
      return None;
    }
    ghost var tag := if mantissa < 0 then TAG_BIGNUM_N else TAG_BIGNUM_U;
    ctx.EncTagBare(if isNegative then TAG_BIGNUM_N else TAG_BIGNUM_U);
    ghost var r := EncString(ctx.cfg, ctx.GetState(), bin, false);
    error := ctx.EncStringLen(bin, false);
    if r.Ok? {
      Concat4(was, head, Write(TagHead(tag)), r.value.out);
      Concat(head, Write(TagHead(tag)), r.value.out);
    }
  }

  /** The digits as a binary number; for a negative one as its magnitude less one, and zero has no sign. */
  method BinaryMantissa(digits: bytes, negative: bool) returns (bin: Option<bytes>, isNegative: bool)
    ensures bin.None? <==> DecStr(digits).None?
    ensures bin.Some? ==>
              var n: int := NumberOf(digits);
              && bin.value == Magnitude(if negative then -n else n)
              && (isNegative <==> negative && n > 0)
  {
    hide Pow10, Pow256, OutMax, MinimalBytes, NumberOf;
    isNegative := negative;
    bin := DecodeDecStr(digits);
    if bin.Some? {
      MinimalIsUnique(bin.value);
      ZeroIsEmpty(bin.value);
      if isNegative && |bin.value| == 0 {
        isNegative := false;
      } else if isNegative {
        var s := bin.value;
        var a := new byte[|s|](i requires 0 <= i < |s| => s[i]);
        assert a[..] == s;
        s := BinIntSub1(a);
        MinimalIsUnique(s);
        bin := Some(s);
      }
    }
  }

  /** `enc_decimal` on the text of a finite number. */
  method EncDecimal(ctx: EncodeContext.Context, str: bytes) returns (error: Option<Error>)
    modifies ctx`buf, ctx`srns
    ensures ctx.Emitted(EncDecimalStr(ctx.cfg, old(ctx.GetState()), str), old(ctx.buf), error)
  {
    hide DecimalItem, DecStr, Magnitude, NumberOf, Atoi;
    if str == [] {
      return Some(Internal);
    }
    var isNegative := str[0] == MINUS;
    var body := if isNegative then str[1..] else str;
    if body == [] {
      return Some(Internal);
    }
    var exp, len := 0, |body|;
    var e := FindChar(body, UPPER_E);
    if e < |body| {
      if |body| - e - 1 >= MAX_LENGTH_OF_LONG {
        return Some(UnsupportedValue);
      }
      exp := Atoi(body[e + 1..]);
      len := e;
    }
    var bin;
    bin, isNegative := BinaryMantissa(body[..len], isNegative);
    if bin.None? {
      return Some(Internal);
    }
    ghost var n: int := NumberOf(body[..len]);
    var p := FindChar(body, POINT);
    var places := if p < |body| then len - 1 - p else 0;
    error := EncParts(ctx, exp - places, bin.value, isNegative, if str[0] == MINUS then -n else n);
  }

  lemma ZeroIsEmpty(s: bytes)
    requires Minimal(s)
    ensures s == [] <==> BigEndian(s) == 0
  {
    if s != [] {
      MinimalIsPositive(s);
    }
  }
}
