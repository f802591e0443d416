/**
 Decimal text of integers from -2^64 to 2^64 - 1: the printer `cbor_int_to_str` of decode.c and
 the parser of integer-looking keys `convert_string_to_int` of encode.c.
 */
module DecimalInt {
  import opened Bytes
  import opened Wrappers

  const ZERO: byte := 0x30
  const NINE: byte := 0x39
  const MINUS: byte := 0x2d

  predicate InRange(i: int) { -UINT64_LIMIT <= i < UINT64_LIMIT }

  /** Decimal digits of `n`, without leading zeros. */
  function Digits(n: nat): (s: bytes)
    ensures s != []
  {
    if n < 10 then [ZERO + n] else Digits(n / 10) + [ZERO + n % 10]
  }

  /** Canonical decimal text. */
  function Print(i: int): (s: bytes)
    ensures s != []
  {
    if i < 0 then [MINUS] + Digits(-i) else Digits(i)
  }

  predicate IsDigit(c: byte) { ZERO <= c <= NINE }

  predicate AllDigits(s: bytes) { forall i :: 0 <= i < |s| ==> IsDigit(s[i]) }

  /** The number a string of digits denotes. */
  function Value(s: bytes): nat
    requires AllDigits(s)
  {
    if s == [] then 0 else Value(s[..|s| - 1]) * 10 + (s[|s| - 1] - ZERO)
  }

  predicate IsPositive(s: bytes) { s != [] && AllDigits(s) && s[0] != ZERO }

  /** The integer of which `s` is the canonical text, if there is one and it is in range. */
  function Parse(s: bytes): (r: Option<int>) {
    if s == [ZERO] then Some(0)
    else if s != [] && s[0] == MINUS then
      if IsPositive(s[1..]) && Value(s[1..]) <= UINT64_LIMIT then Some(0 as int - Value(s[1..])) else None
    else if IsPositive(s) && Value(s) < UINT64_LIMIT then Some(Value(s))
    else None
  }

  // ----- Printing and parsing are inverse -----

  lemma {:induction false} DigitsDenote(n: nat)
    ensures AllDigits(Digits(n)) && Value(Digits(n)) == n
    ensures Digits(n)[0] == ZERO <==> n == 0
  {
    if n >= 10 {
      DigitsDenote(n / 10);
      assert Digits(n)[..|Digits(n)| - 1] == Digits(n / 10);
    } else {
      assert Digits(n)[..0] == [];
    }
  }

  lemma {:induction false} PositiveIsDigits(s: bytes)
    requires IsPositive(s)
    ensures Value(s) > 0 && Digits(Value(s)) == s
  {
    var t := s[..|s| - 1];
    assert s == t + [s[|s| - 1]];
    if t == [] {
      assert Value(s) == s[0] - ZERO;
    } else {
      PositiveIsDigits(t);
    }
  }

  lemma ParsePrint(i: int)
    requires InRange(i)
    ensures Parse(Print(i)) == Some(i)
  {
    DigitsDenote(if i < 0 then -i else i);
    if i < 0 {
      assert Print(i)[1..] == Digits(-i);
    }
  }

  lemma ParsedIsPrinted(s: bytes)
    requires Parse(s).Some?
    ensures InRange(Parse(s).value) && Print(Parse(s).value) == s
  {
    if s != [ZERO] {
      PositiveIsDigits(if s[0] == MINUS then s[1..] else s);
    }
  }

  /** A string parses to `i` exactly when it is the canonical text of `i` and `i` is in range. */
  lemma ParseIffPrinted(s: bytes, i: int)
    ensures Parse(s) == Some(i) <==> InRange(i) && Print(i) == s
  {
    if Parse(s) == Some(i) {
      ParsedIsPrinted(s);
    } else if InRange(i) && Print(i) == s {
      ParsePrint(i);
    }
  }

  // ----- cbor_int_to_str -----

  lemma LastDigitUp(n: nat)
    requires n % 10 != 9
    ensures var buf := [MINUS] + Digits(n);
            && buf[|buf| - 1] == ZERO + n % 10
            && buf[|buf| - 1 := buf[|buf| - 1] + 1] == [MINUS] + Digits(n + 1)
  {
    var d := Digits(n);
    assert d[|d| - 1 := d[|d| - 1] + 1] == Digits(n + 1);
  }

  /**
   Prints `value`, or -1 - `value`. The magnitude of -1 - `value` is computed in 64 bits; when
   it wraps to 0 the last digit of 2^64 - 1 is patched instead.
   */
  method IntToStr(value: nat, isNegative: bool) returns (buf: bytes)
    requires value < UINT64_LIMIT
    ensures buf == Print(if isNegative then -1 - value else value)
  {
    hide Digits;
    if !isNegative {
      return Digits(value);
    }
    var magnitude := (value + 1) % UINT64_LIMIT;
    var fix := magnitude == 0;
    if fix {
      magnitude := (magnitude - 1) % UINT64_LIMIT;
      LastDigitUp(magnitude);
    }
    buf := [MINUS] + Digits(magnitude);
    if fix {
      buf := buf[|buf| - 1 := buf[|buf| - 1] + 1];
    }
  }

  // ----- convert_string_to_int -----

  function Pow10(k: nat): (p: nat)
    ensures p > 0
  {
    if k == 0 then 1 else 10 * Pow10(k - 1)
  }

  lemma {:induction false} Pow10Sum(j: nat, k: nat)
    ensures Pow10(j + k) == Pow10(j) * Pow10(k)
  {
    if j > 0 {
      Pow10Sum(j - 1, k);
      Regroup(10, Pow10(j - 1), Pow10(k));
    }
  }

  lemma Regroup(a: nat, b: nat, c: nat)
    ensures a * (b * c) == a * b * c
  {
  }

  lemma {:induction false} ValueBound(s: bytes)
    requires AllDigits(s)
    ensures Value(s) < Pow10(|s|)
  {
    if s != [] {
      ValueBound(s[..|s| - 1]);
    }
  }

  lemma {:induction false} ValueOfPrefix(s: bytes, k: nat)
    requires AllDigits(s) && k <= |s|
    ensures Value(s[..k]) <= Value(s)
  {
    if k < |s| {
      ValueOfPrefix(s[..|s| - 1], k);
      assert s[..|s| - 1][..k] == s[..k];
    } else {
      assert s[..k] == s;
    }
  }

  lemma {:induction false} LongNumberIsLarge(s: bytes)
    requires IsPositive(s)
    ensures Value(s) >= Pow10(|s| - 1)
  {
    if |s| > 1 {
      LongNumberIsLarge(s[..|s| - 1]);
    } else {
      assert Value(s) == s[0] - ZERO;
    }
  }

  lemma Pow10Values()
    ensures Pow10(19) < UINT64_LIMIT < Pow10(20)
  {
    assert Pow10(5) == 100000;
    assert Pow10(10) == 100000 * Pow10(5);
    assert Pow10(15) == 100000 * Pow10(10);
    assert Pow10(20) == 100000 * Pow10(15);
  }

  lemma {:induction false} Pow10Grows(j: nat, k: nat)
    requires j <= k
    ensures Pow10(j) <= Pow10(k)
  {
    if j < k {
      Pow10Grows(j, k - 1);
    }
  }

  lemma ShortIsSmall(t: bytes)
    requires AllDigits(t) && |t| <= 18
    ensures Value(t) * 10 + 9 < UINT64_LIMIT
  {
    Pow10Values();
    ValueBound(t);
    Pow10Grows(|t|, 18);
    assert Pow10(19) == 10 * Pow10(18);
  }

  lemma OneMoreDigit(s: bytes, start: nat, end: nat)
    requires start <= end < |s| && AllDigits(s[start..end]) && IsDigit(s[end])
    ensures AllDigits(s[start..end + 1])
    ensures Value(s[start..end + 1]) == Value(s[start..end]) * 10 + (s[end] - ZERO)
  {
    var t, u := s[start..end], s[start..end + 1];
    assert u == t + [s[end]] && u[..|u| - 1] == t;
  }

  /**
   Reads digits of `s` from `start` on for as long as the number stays below 2^64; the last
   position is 0-terminated.
   */
  method ScanUint64(s: bytes, start: nat) returns (value: nat, end: nat)
    requires start <= |s|
    ensures start <= end <= |s| && AllDigits(s[start..end]) && value == Value(s[start..end])
    ensures value < UINT64_LIMIT
    ensures end < |s| ==> !IsDigit(s[end]) || Value(s[start..end]) * 10 + (s[end] - ZERO) >= UINT64_LIMIT
  {
    value, end := 0, start;
    while true
      invariant start <= end <= |s| && AllDigits(s[start..end]) && value == Value(s[start..end])
      invariant value < UINT64_LIMIT
      decreases |s| - end
    {
      var c := if end < |s| then s[end] else 0;
      if !IsDigit(c) || (end - start > 18 && value > (UINT64_LIMIT - 1 - (c - ZERO)) / 10) {
        break;
      }
      if end - start <= 18 {
        ShortIsSmall(s[start..end]);
      }
      OneMoreDigit(s, start, end);
      value := value * 10 + (c - ZERO);
      end := end + 1;
    }
  }

  /** Succeeds exactly on canonical texts of integers from -2^64 to 2^64 - 1. */
  method ConvertStringToInt(str: bytes) returns (ok: bool, value: nat, isNegative: bool)
    ensures ok <==> Parse(str).Some?
    ensures ok ==> value < UINT64_LIMIT && Parse(str) == Some(if isNegative then -1 - value else value)
  {
    hide Parse;
    ok, value, isNegative := false, 0, false;
    ParseByFirst(str);
    if str == [] || str[0] < MINUS || str[0] > NINE {
      return;
    }
    if |str| > 21 {
      TooLong(str);
      return;
    }
    if str[0] == ZERO {
      return |str| == 1, 0, false;
    }
    isNegative := str[0] == MINUS;
    var s, start := str, 0;
    var fix := isNegative && str[|str| - 1] == 0x36;
    if fix {
      s := str[|str| - 1 := 0x35];
    }
    if isNegative {
      start := 1;
      if |s| == 1 || s[1] == MINUS || s[1] == ZERO || s[1] == 0 {
        return false, 0, isNegative;
      }
    }
    var end;
    value, end := ScanUint64(s, start);
    if end != |s| {
      NotScanned(s, start, end);
    } else {
      assert s[start..end] == s[start..];
    }
    if isNegative {
      ParseNegative(str, s, fix);
    }
    if end != |s| {
      return false, value, isNegative;
    }
    if isNegative && !fix {
      value := value - 1;
    }
    ok := true;
  }

  /** A number that does not start with zero is not zero. */
  lemma FirstDigitPositive(s: bytes)
    requires s != [] && s[0] != ZERO
    ensures AllDigits(s) ==> Value(s) > 0
  {
    if AllDigits(s) {
      PositiveIsDigits(s);
    }
  }

  /** A negative number, read from `s` with its last digit patched if it is a 6. */
  lemma ParseNegative(str: bytes, s: bytes, fix: bool)
    requires |str| > 1 && str[0] == MINUS && str[1] != ZERO
    requires fix == (str[|str| - 1] == 0x36) && s == if fix then str[|str| - 1 := 0x35] else str
    ensures Parse(str).Some? <==> AllDigits(s[1..]) && Value(s[1..]) < UINT64_LIMIT
    ensures Parse(str).Some? ==> (!fix ==> Value(s[1..]) > 0)
                                 && Parse(str) == Some(-1 - Value(s[1..]) + if fix then 0 else 1)
  {
    hide Digits;
    if fix {
      LastDigitDown(str);
      FirstDigitPositive(str[1..]);
    } else if AllDigits(str[1..]) {
      LastDigitOf(str[1..]);
      PositiveIsDigits(str[1..]);
    }
  }

  lemma ParseByFirst(s: bytes)
    ensures s == [] || s[0] < MINUS || s[0] > NINE ==> Parse(s) == None
    ensures s != [] && s[0] == ZERO ==> Parse(s) == if |s| == 1 then Some(0) else None
    ensures s != [] && s[0] == MINUS && (|s| == 1 || !IsDigit(s[1]) || s[1] == ZERO) ==> Parse(s) == None
    ensures s != [] && s[0] != MINUS && s[0] != ZERO ==>
              Parse(s) == if AllDigits(s) && Value(s) < UINT64_LIMIT then Some(Value(s)) else None
  {
    if s != [] && s[0] == ZERO && |s| == 1 {
      assert s == [ZERO];
    }
    if |s| > 1 && s[0] == MINUS {
      assert s[1..][0] == s[1];
    }
  }

  lemma TooLong(s: bytes)
    requires |s| > 21
    ensures Parse(s) == None
  {
    Pow10Values();
    if s[0] == MINUS {
      if IsPositive(s[1..]) {
        LongNumberIsLarge(s[1..]);
        Pow10Grows(20, |s| - 2);
      }
    } else if IsPositive(s) {
      LongNumberIsLarge(s);
      Pow10Grows(20, |s| - 1);
    }
  }

  /** When the scan stops early, the rest is not a number below 2^64. */
  lemma NotScanned(s: bytes, start: nat, end: nat)
    requires start <= end < |s| && AllDigits(s[start..end])
    requires !IsDigit(s[end]) || Value(s[start..end]) * 10 + (s[end] - ZERO) >= UINT64_LIMIT
    ensures !(AllDigits(s[start..]) && Value(s[start..]) < UINT64_LIMIT)
  {
    var t := s[start..];
    if AllDigits(t) {
      assert t[end - start] == s[end];
      var k := end + 1 - start;
      assert t[..k][..k - 1] == s[start..end];
      ValueOfPrefix(t, k);
    }
  }

  lemma LastDigitOf(s: bytes)
    requires s != [] && AllDigits(s)
    ensures Value(s) % 10 == s[|s| - 1] - ZERO
  {
  }

  /** Replacing a last digit 6 by 5 takes one off the number. */
  lemma LastDigitDown(str: bytes)
    requires |str| > 1 && str[|str| - 1] == 0x36
    ensures var t := str[|str| - 1 := 0x35][1..];
            && (AllDigits(t) <==> AllDigits(str[1..]))
            && (AllDigits(t) ==> Value(t) == Value(str[1..]) - 1)
  {
    var t, u := str[|str| - 1 := 0x35][1..], str[1..];
    assert t[..|t| - 1] == u[..|u| - 1];
    assert t == u[|u| - 1 := 0x35] && u == t[|t| - 1 := 0x36];
  }
}
