/**
 The big-number arithmetic of encode.c, in place on arrays of base-256 digits: a decimal string to binary
 by long multiplication, and subtracting one.
 */
module BigNumber {
  import opened Bytes
  import opened Wrappers
  import opened DecimalInt

  // ----- Positional notation -----

  /** The number a string of digits denotes; other characters are skipped. */
  function NumberOf(s: bytes): nat {
    if s == [] then 0 else NumberOf(s[1..]) + Contribution(s[0], Pow10(DigitCount(s[1..])))
  }

  /** What a character stands for at a place that counts `p`. */
  function Contribution(c: byte, p: nat): nat { if IsDigit(c) then (c - ZERO) * p else 0 }

  function DigitCount(s: bytes): nat {
    if s == [] then 0 else DigitCount(s[1..]) + if IsDigit(s[0]) then 1 else 0
  }

  lemma {:induction false} NumberBound(s: bytes)
    ensures NumberOf(s) < Pow10(DigitCount(s))
  {
    if s != [] {
      NumberBound(s[1..]);
      var p, n := Pow10(DigitCount(s[1..])), NumberOf(s[1..]);
      if IsDigit(s[0]) {
        assert Pow10(DigitCount(s)) == 10 * p;
        hide Pow10;
        DigitBelowTen(s[0] - ZERO, p);
      }
    }
  }

  lemma DigitBelowTen(d: nat, p: nat)
    requires d <= 9
    ensures d * p <= 9 * p
  {
  }

  lemma {:induction false} CountMonotonic(s: bytes, i: nat)
    requires i <= |s|
    ensures DigitCount(s[i..]) <= DigitCount(s)
  {
    if i > 0 {
      CountMonotonic(s[1..], i - 1);
      assert s[1..][i - 1..] == s[i..];
    } else {
      assert s[0..] == s;
    }
  }

  // ----- Base 256 -----

  lemma {:induction false} BigEndianCons(b: byte, s: bytes)
    ensures BigEndian([b] + s) == b * Pow256(|s|) + BigEndian(s)
  {
    if s == [] {
      assert [b] + s == [b] && [b][..0] == [];
      assert BigEndian([b]) == BigEndian([]) * 256 + b;
    } else {
      var n := |s| - 1;
      BigEndianCons(b, s[..n]);
      var t := [b] + s;
      assert t[..|t| - 1] == [b] + s[..n] && t[|t| - 1] == s[n];
      assert BigEndian(t) == (b * Pow256(n) + BigEndian(s[..n])) * 256 + s[n];
      assert Pow256(|s|) == 256 * Pow256(n);
      Scale256(b, Pow256(n));
    }
  }

  lemma Scale256(b: nat, p: nat)
    ensures b * p * 256 == b * (256 * p)
  {
  }

  lemma {:induction false} ZerosAreZero(s: bytes)
    requires forall i :: 0 <= i < |s| ==> s[i] == 0
    ensures BigEndian(s) == 0
  {
    if s != [] {
      ZerosAreZero(s[..|s| - 1]);
    }
  }

  /** No leading zero. */
  predicate Minimal(s: bytes) { s == [] || s[0] != 0 }

  lemma {:induction false} LeadingZeros(s: bytes, i: nat)
    requires i <= |s| && forall j :: 0 <= j < i ==> s[j] == 0
    ensures BigEndian(s[i..]) == BigEndian(s)
  {
    hide BigEndian, Pow256;
    if i == 0 {
      assert s[0..] == s;
    } else {
      LeadingZeros(s[1..], i - 1);
      assert s[1..][i - 1..] == s[i..];
      BigEndianCons(s[0], s[1..]);
      assert s == [s[0]] + s[1..];
    }
  }

  /** One step of a column sum: digit `d` and carry `c` make digit `x` and carry `y`. */
  lemma Column(d: nat, m: nat, n: nat, c: nat, x: nat, y: nat, p: nat, low: nat, oldLow: nat, multiLow: nat)
    requires d + c + m * n == 256 * y + x
    requires low + c * p == oldLow + n * multiLow
    ensures x * p + low + y * (256 * p) == d * p + oldLow + n * (m * p + multiLow)
  {
    assert (d + c + m * n) * p == (256 * y + x) * p;
    assert n * (m * p + multiLow) == m * n * p + n * multiLow;
    assert y * (256 * p) == 256 * y * p;
  }

  lemma SplitSeq(s: bytes, i: nat)
    requires i < |s|
    ensures BigEndian(s[i..]) == s[i] * Pow256(|s| - i - 1) + BigEndian(s[i + 1..])
  {
    BigEndianCons(s[i], s[i + 1..]);
    assert s[i..] == [s[i]] + s[i + 1..];
  }

  // ----- Adding a multiple -----

  /** The sum in progress: digits from `i` on are done, `carry` is to be added at `i`. */
  ghost predicate SumDone(out: bytes, was: bytes, multi: bytes, pos: nat, n: nat, i: nat, carry: nat)
    requires |out| == |was| == |multi| && i <= |out| && pos <= |multi|
  {
    && out[..i] == was[..i]
    && BigEndian(out[i..]) + carry * Pow256(|out| - i)
       == BigEndian(was[i..]) + n * BigEndian(multi[if i < pos then pos else i..])
  }

  lemma SumStarts(out: bytes, multi: bytes, pos: nat, n: nat)
    requires |out| == |multi| && pos <= |multi|
    ensures SumDone(out, out, multi, pos, n, |out|, 0)
  {
    assert BigEndian(out[|out|..]) == 0 && BigEndian(multi[|out|..]) == 0;
  }

  /** A digit of the multiple is added. */
  lemma SumStep(out: bytes, was: bytes, multi: bytes, pos: nat, n: nat, i: nat, carry: nat, x: byte, y: nat)
    requires |out| == |was| == |multi| && pos <= i < |out| && out[i] + carry + multi[i] * n == 256 * y + x
    requires SumDone(out, was, multi, pos, n, i + 1, carry)
    ensures SumDone(out[i := x], was, multi, pos, n, i, y)
  {
    var p := Pow256(|out| - i - 1);
    assert Pow256(|out| - i) == 256 * p;
    SplitSeq(out[i := x], i);
    SplitSeq(was, i);
    SplitSeq(multi, i);
    assert out[i] == was[i] by {
      assert out[..i + 1][i] == was[..i + 1][i];
    }
    assert out[i := x][i + 1..] == out[i + 1..];
    assert out[i := x][..i] == out[..i + 1][..i] == was[..i + 1][..i] == was[..i];
    hide BigEndian, Pow256;
    Column(was[i], multi[i], n, carry, x, y, p, BigEndian(out[i + 1..]), BigEndian(was[i + 1..]), BigEndian(multi[i + 1..]));
  }

  /** Beyond the multiple only the carry is added. */
  lemma CarryStep(out: bytes, was: bytes, multi: bytes, pos: nat, n: nat, i: nat, carry: nat, x: byte, y: nat)
    requires |out| == |was| == |multi| && i < pos <= |out| && out[i] + carry == 256 * y + x
    requires SumDone(out, was, multi, pos, n, i + 1, carry)
    ensures SumDone(out[i := x], was, multi, pos, n, i, y)
  {
    var p := Pow256(|out| - i - 1);
    assert Pow256(|out| - i) == 256 * p;
    SplitSeq(out[i := x], i);
    SplitSeq(was, i);
    assert out[i] == was[i] by {
      assert out[..i + 1][i] == was[..i + 1][i];
    }
    assert out[i := x][i + 1..] == out[i + 1..];
    assert out[i := x][..i] == out[..i + 1][..i] == was[..i + 1][..i] == was[..i];
    hide BigEndian, Pow256;
    Column(was[i], 0, n, carry, x, y, p, BigEndian(out[i + 1..]), BigEndian(was[i + 1..]), BigEndian(multi[pos..]));
  }

  /** What one column adds up to leaves a carry of at most 9. */
  lemma ColumnCarry(d: byte, c: nat, m: byte, n: nat)
    requires c <= 9 && n <= 9
    ensures 0 <= d + c + m * n && (d + c + m * n) / 256 <= 9
  {
    assert m * n <= 255 * 9;
  }

  /** Adds `n` times the number in `multi` from `multiPos` on. Fails if the sum does not fit. */
  method AddMultiple(out: array<byte>, multi: array<byte>, multiPos: nat, n: nat) returns (ok: bool)
    requires out.Length == multi.Length && multiPos <= multi.Length && n <= 9 && out != multi
    modifies out
    ensures ok <==> BigEndian(old(out[..])) + n * BigEndian(multi[multiPos..]) < Pow256(out.Length)
    ensures ok ==> BigEndian(out[..]) == BigEndian(old(out[..])) + n * BigEndian(multi[multiPos..])
  {
    hide SumDone, BigEndian, Pow256;
    ghost var was, m := out[..], multi[..];
    var carry: nat, i: nat := 0, out.Length;
    SumStarts(was, m, multiPos, n);
    while i > multiPos
      invariant multiPos <= i <= out.Length && carry <= 9 && multi[..] == m
      invariant SumDone(out[..], was, m, multiPos, n, i, carry)
    {
      i := i - 1;
      var result := out[i] + carry + multi[i] * n;
      ColumnCarry(out[i], carry, multi[i], n);
      SumStep(out[..], was, m, multiPos, n, i, carry, result % 256, result / 256);
      ghost var before, x: byte := out[..], result % 256;
      out[i] := result % 256;
      assert out[..] == before[i := x];
      carry := result / 256;
    }
    while carry > 0
      invariant 0 <= i <= multiPos && carry <= 9 && multi[..] == m
      invariant SumDone(out[..], was, m, multiPos, n, i, carry)
      decreases i, carry
    {
      if i == 0 {
        SumOverflows(out[..], was, m, multiPos, n, carry);
        return false;
      }
      i := i - 1;
      var result := out[i] + carry;
      CarryStep(out[..], was, m, multiPos, n, i, carry, result % 256, result / 256);
      ghost var before, x: byte := out[..], result % 256;
      out[i] := result % 256;
      assert out[..] == before[i := x];
      carry := result / 256;
    }
    SumComplete(out[..], was, m, multiPos, n, i);
    ok := true;
  }

  lemma SumOverflows(out: bytes, was: bytes, multi: bytes, pos: nat, n: nat, carry: nat)
    requires |out| == |was| == |multi| && pos <= |multi| && carry > 0 && SumDone(out, was, multi, pos, n, 0, carry)
    ensures BigEndian(was) + n * BigEndian(multi[pos..]) >= Pow256(|out|)
  {
    assert was[0..] == was && out[0..] == out;
    assert multi[if 0 < pos then pos else 0..] == multi[pos..];
    hide BigEndian, Pow256;
    AtLeastOnce(carry, Pow256(|out|));
  }

  lemma AtLeastOnce(c: nat, p: nat)
    requires c > 0
    ensures c * p >= p
  {
  }

  /** Without a carry left the digits in front stay as they were. */
  lemma SumComplete(out: bytes, was: bytes, multi: bytes, pos: nat, n: nat, i: nat)
    requires |out| == |was| == |multi| && i <= pos <= |multi| && SumDone(out, was, multi, pos, n, i, 0)
    ensures BigEndian(out) == BigEndian(was) + n * BigEndian(multi[pos..]) < Pow256(|out|)
  {
    BigEndianBound(out);
    SameFront(out, was, i);
  }

  lemma {:induction false} SameFront(s: bytes, t: bytes, i: nat)
    requires |s| == |t| && i <= |s| && s[..i] == t[..i]
    ensures BigEndian(s) - BigEndian(s[i..]) == BigEndian(t) - BigEndian(t[i..])
  {
    if i == 0 {
      assert s[0..] == s && t[0..] == t;
    } else {
      SameFront(s, t, i - 1);
      SplitSeq(s, i - 1);
      SplitSeq(t, i - 1);
      assert s[..i][i - 1] == t[..i][i - 1];
      assert s[..i - 1] == s[..i][..i - 1] == t[..i][..i - 1] == t[..i - 1];
    }
  }

  // ----- Multiplying by ten -----

  /** The product in progress: `low` digits are done, `carry` is to be added in front of them. */
  ghost predicate ProductDone(a: bytes, was: bytes, i: nat, carry: nat)
    requires |a| == |was| && i <= |a|
  {
    a[..i] == was[..i] && BigEndian(a[i..]) + carry * Pow256(|a| - i) == 10 * BigEndian(was[i..])
  }

  lemma ProductStarts(a: bytes, i: nat)
    requires i <= |a| && forall j :: i <= j < |a| ==> a[j] == 0
    ensures ProductDone(a, a, i, 0)
  {
    ZerosAreZero(a[i..]);
  }

  lemma ProductStep(a: bytes, was: bytes, i: nat, carry: nat, x: byte, y: nat)
    requires |a| == |was| && i < |a| && ProductDone(a, was, i + 1, carry) && a[i] * 10 + carry == 256 * y + x
    ensures ProductDone(a[i := x], was, i, y)
  {
    var p := Pow256(|a| - i - 1);
    assert Pow256(|a| - i) == 256 * p;
    SplitSeq(a[i := x], i);
    SplitSeq(was, i);
    assert a[i] == was[i] by {
      assert a[..i + 1][i] == was[..i + 1][i];
    }
    assert a[i := x][i + 1..] == a[i + 1..];
    assert a[i := x][..i] == a[..i + 1][..i] == was[..i + 1][..i] == was[..i];
    hide BigEndian, Pow256;
    Column(0, was[i], 10, carry, x, y, p, BigEndian(a[i + 1..]), 0, BigEndian(was[i + 1..]));
  }

  /** A new leading digit takes what it can of the carry. */
  lemma ProductGrows(a: bytes, i: nat, carry: nat, x: byte, y: nat)
    requires i < |a| && carry == 256 * y + x
    ensures BigEndian(a[i := x][i..]) + y * Pow256(|a| - i) == BigEndian(a[i + 1..]) + carry * Pow256(|a| - i - 1)
  {
    var p := Pow256(|a| - i - 1);
    assert Pow256(|a| - i) == 256 * p;
    SplitSeq(a[i := x], i);
    assert a[i := x][i + 1..] == a[i + 1..];
    hide BigEndian, Pow256;
    Column(0, 0, 10, carry, x, y, p, BigEndian(a[i + 1..]), BigEndian(a[i + 1..]) + carry * p, 0);
  }

  predicate ZerosAfter(a: bytes, max: int) { forall j :: 0 <= j < |a| && j > max ==> a[j] == 0 }

  /** What follows the part that is worked on does not count. */
  method TimesTen(multi: array<byte>, multiPos: nat, multiMax: nat) returns (ok: bool, pos: nat, max: nat)
    requires multiPos <= multiMax < multi.Length && ZerosAfter(multi[..], multiMax)
    requires BigEndian(multi[multiPos..]) > 0
    modifies multi
    ensures ok <==> 10 * BigEndian(old(multi[multiPos..])) < Pow256(multi.Length)
    ensures ok ==> pos <= max < multi.Length && ZerosAfter(multi[..], max)
    ensures ok ==> BigEndian(multi[pos..]) == 10 * BigEndian(old(multi[multiPos..]))
  {
    hide ProductDone, BigEndian, Pow256;
    ghost var was := multi[..];
    var carry: nat, i: nat := 0, multiMax + 1;
    pos, max := multiPos, multiMax;
    ProductStarts(was, i);
    while i > multiPos
      invariant multiPos <= i <= multiMax + 1 && carry <= 9
      invariant ProductDone(multi[..], was, i, carry) && multi[i..] == multi[..][i..] && ZerosAfter(multi[..], multiMax)
    {
      i := i - 1;
      var result := multi[i] * 10 + carry;
      ghost var before, x: byte := multi[..], result % 256;
      ProductStep(before, was, i, carry, x, result / 256);
      multi[i] := result % 256;
      assert multi[..] == before[i := x];
      carry := result / 256;
    }
    ProductSoFar(multi[..], was, i, carry);
    assert was[multiPos..] == old(multi[multiPos..]);
    while carry > 0
      invariant pos == i <= multiPos && carry <= 9 && ZerosAfter(multi[..], multiMax)
      invariant BigEndian(multi[..][i..]) + carry * Pow256(multi.Length - i) == 10 * BigEndian(was[multiPos..])
      decreases carry
    {
      if i == 0 {
        AtLeastOnce(carry, Pow256(multi.Length));
        ok := false;
        return;
      }
      i := i - 1;
      ghost var before, x: byte := multi[..], carry % 256;
      ProductGrows(before, i, carry, x, carry / 256);
      multi[i] := carry % 256;
      assert multi[..] == before[i := x];
      carry := carry / 256;
      pos := pos - 1;
    }
    assert multi[pos..] == multi[..][pos..];
    BigEndianBound(multi[pos..]);
    Pow256Grows(multi.Length - pos, multi.Length);
    max := TrimMax(multi, pos, multiMax);
    ok := true;
  }

  lemma ProductSoFar(a: bytes, was: bytes, i: nat, carry: nat)
    requires |a| == |was| && i <= |a| && ProductDone(a, was, i, carry)
    ensures BigEndian(a[i..]) + carry * Pow256(|a| - i) == 10 * BigEndian(was[i..])
  {
  }

  lemma {:induction false} Pow256Grows(j: nat, k: nat)
    requires j <= k
    ensures Pow256(j) <= Pow256(k)
  {
    if j < k {
      Pow256Grows(j, k - 1);
    }
  }

  /** Trailing zeros need not be looked at again. */
  method TrimMax(multi: array<byte>, pos: nat, multiMax: nat) returns (max: nat)
    requires pos <= multiMax < multi.Length && ZerosAfter(multi[..], multiMax) && BigEndian(multi[pos..]) > 0
    ensures pos <= max < multi.Length && ZerosAfter(multi[..], max)
  {
    hide BigEndian;
    max := multiMax;
    while multi[max] == 0
      invariant pos <= max < multi.Length && ZerosAfter(multi[..], max)
      decreases max
    {
      if max == pos {
        ZerosAreZero(multi[pos..]);
      }
      max := max - 1;
    }
  }

  // ----- A decimal string to binary -----

  /** Enough base-256 digits for most numbers of `len` decimal digits: a little over log(10) / log(256) each. */
  function OutMax(len: nat): (n: nat)
    ensures n > 0
  {
    415241 * len / 1000000 + 1
  }

  /**
   `decode_dec_str`. There is no result exactly if 10^digits does not fit the arrays; otherwise it is
   the minimal binary form of the number.
   */
  method DecodeDecStr(s: bytes) returns (r: Option<bytes>)
    ensures r.None? <==> Pow10(DigitCount(s)) >= Pow256(OutMax(|s|))
    ensures r.Some? ==> BigEndian(r.value) == NumberOf(s) && Minimal(r.value)
  {
    hide BigEndian, Pow256, Pow10, OutMax, NumberOf, DigitCount;
    var outMax := OutMax(|s|);
    var out := new byte[outMax](_ => 0);
    var multi := new byte[outMax];
    var multiPos: nat, multiMax: nat := outMax - 1, outMax - 1;
    multi[multiPos] := 1;
    StartValues(out[..], multi[..], outMax - 1, s);
    var inPos: nat := |s|;
    while inPos > 0
      invariant 0 <= inPos <= |s| && multiPos <= multiMax < outMax && ZerosAfter(multi[..], multiMax)
      invariant BigEndian(out[..]) == NumberOf(s[inPos..]) && BigEndian(multi[multiPos..]) == Pow10(DigitCount(s[inPos..]))
      invariant Pow10(DigitCount(s[inPos..])) < Pow256(outMax)
    {
      inPos := inPos - 1;
      NextDigit(s, inPos);
      CountMonotonic(s, inPos);
      Pow10Grows(DigitCount(s[inPos..]), DigitCount(s));
      NumberBound(s[inPos..]);
      if IsDigit(s[inPos]) {
        var n := s[inPos] - ZERO;
        if n > 0 {
          var ok := AddMultiple(out, multi, multiPos, n);
          if !ok {
            return None;
          }
        }
        var fits;
        fits, multiPos, multiMax := TimesTen(multi, multiPos, multiMax);
        if !fits {
          return None;
        }
      }
    }
    assert s[0..] == s;
    var i := 0;
    while i < outMax && out[i] == 0
      invariant i <= outMax && forall j :: 0 <= j < i ==> out[j] == 0
    {
      i := i + 1;
    }
    LeadingZeros(out[..], i);
    assert out[i..] == out[..][i..];
    r := Some(out[i..]);
  }

  lemma StartValues(out: bytes, multi: bytes, pos: nat, s: bytes)
    requires |out| == |multi| == pos + 1 && multi[pos] == 1 && forall j :: 0 <= j < |out| ==> out[j] == 0
    ensures BigEndian(out) == NumberOf(s[|s|..]) && BigEndian(multi[pos..]) == Pow10(DigitCount(s[|s|..]))
    ensures Pow10(DigitCount(s[|s|..])) < Pow256(|out|)
  {
    ZerosAreZero(out);
    assert multi[pos..] == [1] && [1 as byte][..0] == [];
    assert BigEndian([1]) == BigEndian([]) * 256 + 1;
    assert s[|s|..] == [];
    Pow256Grows(1, |out|);
    assert Pow256(1) == 256;
  }

  lemma NextDigit(s: bytes, i: nat)
    requires i < |s|
    ensures var d := IsDigit(s[i]);
            && NumberOf(s[i..]) == NumberOf(s[i + 1..]) + (if d then (s[i] - ZERO) * Pow10(DigitCount(s[i + 1..])) else 0)
            && Pow10(DigitCount(s[i..])) == if d then 10 * Pow10(DigitCount(s[i + 1..])) else Pow10(DigitCount(s[i + 1..]))
  {
    assert s[i..][1..] == s[i + 1..];
  }

  // ----- Subtracting one -----

  /** `bin_int_sub1`: one less, in place, and still minimal. */
  method BinIntSub1(s: array<byte>) returns (r: bytes)
    requires s.Length > 0 && s[0] != 0
    modifies s
    ensures BigEndian(r) == BigEndian(old(s[..])) - 1 && Minimal(r)
  {
    hide BigEndian, Pow256;
    ghost var was := s[..];
    var i: nat := s.Length;
    BorrowStarts(was);
    while true
      invariant 0 < i <= s.Length && s[..i] == was[..i] && s[0] == was[0]
      invariant BigEndian(s[..][i..]) + 1 == BigEndian(was[i..]) + Pow256(s.Length - i)
      invariant forall j :: i <= j < s.Length ==> s[j] == 0xff
      decreases i
    {
      i := i - 1;
      ghost var before := s[..];
      BorrowStep(before, was, i);
      if s[i] == 0 {
        s[i] := 0xff;
        assert s[..] == before[i := 0xff];
      } else {
        ghost var x: byte := s[i] - 1;
        s[i] := s[i] - 1;
        assert s[..] == before[i := x];
        break;
      }
    }
    if i == 0 && s[0] == 0 {
      SplitSeq(s[..], 0);
      assert s[..][0..] == s[..] && s[..][1..] == s[1..];
      r := s[1..];
    } else {
      r := s[..];
    }
  }

  lemma BorrowStarts(s: bytes)
    ensures BigEndian(s[|s|..]) + 1 == BigEndian(s[|s|..]) + Pow256(0)
  {
  }

  /** A borrow turns a zero digit into 255 and goes on; any other digit takes it. */
  lemma BorrowStep(s: bytes, was: bytes, i: nat)
    requires |s| == |was| && i < |s| && s[..i + 1] == was[..i + 1]
    requires BigEndian(s[i + 1..]) + 1 == BigEndian(was[i + 1..]) + Pow256(|s| - i - 1)
    ensures s[i] == was[i]
    ensures s[i] == 0 ==> BigEndian(s[i := 0xff][i..]) + 1 == BigEndian(was[i..]) + Pow256(|s| - i)
    ensures s[i] > 0 ==> BigEndian(s[i := s[i] - 1]) + 1 == BigEndian(was)
  {
    var p := Pow256(|s| - i - 1);
    assert Pow256(|s| - i) == 256 * p;
    assert s[..i + 1][i] == was[..i + 1][i];
    hide BigEndian, Pow256;
    SplitSeq(was, i);
    if s[i] == 0 {
      SplitSeq(s[i := 0xff], i);
      assert s[i := 0xff][i + 1..] == s[i + 1..];
    } else {
      BorrowTaken(s, was, i);
    }
  }

  lemma BorrowTaken(s: bytes, was: bytes, i: nat)
    requires |s| == |was| && i < |s| && s[..i + 1] == was[..i + 1] && s[i] > 0
    requires BigEndian(s[i + 1..]) + 1 == BigEndian(was[i + 1..]) + Pow256(|s| - i - 1)
    ensures BigEndian(s[i := s[i] - 1]) + 1 == BigEndian(was)
  {
    hide BigEndian, Pow256;
    var x: byte := s[i] - 1;
    var t := s[i := x];
    assert s[..i + 1][i] == was[..i + 1][i];
    assert t[i + 1..] == s[i + 1..];
    assert t[..i] == s[..i + 1][..i] == was[..i + 1][..i] == was[..i];
    SplitSeq(t, i);
    SplitSeq(was, i);
    SameFront(t, was, i);
    OneLess(s[i], Pow256(|s| - i - 1));
  }

  lemma OneLess(d: nat, p: nat)
    requires d > 0
    ensures (d - 1) * p + p == d * p
  {
  }
}
