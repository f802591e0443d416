/** Octets and big-endian numbers. */
module Bytes {
  type byte = b: int | 0 <= b < 256
  type bytes = seq<byte>

  type uint16 = n: nat | n < 0x1_0000
  type uint32 = n: nat | n < 0x1_0000_0000
  type uint64 = n: nat | n < 0x1_0000_0000_0000_0000

  function Max(a: int, b: int): int { if a < b then b else a }

  lemma EmptyConcat<T>(s: seq<T>)
    ensures [] + s == s
  {
  }

  lemma DropConcat<T>(a: seq<T>, b: seq<T>)
    ensures (a + b)[|a|..] == b
  {
  }

  lemma SuffixConcat<T>(a: seq<T>, b: seq<T>, i: nat)
    requires i <= |a|
    ensures (a + b)[i..] == a[i..] + b
  {
  }

  lemma Concat<T>(a: seq<T>, b: seq<T>, c: seq<T>)
    ensures a + b + c == a + (b + c)
  {
  }

  lemma Concat4<T>(a: seq<T>, b: seq<T>, c: seq<T>, d: seq<T>)
    ensures a + b + c + d == a + (b + (c + d))
  {
  }

  /** One more than the largest `size_t`/`uint64_t`. */
  const UINT64_LIMIT := 0x1_0000_0000_0000_0000
  const UINT32_LIMIT := 0x1_0000_0000

  function Pow256(k: nat): (p: nat)
    ensures p > 0
  {
    if k == 0 then 1 else 256 * Pow256(k - 1)
  }

  /** The number a big-endian byte string stands for. */
  function BigEndian(s: bytes): nat {
    if s == [] then 0 else BigEndian(s[..|s| - 1]) * 256 + s[|s| - 1]
  }

  /** The `k` low-order bytes of `n`, most significant first. */
  function ToBigEndian(n: nat, k: nat): (s: bytes)
    ensures |s| == k
  {
    if k == 0 then [] else ToBigEndian(n / 256, k - 1) + [n % 256]
  }

  lemma {:induction false} BigEndianRoundTrip(n: nat, k: nat)
    requires n < Pow256(k)
    ensures BigEndian(ToBigEndian(n, k)) == n
  {
    if k > 0 {
      BigEndianRoundTrip(n / 256, k - 1);
      assert ToBigEndian(n, k)[..k - 1] == ToBigEndian(n / 256, k - 1);
    }
  }

  lemma {:induction false} BigEndianBound(s: bytes)
    ensures BigEndian(s) < Pow256(|s|)
  {
    if s != [] {
      BigEndianBound(s[..|s| - 1]);
    }
  }

  lemma {:induction false} ToBigEndianOf(s: bytes)
    ensures ToBigEndian(BigEndian(s), |s|) == s
  {
    if s != [] {
      ToBigEndianOf(s[..|s| - 1]);
      assert s == s[..|s| - 1] + [s[|s| - 1]];
    }
  }

  lemma Pow256Values()
    ensures Pow256(1) == 0x100 && Pow256(2) == 0x1_0000
    ensures Pow256(4) == UINT32_LIMIT && Pow256(8) == UINT64_LIMIT
  {
    assert Pow256(3) == 0x100_0000;
    assert Pow256(5) == 0x100_0000_0000;
    assert Pow256(6) == 0x1_0000_0000_0000;
  }

  lemma DivDiv(n: nat, a: nat, b: nat)
    requires a > 0 && b > 0
    ensures a * b > 0 && n / a / b == n / (a * b)
  {
    var x, y := n / a, n % a;
    var q, r := x / b, x % b;
    var rest: nat := Remainder(n, a, b, x, y, q, r, a * b);
    DivUnique(n, a * b, q, rest);
  }

  lemma Remainder(n: nat, a: nat, b: nat, x: nat, y: nat, q: nat, r: nat, d: nat) returns (rest: nat)
    requires n == x * a + y && y < a && x == q * b + r && r < b && d == a * b
    ensures n == q * d + rest && rest < d
  {
    ProductParts(q, b, r, a);
    ProductBelow(r, b, a);
    rest := r * a + y;
  }

  lemma ProductParts(q: nat, b: nat, r: nat, a: nat)
    ensures (q * b + r) * a == q * (a * b) + r * a
  {
    assert q * b * a == q * (a * b);
  }

  lemma ProductBelow(r: nat, b: nat, a: nat)
    requires r < b
    ensures r * a + a <= a * b
  {
    assert (r + 1) * a <= b * a;
  }

  lemma DivUnique(n: nat, d: nat, q: nat, r: nat)
    requires r < d && n == q * d + r
    ensures n / d == q
  {
    var e: int := n / d - q;
    assert e * d + n % d == r;
    assert e > 0 ==> e * d >= d;
    assert e < 0 ==> e * d + d <= 0;
  }

  lemma BigEndian2(n: nat)
    ensures ToBigEndian(n, 1) == [n % 0x100]
    ensures ToBigEndian(n, 2) == [n / 0x100 % 0x100, n % 0x100]
  {
    assert ToBigEndian(n / 0x100, 1) == [n / 0x100 % 0x100];
  }

  /** The bytes of a 32-bit number by shifts. */
  lemma BigEndian4(n: nat)
    ensures ToBigEndian(n, 4) == [n / 0x100_0000 % 0x100, n / 0x1_0000 % 0x100, n / 0x100 % 0x100, n % 0x100]
  {
    var a, b, c := n / 0x100, n / 0x1_0000, n / 0x100_0000;
    DivDiv(n, 0x100, 0x100);
    DivDiv(n, 0x1_0000, 0x100);
    assert ToBigEndian(c, 1) == [c % 0x100];
    assert ToBigEndian(b, 2) == [c % 0x100, b % 0x100];
    assert ToBigEndian(a, 3) == [c % 0x100, b % 0x100, a % 0x100];
  }

  /** The bytes of a 64-bit number by shifts. */
  lemma BigEndian8(n: nat)
    ensures ToBigEndian(n, 8) ==
            [n / 0x100_0000_0000_0000 % 0x100, n / 0x1_0000_0000_0000 % 0x100, n / 0x100_0000_0000 % 0x100,
             n / 0x1_0000_0000 % 0x100, n / 0x100_0000 % 0x100, n / 0x1_0000 % 0x100, n / 0x100 % 0x100, n % 0x100]
  {
    var m := n / 0x1_0000_0000;
    BigEndian4(m);
    DivDiv(n, 0x1_0000_0000, 0x100);
    DivDiv(n, 0x1_0000_0000, 0x1_0000);
    DivDiv(n, 0x1_0000_0000, 0x100_0000);
    ToBigEndianStep(n, 0x100_0000, 4);
    ToBigEndianStep(n, 0x1_0000, 5);
    ToBigEndianStep(n, 0x100, 6);
    ToBigEndianStep(n, 1, 7);
    hide ToBigEndian;
  }

  lemma ToBigEndianStep(n: nat, d: nat, k: nat)
    requires d > 0
    ensures ToBigEndian(n / d, k + 1) == ToBigEndian(n / (d * 256), k) + [n / d % 256]
  {
    DivDiv(n, d, 256);
  }
}
