/**
 UTF-8 as utf8.c recognises it with a table-driven automaton, against the syntax of section 4
 of RFC 3629.
 */
module Utf8 {
  import opened Bytes
  import opened Wrappers

  // ----- RFC 3629, section 4 -----

  predicate Tail(b: byte) { 0x80 <= b <= 0xbf }

  /** Length of the well-formed character `s` starts with; 0 when there is none. */
  function CharLen(s: bytes): (n: nat)
    ensures n <= |s| && n <= 4
  {
    if s == [] then 0
    else if s[0] <= 0x7f then 1
    else if |s| >= 2 && 0xc2 <= s[0] <= 0xdf && Tail(s[1]) then 2
    else if |s| >= 3 && Lead3(s[0], s[1]) && Tail(s[2]) then 3
    else if |s| >= 4 && Lead4(s[0], s[1]) && Tail(s[2]) && Tail(s[3]) then 4
    else 0
  }

  predicate Lead3(a: byte, b: byte) {
    || (a == 0xe0 && 0xa0 <= b <= 0xbf)
    || (0xe1 <= a <= 0xec && Tail(b))
    || (a == 0xed && 0x80 <= b <= 0x9f)
    || (0xee <= a <= 0xef && Tail(b))
  }

  predicate Lead4(a: byte, b: byte) {
    || (a == 0xf0 && 0x90 <= b <= 0xbf)
    || (0xf1 <= a <= 0xf3 && Tail(b))
    || (a == 0xf4 && 0x80 <= b <= 0x8f)
  }

  /** Well-formed UTF-8: a sequence of well-formed characters. */
  predicate Valid(s: bytes) {
    s == [] || (CharLen(s) > 0 && Valid(s[CharLen(s)..]))
  }

  lemma FirstCharacter(s: bytes, t: bytes)
    requires CharLen(s) > 0
    ensures CharLen(s + t) == CharLen(s) && (s + t)[CharLen(s)..] == s[CharLen(s)..] + t
  {
  }

  lemma {:induction false} ValidConcat(s: bytes, t: bytes)
    requires Valid(s) && Valid(t)
    ensures Valid(s + t)
    decreases |s|
  {
    hide CharLen;
    if s == [] {
      EmptyConcat(t);
    } else {
      FirstCharacter(s, t);
      ValidConcat(s[CharLen(s)..], t);
    }
  }

  predicate IsScalar(cp: nat) { cp < 0xd800 || 0xe000 <= cp <= 0x10ffff }

  /** The encoding of a Unicode scalar value (section 3 of RFC 3629). */
  function Encode(cp: nat): (s: bytes)
    requires IsScalar(cp)
  {
    if cp <= 0x7f then [cp]
    else if cp <= 0x7ff then [0xc0 + cp / 64, 0x80 + cp % 64]
    else if cp <= 0xffff then [0xe0 + cp / 64 / 64, 0x80 + cp / 64 % 64, 0x80 + cp % 64]
    else [0xf0 + cp / 64 / 64 / 64, 0x80 + cp / 64 / 64 % 64, 0x80 + cp / 64 % 64, 0x80 + cp % 64]
  }

  // ----- The automaton -----

  const ACCEPT: nat := 0
  const REJECT: nat := 12

  /** First part of the table: byte to character class, 32 bytes a row. */
  const CLASSES: seq<seq<nat>> := [ROW_0, ROW_0, ROW_0, ROW_0, ROW_8, ROW_A, ROW_C, ROW_E]

  const ROW_0: seq<nat> := [0,0,0,0,0,0,0,0,0,0,0,0,0,0,0,0, 0,0,0,0,0,0,0,0,0,0,0,0,0,0,0,0]
  const ROW_8: seq<nat> := [1,1,1,1,1,1,1,1,1,1,1,1,1,1,1,1, 9,9,9,9,9,9,9,9,9,9,9,9,9,9,9,9]
  const ROW_A: seq<nat> := [7,7,7,7,7,7,7,7,7,7,7,7,7,7,7,7, 7,7,7,7,7,7,7,7,7,7,7,7,7,7,7,7]
  const ROW_C: seq<nat> := [8,8,2,2,2,2,2,2,2,2,2,2,2,2,2,2, 2,2,2,2,2,2,2,2,2,2,2,2,2,2,2,2]
  const ROW_E: seq<nat> := [10,3,3,3,3,3,3,3,3,3,3,3,3,4,3,3, 11,6,6,6,5,8,8,8,8,8,8,8,8,8,8,8]

  /** Second part of the table: state (a multiple of 12) and class to state, 12 classes a row. */
  const TRANSITIONS: seq<seq<nat>> := [
    [0,12,24,36,60,96,84,12,12,12,48,72],
    [12,12,12,12,12,12,12,12,12,12,12,12],
    [12,0,12,12,12,12,12,0,12,0,12,12],
    [12,24,12,12,12,12,12,24,12,24,12,12],
    [12,12,12,12,12,12,12,24,12,12,12,12],
    [12,24,12,12,12,12,12,12,12,24,12,12],
    [12,12,12,12,12,12,12,36,12,36,12,12],
    [12,36,12,12,12,12,12,36,12,36,12,12],
    [12,36,12,12,12,12,12,12,12,12,12,12]]

  /** Entry `i` of the table. */
  function Utf8d(i: nat): nat
    requires i < 364
  {
    if i < 256 then CLASSES[i / 32][i % 32] else TRANSITIONS[(i - 256) / 12][(i - 256) % 12]
  }

  predicate IsState(q: nat) { q % 12 == 0 && q <= 96 }

  function ClassRule(b: byte): (c: nat)
    ensures c < 12
  {
    if b < 0x80 then 0
    else if b < 0x90 then 1
    else if b < 0xa0 then 9
    else if b < 0xc0 then 7
    else if b < 0xc2 then 8
    else if b < 0xe0 then 2
    else if b == 0xe0 then 10
    else if b == 0xed then 4
    else if b < 0xf0 then 3
    else if b == 0xf0 then 11
    else if b < 0xf4 then 6
    else if b == 0xf4 then 5
    else 8
  }

  function TransitionRule(q: nat, c: nat): (r: nat)
    requires IsState(q) && c < 12
    ensures IsState(r)
  {
    var any := c == 1 || c == 7 || c == 9;
    if q == 0 then
      if c == 0 then 0 else if c == 2 then 24 else if c == 3 then 36 else if c == 4 then 60
      else if c == 5 then 96 else if c == 6 then 84 else if c == 10 then 48 else if c == 11 then 72 else 12
    else if q == 24 then if any then 0 else 12
    else if q == 36 then if any then 24 else 12
    else if q == 48 then if c == 7 then 24 else 12
    else if q == 60 then if c == 1 || c == 9 then 24 else 12
    else if q == 72 then if c == 7 || c == 9 then 36 else 12
    else if q == 84 then if any then 36 else 12
    else if q == 96 then if c == 1 then 36 else 12
    else 12
  }

  lemma RowsBelowE(j: nat)
    requires j < 32
    ensures ROW_0[j] == 0 && ROW_8[j] == (if j < 16 then 1 else 9)
    ensures ROW_A[j] == 7 && ROW_C[j] == if j < 2 then 8 else 2
  {
  }

  lemma RowE(j: nat)
    requires j < 32
    ensures ROW_E[j] == ClassRule(0xe0 + j)
  {
  }

  lemma ClassOf(b: byte)
    ensures Utf8d(b) == ClassRule(b)
  {
    var row, j := b / 32, b % 32;
    assert b == 32 * row + j && Utf8d(b) == CLASSES[row][j];
    RowsBelowE(j);
    if row == 7 {
      RowE(j);
    }
  }

  lemma TransitionOf(q: nat, c: nat)
    requires IsState(q) && c < 12
    ensures Utf8d(256 + q + c) == TransitionRule(q, c)
  {
    assert (q + c) / 12 == q / 12 && (q + c) % 12 == c;
  }

  lemma RulesAreAutomaton(q: nat, b: byte)
    requires IsState(q)
    ensures TransitionRule(q, ClassRule(b)) == Next(q, b)
  {
  }

  /** The automaton: what each state still expects; every other byte rejects. */
  function Next(q: nat, b: byte): (r: nat)
    requires IsState(q)
    ensures IsState(r)
  {
    if q == ACCEPT then
      if b < 0x80 then ACCEPT
      else if 0xc2 <= b <= 0xdf then 24
      else if b == 0xe0 then 48
      else if b == 0xed then 60
      else if 0xe1 <= b <= 0xef then 36
      else if b == 0xf0 then 72
      else if 0xf1 <= b <= 0xf3 then 84
      else if b == 0xf4 then 96
      else REJECT
    else if q == 24 then if Tail(b) then ACCEPT else REJECT
    else if q == 36 then if Tail(b) then 24 else REJECT
    else if q == 48 then if 0xa0 <= b <= 0xbf then 24 else REJECT
    else if q == 60 then if 0x80 <= b <= 0x9f then 24 else REJECT
    else if q == 72 then if 0x90 <= b <= 0xbf then 36 else REJECT
    else if q == 84 then if Tail(b) then 36 else REJECT
    else if q == 96 then if 0x80 <= b <= 0x8f then 36 else REJECT
    else REJECT
  }

  /** The table is this automaton. */
  lemma TableIsAutomaton(q: nat, b: byte)
    requires IsState(q)
    ensures Utf8d(b) < 12 && Utf8d(256 + q + Utf8d(b)) == Next(q, b)
  {
    ClassOf(b);
    TransitionOf(q, ClassRule(b));
    RulesAreAutomaton(q, b);
  }

  /** The state after running over all of `s`. */
  function Run(q: nat, s: bytes): (r: nat)
    requires IsState(q)
    ensures IsState(r)
    decreases |s|
  {
    if s == [] then q else Run(Next(q, s[0]), s[1..])
  }

  /** Rejecting is absorbing, so running on to the end changes nothing. */
  lemma {:induction false} RejectIsAbsorbing(s: bytes)
    ensures Run(REJECT, s) == REJECT
  {
    if s != [] {
      RejectIsAbsorbing(s[1..]);
    }
  }

  lemma {:induction false} RunAppend(q: nat, s: bytes, b: byte)
    requires IsState(q)
    ensures Run(q, s + [b]) == Next(Run(q, s), b)
    decreases |s|
  {
    if s == [] {
      assert [b][1..] == [];
    } else {
      assert (s + [b])[1..] == s[1..] + [b];
      RunAppend(Next(q, s[0]), s[1..], b);
    }
  }

  /** Is `s` the end of a well-formed string of which the bytes that led to state `q` were read? */
  predicate Expects(q: nat, s: bytes)
    decreases q
  {
    if q == ACCEPT then Valid(s)
    else if s == [] then false
    else if q == 24 then Tail(s[0]) && Valid(s[1..])
    else if q == 36 then Tail(s[0]) && Expects(24, s[1..])
    else if q == 48 then 0xa0 <= s[0] <= 0xbf && Expects(24, s[1..])
    else if q == 60 then 0x80 <= s[0] <= 0x9f && Expects(24, s[1..])
    else if q == 72 then 0x90 <= s[0] <= 0xbf && Expects(36, s[1..])
    else if q == 84 then Tail(s[0]) && Expects(36, s[1..])
    else if q == 96 then 0x80 <= s[0] <= 0x8f && Expects(36, s[1..])
    else false
  }

  lemma ValidByFirstByte(s: bytes)
    requires s != []
    ensures Valid(s) <==> Expects(Next(ACCEPT, s[0]), s[1..])
  {
    assert |s| >= 2 ==> s[1..][1..] == s[2..];
    assert |s| >= 3 ==> s[2..][1..] == s[3..];
    assert |s| >= 4 ==> s[3..][1..] == s[4..];
  }

  lemma {:induction false} RunMeansExpects(q: nat, s: bytes)
    requires IsState(q)
    ensures Run(q, s) == ACCEPT <==> Expects(q, s)
    decreases |s|
  {
    if s != [] {
      RunMeansExpects(Next(q, s[0]), s[1..]);
      if q == ACCEPT {
        ValidByFirstByte(s);
      }
    }
  }

  /** Accepts exactly well-formed UTF-8; a run of ASCII is skipped before the automaton starts. */
  method IsUtf8(s: bytes) returns (ok: bool)
    ensures ok <==> Valid(s)
  {
    var state, i := ACCEPT, 0;
    while i < |s| && s[i] < 0x80
      invariant i <= |s| && Run(ACCEPT, s[..i]) == ACCEPT
    {
      assert s[..i + 1] == s[..i] + [s[i]];
      RunAppend(ACCEPT, s[..i], s[i]);
      i := i + 1;
    }
    while i < |s|
      invariant i <= |s| && IsState(state) && Run(ACCEPT, s[..i]) == state
    {
      assert s[..i + 1] == s[..i] + [s[i]];
      RunAppend(ACCEPT, s[..i], s[i]);
      TableIsAutomaton(state, s[i]);
      var kind := Utf8d(s[i]);
      state := Utf8d(256 + state + kind);
      i := i + 1;
    }
    assert s[..i] == s;
    RunMeansExpects(ACCEPT, s);
    ok := state == ACCEPT;
  }

  // ----- Reading one character -----

  const INVALID: nat := 0xffff_ffff

  /** The value of the low-order bits of `b` below `m`, a power of two. */
  function Low(b: nat, m: nat): nat
    requires m > 0
  {
    b % m
  }

  /** The scalar value of the well-formed character that `s` starts with. */
  function Scalar(s: bytes): (cp: nat)
    requires CharLen(s) > 0
  {
    match CharLen(s)
    case 1 => s[0]
    case 2 => Low(s[0], 64) * 64 + Low(s[1], 64)
    case 3 => (Low(s[0], 16) * 64 + Low(s[1], 64)) * 64 + Low(s[2], 64)
    case 4 => ((Low(s[0], 8) * 64 + Low(s[1], 64)) * 64 + Low(s[2], 64)) * 64 + Low(s[3], 64)
  }

  lemma Scalar2(s: bytes)
    requires CharLen(s) == 2
    ensures 0x80 <= Scalar(s) <= 0x7ff && Encode(Scalar(s)) == s[..2]
  {
    Shift6(Low(s[0], 64), Low(s[1], 64));
    assert s[0] == 0xc0 + Low(s[0], 64) && s[1] == 0x80 + Low(s[1], 64);
  }

  lemma Scalar3(s: bytes)
    requires CharLen(s) == 3
    ensures 0x800 <= Scalar(s) <= 0xffff && IsScalar(Scalar(s)) && Encode(Scalar(s)) == s[..3]
  {
    Shift6(Low(s[0], 16) * 64 + Low(s[1], 64), Low(s[2], 64));
    Shift6(Low(s[0], 16), Low(s[1], 64));
    assert s[0] == 0xe0 + Low(s[0], 16) && s[1] == 0x80 + Low(s[1], 64) && s[2] == 0x80 + Low(s[2], 64);
  }

  lemma Scalar4(s: bytes)
    requires CharLen(s) == 4
    ensures 0x10000 <= Scalar(s) <= 0x10ffff && Encode(Scalar(s)) == s[..4]
  {
    Shift6((Low(s[0], 8) * 64 + Low(s[1], 64)) * 64 + Low(s[2], 64), Low(s[3], 64));
    Shift6(Low(s[0], 8) * 64 + Low(s[1], 64), Low(s[2], 64));
    Shift6(Low(s[0], 8), Low(s[1], 64));
    assert s[0] == 0xf0 + Low(s[0], 8) && s[1] == 0x80 + Low(s[1], 64);
    assert s[2] == 0x80 + Low(s[2], 64) && s[3] == 0x80 + Low(s[3], 64);
  }

  lemma Shift6(x: nat, c: nat)
    requires c < 64
    ensures (x * 64 + c) / 64 == x && (x * 64 + c) % 64 == c
  {
  }

  /** The value is a scalar value and encodes to exactly the bytes read. */
  lemma ScalarEncodes(s: bytes)
    requires CharLen(s) > 0
    ensures IsScalar(Scalar(s)) && Encode(Scalar(s)) == s[..CharLen(s)]
  {
    match CharLen(s) {
      case 2 => Scalar2(s);
      case 3 => Scalar3(s);
      case 4 => Scalar4(s);
      case _ =>
    }
  }

  /** `0xff >> kind` keeps the low `8 - kind` bits. */
  function LeadBits(kind: nat, b: byte): nat
    requires kind <= 11
  {
    Low(b, if kind <= 1 then 256 else if kind == 2 then 64 else if kind == 3 then 32 else if kind == 4 then 16
         else if kind == 5 then 8 else if kind == 6 then 4 else if kind == 7 then 2 else 1)
  }

  /**
   Reads the character at `start`: its scalar value and the position behind it, or INVALID
   and `start` itself when there is no well-formed character.
   */
  method NextUtf8(s: bytes, start: nat) returns (cp: nat, next: nat)
    requires start <= |s|
    ensures CharLen(s[start..]) > 0 ==> cp == Scalar(s[start..]) && next == start + CharLen(s[start..])
    ensures CharLen(s[start..]) == 0 ==> cp == INVALID && next == start
  {
    hide Reading, CharLen, Scalar, Utf8d;
    if start < |s| && s[start] < 0x80 {
      AsciiChar(s[start..]);
      return s[start], start + 1;
    }
    ReadingStarts(s[start..]);
    var state, codepoint: nat, i := ACCEPT, 0, start;
    while i < |s|
      invariant start <= i <= |s|
      invariant Reading(s[start..], i - start, state, codepoint)
    {
      var b := s[i];
      ReadingStep(s[start..], i - start, state, codepoint);
      TableIsAutomaton(state, b);
      i := i + 1;
      var kind := Utf8d(b);
      ClassOf(b);
      codepoint := if state != ACCEPT then Low(b, 64) + codepoint * 64 else LeadBits(kind, b);
      state := Utf8d(256 + state + kind);
      if state == REJECT {
        return INVALID, start;
      }
      if state == ACCEPT {
        return codepoint, i;
      }
    }
    ReadingEnds(s[start..], state, codepoint);
    return INVALID, start;
  }

  /** After `n` bytes of a character: the state says what was read and the bits are collected. */
  ghost predicate Reading(s: bytes, n: int, state: nat, codepoint: nat) {
    && 0 <= n <= |s| && n <= 3 && IsState(state) && (|s| > 0 ==> s[0] >= 0x80)
    && (n == 0 ==> state == ACCEPT)
    && (n == 1 ==> Reading1(s[0], state, codepoint))
    && (n == 2 ==>
          || (Lead3(s[0], s[1]) && state == 24 && codepoint == Low(s[0], 16) * 64 + Low(s[1], 64))
          || (Lead4(s[0], s[1]) && state == 36 && codepoint == Low(s[0], 8) * 64 + Low(s[1], 64)))
    && (n == 3 ==>
          && Lead4(s[0], s[1]) && Tail(s[2]) && state == 24
          && codepoint == (Low(s[0], 8) * 64 + Low(s[1], 64)) * 64 + Low(s[2], 64))
  }

  ghost predicate Reading1(b: byte, state: nat, codepoint: nat) {
    || (0xc2 <= b <= 0xdf && state == 24 && codepoint == Low(b, 64))
    || (b == 0xe0 && state == 48 && codepoint == 0)
    || (b == 0xed && state == 60 && codepoint == 13)
    || (0xe1 <= b <= 0xef && b != 0xed && state == 36 && codepoint == Low(b, 16))
    || (b == 0xf0 && state == 72 && codepoint == 0)
    || (0xf1 <= b <= 0xf3 && state == 84 && codepoint == Low(b, 8))
    || (b == 0xf4 && state == 96 && codepoint == 4)
  }

  lemma AsciiChar(s: bytes)
    requires s != [] && s[0] < 0x80
    ensures CharLen(s) == 1 && Scalar(s) == s[0]
  {
  }

  lemma ReadingStarts(s: bytes)
    requires s == [] || s[0] >= 0x80
    ensures Reading(s, 0, ACCEPT, 0)
  {
  }

  /** The string ends within the character. */
  lemma ReadingEnds(s: bytes, state: nat, codepoint: nat)
    requires Reading(s, |s|, state, codepoint)
    ensures CharLen(s) == 0
  {
  }

  lemma ReadingFirst(b: byte)
    requires 0x80 <= b && Next(ACCEPT, b) != REJECT
    ensures Reading1(b, Next(ACCEPT, b), LeadBits(ClassRule(b), b))
  {
  }

  lemma ReadingStep(s: bytes, n: nat, state: nat, codepoint: nat)
    requires n < |s| && Reading(s, n, state, codepoint)
    ensures IsState(state)
    ensures var r := Next(state, s[n]);
            var cp := if state != ACCEPT then Low(s[n], 64) + codepoint * 64 else LeadBits(ClassRule(s[n]), s[n]);
            if r == REJECT then CharLen(s) == 0
            else if r == ACCEPT then CharLen(s) == n + 1 && cp == Scalar(s)
            else Reading(s, n + 1, r, cp)
  {
    if n == 0 {
      if Next(ACCEPT, s[0]) != REJECT {
        ReadingFirst(s[0]);
      }
    } else if n == 1 {
    } else if n == 2 {
    }
  }

  /** What is left after reading characters one by one until none is well-formed. */
  function Rest(s: bytes): bytes {
    if CharLen(s) == 0 then s else Rest(s[CharLen(s)..])
  }

  /** Reading character by character consumes the whole string iff the automaton accepts it. */
  lemma {:induction false} CharacterwiseIffAccepted(s: bytes)
    ensures Rest(s) == [] <==> Run(ACCEPT, s) == ACCEPT
  {
    RunMeansExpects(ACCEPT, s);
    if CharLen(s) > 0 {
      RunMeansExpects(ACCEPT, s[CharLen(s)..]);
      CharacterwiseIffAccepted(s[CharLen(s)..]);
    }
  }

  /** Every encoded scalar value is one well-formed character, and reads back as itself. */
  lemma EncodeIsWellFormed(cp: nat, tail: bytes)
    requires IsScalar(cp)
    ensures CharLen(Encode(cp) + tail) == |Encode(cp)|
    ensures Scalar(Encode(cp) + tail) == cp
  {
    if cp <= 0x7ff {
      EncodeShort(cp, tail);
    } else if cp <= 0xffff {
      Encode3(cp, tail);
    } else {
      Encode4(cp, tail);
    }
  }

  lemma Encode3(cp: nat, tail: bytes)
    requires IsScalar(cp) && 0x7ff < cp <= 0xffff
    ensures CharLen(Encode(cp) + tail) == 3 && Scalar(Encode(cp) + tail) == cp
  {
    var x, y := cp / 64, cp / 64 / 64;
    assert cp == x * 64 + cp % 64 && x == y * 64 + x % 64;
    var s := Encode(cp) + tail;
    assert s[0] == 0xe0 + y && s[1] == 0x80 + x % 64 && s[2] == 0x80 + cp % 64;
    assert Lead3(s[0], s[1]);
    assert Low(s[0], 16) == y && Low(s[1], 64) == x % 64 && Low(s[2], 64) == cp % 64;
  }

  lemma Encode4(cp: nat, tail: bytes)
    requires IsScalar(cp) && 0xffff < cp
    ensures CharLen(Encode(cp) + tail) == 4 && Scalar(Encode(cp) + tail) == cp
  {
    var x, y, z := cp / 64, cp / 64 / 64, cp / 64 / 64 / 64;
    assert cp == x * 64 + cp % 64 && x == y * 64 + x % 64 && y == z * 64 + y % 64;
    var s := Encode(cp) + tail;
    assert s[0] == 0xf0 + z && s[1] == 0x80 + y % 64 && s[2] == 0x80 + x % 64 && s[3] == 0x80 + cp % 64;
    assert Lead4(s[0], s[1]);
    assert Low(s[0], 8) == z && Low(s[1], 64) == y % 64 && Low(s[2], 64) == x % 64 && Low(s[3], 64) == cp % 64;
  }

  lemma EncodeShort(cp: nat, tail: bytes)
    requires cp <= 0x7ff
    ensures CharLen(Encode(cp) + tail) == |Encode(cp)|
    ensures Scalar(Encode(cp) + tail) == cp
  {
  }
}
