/**
 How the diagnostic notation of decode_edn.h writes strings: text as "..." fragments with escapes, what is
 not valid UTF-8 and runs of control characters as h'...' fragments; byte strings as h'...' with spaces
 and line breaks. Reading the fragments back gives exactly the bytes of the string.
 */
module EdnStrings {
  import opened Bytes
  import opened Wrappers
  import Utf8

  const QUOTE: byte := 0x22
  const APOSTROPHE: byte := 0x27
  const BACKSLASH: byte := 0x5c
  const SPACE: byte := 0x20
  const TAB: byte := 0x09
  const NEWLINE: byte := 0x0a
  const LOWER_H: byte := 0x68
  const LOWER_U: byte := 0x75

  // ----- Characters -----

  function HexDigit(n: nat): byte
    requires n < 16
  {
    if n < 10 then 0x30 + n else 0x57 + n
  }

  function Hex(b: byte): bytes { [HexDigit(b / 16), HexDigit(b % 16)] }

  function Hex4(n: uint16): bytes {
    [HexDigit(n / 0x1000), HexDigit(n / 0x100 % 16), HexDigit(n / 0x10 % 16), HexDigit(n % 16)]
  }

  function HexAll(s: bytes): bytes { if s == [] then [] else Hex(s[0]) + HexAll(s[1..]) }

  predicate IsAsciiControl(b: byte) { b < 0x20 || b == 0x7f }

  /** The character after the backslash for those with a short escape sequence. */
  function Escape(b: byte): Option<byte> {
    if b == BACKSLASH || b == QUOTE then Some(b)
    else if b == 0x09 then Some(0x74)
    else if b == 0x0d then Some(0x72)
    else if b == 0x0c then Some(0x66)
    else if b == 0x0a then Some(0x6e)
    else if b == 0x08 then Some(0x62)
    else None
  }

  /** Scalar values that are written as \uXXXX: controls, and what changes the direction or line of text. */
  predicate IsHidden(cp: nat) {
    || 0x80 <= cp <= 0x9f || cp == 0x200e || cp == 0x200f || 0x202a <= cp <= 0x202e || 0x2066 <= cp <= 0x2069
    || cp == 0x2028 || cp == 0x2029 || cp == 0x061c
  }

  /** The bytes from 0xc0 on that follow an invalid one are written together with it. */
  function LeadRun(s: bytes): (n: nat)
    ensures n <= |s|
  {
    if s == [] || s[0] < 0xc0 then 0 else 1 + LeadRun(s[1..])
  }

  // ----- Writing -----

  function Sp(space: bool): bytes { if space then [SPACE] else [] }

  function ToText(space: bool, inText: bool): bytes { if inText then [] else [APOSTROPHE] + Sp(space) + [QUOTE] }

  function ToHex(space: bool, inText: bool): bytes {
    if inText then [QUOTE] + Sp(space) + [LOWER_H, APOSTROPHE] else []
  }

  /** What is written for the rest of a text string; `inText` tells which kind of fragment is open. */
  function TextRest(space: bool, s: bytes, inText: bool): (out: bytes)
    decreases |s|, if inText then 1 else 0
  {
    if s == [] then [if inText then QUOTE else APOSTROPHE]
    else if !inText && IsAsciiControl(s[0]) then Hex(s[0]) + TextRest(space, s[1..], false)
    else if Escape(s[0]).Some? then
      ToText(space, inText) + [BACKSLASH, Escape(s[0]).value] + TextRest(space, s[1..], true)
    else if IsAsciiControl(s[0]) then
      if |s| > 1 && IsAsciiControl(s[1]) then ToHex(space, inText) + TextRest(space, s, false)
      else [BACKSLASH, LOWER_U] + Hex4(s[0]) + TextRest(space, s[1..], true)
    else
      var n := Utf8.CharLen(s);
      if n == 0 then
        var k := 1 + LeadRun(s[1..]);
        ToHex(space, inText) + HexAll(s[..k]) + TextRest(space, s[k..], false)
      else ToText(space, inText) + CharText(s) + TextRest(space, s[n..], true)
  }

  /** The character at the start of `s`. */
  function CharText(s: bytes): bytes
    requires Utf8.CharLen(s) > 0
  {
    var cp := Utf8.Scalar(s);
    if IsHidden(cp) then [BACKSLASH, LOWER_U] + Hex4(cp) else s[..Utf8.CharLen(s)]
  }

  function TextBody(space: bool, s: bytes): bytes { [QUOTE] + TextRest(space, s, true) }

  /**
   Number of spaces in front of byte `offset` of a fragment: one for each group size, a power of two up
   to 32, that ends there.
   */
  function SpaceCount(byteSpace: nat, offset: nat, bm: nat): nat
    requires bm > 0
    decreases 64 - bm
  {
    if bm > 32 then 0
    else (if byteSpace / bm % 2 == 1 && offset % bm == 0 then 1 else 0) + SpaceCount(byteSpace, offset, 2 * bm)
  }

  /** There are never more spaces than the eight that are at hand. */
  lemma AtMostSixSpaces(byteSpace: nat, offset: nat)
    ensures SpaceCount(byteSpace, offset, 1) <= 6
  {
    assert SpaceCount(byteSpace, offset, 64) == 0;
    assert SpaceCount(byteSpace, offset, 16) <= 2;
    assert SpaceCount(byteSpace, offset, 8) <= 3;
    assert SpaceCount(byteSpace, offset, 4) <= 4;
    assert SpaceCount(byteSpace, offset, 2) <= 5;
  }

  function Spaces(n: nat): bytes { seq(n, _ => SPACE) }

  /** How byte strings are spaced and wrapped; `nl` is the line break between fragments. */
  datatype Spacing = Spacing(byteSpace: nat, wrap: nat, nl: bytes)

  /** What is written in front of the byte at `offset` of a fragment. */
  function Gap(sp: Spacing, offset: nat): bytes {
    if sp.wrap > 0 && offset == sp.wrap then [APOSTROPHE] + sp.nl + [LOWER_H, APOSTROPHE]
    else if sp.byteSpace > 0 && offset > 0 then Spaces(SpaceCount(sp.byteSpace, offset, 1))
    else []
  }

  function NextOffset(sp: Spacing, offset: nat): nat { if sp.wrap > 0 && offset == sp.wrap then 1 else offset + 1 }

  function ByteRest(sp: Spacing, s: bytes, offset: nat): bytes
    decreases |s|
  {
    if s == [] then [APOSTROPHE]
    else Gap(sp, offset) + Hex(s[0]) + ByteRest(sp, s[1..], NextOffset(sp, offset))
  }

  function ByteBody(sp: Spacing, s: bytes): bytes { [LOWER_H, APOSTROPHE] + ByteRest(sp, s, 0) }

  // ----- Reading -----

  datatype Mode = Between | InText | InHex

  function HexValue(c: byte): Option<nat> {
    if '0' as int <= c <= '9' as int then Some(c - '0' as int)
    else if 'a' as int <= c <= 'f' as int then Some(c - 'a' as int + 10)
    else None
  }

  /** The number that hexadecimal digits stand for. */
  function HexNumber(s: bytes): Option<nat> {
    if s == [] then Some(0)
    else
      match (HexNumber(s[..|s| - 1]), HexValue(s[|s| - 1]))
      case (Some(n), Some(d)) => Some(16 * n + d)
      case _ => None
  }

  /** What the escape sequences of JSON (section 7 of RFC 8259) stand for, as far as they are needed. */
  function Unescape(c: byte): Option<byte> {
    if c == '\\' as int || c == '"' as int then Some(c)
    else if c == 't' as int then Some(9)
    else if c == 'r' as int then Some(13)
    else if c == 'f' as int then Some(12)
    else if c == 'n' as int then Some(10)
    else if c == 'b' as int then Some(8)
    else None
  }

  predicate IsSpace(c: byte) { c == ' ' as int || c == '\t' as int || c == '\n' as int }

  function SkipSpace(t: bytes): (r: bytes)
    ensures |r| <= |t|
  {
    if t != [] && IsSpace(t[0]) then SkipSpace(t[1..]) else t
  }

  predicate StartsText(t: bytes) { t != [] && t[0] == '"' as int }

  predicate StartsHex(t: bytes) { |t| > 1 && t[0] == 'h' as int && t[1] == '\'' as int }

  /** A string that ends here goes on after white space. */
  predicate GoesOn(t: bytes) { StartsText(SkipSpace(t)) || StartsHex(SkipSpace(t)) }

  function Cons(b: bytes, r: Option<(bytes, bytes)>): Option<(bytes, bytes)> {
    match r
    case Some((s, rest)) => Some((b + s, rest))
    case None => None
  }

  /** The bytes that fragments in diagnostic notation stand for (appendix G of RFC 8610), and what follows them. */
  function Read(t: bytes, mode: Mode): (r: Option<(bytes, bytes)>)
    ensures r.Some? ==> |r.value.1| <= |t|
    decreases |t|
  {
    match mode
    case Between =>
      var u := SkipSpace(t);
      if StartsText(u) then Read(u[1..], InText)
      else if StartsHex(u) then Read(u[2..], InHex)
      else Some(([], t))
    case InText =>
      if t == [] then None
      else if t[0] == '"' as int then Read(t[1..], Between)
      else if t[0] != '\\' as int then Cons([t[0]], Read(t[1..], InText))
      else if |t| > 5 && t[1] == 'u' as int then
        match HexNumber(t[2..6])
        case Some(cp) => if Utf8.IsScalar(cp) then Cons(Utf8.Encode(cp), Read(t[6..], InText)) else None
        case None => None
      else if |t| > 1 && Unescape(t[1]).Some? then Cons([Unescape(t[1]).value], Read(t[2..], InText))
      else None
    case InHex =>
      if t == [] then None
      else if t[0] == '\'' as int then Read(t[1..], Between)
      else if t[0] == ' ' as int then Read(t[1..], InHex)
      else if |t| > 1 && HexNumber([t[0], t[1]]).Some? then
        HexByte(t[0], t[1]);
        Cons([HexNumber([t[0], t[1]]).value], Read(t[2..], InHex))
      else None
  }

  lemma HexByte(a: byte, b: byte)
    ensures HexNumber([a, b]) ==
            if HexValue(a).Some? && HexValue(b).Some? then Some(16 * HexValue(a).value + HexValue(b).value) else None
    ensures forall n :: HexNumber([a, b]) == Some(n) ==> n < 256
  {
    assert [a, b][..1] == [a] && [a][..0] == [];
    assert HexNumber([a]) == HexValue(a);
  }

  // ----- Reading back what was written -----

  lemma HexDigitValue(n: nat)
    requires n < 16
    ensures HexValue(HexDigit(n)) == Some(n)
  {
  }

  lemma HexReads(b: byte, rest: bytes)
    ensures Read(Hex(b) + rest, InHex) == Cons([b], Read(rest, InHex))
  {
    HexDigitValue(b / 16);
    HexDigitValue(b % 16);
    HexByte(HexDigit(b / 16), HexDigit(b % 16));
    var t := Hex(b) + rest;
    assert t[2..] == rest && t[0] == HexDigit(b / 16) && t[1] == HexDigit(b % 16);
    hide HexValue, HexNumber, Hex;
  }

  lemma {:induction false} HexAllReads(s: bytes, rest: bytes)
    ensures Read(HexAll(s) + rest, InHex) == Cons(s, Read(rest, InHex))
  {
    hide Read, Hex;
    if s == [] {
      EmptyConcat(rest);
      ConsNothing(Read(rest, InHex));
    } else {
      HexAllReads(s[1..], rest);
      HexReads(s[0], HexAll(s[1..]) + rest);
      Concat(Hex(s[0]), HexAll(s[1..]), rest);
      ConsTwice([s[0]], s[1..], Read(rest, InHex));
      assert [s[0]] + s[1..] == s;
    }
  }

  lemma ConsNothing(r: Option<(bytes, bytes)>)
    ensures Cons([], r) == r
  {
    if r.Some? {
      EmptyConcat(r.value.0);
    }
  }

  lemma ConsTwice(a: bytes, b: bytes, r: Option<(bytes, bytes)>)
    ensures Cons(a, Cons(b, r)) == Cons(a + b, r)
  {
    if r.Some? {
      Concat(a, b, r.value.0);
    }
  }

  lemma FourDigits(cp: nat)
    ensures cp == 16 * (16 * (16 * (cp / 0x1000) + cp / 0x100 % 16) + cp / 0x10 % 16) + cp % 16
  {
    assert cp / 0x10 == 16 * (cp / 0x100) + cp / 0x10 % 16;
    assert cp / 0x100 == 16 * (cp / 0x1000) + cp / 0x100 % 16;
  }

  lemma NumberOfFour(a: byte, b: byte, c: byte, d: byte)
    requires HexValue(a).Some? && HexValue(b).Some? && HexValue(c).Some? && HexValue(d).Some?
    ensures HexNumber([a, b, c, d])
            == Some(16 * (16 * (16 * HexValue(a).value + HexValue(b).value) + HexValue(c).value) + HexValue(d).value)
  {
    hide HexValue;
    var h := [a, b, c, d];
    HexByte(a, b);
    assert h[..3] == [a, b, c] && h[..3][..2] == [a, b];
    assert HexNumber([a, b, c]) == Some(16 * (16 * HexValue(a).value + HexValue(b).value) + HexValue(c).value);
  }

  lemma Hex4Number(cp: uint16)
    ensures HexNumber(Hex4(cp)) == Some(cp)
  {
    hide HexValue, HexDigit, HexNumber;
    HexDigitValue(cp / 0x1000);
    HexDigitValue(cp / 0x100 % 16);
    HexDigitValue(cp / 0x10 % 16);
    HexDigitValue(cp % 16);
    NumberOfFour(HexDigit(cp / 0x1000), HexDigit(cp / 0x100 % 16), HexDigit(cp / 0x10 % 16), HexDigit(cp % 16));
    FourDigits(cp);
  }

  lemma EscapedReads(cp: uint16, rest: bytes)
    requires Utf8.IsScalar(cp)
    ensures Read([BACKSLASH, LOWER_U] + Hex4(cp) + rest, InText) == Cons(Utf8.Encode(cp), Read(rest, InText))
  {
    Hex4Number(cp);
    var t := [BACKSLASH, LOWER_U] + Hex4(cp) + rest;
    assert t[2..6] == Hex4(cp) && t[6..] == rest;
    hide HexNumber, Hex4, Utf8.Encode;
  }

  lemma ShortEscapeReads(b: byte, rest: bytes)
    requires Escape(b).Some?
    ensures Read([BACKSLASH, Escape(b).value] + rest, InText) == Cons([b], Read(rest, InText))
  {
    var t := [BACKSLASH, Escape(b).value] + rest;
    assert t[2..] == rest;
  }

  lemma {:induction false} RawReads(raw: bytes, rest: bytes)
    requires forall i :: 0 <= i < |raw| ==> raw[i] != QUOTE && raw[i] != BACKSLASH
    ensures Read(raw + rest, InText) == Cons(raw, Read(rest, InText))
  {
    if raw == [] {
      EmptyConcat(rest);
      ConsNothing(Read(rest, InText));
    } else {
      RawReads(raw[1..], rest);
      assert (raw + rest)[1..] == raw[1..] + rest;
      ConsTwice([raw[0]], raw[1..], Read(rest, InText));
      assert [raw[0]] + raw[1..] == raw;
    }
  }

  lemma {:induction false} SpacesRead(n: nat, rest: bytes)
    ensures Read(Spaces(n) + rest, InHex) == Read(rest, InHex)
  {
    if n == 0 {
      assert Spaces(0) + rest == rest;
    } else {
      SpacesRead(n - 1, rest);
      assert (Spaces(n) + rest)[1..] == Spaces(n - 1) + rest;
    }
  }

  predicate AllSpace(s: bytes) { forall i :: 0 <= i < |s| ==> IsSpace(s[i]) }

  lemma {:induction false} SpaceSkipped(nl: bytes, rest: bytes)
    requires AllSpace(nl)
    ensures SkipSpace(nl + rest) == SkipSpace(rest)
  {
    if nl == [] {
      EmptyConcat(rest);
    } else {
      SpaceSkipped(nl[1..], rest);
      assert (nl + rest)[1..] == nl[1..] + rest;
    }
  }

  /** White space in front of a fragment. */
  lemma GapReads(nl: bytes, rest: bytes)
    requires AllSpace(nl) && (StartsText(rest) || StartsHex(rest))
    ensures Read(nl + rest, Between) == Read(rest, Between)
  {
    SpaceSkipped(nl, rest);
  }

  /** From one kind of fragment to the other. */
  lemma SwitchReads(space: bool, inText: bool, rest: bytes)
    ensures Read(ToText(space, inText) + rest, if inText then InText else InHex) == Read(rest, InText)
    ensures Read(ToHex(space, inText) + rest, if inText then InText else InHex) == Read(rest, InHex)
  {
    if inText {
      EmptyConcat(rest);
      SpToHex(space, rest);
    } else {
      EmptyConcat(rest);
      SpToText(space, rest);
    }
  }

  lemma SpToHex(space: bool, rest: bytes)
    ensures Read([QUOTE] + Sp(space) + [LOWER_H, APOSTROPHE] + rest, InText) == Read(rest, InHex)
  {
    var t := [LOWER_H, APOSTROPHE] + rest;
    Concat4([QUOTE], Sp(space), [LOWER_H, APOSTROPHE], rest);
    assert ([QUOTE] + (Sp(space) + t))[1..] == Sp(space) + t;
    GapReads(Sp(space), t);
    assert t[2..] == rest;
  }

  lemma SpToText(space: bool, rest: bytes)
    ensures Read([APOSTROPHE] + Sp(space) + [QUOTE] + rest, InHex) == Read(rest, InText)
  {
    var t := [QUOTE] + rest;
    Concat4([APOSTROPHE], Sp(space), [QUOTE], rest);
    assert ([APOSTROPHE] + (Sp(space) + t))[1..] == Sp(space) + t;
    GapReads(Sp(space), t);
    assert t[1..] == rest;
  }

  /** The character at the start of a string is read back, escaped or not. */
  lemma CharReads(s: bytes, rest: bytes)
    requires Utf8.CharLen(s) > 0 && Escape(s[0]).None? && !IsAsciiControl(s[0])
    ensures Read(CharText(s) + rest, InText) == Cons(s[..Utf8.CharLen(s)], Read(rest, InText))
  {
    Utf8.ScalarEncodes(s);
    hide Read, Utf8.Scalar, Utf8.Encode, Hex4;
    if IsHidden(Utf8.Scalar(s)) {
      EscapedReads(Utf8.Scalar(s), rest);
    } else {
      RawReads(s[..Utf8.CharLen(s)], rest);
    }
  }

  function ModeOf(inText: bool): Mode { if inText then InText else InHex }

  /**
   What is written for a text string is read back as exactly its bytes, be they valid UTF-8 or not, by
   a reader that knows nothing of how the fragments were chosen.
   */
  lemma {:induction false} TextRestReads(space: bool, s: bytes, inText: bool, tail: bytes)
    requires !GoesOn(tail)
    ensures Read(TextRest(space, s, inText) + tail, ModeOf(inText)) == Some((s, tail))
    decreases |s|, if inText then 1 else 0
  {
    hide Read, Hex, Hex4, HexAll, CharText, ToText, ToHex, Utf8.CharLen, Utf8.Scalar, GoesOn;
    if s == [] {
      EndReads(inText, tail);
    } else if !inText && IsAsciiControl(s[0]) {
      var rest := TextRest(space, s[1..], false);
      TextRestReads(space, s[1..], false, tail);
      Concat(Hex(s[0]), rest, tail);
      HexReads(s[0], rest + tail);
      Joined(s, 1, tail);
    } else if Escape(s[0]).Some? {
      var rest := TextRest(space, s[1..], true);
      var escape := [BACKSLASH, Escape(s[0]).value];
      TextRestReads(space, s[1..], true, tail);
      ShortEscapeReads(s[0], rest + tail);
      SwitchReads(space, inText, escape + (rest + tail));
      Concat4(ToText(space, inText), escape, rest, tail);
      Joined(s, 1, tail);
    } else if IsAsciiControl(s[0]) {
      ControlReads(space, s, tail);
    } else {
      OtherReads(space, s, inText, tail);
    }
  }

  lemma EndReads(inText: bool, tail: bytes)
    requires !GoesOn(tail)
    ensures Read([if inText then QUOTE else APOSTROPHE] + tail, ModeOf(inText)) == Some(([], tail))
  {
    assert ([if inText then QUOTE else APOSTROPHE] + tail)[1..] == tail;
  }

  /** A string in two parts. */
  lemma Joined(s: bytes, k: nat, tail: bytes)
    requires k <= |s|
    ensures Cons(s[..k], Some((s[k..], tail))) == Some((s, tail))
    ensures k == 1 ==> s[..1] == [s[0]]
  {
    assert s[..k] + s[k..] == s;
  }

  /** A control character in a text fragment: a run of them is written in hexadecimal. */
  lemma {:induction false} ControlReads(space: bool, s: bytes, tail: bytes)
    requires s != [] && Escape(s[0]).None? && IsAsciiControl(s[0]) && !GoesOn(tail)
    ensures Read(TextRest(space, s, true) + tail, InText) == Some((s, tail))
    decreases |s|, 1, 0
  {
    hide Read, Hex, Hex4, HexAll, CharText, ToText, ToHex, Utf8.CharLen, Utf8.Scalar, GoesOn;
    if |s| > 1 && IsAsciiControl(s[1]) {
      var rest := TextRest(space, s, false);
      TextRestReads(space, s, false, tail);
      SwitchReads(space, true, rest + tail);
      Concat(ToHex(space, true), rest, tail);
    } else {
      var rest := TextRest(space, s[1..], true);
      TextRestReads(space, s[1..], true, tail);
      EscapedReads(s[0], rest + tail);
      Concat4([BACKSLASH, LOWER_U], Hex4(s[0]), rest, tail);
      Concat([BACKSLASH, LOWER_U], Hex4(s[0]), rest + tail);
      assert Utf8.Encode(s[0]) == [s[0]];
      Joined(s, 1, tail);
    }
  }

  lemma {:induction false} OtherReads(space: bool, s: bytes, inText: bool, tail: bytes)
    requires s != [] && Escape(s[0]).None? && !IsAsciiControl(s[0]) && !GoesOn(tail)
    ensures Read(TextRest(space, s, inText) + tail, ModeOf(inText)) == Some((s, tail))
    decreases |s|, if inText then 1 else 0, 0
  {
    hide Read, Hex, Hex4, HexAll, CharText, ToText, ToHex, Utf8.CharLen, Utf8.Scalar, GoesOn;
    var n := Utf8.CharLen(s);
    if n == 0 {
      var k := 1 + LeadRun(s[1..]);
      var rest := TextRest(space, s[k..], false);
      TextRestReads(space, s[k..], false, tail);
      HexAllReads(s[..k], rest + tail);
      SwitchReads(space, inText, HexAll(s[..k]) + (rest + tail));
      Concat4(ToHex(space, inText), HexAll(s[..k]), rest, tail);
      Joined(s, k, tail);
    } else {
      var rest := TextRest(space, s[n..], true);
      TextRestReads(space, s[n..], true, tail);
      CharReads(s, rest + tail);
      SwitchReads(space, inText, CharText(s) + (rest + tail));
      Concat4(ToText(space, inText), CharText(s), rest, tail);
      Joined(s, n, tail);
    }
  }

  lemma TextComesBack(space: bool, s: bytes, tail: bytes)
    requires !GoesOn(tail)
    ensures Read(TextBody(space, s) + tail, Between) == Some((s, tail))
  {
    hide TextRest, GoesOn;
    var rest := TextRest(space, s, true);
    TextRestReads(space, s, true, tail);
    Concat([QUOTE], rest, tail);
    assert ([QUOTE] + (rest + tail))[1..] == rest + tail;
  }

  lemma {:induction false} ByteRestReads(sp: Spacing, s: bytes, offset: nat, tail: bytes)
    requires AllSpace(sp.nl) && !GoesOn(tail)
    ensures Read(ByteRest(sp, s, offset) + tail, InHex) == Some((s, tail))
    decreases |s|
  {
    hide Read, Hex, Gap, NextOffset, GoesOn;
    if s == [] {
      EndReads(false, tail);
    } else {
      var rest := ByteRest(sp, s[1..], NextOffset(sp, offset));
      ByteRestReads(sp, s[1..], NextOffset(sp, offset), tail);
      HexReads(s[0], rest + tail);
      ByteGapReads(sp, offset, Hex(s[0]) + (rest + tail));
      Concat4(Gap(sp, offset), Hex(s[0]), rest, tail);
      Joined(s, 1, tail);
    }
  }

  lemma ByteGapReads(sp: Spacing, offset: nat, rest: bytes)
    requires AllSpace(sp.nl)
    ensures Read(Gap(sp, offset) + rest, InHex) == Read(rest, InHex)
  {
    if sp.wrap > 0 && offset == sp.wrap {
      var t := [LOWER_H, APOSTROPHE] + rest;
      Concat4([APOSTROPHE], sp.nl, [LOWER_H, APOSTROPHE], rest);
      assert ([APOSTROPHE] + (sp.nl + t))[1..] == sp.nl + t;
      GapReads(sp.nl, t);
      assert t[2..] == rest;
    } else if sp.byteSpace > 0 && offset > 0 {
      SpacesRead(SpaceCount(sp.byteSpace, offset, 1), rest);
    } else {
      EmptyConcat(rest);
    }
  }

  lemma BytesComeBack(sp: Spacing, s: bytes, tail: bytes)
    requires AllSpace(sp.nl) && !GoesOn(tail)
    ensures Read(ByteBody(sp, s) + tail, Between) == Some((s, tail))
  {
    hide ByteRest, GoesOn;
    var rest := ByteRest(sp, s, 0);
    ByteRestReads(sp, s, 0, tail);
    Concat([LOWER_H, APOSTROPHE], rest, tail);
    assert ([LOWER_H, APOSTROPHE] + (rest + tail))[2..] == rest + tail;
  }
}
