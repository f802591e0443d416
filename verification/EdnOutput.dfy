/**
 What can be in the diagnostic output: it is well-formed UTF-8 whatever the data is, with no character that
 is invisible or changes the direction of text, on one line unless indentation is asked for. And how byte
 strings are spaced and wrapped.
 */
module EdnOutput {
  import opened Bytes
  import opened Wrappers
  import opened Wire
  import opened EdnStrings
  import opened EdnPrinter
  import opened EdnReader
  import DecimalInt
  import EdnRefinement
  import Floats
  import Utf8

  // ----- Clean text -----

  /** The Bidi_Control property of Unicode. */
  predicate IsBidiControl(cp: nat) {
    cp in {0x061c, 0x200e, 0x200f, 0x202a, 0x202b, 0x202c, 0x202d, 0x202e, 0x2066, 0x2067, 0x2068, 0x2069}
  }

  predicate IsControl(cp: nat) { cp < 0x20 || 0x7f <= cp <= 0x9f }

  predicate IsLineSeparator(cp: nat) { cp == 0x2028 || cp == 0x2029 }

  /** Line breaks and tabs are for the layout. */
  predicate IsClean(cp: nat, layout: bool) {
    || (layout && (cp == '\n' as int || cp == '\t' as int))
    || !(IsControl(cp) || IsBidiControl(cp) || IsLineSeparator(cp))
  }

  predicate Clean(s: bytes, layout: bool) {
    s == [] || (Utf8.CharLen(s) > 0 && IsClean(Utf8.Scalar(s), layout) && Clean(s[Utf8.CharLen(s)..], layout))
  }

  lemma {:induction false} CleanIsValid(s: bytes, layout: bool)
    requires Clean(s, layout)
    ensures Utf8.Valid(s)
  {
    hide Utf8.CharLen, Utf8.Scalar, IsClean;
    if s != [] {
      CleanIsValid(s[Utf8.CharLen(s)..], layout);
    }
  }

  lemma FirstScalar(s: bytes, t: bytes)
    requires Utf8.CharLen(s) > 0
    ensures Utf8.CharLen(s + t) == Utf8.CharLen(s) && Utf8.Scalar(s + t) == Utf8.Scalar(s)
    ensures (s + t)[Utf8.CharLen(s)..] == s[Utf8.CharLen(s)..] + t
  {
    Utf8.FirstCharacter(s, t);
  }

  lemma {:induction false} CleanConcat(s: bytes, t: bytes, layout: bool)
    requires Clean(s, layout) && Clean(t, layout)
    ensures Clean(s + t, layout)
    decreases |s|
  {
    hide Utf8.CharLen, Utf8.Scalar, IsClean;
    if s == [] {
      EmptyConcat(t);
    } else {
      FirstScalar(s, t);
      CleanConcat(s[Utf8.CharLen(s)..], t, layout);
    }
  }

  lemma Clean3(a: bytes, b: bytes, c: bytes, layout: bool)
    requires Clean(a, layout) && Clean(b, layout) && Clean(c, layout)
    ensures Clean(a + b + c, layout)
  {
    hide Clean;
    CleanConcat(a, b, layout);
    CleanConcat(a + b, c, layout);
  }

  predicate AllPrintable(s: bytes) { forall i :: 0 <= i < |s| ==> 0x20 <= s[i] <= 0x7e }

  lemma PrintableChar(s: bytes)
    requires s != [] && 0x20 <= s[0] <= 0x7e
    ensures Utf8.CharLen(s) == 1 && Utf8.Scalar(s) == s[0] && IsClean(s[0], false)
  {
  }

  lemma {:induction false} PrintableIsClean(s: bytes, layout: bool)
    requires AllPrintable(s)
    ensures Clean(s, layout)
  {
    hide Utf8.CharLen, Utf8.Scalar;
    if s != [] {
      PrintableChar(s);
      PrintableIsClean(s[1..], layout);
    }
  }

  // ----- Strings -----

  lemma HexIsPrintable(b: byte)
    ensures AllPrintable(Hex(b))
  {
  }

  lemma {:induction false} HexAllIsClean(s: bytes, layout: bool)
    ensures Clean(HexAll(s), layout)
  {
    hide Hex, Clean;
    if s == [] {
      PrintableIsClean([], layout);
    } else {
      HexIsPrintable(s[0]);
      PrintableIsClean(Hex(s[0]), layout);
      HexAllIsClean(s[1..], layout);
      CleanConcat(Hex(s[0]), HexAll(s[1..]), layout);
    }
  }

  lemma EscapedIsPrintable(cp: uint16)
    ensures AllPrintable([BACKSLASH, LOWER_U] + Hex4(cp))
  {
  }

  /** A single character is clean or escaped. */
  lemma CharIsClean(s: bytes, layout: bool)
    requires Utf8.CharLen(s) > 0 && Escape(s[0]).None? && !IsAsciiControl(s[0])
    ensures Clean(CharText(s), layout)
  {
    Utf8.ScalarEncodes(s);
    var n, cp := Utf8.CharLen(s), Utf8.Scalar(s);
    if IsHidden(cp) {
      EscapedIsPrintable(cp);
      PrintableIsClean([BACKSLASH, LOWER_U] + Hex4(cp), layout);
    } else {
      Alone(s);
      ScalarIsClean(s);
      hide Utf8.CharLen, Utf8.Scalar;
      assert s[..n][n..] == [];
    }
  }

  lemma Alone(s: bytes)
    requires Utf8.CharLen(s) > 0
    ensures Utf8.CharLen(s[..Utf8.CharLen(s)]) == Utf8.CharLen(s) && Utf8.Scalar(s[..Utf8.CharLen(s)]) == Utf8.Scalar(s)
  {
  }

  lemma ScalarIsClean(s: bytes)
    requires Utf8.CharLen(s) > 0 && !IsAsciiControl(s[0]) && !IsHidden(Utf8.Scalar(s))
    ensures IsClean(Utf8.Scalar(s), false)
  {
    if Utf8.CharLen(s) > 1 {
      Utf8.ScalarEncodes(s);
      NotAscii(s);
    }
    hide Utf8.CharLen, Utf8.Scalar, Utf8.Encode;
  }

  lemma NotAscii(s: bytes)
    requires Utf8.CharLen(s) > 1
    ensures Utf8.Scalar(s) >= 0x80 && (Utf8.CharLen(s) == 1 ==> Utf8.Scalar(s) == s[0])
  {
    if Utf8.CharLen(s) == 2 {
      Utf8.Scalar2(s);
    } else if Utf8.CharLen(s) == 3 {
      Utf8.Scalar3(s);
    } else {
      Utf8.Scalar4(s);
    }
    hide Utf8.Encode;
  }

  lemma SwitchIsPrintable(space: bool, inText: bool)
    ensures AllPrintable(ToText(space, inText)) && AllPrintable(ToHex(space, inText))
  {
  }

  lemma {:induction false} TextRestIsClean(space: bool, s: bytes, inText: bool, layout: bool)
    ensures Clean(TextRest(space, s, inText), layout)
    decreases |s|, if inText then 1 else 0
  {
    hide Clean, Hex, Hex4, HexAll, CharText, ToText, ToHex, Utf8.CharLen, Utf8.Scalar;
    SwitchIsPrintable(space, inText);
    PrintableIsClean(ToText(space, inText), layout);
    PrintableIsClean(ToHex(space, inText), layout);
    if s == [] {
      PrintableIsClean([if inText then QUOTE else APOSTROPHE], layout);
    } else if !inText && IsAsciiControl(s[0]) {
      HexIsPrintable(s[0]);
      PrintableIsClean(Hex(s[0]), layout);
      TextRestIsClean(space, s[1..], false, layout);
      CleanConcat(Hex(s[0]), TextRest(space, s[1..], false), layout);
    } else if Escape(s[0]).Some? {
      PrintableIsClean([BACKSLASH, Escape(s[0]).value], layout);
      TextRestIsClean(space, s[1..], true, layout);
      Clean3(ToText(space, inText), [BACKSLASH, Escape(s[0]).value], TextRest(space, s[1..], true), layout);
    } else if IsAsciiControl(s[0]) {
      if |s| > 1 && IsAsciiControl(s[1]) {
        TextRestIsClean(space, s, false, layout);
        CleanConcat(ToHex(space, inText), TextRest(space, s, false), layout);
      } else {
        EscapedIsPrintable(s[0]);
        PrintableIsClean([BACKSLASH, LOWER_U] + Hex4(s[0]), layout);
        TextRestIsClean(space, s[1..], true, layout);
        CleanConcat([BACKSLASH, LOWER_U] + Hex4(s[0]), TextRest(space, s[1..], true), layout);
      }
    } else {
      CharsAreClean(space, s, inText, layout);
    }
  }

  lemma {:induction false} CharsAreClean(space: bool, s: bytes, inText: bool, layout: bool)
    requires s != [] && Escape(s[0]).None? && !IsAsciiControl(s[0])
    ensures Clean(TextRest(space, s, inText), layout)
    decreases |s|, if inText then 1 else 0, 0
  {
    hide Clean, Hex, Hex4, HexAll, CharText, ToText, ToHex, Utf8.CharLen, Utf8.Scalar;
    SwitchIsPrintable(space, inText);
    PrintableIsClean(ToText(space, inText), layout);
    PrintableIsClean(ToHex(space, inText), layout);
    var n := Utf8.CharLen(s);
    if n == 0 {
      var k := 1 + LeadRun(s[1..]);
      HexAllIsClean(s[..k], layout);
      TextRestIsClean(space, s[k..], false, layout);
      Clean3(ToHex(space, inText), HexAll(s[..k]), TextRest(space, s[k..], false), layout);
    } else {
      CharIsClean(s, layout);
      TextRestIsClean(space, s[n..], true, layout);
      Clean3(ToText(space, inText), CharText(s), TextRest(space, s[n..], true), layout);
    }
  }

  lemma GapIsClean(sp: Spacing, offset: nat, layout: bool)
    requires Clean(sp.nl, layout)
    ensures Clean(Gap(sp, offset), layout)
  {
    hide Clean;
    PrintableIsClean([APOSTROPHE], layout);
    PrintableIsClean([LOWER_H, APOSTROPHE], layout);
    Clean3([APOSTROPHE], sp.nl, [LOWER_H, APOSTROPHE], layout);
    PrintableIsClean(Spaces(SpaceCount(sp.byteSpace, offset, 1)), layout);
    PrintableIsClean([], layout);
  }

  lemma {:induction false} ByteRestIsClean(sp: Spacing, s: bytes, offset: nat, layout: bool)
    requires Clean(sp.nl, layout)
    ensures Clean(ByteRest(sp, s, offset), layout)
    decreases |s|
  {
    hide Clean, Hex, Gap, NextOffset;
    if s == [] {
      PrintableIsClean([APOSTROPHE], layout);
    } else {
      GapIsClean(sp, offset, layout);
      HexIsPrintable(s[0]);
      PrintableIsClean(Hex(s[0]), layout);
      ByteRestIsClean(sp, s[1..], NextOffset(sp, offset), layout);
      Clean3(Gap(sp, offset), Hex(s[0]), ByteRest(sp, s[1..], NextOffset(sp, offset)), layout);
    }
  }

  // ----- Items -----

  predicate OnLines(cfg: EdnConfig) { cfg.indentChar.Some? }

  lemma LayoutIsClean(cfg: EdnConfig, level: int, space: bool)
    requires ConfigOk(cfg)
    ensures Clean(NewLine(cfg, level, space), OnLines(cfg)) && Clean(Sp(cfg.space), OnLines(cfg))
  {
    PrintableIsClean([], OnLines(cfg));
    PrintableIsClean([SPACE], OnLines(cfg));
    if cfg.indentChar.Some? {
      var more := if cfg.indent > 0 && level > 0 then seq(level, _ => cfg.indentChar.value) else [];
      LayoutChars([NEWLINE] + more);
    }
    hide Clean;
  }

  lemma {:induction false} LayoutChars(s: bytes)
    requires forall i :: 0 <= i < |s| ==> s[i] == SPACE || s[i] == TAB || s[i] == NEWLINE
    ensures Clean(s, true)
  {
    if s != [] {
      LayoutChar(s);
      LayoutChars(s[1..]);
    }
    hide Utf8.CharLen, Utf8.Scalar;
  }

  lemma LayoutChar(s: bytes)
    requires s != [] && (s[0] == SPACE || s[0] == TAB || s[0] == NEWLINE)
    ensures Utf8.CharLen(s) == 1 && IsClean(Utf8.Scalar(s), true)
  {
  }

  lemma StringIsClean(cfg: EdnConfig, s: bytes, isText: bool, level: int)
    requires ConfigOk(cfg)
    ensures Clean(StringText(cfg, s, isText, level), OnLines(cfg))
  {
    hide Clean, TextRest, ByteRest;
    var layout, sp := OnLines(cfg), SpacingAt(cfg, level);
    if isText {
      PrintableIsClean([QUOTE], layout);
      TextRestIsClean(cfg.space, s, true, layout);
      CleanConcat([QUOTE], TextRest(cfg.space, s, true), layout);
    } else {
      LayoutIsClean(cfg, level, true);
      PrintableIsClean([LOWER_H, APOSTROPHE], layout);
      ByteRestIsClean(sp, s, 0, layout);
      CleanConcat([LOWER_H, APOSTROPHE], ByteRest(sp, s, 0), layout);
    }
  }

  lemma {:induction false} DigitsArePrintable(n: nat)
    ensures AllPrintable(DecimalInt.Digits(n))
  {
    if n >= 10 {
      DigitsArePrintable(n / 10);
    }
  }

  lemma NumberIsClean(i: int, layout: bool)
    ensures Clean(DecimalInt.Print(i), layout)
  {
    DigitsArePrintable(if i < 0 then -i else i);
    PrintableIsClean(DecimalInt.Print(i), layout);
    hide Clean, DecimalInt.Digits;
  }

  lemma FloatIsPrintable(cfg: EdnConfig, tok: Token, f: Floats.Fields)
    requires DigitsOk(cfg)
    ensures AllPrintable(FloatText(cfg, tok, f))
  {
    assert IsNumberText(cfg.digits(tok));
    AsciiIsPrintable("Infinity");
    AsciiIsPrintable("-Infinity");
    AsciiIsPrintable("NaN");
    AsciiIsPrintable(".0");
    hide Ascii;
  }

  lemma AsciiIsPrintable(s: string)
    requires forall i :: 0 <= i < |s| ==> ' ' <= s[i] <= '~'
    ensures AllPrintable(Ascii(s))
  {
  }

  lemma AsciiIsClean(s: string, layout: bool)
    requires forall i :: 0 <= i < |s| ==> ' ' <= s[i] <= '~'
    ensures Clean(Ascii(s), layout)
  {
    hide Clean, Ascii;
    AsciiIsPrintable(s);
    PrintableIsClean(Ascii(s), layout);
  }

  lemma ScalarIsCleanText(cfg: EdnConfig, tok: Token, layout: bool)
    requires DigitsOk(cfg)
    ensures Clean(ScalarText(cfg, tok), layout)
  {
    hide Clean, FloatText, FloatFields, Ascii, DigitsOk;
    match tok
    case UInt(n) => NumberIsClean(n, layout);
    case NInt(n) => NumberIsClean(-1 - n, layout);
    case False => AsciiIsClean("false", layout);
    case True => AsciiIsClean("true", layout);
    case Null => AsciiIsClean("null", layout);
    case Undefined => AsciiIsClean("undefined", layout);
    case Simple(n) =>
      AsciiIsClean("simple(", layout);
      NumberIsClean(n, layout);
      PrintableIsClean([R_PAREN], layout);
      Clean3(Ascii("simple("), DecimalInt.Print(n), [R_PAREN], layout);
    case Float16(_) => FloatIsClean(cfg, tok, "_1", layout);
    case Float32(_) => FloatIsClean(cfg, tok, "_2", layout);
    case Float64(_) => FloatIsClean(cfg, tok, "_3", layout);
    case _ => PrintableIsClean([], layout);
  }

  lemma FloatIsClean(cfg: EdnConfig, tok: Token, suffix: string, layout: bool)
    requires DigitsOk(cfg) && IsFloatToken(tok) && forall i :: 0 <= i < |suffix| ==> ' ' <= suffix[i] <= '~'
    ensures Clean(FloatText(cfg, tok, FloatFields(tok)) + Ascii(suffix), layout)
  {
    hide Clean, FloatText, FloatFields, DigitsOk;
    FloatIsPrintable(cfg, tok, FloatFields(tok));
    PrintableIsClean(FloatText(cfg, tok, FloatFields(tok)), layout);
    AsciiIsClean(suffix, layout);
    CleanConcat(FloatText(cfg, tok, FloatFields(tok)), Ascii(suffix), layout);
  }

  lemma BracketedIsClean(cfg: EdnConfig, open: byte, inner: bytes, close: byte, level: int, indef: bool)
    requires ConfigOk(cfg) && 0x20 <= open <= 0x7e && 0x20 <= close <= 0x7e && Clean(inner, OnLines(cfg))
    ensures Clean(Bracketed(cfg, open, inner, close, level, indef), OnLines(cfg))
  {
    hide Clean, NewLine;
    var layout := OnLines(cfg);
    LayoutIsClean(cfg, Deeper(cfg, level), indef);
    LayoutIsClean(cfg, level, false);
    PrintableIsClean(if indef then [open, UNDERSCORE] else [open], layout);
    PrintableIsClean([close], layout);
    CleanConcat(if indef then [open, UNDERSCORE] else [open], NewLine(cfg, Deeper(cfg, level), indef), layout);
    Clean3(Opening(cfg, open, level, indef), inner, NewLine(cfg, level, false), layout);
    CleanConcat(Opening(cfg, open, level, indef) + inner + NewLine(cfg, level, false), [close], layout);
  }

  /** An entry of a list of entries, and the others behind a separator. */
  lemma JoinedIsClean(cfg: EdnConfig, first: bytes, more: bytes, last: bool, level: int)
    requires ConfigOk(cfg) && Clean(first, OnLines(cfg)) && Clean(more, OnLines(cfg))
    ensures Clean(first + if last then [] else Separator(cfg, level) + more, OnLines(cfg))
  {
    hide Clean, NewLine;
    var layout := OnLines(cfg);
    LayoutIsClean(cfg, level, true);
    PrintableIsClean([COMMA], layout);
    PrintableIsClean([], layout);
    CleanConcat([COMMA], NewLine(cfg, level, true), layout);
    CleanConcat(Separator(cfg, level), more, layout);
    CleanConcat(first, if last then [] else Separator(cfg, level) + more, layout);
  }

  /**
   Whatever the data says, the output is well-formed UTF-8, has no control or invisible characters, and stays
   on one line if no indentation is asked for.
   */
  lemma {:induction false} PrintIsClean(cfg: EdnConfig, item: Item, level: int)
    requires ConfigOk(cfg) && DigitsOk(cfg)
    ensures Clean(Print(cfg, item, level), OnLines(cfg))
    decreases item, 1
  {
    hide Clean, ScalarText, StringText, NewLine, Bracketed, JoinChunks, JoinItems, JoinMembers, ConfigOk, DigitsOk, OnLines, Ascii;
    var layout, deep := OnLines(cfg), Deeper(cfg, level);
    AsciiIsClean("[]", layout);
    AsciiIsClean("{}", layout);
    AsciiIsClean("\"\"_", layout);
    AsciiIsClean("''_", layout);
    match item
    case Scalar(tok) => ScalarIsCleanText(cfg, tok, layout);
    case Text(s) => StringIsClean(cfg, s, true, level);
    case ByteStr(s) => StringIsClean(cfg, s, false, level);
    case Chunks(chunks, isText) =>
      ChunksAreClean(cfg, chunks, isText, deep);
      BracketedIsClean(cfg, L_PAREN, JoinChunks(cfg, chunks, isText, deep), R_PAREN, level, true);
    case Arr(elems, indef) =>
      ItemsAreClean(cfg, elems, deep);
      BracketedIsClean(cfg, L_BRACKET, JoinItems(cfg, elems, deep), R_BRACKET, level, indef);
    case Dict(members, indef) =>
      MembersAreClean(cfg, members, deep);
      BracketedIsClean(cfg, L_BRACE, JoinMembers(cfg, members, deep), R_BRACE, level, indef);
    case Tagged(id, content) =>
      PrintIsClean(cfg, content, level);
      PrintIsClean(cfg, content, deep);
      TagIsClean(cfg, id, content, level);
  }

  lemma TagIsClean(cfg: EdnConfig, id: nat, content: Item, level: int)
    requires ConfigOk(cfg) && Clean(Print(cfg, content, level), OnLines(cfg))
    requires Clean(Print(cfg, content, Deeper(cfg, level)), OnLines(cfg))
    ensures Clean(Print(cfg, Item.Tagged(id, content), level), OnLines(cfg))
  {
    hide Clean, Print, DecimalInt.Print, OnLines, NewLine, ConfigOk;
    var layout, deep := OnLines(cfg), Deeper(cfg, level);
    EdnRefinement.PrintTag(cfg, id, content, level);
    LayoutIsClean(cfg, deep, false);
    LayoutIsClean(cfg, level, false);
    Clean3(NewLine(cfg, deep, false), Print(cfg, content, deep), NewLine(cfg, level, false), layout);
    NumberIsClean(id, layout);
    PrintableIsClean([L_PAREN], layout);
    PrintableIsClean([R_PAREN], layout);
    Clean3(DecimalInt.Print(id), [L_PAREN], EdnRefinement.InTag(cfg, content, level), layout);
    CleanConcat(DecimalInt.Print(id) + [L_PAREN] + EdnRefinement.InTag(cfg, content, level), [R_PAREN], layout);
  }

  lemma {:induction false} ChunksAreClean(cfg: EdnConfig, chunks: seq<bytes>, isText: bool, level: int)
    requires ConfigOk(cfg)
    ensures Clean(JoinChunks(cfg, chunks, isText, level), OnLines(cfg))
  {
    hide Clean, StringText, Separator, ConfigOk, OnLines;
    if chunks == [] {
      PrintableIsClean([], OnLines(cfg));
    } else {
      StringIsClean(cfg, chunks[0], isText, level);
      ChunksAreClean(cfg, chunks[1..], isText, level);
      JoinedIsClean(cfg, StringText(cfg, chunks[0], isText, level), JoinChunks(cfg, chunks[1..], isText, level), |chunks| == 1, level);
    }
  }

  lemma {:induction false} ItemsAreClean(cfg: EdnConfig, elems: seq<Item>, level: int)
    requires ConfigOk(cfg) && DigitsOk(cfg)
    ensures Clean(JoinItems(cfg, elems, level), OnLines(cfg))
    decreases elems
  {
    hide Clean, Print, Separator, ConfigOk, DigitsOk, OnLines;
    if elems == [] {
      PrintableIsClean([], OnLines(cfg));
    } else {
      PrintIsClean(cfg, elems[0], level);
      ItemsAreClean(cfg, elems[1..], level);
      JoinedIsClean(cfg, Print(cfg, elems[0], level), JoinItems(cfg, elems[1..], level), |elems| == 1, level);
    }
  }

  lemma {:induction false} MembersAreClean(cfg: EdnConfig, members: seq<Member>, level: int)
    requires ConfigOk(cfg) && DigitsOk(cfg)
    ensures Clean(JoinMembers(cfg, members, level), OnLines(cfg))
    decreases members
  {
    hide Clean, PrintMember, Separator, ConfigOk, DigitsOk, OnLines;
    if members == [] {
      PrintableIsClean([], OnLines(cfg));
    } else {
      MemberIsClean(cfg, members[0], level);
      MembersAreClean(cfg, members[1..], level);
      JoinedIsClean(cfg, PrintMember(cfg, members[0], level), JoinMembers(cfg, members[1..], level), |members| == 1, level);
    }
  }

  lemma {:induction false} MemberIsClean(cfg: EdnConfig, m: Member, level: int)
    requires ConfigOk(cfg) && DigitsOk(cfg)
    ensures Clean(PrintMember(cfg, m, level), OnLines(cfg))
    decreases m, 1
  {
    hide Clean, Print, ConfigOk, DigitsOk, OnLines, NewLine;
    var layout := OnLines(cfg);
    PrintIsClean(cfg, m.key, level);
    PrintIsClean(cfg, m.val, level);
    LayoutIsClean(cfg, level, true);
    PrintableIsClean([COLON], layout);
    Clean3(Print(cfg, m.key, level), [COLON], Sp(cfg.space), layout);
    CleanConcat(Print(cfg, m.key, level) + [COLON] + Sp(cfg.space), Print(cfg, m.val, level), layout);
  }

  /** So the output can be used as text, even if the data is not. */
  lemma OutputIsValid(cfg: EdnConfig, item: Item, level: int)
    requires ConfigOk(cfg) && DigitsOk(cfg)
    ensures Utf8.Valid(Print(cfg, item, level))
  {
    hide Clean, Print, ConfigOk, DigitsOk;
    PrintIsClean(cfg, item, level);
    CleanIsValid(Print(cfg, item, level), OnLines(cfg));
  }

  // ----- Spacing and wrapping of bytes -----

  function Group(byteSpace: nat, offset: nat, bm: nat): nat
    requires bm > 0
  {
    if byteSpace / bm % 2 == 1 && offset % bm == 0 then 1 else 0
  }

  /** In front of a byte there is one space for each group size, a bit of the option, that ends there. */
  lemma SpacesAreGroups(byteSpace: nat, offset: nat)
    ensures SpaceCount(byteSpace, offset, 1)
            == Group(byteSpace, offset, 1) + Group(byteSpace, offset, 2) + Group(byteSpace, offset, 4)
               + Group(byteSpace, offset, 8) + Group(byteSpace, offset, 16) + Group(byteSpace, offset, 32)
  {
    assert SpaceCount(byteSpace, offset, 64) == 0;
    assert SpaceCount(byteSpace, offset, 16) == Group(byteSpace, offset, 16) + Group(byteSpace, offset, 32);
    assert SpaceCount(byteSpace, offset, 4)
        == Group(byteSpace, offset, 4) + Group(byteSpace, offset, 8) + SpaceCount(byteSpace, offset, 16);
  }

  /** With wrapping, a fragment has `wrap` bytes unless it is the last one, and the next one starts afresh. */
  lemma {:induction false} WrapsAfter(sp: Spacing, s: bytes, offset: nat)
    requires 0 < sp.wrap && offset <= sp.wrap && |s| > sp.wrap - offset
    ensures var k := sp.wrap - offset;
            ByteRest(sp, s, offset) == ByteRest(sp, s[..k], offset) + sp.nl + ByteBody(sp, s[k..])
    decreases |s|
  {
    hide Hex;
    var k := sp.wrap - offset;
    if k == 0 {
      assert s[..0] == [] && s[0..] == s;
      assert ByteRest(sp, [], offset) == [APOSTROPHE];
      assert ByteRest(sp, s, 0) == [] + Hex(s[0]) + ByteRest(sp, s[1..], 1);
      WrapText(sp.nl, Hex(s[0]), ByteRest(sp, s[1..], 1));
    } else {
      WrapsAfter(sp, s[1..], offset + 1);
      assert s[..k][1..] == s[1..][..k - 1] && s[..k][0] == s[0] && s[1..][k - 1..] == s[k..];
      var front := Gap(sp, offset) + Hex(s[0]);
      hide Gap;
      var first := ByteRest(sp, s[1..][..k - 1], offset + 1);
      Concat(front, first, sp.nl);
      Concat(front, first + sp.nl, ByteBody(sp, s[k..]));
    }
  }

  lemma WrapText(nl: bytes, hex: bytes, rest: bytes)
    ensures [APOSTROPHE] + nl + [LOWER_H, APOSTROPHE] + hex + rest
            == [APOSTROPHE] + nl + ([LOWER_H, APOSTROPHE] + ([] + hex + rest))
  {
    EmptyConcat(hex);
    Concat([APOSTROPHE] + nl + [LOWER_H, APOSTROPHE], hex, rest);
    Concat([APOSTROPHE] + nl, [LOWER_H, APOSTROPHE], hex + rest);
  }
}
