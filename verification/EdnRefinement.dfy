/**
 The eager printer writes what the recursive one joins: for every well-formed item, at every place and
 with every setting. The separator that is removed at the end of a container is nothing but that, and
 the indentation level is afterwards what it was before.
 */
module EdnRefinement {
  import opened Bytes
  import opened Wrappers
  import opened Values
  import opened Wire
  import opened DecoderConfig
  import opened EdnStrings
  import opened EdnPrinter
  import DecimalInt
  import Utf8

  // ----- The last character -----

  predicate EndsWell(s: bytes) { s != [] && !IsSeparator(s[|s| - 1]) }

  lemma EndsWellAfter(a: bytes, b: bytes)
    requires EndsWell(b)
    ensures EndsWell(a + b)
  {
    assert (a + b)[|a + b| - 1] == b[|b| - 1];
  }

  lemma AsciiEndsWell(s: string)
    requires s != "" && !IsSeparator(s[|s| - 1] as int % 256)
    ensures EndsWell(Ascii(s))
  {
  }

  lemma NumberEndsWell(i: int)
    ensures EndsWell(DecimalInt.Print(i))
  {
    DigitsEndWell(if i < 0 then -i else i);
  }

  lemma DigitsEndWell(n: nat)
    ensures EndsWell(DecimalInt.Digits(n))
  {
  }

  lemma ScalarEndsWell(cfg: EdnConfig, tok: Token)
    requires IsScalarToken(tok)
    ensures EndsWell(ScalarText(cfg, tok))
  {
    hide EndsWell, FloatText, FloatFields;
    match tok
    case UInt(n) => NumberEndsWell(n);
    case NInt(n) => NumberEndsWell(-1 - n);
    case False => AsciiEndsWell("false");
    case True => AsciiEndsWell("true");
    case Null => AsciiEndsWell("null");
    case Undefined => AsciiEndsWell("undefined");
    case Simple(n) => CloserEndsWell(Ascii("simple(") + DecimalInt.Print(n), R_PAREN);
    case Float16(_) =>
      AsciiEndsWell("_1");
      EndsWellAfter(FloatText(cfg, tok, FloatFields(tok)), Ascii("_1"));
    case Float32(_) =>
      AsciiEndsWell("_2");
      EndsWellAfter(FloatText(cfg, tok, FloatFields(tok)), Ascii("_2"));
    case Float64(_) =>
      AsciiEndsWell("_3");
      EndsWellAfter(FloatText(cfg, tok, FloatFields(tok)), Ascii("_3"));
  }

  lemma CloserEndsWell(s: bytes, c: byte)
    requires !IsSeparator(c)
    ensures EndsWell(s + [c])
  {
  }

  lemma {:induction false} TextRestEndsWell(space: bool, s: bytes, inText: bool)
    ensures EndsWell(TextRest(space, s, inText))
    decreases |s|, if inText then 1 else 0
  {
    hide EndsWell, Hex, Hex4, HexAll, ToText, ToHex, CharText, Utf8.CharLen;
    if s == [] {
      CloserEndsWell([], if inText then QUOTE else APOSTROPHE);
      EmptyConcat([if inText then QUOTE else APOSTROPHE]);
    } else if !inText && IsAsciiControl(s[0]) {
      TextRestEndsWell(space, s[1..], false);
      EndsWellAfter(Hex(s[0]), TextRest(space, s[1..], false));
    } else if Escape(s[0]).Some? {
      TextRestEndsWell(space, s[1..], true);
      EndsWellAfter(ToText(space, inText) + [BACKSLASH, Escape(s[0]).value], TextRest(space, s[1..], true));
    } else if IsAsciiControl(s[0]) {
      if |s| > 1 && IsAsciiControl(s[1]) {
        TextRestEndsWell(space, s, false);
        EndsWellAfter(ToHex(space, inText), TextRest(space, s, false));
      } else {
        TextRestEndsWell(space, s[1..], true);
        EndsWellAfter([BACKSLASH, LOWER_U] + Hex4(s[0]), TextRest(space, s[1..], true));
      }
    } else {
      var n := Utf8.CharLen(s);
      if n == 0 {
        var k := 1 + LeadRun(s[1..]);
        TextRestEndsWell(space, s[k..], false);
        EndsWellAfter(ToHex(space, inText) + HexAll(s[..k]), TextRest(space, s[k..], false));
      } else {
        TextRestEndsWell(space, s[n..], true);
        EndsWellAfter(ToText(space, inText) + CharText(s), TextRest(space, s[n..], true));
      }
    }
  }

  lemma {:induction false} ByteRestEndsWell(sp: Spacing, s: bytes, offset: nat)
    ensures EndsWell(ByteRest(sp, s, offset))
    decreases |s|
  {
    if s != [] {
      ByteRestEndsWell(sp, s[1..], NextOffset(sp, offset));
      hide EndsWell, Hex, Gap, NextOffset;
      EndsWellAfter(Gap(sp, offset) + Hex(s[0]), ByteRest(sp, s[1..], NextOffset(sp, offset)));
    }
  }

  lemma StringEndsWell(cfg: EdnConfig, s: bytes, isText: bool, level: int)
    ensures EndsWell(StringText(cfg, s, isText, level))
  {
    hide EndsWell, TextRest, ByteRest;
    if isText {
      TextRestEndsWell(cfg.space, s, true);
      EndsWellAfter([QUOTE], TextRest(cfg.space, s, true));
    } else {
      ByteRestEndsWell(SpacingAt(cfg, level), s, 0);
      EndsWellAfter([LOWER_H, APOSTROPHE], ByteRest(SpacingAt(cfg, level), s, 0));
    }
  }

  /** No item ends with something that could be taken for a separator. */
  lemma ItemEndsWell(cfg: EdnConfig, item: Item, level: int)
    requires WellFormed(item)
    ensures EndsWell(Print(cfg, item, level))
  {
    hide EndsWell, ScalarText, StringText, JoinItems, JoinMembers, JoinChunks;
    match item
    case Scalar(tok) => ScalarEndsWell(cfg, tok);
    case Text(s) => StringEndsWell(cfg, s, true, level);
    case ByteStr(s) => StringEndsWell(cfg, s, false, level);
    case Chunks(chunks, isText) =>
      AsciiEndsWell("\"\"_");
      AsciiEndsWell("''_");
      BracketedEndsWell(cfg, L_PAREN, JoinChunks(cfg, chunks, isText, Deeper(cfg, level)), R_PAREN, level, true);
    case Arr(elems, indef) =>
      AsciiEndsWell("[]");
      BracketedEndsWell(cfg, L_BRACKET, JoinItems(cfg, elems, Deeper(cfg, level)), R_BRACKET, level, indef);
    case Dict(members, indef) =>
      AsciiEndsWell("{}");
      BracketedEndsWell(cfg, L_BRACE, JoinMembers(cfg, members, Deeper(cfg, level)), R_BRACE, level, indef);
    case Tagged(id, content) =>
      var wrapped := NewLine(cfg, Deeper(cfg, level), false) + Print(cfg, content, Deeper(cfg, level)) + NewLine(cfg, level, false);
      CloserEndsWell(DecimalInt.Print(id) + [L_PAREN] + wrapped, R_PAREN);
      CloserEndsWell(DecimalInt.Print(id) + [L_PAREN] + Print(cfg, content, level), R_PAREN);
  }

  lemma BracketedEndsWell(cfg: EdnConfig, open: byte, inner: bytes, close: byte, level: int, indef: bool)
    requires !IsSeparator(close)
    ensures EndsWell(Bracketed(cfg, open, inner, close, level, indef))
  {
    CloserEndsWell(Opening(cfg, open, level, indef) + inner + NewLine(cfg, level, false), close);
  }

  /** Removing the trailing separator removes the separator and nothing of the item before it. */
  lemma {:induction false} TrimSeparator(s: bytes, sep: bytes)
    requires EndsWell(s) && forall i :: 0 <= i < |sep| ==> IsSeparator(sep[i])
    ensures Trim(s + sep) == s
  {
    if sep == [] {
      assert s + sep == s;
    } else {
      TrimSeparator(s, sep[..|sep| - 1]);
      assert (s + sep)[..|s + sep| - 1] == s + sep[..|sep| - 1];
    }
  }

  lemma SeparatorSeparates(cfg: EdnConfig, level: int)
    requires ConfigOk(cfg)
    ensures forall i :: 0 <= i < |Separator(cfg, level)| ==> IsSeparator(Separator(cfg, level)[i])
  {
  }

  // ----- The machine prints what the recursive printer does -----

  function AfterAct(cfg: EdnConfig, r: R<EdnState>, rest: seq<Token>): EdnOutcome {
    match r
    case Err(e) => Stopped(e)
    case Ok(st) => Continue(cfg, st, rest)
  }

  lemma DriveToken(cfg: EdnConfig, st: EdnState, tok: Token, rest: seq<Token>)
    ensures Drive(cfg, st, [tok] + rest) == AfterAct(cfg, Act(cfg, st, tok), rest)
  {
    assert ([tok] + rest)[0] == tok && ([tok] + rest)[1..] == rest;
    hide Act;
  }

  /** A byte string in a tag that asks for lines of its own. */
  predicate WrappedIn(cfg: EdnConfig, item: Item, stack: EdnStack) {
    item.ByteStr? && Wraps(cfg, item.s) && stack.On? && stack.top.kind == ETag(false)
  }

  lemma LevelComesBack(cfg: EdnConfig, level: int)
    ensures Shallower(cfg, Deeper(cfg, level)) == level
  {
  }

  lemma {:induction false} ItemPrints(
    cfg: EdnConfig, out: bytes, level: int, stack: EdnStack, item: Item, rest: seq<Token>)
    requires ConfigOk(cfg) && WellFormed(item) && !InEdnString(stack) && !WrappedIn(cfg, item, stack)
    requires EdnHeight(stack) + Nesting(item) <= cfg.maxDepth
    ensures Drive(cfg, EdnState(out, level, stack), Tokens(item) + rest)
            == Continue(cfg, Completed(cfg, out + Print(cfg, item, level), level, stack), rest)
    decreases item, 0
  {
    hide Drive, Continue, Completed, Close, ScalarText, StringText, JoinItems, JoinMembers, JoinChunks, Opening, Bracketed, EdnHeight;
    var st := EdnState(out, level, stack);
    match item
    case Scalar(tok) => DriveToken(cfg, st, tok, rest);
    case Text(s) => DriveToken(cfg, st, TextString(s), rest);
    case ByteStr(s) => DriveToken(cfg, st, ByteString(s), rest);
    case Chunks(chunks, isText) => ChunkedPrints(cfg, out, level, stack, chunks, isText, rest);
    case Arr(elems, indef) => ArrayPrints(cfg, out, level, stack, elems, indef, rest);
    case Dict(members, indef) => DictPrints(cfg, out, level, stack, members, indef, rest);
    case Tagged(id, content) => TagPrints(cfg, out, level, stack, id, content, rest);
  }

  // ----- Strings in chunks -----

  lemma ChunkedPrints(
    cfg: EdnConfig, out: bytes, level: int, stack: EdnStack, chunks: seq<bytes>, isText: bool, rest: seq<Token>)
    requires EdnHeight(stack) < cfg.maxDepth
    ensures var item := Chunks(chunks, isText);
            Drive(cfg, EdnState(out, level, stack), Tokens(item) + rest)
            == Continue(cfg, Completed(cfg, out + Print(cfg, item, level), level, stack), rest)
  {
    hide Drive, StringText, Opening, EdnHeight;
    var start := if isText then TextStart else ByteStart;
    var toks := ChunkTokens(chunks, isText) + [Break];
    var st := EdnState(out, level, On(EdnFrame(EString(isText), 0, false), stack));
    assert Tokens(Chunks(chunks, isText)) + rest == [start] + (toks + rest);
    DriveToken(cfg, EdnState(out, level, stack), start, toks + rest);
    if chunks == [] {
      assert toks + rest == [Break] + rest;
      DriveToken(cfg, st, Break, rest);
    } else {
      ChunksPrint(cfg, out, level, stack, chunks, isText, rest);
    }
  }

  lemma ChunksPrint(
    cfg: EdnConfig, out: bytes, level: int, stack: EdnStack, chunks: seq<bytes>, isText: bool, rest: seq<Token>)
    requires chunks != []
    ensures Drive(cfg, EdnState(out, level, On(EdnFrame(EString(isText), 0, false), stack)),
                  ChunkTokens(chunks, isText) + [Break] + rest)
            == Continue(cfg, Completed(cfg, out + Print(cfg, Chunks(chunks, isText), level), level, stack), rest)
  {
    hide Drive, StringText, Opening, NewLine, JoinChunks;
    var deep := Deeper(cfg, level);
    var tok := if isText then TextString(chunks[0]) else ByteString(chunks[0]);
    var more := ChunkTokens(chunks[1..], isText) + [Break] + rest;
    assert ChunkTokens(chunks, isText) + [Break] + rest == [tok] + more;
    var st := EdnState(out, level, On(EdnFrame(EString(isText), 0, false), stack));
    DriveToken(cfg, st, tok, more);
    LevelComesBack(cfg, level);
    var first := Opening(cfg, L_PAREN, level, true) + StringText(cfg, chunks[0], isText, deep);
    MoreChunksPrint(cfg, out + first, deep, stack, chunks[1..], isText, rest);
    ChunksJoined(cfg, chunks, isText, deep);
    var tail := MoreChunks(cfg, chunks[1..], isText, deep);
    assert out + Opening(cfg, L_PAREN, level, true) + StringText(cfg, chunks[0], isText, deep) == out + first;
    assert out + first + tail + NewLine(cfg, level, false) + [R_PAREN]
        == out + (Opening(cfg, L_PAREN, level, true) + (StringText(cfg, chunks[0], isText, deep) + tail)
                  + NewLine(cfg, level, false) + [R_PAREN]);
  }

  /** The chunks after the first, each with its separator. */
  function MoreChunks(cfg: EdnConfig, chunks: seq<bytes>, isText: bool, level: int): bytes {
    if chunks == [] then [] else Separator(cfg, level) + JoinChunks(cfg, chunks, isText, level)
  }

  lemma ChunksJoined(cfg: EdnConfig, chunks: seq<bytes>, isText: bool, level: int)
    requires chunks != []
    ensures JoinChunks(cfg, chunks, isText, level)
            == StringText(cfg, chunks[0], isText, level) + MoreChunks(cfg, chunks[1..], isText, level)
  {
  }

  lemma {:induction false} MoreChunksPrint(
    cfg: EdnConfig, out: bytes, level: int, stack: EdnStack, chunks: seq<bytes>, isText: bool, rest: seq<Token>)
    ensures Drive(cfg, EdnState(out, level, On(EdnFrame(EString(isText), 0, true), stack)),
                  ChunkTokens(chunks, isText) + [Break] + rest)
            == Continue(cfg, Close(cfg, out + MoreChunks(cfg, chunks, isText, level), level, stack, R_PAREN), rest)
    decreases |chunks|
  {
    hide Drive, StringText, JoinChunks, Separator, NewLine;
    var st := EdnState(out, level, On(EdnFrame(EString(isText), 0, true), stack));
    if chunks == [] {
      assert ChunkTokens(chunks, isText) + [Break] + rest == [Break] + rest;
      DriveToken(cfg, st, Break, rest);
      assert out + [] == out;
    } else {
      var tok := if isText then TextString(chunks[0]) else ByteString(chunks[0]);
      var more := ChunkTokens(chunks[1..], isText) + [Break] + rest;
      assert ChunkTokens(chunks, isText) + [Break] + rest == [tok] + more;
      DriveToken(cfg, st, tok, more);
      var first := Separator(cfg, level) + StringText(cfg, chunks[0], isText, level);
      assert out + Separator(cfg, level) + StringText(cfg, chunks[0], isText, level) == out + first;
      MoreChunksPrint(cfg, out + first, level, stack, chunks[1..], isText, rest);
      ChunksJoined(cfg, chunks, isText, level);
      assert out + first + MoreChunks(cfg, chunks[1..], isText, level) == out + MoreChunks(cfg, chunks, isText, level);
    }
  }

  // ----- Tags -----

  lemma TagCloses(cfg: EdnConfig, out: bytes, level: int, stack: EdnStack)
    ensures var up := Shallower(cfg, level);
            Completed(cfg, out, level, On(EdnFrame(ETag(true), 1, false), stack))
            == Completed(cfg, out + NewLine(cfg, up, false) + [R_PAREN], up, stack)
  {
    assert Completed(cfg, out, level, On(EdnFrame(ETag(true), 1, false), stack)) == Close(cfg, out, level, stack, R_PAREN);
  }

  /** The content of a tag as it is printed. */
  function InTag(cfg: EdnConfig, content: Item, level: int): bytes {
    if content.ByteStr? && Wraps(cfg, content.s)
    then NewLine(cfg, Deeper(cfg, level), false) + Print(cfg, content, Deeper(cfg, level)) + NewLine(cfg, level, false)
    else Print(cfg, content, level)
  }

  lemma PrintTag(cfg: EdnConfig, id: nat, content: Item, level: int)
    ensures Print(cfg, Tagged(id, content), level) == DecimalInt.Print(id) + [L_PAREN] + InTag(cfg, content, level) + [R_PAREN]
  {
    hide NewLine, DecimalInt.Print;
  }

  const IN_TAG: EdnFrame := EdnFrame(ETag(false), 1, false)

  lemma TagOpens(cfg: EdnConfig, out: bytes, level: int, stack: EdnStack, id: nat, content: Item, rest: seq<Token>)
    requires EdnHeight(stack) < cfg.maxDepth
    ensures Drive(cfg, EdnState(out, level, stack), Tokens(Tagged(id, content)) + rest)
            == Drive(cfg, EdnState(out + DecimalInt.Print(id) + [L_PAREN], level, On(IN_TAG, stack)), Tokens(content) + rest)
  {
    hide Drive, DecimalInt.Print, EdnHeight;
    Concat([TagHead(id)], Tokens(content), rest);
    DriveToken(cfg, EdnState(out, level, stack), TagHead(id), Tokens(content) + rest);
  }

  lemma TagEnds(cfg: EdnConfig, out: bytes, level: int, stack: EdnStack)
    ensures Completed(cfg, out, level, On(IN_TAG, stack)) == Completed(cfg, out + [R_PAREN], level, stack)
  {
  }

  lemma TagText(out: bytes, id: bytes, inner: bytes)
    ensures out + id + [L_PAREN] + inner + [R_PAREN] == out + (id + [L_PAREN] + inner + [R_PAREN])
  {
    Concat(out, id, [L_PAREN]);
    Concat(out, id + [L_PAREN], inner);
    Concat(out, id + [L_PAREN] + inner, [R_PAREN]);
  }

  /** A byte string on lines of its own. */
  lemma WrappedPrints(cfg: EdnConfig, out: bytes, level: int, stack: EdnStack, content: Item, rest: seq<Token>)
    requires ConfigOk(cfg) && WrappedIn(cfg, content, On(IN_TAG, stack))
    ensures Drive(cfg, EdnState(out, level, On(IN_TAG, stack)), Tokens(content) + rest)
            == Continue(cfg, Completed(cfg, out + InTag(cfg, content, level) + [R_PAREN], level, stack), rest)
  {
    hide Drive, Continue, StringText, NewLine, Completed;
    var deep := Deeper(cfg, level);
    var text, before, after := StringText(cfg, content.s, false, deep), NewLine(cfg, deep, false), NewLine(cfg, level, false);
    DriveToken(cfg, EdnState(out, level, On(IN_TAG, stack)), ByteString(content.s), rest);
    LevelComesBack(cfg, level);
    TagCloses(cfg, out + before + text, deep, stack);
    Concat(out, before, text);
    Concat(out, before + text, after);
  }

  lemma {:induction false} TagPrints(
    cfg: EdnConfig, out: bytes, level: int, stack: EdnStack, id: nat, content: Item, rest: seq<Token>)
    requires ConfigOk(cfg) && WellFormed(content) && EdnHeight(stack) + 1 + Nesting(content) <= cfg.maxDepth
    ensures var item := Tagged(id, content);
            Drive(cfg, EdnState(out, level, stack), Tokens(item) + rest)
            == Continue(cfg, Completed(cfg, out + Print(cfg, item, level), level, stack), rest)
    decreases content, 1
  {
    hide Drive, Continue, StringText, NewLine, Nesting, Print, Completed, Tokens, DecimalInt.Print, Wraps;
    var out1 := out + DecimalInt.Print(id) + [L_PAREN];
    TagOpens(cfg, out, level, stack, id, content, rest);
    PrintTag(cfg, id, content, level);
    TagText(out, DecimalInt.Print(id), InTag(cfg, content, level));
    if WrappedIn(cfg, content, On(IN_TAG, stack)) {
      WrappedPrints(cfg, out1, level, stack, content, rest);
    } else {
      ItemPrints(cfg, out1, level, On(IN_TAG, stack), content, rest);
      TagEnds(cfg, out1 + Print(cfg, content, level), level, stack);
    }
  }

  // ----- Arrays -----

  lemma {:induction false} ArrayPrints(
    cfg: EdnConfig, out: bytes, level: int, stack: EdnStack, elems: seq<Item>, indef: bool, rest: seq<Token>)
    requires ConfigOk(cfg) && WellFormed(Arr(elems, indef)) && EdnHeight(stack) + Nesting(Arr(elems, indef)) <= cfg.maxDepth
    ensures var item := Arr(elems, indef);
            Drive(cfg, EdnState(out, level, stack), Tokens(item) + rest)
            == Continue(cfg, Completed(cfg, out + Print(cfg, item, level), level, stack), rest)
    decreases elems, 2
  {
    hide Drive, Opening, NewLine, JoinItems, Print, EdnHeight, Completed, TokensOfAll;
    var st, deep, open := EdnState(out, level, stack), Deeper(cfg, level), Opening(cfg, L_BRACKET, level, indef);
    PrintArray(cfg, elems, indef, level);
    LevelComesBack(cfg, level);
    if indef {
      assert Tokens(Arr(elems, indef)) + rest == [ArrayStart] + (TokensOfAll(elems) + [Break] + rest);
      DriveToken(cfg, st, ArrayStart, TokensOfAll(elems) + [Break] + rest);
      IndefElemsPrint(cfg, out + open, deep, stack, false, elems, rest);
      EmptyOrJoined(cfg, elems, deep);
    } else {
      assert Tokens(Arr(elems, indef)) + rest == [Array(|elems|)] + (TokensOfAll(elems) + rest);
      DriveToken(cfg, st, Array(|elems|), TokensOfAll(elems) + rest);
      if elems == [] {
        NoTokens(elems, rest);
      } else {
        ElemsPrint(cfg, out + open, deep, stack, false, elems, rest);
      }
    }
    var inner := JoinItems(cfg, elems, deep);
    assert out + open + [] == out + open;
    assert out + open + inner + NewLine(cfg, level, false) + [R_BRACKET]
        == out + (open + inner + NewLine(cfg, level, false) + [R_BRACKET]);
  }

  lemma PrintArray(cfg: EdnConfig, elems: seq<Item>, indef: bool, level: int)
    ensures Print(cfg, Arr(elems, indef), level) ==
            if elems == [] && !indef then Ascii("[]")
            else Opening(cfg, L_BRACKET, level, indef) + JoinItems(cfg, elems, Deeper(cfg, level))
                 + NewLine(cfg, level, false) + [R_BRACKET]
  {
  }

  lemma EmptyOrJoined(cfg: EdnConfig, elems: seq<Item>, level: int)
    ensures elems == [] ==> JoinItems(cfg, elems, level) == []
  {
  }

  predicate AllWellFormed(elems: seq<Item>) { forall i :: 0 <= i < |elems| ==> WellFormed(elems[i]) }

  /** The first element of an array, and what the machine does next. */
  lemma {:induction false} FirstElemPrints(
    cfg: EdnConfig, out: bytes, level: int, stack: EdnStack, f: EdnFrame, elems: seq<Item>, rest: seq<Token>)
    requires ConfigOk(cfg) && elems != [] && AllWellFormed(elems) && f.kind.EArray?
    requires EdnHeight(stack) + 1 + NestingAll(elems) <= cfg.maxDepth
    ensures Drive(cfg, EdnState(out, level, On(f, stack)), TokensOfAll(elems) + rest)
            == Continue(cfg, Completed(cfg, out + Print(cfg, elems[0], level), level, On(f, stack)), TokensOfAll(elems[1..]) + rest)
    decreases elems, 0
  {
    hide Drive, Continue, Completed, Print, Tokens, Nesting, WellFormed;
    Concat(Tokens(elems[0]), TokensOfAll(elems[1..]), rest);
    ItemPrints(cfg, out, level, On(f, stack), elems[0], TokensOfAll(elems[1..]) + rest);
  }

  lemma {:induction false} ElemsPrint(
    cfg: EdnConfig, out: bytes, level: int, stack: EdnStack, appended: bool, elems: seq<Item>, rest: seq<Token>)
    requires ConfigOk(cfg) && elems != [] && AllWellFormed(elems)
    requires EdnHeight(stack) + 1 + NestingAll(elems) <= cfg.maxDepth
    ensures Drive(cfg, EdnState(out, level, On(EdnFrame(EArray, |elems|, appended), stack)), TokensOfAll(elems) + rest)
            == Continue(cfg, Close(cfg, out + JoinItems(cfg, elems, level), level, stack, R_BRACKET), rest)
    decreases elems, 1
  {
    hide Drive, Print, Tokens, TokensOfAll, Nesting, WellFormed, Separator, Close;
    FirstElemPrints(cfg, out, level, stack, EdnFrame(EArray, |elems|, appended), elems, rest);
    var text, sep := Print(cfg, elems[0], level), Separator(cfg, level);
    if |elems| == 1 {
      NoTokens(elems[1..], rest);
      assert text + [] == text;
    } else {
      ElemsPrint(cfg, out + text + sep, level, stack, true, elems[1..], rest);
      Concat4(out, text, sep, JoinItems(cfg, elems[1..], level));
    }
  }

  lemma NoTokens(elems: seq<Item>, rest: seq<Token>)
    requires elems == []
    ensures TokensOfAll(elems) + rest == rest
  {
    EmptyConcat(rest);
  }

  /** The text of an indefinite-length array at its break, given the elements still to come. */
  function BeforeBreak(out: bytes, appended: bool, joined: bytes, none: bool): bytes {
    if !none then out + joined else if appended then Trim(out) else out
  }

  lemma {:induction false} IndefElemsPrint(
    cfg: EdnConfig, out: bytes, level: int, stack: EdnStack, appended: bool, elems: seq<Item>, rest: seq<Token>)
    requires ConfigOk(cfg) && AllWellFormed(elems) && EdnHeight(stack) + 1 + NestingAll(elems) <= cfg.maxDepth
    ensures Drive(cfg, EdnState(out, level, On(EdnFrame(EArray, 0, appended), stack)), TokensOfAll(elems) + [Break] + rest)
            == Continue(cfg, Close(cfg, BeforeBreak(out, appended, JoinItems(cfg, elems, level), elems == []), level, stack, R_BRACKET), rest)
    decreases elems, 1
  {
    hide Drive, Print, Tokens, TokensOfAll, Nesting, WellFormed, Separator, Close, Trim;
    Concat(TokensOfAll(elems), [Break], rest);
    if elems == [] {
      NoTokens(elems, [Break] + rest);
      DriveToken(cfg, EdnState(out, level, On(EdnFrame(EArray, 0, appended), stack)), Break, rest);
    } else {
      FirstElemPrints(cfg, out, level, stack, EdnFrame(EArray, 0, appended), elems, [Break] + rest);
      var text, sep := Print(cfg, elems[0], level), Separator(cfg, level);
      Concat(TokensOfAll(elems[1..]), [Break], rest);
      IndefElemsPrint(cfg, out + text + sep, level, stack, true, elems[1..], rest);
      SeparatorRemoved(cfg, out, elems[0], level);
      Concat4(out, text, sep, JoinItems(cfg, elems[1..], level));
      assert text + [] == text;
    }
  }

  lemma SeparatorRemoved(cfg: EdnConfig, out: bytes, item: Item, level: int)
    requires ConfigOk(cfg) && WellFormed(item)
    ensures Trim(out + Print(cfg, item, level) + Separator(cfg, level)) == out + Print(cfg, item, level)
  {
    hide Print, EndsWell;
    ItemEndsWell(cfg, item, level);
    EndsWellAfter(out, Print(cfg, item, level));
    SeparatorSeparates(cfg, level);
    TrimSeparator(out + Print(cfg, item, level), Separator(cfg, level));
  }

  // ----- Maps -----

  lemma {:induction false} DictPrints(
    cfg: EdnConfig, out: bytes, level: int, stack: EdnStack, members: seq<Member>, indef: bool, rest: seq<Token>)
    requires ConfigOk(cfg) && WellFormed(Dict(members, indef))
    requires EdnHeight(stack) + Nesting(Dict(members, indef)) <= cfg.maxDepth
    ensures var item := Dict(members, indef);
            Drive(cfg, EdnState(out, level, stack), Tokens(item) + rest)
            == Continue(cfg, Completed(cfg, out + Print(cfg, item, level), level, stack), rest)
    decreases members, 4
  {
    hide Drive, Opening, NewLine, JoinMembers, Print, EdnHeight, Completed;
    var st, deep, open := EdnState(out, level, stack), Deeper(cfg, level), Opening(cfg, L_BRACE, level, indef);
    PrintDict(cfg, members, indef, level);
    LevelComesBack(cfg, level);
    if indef {
      assert Tokens(Dict(members, indef)) + rest == [MapStart] + (TokensOf(members) + [Break] + rest);
      DriveToken(cfg, st, MapStart, TokensOf(members) + [Break] + rest);
      IndefMembersPrint(cfg, out + open, deep, stack, false, members, rest);
      NoneOrJoined(cfg, members, deep);
    } else {
      assert Tokens(Dict(members, indef)) + rest == [Map(|members|)] + (TokensOf(members) + rest);
      DriveToken(cfg, st, Map(|members|), TokensOf(members) + rest);
      if members == [] {
        assert TokensOf(members) + rest == rest;
      } else {
        MembersPrint(cfg, out + open, deep, stack, false, members, rest);
      }
    }
    var inner := JoinMembers(cfg, members, deep);
    assert out + open + [] == out + open;
    assert out + open + inner + NewLine(cfg, level, false) + [R_BRACE]
        == out + (open + inner + NewLine(cfg, level, false) + [R_BRACE]);
  }

  lemma PrintDict(cfg: EdnConfig, members: seq<Member>, indef: bool, level: int)
    ensures Print(cfg, Dict(members, indef), level) ==
            if members == [] && !indef then Ascii("{}")
            else Opening(cfg, L_BRACE, level, indef) + JoinMembers(cfg, members, Deeper(cfg, level))
                 + NewLine(cfg, level, false) + [R_BRACE]
  {
  }

  lemma NoneOrJoined(cfg: EdnConfig, members: seq<Member>, level: int)
    ensures members == [] ==> JoinMembers(cfg, members, level) == []
  {
  }

  predicate AllMembersOk(members: seq<Member>) {
    forall i :: 0 <= i < |members| ==> WellFormed(members[i].key) && WellFormed(members[i].val)
  }

  lemma {:induction false} MemberPrints(
    cfg: EdnConfig, out: bytes, level: int, stack: EdnStack, count: nat, appended: bool, m: Member, rest: seq<Token>)
    requires ConfigOk(cfg) && WellFormed(m.key) && WellFormed(m.val)
    requires EdnHeight(stack) + 1 + MemberNesting(m) <= cfg.maxDepth
    ensures Drive(cfg, EdnState(out, level, On(EdnFrame(EMap(true), count, appended), stack)), MemberTokens(m) + rest)
            == Continue(cfg, Completed(cfg, out + PrintMember(cfg, m, level), level,
                                       On(EdnFrame(EMap(false), count, appended), stack)), rest)
    decreases m, 1
  {
    hide Drive, Print, Tokens, Nesting, WellFormed, Separator, Close, Completed, Sp;
    var keyed := On(EdnFrame(EMap(true), count, appended), stack);
    var valued := On(EdnFrame(EMap(false), count, appended), stack);
    Concat(Tokens(m.key), Tokens(m.val), rest);
    ItemPrints(cfg, out, level, keyed, m.key, Tokens(m.val) + rest);
    var key, colon, val := Print(cfg, m.key, level), [COLON], Print(cfg, m.val, level);
    KeyCompleted(cfg, out + key, level, stack, count, appended);
    ItemPrints(cfg, out + key + colon + Sp(cfg.space), level, valued, m.val, rest);
    assert out + key + colon + Sp(cfg.space) + val == out + (key + colon + Sp(cfg.space) + val);
  }

  lemma KeyCompleted(cfg: EdnConfig, out: bytes, level: int, stack: EdnStack, count: nat, appended: bool)
    ensures Completed(cfg, out, level, On(EdnFrame(EMap(true), count, appended), stack))
            == EdnState(out + [COLON] + Sp(cfg.space), level, On(EdnFrame(EMap(false), count, appended), stack))
  {
  }

  lemma {:induction false} FirstMemberPrints(
    cfg: EdnConfig, out: bytes, level: int, stack: EdnStack, count: nat, appended: bool, members: seq<Member>,
    rest: seq<Token>)
    requires ConfigOk(cfg) && members != [] && AllMembersOk(members)
    requires EdnHeight(stack) + 1 + NestingOf(members) <= cfg.maxDepth
    ensures Drive(cfg, EdnState(out, level, On(EdnFrame(EMap(true), count, appended), stack)), TokensOf(members) + rest)
            == Continue(cfg, Completed(cfg, out + PrintMember(cfg, members[0], level), level,
                                       On(EdnFrame(EMap(false), count, appended), stack)), TokensOf(members[1..]) + rest)
    decreases members, 2
  {
    hide Drive, Continue, Completed, PrintMember, MemberTokens, MemberNesting, WellFormed;
    Concat(MemberTokens(members[0]), TokensOf(members[1..]), rest);
    MemberPrints(cfg, out, level, stack, count, appended, members[0], TokensOf(members[1..]) + rest);
  }

  lemma {:induction false} MembersPrint(
    cfg: EdnConfig, out: bytes, level: int, stack: EdnStack, appended: bool, members: seq<Member>, rest: seq<Token>)
    requires ConfigOk(cfg) && members != [] && AllMembersOk(members)
    requires EdnHeight(stack) + 1 + NestingOf(members) <= cfg.maxDepth
    ensures Drive(cfg, EdnState(out, level, On(EdnFrame(EMap(true), |members|, appended), stack)), TokensOf(members) + rest)
            == Continue(cfg, Close(cfg, out + JoinMembers(cfg, members, level), level, stack, R_BRACE), rest)
    decreases members, 3
  {
    hide Drive, PrintMember, TokensOf, MemberNesting, WellFormed, Separator, Close;
    FirstMemberPrints(cfg, out, level, stack, |members|, appended, members, rest);
    var text, sep := PrintMember(cfg, members[0], level), Separator(cfg, level);
    if |members| == 1 {
      NoMemberTokens(members[1..], rest);
      assert text + [] == text;
    } else {
      MembersPrint(cfg, out + text + sep, level, stack, true, members[1..], rest);
      Concat4(out, text, sep, JoinMembers(cfg, members[1..], level));
    }
  }

  lemma NoMemberTokens(members: seq<Member>, rest: seq<Token>)
    requires members == []
    ensures TokensOf(members) + rest == rest
  {
    EmptyConcat(rest);
  }

  lemma {:induction false} IndefMembersPrint(
    cfg: EdnConfig, out: bytes, level: int, stack: EdnStack, appended: bool, members: seq<Member>, rest: seq<Token>)
    requires ConfigOk(cfg) && AllMembersOk(members) && EdnHeight(stack) + 1 + NestingOf(members) <= cfg.maxDepth
    ensures Drive(cfg, EdnState(out, level, On(EdnFrame(EMap(true), 0, appended), stack)), TokensOf(members) + [Break] + rest)
            == Continue(cfg, Close(cfg, BeforeBreak(out, appended, JoinMembers(cfg, members, level), members == []), level, stack, R_BRACE), rest)
    decreases members, 3
  {
    hide Drive, PrintMember, TokensOf, MemberNesting, WellFormed, Separator, Close, Trim;
    Concat(TokensOf(members), [Break], rest);
    if members == [] {
      NoMemberTokens(members, [Break] + rest);
      DriveToken(cfg, EdnState(out, level, On(EdnFrame(EMap(true), 0, appended), stack)), Break, rest);
    } else {
      FirstMemberPrints(cfg, out, level, stack, 0, appended, members, [Break] + rest);
      var text, sep := PrintMember(cfg, members[0], level), Separator(cfg, level);
      Concat(TokensOf(members[1..]), [Break], rest);
      IndefMembersPrint(cfg, out + text + sep, level, stack, true, members[1..], rest);
      MemberSeparatorRemoved(cfg, out, members[0], level);
      Concat4(out, text, sep, JoinMembers(cfg, members[1..], level));
      assert text + [] == text;
    }
  }

  lemma MemberSeparatorRemoved(cfg: EdnConfig, out: bytes, m: Member, level: int)
    requires ConfigOk(cfg) && WellFormed(m.val)
    ensures Trim(out + PrintMember(cfg, m, level) + Separator(cfg, level)) == out + PrintMember(cfg, m, level)
  {
    hide Print, EndsWell;
    ItemEndsWell(cfg, m.val, level);
    EndsWellAfter(Print(cfg, m.key, level) + [COLON] + Sp(cfg.space), Print(cfg, m.val, level));
    EndsWellAfter(out, PrintMember(cfg, m, level));
    SeparatorSeparates(cfg, level);
    TrimSeparator(out + PrintMember(cfg, m, level), Separator(cfg, level));
  }

  /**
   A well-formed item printed from the beginning: the whole text is that of the recursive printer, and
   the indentation level is back at 0.
   */
  lemma StreamingPrintsRecursively(cfg: EdnConfig, item: Item, rest: seq<Token>)
    requires ConfigOk(cfg) && WellFormed(item) && Nesting(item) <= cfg.maxDepth
    ensures Drive(cfg, EdnState([], 0, Bottom), Tokens(item) + rest) == Printed(EdnState(Print(cfg, item, 0), 0, Bottom), rest)
  {
    hide Drive, Print;
    ItemPrints(cfg, [], 0, Bottom, item, rest);
    EmptyConcat(Print(cfg, item, 0));
  }

  // ----- Bytes -----

  /** `s` is the tokens `toks`, written in whatever way, and then `rest`. */
  ghost predicate Spells(s: bytes, toks: seq<Token>, rest: bytes)
    decreases |toks|
  {
    if toks == [] then s == rest
    else Lex(s).Tok? && Lex(s).tok == toks[0] && Spells(s[Lex(s).len..], toks[1..], rest)
  }

  lemma {:induction false} BytesPrintAsTokens(cfg: EdnConfig, st: EdnState, s: bytes, toks: seq<Token>, rest: bytes)
    requires Spells(s, toks, rest) && Drive(cfg, st, toks).Printed? && Drive(cfg, st, toks).rest == []
    ensures DriveBytes(cfg, st, s) == Finished(Drive(cfg, st, toks).st, rest)
    decreases |toks|
  {
    hide Lex, Act;
    var r := Act(cfg, st, toks[0]);
    if r.Ok? {
      if r.value.stack.Bottom? {
        assert toks[1..] == [];
      } else {
        BytesPrintAsTokens(cfg, r.value, s[Lex(s).len..], toks[1..], rest);
      }
    }
  }

  /**
   Printing the bytes of a well-formed item, in any encoding of its heads, gives the text of the
   recursive printer and leaves what follows the item.
   */
  lemma EncodedItemPrints(cfg: EdnConfig, item: Item, s: bytes, rest: bytes)
    requires ConfigOk(cfg) && WellFormed(item) && Nesting(item) <= cfg.maxDepth && Spells(s, Tokens(item), rest)
    ensures DriveBytes(cfg, EdnState([], 0, Bottom), s) == Finished(EdnState(Print(cfg, item, 0), 0, Bottom), rest)
  {
    hide Drive, Print, Spells;
    StreamingPrintsRecursively(cfg, item, []);
    assert Tokens(item) + [] == Tokens(item);
    BytesPrintAsTokens(cfg, EdnState([], 0, Bottom), s, Tokens(item), rest);
  }
}
