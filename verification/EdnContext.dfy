/** The printing context of decode_edn.h as an object: an output string that grows and is cut back, and a stack. */
module EdnContext {
  import opened Bytes
  import opened Wrappers
  import opened Values
  import opened Wire
  import opened DecoderConfig
  import opened EdnStrings
  import opened EdnPrinter
  import opened EdnRefinement
  import EdnOutput
  import EdnReader
  import DecimalInt
  import RecursiveDecoder
  import Utf8

  /** One turn of the loop over a text: what it writes, how many bytes it reads, and the fragment it leaves open. */
  datatype Turn = Turn(piece: bytes, used: nat, inText: bool)

  function TurnOf(space: bool, s: bytes, inText: bool): (t: Turn)
    requires s != []
    ensures t.used <= |s| && (t.used > 0 || (inText && !t.inText))
  {
    if !inText && IsAsciiControl(s[0]) then Turn(Hex(s[0]), 1, false)
    else if Escape(s[0]).Some? then Turn(ToText(space, inText) + [BACKSLASH, Escape(s[0]).value], 1, true)
    else if !IsAsciiControl(s[0]) then OtherTurn(space, s, inText)
    else if |s| > 1 && IsAsciiControl(s[1]) then Turn(ToHex(space, inText), 0, false)
    else Turn([BACKSLASH, LOWER_U] + Hex4(s[0]), 1, true)
  }

  function OtherTurn(space: bool, s: bytes, inText: bool): (t: Turn)
    requires s != []
    ensures 0 < t.used <= |s|
  {
    var n := Utf8.CharLen(s);
    var k := 1 + LeadRun(s[1..]);
    if n == 0 then Turn(ToHex(space, inText) + HexAll(s[..k]), k, false)
    else Turn(ToText(space, inText) + CharText(s), n, true)
  }

  /** The rest of a text is written turn by turn. */
  lemma TurnIsNext(space: bool, s: bytes, inText: bool)
    requires s != []
    ensures var t := TurnOf(space, s, inText);
            TextRest(space, s, inText) == t.piece + TextRest(space, s[t.used..], t.inText)
  {
    hide ToText, ToHex, Hex, Hex4, HexAll, CharText, Utf8.CharLen, LeadRun, Escape;
    assert s[0..] == s;
  }

  /** What is left to write after `done` of a text. */
  lemma TextStep(out: bytes, piece: bytes, rest: bytes)
    ensures out + (piece + rest) == out + piece + rest
  {
  }

  lemma HexAllOne(b: byte)
    ensures HexAll([b]) == Hex(b)
  {
    assert [b][1..] == [];
    assert Hex(b) + [] == Hex(b);
  }

  lemma {:induction false} HexAllMore(s: bytes, b: byte)
    ensures HexAll(s + [b]) == HexAll(s) + Hex(b)
  {
    hide Hex;
    if s == [] {
      HexAllOne(b);
      assert [] + [b] == [b];
    } else {
      HexAllMore(s[1..], b);
      assert (s + [b])[1..] == s[1..] + [b];
    }
  }

  lemma EndOfText(space: bool, inText: bool)
    ensures TextRest(space, [], inText) == [if inText then QUOTE else APOSTROPHE]
  {
  }

  /** Scalar values are never taken for the mark of an invalid character. */
  lemma ScalarIsValid(s: bytes)
    ensures Utf8.CharLen(s) > 0 ==> Utf8.Scalar(s) != Utf8.INVALID
  {
    if Utf8.CharLen(s) > 0 {
      Utf8.ScalarEncodes(s);
    }
  }

  lemma ByteStep(sp: Spacing, s: bytes, i: nat, offset: nat)
    requires i < |s|
    ensures ByteRest(sp, s[i..], offset)
            == Gap(sp, offset) + Hex(s[i]) + ByteRest(sp, s[i + 1..], NextOffset(sp, offset))
  {
    hide Gap, Hex, NextOffset;
    assert s[i..][1..] == s[i + 1..];
  }

  lemma EndOfBytes(sp: Spacing, offset: nat)
    ensures ByteRest(sp, [], offset) == [APOSTROPHE]
  {
  }

  // ----- There is something before the separator -----

  predicate HasText(out: bytes) { exists i :: 0 <= i < |out| && !IsSeparator(out[i]) }

  /** Is there a frame for which something has been written? */
  predicate NeedsText(stack: EdnStack) { stack.On? && (!stack.top.kind.EString? || NeedsText(stack.below)) }

  /** Inside an array, a map or a tag, its opening at least has been written. */
  predicate Written(st: EdnState) { NeedsText(st.stack) ==> HasText(st.out) }

  lemma TextStays(a: bytes, b: bytes, c: byte)
    ensures HasText(a) ==> HasText(a + b)
    ensures !IsSeparator(c) ==> HasText(a + [c]) && HasText(a + [c] + b)
  {
    if HasText(a) {
      var i :| 0 <= i < |a| && !IsSeparator(a[i]);
      assert (a + b)[i] == a[i];
    }
    if !IsSeparator(c) {
      assert (a + [c])[|a|] == c && (a + [c] + b)[|a|] == c;
    }
  }

  lemma {:induction false} CompletedWrites(cfg: EdnConfig, out: bytes, level: int, stack: EdnStack)
    requires Written(EdnState(out, level, stack))
    ensures Written(Completed(cfg, out, level, stack))
    decreases stack, 0
  {
    hide HasText, NewLine, Separator;
    if stack.On? {
      var f, below := stack.top, stack.below;
      match f.kind
      case EArray =>
        TextStays(out, Separator(cfg, level), COMMA);
        if f.count == 1 {
          CloseWrites(cfg, out, level, below, R_BRACKET);
        }
      case EMap(isKey) =>
        TextStays(out, Separator(cfg, level), COMMA);
        TextStays(out, Sp(cfg.space), COLON);
        if !isKey && f.count == 1 {
          CloseWrites(cfg, out, level, below, R_BRACE);
        }
      case ETag(indented) =>
        TextStays(out, [], R_PAREN);
        if indented {
          CloseWrites(cfg, out, level, below, R_PAREN);
        } else {
          CompletedWrites(cfg, out + [R_PAREN], level, below);
        }
      case EString(_) =>
    }
  }

  lemma {:induction false} CloseWrites(cfg: EdnConfig, out: bytes, level: int, below: EdnStack, close: byte)
    requires !IsSeparator(close)
    ensures Written(Close(cfg, out, level, below, close))
    decreases below, 1
  {
    hide HasText, NewLine, Completed;
    var up := Shallower(cfg, level);
    TextStays(out + NewLine(cfg, up, false), [], close);
    CompletedWrites(cfg, out + NewLine(cfg, up, false) + [close], up, below);
  }

  lemma StringWrites(cfg: EdnConfig, st: EdnState, s: bytes, isText: bool)
    requires Written(st) && DoString(cfg, st, s, isText).Ok?
    ensures Written(DoString(cfg, st, s, isText).value)
  {
    hide HasText, NewLine, Completed, Separator, Opening, StringText, Wraps;
    var f := if st.stack.On? then st.stack.top else EdnFrame(EArray, 0, false);
    if InEdnString(st.stack) {
      var level := if f.appended then st.level else Deeper(cfg, st.level);
      var head := if f.appended then Separator(cfg, level) else Opening(cfg, L_PAREN, st.level, true);
      TextStays(st.out, head, COMMA);
      TextStays(st.out + head, StringText(cfg, s, isText, level), COMMA);
      CompletedWrites(cfg, st.out + head + StringText(cfg, s, isText, level), level, On(f.(appended := true), st.stack.below));
    } else {
      TextStays(st.out, StringText(cfg, s, isText, st.level), COMMA);
      CompletedWrites(cfg, st.out + StringText(cfg, s, isText, st.level), st.level, st.stack);
      if st.stack.On? && f.kind == ETag(false) {
        var level := Deeper(cfg, st.level);
        var nl := NewLine(cfg, level, false);
        TextStays(st.out, nl, COMMA);
        TextStays(st.out + nl, StringText(cfg, s, isText, level), COMMA);
        CompletedWrites(cfg, st.out + nl + StringText(cfg, s, isText, level), level, On(f.(kind := ETag(true)), st.stack.below));
      }
    }
  }

  lemma BreakWrites(cfg: EdnConfig, st: EdnState)
    requires Written(st) && DoBreak(cfg, st).Ok?
    ensures Written(DoBreak(cfg, st).value)
  {
    hide HasText, NewLine, Completed, Close, Trim;
    var f, below := st.stack.top, st.stack.below;
    if f.kind.EString? && !f.appended {
      var text := if f.kind.isText then Ascii("\"\"_") else Ascii("''_");
      TextStays(st.out, text, COMMA);
      CompletedWrites(cfg, st.out + text, st.level, below);
    } else {
      CloseWrites(cfg, if !f.kind.EString? && f.appended then Trim(st.out) else st.out, st.level, below,
                  if f.kind.EString? then R_PAREN else if f.kind.EArray? then R_BRACKET else R_BRACE);
    }
  }

  lemma OpeningWrites(cfg: EdnConfig, out: bytes, open: byte, level: int, indef: bool)
    requires !IsSeparator(open)
    ensures HasText(out + Opening(cfg, open, level, indef))
  {
    hide NewLine;
    assert (out + Opening(cfg, open, level, indef))[|out|] == open;
  }

  /** Every token keeps it so. */
  lemma ActWrites(cfg: EdnConfig, st: EdnState, tok: Token)
    requires Written(st) && Act(cfg, st, tok).Ok?
    ensures Written(Act(cfg, st, tok).value)
  {
    hide HasText, NewLine, Completed, DoString, DoBreak, Opening, ScalarText;
    match tok
    case ByteString(s) => StringWrites(cfg, st, s, false);
    case TextString(s) => StringWrites(cfg, st, s, true);
    case ByteStart =>
    case TextStart =>
    case Array(n) =>
      TextStays(st.out, Ascii("[]"), COMMA);
      CompletedWrites(cfg, st.out + Ascii("[]"), st.level, st.stack);
      OpeningWrites(cfg, st.out, L_BRACKET, st.level, false);
    case ArrayStart => OpeningWrites(cfg, st.out, L_BRACKET, st.level, true);
    case Map(n) =>
      TextStays(st.out, Ascii("{}"), COMMA);
      CompletedWrites(cfg, st.out + Ascii("{}"), st.level, st.stack);
      OpeningWrites(cfg, st.out, L_BRACE, st.level, false);
    case MapStart => OpeningWrites(cfg, st.out, L_BRACE, st.level, true);
    case TagHead(n) => TextStays(st.out + DecimalInt.Print(n), [], L_PAREN);
    case Break => BreakWrites(cfg, st);
    case _ =>
      TextStays(st.out, ScalarText(cfg, tok), COMMA);
      CompletedWrites(cfg, st.out + ScalarText(cfg, tok), st.level, st.stack);
  }

  class Context {
    const cfg: EdnConfig
    var str: bytes
    var indentLevel: int
    var stackTop: EdnStack
    var stackDepth: nat
    var cbError: Option<Error>

    constructor (cfg: EdnConfig)
      ensures this.cfg == cfg && Valid() && cbError.None? && GetState() == EdnState([], 0, Bottom)
    {
      this.cfg := cfg;
      str, indentLevel, stackTop, stackDepth, cbError := [], 0, Bottom, 0, None;
    }

    function GetState(): EdnState
      reads this
    {
      EdnState(str, indentLevel, stackTop)
    }

    predicate Valid()
      reads this
    {
      stackDepth == EdnHeight(stackTop)
    }

    /** The fields are those of `r`, or its error was recorded. */
    ghost predicate Reached(r: R<EdnState>)
      reads this
    {
      match r
      case Ok(st) => GetState() == st && Valid() && cbError.None?
      case Err(e) => cbError == Some(e)
    }

    method SetError(e: Error)
      modifies this`cbError
      ensures cbError == if old(cbError).None? then Some(e) else old(cbError)
    {
      if cbError.None? {
        cbError := Some(e);
      }
    }

    // ----- Spaces, line breaks and indentation -----

    method AppendSpace()
      modifies this`str
      ensures str == old(str) + Sp(cfg.space)
    {
      if cfg.space {
        str := str + [SPACE];
      }
    }

    /** `edn_append_nl` */
    method AppendNl(space: bool)
      modifies this`str
      ensures str == old(str) + NewLine(cfg, indentLevel, space)
      ensures str == old(str) + if cfg.indentChar.None? then (if space && cfg.space then [' ' as int] else [])
                                else ['\n' as int] + if cfg.indent > 0 && indentLevel > 0
                                                     then seq(indentLevel, _ => cfg.indentChar.value) else []
    {
      if cfg.indentChar.None? {
        if space {
          AppendSpace();
        }
        return;
      }
      str := str + [NEWLINE];
      if cfg.indent > 0 {
        var i := 0;
        ghost var was := str;
        while i < indentLevel
          invariant 0 <= i && (i <= indentLevel || i == 0) && str == was + seq(i, _ => cfg.indentChar.value)
        {
          str := str + [cfg.indentChar.value];
          i := i + 1;
        }
        assert str == was + if indentLevel > 0 then seq(indentLevel, _ => cfg.indentChar.value) else [];
      }
    }

    method Indent(deeper: bool)
      modifies this`indentLevel
      ensures indentLevel == if deeper then Deeper(cfg, old(indentLevel)) else Shallower(cfg, old(indentLevel))
    {
      if cfg.indentChar.Some? {
        if deeper {
          indentLevel := indentLevel + cfg.indent;
        } else {
          indentLevel := indentLevel - cfg.indent;
        }
      }
    }

    /** `edn_append_indent` */
    method AppendIndent(deeper: bool, space: bool)
      modifies this`indentLevel, this`str
      ensures indentLevel == if deeper then Deeper(cfg, old(indentLevel)) else Shallower(cfg, old(indentLevel))
      ensures str == old(str) + NewLine(cfg, indentLevel, space)
    {
      Indent(deeper);
      AppendNl(space);
    }

    // ----- The stack -----

    /** `stack_pop_item`, nothing from an empty stack; a tag whose content was put on lines of its own ends that. */
    method StackPop() returns (popped: Option<EdnFrame>)
      requires Valid()
      modifies this`stackTop, this`stackDepth, this`indentLevel, this`str
      ensures popped == if old(stackTop).On? then Some(old(stackTop).top) else None
      ensures stackTop == (if popped.Some? then old(stackTop).below else old(stackTop)) && Valid()
      ensures var ends := popped.Some? && popped.value.kind == ETag(true);
              var up := if ends then Shallower(cfg, old(indentLevel)) else old(indentLevel);
              indentLevel == up && str == old(str) + if ends then NewLine(cfg, up, false) else []
    {
      if stackTop.Bottom? {
        return None;
      }
      var item := stackTop.top;
      popped := Some(item);
      stackTop := stackTop.below;
      stackDepth := stackDepth - 1;
      if item.kind == ETag(true) {
        AppendIndent(false, false);
      }
    }

    method StackPush(kind: EdnKind, count: nat)
      requires Valid() && cbError.None?
      modifies this`stackTop, this`stackDepth, this`cbError
      ensures Reached(OpenFrame(cfg, str, indentLevel, old(stackTop), kind, count))
    {
      if stackDepth >= cfg.maxDepth {
        SetError(Depth);
        return;
      }
      stackDepth := stackDepth + 1;
      stackTop := On(EdnFrame(kind, count, false), stackTop);
    }

    // ----- A value is complete -----

    /** `edn_append`: writes the text of a value, and what its frame says to write after it. */
    method Append(text: bytes)
      requires Valid()
      modifies this
      ensures GetState() == Completed(cfg, old(str) + text, old(indentLevel), old(stackTop))
      ensures Valid() && cbError == old(cbError)
      decreases stackTop, 1
    {
      str := str + text;
      if stackTop.Bottom? {
        return;
      }
      match stackTop.top.kind
      case EArray => AppendToArray();
      case EMap(_) => AppendToMap();
      case ETag(_) => AppendToTag();
      case EString(_) =>
    }

    /** The last item of an array or map: its bracket is written on a line of its own. */
    method AppendCounted(close: byte)
      requires Valid() && stackTop.On? && stackTop.top.kind != ETag(true)
      modifies this
      ensures GetState() == Close(cfg, old(str), old(indentLevel), old(stackTop).below, close)
      ensures Valid() && cbError == old(cbError)
      decreases stackTop, 0, 0
    {
      hide NewLine;
      AppendIndent(false, false);
      ghost var text := str;
      var _ := StackPop();
      assert str == text;
      Append([close]);
    }

    method AppendToArray()
      requires Valid() && stackTop.On? && stackTop.top.kind.EArray?
      modifies this
      ensures GetState() == Completed(cfg, old(str), old(indentLevel), old(stackTop))
      ensures Valid() && cbError == old(cbError)
      decreases stackTop, 0, 1
    {
      hide NewLine;
      var item := stackTop.top;
      if item.count > 0 {
        item := item.(count := item.count - 1);
        if item.count == 0 {
          AppendCounted(R_BRACKET);
          return;
        }
      }
      stackTop := On(item.(appended := true), stackTop.below);
      ghost var was := str;
      str := str + [COMMA];
      AppendNl(true);
      assert str == was + Separator(cfg, indentLevel);
    }

    method AppendToMap()
      requires Valid() && stackTop.On? && stackTop.top.kind.EMap?
      modifies this
      ensures GetState() == Completed(cfg, old(str), old(indentLevel), old(stackTop))
      ensures Valid() && cbError == old(cbError)
      decreases stackTop, 0, 1
    {
      hide NewLine;
      var item := stackTop.top;
      if item.kind.isKey {
        stackTop := On(item.(kind := EMap(false)), stackTop.below);
        str := str + [COLON];
        AppendSpace();
        return;
      }
      if item.count > 0 {
        item := item.(count := item.count - 1);
        if item.count == 0 {
          AppendCounted(R_BRACE);
          return;
        }
      }
      stackTop := On(EdnFrame(EMap(true), item.count, true), stackTop.below);
      ghost var was := str;
      str := str + [COMMA];
      AppendNl(true);
      assert str == was + Separator(cfg, indentLevel);
    }

    method AppendToTag()
      requires Valid() && stackTop.On? && stackTop.top.kind.ETag?
      modifies this
      ensures GetState() == Completed(cfg, old(str), old(indentLevel), old(stackTop))
      ensures Valid() && cbError == old(cbError)
      decreases stackTop, 0, 1
    {
      hide NewLine;
      ghost var was := str;
      var popped := StackPop();
      ghost var item := popped.value;
      assert item.kind == ETag(false) ==> str == was;
      assert item.kind == ETag(true) ==> Completed(cfg, was, old(indentLevel), old(stackTop))
                                         == Close(cfg, was, old(indentLevel), stackTop, R_PAREN);
      Append([R_PAREN]);
    }

    // ----- Strings -----

    method AppendHex(b: byte)
      modifies this`str
      ensures str == old(str) + Hex(b)
    {
      str := str + [HexDigit(b / 16)];
      str := str + [HexDigit(b % 16)];
    }

    /** Changes to a fragment of the wanted kind. */
    method Switch(inText: bool, wanted: bool)
      modifies this`str
      ensures str == old(str) + if wanted then ToText(cfg.space, inText) else ToHex(cfg.space, inText)
    {
      if wanted && !inText {
        str := str + [APOSTROPHE];
        AppendSpace();
        str := str + [QUOTE];
      } else if !wanted && inText {
        str := str + [QUOTE];
        AppendSpace();
        str := str + [LOWER_H, APOSTROPHE];
      }
    }

    /** The bytes written in hexadecimal from an invalid one on; returns where they end. */
    method AppendInvalid(val: bytes, start: nat) returns (next: nat)
      requires start < |val|
      modifies this`str
      ensures next == start + 1 + LeadRun(val[start + 1..]) <= |val|
      ensures str == old(str) + HexAll(val[start..next])
    {
      hide Hex;
      next := start + 1;
      AppendHex(val[start]);
      assert val[start..next] == [val[start]];
      HexAllOne(val[start]);
      while next < |val| && val[next] >= 0xc0
        invariant start < next <= |val|
        invariant str == old(str) + HexAll(val[start..next])
        invariant next + LeadRun(val[next..]) == start + 1 + LeadRun(val[start + 1..])
      {
        HexAllMore(val[start..next], val[next]);
        assert val[start..next] + [val[next]] == val[start..next + 1];
        ghost var was := str;
        AppendHex(val[next]);
        Concat(old(str), HexAll(val[start..next]), Hex(val[next]));
        assert val[next..][1..] == val[next + 1..];
        next := next + 1;
      }
    }

    /** The text part of `edn_do_xstring` */
    method AppendText(val: bytes)
      modifies this`str
      ensures str == old(str) + TextBody(cfg.space, val)
    {
      hide TextRest, ToText, ToHex, Hex, Hex4, HexAll, CharText, Utf8.CharLen;
      var inText, i := true, 0;
      str := str + [QUOTE];
      ghost var all := old(str) + TextBody(cfg.space, val);
      assert val[0..] == val;
      assert str + TextRest(cfg.space, val[0..], true) == all;
      while i < |val|
        invariant i <= |val| && str + TextRest(cfg.space, val[i..], inText) == all
        decreases |val| - i, inText
      {
        inText, i := AppendStep(val, i, inText);
      }
      EndOfText(cfg.space, inText);
      assert val[i..] == [];
      str := str + [if inText then QUOTE else APOSTROPHE];
    }

    /**
     One turn of the loop over a text. A turn that only changes to hexadecimal reads nothing; the next
     one then does.
     */
    method AppendStep(val: bytes, start: nat, wasInText: bool) returns (inText: bool, next: nat)
      requires start < |val|
      modifies this`str
      ensures start <= next <= |val| && (next > start || (wasInText && !inText))
      ensures str + TextRest(cfg.space, val[next..], inText)
              == old(str) + TextRest(cfg.space, val[start..], wasInText)
    {
      hide TextRest, TurnOf;
      ghost var t := TurnOf(cfg.space, val[start..], wasInText);
      inText, next := AppendTurn(val, start, wasInText);
      TurnIsNext(cfg.space, val[start..], wasInText);
      assert val[start..][t.used..] == val[next..];
      TextStep(old(str), t.piece, TextRest(cfg.space, val[next..], inText));
    }

    method AppendTurn(val: bytes, start: nat, wasInText: bool) returns (inText: bool, next: nat)
      requires start < |val|
      modifies this`str
      ensures next <= |val| && Turned(TurnOf(cfg.space, val[start..], wasInText), old(str), start, inText, next)
    {
      hide ToText, ToHex, Hex, Hex4, HexAll, CharText, Utf8.CharLen, LeadRun;
      var c := val[start];
      if !wasInText && IsAsciiControl(c) {
        AppendHex(c);
        return false, start + 1;
      }
      var e := Escape(c);
      if e.Some? {
        AppendEscape(wasInText, e.value);
        return true, start + 1;
      }
      if !IsAsciiControl(c) {
        inText, next := AppendOther(val, start, wasInText);
        return;
      }
      if start + 1 < |val| && IsAsciiControl(val[start + 1]) {
        Switch(wasInText, false);
        return false, start;
      }
      str := str + ([BACKSLASH, LOWER_U] + Hex4(c));
      return true, start + 1;
    }

    /** A turn as it should be has been made. */
    ghost predicate Turned(t: Turn, was: bytes, start: nat, inText: bool, next: nat)
      reads this`str
    {
      str == was + t.piece && next == start + t.used && inText == t.inText
    }

    method AppendEscape(wasInText: bool, c: byte)
      modifies this`str
      ensures str == old(str) + (ToText(cfg.space, wasInText) + [BACKSLASH, c])
    {
      hide ToText;
      Switch(wasInText, true);
      str := str + [BACKSLASH, c];
      Concat(old(str), ToText(cfg.space, wasInText), [BACKSLASH, c]);
    }

    /** A character that is neither a control nor has a short escape, or an invalid byte. */
    method AppendOther(val: bytes, start: nat, wasInText: bool) returns (inText: bool, next: nat)
      requires start < |val|
      modifies this`str
      ensures next <= |val| && Turned(OtherTurn(cfg.space, val[start..], wasInText), old(str), start, inText, next)
    {
      hide ToText, ToHex, HexAll, CharText, Utf8.CharLen, Utf8.Scalar, LeadRun;
      ghost var s := val[start..];
      var cp;
      cp, next := Utf8.NextUtf8(val, start);
      ScalarIsValid(s);
      if cp == Utf8.INVALID {
        Switch(wasInText, false);
        next := AppendInvalid(val, start);
        assert s[1..] == val[start + 1..] && s[..next - start] == val[start..next];
        Concat(old(str), ToHex(cfg.space, wasInText), HexAll(val[start..next]));
        return false, next;
      }
      Switch(wasInText, true);
      AppendChar(val, start, next, cp);
      Concat(old(str), ToText(cfg.space, wasInText), CharText(s));
      return true, next;
    }

    method AppendChar(val: bytes, start: nat, next: nat, cp: nat)
      requires start < next <= |val| && Utf8.CharLen(val[start..]) == next - start && cp == Utf8.Scalar(val[start..])
      modifies this`str
      ensures str == old(str) + CharText(val[start..])
    {
      if IsHidden(cp) {
        str := str + [BACKSLASH, LOWER_U];
        str := str + Hex4(cp);
      } else {
        assert val[start..][..next - start] == val[start..next];
        str := str + val[start..next];
      }
    }

    /** The byte part of `edn_do_xstring` */
    method AppendBytes(val: bytes)
      modifies this`str
      ensures str == old(str) + ByteBody(SpacingAt(cfg, indentLevel), val)
    {
      hide ByteRest, Hex, NewLine, Gap;
      ghost var sp := SpacingAt(cfg, indentLevel);
      var i, offset := 0, 0;
      str := str + [LOWER_H, APOSTROPHE];
      ghost var all := old(str) + ByteBody(sp, val);
      assert val[0..] == val;
      assert str + ByteRest(sp, val[0..], 0) == all;
      while i < |val|
        invariant i <= |val| && str + ByteRest(sp, val[i..], offset) == all
      {
        ByteStep(sp, val, i, offset);
        ghost var was, gap := str, Gap(sp, offset);
        offset := AppendGap(offset);
        AppendHex(val[i]);
        i := i + 1;
        offset := offset + 1;
        TextStep(was, gap + Hex(val[i - 1]), ByteRest(sp, val[i..], offset));
        Concat(was, gap, Hex(val[i - 1]));
      }
      assert val[i..] == [];
      EndOfBytes(sp, offset);
      str := str + [APOSTROPHE];
    }

    /** What stands in front of a byte: spaces, or a line break after which counting starts afresh. */
    method AppendGap(offset: nat) returns (next: nat)
      modifies this`str
      ensures str == old(str) + Gap(SpacingAt(cfg, indentLevel), offset)
      ensures next == if cfg.byteWrap > 0 && offset == cfg.byteWrap then 0 else offset
    {
      hide NewLine;
      if cfg.byteWrap > 0 && offset == cfg.byteWrap {
        str := str + [APOSTROPHE];
        AppendNl(true);
        str := str + [LOWER_H, APOSTROPHE];
        next := 0;
      } else {
        if cfg.byteSpace > 0 && offset > 0 {
          AppendSpaces(offset);
        }
        next := offset;
      }
    }

    /** Writes as many spaces as groups end at `offset`. */
    method AppendSpaces(offset: nat)
      modifies this`str
      ensures str == old(str) + Spaces(SpaceCount(cfg.byteSpace, offset, 1))
    {
      var spaceLen, bm := 0, 1;
      while bm <= 32
        invariant bm > 0 && spaceLen + SpaceCount(cfg.byteSpace, offset, bm) == SpaceCount(cfg.byteSpace, offset, 1)
        decreases 64 - bm
      {
        if cfg.byteSpace / bm % 2 == 1 && offset % bm == 0 {
          spaceLen := spaceLen + 1;
        }
        bm := 2 * bm;
      }
      if spaceLen > 0 {
        str := str + seq(spaceLen, _ => SPACE);
      }
    }

    method AppendString(val: bytes, isText: bool)
      modifies this`str
      ensures str == old(str) + StringText(cfg, val, isText, indentLevel)
    {
      if isText {
        AppendText(val);
      } else {
        AppendBytes(val);
      }
    }

    /** `edn_do_xstring` */
    method DoXString(val: bytes, isText: bool)
      requires Valid() && cbError.None?
      modifies this
      ensures Reached(DoString(cfg, old(GetState()), val, isText))
    {
      hide Completed, TextBody, ByteBody, NewLine;
      if InEdnString(stackTop) {
        DoChunk(val, isText);
        return;
      }
      ghost var was := str;
      if !isText && stackTop.On? && cfg.byteWrap > 0 && |val| > cfg.byteWrap && stackTop.top.kind == ETag(false) {
        stackTop := On(stackTop.top.(kind := ETag(true)), stackTop.below);
        AppendIndent(true, false);
      }
      AppendString(val, isText);
      Append([]);
      assert str + [] == str;
      assert forall s: bytes :: s + [] == s;
    }

    /** A chunk of an indefinite-length string. */
    method DoChunk(val: bytes, isText: bool)
      requires Valid() && cbError.None? && InEdnString(stackTop)
      modifies this
      ensures Reached(DoString(cfg, old(GetState()), val, isText))
    {
      hide Completed, TextBody, ByteBody, NewLine;
      var item := stackTop.top;
      if item.kind.isText != isText {
        SetError(InconsistentStringType);
        return;
      }
      ghost var was, level := str, indentLevel;
      ghost var head := if item.appended then Separator(cfg, level) else Opening(cfg, L_PAREN, level, true);
      if !item.appended {
        stackTop := On(item.(appended := true), stackTop.below);
        str := str + [L_PAREN, UNDERSCORE];
        AppendIndent(true, true);
      } else {
        str := str + [COMMA];
        AppendNl(true);
      }
      assert str == was + head;
      AppendString(val, isText);
      Append([]);
      assert forall s: bytes :: s + [] == s;
    }

    // ----- Containers, tags and scalars -----

    /** `edn_proc_array_start` and `edn_proc_map_start` for a container with items. */
    method StartCounted(open: byte, kind: EdnKind, count: nat)
      requires Valid() && cbError.None? && count > 0
      modifies this
      ensures Reached(OpenFrame(cfg, old(str) + Opening(cfg, open, old(indentLevel), false),
                                Deeper(cfg, old(indentLevel)), old(stackTop), kind, count))
    {
      hide NewLine;
      ghost var was, level := str, indentLevel;
      str := str + [open];
      AppendIndent(true, false);
      assert str == was + Opening(cfg, open, level, false);
      StackPush(kind, count);
    }

    /** `edn_proc_indef_array_start` and `edn_proc_indef_map_start` */
    method StartIndef(open: byte, kind: EdnKind)
      requires Valid() && cbError.None?
      modifies this
      ensures Reached(OpenFrame(cfg, old(str) + Opening(cfg, open, old(indentLevel), true),
                                Deeper(cfg, old(indentLevel)), old(stackTop), kind, 0))
    {
      hide NewLine;
      ghost var was, level := str, indentLevel;
      str := str + [open, UNDERSCORE];
      AppendIndent(true, true);
      assert str == was + Opening(cfg, open, level, true);
      StackPush(kind, 0);
    }

    /** `edn_proc_tag` */
    method ProcTag(id: nat)
      requires Valid() && cbError.None?
      modifies this
      ensures Reached(OpenFrame(cfg, old(str) + DecimalInt.Print(id) + [L_PAREN], old(indentLevel), old(stackTop), ETag(false), 1))
    {
      str := str + DecimalInt.Print(id);
      str := str + [L_PAREN];
      StackPush(ETag(false), 1);
    }

    /**
     Cuts off the separator that was written for an item that did not come. The loop looks at the last byte
     without asking whether there is one; the text before the separator stops it.
     */
    method RemoveSeparator()
      requires HasText(str)
      modifies this`str
      ensures str == Trim(old(str)) && HasText(str)
    {
      while IsSeparator(str[|str| - 1])
        invariant Trim(str) == Trim(old(str)) && HasText(str)
        decreases |str|
      {
        ghost var i :| 0 <= i < |str| && !IsSeparator(str[i]);
        assert str[..|str| - 1][i] == str[i];
        str := str[..|str| - 1];
      }
    }

    /** A break: the item is popped first, then `edn_proc_indef_break`. */
    method ProcBreak()
      requires Valid() && cbError.None? && Written(GetState())
      modifies this
      ensures Reached(DoBreak(cfg, old(GetState())))
    {
      hide Completed, NewLine, Trim;
      ghost var r := DoBreak(cfg, GetState());
      ghost var was := str;
      var popped := StackPop();
      if popped.None? {
        SetError(BreakUnderflow);
        return;
      }
      var item := popped.value;
      assert item.kind != ETag(true) ==> str == was;
      if item.kind.EString? {
        if !item.appended {
          Append(if item.kind.isText then Ascii("\"\"_") else Ascii("''_"));
        } else {
          AppendIndent(false, false);
          Append([R_PAREN]);
        }
      } else if item.count != 0 || item.kind == EMap(false) || item.kind.ETag? {
        // A tag always waits for one item.
        SetError(BreakUnexpected);
      } else {
        if item.appended {
          RemoveSeparator();
        }
        AppendIndent(false, false);
        Append([if item.kind.EArray? then R_BRACKET else R_BRACE]);
      }
    }

    /** Acts on one token. */
    method ProcToken(tok: Token)
      requires Valid() && cbError.None? && Written(GetState())
      modifies this
      ensures Reached(Act(cfg, old(GetState()), tok))
    {
      hide Completed, NewLine, OpenFrame, DoString, DoBreak, ScalarText;
      match tok
      case ByteString(s) => DoXString(s, false);
      case TextString(s) => DoXString(s, true);
      case ByteStart => StackPush(EString(false), 0);
      case TextStart => StackPush(EString(true), 0);
      case Array(n) =>
        if n == 0 {
          Append(Ascii("[]"));
        } else {
          StartCounted(L_BRACKET, EArray, n);
        }
      case ArrayStart => StartIndef(L_BRACKET, EArray);
      case Map(n) =>
        if n == 0 {
          Append(Ascii("{}"));
        } else {
          StartCounted(L_BRACE, EMap(true), n);
        }
      case MapStart => StartIndef(L_BRACE, EMap(true));
      case TagHead(n) => ProcTag(n);
      case Break => ProcBreak();
      case _ => Append(ScalarText(cfg, tok));
    }

    /** `decode_nested`: tokens until the stack is empty; `read` bytes of `data` are consumed. */
    method DecodeNested(data: bytes) returns (error: Option<Error>, read: nat)
      requires Valid() && cbError.None? && Written(GetState())
      modifies this
      ensures match DriveBytes(cfg, old(GetState()), data)
              case Finished(st, rest) => error.None? && read <= |data| && GetState() == st && rest == data[read..]
              case Failure(e) => error == Some(e)
    {
      hide Act, Lex;
      read := 0;
      error := None;
      ghost var end := DriveBytes(cfg, GetState(), data);
      assert data[0..] == data;
      while true
        invariant read <= |data| && Valid() && cbError.None? && Written(GetState())
        invariant DriveBytes(cfg, GetState(), data[read..]) == end
        decreases |data| - read
      {
        var rest := data[read..];
        var r := Lex(rest);
        if !r.Tok? {
          return Some(RecursiveDecoder.LexError(r)), read;
        }
        ghost var st := GetState();
        ProcToken(r.tok);
        if cbError.None? {
          ActWrites(cfg, st, r.tok);
        }
        read := read + r.len;
        assert rest[r.len..] == data[read..];
        if cbError.Some? {
          return cbError, read;
        }
        if stackDepth == 0 {
          return;
        }
      }
    }
  }

  /**
   Printing one well-formed item from bytes: the output is the text of the recursive printer, and
   exactly the bytes of the item are read.
   */
  method PrintItem(cfg: EdnConfig, data: bytes, ghost item: Item, ghost rest: bytes) returns (text: bytes, read: nat)
    requires ConfigOk(cfg) && WellFormed(item) && Nesting(item) <= cfg.maxDepth && Spells(data, Tokens(item), rest)
    ensures text == Print(cfg, item, 0) && read <= |data| && data[read..] == rest
    ensures EdnReader.DigitsOk(cfg) ==>
              EdnReader.ReadItem(text) == Some((EdnReader.Meaning(cfg, item), [])) && EdnOutput.Clean(text, cfg.indentChar.Some?)
  {
    hide DriveBytes, Print, Spells, Tokens, EdnReader.DigitsOk, EdnReader.ReadItem, EdnReader.Meaning, EdnOutput.Clean;
    if EdnReader.DigitsOk(cfg) {
      EdnReader.PrintReads(cfg, item);
      EdnOutput.PrintIsClean(cfg, item, 0);
    }
    var ctx := new Context(cfg);
    EncodedItemPrints(cfg, item, data, rest);
    var error;
    error, read := ctx.DecodeNested(data);
    text := ctx.str;
  }
}
