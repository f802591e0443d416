/**
 The diagnostic printer of decode_edn.h as a machine over tokens. It writes separators as soon as a value
 is complete, before it is known whether another one follows, and removes the last one when an
 indefinite-length container ends. It is measured against a recursive printer that joins with separators.
 */
module EdnPrinter {
  import opened Bytes
  import opened Wrappers
  import opened Values
  import opened Wire
  import opened DecoderConfig
  import opened EdnStrings
  import DecimalInt
  import Floats

  /**
   `indentChar` is the space or the tab, or `None` for output in one line. `digits` gives the shortest
   text of a finite float, which `zend_gcvt` computes.
   */
  datatype EdnConfig = EdnConfig(
    indent: nat, indentChar: Option<byte>, space: bool, byteSpace: nat, byteWrap: nat, maxDepth: nat,
    digits: Token -> bytes)

  predicate ConfigOk(cfg: EdnConfig) { cfg.indentChar.Some? ==> cfg.indentChar.value == SPACE || cfg.indentChar.value == TAB }

  datatype EdnKind =
    | EArray
    | EMap(isKey: bool)
    | EString(isText: bool)
    | ETag(indented: bool)  // has its content been put on lines of its own?

  datatype EdnFrame = EdnFrame(kind: EdnKind, count: nat, appended: bool)

  datatype EdnStack = Bottom | On(top: EdnFrame, below: EdnStack)

  datatype EdnState = EdnState(out: bytes, level: int, stack: EdnStack)

  function EdnHeight(stack: EdnStack): nat { if stack.Bottom? then 0 else 1 + EdnHeight(stack.below) }

  predicate InEdnString(stack: EdnStack) { stack.On? && stack.top.kind.EString? }

  // ----- Text -----

  const COMMA: byte := 0x2c
  const COLON: byte := 0x3a
  const UNDERSCORE: byte := 0x5f
  const L_PAREN: byte := 0x28
  const R_PAREN: byte := 0x29
  const L_BRACKET: byte := 0x5b
  const R_BRACKET: byte := 0x5d
  const L_BRACE: byte := 0x7b
  const R_BRACE: byte := 0x7d

  function Ascii(s: string): bytes { seq(|s|, i requires 0 <= i < |s| => s[i] as int % 256) }

  /** A line break, or nothing but a space if there are no line breaks. */
  function NewLine(cfg: EdnConfig, level: int, space: bool): bytes {
    match cfg.indentChar
    case None => if space then Sp(cfg.space) else []
    case Some(c) => [NEWLINE] + if cfg.indent > 0 && level > 0 then seq(level, _ => c) else []
  }

  function Deeper(cfg: EdnConfig, level: int): int { if cfg.indentChar.Some? then level + cfg.indent else level }

  function Shallower(cfg: EdnConfig, level: int): int { if cfg.indentChar.Some? then level - cfg.indent else level }

  const POINT: byte := 0x2e

  /** A float up to the suffix that tells its width; `f` is its value in binary64. */
  function FloatText(cfg: EdnConfig, tok: Token, f: Floats.Fields): bytes {
    if f.exp == 0x7ff && f.frac == 0 then (if f.sign == 1 then Ascii("-Infinity") else Ascii("Infinity"))
    else if f.exp == 0x7ff then Ascii("NaN")
    else cfg.digits(tok) + if POINT in cfg.digits(tok) then [] else Ascii(".0")
  }

  /** The value of a float in binary64. */
  function FloatFields(tok: Token): Floats.Fields
    requires tok.Float16? || tok.Float32? || tok.Float64?
  {
    match tok
    case Float16(raw) =>
      Floats.Unpack16Is16(raw);
      Floats.FromFloat16(Floats.Unpack16(raw))
    case Float32(raw) =>
      Floats.PackUnpack32(raw);
      Floats.FromFloat32(Floats.Unpack32(raw))
    case Float64(raw) => Floats.Unpack64(raw)
  }

  function ScalarText(cfg: EdnConfig, tok: Token): bytes {
    match tok
    case UInt(n) => DecimalInt.Print(n)
    case NInt(n) => DecimalInt.Print(-1 - n)
    case False => Ascii("false")
    case True => Ascii("true")
    case Null => Ascii("null")
    case Undefined => Ascii("undefined")
    case Simple(n) => Ascii("simple(") + DecimalInt.Print(n) + [R_PAREN]
    case Float16(_) => FloatText(cfg, tok, FloatFields(tok)) + Ascii("_1")
    case Float32(_) => FloatText(cfg, tok, FloatFields(tok)) + Ascii("_2")
    case Float64(_) => FloatText(cfg, tok, FloatFields(tok)) + Ascii("_3")
    case _ => []
  }

  function SpacingAt(cfg: EdnConfig, level: int): Spacing {
    Spacing(cfg.byteSpace, cfg.byteWrap, NewLine(cfg, level, true))
  }

  function StringText(cfg: EdnConfig, s: bytes, isText: bool, level: int): bytes {
    if isText then TextBody(cfg.space, s) else ByteBody(SpacingAt(cfg, level), s)
  }

  predicate IsSeparator(c: byte) { c == SPACE || c == TAB || c == NEWLINE || c == COMMA }

  /** Removes what separates from an item that did not come. */
  function Trim(out: bytes): bytes {
    if out != [] && IsSeparator(out[|out| - 1]) then Trim(out[..|out| - 1]) else out
  }

  // ----- The machine -----

  function Separator(cfg: EdnConfig, level: int): bytes { [COMMA] + NewLine(cfg, level, true) }

  /** The text of a value has been written: what the frames say to write next. */
  function Completed(cfg: EdnConfig, out: bytes, level: int, stack: EdnStack): EdnState
    decreases stack, 0
  {
    match stack
    case Bottom => EdnState(out, level, stack)
    case On(f, below) =>
      match f.kind
      case EArray =>
        if f.count == 1 then Close(cfg, out, level, below, R_BRACKET)
        else
          EdnState(out + Separator(cfg, level), level,
                   On(f.(count := if f.count == 0 then 0 else f.count - 1, appended := true), below))
      case EMap(isKey) =>
        if isKey then EdnState(out + [COLON] + Sp(cfg.space), level, On(f.(kind := EMap(false)), below))
        else if f.count == 1 then Close(cfg, out, level, below, R_BRACE)
        else
          EdnState(out + Separator(cfg, level), level,
                   On(EdnFrame(EMap(true), if f.count == 0 then 0 else f.count - 1, true), below))
      case ETag(indented) =>
        if indented then Close(cfg, out, level, below, R_PAREN) else Completed(cfg, out + [R_PAREN], level, below)
      case EString(_) => EdnState(out, level, stack)
  }

  /** Ends an indented part with `close` on a line of its own. */
  function Close(cfg: EdnConfig, out: bytes, level: int, below: EdnStack, close: byte): EdnState
    decreases below, 1
  {
    var up := Shallower(cfg, level);
    Completed(cfg, out + NewLine(cfg, up, false) + [close], up, below)
  }

  function OpenFrame(cfg: EdnConfig, out: bytes, level: int, stack: EdnStack, kind: EdnKind, count: nat): R<EdnState> {
    if EdnHeight(stack) >= cfg.maxDepth then Err(Depth)
    else Ok(EdnState(out, level, On(EdnFrame(kind, count, false), stack)))
  }

  /** An opening bracket, `(`, `[` or `{`, and what follows it up to the first item. */
  function Opening(cfg: EdnConfig, open: byte, level: int, indef: bool): bytes {
    (if indef then [open, UNDERSCORE] else [open]) + NewLine(cfg, Deeper(cfg, level), indef)
  }

  /** Is a byte string in a tag put on lines of its own? */
  predicate Wraps(cfg: EdnConfig, s: bytes) { cfg.byteWrap > 0 && |s| > cfg.byteWrap }

  function DoString(cfg: EdnConfig, st: EdnState, s: bytes, isText: bool): R<EdnState> {
    if InEdnString(st.stack) then
      var f := st.stack.top;
      if f.kind.isText != isText then Err(InconsistentStringType)
      else
        var level := if f.appended then st.level else Deeper(cfg, st.level);
        var head := if f.appended then Separator(cfg, level) else Opening(cfg, L_PAREN, st.level, true);
        Ok(Completed(cfg, st.out + head + StringText(cfg, s, isText, level), level, On(f.(appended := true), st.stack.below)))
    else if !isText && Wraps(cfg, s) && st.stack.On? && st.stack.top.kind == ETag(false) then
      var level := Deeper(cfg, st.level);
      Ok(Completed(cfg, st.out + NewLine(cfg, level, false) + StringText(cfg, s, isText, level), level,
                   On(st.stack.top.(kind := ETag(true)), st.stack.below)))
    else Ok(Completed(cfg, st.out + StringText(cfg, s, isText, st.level), st.level, st.stack))
  }

  function DoBreak(cfg: EdnConfig, st: EdnState): R<EdnState> {
    match st.stack
    case Bottom => Err(BreakUnderflow)
    case On(f, below) =>
      if f.kind.EString? then
        if !f.appended then
          Ok(Completed(cfg, st.out + (if f.kind.isText then Ascii("\"\"_") else Ascii("''_")), st.level, below))
        else Ok(Close(cfg, st.out, st.level, below, R_PAREN))
      else if f.count != 0 || f.kind == EMap(false) || f.kind.ETag? then Err(BreakUnexpected)
      else
        Ok(Close(cfg, if f.appended then Trim(st.out) else st.out, st.level, below,
                 if f.kind.EArray? then R_BRACKET else R_BRACE))
  }

  function Act(cfg: EdnConfig, st: EdnState, tok: Token): R<EdnState> {
    match tok
    case ByteString(s) => DoString(cfg, st, s, false)
    case TextString(s) => DoString(cfg, st, s, true)
    case ByteStart => OpenFrame(cfg, st.out, st.level, st.stack, EString(false), 0)
    case TextStart => OpenFrame(cfg, st.out, st.level, st.stack, EString(true), 0)
    case Array(n) =>
      if n == 0 then Ok(Completed(cfg, st.out + Ascii("[]"), st.level, st.stack))
      else OpenFrame(cfg, st.out + Opening(cfg, L_BRACKET, st.level, false), Deeper(cfg, st.level), st.stack, EArray, n)
    case ArrayStart =>
      OpenFrame(cfg, st.out + Opening(cfg, L_BRACKET, st.level, true), Deeper(cfg, st.level), st.stack, EArray, 0)
    case Map(n) =>
      if n == 0 then Ok(Completed(cfg, st.out + Ascii("{}"), st.level, st.stack))
      else OpenFrame(cfg, st.out + Opening(cfg, L_BRACE, st.level, false), Deeper(cfg, st.level), st.stack, EMap(true), n)
    case MapStart =>
      OpenFrame(cfg, st.out + Opening(cfg, L_BRACE, st.level, true), Deeper(cfg, st.level), st.stack, EMap(true), 0)
    case TagHead(n) =>
      OpenFrame(cfg, st.out + DecimalInt.Print(n) + [L_PAREN], st.level, st.stack, ETag(false), 1)
    case Break => DoBreak(cfg, st)
    case _ => Ok(Completed(cfg, st.out + ScalarText(cfg, tok), st.level, st.stack))
  }

  datatype EdnOutcome = Printed(st: EdnState, rest: seq<Token>) | Stopped(error: Error)

  /** Runs until the stack is empty. */
  function Drive(cfg: EdnConfig, st: EdnState, toks: seq<Token>): EdnOutcome
    decreases |toks|, 0
  {
    if toks == [] then Stopped(TruncatedData)
    else
      match Act(cfg, st, toks[0])
      case Err(e) => Stopped(e)
      case Ok(st1) => Continue(cfg, st1, toks[1..])
  }

  function Continue(cfg: EdnConfig, st: EdnState, toks: seq<Token>): EdnOutcome
    decreases |toks|, 1
  {
    if st.stack.Bottom? then Printed(st, toks) else Drive(cfg, st, toks)
  }

  datatype EdnEnd = Finished(st: EdnState, rest: bytes) | Failure(error: Error)

  /** The same over bytes: `decode_nested` with this printer. */
  function DriveBytes(cfg: EdnConfig, st: EdnState, s: bytes): EdnEnd
    decreases |s|
  {
    match Lex(s)
    case LexTruncated => Failure(TruncatedData)
    case LexMalformed => Failure(MalformedData)
    case LexTooMany => Failure(UnsupportedSize)
    case Tok(tok, len) =>
      match Act(cfg, st, tok)
      case Err(e) => Failure(e)
      case Ok(st1) => if st1.stack.Bottom? then Finished(st1, s[len..]) else DriveBytes(cfg, st1, s[len..])
  }

  // ----- The recursive printer -----

  /** A well-formed data item (section 3 of RFC 8949). */
  datatype Item =
    | Scalar(tok: Token)
    | Text(s: bytes)
    | ByteStr(s: bytes)
    | Chunks(chunks: seq<bytes>, isText: bool)
    | Arr(elems: seq<Item>, indef: bool)
    | Dict(members: seq<Member>, indef: bool)
    | Tagged(id: nat, content: Item)

  datatype Member = Member(key: Item, val: Item)

  predicate IsScalarToken(t: Token) {
    || t.UInt? || t.NInt? || t.False? || t.True? || t.Null? || t.Undefined? || t.Simple?
    || t.Float16? || t.Float32? || t.Float64?
  }

  predicate WellFormed(item: Item) {
    match item
    case Scalar(tok) => IsScalarToken(tok)
    case Arr(elems, _) => forall i :: 0 <= i < |elems| ==> WellFormed(elems[i])
    case Dict(members, _) => forall i :: 0 <= i < |members| ==> WellFormed(members[i].key) && WellFormed(members[i].val)
    case Tagged(_, content) => WellFormed(content)
    case _ => true
  }

  /** How deep the frames of an item are stacked. */
  function Nesting(item: Item): nat {
    match item
    case Chunks(_, _) => 1
    case Arr(elems, indef) => if elems == [] && !indef then 0 else 1 + NestingAll(elems)
    case Dict(members, indef) => if members == [] && !indef then 0 else 1 + NestingOf(members)
    case Tagged(_, content) => 1 + Nesting(content)
    case _ => 0
  }

  function NestingAll(elems: seq<Item>): nat {
    if elems == [] then 0 else Max(Nesting(elems[0]), NestingAll(elems[1..]))
  }

  function NestingOf(members: seq<Member>): nat {
    if members == [] then 0
    else Max(MemberNesting(members[0]), NestingOf(members[1..]))
  }

  function MemberNesting(m: Member): nat { Max(Nesting(m.key), Nesting(m.val)) }

  function Tokens(item: Item): seq<Token> {
    match item
    case Scalar(tok) => [tok]
    case Text(s) => [TextString(s)]
    case ByteStr(s) => [ByteString(s)]
    case Chunks(chunks, isText) => [if isText then TextStart else ByteStart] + ChunkTokens(chunks, isText) + [Break]
    case Arr(elems, indef) =>
      if indef then [ArrayStart] + TokensOfAll(elems) + [Break] else [Array(|elems|)] + TokensOfAll(elems)
    case Dict(members, indef) =>
      if indef then [MapStart] + TokensOf(members) + [Break] else [Map(|members|)] + TokensOf(members)
    case Tagged(id, content) => [TagHead(id)] + Tokens(content)
  }

  function ChunkTokens(chunks: seq<bytes>, isText: bool): seq<Token> {
    if chunks == [] then []
    else [if isText then TextString(chunks[0]) else ByteString(chunks[0])] + ChunkTokens(chunks[1..], isText)
  }

  function TokensOfAll(elems: seq<Item>): seq<Token> {
    if elems == [] then [] else Tokens(elems[0]) + TokensOfAll(elems[1..])
  }

  function TokensOf(members: seq<Member>): seq<Token> {
    if members == [] then [] else MemberTokens(members[0]) + TokensOf(members[1..])
  }

  function MemberTokens(m: Member): seq<Token> { Tokens(m.key) + Tokens(m.val) }

  function Print(cfg: EdnConfig, item: Item, level: int): bytes
    decreases item
  {
    match item
    case Scalar(tok) => ScalarText(cfg, tok)
    case Text(s) => StringText(cfg, s, true, level)
    case ByteStr(s) => StringText(cfg, s, false, level)
    case Chunks(chunks, isText) =>
      if chunks == [] then (if isText then Ascii("\"\"_") else Ascii("''_"))
      else Bracketed(cfg, L_PAREN, JoinChunks(cfg, chunks, isText, Deeper(cfg, level)), R_PAREN, level, true)
    case Arr(elems, indef) =>
      if elems == [] && !indef then Ascii("[]")
      else Bracketed(cfg, L_BRACKET, JoinItems(cfg, elems, Deeper(cfg, level)), R_BRACKET, level, indef)
    case Dict(members, indef) =>
      if members == [] && !indef then Ascii("{}")
      else Bracketed(cfg, L_BRACE, JoinMembers(cfg, members, Deeper(cfg, level)), R_BRACE, level, indef)
    case Tagged(id, content) =>
      DecimalInt.Print(id) + [L_PAREN]
      + (if content.ByteStr? && Wraps(cfg, content.s)
         then NewLine(cfg, Deeper(cfg, level), false) + Print(cfg, content, Deeper(cfg, level)) + NewLine(cfg, level, false)
         else Print(cfg, content, level))
      + [R_PAREN]
  }

  function Bracketed(cfg: EdnConfig, open: byte, inner: bytes, close: byte, level: int, indef: bool): bytes {
    Opening(cfg, open, level, indef) + inner + NewLine(cfg, level, false) + [close]
  }

  function JoinChunks(cfg: EdnConfig, chunks: seq<bytes>, isText: bool, level: int): bytes {
    if chunks == [] then []
    else StringText(cfg, chunks[0], isText, level)
         + if |chunks| == 1 then [] else Separator(cfg, level) + JoinChunks(cfg, chunks[1..], isText, level)
  }

  function JoinItems(cfg: EdnConfig, elems: seq<Item>, level: int): bytes
    decreases elems
  {
    if elems == [] then []
    else Print(cfg, elems[0], level)
         + if |elems| == 1 then [] else Separator(cfg, level) + JoinItems(cfg, elems[1..], level)
  }

  function JoinMembers(cfg: EdnConfig, members: seq<Member>, level: int): bytes
    decreases members
  {
    if members == [] then []
    else PrintMember(cfg, members[0], level)
         + if |members| == 1 then [] else Separator(cfg, level) + JoinMembers(cfg, members[1..], level)
  }

  function PrintMember(cfg: EdnConfig, m: Member, level: int): bytes
    decreases m
  {
    Print(cfg, m.key, level) + [COLON] + Sp(cfg.space) + Print(cfg, m.val, level)
  }
}
