/**
 The layout of diagnostic output: the level of indentation follows the containers that are open, and items are
 put on lines and separated in one way.
 */
module EdnLayout {
  import opened Bytes
  import opened Wrappers
  import opened Values
  import opened Wire
  import opened DecoderConfig
  import opened EdnStrings
  import opened EdnPrinter
  import DecimalInt

  // ----- The level of indentation -----

  /** Is what the frame holds on lines of its own? Chunks are as soon as there is one. */
  predicate OnOwnLines(f: EdnFrame) {
    match f.kind
    case EArray => true
    case EMap(_) => true
    case EString(_) => f.appended
    case ETag(indented) => indented
  }

  function Indented(stack: EdnStack): nat {
    if stack.Bottom? then 0 else Indented(stack.below) + if OnOwnLines(stack.top) then 1 else 0
  }

  /** The level is the indentation times the number of open parts on lines of their own. */
  predicate LevelOk(cfg: EdnConfig, st: EdnState) {
    st.level == if cfg.indentChar.Some? then cfg.indent * Indented(st.stack) else 0
  }

  predicate LevelsOk(cfg: EdnConfig, r: R<EdnState>) { r.Ok? ==> LevelOk(cfg, r.value) }

  lemma OneMore(indent: nat, n: nat)
    ensures indent * (n + 1) == indent * n + indent
  {
  }

  lemma {:induction false} CompletedKeepsLevel(cfg: EdnConfig, out: bytes, level: int, stack: EdnStack)
    requires LevelOk(cfg, EdnState(out, level, stack))
    ensures LevelOk(cfg, Completed(cfg, out, level, stack))
    decreases stack, 0
  {
    hide NewLine, Separator;
    if stack.On? {
      var f, below := stack.top, stack.below;
      match f.kind
      case EArray =>
        if f.count == 1 {
          CloseKeepsLevel(cfg, out, level, f, below, R_BRACKET);
        }
      case EMap(isKey) =>
        if !isKey && f.count == 1 {
          CloseKeepsLevel(cfg, out, level, f, below, R_BRACE);
        }
      case ETag(indented) =>
        if indented {
          CloseKeepsLevel(cfg, out, level, f, below, R_PAREN);
        } else {
          CompletedKeepsLevel(cfg, out + [R_PAREN], level, below);
        }
      case EString(_) =>
    }
  }

  /** Closing a part on lines of its own takes its indentation back. */
  lemma {:induction false} CloseKeepsLevel(cfg: EdnConfig, out: bytes, level: int, f: EdnFrame, below: EdnStack, close: byte)
    requires OnOwnLines(f) && LevelOk(cfg, EdnState(out, level, On(f, below)))
    ensures LevelOk(cfg, Close(cfg, out, level, below, close))
    decreases below, 1
  {
    hide NewLine, Completed;
    OneMore(cfg.indent, Indented(below));
    var up := Shallower(cfg, level);
    CompletedKeepsLevel(cfg, out + NewLine(cfg, up, false) + [close], up, below);
  }

  lemma StringKeepsLevel(cfg: EdnConfig, st: EdnState, s: bytes, isText: bool)
    requires LevelOk(cfg, st)
    ensures LevelsOk(cfg, DoString(cfg, st, s, isText))
  {
    hide NewLine, Completed, StringText, Separator, Opening;
    if InEdnString(st.stack) {
      var f, below := st.stack.top, st.stack.below;
      var level := if f.appended then st.level else Deeper(cfg, st.level);
      var head := if f.appended then Separator(cfg, level) else Opening(cfg, L_PAREN, st.level, true);
      OneMore(cfg.indent, Indented(below));
      CompletedKeepsLevel(cfg, st.out + head + StringText(cfg, s, isText, level), level, On(f.(appended := true), below));
    } else if !isText && Wraps(cfg, s) && st.stack.On? && st.stack.top.kind == ETag(false) {
      var level := Deeper(cfg, st.level);
      OneMore(cfg.indent, Indented(st.stack.below));
      CompletedKeepsLevel(cfg, st.out + NewLine(cfg, level, false) + StringText(cfg, s, isText, level), level,
                          On(st.stack.top.(kind := ETag(true)), st.stack.below));
    } else {
      CompletedKeepsLevel(cfg, st.out + StringText(cfg, s, isText, st.level), st.level, st.stack);
    }
  }

  lemma BreakKeepsLevel(cfg: EdnConfig, st: EdnState)
    requires LevelOk(cfg, st)
    ensures LevelsOk(cfg, DoBreak(cfg, st))
  {
    hide NewLine, Completed, Close, Trim, Ascii;
    if st.stack.On? {
      var f, below := st.stack.top, st.stack.below;
      if f.kind.EString? && !f.appended {
        CompletedKeepsLevel(cfg, st.out + (if f.kind.isText then Ascii("\"\"_") else Ascii("''_")), st.level, below);
      } else if f.kind.EString? {
        CloseKeepsLevel(cfg, st.out, st.level, f, below, R_PAREN);
      } else if !f.kind.ETag? {
        CloseKeepsLevel(cfg, if f.appended then Trim(st.out) else st.out, st.level, f, below,
                        if f.kind.EArray? then R_BRACKET else R_BRACE);
      }
    }
  }

  /** Every token keeps it so. */
  lemma ActKeepsLevel(cfg: EdnConfig, st: EdnState, tok: Token)
    requires LevelOk(cfg, st)
    ensures LevelsOk(cfg, Act(cfg, st, tok))
  {
    hide NewLine, Completed, DoString, DoBreak, Opening, ScalarText, Ascii, DecimalInt.Print;
    OneMore(cfg.indent, Indented(st.stack));
    match tok
    case ByteString(s) => StringKeepsLevel(cfg, st, s, false);
    case TextString(s) => StringKeepsLevel(cfg, st, s, true);
    case ByteStart =>
    case TextStart =>
    case Array(n) => CompletedKeepsLevel(cfg, st.out + Ascii("[]"), st.level, st.stack);
    case ArrayStart =>
    case Map(n) => CompletedKeepsLevel(cfg, st.out + Ascii("{}"), st.level, st.stack);
    case MapStart =>
    case TagHead(n) =>
    case Break => BreakKeepsLevel(cfg, st);
    case _ => CompletedKeepsLevel(cfg, st.out + ScalarText(cfg, tok), st.level, st.stack);
  }

  /** So does every run from the start: wherever it stops, the level is that of the open parts. */
  lemma {:induction false} RunKeepsLevel(cfg: EdnConfig, st: EdnState, toks: seq<Token>)
    requires LevelOk(cfg, st)
    ensures var o := Drive(cfg, st, toks); o.Printed? ==> LevelOk(cfg, o.st)
    decreases |toks|
  {
    hide Act, LevelOk;
    if toks != [] {
      ActKeepsLevel(cfg, st, toks[0]);
      var r := Act(cfg, st, toks[0]);
      if r.Ok? && r.value.stack.On? {
        RunKeepsLevel(cfg, r.value, toks[1..]);
      }
    }
  }

  // ----- Lines -----

  /** A line break and the indentation of the next line. */
  function Line(c: byte, indent: nat): bytes { ['\n' as int] + seq(indent, _ => c) }

  /** What stands between entries: a comma, and a space if asked for or a new line. */
  function Between(cfg: EdnConfig, indent: nat): bytes {
    [',' as int] + match cfg.indentChar
                   case None => if cfg.space then [' ' as int] else []
                   case Some(c) => Line(c, indent)
  }

  function Outer(cfg: EdnConfig, indent: nat): bytes {
    match cfg.indentChar
    case None => []
    case Some(c) => Line(c, indent)
  }

  function Listed(texts: seq<bytes>, sep: bytes): bytes {
    if texts == [] then [] else texts[0] + if |texts| == 1 then [] else sep + Listed(texts[1..], sep)
  }

  function Texts(cfg: EdnConfig, elems: seq<Item>, level: int): seq<bytes> {
    if elems == [] then [] else [Print(cfg, elems[0], level)] + Texts(cfg, elems[1..], level)
  }

  lemma NewLineIs(cfg: EdnConfig, indent: nat)
    requires cfg.indentChar.Some? && (cfg.indent == 0 ==> indent == 0)
    ensures NewLine(cfg, indent, true) == Line(cfg.indentChar.value, indent) == NewLine(cfg, indent, false)
  {
    if indent == 0 {
      assert seq(0, _ => cfg.indentChar.value) == [];
    }
  }

  lemma SeparatorIs(cfg: EdnConfig, level: int, indent: nat)
    requires cfg.indentChar.Some? ==> level == indent && (cfg.indent == 0 ==> indent == 0)
    ensures Separator(cfg, level) == Between(cfg, indent)
  {
    if cfg.indentChar.Some? {
      NewLineIs(cfg, indent);
    }
  }

  lemma {:induction false} JoinedIs(cfg: EdnConfig, elems: seq<Item>, level: int, indent: nat)
    requires cfg.indentChar.Some? ==> level == indent && (cfg.indent == 0 ==> indent == 0)
    ensures JoinItems(cfg, elems, level) == Listed(Texts(cfg, elems, level), Between(cfg, indent))
    ensures |Texts(cfg, elems, level)| == |elems|
    decreases |elems|
  {
    hide Print, Separator, NewLine;
    SeparatorIs(cfg, level, indent);
    if elems != [] {
      JoinedIs(cfg, elems[1..], level, indent);
      assert Texts(cfg, elems, level)[1..] == Texts(cfg, elems[1..], level);
    }
  }

  /**
   An array inside `d` others: its elements are on lines of their own one indentation deeper and the closing
   bracket is not, or else everything is on one line.
   */
  lemma ArrayLayout(cfg: EdnConfig, elems: seq<Item>, d: nat)
    requires elems != []
    ensures var level := if cfg.indentChar.Some? then cfg.indent * d else 0;
            Print(cfg, Arr(elems, false), level) ==
            ['[' as int] + Outer(cfg, cfg.indent * (d + 1))
            + Listed(Texts(cfg, elems, Deeper(cfg, level)), Between(cfg, cfg.indent * (d + 1)))
            + Outer(cfg, cfg.indent * d) + [']' as int]
  {
    hide Print, NewLine, JoinItems, Listed;
    var level := if cfg.indentChar.Some? then cfg.indent * d else 0;
    OneMore(cfg.indent, d);
    ZeroIndent(cfg.indent, d);
    JoinedIs(cfg, elems, Deeper(cfg, level), cfg.indent * (d + 1));
    ArrayPrinted(cfg, elems, level);
    if cfg.indentChar.Some? {
      NewLineIs(cfg, cfg.indent * (d + 1));
      NewLineIs(cfg, cfg.indent * d);
    } else {
      NoLines(cfg, level);
    }
  }

  lemma ZeroIndent(indent: nat, d: nat)
    ensures indent == 0 ==> indent * d == 0 && indent * (d + 1) == 0
    ensures indent * d >= 0 && indent * (d + 1) >= 0
  {
  }

  lemma NoLines(cfg: EdnConfig, level: int)
    requires cfg.indentChar.None?
    ensures NewLine(cfg, level, false) == []
  {
  }

  lemma ArrayPrinted(cfg: EdnConfig, elems: seq<Item>, level: int)
    requires elems != []
    ensures Print(cfg, Arr(elems, false), level) ==
            ['[' as int] + NewLine(cfg, Deeper(cfg, level), false) + JoinItems(cfg, elems, Deeper(cfg, level))
            + NewLine(cfg, level, false) + [']' as int]
  {
    hide NewLine, JoinItems;
  }

  // ----- Maps -----

  function MemberTexts(cfg: EdnConfig, members: seq<Member>, level: int): seq<bytes> {
    if members == [] then []
    else
      [Print(cfg, members[0].key, level) + [':' as int] + (if cfg.space then [' ' as int] else []) + Print(cfg, members[0].val, level)]
      + MemberTexts(cfg, members[1..], level)
  }

  lemma {:induction false} MembersJoinedAre(cfg: EdnConfig, members: seq<Member>, level: int, indent: nat)
    requires cfg.indentChar.Some? ==> level == indent && (cfg.indent == 0 ==> indent == 0)
    ensures JoinMembers(cfg, members, level) == Listed(MemberTexts(cfg, members, level), Between(cfg, indent))
    ensures |MemberTexts(cfg, members, level)| == |members|
    decreases |members|
  {
    hide Print, Separator, NewLine;
    SeparatorIs(cfg, level, indent);
    if members != [] {
      MembersJoinedAre(cfg, members[1..], level, indent);
      assert MemberTexts(cfg, members, level)[1..] == MemberTexts(cfg, members[1..], level);
    }
  }

  /** Maps are laid out in the same way, with a colon and a space if asked for between name and value. */
  lemma MapLayout(cfg: EdnConfig, members: seq<Member>, d: nat)
    requires members != []
    ensures var level := if cfg.indentChar.Some? then cfg.indent * d else 0;
            Print(cfg, Dict(members, false), level) ==
            ['{' as int] + Outer(cfg, cfg.indent * (d + 1))
            + Listed(MemberTexts(cfg, members, Deeper(cfg, level)), Between(cfg, cfg.indent * (d + 1)))
            + Outer(cfg, cfg.indent * d) + ['}' as int]
  {
    hide Print, NewLine, JoinMembers, Listed;
    var level := if cfg.indentChar.Some? then cfg.indent * d else 0;
    OneMore(cfg.indent, d);
    ZeroIndent(cfg.indent, d);
    MembersJoinedAre(cfg, members, Deeper(cfg, level), cfg.indent * (d + 1));
    MapPrinted(cfg, members, level);
    if cfg.indentChar.Some? {
      NewLineIs(cfg, cfg.indent * (d + 1));
      NewLineIs(cfg, cfg.indent * d);
    } else {
      NoLines(cfg, level);
    }
  }

  lemma MapPrinted(cfg: EdnConfig, members: seq<Member>, level: int)
    requires members != []
    ensures Print(cfg, Dict(members, false), level) ==
            ['{' as int] + NewLine(cfg, Deeper(cfg, level), false) + JoinMembers(cfg, members, Deeper(cfg, level))
            + NewLine(cfg, level, false) + ['}' as int]
  {
    hide NewLine, JoinMembers;
  }

  /** Only a byte string that is longer than a fragment is put on lines of its own in a tag. */
  lemma TagLayout(cfg: EdnConfig, id: nat, content: Item, level: int)
    ensures var long := content.ByteStr? && 0 < cfg.byteWrap < |content.s|;
            var deep := if cfg.indentChar.Some? then level + cfg.indent else level;
            Print(cfg, Item.Tagged(id, content), level) ==
            DecimalInt.Print(id) + ['(' as int]
            + (if long then NewLine(cfg, deep, false) + Print(cfg, content, deep) + NewLine(cfg, level, false)
               else Print(cfg, content, level)) + [')' as int]
  {
    hide NewLine, DecimalInt.Print;
  }
}
