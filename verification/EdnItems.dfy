/**
 The printer from bytes to bytes: what Appendix C of RFC 8949 calls well-formed is the spelling of an item,
 so it is printed as that item; and the strings in the output can be read back.
 */
module EdnItems {
  import opened Bytes
  import opened Wrappers
  import opened Wire
  import opened EdnStrings
  import opened EdnPrinter
  import opened EdnRefinement
  import AppendixC

  // ----- Strings as they are printed -----

  lemma LineBreakIsSpace(cfg: EdnConfig, level: int)
    requires ConfigOk(cfg)
    ensures AllSpace(NewLine(cfg, level, true))
  {
  }

  /** Every string in the output is read back as exactly its bytes, by a reader that knows no options. */
  lemma PrintedStringReads(cfg: EdnConfig, s: bytes, isText: bool, level: int, tail: bytes)
    requires ConfigOk(cfg) && !GoesOn(tail)
    ensures Read(StringText(cfg, s, isText, level) + tail, Between) == Some((s, tail))
  {
    LineBreakIsSpace(cfg, level);
    hide Read, TextBody, ByteBody, NewLine, GoesOn;
    if isText {
      TextComesBack(cfg.space, s, tail);
    } else {
      BytesComeBack(SpacingAt(cfg, level), s, tail);
    }
  }

  // ----- Spelling -----

  lemma {:induction false} SpellsBoth(s: bytes, a: seq<Token>, mid: bytes, b: seq<Token>, rest: bytes)
    requires Spells(s, a, mid) && Spells(mid, b, rest)
    ensures Spells(s, a + b, rest)
    decreases |a|
  {
    hide Lex;
    if a == [] {
      EmptyConcat(b);
    } else {
      SpellsBoth(s[Lex(s).len..], a[1..], mid, b, rest);
      assert (a + b)[1..] == a[1..] + b;
    }
  }

  lemma SpellsFirst(s: bytes, tok: Token, toks: seq<Token>, rest: bytes)
    requires Lex(s).Tok? && Lex(s).tok == tok && Spells(s[Lex(s).len..], toks, rest)
    ensures Spells(s, [tok] + toks, rest)
  {
    hide Lex;
    assert ([tok] + toks)[1..] == toks;
  }

  lemma SpellsOne(s: bytes)
    requires Lex(s).Tok?
    ensures Spells(s, [Lex(s).tok], s[Lex(s).len..])
  {
    hide Lex;
    assert [Lex(s).tok][1..] == [];
  }

  /** Is `item` spelled by `s` up to `rest`? */
  ghost predicate Reads(s: bytes, item: Item, rest: bytes) { WellFormed(item) && Spells(s, Tokens(item), rest) }

  /** Counts fit 32 bits: more items than that do not fit the data. */
  predicate Small(s: bytes) { |s| < UINT32_LIMIT }

  lemma TokenOf(s: bytes, breakable: bool)
    requires Small(s) && (AppendixC.Check(s, breakable).WellFormed? || AppendixC.Check(s, breakable).BreakCode?)
    ensures Lex(s).Tok?
    ensures AppendixC.Check(s, breakable) == AppendixC.CheckToken(Lex(s).tok, s[Lex(s).len..], breakable)
  {
    AppendixC.TokensAgree(s, breakable);
    if Lex(s).LexTooMany? {
      TooManyDoNotFit(s, breakable);
    }
  }

  lemma TooManyDoNotFit(s: bytes, breakable: bool)
    requires Small(s) && Lex(s).LexTooMany?
    ensures AppendixC.Check(s, breakable) == AppendixC.NotWellFormed
  {
    hide BigEndian, AppendixC.CheckMany;
  }

  lemma {:induction false} ItemOf(s: bytes, breakable: bool) returns (item: Item)
    requires Small(s) && AppendixC.Check(s, breakable).WellFormed?
    ensures Reads(s, item, AppendixC.Check(s, breakable).rest)
    decreases |s|, 2
  {
    hide Lex, Spells, Tokens, AppendixC.Check, AppendixC.CheckMany, AppendixC.CheckElements, AppendixC.CheckMembers,
      AppendixC.CheckChunks;
    TokenOf(s, breakable);
    var tok, rest, end := Lex(s).tok, s[Lex(s).len..], AppendixC.Check(s, breakable).rest;
    match tok
    case ByteString(b) =>
      item := ByteStr(b);
      SpellsOne(s);
      LeafTokens(item);
    case TextString(b) =>
      item := Text(b);
      SpellsOne(s);
      LeafTokens(item);
    case ByteStart =>
      var chunks := ChunksOf(rest, false);
      item := Chunks(chunks, false);
      BreaksOff(s, tok, ChunkTokens(chunks, false), end, item);
    case TextStart =>
      var chunks := ChunksOf(rest, true);
      item := Chunks(chunks, true);
      BreaksOff(s, tok, ChunkTokens(chunks, true), end, item);
    case Array(n) =>
      var elems := ItemsOf(n, rest);
      item := Arr(elems, false);
      Counts(s, tok, TokensOfAll(elems), end, item);
    case ArrayStart =>
      var elems := ElementsOf(rest);
      item := Arr(elems, true);
      BreaksOff(s, tok, TokensOfAll(elems), end, item);
    case Map(n) =>
      var members := PairsOf(n, rest);
      item := Dict(members, false);
      Counts(s, tok, TokensOf(members), end, item);
    case MapStart =>
      var members := MembersOf(rest);
      item := Dict(members, true);
      BreaksOff(s, tok, TokensOf(members), end, item);
    case TagHead(id) =>
      OneItem(rest);
      var content := ItemOf(rest, false);
      item := Tagged(id, content);
      Counts(s, tok, Tokens(content), end, item);
    case _ =>
      item := Scalar(tok);
      SpellsOne(s);
      LeafTokens(item);
  }

  lemma LeafTokens(item: Item)
    ensures item.Scalar? ==> Tokens(item) == [item.tok]
    ensures item.Text? ==> Tokens(item) == [TextString(item.s)]
    ensures item.ByteStr? ==> Tokens(item) == [ByteString(item.s)]
  {
  }

  /** A head with a number, and what it counts. */
  lemma Counts(s: bytes, tok: Token, toks: seq<Token>, end: bytes, item: Item)
    requires Lex(s).Tok? && Lex(s).tok == tok && Spells(s[Lex(s).len..], toks, end)
    requires match item
             case Arr(elems, indef) => !indef && tok == Array(|elems|) && toks == TokensOfAll(elems)
             case Dict(members, indef) => !indef && tok == Map(|members|) && toks == TokensOf(members)
             case Tagged(id, content) => tok == TagHead(id) && toks == Tokens(content)
             case _ => false
    ensures Spells(s, Tokens(item), end)
  {
    SpellsFirst(s, tok, toks, end);
    hide Lex, Spells;
  }

  /** A head of indefinite length, and what it holds up to the break. */
  lemma BreaksOff(s: bytes, tok: Token, toks: seq<Token>, end: bytes, item: Item)
    requires Lex(s).Tok? && Lex(s).tok == tok && Spells(s[Lex(s).len..], toks + [Break], end)
    requires match item
             case Chunks(chunks, isText) => tok == (if isText then TextStart else ByteStart) && toks == ChunkTokens(chunks, isText)
             case Arr(elems, indef) => indef && tok == ArrayStart && toks == TokensOfAll(elems)
             case Dict(members, indef) => indef && tok == MapStart && toks == TokensOf(members)
             case _ => false
    ensures Spells(s, Tokens(item), end)
  {
    SpellsFirst(s, tok, toks + [Break], end);
    Concat([tok], toks, [Break]);
    hide Lex, Spells;
  }

  lemma OneItem(s: bytes)
    requires AppendixC.CheckMany(1, s).WellFormed?
    ensures AppendixC.Check(s, false).WellFormed? && AppendixC.Check(s, false).rest == AppendixC.CheckMany(1, s).rest
  {
    hide AppendixC.Check;
    if AppendixC.Check(s, false).WellFormed? {
      assert AppendixC.CheckMany(0, AppendixC.Check(s, false).rest).rest == AppendixC.Check(s, false).rest;
    }
  }

  lemma {:induction false} ItemsOf(count: nat, s: bytes) returns (elems: seq<Item>)
    requires Small(s) && AppendixC.CheckMany(count, s).WellFormed?
    ensures |elems| == count && (forall i :: 0 <= i < count ==> WellFormed(elems[i]))
    ensures Spells(s, TokensOfAll(elems), AppendixC.CheckMany(count, s).rest)
    decreases |s|, 3, count
  {
    hide Tokens, AppendixC.Check, WellFormed;
    if count == 0 {
      elems := [];
    } else {
      var first := ItemOf(s, false);
      var rest := AppendixC.Check(s, false).rest;
      var more := ItemsOf(count - 1, rest);
      elems := [first] + more;
      SpellsBoth(s, Tokens(first), rest, TokensOfAll(more), AppendixC.CheckMany(count, s).rest);
      assert elems[1..] == more;
    }
  }

  lemma {:induction false} PairsOf(count: nat, s: bytes) returns (members: seq<Member>)
    requires Small(s) && AppendixC.CheckMany(2 * count, s).WellFormed?
    ensures |members| == count
    ensures forall i :: 0 <= i < count ==> WellFormed(members[i].key) && WellFormed(members[i].val)
    ensures Spells(s, TokensOf(members), AppendixC.CheckMany(2 * count, s).rest)
    decreases |s|, 3, count
  {
    hide Tokens, AppendixC.Check, WellFormed;
    if count == 0 {
      members := [];
    } else {
      var end := AppendixC.CheckMany(2 * count, s).rest;
      var key := ItemOf(s, false);
      var rest := AppendixC.Check(s, false).rest;
      assert AppendixC.CheckMany(2 * count - 1, rest).WellFormed?;
      var val := ItemOf(rest, false);
      var rest1 := AppendixC.Check(rest, false).rest;
      assert AppendixC.CheckMany(2 * count, s) == AppendixC.CheckMany(2 * (count - 1), rest1);
      var more := PairsOf(count - 1, rest1);
      MemberSpelled(s, rest, rest1, end, key, val, more);
      members := [Member(key, val)] + more;
      assert members[1..] == more;
    }
  }

  lemma MemberSpelled(s: bytes, rest: bytes, rest1: bytes, end: bytes, key: Item, val: Item, more: seq<Member>)
    requires Spells(s, Tokens(key), rest) && Spells(rest, Tokens(val), rest1) && Spells(rest1, TokensOf(more), end)
    ensures Spells(s, TokensOf([Member(key, val)] + more), end)
  {
    hide Tokens, Spells;
    SpellsBoth(s, Tokens(key), rest, Tokens(val), rest1);
    SpellsBoth(s, Tokens(key) + Tokens(val), rest1, TokensOf(more), end);
    assert ([Member(key, val)] + more)[1..] == more;
  }

  /** A break ends what has indefinite length. */
  lemma BreakSpelled(s: bytes)
    requires Small(s) && AppendixC.Check(s, true).BreakCode?
    ensures Spells(s, [Break], AppendixC.Check(s, true).rest)
  {
    TokenOf(s, true);
    SpellsOne(s);
    hide Lex, Spells, AppendixC.Check;
  }

  lemma {:induction false} ChunksOf(s: bytes, isText: bool) returns (chunks: seq<bytes>)
    requires Small(s) && AppendixC.CheckChunks(if isText then 3 else 2, s).WellFormed?
    ensures Spells(s, ChunkTokens(chunks, isText) + [Break], AppendixC.CheckChunks(if isText then 3 else 2, s).rest)
    decreases |s|, 3
  {
    hide Lex, Spells, AppendixC.Check;
    var major := if isText then 3 else 2;
    if AppendixC.Check(s, true).BreakCode? {
      BreakSpelled(s);
      chunks := [];
      EmptyConcat([Break]);
    } else {
      var tok := ChunkToken(s, isText);
      var rest := AppendixC.Check(s, true).rest;
      var more := ChunksOf(rest, isText);
      SpellsFirst(s, tok, ChunkTokens(more, isText) + [Break], AppendixC.CheckChunks(major, s).rest);
      chunks := [tok.s] + more;
      assert chunks[1..] == more;
      Concat([tok], ChunkTokens(more, isText), [Break]);
    }
  }

  /** What is counted as a string of the right kind is a string token. */
  lemma ChunkToken(s: bytes, isText: bool) returns (tok: Token)
    requires Small(s) && AppendixC.Check(s, true).WellFormed?
    requires AppendixC.Check(s, true).major == if isText then 3 else 2
    ensures Lex(s).Tok? && Lex(s).tok == tok && s[Lex(s).len..] == AppendixC.Check(s, true).rest
    ensures if isText then tok.TextString? else tok.ByteString?
  {
    hide Lex, AppendixC.Check, AppendixC.CheckToken;
    TokenOf(s, true);
    tok := Lex(s).tok;
    StringMajor(tok, s[Lex(s).len..]);
  }

  lemma StringMajor(tok: Token, rest: bytes)
    ensures var c := AppendixC.CheckToken(tok, rest, true);
            && (c.WellFormed? && c.major == 2 ==> tok.ByteString? && c.rest == rest)
            && (c.WellFormed? && c.major == 3 ==> tok.TextString? && c.rest == rest)
  {
    hide AppendixC.CheckChunks, AppendixC.CheckElements, AppendixC.CheckMembers, AppendixC.CheckMany;
    AppendixC.ChunksKind(2, rest);
    AppendixC.ChunksKind(3, rest);
  }

  lemma {:induction false} ElementsOf(s: bytes) returns (elems: seq<Item>)
    requires Small(s) && AppendixC.CheckElements(s).WellFormed?
    ensures forall i :: 0 <= i < |elems| ==> WellFormed(elems[i])
    ensures Spells(s, TokensOfAll(elems) + [Break], AppendixC.CheckElements(s).rest)
    decreases |s|, 3
  {
    hide Tokens, Spells, AppendixC.Check, WellFormed;
    if AppendixC.Check(s, true).BreakCode? {
      BreakSpelled(s);
      elems := [];
      EmptyConcat([Break]);
    } else {
      var first := ItemOf(s, true);
      var rest := AppendixC.Check(s, true).rest;
      var more := ElementsOf(rest);
      SpellsBoth(s, Tokens(first), rest, TokensOfAll(more) + [Break], AppendixC.CheckElements(s).rest);
      elems := [first] + more;
      assert elems[1..] == more;
      Concat(Tokens(first), TokensOfAll(more), [Break]);
    }
  }

  lemma {:induction false} MembersOf(s: bytes) returns (members: seq<Member>)
    requires Small(s) && AppendixC.CheckMembers(s).WellFormed?
    ensures forall i :: 0 <= i < |members| ==> WellFormed(members[i].key) && WellFormed(members[i].val)
    ensures Spells(s, TokensOf(members) + [Break], AppendixC.CheckMembers(s).rest)
    decreases |s|, 3
  {
    hide Tokens, Spells, AppendixC.Check, WellFormed;
    if AppendixC.Check(s, true).BreakCode? {
      BreakSpelled(s);
      members := [];
      EmptyConcat([Break]);
    } else {
      var key := ItemOf(s, true);
      var rest := AppendixC.Check(s, true).rest;
      var val := ItemOf(rest, false);
      var rest1 := AppendixC.Check(rest, false).rest;
      var more := MembersOf(rest1);
      var end := AppendixC.CheckMembers(s).rest;
      SpellsBoth(s, Tokens(key), rest, Tokens(val), rest1);
      SpellsBoth(s, Tokens(key) + Tokens(val), rest1, TokensOf(more) + [Break], end);
      members := [Member(key, val)] + more;
      assert members[1..] == more;
      Concat(Tokens(key) + Tokens(val), TokensOf(more), [Break]);
    }
  }

  // ----- From bytes to text -----

  /**
   Any well-formed data is printed as the recursive printer prints the item that it spells, if the depth
   limit allows, and exactly its bytes are read.
   */
  lemma WellFormedDataPrints(cfg: EdnConfig, s: bytes) returns (item: Item)
    requires ConfigOk(cfg) && Small(s) && AppendixC.Check(s, false).WellFormed?
    ensures Reads(s, item, AppendixC.Check(s, false).rest)
    ensures Nesting(item) <= cfg.maxDepth ==>
              DriveBytes(cfg, EdnState([], 0, Bottom), s)
              == Finished(EdnState(Print(cfg, item, 0), 0, Bottom), AppendixC.Check(s, false).rest)
  {
    item := ItemOf(s, false);
    hide DriveBytes, Print, Spells, AppendixC.Check;
    if Nesting(item) <= cfg.maxDepth {
      EncodedItemPrints(cfg, item, s, AppendixC.Check(s, false).rest);
    }
  }
}
