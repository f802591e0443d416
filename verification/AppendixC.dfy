/**
 Well-formedness as the pseudocode in Appendix C of RFC 8949 defines it, and what the decoder makes of
 it: it accepts nothing else, reads exactly the bytes of the item, and what it calls a syntax error is
 one.
 */
module AppendixC {
  import opened Bytes
  import opened Wrappers
  import opened Values
  import opened Wire
  import opened DecoderConfig
  import opened RecursiveDecoder

  /** The kind of item that was recognised and the bytes behind it, or a break, or failure. */
  datatype Checked = WellFormed(major: nat, rest: bytes) | BreakCode(rest: bytes) | NotWellFormed

  /** What the pseudocode returns for items of indefinite length. */
  const INDEFINITE: nat := 99

  /** The argument of the head: `val` and what follows, for additional information below 31. */
  datatype Head = Head(val: nat, rest: bytes) | NoHead

  function TakeHead(s: bytes): (h: Head)
    requires s != [] && s[0] % 32 != 31
    ensures h.Head? ==> |h.rest| < |s|
  {
    var ai := s[0] % 32;
    if ai < 24 then Head(ai, s[1..])
    else if ai < 28 then
      var k := if ai == 24 then 1 else if ai == 25 then 2 else if ai == 26 then 4 else 8;
      if |s| < 1 + k then NoHead else Head(BigEndian(s[1..1 + k]), s[1 + k..])
    else NoHead
  }

  function Check(s: bytes, breakable: bool): (c: Checked)
    ensures c.WellFormed? || c.BreakCode? ==> |c.rest| < |s|
    decreases |s|, 2
  {
    if s == [] then NotWellFormed
    else
      var major := s[0] / 32;
      if s[0] % 32 == 31 then CheckIndefinite(major, s[1..], breakable)
      else
        match TakeHead(s)
        case NoHead => NotWellFormed
        case Head(val, rest) =>
          if major == 2 || major == 3 then
            if val > |rest| then NotWellFormed else WellFormed(major, rest[val..])
          else if major == 4 then After(major, CheckMany(val, rest))
          else if major == 5 then After(major, CheckMany(2 * val, rest))
          else if major == 6 then After(major, CheckMany(1, rest))
          else if s[0] == 0xf8 && val < 32 then NotWellFormed
          else WellFormed(major, rest)
  }

  function After(major: nat, c: Checked): Checked {
    if c.WellFormed? then WellFormed(major, c.rest) else NotWellFormed
  }

  /** `count` items one after the other. */
  function CheckMany(count: nat, s: bytes): (c: Checked)
    ensures c.WellFormed? ==> |c.rest| + count <= |s|
    ensures !c.BreakCode?
    decreases |s|, 3, count
  {
    if count == 0 then WellFormed(0, s)
    else
      match Check(s, false)
      case WellFormed(_, rest) => CheckMany(count - 1, rest)
      case _ => NotWellFormed
  }

  function CheckIndefinite(major: nat, s: bytes, breakable: bool): (c: Checked)
    ensures c.WellFormed? || c.BreakCode? ==> |c.rest| <= |s|
    decreases |s|, 4
  {
    if major == 2 || major == 3 then CheckChunks(major, s)
    else if major == 4 then CheckElements(s)
    else if major == 5 then CheckMembers(s)
    else if major == 7 && breakable then BreakCode(s)
    else NotWellFormed
  }

  function CheckChunks(major: nat, s: bytes): (c: Checked)
    ensures c.WellFormed? ==> |c.rest| < |s|
    ensures !c.BreakCode?
    decreases |s|, 3
  {
    match Check(s, true)
    case BreakCode(rest) => WellFormed(INDEFINITE, rest)
    case WellFormed(it, rest) => if it != major then NotWellFormed else CheckChunks(major, rest)
    case NotWellFormed => NotWellFormed
  }

  function CheckElements(s: bytes): (c: Checked)
    ensures c.WellFormed? ==> |c.rest| < |s|
    ensures !c.BreakCode?
    decreases |s|, 3
  {
    match Check(s, true)
    case BreakCode(rest) => WellFormed(INDEFINITE, rest)
    case WellFormed(_, rest) => CheckElements(rest)
    case NotWellFormed => NotWellFormed
  }

  function CheckMembers(s: bytes): (c: Checked)
    ensures c.WellFormed? ==> |c.rest| < |s|
    ensures !c.BreakCode?
    decreases |s|, 3
  {
    match Check(s, true)
    case BreakCode(rest) => WellFormed(INDEFINITE, rest)
    case WellFormed(_, rest) =>
      (match Check(rest, false)
       case WellFormed(_, rest1) => CheckMembers(rest1)
       case _ => NotWellFormed)
    case NotWellFormed => NotWellFormed
  }

  // ----- Heads -----

  /** What the token at the start of `s` means to the checker; `rest` is what follows the token. */
  function CheckToken(tok: Token, rest: bytes, breakable: bool): Checked {
    match tok
    case UInt(_) => WellFormed(0, rest)
    case NInt(_) => WellFormed(1, rest)
    case ByteString(_) => WellFormed(2, rest)
    case TextString(_) => WellFormed(3, rest)
    case ByteStart => CheckChunks(2, rest)
    case TextStart => CheckChunks(3, rest)
    case Array(n) => After(4, CheckMany(n, rest))
    case ArrayStart => CheckElements(rest)
    case Map(n) => After(5, CheckMany(2 * n, rest))
    case MapStart => CheckMembers(rest)
    case TagHead(_) => After(6, CheckMany(1, rest))
    case Break => if breakable then BreakCode(rest) else NotWellFormed
    case _ => WellFormed(7, rest)
  }

  lemma HeadsAgree(s: bytes)
    requires s != [] && s[0] % 32 != 31
    ensures ReadArg(s).ArgOk? ==> TakeHead(s) == Head(ReadArg(s).n, s[ReadArg(s).len..])
    ensures !ReadArg(s).ArgOk? ==> TakeHead(s) == NoHead
  {
  }

  /** The checker continues where the token ends; without a token it fails. */
  predicate SameToken(s: bytes, breakable: bool) {
    var r := Lex(s);
    if r.Tok? then Check(s, breakable) == CheckToken(r.tok, s[r.len..], breakable)
    else r.LexTooMany? || Check(s, breakable) == NotWellFormed
  }

  /** The lexer and the checker see the same tokens; where there is none, nothing is well-formed. */
  lemma TokensAgree(s: bytes, breakable: bool)
    requires |s| < UINT64_LIMIT
    ensures SameToken(s, breakable)
  {
    if s != [] {
      if s[0] % 32 == 31 {
        IndefiniteChecked(s, breakable);
      } else {
        HeadsAgree(s);
      }
      hide BigEndian, CheckMany, CheckElements, CheckMembers, CheckChunks;
      match s[0] / 32
      case 7 => SimplesAgree(s, breakable);
      case 2 => StringsAgree(s, breakable);
      case 3 => StringsAgree(s, breakable);
      case _ =>
    }
  }

  lemma IndefiniteChecked(s: bytes, breakable: bool)
    requires s != [] && s[0] % 32 == 31
    ensures Check(s, breakable) == CheckIndefinite(s[0] / 32, s[1..], breakable)
  {
  }

  lemma StringsAgree(s: bytes, breakable: bool)
    requires s != [] && s[0] / 32 in {2, 3} && |s| < UINT64_LIMIT
    ensures SameToken(s, breakable)
  {
    hide TakeHead, CheckChunks, BigEndian;
    if s[0] % 32 == 31 {
      IndefiniteChecked(s, breakable);
    } else {
      HeadsAgree(s);
      var r := ReadArg(s);
      if r.ArgOk? && r.n <= |s| - r.len {
        DropTwice(s, r.len, r.n);
      }
    }
  }

  lemma DropTwice(s: bytes, i: nat, j: nat)
    requires i + j <= |s|
    ensures s[i..][j..] == s[i + j..]
  {
  }

  lemma SimplesAgree(s: bytes, breakable: bool)
    requires s != [] && s[0] / 32 == 7
    ensures SameToken(s, breakable)
  {
    if s[0] % 32 == 31 {
      IndefiniteChecked(s, breakable);
    } else {
      HeadsAgree(s);
    }
    hide BigEndian, CheckMany, CheckElements, CheckMembers, CheckChunks;
  }

  // ----- The decoder accepts well-formed items only -----

  /** The errors that say that the input is not CBOR, as opposed to not supported or not allowed. */
  predicate IsSyntaxError(e: Error) {
    || e == TruncatedData || e == MalformedData || e == BreakUnderflow || e == BreakUnexpected
    || e == InconsistentStringType || e == IndefStringChunkType
  }

  /** What was decoded is well-formed and ends there; what is called a syntax error is none. */
  predicate Judged(d: Decoded, c: Checked) {
    match d
    case Got(_, _, rest) => c.WellFormed? && c.rest == rest
    case Failed(e) => IsSyntaxError(e) ==> !c.WellFormed?
  }

  lemma {:induction false} ItemChecked(cfg: Config, env: Env, s: bytes, depth: nat, slot: Slot)
    requires |s| < UINT64_LIMIT
    ensures Judged(Item(cfg, env, s, depth, slot), Check(s, false))
    decreases |s|, 0
  {
    hide ItemOf, Check, CheckToken;
    TokensAgree(s, false);
    var r := Lex(s);
    if r.Tok? {
      TokenChecked(cfg, env, r.tok, |s|, s[r.len..], depth, slot);
    }
  }

  lemma {:induction false} TokenChecked(
    cfg: Config, env: Env, tok: Token, available: nat, rest: bytes, depth: nat, slot: Slot)
    requires |rest| < available && |rest| < UINT64_LIMIT
    ensures Judged(ItemOf(cfg, env, tok, available, rest, depth, slot), CheckToken(tok, rest, false))
    decreases |rest|, 4
  {
    hide ItemOf, CheckToken, Opens;
    if Opens(tok) {
      OpeningChecked(cfg, env, tok, available, rest, depth, slot);
    } else {
      PlainChecked(cfg, env, tok, available, rest, depth, slot);
    }
  }

  lemma PlainChecked(cfg: Config, env: Env, tok: Token, available: nat, rest: bytes, depth: nat, slot: Slot)
    requires !Opens(tok)
    ensures Judged(ItemOf(cfg, env, tok, available, rest, depth, slot), CheckToken(tok, rest, false))
  {
    hide StringItem, TextOk, FloatItem16, FloatItem32;
    if tok.ByteString? || tok.TextString? {
      StringErrors(cfg, env, slot, tok.s, tok.TextString?, false);
    }
  }

  lemma {:induction false} OpeningChecked(
    cfg: Config, env: Env, tok: Token, available: nat, rest: bytes, depth: nat, slot: Slot)
    requires |rest| < available && |rest| < UINT64_LIMIT && Opens(tok)
    ensures Judged(ItemOf(cfg, env, tok, available, rest, depth, slot), CheckToken(tok, rest, false))
    decreases |rest|, 3
  {
    hide ChunkedString, ArrayItem, MapItem, TagItem, CheckMany, CheckElements, CheckMembers, CheckChunks, Judged, After;
    match tok
    case ByteStart => ChunkedChecked(cfg, env, rest, depth, slot, false);
    case TextStart => ChunkedChecked(cfg, env, rest, depth, slot, true);
    case Array(n) =>
      if n > 0 {
        ArrayChecked(cfg, env, rest, depth, slot, n);
      }
      JudgedAs(4, ItemOf(cfg, env, tok, available, rest, depth, slot), n, rest);
    case ArrayStart => ArrayChecked(cfg, env, rest, depth, slot, 0);
    case Map(n) =>
      if n > 0 {
        MapChecked(cfg, env, rest, depth, slot, n);
      }
      JudgedAs(5, ItemOf(cfg, env, tok, available, rest, depth, slot), 2 * n, rest);
    case MapStart => MapChecked(cfg, env, rest, depth, slot, 0);
    case TagHead(n) =>
      TagChecked(cfg, env, rest, depth, slot, n);
      JudgedAs(6, ItemOf(cfg, env, tok, available, rest, depth, slot), 1, rest);
  }

  /** The items in a container decide about it; an empty one ends with its head. */
  lemma JudgedAs(major: nat, d: Decoded, count: nat, s: bytes)
    requires
      || Judged(d, CheckMany(count, s))
      || (d.Failed? && (!IsSyntaxError(d.error) || count > |s|))
      || (count == 0 && d.Got? && d.rest == s)
    ensures Judged(d, After(major, CheckMany(count, s)))
  {
    hide CheckMany;
    NothingToCheck(s);
  }

  lemma NothingToCheck(s: bytes)
    ensures CheckMany(0, s) == WellFormed(0, s)
  {
  }

  lemma StringErrors(cfg: Config, env: Env, slot: Slot, s: bytes, isText: bool, chunked: bool)
    ensures var r := StringItem(cfg, env, slot, s, isText, chunked); r.Err? ==> !IsSyntaxError(r.error)
  {
  }

  lemma OpenErrors(cfg: Config, env: Env, depth: nat, slot: Slot, created: Option<nat>)
    ensures var r := Open(cfg, env, depth, slot, created); r.Err? ==> !IsSyntaxError(r.error)
  {
  }

  lemma {:induction false} ChunkedChecked(cfg: Config, env: Env, s: bytes, depth: nat, slot: Slot, isText: bool)
    requires |s| < UINT64_LIMIT
    ensures Judged(ChunkedString(cfg, env, s, depth, slot, isText), CheckChunks(if isText then 3 else 2, s))
    decreases |s|, 2
  {
    hide Chunks, CheckChunks, Open;
    OpenErrors(cfg, env, depth, slot, None);
    var r := Open(cfg, env, depth, slot, None);
    if r.Ok? {
      ChunksChecked(cfg, r.value, s, depth, slot, isText, []);
    }
  }

  /** The first item of an indefinite-length container or string, or its end. */
  lemma FirstChecked(s: bytes)
    requires |s| < UINT64_LIMIT
    ensures var r := Lex(s);
            && (r.Tok? && r.tok.Break? ==> Check(s, true) == BreakCode(s[r.len..]))
            && (!(r.Tok? && r.tok.Break?) && !r.LexTooMany? ==> Check(s, true) == Check(s, false) && !Check(s, true).BreakCode?)
  {
    hide Check, CheckMany, CheckElements, CheckMembers, CheckChunks, Lex;
    TokensAgree(s, true);
    TokensAgree(s, false);
  }

  /** Only strings of definite length are chunks. */
  lemma ChunkKind(s: bytes, c: nat)
    requires |s| < UINT64_LIMIT && (c == 2 || c == 3) && Lex(s).Tok? && Check(s, true).WellFormed?
    ensures Check(s, true).major == c <==> if c == 3 then Lex(s).tok.TextString? else Lex(s).tok.ByteString?
    ensures Lex(s).tok.TextString? || Lex(s).tok.ByteString? ==> Check(s, true).rest == s[Lex(s).len..]
  {
    hide Check, Lex, CheckMany, CheckChunks, CheckElements, CheckMembers;
    TokensAgree(s, true);
    ChunksKind(2, s[Lex(s).len..]);
    ChunksKind(3, s[Lex(s).len..]);
  }

  lemma {:induction false} ChunksKind(major: nat, s: bytes)
    ensures CheckChunks(major, s).WellFormed? ==> CheckChunks(major, s).major == INDEFINITE
    ensures CheckElements(s).WellFormed? ==> CheckElements(s).major == INDEFINITE
    ensures CheckMembers(s).WellFormed? ==> CheckMembers(s).major == INDEFINITE
    decreases |s|
  {
    hide Check;
    var c := Check(s, true);
    if c.WellFormed? {
      ChunksKind(major, c.rest);
      var c1 := Check(c.rest, false);
      if c1.WellFormed? {
        ChunksKind(major, c1.rest);
      }
    }
  }

  lemma {:induction false} ChunksChecked(
    cfg: Config, env: Env, s: bytes, depth: nat, slot: Slot, isText: bool, content: bytes)
    requires |s| < UINT64_LIMIT
    ensures Judged(Chunks(cfg, env, s, depth, slot, isText, content), CheckChunks(if isText then 3 else 2, s))
    decreases |s|, 1
  {
    hide Item, Lex, TextOk, StringItem, Check;
    var r, major := Lex(s), if isText then 3 else 2;
    FirstChecked(s);
    TokensAgree(s, true);
    StringErrors(cfg, env, slot, content, isText, true);
    if r.Tok? && !r.tok.Break? {
      if Check(s, true).WellFormed? {
        ChunkKind(s, major);
      }
      if r.tok.TextString? || r.tok.ByteString? {
        StringChunk(s);
        ChunksChecked(cfg, env, s[r.len..], depth, slot, isText, content + r.tok.s);
      } else {
        ItemChecked(cfg, env, s, depth + 1, ROOT_SLOT);
      }
    }
  }

  lemma StringChunk(s: bytes)
    requires |s| < UINT64_LIMIT && Lex(s).Tok? && (Lex(s).tok.TextString? || Lex(s).tok.ByteString?)
    ensures Check(s, true) == WellFormed(if Lex(s).tok.TextString? then 3 else 2, s[Lex(s).len..])
  {
    hide Check, Lex;
    TokensAgree(s, true);
  }

  lemma {:induction false} ArrayChecked(cfg: Config, env: Env, s: bytes, depth: nat, slot: Slot, count: nat)
    requires |s| < UINT64_LIMIT
    ensures Judged(ArrayItem(cfg, env, s, depth, slot, count), if count == 0 then CheckElements(s) else CheckMany(count, s))
    decreases |s|, 2
  {
    hide Elements, CheckElements, CheckMany, Open;
    OpenErrors(cfg, env, depth, slot, None);
    var r := Open(cfg, env, depth, slot, None);
    if r.Ok? {
      ElementsChecked(cfg, r.value, s, depth + 1, slot.inNs, count, []);
    }
  }

  /** The remaining elements of an array against the rest of the loop of the checker. */
  lemma {:induction false} ElementsChecked(
    cfg: Config, env: Env, s: bytes, depth: nat, inNs: bool, count: nat, elems: seq<Val>)
    requires |s| < UINT64_LIMIT
    ensures Judged(Elements(cfg, env, s, depth, inNs, count, elems), if count == 0 then CheckElements(s) else CheckMany(count, s))
    decreases |s|, 1
  {
    hide Item, Lex, Check;
    FirstChecked(s);
    BreakLength(s);
    if count == 0 && IsBreak(s) {
    } else {
      ItemChecked(cfg, env, s, depth, Slot(false, inNs, None));
      var d := Item(cfg, env, s, depth, Slot(false, inNs, None));
      if d.Got? {
        NotTooMany(cfg, env, s, depth, Slot(false, inNs, None));
        var r := AddElement(cfg, count == 0, elems, d.val);
        NothingToCheck(d.rest);
        if r.Ok? && count != 1 {
          ElementsChecked(cfg, d.env, d.rest, depth, inNs, if count == 0 then 0 else count - 1, r.value);
        }
      } else if Lex(s).LexTooMany? {
        TooMany(cfg, env, s, depth, Slot(false, inNs, None));
      }
    }
  }

  lemma NotTooMany(cfg: Config, env: Env, s: bytes, depth: nat, slot: Slot)
    requires Item(cfg, env, s, depth, slot).Got?
    ensures Lex(s).Tok?
  {
  }

  lemma TooMany(cfg: Config, env: Env, s: bytes, depth: nat, slot: Slot)
    requires Lex(s).LexTooMany?
    ensures Item(cfg, env, s, depth, slot) == Failed(UnsupportedSize)
  {
  }

  lemma {:induction false} MapChecked(cfg: Config, env: Env, s: bytes, depth: nat, slot: Slot, count: nat)
    requires |s| < UINT64_LIMIT
    ensures Judged(MapItem(cfg, env, s, depth, slot, count), if count == 0 then CheckMembers(s) else CheckMany(2 * count, s))
    decreases |s|, 2
  {
    hide Pairs, CheckMembers, CheckMany, Open;
    OpenErrors(cfg, NewObject(env), depth, slot, Some(|env.heap|));
    var r := Open(cfg, NewObject(env), depth, slot, Some(|env.heap|));
    if r.Ok? {
      PairsChecked(cfg, r.value, s, depth + 1, slot.inNs, count, 0, |env.heap|);
    }
  }

  /** After a key: the value and the remaining members. */
  function CheckAfterKey(count: nat, s: bytes): Checked {
    match Check(s, false)
    case WellFormed(_, rest) => if count == 0 then CheckMembers(rest) else CheckMany(2 * (count - 1), rest)
    case _ => NotWellFormed
  }

  lemma TwoMore(count: nat, s: bytes)
    requires count > 0
    ensures CheckMany(2 * count, s)
            == if Check(s, false).WellFormed? then CheckAfterKey(count, Check(s, false).rest) else NotWellFormed
  {
    hide Check, CheckMany, CheckMembers;
    OneMore(2 * count, s);
    if Check(s, false).WellFormed? {
      OneMore(2 * count - 1, Check(s, false).rest);
    }
  }

  lemma OneMore(count: nat, s: bytes)
    requires count > 0
    ensures CheckMany(count, s) == if Check(s, false).WellFormed? then CheckMany(count - 1, Check(s, false).rest) else NotWellFormed
  {
    hide Check;
  }

  lemma {:induction false} PairsChecked(
    cfg: Config, env: Env, s: bytes, depth: nat, inNs: bool, count: nat, added: nat, dest: nat)
    requires |s| < UINT64_LIMIT
    ensures Judged(Pairs(cfg, env, s, depth, inNs, count, added, dest),
                   if count == 0 then CheckMembers(s) else CheckMany(2 * count, s))
    decreases |s|, 1
  {
    hide Item, Lex, Check, TakeKey, PutProperty, CheckMany;
    var slot := Slot(true, inNs, None);
    FirstChecked(s);
    BreakLength(s);
    if count == 0 && IsBreak(s) {
    } else {
      ItemChecked(cfg, env, s, depth, slot);
      if count > 0 {
        TwoMore(count, s);
      }
      var k := Item(cfg, env, s, depth, slot);
      if k.Got? {
        NotTooMany(cfg, env, s, depth, slot);
        KeyErrors(cfg, count == 0, added, k.val);
        var key := TakeKey(cfg, count == 0, added, k.val);
        if key.Ok? {
          ValueChecked(cfg, k.env, k.rest, depth, inNs, count, added, dest, key.value);
        }
      } else if Lex(s).LexTooMany? {
        TooMany(cfg, env, s, depth, slot);
      }
    }
  }

  lemma KeyErrors(cfg: Config, indef: bool, added: nat, key: Val)
    ensures var r := TakeKey(cfg, indef, added, key); r.Err? ==> !IsSyntaxError(r.error)
  {
  }

  lemma PropertyErrors(cfg: Config, env: Env, dest: nat, key: Val, v: Val)
    ensures var r := PutProperty(cfg, env, dest, key, v); r.Err? ==> !IsSyntaxError(r.error)
  {
  }

  lemma {:induction false} ValueChecked(
    cfg: Config, env: Env, s: bytes, depth: nat, inNs: bool, count: nat, added: nat, dest: nat, key: Val)
    requires |s| < UINT64_LIMIT
    ensures Judged(AfterKey(cfg, env, s, depth, inNs, count, added, dest, key), CheckAfterKey(count, s))
    decreases |s|, 1
  {
    hide Item, Check, PutProperty, CheckMany, Pairs, CheckMembers;
    ItemChecked(cfg, env, s, depth, Slot(false, inNs, None));
    var d := Item(cfg, env, s, depth, Slot(false, inNs, None));
    if d.Got? {
      PropertyErrors(cfg, d.env, dest, key, d.val);
      var r := PutProperty(cfg, d.env, dest, key, d.val);
      NothingToCheck(d.rest);
      if r.Ok? && count != 1 {
        PairsChecked(cfg, r.value, d.rest, depth, inNs, if count == 0 then 0 else count - 1,
                     if count == 0 then added + 1 else added, dest);
      }
    }
  }

  lemma {:induction false} TagChecked(cfg: Config, env: Env, s: bytes, depth: nat, slot: Slot, tag: nat)
    requires |s| < UINT64_LIMIT
    ensures Judged(TagItem(cfg, env, s, depth, slot, tag), CheckMany(1, s))
    decreases |s|, 2
  {
    hide Item, Check, Open, ExitTag, HandlerOf;
    var h := HandlerOf(cfg, tag);
    TagErrors(env, slot, h);
    var r := EnterTag(env, slot, h);
    if r.Ok? {
      OpenErrors(cfg, r.value, depth, slot, None);
      var entered := Open(cfg, r.value, depth, slot, None);
      if entered.Ok? {
        ItemChecked(cfg, entered.value, s, depth + 1, TagSlot(slot, h, |env.refs|));
        var d := Item(cfg, entered.value, s, depth + 1, TagSlot(slot, h, |env.refs|));
        if d.Got? {
          ExitErrors(d.env, tag, h, |env.refs|, d.val);
          NothingToCheck(d.rest);
        }
      }
    }
  }

  lemma TagErrors(env: Env, slot: Slot, h: Handler)
    ensures var r := EnterTag(env, slot, h); r.Err? ==> !IsSyntaxError(r.error)
  {
  }

  lemma ExitErrors(env: Env, tag: nat, h: Handler, index: nat, v: Val)
    ensures var r := ExitTag(env, tag, h, index, v); r.Err? ==> !IsSyntaxError(r.error)
  {
  }

  /**
   Against Appendix C: decoding succeeds on well-formed items only and reads exactly their bytes; and if
   it fails with a syntax error, the input does not start with a well-formed item.
   */
  lemma DecodingIsWellFormed(cfg: Config, s: bytes)
    requires |s| < UINT64_LIMIT
    ensures Judged(Decode(cfg, s), Check(s, false))
  {
    hide Item, Check;
    ItemChecked(cfg, EMPTY_ENV, s, 0, ROOT_SLOT);
  }
}
