/**
 Decoding by recursive descent, in the manner of section 3 and Appendix C of RFC 8949, with the
 limits of this decoder. This is what the stack machine is measured against.
 */
module RecursiveDecoder {
  import opened Bytes
  import opened Wrappers
  import opened Values
  import opened Wire
  import opened DecoderConfig

  /** A decoded value, what was built beside it, and the bytes that follow it. */
  datatype Decoded = Got(val: Val, env: Env, rest: bytes) | Failed(error: Error)

  function LexError(r: Lexed): Error
    requires !r.Tok?
  {
    match r
    case LexTruncated => TruncatedData
    case LexMalformed => MalformedData
    case LexTooMany => UnsupportedSize
  }

  /** Is `rest` a proper suffix of `s`? */
  ghost predicate Consumed(s: bytes, d: Decoded) {
    d.Got? ==> |d.rest| < |s| && d.rest == s[|s| - |d.rest|..]
  }

  predicate IsBreak(s: bytes) { Lex(s).Tok? && Lex(s).tok.Break? }

  function FromString(r: R<(Val, Env)>, rest: bytes): Decoded {
    match r
    case Ok((v, env)) => Got(v, env, rest)
    case Err(e) => Failed(e)
  }

  /** One data item, to be put into `slot` of a container at `depth`. */
  function Item(cfg: Config, env: Env, s: bytes, depth: nat, slot: Slot): (d: Decoded)
    ensures d.Got? ==> |d.rest| < |s|
    decreases |s|, 0
  {
    var r := Lex(s);
    if r.Tok? then ItemOf(cfg, env, r.tok, |s|, s[r.len..], depth, slot) else Failed(LexError(r))
  }

  /** The data item of which `tok` is the head, `available` bytes counted from the head on. */
  function ItemOf(cfg: Config, env: Env, tok: Token, available: nat, rest: bytes, depth: nat, slot: Slot): (d: Decoded)
    ensures d.Got? ==> |d.rest| <= |rest|
    decreases |rest|, 3
  {
    match tok
    case UInt(n) => Got(Int(n), env, rest)
    case NInt(n) => Got(Int(-1 - n), env, rest)
    case ByteString(b) => FromString(StringItem(cfg, env, slot, b, false, false), rest)
    case TextString(b) =>
      if TextOk(cfg, b) then FromString(StringItem(cfg, env, slot, b, true, false), rest) else Failed(InvalidUtf8)
    case ByteStart => ChunkedString(cfg, env, rest, depth, slot, false)
    case TextStart => ChunkedString(cfg, env, rest, depth, slot, true)
    case Array(count) =>
      if count > cfg.maxSize then Failed(UnsupportedSize)
      else if cfg.limited && 1 + count > available then Failed(TruncatedData)
      else if count == 0 then Got(List([]), env, rest)
      else ArrayItem(cfg, env, rest, depth, slot, count)
    case ArrayStart => ArrayItem(cfg, env, rest, depth, slot, 0)
    case Map(count) =>
      if count > cfg.maxSize then Failed(UnsupportedSize)
      else if cfg.limited && 1 + count * 2 % UINT32_LIMIT > available then Failed(TruncatedData)
      else if count == 0 then Got(Obj(|env.heap|), NewObject(env), rest)
      else MapItem(cfg, env, rest, depth, slot, count)
    case MapStart => MapItem(cfg, env, rest, depth, slot, 0)
    case TagHead(n) => if n > LONG_MAX then Failed(IntRange) else TagItem(cfg, env, rest, depth, slot, n)
    case False => Got(Bool(false), env, rest)
    case True => Got(Bool(true), env, rest)
    case Null => Got(Val.Null, env, rest)
    case Undefined => Got(Val.Undefined, env, rest)
    case Simple(_) => Failed(UnsupportedSimple)
    case Float16(raw) => Got(FloatItem16(cfg, raw), env, rest)
    case Float32(raw) => Got(FloatItem32(cfg, raw), env, rest)
    case Float64(raw) => Got(Float(raw), env, rest)
    case Break => Failed(if depth == 0 then BreakUnderflow else BreakUnexpected)
  }

  function ChunkedString(cfg: Config, env: Env, s: bytes, depth: nat, slot: Slot, isText: bool): (d: Decoded)
    ensures d.Got? ==> |d.rest| < |s|
    decreases |s|, 2
  {
    match Open(cfg, env, depth, slot, None)
    case Err(e) => Failed(e)
    case Ok(env1) => Chunks(cfg, env1, s, depth, slot, isText, [])
  }

  function ArrayItem(cfg: Config, env: Env, s: bytes, depth: nat, slot: Slot, count: nat): (d: Decoded)
    ensures d.Got? ==> |d.rest| < |s|
    decreases |s|, 2
  {
    match Open(cfg, env, depth, slot, None)
    case Err(e) => Failed(e)
    case Ok(env1) => Elements(cfg, env1, s, depth + 1, slot.inNs, count, [])
  }

  function MapItem(cfg: Config, env: Env, s: bytes, depth: nat, slot: Slot, count: nat): (d: Decoded)
    ensures d.Got? ==> |d.rest| < |s|
    decreases |s|, 2
  {
    var dest := |env.heap|;
    match Open(cfg, NewObject(env), depth, slot, Some(dest))
    case Err(e) => Failed(e)
    case Ok(env1) => Pairs(cfg, env1, s, depth + 1, slot.inNs, count, 0, dest)
  }

  function TagItem(cfg: Config, env: Env, s: bytes, depth: nat, slot: Slot, tag: nat): (d: Decoded)
    ensures d.Got? ==> |d.rest| < |s|
    decreases |s|, 2
  {
    var h, index := HandlerOf(cfg, tag), |env.refs|;
    match EnterTag(env, slot, h)
    case Err(e) => Failed(e)
    case Ok(env1) =>
      match Open(cfg, env1, depth, slot, None)
      case Err(e) => Failed(e)
      case Ok(env2) =>
        match Item(cfg, env2, s, depth + 1, TagSlot(slot, h, index))
        case Failed(e) => Failed(e)
        case Got(v, env3, rest) => FromString(ExitTag(env3, tag, h, index, v), rest)
  }

  /**
   The chunks of an indefinite-length string. Anything else in their place is decoded before it
   is refused.
   */
  function Chunks(cfg: Config, env: Env, s: bytes, depth: nat, slot: Slot, isText: bool, content: bytes): (d: Decoded)
    ensures d.Got? ==> |d.rest| < |s|
    decreases |s|, 1
  {
    var r := Lex(s);
    if !r.Tok? then Failed(LexError(r))
    else if r.tok.Break? then FromString(StringItem(cfg, env, slot, content, isText, true), s[r.len..])
    else if r.tok.TextString? || r.tok.ByteString? then
      if r.tok.TextString? && !TextOk(cfg, r.tok.s) then Failed(InvalidUtf8)
      else if r.tok.TextString? != isText then Failed(InconsistentStringType)
      else Chunks(cfg, env, s[r.len..], depth, slot, isText, content + r.tok.s)
    else
      match Item(cfg, env, s, depth + 1, ROOT_SLOT)
      case Failed(e) => Failed(e)
      case Got(_, _, _) => Failed(IndefStringChunkType)
  }

  /** The remaining elements of an array: `count` of them, or up to a break if `count` is 0. */
  function Elements(cfg: Config, env: Env, s: bytes, depth: nat, inNs: bool, count: nat, elems: seq<Val>): (d: Decoded)
    ensures d.Got? ==> |d.rest| < |s|
    decreases |s|, 1
  {
    if count == 0 && IsBreak(s) then Got(List(elems), env, s[1..])
    else
      match Item(cfg, env, s, depth, Slot(false, inNs, None))
      case Failed(e) => Failed(e)
      case Got(v, env1, rest) =>
        match AddElement(cfg, count == 0, elems, v)
        case Err(e) => Failed(e)
        case Ok(elems1) =>
          if count == 1 then Got(List(elems1), env1, rest)
          else Elements(cfg, env1, rest, depth, inNs, if count == 0 then 0 else count - 1, elems1)
  }

  /** The remaining members of a map: `count` of them, or up to a break if `count` is 0. */
  function Pairs(cfg: Config, env: Env, s: bytes, depth: nat, inNs: bool, count: nat, added: nat, dest: nat): (d: Decoded)
    ensures d.Got? ==> |d.rest| < |s|
    decreases |s|, 1
  {
    if count == 0 && IsBreak(s) then Got(Obj(dest), env, s[1..])
    else
      match Item(cfg, env, s, depth, Slot(true, inNs, None))
      case Failed(e) => Failed(e)
      case Got(k, env1, rest1) =>
        match TakeKey(cfg, count == 0, added, k)
        case Err(e) => Failed(e)
        case Ok(key) =>
          match Item(cfg, env1, rest1, depth, Slot(false, inNs, None))
          case Failed(e) => Failed(e)
          case Got(v, env2, rest2) =>
            match PutProperty(cfg, env2, dest, key, v)
            case Err(e) => Failed(e)
            case Ok(env3) =>
              if count == 1 then Got(Obj(dest), env3, rest2)
              else Pairs(cfg, env3, rest2, depth, inNs, if count == 0 then 0 else count - 1,
                         if count == 0 then added + 1 else added, dest)
  }

  /** The value of a member and the members behind it. */
  function AfterKey(
    cfg: Config, env: Env, s: bytes, depth: nat, inNs: bool, count: nat, added: nat, dest: nat, key: Val): Decoded
  {
    match Item(cfg, env, s, depth, Slot(false, inNs, None))
    case Failed(e) => Failed(e)
    case Got(v, env2, rest2) =>
      match PutProperty(cfg, env2, dest, key, v)
      case Err(e) => Failed(e)
      case Ok(env3) =>
        if count == 1 then Got(Obj(dest), env3, rest2)
        else Pairs(cfg, env3, rest2, depth, inNs, if count == 0 then 0 else count - 1,
                   if count == 0 then added + 1 else added, dest)
  }

  /** A whole data item at top level. */
  function Decode(cfg: Config, s: bytes): (d: Decoded)
    ensures d.Got? ==> |d.rest| < |s|
  {
    match Item(cfg, EMPTY_ENV, s, 0, ROOT_SLOT)
    case Failed(e) => Failed(e)
    case Got(v, env, rest) => if IsBigInt(v) then Failed(IntRange) else Got(v, env, rest)
  }

  /** A written token at the front. */
  lemma ItemOfWritten(cfg: Config, env: Env, t: Token, rest: bytes, level: nat, slot: Slot)
    requires Writable(t)
    ensures Item(cfg, env, Write(t) + rest, level, slot) == ItemOf(cfg, env, t, |Write(t)| + |rest|, rest, level, slot)
  {
    hide Write, Lex, ItemOf;
    TokenRoundTrip(t, rest);
    DropConcat(Write(t), rest);
  }
}
