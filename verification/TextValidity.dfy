/**
 The decoder and text: unless CBOR_UNSAFE_TEXT is given, every text string of what is decoded is well-formed
 UTF-8, be it a key, a chunk or deep inside, and nothing else is refused for not being so.
 */
module TextValidity {
  import opened Bytes
  import opened Wrappers
  import opened Values
  import opened Wire
  import opened DecoderConfig
  import opened StackMachine
  import DecodeContext
  import Utf8

  /** All text strings among the tokens of `s` in front of `rest`. */
  predicate TextsValid(s: bytes, rest: bytes)
    decreases |s|
  {
    |s| <= |rest| ||
    var r := Lex(s);
    r.Tok? && (r.tok.TextString? ==> Utf8.Valid(r.tok.s)) && TextsValid(s[r.len..], rest)
  }

  /** Some token of `s` is a text string that is not well-formed. */
  predicate HasBadText(s: bytes)
    decreases |s|
  {
    var r := Lex(s);
    r.Tok? && ((r.tok.TextString? && !Utf8.Valid(r.tok.s)) || HasBadText(s[r.len..]))
  }

  // ----- Steps -----

  lemma {:induction false} AppendRefuses(cfg: Config, env: Env, stack: Stack, v: Val)
    ensures Append(cfg, env, stack, v).Err? ==> Append(cfg, env, stack, v).error != InvalidUtf8
    decreases stack
  {
    if stack.Push? {
      var f, below := stack.top, stack.below;
      match f.kind
      case KArray(elems) =>
        var r := AddElement(cfg, f.count == 0, elems, v);
        if r.Ok? {
          AppendRefuses(cfg, env, below, List(r.value));
        }
      case KMap(dest, added, key) =>
        if key.Some? {
          var r := PutProperty(cfg, env, dest, key.value, v);
          if r.Ok? {
            AppendRefuses(cfg, r.value, below, Obj(dest));
          }
        }
      case KTag(tag, h, index) =>
        var r := ExitTag(env, tag, h, index, v);
        if r.Ok? {
          AppendRefuses(cfg, r.value.1, below, r.value.0);
        }
      case KString(_, _) =>
    }
  }

  /** A text string that is not well-formed is refused for that, and nothing else is. */
  lemma ActJudges(cfg: Config, env: Env, stack: Stack, tok: Token, available: nat)
    ensures var r := Act(cfg, env, stack, tok, available);
            var bad := !cfg.unsafeText && tok.TextString? && !Utf8.Valid(tok.s);
            (bad ==> r == Err(InvalidUtf8)) && (r == Err(InvalidUtf8) ==> bad)
  {
    hide Utf8.Valid, Append, PushFrame, FloatItem16, FloatItem32, HandlerOf;
    match tok
    case UInt(n) => AppendRefuses(cfg, env, stack, Int(n));
    case NInt(n) => AppendRefuses(cfg, env, stack, Int(-1 - n));
    case ByteString(s) => StringRefuses(cfg, env, stack, s, false);
    case TextString(s) => StringRefuses(cfg, env, stack, s, true);
    case ByteStart => PushRefuses(cfg, env, stack, KString(false, []), 0);
    case TextStart => PushRefuses(cfg, env, stack, KString(true, []), 0);
    case Array(count) =>
      AppendRefuses(cfg, env, stack, List([]));
      PushRefuses(cfg, env, stack, KArray([]), count);
    case ArrayStart => PushRefuses(cfg, env, stack, KArray([]), 0);
    case Map(count) =>
      AppendRefuses(cfg, NewObject(env), stack, Obj(|env.heap|));
      PushRefuses(cfg, NewObject(env), stack, KMap(|env.heap|, 0, None), count);
    case MapStart => PushRefuses(cfg, NewObject(env), stack, KMap(|env.heap|, 0, None), 0);
    case TagHead(n) => TagRefuses(cfg, env, stack, n);
    case False => AppendRefuses(cfg, env, stack, Bool(false));
    case True => AppendRefuses(cfg, env, stack, Bool(true));
    case Null => AppendRefuses(cfg, env, stack, Val.Null);
    case Undefined => AppendRefuses(cfg, env, stack, Val.Undefined);
    case Simple(_) =>
    case Float16(raw) => AppendRefuses(cfg, env, stack, FloatItem16(cfg, raw));
    case Float32(raw) => AppendRefuses(cfg, env, stack, FloatItem32(cfg, raw));
    case Float64(raw) => AppendRefuses(cfg, env, stack, Float(raw));
    case Break => BreakRefuses(cfg, env, stack);
  }

  lemma PushRefuses(cfg: Config, env: Env, stack: Stack, kind: Kind, count: nat)
    ensures var r := PushFrame(cfg, env, stack, kind, count); r.Err? ==> r.error != InvalidUtf8
  {
  }

  lemma StringRefuses(cfg: Config, env: Env, stack: Stack, s: bytes, isText: bool)
    ensures var r := DoString(cfg, env, stack, s, isText);
            if isText && !TextOk(cfg, s) then r == Err(InvalidUtf8) else r.Err? ==> r.error != InvalidUtf8
  {
    hide Utf8.Valid, Append;
    var r := StringItem(cfg, env, SlotOf(stack), s, isText, false);
    if r.Ok? {
      AppendRefuses(cfg, r.value.1, stack, r.value.0);
    }
  }

  lemma BreakRefuses(cfg: Config, env: Env, stack: Stack)
    ensures var r := DoBreak(cfg, env, stack); r.Err? ==> r.error != InvalidUtf8
  {
    hide Append;
    if stack.Push? {
      var f := stack.top;
      if f.kind.KString? {
        var r := StringItem(cfg, env, SlotOf(stack.below), f.kind.content, f.kind.isText, true);
        if r.Ok? {
          AppendRefuses(cfg, r.value.1, stack.below, r.value.0);
        }
      } else if f.kind.KArray? {
        AppendRefuses(cfg, env, stack.below, List(f.kind.elems));
      } else if f.kind.KMap? {
        AppendRefuses(cfg, env, stack.below, Obj(f.kind.dest));
      }
    }
  }

  lemma TagRefuses(cfg: Config, env: Env, stack: Stack, tag: nat)
    ensures var r := DoTag(cfg, env, stack, tag); r.Err? ==> r.error != InvalidUtf8
  {
    hide PushFrame, HandlerOf;
    var h := HandlerOf(cfg, tag);
    var r := EnterTag(env, SlotOf(stack), h);
    if r.Ok? {
      PushRefuses(cfg, r.value, stack, KTag(tag, h, |env.refs|), 1);
    }
  }

  // ----- Runs -----

  lemma {:induction false} DriveJudges(cfg: Config, st: State, s: bytes)
    ensures var o := Drive(cfg, st, s);
            && (o.Done? && !cfg.unsafeText ==> TextsValid(s, o.rest))
            && (o == Fail(InvalidUtf8) ==> !cfg.unsafeText && HasBadText(s))
    decreases |s|
  {
    hide Lex, Act, Utf8.Valid;
    var r := Lex(s);
    if r.Tok? {
      ActJudges(cfg, st.env, st.stack, r.tok, |s|);
      var next := Act(cfg, st.env, st.stack, r.tok, |s|);
      if next.Ok? && next.value.stack.Push? {
        DriveJudges(cfg, next.value, s[r.len..]);
      }
    }
  }

  /** What is left of the input when the self-describe prefix has been skipped. */
  function Content(cfg: Config, s: bytes): bytes {
    if cfg.selfDescribe then s
    else
      match SkipPrefix(s)
      case NeedMore => s
      case Ready(rest) => rest
  }

  /** Decoding succeeds on well-formed text only, and says that text is not if there is such. */
  lemma DecodedTextIsValid(cfg: Config, s: bytes)
    ensures var d := DecodeContext.DecodeAll(cfg, s);
            && (d.Ok? && !cfg.unsafeText ==> TextsValid(Content(cfg, s), []))
            && (d == Err(InvalidUtf8) ==> !cfg.unsafeText && HasBadText(Content(cfg, s)))
  {
    hide Drive, SkipPrefix, TextsValid, HasBadText;
    DriveJudges(cfg, INITIAL, Content(cfg, s));
  }
}
