/**
 The stack machine computes what the recursive descent computes, on every input and with every
 option: the same value, objects and remaining bytes, or the same error.
 */
module Refinement {
  import opened Bytes
  import opened Wrappers
  import opened Values
  import opened Wire
  import opened DecoderConfig
  import opened RecursiveDecoder
  import opened StackMachine

  /** An outcome as the recursive decoder reports it. */
  function Report(o: Outcome): Decoded {
    match o
    case Done(v, env, rest) => Got(v, env, rest)
    case Fail(e) => Failed(e)
    case Blocked(_, _) => Failed(TruncatedData)
  }

  /** What follows a step of the machine. */
  function AfterStep(cfg: Config, r: R<State>, rest: bytes): Decoded {
    match r
    case Err(e) => Failed(e)
    case Ok(st) => Report(Continue(cfg, st, rest))
  }

  /** What follows when an item has been decoded and is appended to `stack`. */
  function AfterItem(cfg: Config, d: Decoded, stack: Stack): Decoded {
    match d
    case Failed(e) => Failed(e)
    case Got(v, env, rest) => AfterStep(cfg, Append(cfg, env, stack, v), rest)
  }

  lemma DriveByStep(cfg: Config, st: State, s: bytes)
    ensures Report(Drive(cfg, st, s)) ==
            var r := Lex(s);
            if r.Tok? then AfterStep(cfg, Act(cfg, st.env, st.stack, r.tok, |s|), s[r.len..])
            else Failed(LexError(r))
  {
  }

  /** Does a break close the top of the stack? */
  predicate BreakCloses(stack: Stack) {
    && stack.Push? && stack.top.count == 0
    && (stack.top.kind.KMap? ==> stack.top.kind.key.None?)
  }

  /** Running on from a stack is the same as decoding one item and going on with its value appended. */
  lemma {:induction false} ItemRefined(cfg: Config, env: Env, stack: Stack, root: Option<Val>, s: bytes)
    requires !InString(stack)
    requires IsBreak(s) ==> !BreakCloses(stack)
    ensures Report(Drive(cfg, State(env, stack, root), s))
            == AfterItem(cfg, Item(cfg, env, s, Height(stack), SlotOf(stack)), stack)
    decreases |s|, 0
  {
    DriveByStep(cfg, State(env, stack, root), s);
    if Lex(s).Tok? {
      TokenRefined(cfg, env, stack, Lex(s).tok, |s|, s[Lex(s).len..]);
    }
  }

  lemma {:induction false} TokenRefined(cfg: Config, env: Env, stack: Stack, tok: Token, available: nat, rest: bytes)
    requires !InString(stack) || !(tok.TextString? || tok.ByteString? || tok.Break?)
    requires tok.Break? ==> !BreakCloses(stack)
    ensures AfterStep(cfg, Act(cfg, env, stack, tok, available), rest)
            == AfterItem(cfg, ItemOf(cfg, env, tok, available, rest, Height(stack), SlotOf(stack)), stack)
    decreases |rest|, 4
  {
    hide Act, ItemOf, Opens, Append, Continue;
    if Opens(tok) {
      OpeningRefined(cfg, env, stack, tok, available, rest);
    } else {
      PlainRefined(cfg, env, stack, tok, available, rest);
    }
  }

  lemma PlainRefined(cfg: Config, env: Env, stack: Stack, tok: Token, available: nat, rest: bytes)
    requires !InString(stack) || !(tok.TextString? || tok.ByteString? || tok.Break?)
    requires (tok.Break? ==> !BreakCloses(stack)) && !Opens(tok)
    ensures AfterStep(cfg, Act(cfg, env, stack, tok, available), rest)
            == AfterItem(cfg, ItemOf(cfg, env, tok, available, rest, Height(stack), SlotOf(stack)), stack)
  {
    hide Append, Continue, StringItem, FloatItem16, FloatItem32, TextOk;
  }

  lemma {:induction false} OpeningRefined(cfg: Config, env: Env, stack: Stack, tok: Token, available: nat, rest: bytes)
    requires Opens(tok)
    ensures AfterStep(cfg, Act(cfg, env, stack, tok, available), rest)
            == AfterItem(cfg, ItemOf(cfg, env, tok, available, rest, Height(stack), SlotOf(stack)), stack)
    decreases |rest|, 3
  {
    hide Append, PushFrame, Item, Drive, Lex, Continue, AfterItem, AfterStep;
    EndOfItem(cfg, ItemOf(cfg, env, tok, available, rest, Height(stack), SlotOf(stack)), stack);
    FailedStep(cfg, Act(cfg, env, stack, tok, available), rest);
    match tok
    case ByteStart => ChunkedStringRefined(cfg, env, stack, rest, false);
    case TextStart => ChunkedStringRefined(cfg, env, stack, rest, true);
    case Array(count) =>
      if count > 0 {
        ArrayRefined(cfg, env, stack, rest, count);
      }
    case ArrayStart => ArrayRefined(cfg, env, stack, rest, 0);
    case Map(count) =>
      if count > 0 {
        MapRefined(cfg, env, stack, rest, count);
      }
    case MapStart => MapRefined(cfg, env, stack, rest, 0);
    case TagHead(n) =>
      if n <= LONG_MAX {
        TagRefined(cfg, env, stack, rest, n);
      }
  }

  lemma EndOfItem(cfg: Config, d: Decoded, stack: Stack)
    ensures if d.Failed? then AfterItem(cfg, d, stack) == d
            else AfterItem(cfg, d, stack) == AfterStep(cfg, Append(cfg, d.env, stack, d.val), d.rest)
  {
  }

  lemma FailedStep(cfg: Config, r: R<State>, rest: bytes)
    ensures r.Err? ==> AfterStep(cfg, r, rest) == Failed(r.error)
  {
  }

  lemma {:induction false} ChunkedStringRefined(cfg: Config, env: Env, stack: Stack, rest: bytes, isText: bool)
    ensures AfterStep(cfg, PushFrame(cfg, env, stack, KString(isText, []), 0), rest)
            == AfterItem(cfg, ChunkedString(cfg, env, rest, Height(stack), SlotOf(stack), isText), stack)
    decreases |rest|, 2
  {
    var r := Open(cfg, env, Height(stack), SlotOf(stack), None);
    if r.Ok? {
      ChunksRefined(cfg, r.value, stack, rest, isText, []);
    }
  }

  /** The frame of an open string, before and after its chunks. */
  lemma {:induction false} ChunksRefined(cfg: Config, env: Env, stack: Stack, s: bytes, isText: bool, content: bytes)
    ensures var st := State(env, Push(Frame(KString(isText, content), 0, false), stack), None);
            Report(Drive(cfg, st, s))
            == AfterItem(cfg, Chunks(cfg, env, s, Height(stack), SlotOf(stack), isText, content), stack)
    decreases |s|, 1
  {
    hide ItemOf, Drive, Lex, StringItem, TextOk, PushFrame;
    var open := Push(Frame(KString(isText, content), 0, false), stack);
    DriveByStep(cfg, State(env, open, None), s);
    var r := Lex(s);
    if r.Tok? && !r.tok.Break? {
      var rest := s[r.len..];
      if r.tok.TextString? || r.tok.ByteString? {
        ChunksRefined(cfg, env, stack, rest, isText, content + r.tok.s);
      } else {
        TokenRefined(cfg, env, open, r.tok, |s|, rest);
      }
    }
  }

  lemma {:induction false} ArrayRefined(cfg: Config, env: Env, stack: Stack, rest: bytes, count: nat)
    ensures AfterStep(cfg, PushFrame(cfg, env, stack, KArray([]), count), rest)
            == AfterItem(cfg, ArrayItem(cfg, env, rest, Height(stack), SlotOf(stack), count), stack)
    decreases |rest|, 2
  {
    var slot := SlotOf(stack);
    var r := Open(cfg, env, Height(stack), slot, None);
    if r.Ok? {
      ElementsRefined(cfg, r.value, stack, rest, slot.inNs, count, []);
    }
  }

  /** A break that closes an array or a map. */
  lemma BreakRefined(cfg: Config, env: Env, f: Frame, stack: Stack, s: bytes)
    requires IsBreak(s) && BreakCloses(Push(f, stack)) && (f.kind.KArray? || f.kind.KMap?)
    ensures Report(Drive(cfg, State(env, Push(f, stack), None), s))
            == AfterItem(cfg, Got(if f.kind.KArray? then List(f.kind.elems) else Obj(f.kind.dest), env, s[1..]), stack)
  {
    hide Drive, Lex, Append;
    BreakLength(s);
    DriveByStep(cfg, State(env, Push(f, stack), None), s);
  }

  /** After an element: an error, one element fewer to go, or the array is complete. */
  function AfterElement(cfg: Config, r: R<seq<Val>>, env: Env, count: nat, inNs: bool, stack: Stack, rest: bytes): Decoded {
    match r
    case Err(e) => Failed(e)
    case Ok(elems) =>
      if count == 1 then AfterItem(cfg, Got(List(elems), env, rest), stack)
      else Report(Drive(cfg, State(env, Push(Frame(KArray(elems), CountDown(count), inNs), stack), None), rest))
  }

  function CountDown(count: nat): nat { if count == 0 then 0 else count - 1 }

  lemma AppendElement(cfg: Config, env: Env, elems: seq<Val>, count: nat, inNs: bool, stack: Stack, v: Val, rest: bytes)
    ensures AfterItem(cfg, Got(v, env, rest), Push(Frame(KArray(elems), count, inNs), stack))
            == AfterElement(cfg, AddElement(cfg, count == 0, elems, v), env, count, inNs, stack, rest)
  {
    var open := Push(Frame(KArray(elems), count, inNs), stack);
    assert Append(cfg, env, open, v) == AppendToArray(cfg, env, open.top, stack, elems, v);
  }

  lemma {:induction false} ElementsRefined(
    cfg: Config, env: Env, stack: Stack, s: bytes, inNs: bool, count: nat, elems: seq<Val>)
    ensures var st := State(env, Push(Frame(KArray(elems), count, inNs), stack), None);
            Report(Drive(cfg, st, s))
            == AfterItem(cfg, Elements(cfg, env, s, Height(stack) + 1, inNs, count, elems), stack)
    decreases |s|, 1
  {
    hide Drive, Lex, Append;
    var open := Push(Frame(KArray(elems), count, inNs), stack);
    if count == 0 && IsBreak(s) {
      BreakRefined(cfg, env, open.top, stack, s);
    } else {
      ItemRefined(cfg, env, open, None, s);
      var d := Item(cfg, env, s, Height(stack) + 1, Slot(false, inNs, None));
      if d.Got? {
        var r := AddElement(cfg, count == 0, elems, d.val);
        AppendElement(cfg, d.env, elems, count, inNs, stack, d.val, d.rest);
        if r.Ok? && count != 1 {
          ElementsRefined(cfg, d.env, stack, d.rest, inNs, if count == 0 then 0 else count - 1, r.value);
        }
      }
    }
  }

  lemma {:induction false} MapRefined(cfg: Config, env: Env, stack: Stack, rest: bytes, count: nat)
    ensures AfterStep(cfg, PushFrame(cfg, NewObject(env), stack, KMap(|env.heap|, 0, None), count), rest)
            == AfterItem(cfg, MapItem(cfg, env, rest, Height(stack), SlotOf(stack), count), stack)
    decreases |rest|, 2
  {
    var slot, dest := SlotOf(stack), |env.heap|;
    var r := Open(cfg, NewObject(env), Height(stack), slot, Some(dest));
    if r.Ok? {
      PairsRefined(cfg, r.value, stack, rest, slot.inNs, count, 0, dest);
    }
  }

  function AfterKey(
    cfg: Config, r: R<Val>, env: Env, dest: nat, added: nat, count: nat, inNs: bool, stack: Stack, rest: bytes): Decoded
  {
    match r
    case Err(e) => Failed(e)
    case Ok(key) => Report(Drive(cfg, State(env, Push(Frame(KMap(dest, added, Some(key)), count, inNs), stack), None), rest))
  }

  function AfterValue(cfg: Config, r: R<Env>, dest: nat, added: nat, count: nat, inNs: bool, stack: Stack, rest: bytes): Decoded {
    match r
    case Err(e) => Failed(e)
    case Ok(env) =>
      if count == 1 then AfterItem(cfg, Got(Obj(dest), env, rest), stack)
      else Report(Drive(cfg, State(env, Push(Frame(KMap(dest, added, None), CountDown(count), inNs), stack), None), rest))
  }

  lemma AppendKey(cfg: Config, env: Env, dest: nat, added: nat, count: nat, inNs: bool, stack: Stack, k: Val, rest: bytes)
    ensures AfterItem(cfg, Got(k, env, rest), Push(Frame(KMap(dest, added, None), count, inNs), stack))
            == AfterKey(cfg, TakeKey(cfg, count == 0, added, k), env, dest, if count == 0 then added + 1 else added,
                        count, inNs, stack, rest)
  {
    var open := Push(Frame(KMap(dest, added, None), count, inNs), stack);
    assert Append(cfg, env, open, k) == AppendToMap(cfg, env, open.top, stack, dest, added, None, k);
  }

  lemma AppendValue(
    cfg: Config, env: Env, dest: nat, added: nat, key: Val, count: nat, inNs: bool, stack: Stack, v: Val, rest: bytes)
    ensures AfterItem(cfg, Got(v, env, rest), Push(Frame(KMap(dest, added, Some(key)), count, inNs), stack))
            == AfterValue(cfg, PutProperty(cfg, env, dest, key, v), dest, added, count, inNs, stack, rest)
  {
    var open := Push(Frame(KMap(dest, added, Some(key)), count, inNs), stack);
    assert Append(cfg, env, open, v) == AppendToMap(cfg, env, open.top, stack, dest, added, Some(key), v);
  }

  lemma {:induction false} PairsRefined(
    cfg: Config, env: Env, stack: Stack, s: bytes, inNs: bool, count: nat, added: nat, dest: nat)
    ensures var st := State(env, Push(Frame(KMap(dest, added, None), count, inNs), stack), None);
            Report(Drive(cfg, st, s))
            == AfterItem(cfg, Pairs(cfg, env, s, Height(stack) + 1, inNs, count, added, dest), stack)
    decreases |s|, 1
  {
    hide Drive, Lex, Append;
    var open := Push(Frame(KMap(dest, added, None), count, inNs), stack);
    if count == 0 && IsBreak(s) {
      BreakRefined(cfg, env, open.top, stack, s);
    } else {
      ItemRefined(cfg, env, open, None, s);
      var k := Item(cfg, env, s, Height(stack) + 1, Slot(true, inNs, None));
      if k.Got? {
        var key := TakeKey(cfg, count == 0, added, k.val);
        AppendKey(cfg, k.env, dest, added, count, inNs, stack, k.val, k.rest);
        if key.Ok? {
          ValueRefined(cfg, k.env, stack, k.rest, inNs, count, added, dest, key.value);
        }
      }
    }
  }

  /** The second half of a member: the key is known, its value is next. */
  lemma {:induction false} ValueRefined(
    cfg: Config, env: Env, stack: Stack, s: bytes, inNs: bool, count: nat, added: nat, dest: nat, key: Val)
    ensures var added1 := if count == 0 then added + 1 else added;
            var st := State(env, Push(Frame(KMap(dest, added1, Some(key)), count, inNs), stack), None);
            Report(Drive(cfg, st, s)) ==
            match Item(cfg, env, s, Height(stack) + 1, Slot(false, inNs, None))
            case Failed(e) => Failed(e)
            case Got(v, env2, rest2) =>
              match PutProperty(cfg, env2, dest, key, v)
              case Err(e) => Failed(e)
              case Ok(env3) =>
                AfterItem(cfg,
                          if count == 1 then Got(Obj(dest), env3, rest2)
                          else Pairs(cfg, env3, rest2, Height(stack) + 1, inNs, if count == 0 then 0 else count - 1,
                                     added1, dest),
                          stack)
    decreases |s|, 1
  {
    hide Drive, Lex, Append;
    var added1 := if count == 0 then added + 1 else added;
    var open := Push(Frame(KMap(dest, added1, Some(key)), count, inNs), stack);
    ItemRefined(cfg, env, open, None, s);
    var d := Item(cfg, env, s, Height(stack) + 1, Slot(false, inNs, None));
    if d.Got? {
      var r := PutProperty(cfg, d.env, dest, key, d.val);
      AppendValue(cfg, d.env, dest, added1, key, count, inNs, stack, d.val, d.rest);
      if r.Ok? && count != 1 {
        PairsRefined(cfg, r.value, stack, d.rest, inNs, if count == 0 then 0 else count - 1, added1, dest);
      }
    }
  }

  lemma {:induction false} TagRefined(cfg: Config, env: Env, stack: Stack, rest: bytes, tag: nat)
    requires tag <= LONG_MAX
    ensures AfterStep(cfg, DoTag(cfg, env, stack, tag), rest)
            == AfterItem(cfg, TagItem(cfg, env, rest, Height(stack), SlotOf(stack), tag), stack)
    decreases |rest|, 2
  {
    hide Item, EnterTag, Open, ExitTag, HandlerOf, Drive, Lex;
    var slot := SlotOf(stack);
    var h, index := HandlerOf(cfg, tag), |env.refs|;
    var entered := EnterTag(env, slot, h);
    if entered.Ok? {
      var pushed := Open(cfg, entered.value, Height(stack), slot, None);
      if pushed.Ok? {
        var open := Push(Frame(KTag(tag, h, index), 1, slot.inNs || h.StrRefNs?), stack);
        ItemRefined(cfg, pushed.value, open, None, rest);
      }
    }
  }

  /** The machine started on `s` reports exactly what decoding by recursive descent gives. */
  lemma MachineRefinesRecursion(cfg: Config, s: bytes)
    ensures Report(Drive(cfg, INITIAL, s)) == Decode(cfg, s)
  {
    ItemRefined(cfg, EMPTY_ENV, Empty, None, s);
  }

  /** Decoding with the self-describe tag skipped, unless it is to be kept. */
  function DecodeAfterPrefix(cfg: Config, s: bytes): Decoded {
    if cfg.selfDescribe then Decode(cfg, s)
    else
      match SkipPrefix(s)
      case NeedMore => Failed(TruncatedData)
      case Ready(rest) => Decode(cfg, rest)
  }

  function ReportProcessed(p: Processed): Decoded {
    match p
    case Complete(v, env, rest) => Got(v, env, rest)
    case Rejected(e) => Failed(e)
    case Waiting(_, _) => Failed(TruncatedData)
  }

  lemma ProcessRefinesRecursion(cfg: Config, s: bytes)
    ensures ReportProcessed(Process(cfg, Start(cfg), s)) == DecodeAfterPrefix(cfg, s)
  {
    MachineRefinesRecursion(cfg, s);
    if SkipPrefix(s).Ready? {
      MachineRefinesRecursion(cfg, SkipPrefix(s).rest);
    }
  }
}
