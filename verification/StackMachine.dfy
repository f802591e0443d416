/**
 The decoder of decode.c, decode_base.h and decode_zv.h as a machine: each step reads one token
 and changes a stack of open containers. Appending a value can complete a container, which is
 then popped and appended to the next one, and so on.
 */
module StackMachine {
  import opened Bytes
  import opened Wrappers
  import opened Values
  import opened Wire
  import opened DecoderConfig
  import RecursiveDecoder

  datatype Kind =
    | KArray(elems: seq<Val>)
    | KMap(dest: nat, added: nat, key: Option<Val>)
    | KString(isText: bool, content: bytes)
    | KTag(tag: nat, handler: Handler, index: nat)

  /**
   An open container or tag. `count` is the number of elements still missing, 0 for indefinite
   length. `inNs` stands for the registered data and child handlers of string-ref namespaces.
   */
  datatype Frame = Frame(kind: Kind, count: nat, inNs: bool)

  datatype Stack = Empty | Push(top: Frame, below: Stack)

  datatype State = State(env: Env, stack: Stack, root: Option<Val>)

  function Height(stack: Stack): nat {
    match stack
    case Empty => 0
    case Push(_, below) => 1 + Height(below)
  }

  /** What the top of the stack means for the next item. */
  function SlotOf(stack: Stack): Slot {
    match stack
    case Empty => ROOT_SLOT
    case Push(f, _) =>
      Slot(f.kind.KMap? && f.kind.key.None?, f.inNs,
           if f.kind.KTag? && f.kind.handler.Shareable? then Some(f.kind.index) else None)
  }

  predicate InString(stack: Stack) { stack.Push? && stack.top.kind.KString? }

  /** A completed value goes into the top of the stack. */
  function Append(cfg: Config, env: Env, stack: Stack, v: Val): R<State>
    decreases stack, 0
  {
    match stack
    case Empty => if IsBigInt(v) then Err(IntRange) else Ok(State(env, Empty, Some(v)))
    case Push(f, below) =>
      match f.kind
      case KArray(elems) => AppendToArray(cfg, env, f, below, elems, v)
      case KMap(dest, added, key) => AppendToMap(cfg, env, f, below, dest, added, key, v)
      case KTag(tag, h, index) =>
        var r :- ExitTag(env, tag, h, index, v);
        Append(cfg, r.1, below, r.0)
      case KString(_, _) => Err(IndefStringChunkType)
  }

  function AppendToArray(cfg: Config, env: Env, f: Frame, below: Stack, elems: seq<Val>, v: Val): R<State>
    decreases below, 1
  {
    var elems1 :- AddElement(cfg, f.count == 0, elems, v);
    if f.count == 1 then Append(cfg, env, below, List(elems1))
    else Ok(State(env, Push(f.(kind := KArray(elems1), count := if f.count == 0 then 0 else f.count - 1), below), None))
  }

  function AppendToMap(cfg: Config, env: Env, f: Frame, below: Stack, dest: nat, added: nat, key: Option<Val>, v: Val): R<State>
    decreases below, 1
  {
    if key.None? then
      var k :- TakeKey(cfg, f.count == 0, added, v);
      Ok(State(env, Push(f.(kind := KMap(dest, if f.count == 0 then added + 1 else added, Some(k))), below), None))
    else
      var env1 :- PutProperty(cfg, env, dest, key.value, v);
      if f.count == 1 then Append(cfg, env1, below, Obj(dest))
      else
        Ok(State(env1, Push(f.(kind := KMap(dest, added, None), count := if f.count == 0 then 0 else f.count - 1), below), None))
  }

  /** Opens a container or tag on top of the stack. */
  function PushFrame(cfg: Config, env: Env, stack: Stack, kind: Kind, count: nat): R<State> {
    var slot := SlotOf(stack);
    var env1 :- Open(cfg, env, Height(stack), slot, if kind.KMap? then Some(kind.dest) else None);
    var inNs := !kind.KString? && (slot.inNs || (kind.KTag? && kind.handler.StrRefNs?));
    Ok(State(env1, Push(Frame(kind, count, inNs), stack), None))
  }

  /** A definite-length string: a chunk of an open string or an item of its own. */
  function DoString(cfg: Config, env: Env, stack: Stack, s: bytes, isText: bool): R<State> {
    if isText && !TextOk(cfg, s) then Err(InvalidUtf8)
    else if InString(stack) then
      if stack.top.kind.isText != isText then Err(InconsistentStringType)
      else Ok(State(env, Push(stack.top.(kind := KString(isText, stack.top.kind.content + s)), stack.below), None))
    else
      var r :- StringItem(cfg, env, SlotOf(stack), s, isText, false);
      Append(cfg, r.1, stack, r.0)
  }

  function DoBreak(cfg: Config, env: Env, stack: Stack): R<State> {
    match stack
    case Empty => Err(BreakUnderflow)
    case Push(f, below) =>
      if f.kind.KString? then
        var r :- StringItem(cfg, env, SlotOf(below), f.kind.content, f.kind.isText, true);
        Append(cfg, r.1, below, r.0)
      else if f.count != 0 || (f.kind.KMap? && f.kind.key.Some?) then Err(BreakUnexpected)
      else
        match f.kind
        case KArray(elems) => Append(cfg, env, below, List(elems))
        case KMap(dest, _, _) => Append(cfg, env, below, Obj(dest))
        case _ => Err(Internal)
  }

  function DoTag(cfg: Config, env: Env, stack: Stack, tag: nat): R<State> {
    if tag > LONG_MAX then Err(IntRange)
    else
      var h := HandlerOf(cfg, tag);
      var env1 :- EnterTag(env, SlotOf(stack), h);
      PushFrame(cfg, env1, stack, KTag(tag, h, |env.refs|), 1)
  }

  /** Acts on one token; `available` is the number of bytes from the token on. */
  function Act(cfg: Config, env: Env, stack: Stack, tok: Token, available: nat): R<State> {
    match tok
    case UInt(n) => Append(cfg, env, stack, Int(n))
    case NInt(n) => Append(cfg, env, stack, Int(-1 - n))
    case ByteString(s) => DoString(cfg, env, stack, s, false)
    case TextString(s) => DoString(cfg, env, stack, s, true)
    case ByteStart => PushFrame(cfg, env, stack, KString(false, []), 0)
    case TextStart => PushFrame(cfg, env, stack, KString(true, []), 0)
    case Array(count) =>
      if count > cfg.maxSize then Err(UnsupportedSize)
      else if cfg.limited && 1 + count > available then Err(TruncatedData)
      else if count == 0 then Append(cfg, env, stack, List([]))
      else PushFrame(cfg, env, stack, KArray([]), count)
    case ArrayStart => PushFrame(cfg, env, stack, KArray([]), 0)
    case Map(count) =>
      if count > cfg.maxSize then Err(UnsupportedSize)
      else if cfg.limited && 1 + count * 2 % UINT32_LIMIT > available then Err(TruncatedData)
      else if count == 0 then Append(cfg, NewObject(env), stack, Obj(|env.heap|))
      else PushFrame(cfg, NewObject(env), stack, KMap(|env.heap|, 0, None), count)
    case MapStart => PushFrame(cfg, NewObject(env), stack, KMap(|env.heap|, 0, None), 0)
    case TagHead(n) => DoTag(cfg, env, stack, n)
    case False => Append(cfg, env, stack, Bool(false))
    case True => Append(cfg, env, stack, Bool(true))
    case Null => Append(cfg, env, stack, Val.Null)
    case Undefined => Append(cfg, env, stack, Val.Undefined)
    case Simple(_) => Err(UnsupportedSimple)
    case Float16(raw) => Append(cfg, env, stack, FloatItem16(cfg, raw))
    case Float32(raw) => Append(cfg, env, stack, FloatItem32(cfg, raw))
    case Float64(raw) => Append(cfg, env, stack, Float(raw))
    case Break => DoBreak(cfg, env, stack)
  }

  /** One step: a new state and the number of bytes read, or an error. A failed step reads nothing. */
  function Step(cfg: Config, st: State, s: bytes): (r: R<(State, nat)>)
    ensures r.Ok? ==> 1 <= r.value.1 <= |s|
  {
    var lexed := Lex(s);
    if !lexed.Tok? then Err(RecursiveDecoder.LexError(lexed))
    else
      var st1 :- Act(cfg, st.env, st.stack, lexed.tok, |s|);
      Ok((st1, lexed.len))
  }

  /**
   How a run ends: with a value and the bytes behind it, with an error, or waiting for more bytes
   in the state reached so far.
   */
  datatype Outcome = Done(val: Val, env: Env, rest: bytes) | Fail(error: Error) | Blocked(st: State, rest: bytes)

  /** Steps until the stack is empty. */
  function Drive(cfg: Config, st: State, s: bytes): (o: Outcome)
    ensures o.Done? ==> |o.rest| < |s|
    ensures o.Blocked? ==> |o.rest| <= |s|
    ensures o.Fail? ==> o.error != TruncatedData
    decreases |s|, 0
  {
    match Step(cfg, st, s)
    case Err(e) => if e == TruncatedData then Blocked(st, s) else Fail(e)
    case Ok((st1, n)) => Continue(cfg, st1, s[n..])
  }

  function Continue(cfg: Config, st: State, rest: bytes): (o: Outcome)
    ensures o.Done? ==> |o.rest| <= |rest|
    ensures o.Blocked? ==> |o.rest| <= |rest|
    ensures o.Fail? ==> o.error != TruncatedData
    decreases |rest|, 1
  {
    if st.stack.Empty? then (if st.root.Some? then Done(st.root.value, st.env, rest) else Fail(Internal))
    else Drive(cfg, st, rest)
  }

  const INITIAL := State(EMPTY_ENV, Empty, None)

  // ----- The self-describe prefix -----

  const SELF_DESCRIBE: bytes := [0xd9, 0xd9, 0xf7]

  datatype Prefix = NeedMore | Ready(rest: bytes)

  /** Skips the self-describe tag at the start of the data, which may not have arrived completely. */
  function SkipPrefix(s: bytes): (p: Prefix)
    ensures p.Ready? ==> |p.rest| <= |s|
  {
    if s == [] then NeedMore
    else if s[0] != SELF_DESCRIBE[0] then Ready(s)
    else if |s| < 3 then NeedMore
    else if s[..3] == SELF_DESCRIBE then Ready(s[3..])
    else Ready(s)
  }

  /** A decoding in progress: is the prefix still to be skipped, and the state of the machine. */
  datatype Progress = Progress(skip: bool, st: State)

  datatype Processed =
    | Complete(val: Val, env: Env, rest: bytes)
    | Rejected(error: Error)
    | Waiting(progress: Progress, rest: bytes)

  function Start(cfg: Config): Progress { Progress(!cfg.selfDescribe, INITIAL) }

  function FromOutcome(o: Outcome): (p: Processed)
    ensures p.Waiting? ==> !p.progress.skip
  {
    match o
    case Done(v, env, rest) => Complete(v, env, rest)
    case Fail(e) => Rejected(e)
    case Blocked(st, rest) => Waiting(Progress(false, st), rest)
  }

  /** Goes on with `s`, the bytes not read yet. */
  function Process(cfg: Config, p: Progress, s: bytes): (r: Processed)
    ensures r.Waiting? ==> |r.rest| <= |s|
    ensures r.Complete? ==> |r.rest| < |s|
    ensures r.Rejected? ==> r.error != TruncatedData
  {
    if !p.skip then FromOutcome(Drive(cfg, p.st, s))
    else
      match SkipPrefix(s)
      case NeedMore => Waiting(p, s)
      case Ready(rest) => FromOutcome(Drive(cfg, p.st, rest))
  }

  // ----- Suffixes and continuation -----

  /** What is left over is always the end of the input. */
  lemma {:induction false} DriveLeavesSuffix(cfg: Config, st: State, s: bytes)
    ensures var o := Drive(cfg, st, s);
            (o.Done? || o.Blocked?) ==> o.rest == s[|s| - |o.rest|..]
    decreases |s|
  {
    hide Step;
    var r := Step(cfg, st, s);
    if r.Ok? {
      var rest := s[r.value.1..];
      if !r.value.0.stack.Empty? {
        DriveLeavesSuffix(cfg, r.value.0, rest);
        var o := Drive(cfg, r.value.0, rest);
        if o.Done? || o.Blocked? {
          assert rest[|rest| - |o.rest|..] == s[|s| - |o.rest|..];
        }
      }
    }
  }

  lemma ProcessLeavesSuffix(cfg: Config, p: Progress, s: bytes)
    ensures var r := Process(cfg, p, s);
            (r.Complete? || r.Waiting?) ==> r.rest == s[|s| - |r.rest|..]
  {
    hide Drive;
    if !p.skip {
      DriveLeavesSuffix(cfg, p.st, s);
    } else if SkipPrefix(s).Ready? {
      var t := SkipPrefix(s).rest;
      DriveLeavesSuffix(cfg, p.st, t);
      if !Process(cfg, p, s).Rejected? {
        SuffixOfSuffix(s, |s| - |t|, Process(cfg, p, s));
      }
    }
  }

  lemma SuffixOfSuffix(s: bytes, k: nat, r: Processed)
    requires k <= |s| && !r.Rejected? && |r.rest| <= |s| - k && r.rest == s[k..][|s| - k - |r.rest|..]
    ensures r.rest == s[|s| - |r.rest|..]
  {
  }

  lemma StepExtends(cfg: Config, st: State, a: bytes, b: bytes)
    requires !cfg.limited && Lex(a) != LexTruncated
    ensures Step(cfg, st, a + b) == Step(cfg, st, a)
  {
    LexExtends(a, b);
  }

  /** Bytes that arrive later change nothing that has been done, and a blocked run goes on with them. */
  lemma {:induction false} DriveResumes(cfg: Config, st: State, a: bytes, b: bytes)
    requires !cfg.limited
    ensures match Drive(cfg, st, a)
            case Done(v, env, rest) => Drive(cfg, st, a + b) == Done(v, env, rest + b)
            case Fail(e) => Drive(cfg, st, a + b) == Fail(e)
            case Blocked(st1, rest) => Drive(cfg, st, a + b) == Drive(cfg, st1, rest + b)
    decreases |a|
  {
    hide Act, Lex;
    if Lex(a) != LexTruncated {
      StepExtends(cfg, st, a, b);
      var r := Step(cfg, st, a);
      if r.Ok? {
        var n := r.value.1;
        assert (a + b)[n..] == a[n..] + b;
        if !r.value.0.stack.Empty? {
          DriveResumes(cfg, r.value.0, a[n..], b);
        }
      }
    }
  }

  lemma ProcessResumes(cfg: Config, p: Progress, a: bytes, b: bytes)
    requires !cfg.limited
    ensures match Process(cfg, p, a)
            case Complete(v, env, rest) => Process(cfg, p, a + b) == Complete(v, env, rest + b)
            case Rejected(e) => Process(cfg, p, a + b) == Rejected(e)
            case Waiting(p1, rest) => Process(cfg, p, a + b) == Process(cfg, p1, rest + b)
  {
    if !p.skip {
      DriveResumes(cfg, p.st, a, b);
    } else if SkipPrefix(a).Ready? {
      var rest := SkipPrefix(a).rest;
      assert a == rest || (a + b)[..3] == a[..3];
      assert SkipPrefix(a + b) == Ready(rest + b);
      DriveResumes(cfg, p.st, rest, b);
    }
  }
}
