/**
 What holds in every state the stack machine can reach. In such a state none of the decoder's
 internal assertions can fail: the error `Internal`, which stands for them, never occurs.
 */
module Invariants {
  import opened Bytes
  import opened Wrappers
  import opened Values
  import opened Wire
  import opened DecoderConfig
  import opened StackMachine

  predicate IsNsFrame(f: Frame) { f.kind.KTag? && f.kind.handler.StrRefNs? }

  /**
   One frame on top of `below`, with namespaces `ns` live, `objects` objects created and
   `shared` shareables numbered.
   */
  predicate FrameOk(f: Frame, below: Stack, ns: Namespaces, objects: nat, shared: nat) {
    && (f.inNs <==> !f.kind.KString? && (SlotOf(below).inNs || IsNsFrame(f)))
    && match f.kind
       case KArray(_) => true
       case KMap(dest, _, key) => dest < objects && (key.Some? ==> key.value.Str? || key.value.Int?)
       case KString(_, _) => f.count == 0
       case KTag(_, h, index) =>
         && f.count == 1
         && (h.StrRefNs? || h.StrRef? ==> ns.Namespace?)
         && (h.Shareable? ==> index < shared)
  }

  /** Every frame is fine and each namespace belongs to one namespace tag on the stack. */
  predicate StackOk(stack: Stack, ns: Namespaces, objects: nat, shared: nat) {
    match stack
    case Empty => ns.NoNamespace?
    case Push(f, below) =>
      && FrameOk(f, below, ns, objects, shared)
      && StackOk(below, if IsNsFrame(f) && ns.Namespace? then ns.outer else ns, objects, shared)
  }

  /** A shareable is only unknown while its tag is the top of the stack. */
  ghost predicate RefsKnown(refs: seq<Option<Val>>, stack: Stack) {
    forall i :: 0 <= i < |refs| && refs[i].None? ==> SlotOf(stack).share == Some(i)
  }

  predicate PropsOk(props: Props) {
    && DistinctKeys(props)
    && forall i :: 0 <= i < |props| ==> props[i].key == [] || props[i].key[0] != 0
  }

  predicate HeapOk(heap: Heap) { forall i :: 0 <= i < |heap| ==> PropsOk(heap[i]) }

  ghost predicate InOrder(env: Env, stack: Stack) {
    && StackOk(stack, env.ns, |env.heap|, |env.refs|)
    && RefsKnown(env.refs, stack)
    && HeapOk(env.heap)
  }

  ghost predicate Good(r: R<State>) {
    match r
    case Ok(st) => InOrder(st.env, st.stack) && (st.stack.Empty? ==> st.root.Some?)
    case Err(e) => e != Internal
  }

  lemma {:induction false} StackOkGrows(stack: Stack, ns: Namespaces, objects: nat, shared: nat, objects': nat, shared': nat)
    requires StackOk(stack, ns, objects, shared) && objects <= objects' && shared <= shared'
    ensures StackOk(stack, ns, objects', shared')
  {
    match stack
    case Empty =>
    case Push(f, below) =>
      StackOkGrows(below, if IsNsFrame(f) && ns.Namespace? then ns.outer else ns, objects, shared, objects', shared');
  }

  /** Only the number of namespaces matters, not what is in their tables. */
  lemma StackOkRegisters(stack: Stack, ns: Namespaces, objects: nat, shared: nat, table: seq<Val>)
    requires StackOk(stack, ns, objects, shared) && ns.Namespace?
    ensures StackOk(stack, Namespace(table, ns.outer), objects, shared)
  {
    if stack.Push? && !IsNsFrame(stack.top) {
      StackOkRegisters(stack.below, ns, objects, shared, table);
    }
  }

  lemma PutPropertyKeeps(cfg: Config, env: Env, dest: nat, key: Val, v: Val)
    requires HeapOk(env.heap) && dest < |env.heap|
    ensures match PutProperty(cfg, env, dest, key, v)
            case Ok(env1) => HeapOk(env1.heap) && env1 == env.(heap := env1.heap) && |env1.heap| == |env.heap|
            case Err(e) => e != Internal
  {
    var name, props := KeyName(key), env.heap[dest];
    SetPropIsUpdate(props, name, v);
    assert PropsOk(props);
  }

  lemma ExitTagKeeps(env: Env, f: Frame, below: Stack, v: Val)
    requires InOrder(env, Push(f, below)) && f.kind.KTag?
    ensures match ExitTag(env, f.kind.tag, f.kind.handler, f.kind.index, v)
            case Ok(p) => InOrder(p.1, below)
            case Err(e) => e != Internal
  {
  }

  lemma {:induction false} AppendKeeps(cfg: Config, env: Env, stack: Stack, v: Val)
    requires InOrder(env, stack)
    ensures Good(Append(cfg, env, stack, v))
    decreases stack
  {
    if stack.Push? {
      var f, below := stack.top, stack.below;
      match f.kind
      case KArray(elems) =>
        if f.count == 1 && !IsBigInt(v) {
          AppendKeeps(cfg, env, below, List(elems + [v]));
        }
      case KMap(dest, added, key) =>
        if key.Some? {
          PutPropertyKeeps(cfg, env, dest, key.value, v);
          var r := PutProperty(cfg, env, dest, key.value, v);
          if r.Ok? && f.count == 1 {
            AppendKeeps(cfg, r.value, below, Obj(dest));
          }
        }
      case KTag(tag, h, index) =>
        var r := ExitTag(env, tag, h, index, v);
        ExitTagKeeps(env, f, below, v);
        if r.Ok? {
          AppendKeeps(cfg, r.value.1, below, r.value.0);
        }
      case KString(_, _) =>
    }
  }

  lemma PushFrameKeeps(cfg: Config, env: Env, stack: Stack, kind: Kind, count: nat)
    requires RefsKnown(env.refs, stack) || (kind.KTag? && kind.handler.Shareable? && SlotOf(stack).share.None?
                                           && forall i :: 0 <= i < |env.refs| && env.refs[i].None? ==> i == kind.index)
    requires HeapOk(env.heap)
    requires StackOk(stack, if kind.KTag? && kind.handler.StrRefNs? && env.ns.Namespace? then env.ns.outer else env.ns,
                     |env.heap|, |env.refs|)
    requires FrameOk(Frame(kind, count, !kind.KString? && (SlotOf(stack).inNs || (kind.KTag? && kind.handler.StrRefNs?))),
                     stack, env.ns, |env.heap|, |env.refs|)
    requires SlotOf(stack).share.Some? ==> SlotOf(stack).share.value < |env.refs|
    ensures Good(PushFrame(cfg, env, stack, kind, count))
  {
  }

  lemma PushPlainKeeps(cfg: Config, env: Env, stack: Stack, kind: Kind, count: nat)
    requires InOrder(env, stack) && (kind.KArray? || (kind.KString? && count == 0))
    ensures Good(PushFrame(cfg, env, stack, kind, count))
  {
    PushFrameKeeps(cfg, env, stack, kind, count);
  }

  lemma DoTagKeeps(cfg: Config, env: Env, stack: Stack, tag: nat)
    requires InOrder(env, stack)
    ensures Good(DoTag(cfg, env, stack, tag))
  {
    if tag <= LONG_MAX {
      var slot, h := SlotOf(stack), HandlerOf(cfg, tag);
      var r := EnterTag(env, slot, h);
      if r.Ok? {
        StackOkGrows(stack, env.ns, |env.heap|, |env.refs|, |env.heap|, |r.value.refs|);
        PushFrameKeeps(cfg, r.value, stack, KTag(tag, h, |env.refs|), 1);
      }
    }
  }

  lemma MapStartKeeps(cfg: Config, env: Env, stack: Stack, count: nat)
    requires InOrder(env, stack)
    ensures InOrder(NewObject(env), stack)
    ensures Good(PushFrame(cfg, NewObject(env), stack, KMap(|env.heap|, 0, None), count))
  {
    StackOkGrows(stack, env.ns, |env.heap|, |env.refs|, |env.heap| + 1, |env.refs|);
    PushFrameKeeps(cfg, NewObject(env), stack, KMap(|env.heap|, 0, None), count);
  }

  lemma RegisterKeeps(env: Env, stack: Stack, v: Val)
    requires InOrder(env, stack)
    ensures InOrder(env.(ns := Register(env.ns, v)), stack)
  {
    if env.ns.Namespace? {
      StackOkRegisters(stack, env.ns, |env.heap|, |env.refs|, env.ns.table + [v]);
    }
  }

  lemma DoStringKeeps(cfg: Config, env: Env, stack: Stack, s: bytes, isText: bool)
    requires InOrder(env, stack)
    ensures Good(DoString(cfg, env, stack, s, isText))
  {
    if !InString(stack) {
      var r := StringItem(cfg, env, SlotOf(stack), s, isText, false);
      if r.Ok? {
        RegisterKeeps(env, stack, r.value.0);
        AppendKeeps(cfg, r.value.1, stack, r.value.0);
      }
    }
  }

  lemma DoBreakKeeps(cfg: Config, env: Env, stack: Stack)
    requires InOrder(env, stack)
    ensures Good(DoBreak(cfg, env, stack))
  {
    if stack.Push? {
      var f, below := stack.top, stack.below;
      match f.kind
      case KString(isText, content) =>
        var r := StringItem(cfg, env, SlotOf(below), content, isText, true);
        if r.Ok? {
          AppendKeeps(cfg, env, below, r.value.0);
        }
      case KArray(elems) => AppendKeeps(cfg, env, below, List(elems));
      case KMap(dest, _, _) => AppendKeeps(cfg, env, below, Obj(dest));
      case KTag(_, _, _) =>
    }
  }

  /** Every token keeps the invariants, and no assertion fails on the way. */
  lemma ActKeeps(cfg: Config, env: Env, stack: Stack, tok: Token, available: nat)
    requires InOrder(env, stack)
    ensures Good(Act(cfg, env, stack, tok, available))
  {
    hide InOrder, Append, PushFrame, DoString, DoBreak, DoTag;
    match tok
    case UInt(n) => AppendKeeps(cfg, env, stack, Int(n));
    case NInt(n) => AppendKeeps(cfg, env, stack, Int(-1 - n));
    case ByteString(s) => DoStringKeeps(cfg, env, stack, s, false);
    case TextString(s) => DoStringKeeps(cfg, env, stack, s, true);
    case ByteStart => PushPlainKeeps(cfg, env, stack, KString(false, []), 0);
    case TextStart => PushPlainKeeps(cfg, env, stack, KString(true, []), 0);
    case Array(count) =>
      if count == 0 {
        AppendKeeps(cfg, env, stack, List([]));
      } else {
        PushPlainKeeps(cfg, env, stack, KArray([]), count);
      }
    case ArrayStart => PushPlainKeeps(cfg, env, stack, KArray([]), 0);
    case Map(count) =>
      MapStartKeeps(cfg, env, stack, count);
      AppendKeeps(cfg, NewObject(env), stack, Obj(|env.heap|));
    case MapStart => MapStartKeeps(cfg, env, stack, 0);
    case TagHead(n) => DoTagKeeps(cfg, env, stack, n);
    case False => AppendKeeps(cfg, env, stack, Bool(false));
    case True => AppendKeeps(cfg, env, stack, Bool(true));
    case Null => AppendKeeps(cfg, env, stack, Val.Null);
    case Undefined => AppendKeeps(cfg, env, stack, Val.Undefined);
    case Simple(_) =>
    case Float16(raw) => AppendKeeps(cfg, env, stack, FloatItem16(cfg, raw));
    case Float32(raw) => AppendKeeps(cfg, env, stack, FloatItem32(cfg, raw));
    case Float64(raw) => AppendKeeps(cfg, env, stack, Float(raw));
    case Break => DoBreakKeeps(cfg, env, stack);
  }

  lemma StepKeeps(cfg: Config, st: State, s: bytes)
    requires InOrder(st.env, st.stack)
    ensures match Step(cfg, st, s)
            case Ok((st1, _)) => InOrder(st1.env, st1.stack) && (st1.stack.Empty? ==> st1.root.Some?)
            case Err(e) => e != Internal
  {
    var r := Lex(s);
    if r.Tok? {
      ActKeeps(cfg, st.env, st.stack, r.tok, |s|);
    }
  }

  lemma {:induction false} AppendNeedsNoMore(cfg: Config, env: Env, stack: Stack, v: Val)
    ensures Append(cfg, env, stack, v) != Err(TruncatedData)
    decreases stack
  {
    if stack.Push? {
      var f, below := stack.top, stack.below;
      match f.kind
      case KArray(elems) => AppendNeedsNoMore(cfg, env, below, List(elems + [v]));
      case KMap(dest, added, key) =>
        if key.Some? {
          var r := PutProperty(cfg, env, dest, key.value, v);
          if r.Ok? {
            AppendNeedsNoMore(cfg, r.value, below, Obj(dest));
          }
        }
      case KTag(tag, h, index) =>
        var r := ExitTag(env, tag, h, index, v);
        if r.Ok? {
          AppendNeedsNoMore(cfg, r.value.1, below, r.value.0);
        }
      case KString(_, _) =>
    }
  }

  /** Unless element counts are checked early, only the lexer finds data truncated. */
  lemma ActNeedsNoMore(cfg: Config, env: Env, stack: Stack, tok: Token, available: nat)
    requires !cfg.limited
    ensures Act(cfg, env, stack, tok, available) != Err(TruncatedData)
  {
    forall env: Env, stack: Stack, v: Val {
      AppendNeedsNoMore(cfg, env, stack, v);
    }
  }

  /** Over a whole run: the state stays in order, and a run never ends with an internal error. */
  lemma {:induction false} RunKeeps(cfg: Config, st: State, s: bytes)
    requires InOrder(st.env, st.stack)
    ensures match Drive(cfg, st, s)
            case Done(_, env, _) => InOrder(env, Empty)
            case Fail(e) => e != Internal
            case Blocked(st1, _) => InOrder(st1.env, st1.stack)
    decreases |s|
  {
    StepKeeps(cfg, st, s);
    var r := Step(cfg, st, s);
    if r.Ok? && r.value.0.stack.Push? {
      RunKeeps(cfg, r.value.0, s[r.value.1..]);
    }
  }

  function NamespaceTags(stack: Stack): nat {
    match stack
    case Empty => 0
    case Push(f, below) => (if IsNsFrame(f) then 1 else 0) + NamespaceTags(below)
  }

  function NamespaceCount(ns: Namespaces): nat {
    match ns
    case NoNamespace => 0
    case Namespace(_, outer) => 1 + NamespaceCount(outer)
  }

  /** As many namespaces are live as there are namespace tags on the stack. */
  lemma {:induction false} NamespacesMatchTags(stack: Stack, ns: Namespaces, objects: nat, shared: nat)
    requires StackOk(stack, ns, objects, shared)
    ensures NamespaceCount(ns) == NamespaceTags(stack)
  {
    match stack
    case Empty =>
    case Push(f, below) =>
      NamespacesMatchTags(below, if IsNsFrame(f) && ns.Namespace? then ns.outer else ns, objects, shared);
  }

  /** A back-reference never meets a shareable whose object is not known yet. */
  lemma SharedRefsResolve(env: Env, stack: Stack, v: Val)
    requires InOrder(env, stack) && stack.Push? && stack.top.kind.KTag? && stack.top.kind.handler.SharedRef?
    requires v.Int? && 0 <= v.i < |env.refs|
    ensures env.refs[v.i].Some?
  {
  }
}
