/**
 The limits of the decoder hold in every state it can reach: the stack is never deeper than `max_depth`,
 and no array has more than `max_size` elements and no object more than `max_size` properties, while they
 are built or afterwards.
 */
module Limits {
  import opened Bytes
  import opened Wrappers
  import opened Values
  import opened Wire
  import opened DecoderConfig
  import opened StackMachine

  /** No array in the value is larger than `max`. */
  predicate Sized(max: nat, v: Val) {
    match v
    case List(elems) => |elems| <= max && forall i :: 0 <= i < |elems| ==> Sized(max, elems[i])
    case Tag(_, content) => Sized(max, content)
    case _ => true
  }

  predicate AllSized(max: nat, vals: seq<Val>) { forall i :: 0 <= i < |vals| ==> Sized(max, vals[i]) }

  predicate PropsSized(max: nat, props: Props) { forall i :: 0 <= i < |props| ==> Sized(max, props[i].val) }

  predicate NamespacesSized(max: nat, ns: Namespaces) {
    ns.Namespace? ==> AllSized(max, ns.table) && NamespacesSized(max, ns.outer)
  }

  predicate EnvSized(max: nat, env: Env) {
    && (forall i :: 0 <= i < |env.heap| ==> |env.heap[i]| <= max && PropsSized(max, env.heap[i]))
    && NamespacesSized(max, env.ns)
    && (forall i :: 0 <= i < |env.refs| && env.refs[i].Some? ==> Sized(max, env.refs[i].value))
  }

  /**
   A map with `size` properties so far. A definite one has room for the properties it waits for; in an
   indefinite one, `added` has counted those there are, and the one whose key is pending.
   */
  predicate MapWithin(max: nat, size: nat, f: Frame)
    requires f.kind.KMap?
  {
    if f.count > 0 then size + f.count <= max else size + (if f.kind.key.Some? then 1 else 0) <= f.kind.added <= max
  }

  /**
   The frames hold no more than the limit, what they still wait for included. Objects under construction
   are newer the higher their frame is; those of these frames are older than `bound`.
   */
  predicate FramesWithin(max: nat, heap: Heap, stack: Stack, bound: nat) {
    stack.Push? ==>
      match stack.top.kind
      case KArray(elems) =>
        |elems| + stack.top.count <= max && AllSized(max, elems) && FramesWithin(max, heap, stack.below, bound)
      case KMap(dest, _, _) =>
        && dest < bound && dest < |heap| && MapWithin(max, |heap[dest]|, stack.top)
        && FramesWithin(max, heap, stack.below, dest)
      case _ => FramesWithin(max, heap, stack.below, bound)
  }

  predicate Within(cfg: Config, env: Env, stack: Stack) {
    && Height(stack) <= cfg.maxDepth && EnvSized(cfg.maxSize, env)
    && FramesWithin(cfg.maxSize, env.heap, stack, |env.heap|)
  }

  predicate StateWithin(cfg: Config, r: R<State>) {
    r.Ok? ==> Within(cfg, r.value.env, r.value.stack) && (r.value.root.Some? ==> Sized(cfg.maxSize, r.value.root.value))
  }

  /** Only the objects older than the bound matter to frames. */
  lemma {:induction false} FramesOn(max: nat, heap: Heap, heap': Heap, stack: Stack, bound: nat, bound': nat)
    requires FramesWithin(max, heap, stack, bound) && bound <= bound' && |heap| <= |heap'|
    requires forall d :: 0 <= d < bound && d < |heap| ==> heap[d] == heap'[d]
    ensures FramesWithin(max, heap', stack, bound')
    decreases stack
  {
    hide AllSized;
    if stack.Push? {
      match stack.top.kind
      case KMap(dest, _, _) => FramesOn(max, heap, heap', stack.below, dest, dest);
      case KArray(_) => FramesOn(max, heap, heap', stack.below, bound, bound');
      case _ => FramesOn(max, heap, heap', stack.below, bound, bound');
    }
  }

  lemma PropertyWithin(cfg: Config, env: Env, dest: nat, key: Val, v: Val)
    requires EnvSized(cfg.maxSize, env) && Sized(cfg.maxSize, v)
    requires dest < |env.heap| ==> |env.heap[dest]| < cfg.maxSize
    ensures var r := PutProperty(cfg, env, dest, key, v);
            r.Ok? ==>
              && EnvSized(cfg.maxSize, r.value) && dest < |env.heap| == |r.value.heap|
              && |r.value.heap[dest]| <= |env.heap[dest]| + 1
              && forall d :: 0 <= d < |env.heap| && d != dest ==> r.value.heap[d] == env.heap[d]
  {
    hide Sized, KeyName, NamespacesSized;
  }

  lemma ExitWithin(cfg: Config, env: Env, tag: nat, h: Handler, index: nat, v: Val)
    requires EnvSized(cfg.maxSize, env) && Sized(cfg.maxSize, v)
    ensures var r := ExitTag(env, tag, h, index, v);
            r.Ok? ==> Sized(cfg.maxSize, r.value.0) && EnvSized(cfg.maxSize, r.value.1) && r.value.1.heap == env.heap
  {
  }

  lemma {:induction false} AppendWithin(cfg: Config, env: Env, stack: Stack, v: Val)
    requires Within(cfg, env, stack) && Sized(cfg.maxSize, v)
    ensures StateWithin(cfg, Append(cfg, env, stack, v))
    decreases stack, 0
  {
    if stack.Push? {
      var f, below := stack.top, stack.below;
      match f.kind
      case KArray(elems) =>
        hide EnvSized;
        if !IsBigInt(v) && f.count == 1 {
          AppendWithin(cfg, env, below, List(elems + [v]));
        }
      case KMap(dest, added, key) => AppendToMapWithin(cfg, env, f, below, v);
      case KTag(tag, h, index) =>
        hide EnvSized, Sized, ExitTag, AllSized;
        var r := ExitTag(env, tag, h, index, v);
        ExitWithin(cfg, env, tag, h, index, v);
        if r.Ok? {
          AppendWithin(cfg, r.value.1, below, r.value.0);
        }
      case KString(_, _) =>
    }
  }

  lemma {:induction false} AppendToMapWithin(cfg: Config, env: Env, f: Frame, below: Stack, v: Val)
    requires Within(cfg, env, Push(f, below)) && f.kind.KMap? && Sized(cfg.maxSize, v)
    ensures StateWithin(cfg, Append(cfg, env, Push(f, below), v))
    decreases below, 1
  {
    hide EnvSized, Sized, PutProperty, AllSized;
    var dest, key := f.kind.dest, f.kind.key;
    if key.Some? {
      DestWithin(cfg, env, dest);
      PropertyWithin(cfg, env, dest, key.value, v);
      var r := PutProperty(cfg, env, dest, key.value, v);
      if r.Ok? {
        FramesOn(cfg.maxSize, env.heap, r.value.heap, below, dest, dest);
        FramesOn(cfg.maxSize, r.value.heap, r.value.heap, below, dest, |r.value.heap|);
        if f.count == 1 {
          ObjectSized(cfg.maxSize, dest);
          AppendWithin(cfg, r.value, below, Obj(dest));
        }
      }
    }
  }

  lemma DestWithin(cfg: Config, env: Env, dest: nat)
    requires EnvSized(cfg.maxSize, env)
    ensures dest < |env.heap| ==> |env.heap[dest]| <= cfg.maxSize
  {
  }

  lemma ObjectSized(max: nat, id: nat)
    ensures Sized(max, Obj(id)) && Sized(max, List([]))
  {
  }

  lemma PushWithin(cfg: Config, env: Env, stack: Stack, kind: Kind, count: nat)
    requires Within(cfg, env, stack)
    requires kind.KArray? ==> kind.elems == [] && count <= cfg.maxSize
    requires kind.KMap? ==> FramesWithin(cfg.maxSize, env.heap, stack, kind.dest) && kind.dest < |env.heap|
                            && MapWithin(cfg.maxSize, |env.heap[kind.dest]|, Frame(kind, count, false))
    ensures StateWithin(cfg, PushFrame(cfg, env, stack, kind, count))
  {
    hide Sized, NamespacesSized;
    OpenWithin(cfg, env, Height(stack), SlotOf(stack), if kind.KMap? then Some(kind.dest) else None);
    hide EnvSized, Open;
  }

  lemma OpenWithin(cfg: Config, env: Env, depth: nat, slot: Slot, created: Option<nat>)
    requires EnvSized(cfg.maxSize, env)
    ensures var r := Open(cfg, env, depth, slot, created); r.Ok? ==> EnvSized(cfg.maxSize, r.value) && depth < cfg.maxDepth && r.value.heap == env.heap
  {
  }

  /** A new object, and a frame for it. */
  lemma NewObjectWithin(cfg: Config, env: Env, stack: Stack, count: nat)
    requires Within(cfg, env, stack) && count <= cfg.maxSize
    ensures var env1, kind := NewObject(env), KMap(|env.heap|, 0, None);
            && Within(cfg, env1, stack) && FramesWithin(cfg.maxSize, env1.heap, stack, |env.heap|)
            && StateWithin(cfg, PushFrame(cfg, env1, stack, kind, count))
  {
    hide Sized, NamespacesSized, FramesWithin;
    var env1, kind := NewObject(env), KMap(|env.heap|, 0, None);
    FramesOn(cfg.maxSize, env.heap, env1.heap, stack, |env.heap|, |env.heap|);
    FramesOn(cfg.maxSize, env.heap, env1.heap, stack, |env.heap|, |env1.heap|);
    PushWithin(cfg, env1, stack, kind, count);
    hide PushFrame;
  }

  lemma StringWithin(cfg: Config, env: Env, slot: Slot, s: bytes, isText: bool, chunked: bool)
    requires EnvSized(cfg.maxSize, env)
    ensures var r := StringItem(cfg, env, slot, s, isText, chunked);
            r.Ok? ==> Sized(cfg.maxSize, r.value.0) && EnvSized(cfg.maxSize, r.value.1) && r.value.1.heap == env.heap
  {
  }

  lemma DoStringWithin(cfg: Config, env: Env, stack: Stack, s: bytes, isText: bool)
    requires Within(cfg, env, stack)
    ensures StateWithin(cfg, DoString(cfg, env, stack, s, isText))
  {
    hide Sized, EnvSized, StringItem, TextOk, Append;
    if !InString(stack) {
      StringWithin(cfg, env, SlotOf(stack), s, isText, false);
      var r := StringItem(cfg, env, SlotOf(stack), s, isText, false);
      if r.Ok? {
        AppendWithin(cfg, r.value.1, stack, r.value.0);
      }
    }
  }

  lemma DoBreakWithin(cfg: Config, env: Env, stack: Stack)
    requires Within(cfg, env, stack)
    ensures StateWithin(cfg, DoBreak(cfg, env, stack))
  {
    hide EnvSized, StringItem, Append;
    if stack.Push? {
      var f, below := stack.top, stack.below;
      match f.kind
      case KString(isText, content) =>
        StringWithin(cfg, env, SlotOf(below), content, isText, true);
        var r := StringItem(cfg, env, SlotOf(below), content, isText, true);
        if r.Ok? {
          AppendWithin(cfg, r.value.1, below, r.value.0);
        }
      case KArray(elems) => AppendWithin(cfg, env, below, List(elems));
      case KMap(dest, _, _) =>
        FramesOn(cfg.maxSize, env.heap, env.heap, below, dest, |env.heap|);
        AppendWithin(cfg, env, below, Obj(dest));
      case KTag(_, _, _) =>
    }
  }

  lemma DoTagWithin(cfg: Config, env: Env, stack: Stack, tag: nat)
    requires Within(cfg, env, stack)
    ensures StateWithin(cfg, DoTag(cfg, env, stack, tag))
  {
    hide Sized, HandlerOf, PushFrame;
    var h := HandlerOf(cfg, tag);
    var r := EnterTag(env, SlotOf(stack), h);
    if r.Ok? {
      PushWithin(cfg, r.value, stack, KTag(tag, h, |env.refs|), 1);
    }
  }

  lemma ScalarWithin(cfg: Config, env: Env, stack: Stack, v: Val)
    requires Within(cfg, env, stack) && !v.List? && !v.Tag?
    ensures StateWithin(cfg, Append(cfg, env, stack, v))
  {
    AppendWithin(cfg, env, stack, v);
    hide Append, Within;
  }

  /** Every token keeps the limits. */
  lemma ActWithin(cfg: Config, env: Env, stack: Stack, tok: Token, available: nat)
    requires Within(cfg, env, stack)
    ensures StateWithin(cfg, Act(cfg, env, stack, tok, available))
  {
    hide Within, Append, PushFrame, DoString, DoBreak, DoTag, Sized, StateWithin;
    match tok
    case UInt(n) => ScalarWithin(cfg, env, stack, Int(n));
    case NInt(n) => ScalarWithin(cfg, env, stack, Int(-1 - n));
    case ByteString(s) => DoStringWithin(cfg, env, stack, s, false);
    case TextString(s) => DoStringWithin(cfg, env, stack, s, true);
    case ByteStart => PushWithin(cfg, env, stack, KString(false, []), 0);
    case TextStart => PushWithin(cfg, env, stack, KString(true, []), 0);
    case Array(count) =>
      if count <= cfg.maxSize {
        ObjectSized(cfg.maxSize, 0);
        AppendWithin(cfg, env, stack, List([]));
        PushWithin(cfg, env, stack, KArray([]), count);
      }
      Refused(cfg);
    case ArrayStart => PushWithin(cfg, env, stack, KArray([]), 0);
    case Map(count) =>
      if count <= cfg.maxSize {
        NewObjectWithin(cfg, env, stack, count);
        ScalarWithin(cfg, NewObject(env), stack, Obj(|env.heap|));
      }
      Refused(cfg);
    case MapStart =>
      NewObjectWithin(cfg, env, stack, 0);
    case TagHead(n) => DoTagWithin(cfg, env, stack, n);
    case False => ScalarWithin(cfg, env, stack, Bool(false));
    case True => ScalarWithin(cfg, env, stack, Bool(true));
    case Null => ScalarWithin(cfg, env, stack, Val.Null);
    case Undefined => ScalarWithin(cfg, env, stack, Val.Undefined);
    case Simple(_) => Refused(cfg);
    case Float16(raw) => ScalarWithin(cfg, env, stack, FloatItem16(cfg, raw));
    case Float32(raw) => ScalarWithin(cfg, env, stack, FloatItem32(cfg, raw));
    case Float64(raw) => ScalarWithin(cfg, env, stack, Float(raw));
    case Break => DoBreakWithin(cfg, env, stack);
  }

  lemma Refused(cfg: Config)
    ensures forall e: Error :: StateWithin(cfg, Err(e))
  {
  }

  /** Over a whole run the limits hold, in every state in which it can stop and for its result. */
  lemma {:induction false} RunStaysWithinLimits(cfg: Config, st: State, s: bytes)
    requires Within(cfg, st.env, st.stack)
    ensures var o := Drive(cfg, st, s);
            && (o.Done? ==> Sized(cfg.maxSize, o.val) && EnvSized(cfg.maxSize, o.env))
            && (o.Blocked? ==> Height(o.st.stack) <= cfg.maxDepth && Within(cfg, o.st.env, o.st.stack))
    decreases |s|
  {
    hide Sized, EnvSized, FramesWithin, Act, Lex;
    var r := Lex(s);
    if r.Tok? {
      ActWithin(cfg, st.env, st.stack, r.tok, |s|);
      var r1 := Act(cfg, st.env, st.stack, r.tok, |s|);
      if r1.Ok? && r1.value.stack.Push? {
        RunStaysWithinLimits(cfg, r1.value, s[r.len..]);
      }
    }
  }
}
