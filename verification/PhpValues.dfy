/**
 Whatever the input, what decoding builds are PHP values: no integer and no tag number in them is out of the
 range of a PHP integer, though the decoder carries wider integers on the way.
 */
module PhpValues {
  import opened Bytes
  import opened Wrappers
  import opened Values
  import opened Wire
  import opened DecoderConfig
  import opened StackMachine
  import DecodeContext

  predicate PhpVal(v: Val) {
    match v
    case Int(i) => IsLong(i)
    case List(elems) => forall i :: 0 <= i < |elems| ==> PhpVal(elems[i])
    case Tag(tag, content) => 0 <= tag <= LONG_MAX && PhpVal(content)
    case _ => true
  }

  predicate PhpProps(props: Props) { forall i :: 0 <= i < |props| ==> PhpVal(props[i].val) }

  predicate PhpTables(ns: Namespaces) {
    ns.Namespace? ==> (forall i :: 0 <= i < |ns.table| ==> PhpVal(ns.table[i])) && PhpTables(ns.outer)
  }

  predicate PhpRefs(refs: seq<Option<Val>>) {
    forall i :: 0 <= i < |refs| && refs[i].Some? ==> PhpVal(refs[i].value)
  }

  predicate PhpEnv(env: Env) {
    (forall i :: 0 <= i < |env.heap| ==> PhpProps(env.heap[i])) && PhpTables(env.ns) && PhpRefs(env.refs)
  }

  predicate PhpFrame(f: Frame) {
    match f.kind
    case KArray(elems) => forall i :: 0 <= i < |elems| ==> PhpVal(elems[i])
    case KTag(tag, _, _) => tag <= LONG_MAX
    case _ => true
  }

  predicate PhpStack(stack: Stack) { stack.Push? ==> PhpFrame(stack.top) && PhpStack(stack.below) }

  predicate PhpState(st: State) { PhpEnv(st.env) && PhpStack(st.stack) && (st.root.Some? ==> PhpVal(st.root.value)) }

  predicate PhpResult(r: R<State>) { r.Ok? ==> PhpState(r.value) }

  // ----- Steps -----

  lemma PutPhp(cfg: Config, env: Env, dest: nat, key: Val, v: Val)
    requires PhpEnv(env) && (PhpVal(v) || IsBigInt(v))
    ensures var r := PutProperty(cfg, env, dest, key, v); r.Ok? ==> PhpEnv(r.value)
  {
    hide PhpTables, PhpRefs;
    if PutProperty(cfg, env, dest, key, v).Ok? {
      SetPhp(env.heap[dest], KeyName(key), v);
    }
  }

  lemma SetPhp(props: Props, key: bytes, v: Val)
    requires PhpProps(props) && PhpVal(v)
    ensures PhpProps(SetProp(props, key, v))
  {
    hide PhpVal;
    var r := SetProp(props, key, v);
    assert forall i :: 0 <= i < |r| ==> r[i].val == v || (i < |props| && r[i] == props[i]);
  }

  lemma ExitPhp(env: Env, tag: nat, h: Handler, index: nat, v: Val)
    requires PhpEnv(env) && tag <= LONG_MAX && (PhpVal(v) || IsBigInt(v))
    ensures var r := ExitTag(env, tag, h, index, v); r.Ok? ==> PhpEnv(r.value.1) && (PhpVal(r.value.0) || IsBigInt(r.value.0))
  {
    hide PhpProps;
  }

  lemma {:induction false} AppendPhp(cfg: Config, env: Env, stack: Stack, v: Val)
    requires PhpEnv(env) && PhpStack(stack) && (PhpVal(v) || IsBigInt(v))
    ensures PhpResult(Append(cfg, env, stack, v))
    decreases stack
  {
    hide PhpEnv, PutProperty, ExitTag;
    if stack.Push? {
      var f, below := stack.top, stack.below;
      match f.kind
      case KArray(elems) =>
        var r := AddElement(cfg, f.count == 0, elems, v);
        if r.Ok? {
          AppendPhp(cfg, env, below, List(r.value));
        }
      case KMap(dest, added, key) =>
        if key.Some? {
          PutPhp(cfg, env, dest, key.value, v);
          var r := PutProperty(cfg, env, dest, key.value, v);
          if r.Ok? {
            AppendPhp(cfg, r.value, below, Obj(dest));
          }
        }
      case KTag(tag, h, index) =>
        ExitPhp(env, tag, h, index, v);
        var r := ExitTag(env, tag, h, index, v);
        if r.Ok? {
          AppendPhp(cfg, r.value.1, below, r.value.0);
        }
      case KString(_, _) =>
    }
  }

  lemma PushPhp(cfg: Config, env: Env, stack: Stack, kind: Kind, count: nat)
    requires PhpEnv(env) && PhpStack(stack) && PhpFrame(Frame(kind, count, true))
    ensures PhpResult(PushFrame(cfg, env, stack, kind, count))
  {
    hide PhpProps, PhpTables;
  }

  lemma StringPhp(cfg: Config, env: Env, stack: Stack, slot: Slot, s: bytes, isText: bool, chunked: bool)
    requires PhpEnv(env) && PhpStack(stack)
    ensures var r := StringItem(cfg, env, slot, s, isText, chunked);
            r.Ok? ==> PhpEnv(r.value.1) && PhpResult(Append(cfg, r.value.1, stack, r.value.0))
  {
    hide PhpProps, PhpRefs, Append, PhpStack;
    var r := StringItem(cfg, env, slot, s, isText, chunked);
    if r.Ok? {
      AppendPhp(cfg, r.value.1, stack, r.value.0);
    }
  }

  lemma DoStringPhp(cfg: Config, env: Env, stack: Stack, s: bytes, isText: bool)
    requires PhpEnv(env) && PhpStack(stack)
    ensures PhpResult(DoString(cfg, env, stack, s, isText))
  {
    hide Append, StringItem, PhpEnv, TextOk;
    StringPhp(cfg, env, stack, SlotOf(stack), s, isText, false);
  }

  lemma BreakPhp(cfg: Config, env: Env, stack: Stack)
    requires PhpEnv(env) && PhpStack(stack)
    ensures PhpResult(DoBreak(cfg, env, stack))
  {
    hide Append, StringItem, PhpEnv;
    if stack.Push? {
      var f := stack.top;
      if f.kind.KString? {
        StringPhp(cfg, env, stack.below, SlotOf(stack.below), f.kind.content, f.kind.isText, true);
      } else if f.kind.KArray? {
        AppendPhp(cfg, env, stack.below, List(f.kind.elems));
      } else if f.kind.KMap? {
        AppendPhp(cfg, env, stack.below, Obj(f.kind.dest));
      }
    }
  }

  lemma TagPhp(cfg: Config, env: Env, stack: Stack, tag: nat)
    requires PhpEnv(env) && PhpStack(stack)
    ensures PhpResult(DoTag(cfg, env, stack, tag))
  {
    hide PushFrame, HandlerOf, PhpProps;
    var h := HandlerOf(cfg, tag);
    var r := EnterTag(env, SlotOf(stack), h);
    if r.Ok? && tag <= LONG_MAX {
      PushPhp(cfg, r.value, stack, KTag(tag, h, |env.refs|), 1);
    }
  }

  lemma NewObjectPhp(env: Env)
    requires PhpEnv(env)
    ensures PhpEnv(NewObject(env))
  {
    hide PhpTables, PhpRefs;
  }

  lemma ActPhp(cfg: Config, env: Env, stack: Stack, tok: Token, available: nat)
    requires PhpEnv(env) && PhpStack(stack)
    ensures PhpResult(Act(cfg, env, stack, tok, available))
  {
    hide Append, PushFrame, DoString, DoBreak, DoTag, NewObject, PhpEnv, PhpStack, PhpState, FloatItem16, FloatItem32;
    match tok
    case UInt(n) => AppendPhp(cfg, env, stack, Int(n));
    case NInt(n) => AppendPhp(cfg, env, stack, Int(-1 - n));
    case ByteString(s) => DoStringPhp(cfg, env, stack, s, false);
    case TextString(s) => DoStringPhp(cfg, env, stack, s, true);
    case ByteStart => PushPhp(cfg, env, stack, KString(false, []), 0);
    case TextStart => PushPhp(cfg, env, stack, KString(true, []), 0);
    case Array(count) =>
      AppendPhp(cfg, env, stack, List([]));
      PushPhp(cfg, env, stack, KArray([]), count);
    case ArrayStart => PushPhp(cfg, env, stack, KArray([]), 0);
    case Map(count) =>
      NewObjectPhp(env);
      AppendPhp(cfg, NewObject(env), stack, Obj(|env.heap|));
      PushPhp(cfg, NewObject(env), stack, KMap(|env.heap|, 0, None), count);
    case MapStart =>
      NewObjectPhp(env);
      PushPhp(cfg, NewObject(env), stack, KMap(|env.heap|, 0, None), 0);
    case TagHead(n) => TagPhp(cfg, env, stack, n);
    case False => AppendPhp(cfg, env, stack, Bool(false));
    case True => AppendPhp(cfg, env, stack, Bool(true));
    case Null => AppendPhp(cfg, env, stack, Val.Null);
    case Undefined => AppendPhp(cfg, env, stack, Val.Undefined);
    case Simple(_) =>
    case Float16(raw) => AppendPhp(cfg, env, stack, FloatItem16(cfg, raw));
    case Float32(raw) => AppendPhp(cfg, env, stack, FloatItem32(cfg, raw));
    case Float64(raw) => AppendPhp(cfg, env, stack, Float(raw));
    case Break => BreakPhp(cfg, env, stack);
  }

  // ----- Runs -----

  lemma {:induction false} DrivePhp(cfg: Config, st: State, s: bytes)
    requires PhpState(st)
    ensures var o := Drive(cfg, st, s); o.Done? ==> PhpVal(o.val) && PhpEnv(o.env)
    decreases |s|
  {
    hide Lex, Act, PhpEnv, PhpStack;
    var r := Lex(s);
    if r.Tok? {
      ActPhp(cfg, st.env, st.stack, r.tok, |s|);
      var next := Act(cfg, st.env, st.stack, r.tok, |s|);
      if next.Ok? && next.value.stack.Push? {
        DrivePhp(cfg, next.value, s[r.len..]);
      }
    }
  }

  /** The value that is returned, and all objects that it refers to. */
  lemma DecodedIsPhp(cfg: Config, s: bytes)
    ensures var d := DecodeContext.DecodeAll(cfg, s);
            d.Ok? ==> PhpVal(d.value.0) && forall i :: 0 <= i < |d.value.1.heap| ==> PhpProps(d.value.1.heap[i])
  {
    hide Drive, SkipPrefix, PhpProps, PhpVal;
    DrivePhp(cfg, INITIAL, s);
    var p := SkipPrefix(s);
    if p.Ready? {
      DrivePhp(cfg, INITIAL, p.rest);
    }
  }
}
