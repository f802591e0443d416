/**
 The decoding context of decode.c and decode_zv.h as an object that is changed step by step. Each
 method does to the fields what the stack machine does to its state.
 */
module DecodeContext {
  import opened Bytes
  import opened Wrappers
  import opened Values
  import opened Wire
  import opened DecoderConfig
  import opened StackMachine
  import opened Invariants
  import DiDecoder
  import Utf8
  import RecursiveDecoder

  /** The bytes to decode: a window of a buffer, of which `base` bytes were dropped before. */
  class Fragment {
    var ptr: array<byte>
    var offset: nat
    var length: nat
    var base: nat

    constructor (data: array<byte>)
      ensures ptr == data && offset == 0 && length == data.Length && base == 0
    {
      ptr, offset, length, base := data, 0, data.Length, 0;
    }

    predicate Valid()
      reads this
    {
      offset <= length <= ptr.Length
    }

    function Unread(): bytes
      requires Valid()
      reads this, ptr
    {
      ptr[offset..length]
    }
  }

  class Context {
    const cfg: Config
    const mem: Fragment
    var cbError: Option<Error>
    var skipSelfDesc: bool
    var stackTop: Stack
    var stackDepth: nat
    var root: Option<Val>
    var heap: Heap
    var srns: Namespaces
    var refs: seq<Option<Val>>

    constructor (cfg: Config, mem: Fragment)
      ensures this.cfg == cfg && this.mem == mem && fresh(this)
      ensures Valid() && GetProgress() == Start(cfg)
    {
      this.cfg, this.mem := cfg, mem;
      cbError, skipSelfDesc := None, !cfg.selfDescribe;
      stackTop, stackDepth, root := Empty, 0, None;
      heap, srns, refs := [], NoNamespace, [];
    }

    function GetEnv(): Env
      reads this
    {
      Env(heap, srns, refs)
    }

    function GetState(): State
      reads this
    {
      State(GetEnv(), stackTop, if stackTop.Empty? then root else None)
    }

    function GetProgress(): Progress
      reads this
    {
      Progress(skipSelfDesc, GetState())
    }

    ghost predicate Valid()
      reads this
    {
      stackDepth == Height(stackTop) && InOrder(GetEnv(), stackTop)
    }

    /** The fields are those of the state `r`, or the error was recorded. */
    ghost predicate Reached(r: R<State>, ok: bool)
      reads this
    {
      match r
      case Ok(st) => ok && GetState() == st && stackDepth == Height(stackTop) && cbError.None?
      case Err(e) => !ok && cbError == Some(e)
    }

    method SetError(e: Error)
      modifies this`cbError
      ensures cbError == if old(cbError).None? then Some(e) else old(cbError)
    {
      if cbError.None? {
        cbError := Some(e);
      }
    }

    /** `stack_pop_item`: nothing from an empty stack. */
    method StackPop() returns (item: Option<Frame>)
      requires stackDepth == Height(stackTop)
      modifies this`stackTop, this`stackDepth
      ensures item == if old(stackTop).Push? then Some(old(stackTop).top) else None
      ensures stackTop == if item.Some? then old(stackTop).below else old(stackTop)
      ensures stackDepth == Height(stackTop)
    {
      if stackTop.Empty? {
        return None;
      }
      item := Some(stackTop.top);
      stackTop := stackTop.below;
      stackDepth := stackDepth - 1;
    }

    /** `stack_push_item`, with the child handlers of the frame below. */
    method StackPush(kind: Kind, count: nat)
      requires stackDepth == Height(stackTop) && ShareKnown() && cbError.None?
      modifies this
      ensures Reached(PushFrame(cfg, old(GetEnv()), old(stackTop), kind, count), cbError.None?)
      ensures skipSelfDesc == old(skipSelfDesc)
    {
      var slot := SlotOf(stackTop);
      if stackDepth >= cfg.maxDepth {
        SetError(Depth);
        return;
      }
      if slot.share.Some? {
        if !kind.KMap? {
          SetError(ShareIncompatible);
          return;
        }
        refs := refs[slot.share.value := Some(Obj(kind.dest))];
      }
      var inNs := !kind.KString? && (slot.inNs || (kind.KTag? && kind.handler.StrRefNs?));
      stackTop := Push(Frame(kind, count, inNs), stackTop);
      stackDepth := stackDepth + 1;
    }

    predicate ShareKnown()
      reads this
    {
      SlotOf(stackTop).share.Some? ==> SlotOf(stackTop).share.value < |refs|
    }

    // ----- Appending -----

    method ZvAppend(v: Val) returns (ok: bool)
      requires Valid() && cbError.None?
      modifies this
      ensures Reached(Append(cfg, old(GetEnv()), old(stackTop), v), ok)
      ensures skipSelfDesc == old(skipSelfDesc)
      decreases stackTop, 1
    {
      if stackTop.Empty? {
        if IsBigInt(v) {
          SetError(IntRange);
          return false;
        }
        root := Some(v);
        return true;
      }
      match stackTop.top.kind
      case KArray(_) => ok := AppendToArray(v);
      case KMap(_, _, _) => ok := AppendToMap(v);
      case KTag(_, _, _) => ok := AppendToTag(v);
      case KString(_, _) =>
        SetError(IndefStringChunkType);
        ok := false;
    }

    /** `zv_append_counted`: the completed container goes into the next one. */
    method AppendCounted(v: Val) returns (ok: bool)
      requires stackTop.Push? && stackDepth == Height(stackTop) && InOrder(GetEnv(), stackTop.below) && cbError.None?
      modifies this
      ensures Reached(Append(cfg, old(GetEnv()), old(stackTop).below, v), ok)
      ensures skipSelfDesc == old(skipSelfDesc)
      decreases stackTop.below, 2
    {
      var _ := StackPop();
      ok := ZvAppend(v);
    }

    method AppendToArray(v: Val) returns (ok: bool)
      requires Valid() && cbError.None? && stackTop.Push? && stackTop.top.kind.KArray?
      modifies this
      ensures Reached(Append(cfg, old(GetEnv()), old(stackTop), v), ok)
      ensures skipSelfDesc == old(skipSelfDesc)
      decreases stackTop, 0
    {
      var item := stackTop.top;
      var elems := item.kind.elems;
      assert Append(cfg, GetEnv(), stackTop, v)
          == StackMachine.AppendToArray(cfg, GetEnv(), item, stackTop.below, elems, v);
      if IsBigInt(v) {
        SetError(IntRange);
        return false;
      }
      if item.count == 0 && |elems| >= cfg.maxSize {
        SetError(UnsupportedSize);
        return false;
      }
      elems := elems + [v];
      var count := if item.count == 0 then 0 else item.count - 1;
      stackTop := Push(item.(kind := KArray(elems), count := count), stackTop.below);
      if item.count != 0 && count == 0 {
        ok := AppendCounted(List(elems));
      } else {
        ok := true;
      }
    }

    method AppendToMap(v: Val) returns (ok: bool)
      requires Valid() && cbError.None? && stackTop.Push? && stackTop.top.kind.KMap?
      modifies this
      ensures Reached(Append(cfg, old(GetEnv()), old(stackTop), v), ok)
      ensures skipSelfDesc == old(skipSelfDesc)
      decreases stackTop, 0
    {
      var item := stackTop.top;
      var dest, added := item.kind.dest, item.kind.added;
      assert Append(cfg, GetEnv(), stackTop, v)
          == StackMachine.AppendToMap(cfg, GetEnv(), item, stackTop.below, dest, added, item.kind.key, v);
      if item.kind.key.None? {
        if item.count == 0 {
          added := added + 1;
          if added > cfg.maxSize {
            SetError(UnsupportedSize);
            return false;
          }
        }
        if !(v.Str? || (v.Int? && cfg.intKey)) {
          SetError(UnsupportedKeyType);
          return false;
        }
        stackTop := Push(item.(kind := KMap(dest, added, Some(v))), stackTop.below);
        return true;
      }
      if IsBigInt(v) {
        SetError(IntRange);
        return false;
      }
      var name := KeyName(item.kind.key.value);
      if |name| >= 1 && name[0] == 0 {
        SetError(ReservedPropName);
        return false;
      }
      if cfg.noDupKey && HasKey(heap[dest], name) {
        SetError(DuplicateKey);
        return false;
      }
      PutPropertyKeeps(cfg, GetEnv(), dest, item.kind.key.value, v);
      heap := heap[dest := SetProp(heap[dest], name, v)];
      var count := if item.count == 0 then 0 else item.count - 1;
      stackTop := Push(item.(kind := KMap(dest, added, None), count := count), stackTop.below);
      if item.count != 0 && count == 0 {
        ok := AppendCounted(Obj(dest));
      } else {
        ok := true;
      }
    }

    /** `zv_append_to_tag` and `zv_append_to_tag_handled`. */
    method AppendToTag(v: Val) returns (ok: bool)
      requires Valid() && cbError.None? && stackTop.Push? && stackTop.top.kind.KTag?
      modifies this
      ensures Reached(Append(cfg, old(GetEnv()), old(stackTop), v), ok)
      ensures skipSelfDesc == old(skipSelfDesc)
      decreases stackTop, 0
    {
      ExitTagKeeps(GetEnv(), stackTop.top, stackTop.below, v);
      if stackTop.top.kind.handler.PlainTag? && IsBigInt(v) {
        SetError(IntRange);
        return false;
      }
      var item := StackPop();
      var v1 := ExitHandler(item.value.kind, v);
      if cbError.Some? {
        return false;
      }
      ok := ZvAppend(v1);
    }

    /** The exit handler of a tag, or the tag itself put around the value. */
    method ExitHandler(kind: Kind, v: Val) returns (r: Val)
      requires kind.KTag? && cbError.None? && !(kind.handler.PlainTag? && IsBigInt(v))
      requires kind.handler.StrRefNs? || kind.handler.StrRef? ==> srns.Namespace?
      requires kind.handler.Shareable? ==> kind.index < |refs|
      modifies this`cbError, this`refs, this`srns
      ensures var exit := ExitTag(old(GetEnv()), kind.tag, kind.handler, kind.index, v);
              if exit.Ok? then cbError.None? && GetEnv() == exit.value.1 && r == exit.value.0
              else cbError == Some(exit.error)
    {
      r := v;
      match kind.handler {
        case PlainTag => r := Tag(kind.tag, v);
        case StrRefNs => srns := srns.outer;
        case StrRef => r := ExitStrRef(v);
        case Shareable => r := ExitShareable(v, kind.index);
        case SharedRef => r := ExitSharedRef(v);
      }
    }

    method ExitStrRef(v: Val) returns (r: Val)
      requires srns.Namespace? && cbError.None?
      modifies this`cbError
      ensures match ExitTag(GetEnv(), TAG_STRING_REF, StrRef, 0, v)
              case Ok(p) => cbError.None? && r == p.0
              case Err(e) => cbError == Some(e)
    {
      r := v;
      if !v.Int? || IsBigInt(v) {
        SetError(StrRefNotInt);
      } else if v.i < 0 || v.i >= |srns.table| {
        SetError(StrRefRange);
      } else {
        r := srns.table[v.i];
      }
    }

    method ExitShareable(v: Val, index: nat) returns (r: Val)
      requires index < |refs| && cbError.None?
      modifies this`cbError, this`refs
      ensures match ExitTag(old(GetEnv()), TAG_SHAREABLE, Shareable, index, v)
              case Ok(p) => cbError.None? && r == p.0 && refs == p.1.refs
              case Err(e) => cbError == Some(e)
    {
      r := v;
      if IsBigInt(v) {
        SetError(IntRange);
      } else if refs[index].Some? {
        r := refs[index].value;
      } else if IsObject(v) {
        refs := refs[index := Some(v)];
      } else {
        SetError(ShareIncompatible);
      }
    }

    method ExitSharedRef(v: Val) returns (r: Val)
      requires cbError.None?
      modifies this`cbError
      ensures match ExitTag(GetEnv(), TAG_SHARED_REF, SharedRef, 0, v)
              case Ok(p) => cbError.None? && r == p.0
              case Err(e) => cbError == Some(e)
    {
      r := v;
      if !v.Int? || IsBigInt(v) {
        SetError(ShareNotInt);
      } else if v.i < 0 || v.i >= |refs| {
        SetError(ShareRange);
      } else {
        r := if refs[v.i].Some? then refs[v.i].value else Val.Null;
      }
    }

    // ----- Tokens -----

    /** `zv_append_string_item`, with the data handler of the enclosing frame. */
    method AppendStringItem(s: bytes, isText: bool, chunked: bool)
      requires Valid() && cbError.None?
      modifies this
      ensures Reached((match StringItem(cfg, old(GetEnv()), old(SlotOf(stackTop)), s, isText, chunked)
                       case Err(e) => Err(e)
                       case Ok(p) => Append(cfg, p.1, old(stackTop), p.0)), cbError.None?)
      ensures skipSelfDesc == old(skipSelfDesc)
    {
      var slot := SlotOf(stackTop);
      var v := Str(s);
      if slot.isKey {
        if !(if isText then cfg.keyText else cfg.keyByte) {
          SetError(UnsupportedKeyType);
          return;
        }
      } else if !(if isText then cfg.textStr else cfg.byteStr) {
        v := if isText then TextStr(s) else ByteStr(s);
      }
      if !chunked && slot.inNs {
        RegisterKeeps(GetEnv(), stackTop, v);
        if srns.Namespace? && IsLenStringRef(|s|, |srns.table|) {
          srns := Namespace(srns.table + [v], srns.outer);
        }
      }
      var _ := ZvAppend(v);
    }

    /** `zv_do_xstring` */
    method DoXString(s: bytes, isText: bool)
      requires Valid() && cbError.None?
      modifies this
      ensures Reached(DoString(cfg, old(GetEnv()), old(stackTop), s, isText), cbError.None?)
      ensures skipSelfDesc == old(skipSelfDesc)
    {
      if isText && !cfg.unsafeText {
        var ok := Utf8.IsUtf8(s);
        if !ok {
          SetError(InvalidUtf8);
          return;
        }
      }
      if InString(stackTop) {
        var item := stackTop.top;
        if item.kind.isText != isText {
          SetError(InconsistentStringType);
        } else {
          stackTop := Push(item.(kind := KString(isText, item.kind.content + s)), stackTop.below);
        }
        return;
      }
      AppendStringItem(s, isText, false);
    }

    method ProcArrayStart(count: nat, available: nat)
      requires Valid() && cbError.None?
      modifies this
      ensures Reached(Act(cfg, old(GetEnv()), old(stackTop), Array(count), available), cbError.None?)
      ensures skipSelfDesc == old(skipSelfDesc)
    {
      if count > cfg.maxSize {
        SetError(UnsupportedSize);
      } else if cfg.limited && 1 + count > available {
        SetError(TruncatedData);
      } else if count > 0 {
        StackPush(KArray([]), count);
      } else {
        var _ := ZvAppend(List([]));
      }
    }

    method ProcMapStart(count: nat, available: nat)
      requires Valid() && cbError.None?
      modifies this
      ensures Reached(Act(cfg, old(GetEnv()), old(stackTop), Map(count), available), cbError.None?)
      ensures skipSelfDesc == old(skipSelfDesc)
    {
      if count > cfg.maxSize {
        SetError(UnsupportedSize);
        return;
      }
      if cfg.limited && 1 + count * 2 % UINT32_LIMIT > available {
        SetError(TruncatedData);
        return;
      }
      MapStartKeeps(cfg, GetEnv(), stackTop, count);
      var dest := |heap|;
      heap := heap + [[]];
      if count > 0 {
        StackPush(KMap(dest, 0, None), count);
      } else {
        var _ := ZvAppend(Obj(dest));
      }
    }

    method ProcIndefMapStart()
      requires Valid() && cbError.None?
      modifies this
      ensures Reached(Act(cfg, old(GetEnv()), old(stackTop), MapStart, 0), cbError.None?)
      ensures skipSelfDesc == old(skipSelfDesc)
    {
      var dest := |heap|;
      heap := heap + [[]];
      StackPush(KMap(dest, 0, None), 0);
    }

    /** `zv_proc_tag` and `zv_do_tag_enter` */
    method ProcTag(tag: nat)
      requires Valid() && cbError.None?
      modifies this
      ensures Reached(DoTag(cfg, old(GetEnv()), old(stackTop), tag), cbError.None?)
      ensures skipSelfDesc == old(skipSelfDesc)
    {
      if tag > LONG_MAX {
        SetError(IntRange);
        return;
      }
      var h, index := HandlerOf(cfg, tag), |refs|;
      match h {
        case StrRefNs => srns := Namespace([], srns);
        case StrRef =>
          if srns.NoNamespace? {
            SetError(StrRefWithoutNamespace);
            return;
          }
        case Shareable =>
          if SlotOf(stackTop).share.Some? {
            SetError(ShareNested);
            return;
          }
          refs := refs + [None];
        case _ =>
      }
      StackPush(KTag(tag, h, index), 1);
    }

    /** The break branch of `dec_item`, with `zv_proc_indef_break`. */
    method ProcBreak()
      requires Valid() && cbError.None?
      modifies this
      ensures Reached(DoBreak(cfg, old(GetEnv()), old(stackTop)), cbError.None?)
      ensures skipSelfDesc == old(skipSelfDesc)
    {
      var popped := StackPop();
      if popped.None? {
        SetError(BreakUnderflow);
        return;
      }
      var item := popped.value;
      if item.kind.KString? {
        AppendStringItem(item.kind.content, item.kind.isText, true);
      } else if item.count != 0 || (item.kind.KMap? && item.kind.key.Some?) {
        SetError(BreakUnexpected);
      } else {
        var _ := ZvAppend(if item.kind.KArray? then List(item.kind.elems) else Obj(item.kind.dest));
      }
    }

    /** The dispatch of `dec_item` on a complete token. */
    method ProcToken(tok: Token, available: nat)
      requires Valid() && cbError.None?
      modifies this
      ensures Reached(Act(cfg, old(GetEnv()), old(stackTop), tok, available), cbError.None?)
      ensures skipSelfDesc == old(skipSelfDesc)
    {
      match tok
      case UInt(n) => var _ := ZvAppend(Int(n));
      case NInt(n) => var _ := ZvAppend(Int(-1 - n));
      case ByteString(s) => DoXString(s, false);
      case TextString(s) => DoXString(s, true);
      case ByteStart => StackPush(KString(false, []), 0);
      case TextStart => StackPush(KString(true, []), 0);
      case Array(count) => ProcArrayStart(count, available);
      case ArrayStart => StackPush(KArray([]), 0);
      case Map(count) => ProcMapStart(count, available);
      case MapStart => ProcIndefMapStart();
      case TagHead(tag) => ProcTag(tag);
      case False => var _ := ZvAppend(Bool(false));
      case True => var _ := ZvAppend(Bool(true));
      case Null => var _ := ZvAppend(Val.Null);
      case Undefined => var _ := ZvAppend(Val.Undefined);
      case Simple(_) => SetError(UnsupportedSimple);
      case Float16(raw) => var _ := ZvAppend(FloatItem16(cfg, raw));
      case Float32(raw) => var _ := ZvAppend(FloatItem32(cfg, raw));
      case Float64(raw) => var _ := ZvAppend(Float(raw));
      case Break => ProcBreak();
    }

    /**
     `dec_item`: reads one head, and the content of a string, and acts on it. `readLen` is 0 when
     there was no complete head.
     */
    method DecItem(data: bytes) returns (error: Option<Error>, readLen: nat)
      requires Valid() && cbError.None? && data != []
      modifies this
      ensures skipSelfDesc == old(skipSelfDesc) && readLen <= |data|
      ensures StepDone(Step(cfg, old(GetState()), data), error, readLen)
      ensures !Lex(data).Tok? ==> error.Some? && GetProgress() == old(GetProgress()) && Valid()
      ensures Lex(data).LexTruncated? ==> readLen == 0
    {
      var lexed;
      lexed, readLen := DiDecoder.NextToken(data);
      if !lexed.Tok? {
        return Some(RecursiveDecoder.LexError(lexed)), readLen;
      }
      error := None;
      ProcToken(lexed.tok, |data|);
    }

    ghost predicate StepDone(r: R<(State, nat)>, error: Option<Error>, readLen: nat)
      reads this
    {
      match r
      case Ok((st, n)) =>
        error.None? && cbError.None? && GetState() == st && stackDepth == Height(stackTop) && readLen == n
      case Err(e) => error == Some(e) || (error.None? && cbError == Some(e))
    }

    // ----- Runs -----

    /** How a run over `s` ended: with a value, an error, or for want of more bytes. */
    ghost predicate Ended(o: Outcome, error: Option<Error>)
      requires mem.Valid()
      reads this, mem, mem.ptr
    {
      match o
      case Done(v, env, rest) =>
        error.None? && stackTop.Empty? && root == Some(v) && GetEnv() == env && mem.Unread() == rest && Valid()
      case Fail(e) => error == Some(e)
      case Blocked(st, rest) =>
        && error == Some(TruncatedData)
        && (!cfg.limited ==> GetState() == st && mem.Unread() == rest && Valid())
    }

    /** `decode_nested`: items until the stack is empty. */
    method DecodeNested() returns (error: Option<Error>)
      requires Valid() && mem.Valid()
      modifies this, mem`offset
      ensures mem.Valid() && mem.offset >= old(mem.offset) && skipSelfDesc == old(skipSelfDesc)
      ensures Ended(Drive(cfg, old(GetState()), old(mem.Unread())), error)
    {
      hide InOrder, Act, Drive, Step, Lex;
      cbError := None;
      ghost var o := Drive(cfg, GetState(), mem.Unread());
      while true
        invariant mem.Valid() && mem.offset >= old(mem.offset) && skipSelfDesc == old(skipSelfDesc)
        invariant Valid() && cbError.None?
        invariant Drive(cfg, GetState(), mem.Unread()) == o
        decreases mem.length - mem.offset
      {
        if mem.offset >= mem.length {
          NothingToDrive(cfg, GetState());
          assert mem.Unread() == [];
          return Some(TruncatedData);
        }
        var data := mem.ptr[mem.offset..mem.length];
        StepKeeps(cfg, GetState(), data);
        DriveStep(cfg, GetState(), data);
        var readLen;
        error, readLen := DecItem(data);
        mem.offset := mem.offset + readLen;
        assert mem.Unread() == data[readLen..];
        if error.Some? {
          return;
        }
        if cbError.Some? {
          return cbError;
        }
        if stackDepth == 0 {
          return None;
        }
      }
    }

    /** How processing ended, with the prefix skipped first. */
    ghost predicate ProcessEnded(r: Processed, error: Option<Error>)
      requires mem.Valid()
      reads this, mem, mem.ptr
    {
      match r
      case Complete(v, env, rest) =>
        error.None? && stackTop.Empty? && root == Some(v) && GetEnv() == env && mem.Unread() == rest && Valid()
      case Rejected(e) => error == Some(e)
      case Waiting(p, rest) =>
        && error == Some(TruncatedData)
        && (!cfg.limited ==> GetProgress() == p && mem.Unread() == rest && Valid())
    }

    /** `cbor_decode_process` */
    method Process() returns (error: Option<Error>)
      requires Valid() && mem.Valid()
      modifies this, mem`offset
      ensures mem.Valid() && mem.offset >= old(mem.offset)
      ensures ProcessEnded(StackMachine.Process(cfg, old(GetProgress()), old(mem.Unread())), error)
    {
      hide Drive, InOrder;
      if skipSelfDesc {
        var remaining := mem.length - mem.offset;
        if remaining == 0 {
          return Some(TruncatedData);
        }
        ghost var s := mem.Unread();
        if mem.ptr[mem.offset] == SELF_DESCRIBE[0] {
          if remaining < 3 {
            return Some(TruncatedData);
          }
          assert mem.ptr[mem.offset..mem.offset + 3] == s[..3];
          if mem.ptr[mem.offset..mem.offset + 3] == SELF_DESCRIBE {
            mem.offset := mem.offset + 3;
            assert mem.Unread() == s[3..];
          }
        }
        skipSelfDesc := false;
      }
      error := DecodeNested();
    }
  }

  /** The rest of a run after the step `r`. */
  function AfterStep(cfg: Config, st: State, s: bytes, r: R<(State, nat)>): Outcome
    requires r.Ok? ==> r.value.1 <= |s|
  {
    match r
    case Ok((st1, n)) => Continue(cfg, st1, s[n..])
    case Err(e) => if e == TruncatedData then Blocked(st, s) else Fail(e)
  }

  /** A run goes on after its step; unless counts are checked early, only the reader finds data truncated. */
  lemma DriveStep(cfg: Config, st: State, s: bytes)
    ensures Drive(cfg, st, s) == AfterStep(cfg, st, s, Step(cfg, st, s))
    ensures !cfg.limited && Step(cfg, st, s) == Err(TruncatedData) ==> Lex(s).LexTruncated?
  {
    hide Act, Lex;
    if !cfg.limited && Lex(s).Tok? {
      ActNeedsNoMore(cfg, st.env, st.stack, Lex(s).tok, |s|);
    }
  }

  lemma NothingToDrive(cfg: Config, st: State)
    ensures Drive(cfg, st, []) == Blocked(st, [])
  {
  }

  /** What decoding a complete input gives: the value must end with the data. */
  function DecodeAll(cfg: Config, s: bytes): R<(Val, Env)> {
    match StackMachine.Process(cfg, Start(cfg), s)
    case Complete(v, env, rest) => if rest == [] then Ok((v, env)) else Err(ExtraneousData)
    case Rejected(e) => Err(e)
    case Waiting(_, _) => Err(TruncatedData)
  }

  function DecodeWindow(cfg: Config, data: bytes, offset: nat, length: Option<nat>): R<(Val, Env)> {
    var end := if length.Some? then offset + length.value else |data|;
    if offset <= end <= |data| then DecodeAll(cfg, data[offset..end]) else Err(TruncatedData)
  }

  /** The part of `cbor_decode` after the window has been set up. */
  method DecodeFragment(mem: Fragment, cfg: Config) returns (r: R<(Val, Env)>)
    requires mem.Valid()
    modifies mem`offset
    ensures r == DecodeAll(cfg, old(mem.Unread()))
  {
    ghost var s := mem.Unread();
    var ctx := new Context(cfg, mem);
    assert mem.Unread() == s;
    var error := ctx.Process();
    if error.None? && mem.offset != mem.length {
      error := Some(ExtraneousData);
    }
    r := if error.Some? then Err(error.value) else Ok((ctx.root.value, ctx.GetEnv()));
  }

  /**
   `cbor_decode`: decodes the bytes from `offset` on, `length` of them unless `length` is `None`.
   All of the input is known, so element counts are checked against it.
   */
  method CborDecode(data: array<byte>, cfg: Config, offset: nat, length: Option<nat>) returns (r: R<(Val, Env)>)
    ensures r == DecodeWindow(cfg.(limited := true), data[..], offset, length)
  {
    hide DecodeAll;
    var mem := new Fragment(data);
    if offset > data.Length {
      return Err(TruncatedData);
    }
    mem.offset := offset;
    if length.Some? {
      if length.value > data.Length || offset > data.Length - length.value {
        return Err(TruncatedData);
      }
      mem.length := offset + length.value;
    }
    assert mem.Unread() == data[..][offset..mem.length];
    r := DecodeFragment(mem, cfg.(limited := true));
  }
}
