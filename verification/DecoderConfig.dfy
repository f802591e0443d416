/** Options of the decoder, and the parts of decoding that look at one value at a time. */
module DecoderConfig {
  import opened Bytes
  import opened Wrappers
  import opened Values
  import DecimalInt
  import Floats
  import Utf8

  /**
   `limited`: the whole input is known, as in one-shot decoding, so element counts can be checked
   against it early. `sharedRef` is the option value `true`.
   */
  datatype Config = Config(
    byteStr: bool, textStr: bool, keyByte: bool, keyText: bool, intKey: bool, unsafeText: bool,
    noDupKey: bool, float16: bool, float32: bool, selfDescribe: bool,
    maxDepth: nat, maxSize: nat, stringRef: bool, sharedRef: bool, limited: bool)

  type R<T> = Result<T, Error>

  /** The live string-ref namespaces, innermost first; each a table of the strings seen. */
  datatype Namespaces = NoNamespace | Namespace(table: seq<Val>, outer: Namespaces)

  /**
   What decoding builds up beside the value itself: the objects, the string tables and the
   shareable values. A shareable value is `None` from its tag until its object is known.
   */
  datatype Env = Env(heap: Heap, ns: Namespaces, refs: seq<Option<Val>>)

  const EMPTY_ENV := Env([], NoNamespace, [])

  /**
   What an item may ask of the container it is decoded into: is it a map waiting for a key, is it
   inside a string-ref namespace, is it a shareable tag (with this index).
   */
  datatype Slot = Slot(isKey: bool, inNs: bool, share: Option<nat>)

  const ROOT_SLOT := Slot(false, false, None)

  // ----- Strings -----

  /** Is a string of this length worth a reference with index `index`? */
  function MinRefLength(index: nat): nat {
    if index <= 23 then 3 else if index <= 0xff then 4 else if index <= 0xffff then 5
    else if index <= 0xffff_ffff then 7 else 11
  }

  predicate IsLenStringRef(len: nat, index: nat) { len >= MinRefLength(index) }

  function StringLength(v: Val): nat {
    match v
    case Str(s) => |s|
    case ByteStr(s) => |s|
    case TextStr(s) => |s|
    case _ => 0
  }

  /** Adds a string to the innermost namespace if its length qualifies. */
  function Register(ns: Namespaces, v: Val): Namespaces {
    if ns.Namespace? && IsLenStringRef(StringLength(v), |ns.table|)
    then Namespace(ns.table + [v], ns.outer)
    else ns
  }

  /** The value of a decoded string in a slot. Chunked strings are not registered. */
  function StringItem(cfg: Config, env: Env, slot: Slot, s: bytes, isText: bool, chunked: bool): R<(Val, Env)> {
    if slot.isKey && !(if isText then cfg.keyText else cfg.keyByte) then Err(UnsupportedKeyType)
    else
      var toStr := slot.isKey || if isText then cfg.textStr else cfg.byteStr;
      var v := if toStr then Str(s) else if isText then TextStr(s) else ByteStr(s);
      Ok((v, if slot.inNs && !chunked then env.(ns := Register(env.ns, v)) else env))
  }

  predicate TextOk(cfg: Config, s: bytes) { cfg.unsafeText || Utf8.Valid(s) }

  // ----- Numbers -----

  function FloatItem16(cfg: Config, raw: uint16): (v: Val)
    ensures v.Float? || v.Float16?
  {
    var h := Floats.Unpack16(raw);
    Floats.Unpack16Is16(raw);
    Floats.FromFloat16Is64(h);
    Floats.Pack64Bound(Floats.FromFloat16(h));
    if cfg.float16 then Float(Floats.Pack64(Floats.FromFloat16(h))) else Float16(raw)
  }

  function FloatItem32(cfg: Config, raw: uint32): (v: Val)
    ensures v.Float? || v.Float32?
  {
    var f := Floats.Unpack32(raw);
    Floats.PackUnpack32(raw);
    Floats.FromFloat32Is64(f);
    Floats.Pack64Bound(Floats.FromFloat32(f));
    if cfg.float32 then Float(Floats.Pack64(Floats.FromFloat32(f))) else Float32(raw)
  }

  // ----- Containers -----

  /** Appends to an array. The size of indefinite-length arrays is checked here. */
  function AddElement(cfg: Config, indef: bool, elems: seq<Val>, v: Val): R<seq<Val>> {
    if IsBigInt(v) then Err(IntRange)
    else if indef && |elems| >= cfg.maxSize then Err(UnsupportedSize)
    else Ok(elems + [v])
  }

  /** Accepts a map key; `added` counts the keys before it. */
  function TakeKey(cfg: Config, indef: bool, added: nat, key: Val): R<Val> {
    if indef && added + 1 > cfg.maxSize then Err(UnsupportedSize)
    else if key.Str? || (key.Int? && cfg.intKey) then Ok(key)
    else Err(UnsupportedKeyType)
  }

  /** The property name of a key: integers become their decimal text. */
  function KeyName(key: Val): bytes {
    match key
    case Int(i) => DecimalInt.Print(i)
    case Str(s) => s
    case _ => []
  }

  /** Sets a property of the object `dest`. */
  function PutProperty(cfg: Config, env: Env, dest: nat, key: Val, v: Val): R<Env> {
    var name := KeyName(key);
    if IsBigInt(v) then Err(IntRange)
    else if name != [] && name[0] == 0 then Err(ReservedPropName)
    else if dest >= |env.heap| then Err(Internal)
    else if cfg.noDupKey && HasKey(env.heap[dest], name) then Err(DuplicateKey)
    else Ok(env.(heap := env.heap[dest := SetProp(env.heap[dest], name, v)]))
  }

  /** A new object without properties. */
  function NewObject(env: Env): Env { env.(heap := env.heap + [[]]) }

  /**
   A container or tag is about to be opened in `slot`: the depth limit, and the shareable tag
   around it, which accepts nothing but a map that becomes an object.
   */
  function Open(cfg: Config, env: Env, depth: nat, slot: Slot, created: Option<nat>): R<Env> {
    if depth >= cfg.maxDepth then Err(Depth)
    else
      match slot.share
      case None => Ok(env)
      case Some(index) =>
        if created.None? then Err(ShareIncompatible)
        else if index >= |env.refs| then Err(Internal)
        else Ok(env.(refs := env.refs[index := Some(Obj(created.value))]))
  }

  // ----- Tags -----

  datatype Handler = PlainTag | StrRefNs | StrRef | Shareable | SharedRef

  const TAG_STRING_REF: nat := 25
  const TAG_SHAREABLE: nat := 28
  const TAG_SHARED_REF: nat := 29
  const TAG_STRING_REF_NS: nat := 256
  const TAG_SELF_DESCRIBE: nat := 55799

  function HandlerOf(cfg: Config, tag: nat): Handler {
    if tag == TAG_STRING_REF_NS && cfg.stringRef then StrRefNs
    else if tag == TAG_STRING_REF && cfg.stringRef then StrRef
    else if tag == TAG_SHAREABLE && cfg.sharedRef then Shareable
    else if tag == TAG_SHARED_REF && cfg.sharedRef then SharedRef
    else PlainTag
  }

  /** The enter handler of a tag. */
  function EnterTag(env: Env, slot: Slot, h: Handler): R<Env> {
    match h
    case StrRefNs => Ok(env.(ns := Namespace([], env.ns)))
    case StrRef => if env.ns.NoNamespace? then Err(StrRefWithoutNamespace) else Ok(env)
    case Shareable => if slot.share.Some? then Err(ShareNested) else Ok(env.(refs := env.refs + [None]))
    case _ => Ok(env)
  }

  /** The slot for the content of a tag; `index` is the number of a shareable. */
  function TagSlot(slot: Slot, h: Handler, index: nat): Slot {
    Slot(false, slot.inNs || h.StrRefNs?, if h.Shareable? then Some(index) else None)
  }

  /** The tag is complete: the value that takes its place. */
  function ExitTag(env: Env, tag: nat, h: Handler, index: nat, v: Val): R<(Val, Env)> {
    match h
    case PlainTag => if IsBigInt(v) then Err(IntRange) else Ok((Tag(tag, v), env))
    case StrRefNs =>
      if env.ns.NoNamespace? then Err(Internal) else Ok((v, env.(ns := env.ns.outer)))
    case StrRef =>
      if !v.Int? || IsBigInt(v) then Err(StrRefNotInt)
      else if env.ns.NoNamespace? then Err(Internal)
      else if v.i < 0 || v.i >= |env.ns.table| then Err(StrRefRange)
      else Ok((env.ns.table[v.i], env))
    case Shareable =>
      if IsBigInt(v) then Err(IntRange)
      else if index >= |env.refs| then Err(Internal)
      else if env.refs[index].Some? then Ok((env.refs[index].value, env))
      else if IsObject(v) then Ok((v, env.(refs := env.refs[index := Some(v)])))
      else Err(ShareIncompatible)
    case SharedRef =>
      if !v.Int? || IsBigInt(v) then Err(ShareNotInt)
      else if v.i < 0 || v.i >= |env.refs| then Err(ShareRange)
      else Ok((if env.refs[v.i].Some? then env.refs[v.i].value else Null, env))
  }
}
