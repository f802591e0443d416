/**
 The encoder of encode.c as a function: the bytes a value is encoded to, threaded through the
 tables of strings and objects seen so far. EncodeContext.dfy is the same as an object.
 */
module Encoder {
  import opened Bytes
  import opened Wrappers
  import opened Values
  import opened Wire
  import opened DecoderConfig
  import DecimalInt
  import Floats
  import Utf8

  /** CBOR_BYTE or CBOR_TEXT, of which at most one can be given. */
  datatype StringFlag = NoFlag | AsByte | AsText

  /** `Explicit` leaves it to tags in the data where a namespace starts. */
  datatype StringRef = Off | On | Explicit

  /** `compactFloats`: both CBOR_FLOAT16 and CBOR_FLOAT32 are given, or implied by CBOR_CDE. */
  datatype EncConfig = EncConfig(
    strings: StringFlag, keys: StringFlag, intKey: bool, unsafeText: bool, compactFloats: bool, cde: bool,
    selfDescribe: bool, maxDepth: nat, stringRef: StringRef, sharedRef: bool)

  /** What `cbor_check_encode_params` makes sure of. */
  predicate Consistent(cfg: EncConfig) {
    cfg.cde ==> cfg.compactFloats && cfg.stringRef.Off? && !cfg.sharedRef
  }

  /** A string-ref namespace: the strings seen, byte and text strings apart, with their numbers. */
  datatype Srns = Srns(next: nat, byteTable: map<bytes, nat>, textTable: map<bytes, nat>)

  /** The current namespace, and the objects numbered so far. */
  datatype EncState = EncState(srns: Option<Srns>, refs: map<nat, nat>)

  const NEW_SRNS := Srns(0, map[], map[])

  /** The objects a value may refer to, and those with a reference count above one. */
  datatype Graph = Graph(heap: Heap, counted: set<nat>)

  datatype Out = Out(out: bytes, st: EncState)

  /** A property with its key already encoded. */
  datatype Entry = Entry(key: bytes, val: Val)

  // ----- Scalars -----

  function IntToken(i: int): Token { if i >= 0 then UInt(i) else NInt(-(i + 1)) }

  function HalfToken(raw: uint64): Token
    requires Floats.TestFp64Size(Floats.Unpack64(raw)) == 2
  {
    Floats.HalfIsLossless(raw);
    Token.Float16(Floats.Float64To16(Floats.Unpack64(raw)))
  }

  function SingleToken(raw: uint64): Token
    requires Floats.TestFp64Size(Floats.Unpack64(raw)) == 4
  {
    Floats.SingleIsLossless(raw);
    Token.Float32(Floats.Pack32(Floats.Float64To32(Floats.Unpack64(raw))))
  }

  function FloatToken(cfg: EncConfig, raw: uint64): (t: Token)
    ensures t.Float16? || t.Float32? || t.Float64?
  {
    var size := Floats.TestFp64Size(Floats.Unpack64(raw));
    if cfg.compactFloats && size == 2 then HalfToken(raw)
    else if cfg.compactFloats && size == 4 then SingleToken(raw)
    else Token.Float64(raw)
  }

  function HalfToken32(raw: uint32): Token
    requires Floats.TestFp32Size(Floats.Unpack32(raw)) == 2
  {
    Floats.PackUnpack32(raw);
    Floats.SingleToHalfIsLossless(Floats.Unpack32(raw));
    Token.Float16(Floats.Float32To16(Floats.Unpack32(raw)))
  }

  /** Cbor\Float32 is shortened under CBOR_CDE only. */
  function Float32Token(cfg: EncConfig, raw: uint32): (t: Token)
    ensures t.Float16? || t.Float32?
  {
    if cfg.cde && Floats.TestFp32Size(Floats.Unpack32(raw)) == 2 then HalfToken32(raw) else Token.Float32(raw)
  }

  predicate IsScalar(v: Val) {
    v.Null? || v.Undefined? || v.Bool? || v.Int? || v.Float? || v.Float16? || v.Float32?
  }

  function ScalarToken(cfg: EncConfig, v: Val): Token
    requires IsScalar(v)
  {
    match v
    case Null => Token.Null
    case Undefined => Token.Undefined
    case Bool(b) => if b then True else False
    case Int(i) => IntToken(i)
    case Float(raw) => FloatToken(cfg, raw)
    case Float16(raw16) => Token.Float16(raw16)
    case Float32(raw32) => Float32Token(cfg, raw32)
  }

  // ----- Strings -----

  function StringToken(s: bytes, isText: bool): Token { if isText then TextString(s) else ByteString(s) }

  function PlainString(cfg: EncConfig, st: EncState, s: bytes, isText: bool): (r: R<Out>)
    ensures r.Ok? ==> |r.value.out| >= 1
  {
    if isText && !cfg.unsafeText && !Utf8.Valid(s) then Err(InvalidUtf8)
    else Ok(Out(Write(StringToken(s, isText)), st))
  }

  function Table(srns: Srns, isText: bool): map<bytes, nat> { if isText then srns.textTable else srns.byteTable }

  function AddString(srns: Srns, s: bytes, isText: bool): Srns {
    if isText then Srns(srns.next + 1, srns.byteTable, srns.textTable[s := srns.next])
    else Srns(srns.next + 1, srns.byteTable[s := srns.next], srns.textTable)
  }

  /** A string, or a reference to it if the namespace has it already. */
  function EncString(cfg: EncConfig, st: EncState, s: bytes, isText: bool): (r: R<Out>)
    ensures r.Ok? ==> |r.value.out| >= 1
  {
    match st.srns
    case None => PlainString(cfg, st, s, isText)
    case Some(srns) =>
      var table := Table(srns, isText);
      if s in table then Ok(Out(Write(TagHead(TAG_STRING_REF)) + Write(UInt(table[s])), st))
      else if !IsLenStringRef(|s|, srns.next) then PlainString(cfg, st, s, isText)
      else if srns.next == UINT32_LIMIT - 1 then Err(Internal)
      else PlainString(cfg, st.(srns := Some(AddString(srns, s, isText))), s, isText)
  }

  function EncKey(cfg: EncConfig, st: EncState, name: bytes): (r: R<Out>)
    ensures r.Ok? ==> |r.value.out| >= 1
  {
    var i := DecimalInt.Parse(name);
    if cfg.intKey && i.Some? then Ok(Out(Write(IntToken(i.value)), st))
    else if cfg.keys.NoFlag? then Err(NoKeyStringFlag)
    else EncString(cfg, st, name, cfg.keys.AsText?)
  }

  // ----- Sorting of keys -----

  /** The order of `memcmp`, a proper prefix being less. */
  predicate BytesLess(a: bytes, b: bytes) {
    b != [] && (a == [] || a[0] < b[0] || (a[0] == b[0] && BytesLess(a[1..], b[1..])))
  }

  function Insert(entries: seq<Entry>, e: Entry): seq<Entry> {
    if entries == [] || BytesLess(e.key, entries[0].key) then [e] + entries
    else [entries[0]] + Insert(entries[1..], e)
  }

  /** `zend_hash_sort` by key. */
  function SortByKey(entries: seq<Entry>): seq<Entry> {
    if entries == [] then [] else Insert(SortByKey(entries[1..]), entries[0])
  }

  // ----- Values -----

  /** How much deeper encoding may go. */
  function Room(cfg: EncConfig, depth: nat): nat { if depth > cfg.maxDepth then 0 else cfg.maxDepth + 1 - depth }

  /** `busy`: the objects being encoded, which must not be met again. */
  function EncVal(cfg: EncConfig, g: Graph, st: EncState, v: Val, depth: nat, busy: set<nat>): (r: R<Out>)
    ensures r.Ok? ==> depth <= cfg.maxDepth && |r.value.out| >= 1
    decreases Room(cfg, depth), 4
  {
    if depth > cfg.maxDepth then Err(Depth)
    else
      match v
      case Str(s) => if cfg.strings.NoFlag? then Err(NoStringFlag) else EncString(cfg, st, s, cfg.strings.AsText?)
      case ByteStr(s) => EncString(cfg, st, s, false)
      case TextStr(s) => EncString(cfg, st, s, true)
      case List(elems) =>
        var r :- EncElems(cfg, g, st, elems, depth + 1, busy);
        Ok(Out(Write(Array(|elems|)) + r.out, r.st))
      case Obj(id) => EncObject(cfg, g, st, id, depth, busy)
      case Tag(tag, content) => EncTag(cfg, g, st, tag, content, depth, busy)
      case _ => Ok(Out(Write(ScalarToken(cfg, v)), st))
  }

  function EncElems(cfg: EncConfig, g: Graph, st: EncState, elems: seq<Val>, depth: nat, busy: set<nat>): (r: R<Out>)
    ensures r.Ok? ==> |r.value.out| >= |elems|
    decreases Room(cfg, depth), 5, |elems|
  {
    if elems == [] then Ok(Out([], st))
    else
      var first :- EncVal(cfg, g, st, elems[0], depth, busy);
      var rest :- EncElems(cfg, g, first.st, elems[1..], depth, busy);
      Ok(Out(first.out + rest.out, rest.st))
  }

  /** Gives an object the next number. */
  function Number(st: EncState, id: nat): EncState { st.(refs := st.refs[id := |st.refs|]) }

  /** An object: a reference if it is shared and was encoded before. */
  function EncObject(cfg: EncConfig, g: Graph, st: EncState, id: nat, depth: nat, busy: set<nat>): (r: R<Out>)
    requires depth <= cfg.maxDepth
    ensures r.Ok? ==> |r.value.out| >= 1
    decreases Room(cfg, depth), 3
  {
    if !cfg.sharedRef || id !in g.counted then EncHash(cfg, g, st, id, depth, busy)
    else if id in st.refs then Ok(Out(Write(TagHead(TAG_SHARED_REF)) + Write(IntToken(st.refs[id])), st))
    else
      var r :- EncHash(cfg, g, Number(st, id), id, depth, busy);
      Ok(Out(Write(TagHead(TAG_SHAREABLE)) + r.out, r.st))
  }

  function EncHash(cfg: EncConfig, g: Graph, st: EncState, id: nat, depth: nat, busy: set<nat>): (r: R<Out>)
    requires depth <= cfg.maxDepth
    ensures r.Ok? ==> |r.value.out| >= 1
    decreases Room(cfg, depth), 2
  {
    if id >= |g.heap| then Err(Internal)
    else if id in busy then Err(Recursion)
    else
      var props := g.heap[id];
      if props != [] && cfg.cde then
        var keyed :- EncKeys(cfg, st, props);
        var r :- EncEntries(cfg, g, keyed.1, SortByKey(keyed.0), depth + 1, busy);
        Ok(Out(Write(Map(|props|)) + r.out, r.st))
      else
        var r :- EncProps(cfg, g, st, props, depth + 1, busy + {id});
        Ok(Out(Write(Map(|props|)) + r.out, r.st))
  }

  function EncProps(cfg: EncConfig, g: Graph, st: EncState, props: Props, depth: nat, busy: set<nat>): (r: R<Out>)
    ensures r.Ok? ==> |r.value.out| >= 2 * |props|
    decreases Room(cfg, depth), 5, |props|
  {
    if props == [] then Ok(Out([], st))
    else
      var key :- EncKey(cfg, st, props[0].key);
      var first :- EncVal(cfg, g, key.st, props[0].val, depth, busy);
      var rest :- EncProps(cfg, g, first.st, props[1..], depth, busy);
      Ok(Out(key.out + first.out + rest.out, rest.st))
  }

  /** For a deterministic encoding the keys are encoded first. */
  function EncKeys(cfg: EncConfig, st: EncState, props: Props): R<(seq<Entry>, EncState)>
    decreases |props|
  {
    if props == [] then Ok(([], st))
    else
      var key :- EncKey(cfg, st, props[0].key);
      var rest :- EncKeys(cfg, key.st, props[1..]);
      Ok(([Entry(key.out, props[0].val)] + rest.0, rest.1))
  }

  /** `enc_cde_map` after sorting. The object is not busy any more by then. */
  function EncEntries(cfg: EncConfig, g: Graph, st: EncState, entries: seq<Entry>, depth: nat, busy: set<nat>): R<Out>
    decreases Room(cfg, depth), 5, |entries|
  {
    if entries == [] then Ok(Out([], st))
    else
      var first :- EncVal(cfg, g, st, entries[0].val, depth, busy);
      var rest :- EncEntries(cfg, g, first.st, entries[1..], depth, busy);
      Ok(Out(entries[0].key + first.out + rest.out, rest.st))
  }

  /** Is a tag made by the user acceptable? References to strings are checked as far as possible. */
  function CheckTag(cfg: EncConfig, st: EncState, tag: int, content: Val): Option<Error> {
    if tag < 0 then Some(NegativeTag)
    else if tag == TAG_STRING_REF && !cfg.stringRef.Off? then
      if !content.Int? then Some(TagType)
      else if st.srns.None? then Some(TagSyntax)
      else if content.i < 0 || content.i >= st.srns.value.next then Some(TagValue)
      else None
    else None
  }

  predicate OpensNamespace(cfg: EncConfig, tag: int) { tag == TAG_STRING_REF_NS && !cfg.stringRef.Off? }

  function EncTag(cfg: EncConfig, g: Graph, st: EncState, tag: int, content: Val, depth: nat, busy: set<nat>): (r: R<Out>)
    requires depth <= cfg.maxDepth
    ensures r.Ok? ==> |r.value.out| >= 1
    decreases Room(cfg, depth), 3
  {
    var e := CheckTag(cfg, st, tag, content);
    if e.Some? then Err(e.value)
    else if OpensNamespace(cfg, tag) then
      var r :- EncVal(cfg, g, st.(srns := Some(NEW_SRNS)), content, depth + 1, busy);
      Ok(Out(Write(TagHead(tag)) + r.out, r.st.(srns := st.srns)))
    else
      var r :- EncVal(cfg, g, st, content, depth + 1, busy);
      Ok(Out(Write(TagHead(tag)) + r.out, r.st))
  }

  /** `cbor_encode` */
  function Encode(cfg: EncConfig, g: Graph, v: Val): R<bytes> {
    var st := EncState(if cfg.stringRef.On? then Some(NEW_SRNS) else None, map[]);
    var r :- EncVal(cfg, g, st, v, 0, {});
    Ok((if cfg.selfDescribe then Write(TagHead(TAG_SELF_DESCRIBE)) else [])
       + (if cfg.stringRef.On? then Write(TagHead(TAG_STRING_REF_NS)) else []) + r.out)
  }
}
