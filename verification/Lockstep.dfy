/**
 Encoder and decoder in lockstep: what the encoder writes for a value, with whatever follows it, is
 decoded to the clone of the value. On the way both sides number strings and objects alike: the
 encoder's hash tables and counters against the decoder's lists.
 */
module Lockstep {
  import opened Bytes
  import opened Wrappers
  import opened Values
  import opened Wire
  import opened DecoderConfig
  import opened RecursiveDecoder
  import opened Encoder
  import opened Cloning
  import opened Nesting
  import DecimalInt
  import Invariants
  import Utf8

  /** Options of the two sides that fit together. */
  predicate Compatible(ec: EncConfig, dc: Config) {
    && !ec.cde
    && (ec.unsafeText ==> dc.unsafeText)
    && (ec.intKey ==> dc.intKey)
    && (ec.keys.AsByte? ==> dc.keyByte)
    && (ec.keys.AsText? ==> dc.keyText)
    && ec.sharedRef == dc.sharedRef
    && (!ec.stringRef.Off? ==> dc.stringRef)
  }

  /** Is `s` written as a string of this type for the name of a property? */
  ghost predicate IsName(ec: EncConfig, g: Graph, s: bytes, isText: bool) {
    isText == ec.keys.AsText? && IsStringKey(ec, s) && HasName(g, s)
  }

  ghost predicate HasName(g: Graph, s: bytes) {
    exists i, j :: 0 <= i < |g.heap| && 0 <= j < |g.heap[i]| && g.heap[i][j].key == s
  }

  /** Does the decoder turn strings of this type into PHP strings? */
  predicate ToStr(dc: Config, isText: bool) { if isText then dc.textStr else dc.byteStr }

  /**
   A string that may be referred to comes out of the decoder's table as what it was when it was met
   first: a PHP string if that was as a name. So a value must not be equal to a name, unless values of
   this type become PHP strings, too. Less than three bytes are never referred to.
   */
  ghost predicate Apart(ec: EncConfig, dc: Config, g: Graph, s: bytes, isText: bool) {
    ec.stringRef.Off? || |s| < 3 || ToStr(dc, isText) || !IsName(ec, g, s, isText)
  }

  ghost predicate StringOk(ec: EncConfig, dc: Config, g: Graph, s: bytes, isText: bool) {
    |s| < UINT64_LIMIT - 9 && Apart(ec, dc, g, s, isText)
  }

  /** Values within the limits of the decoder, with no contextual tags made by hand, and strings apart from names. */
  ghost predicate ValOk(ec: EncConfig, dc: Config, g: Graph, v: Val) {
    match v
    case Int(i) => IsLong(i)
    case Str(s) => StringOk(ec, dc, g, s, ec.strings.AsText?)
    case ByteStr(s) => StringOk(ec, dc, g, s, false)
    case TextStr(s) => StringOk(ec, dc, g, s, true)
    case List(elems) =>
      |elems| <= dc.maxSize && |elems| < UINT32_LIMIT && forall i :: 0 <= i < |elems| ==> ValOk(ec, dc, g, elems[i])
    case Tag(tag, content) => TagOk(dc, tag) && ValOk(ec, dc, g, content)
    case _ => true
  }

  predicate TagOk(dc: Config, tag: int) {
    0 <= tag <= LONG_MAX && (HandlerOf(dc, tag).PlainTag? || HandlerOf(dc, tag).StrRefNs?)
  }

  ghost predicate PropsFit(ec: EncConfig, dc: Config, g: Graph, props: Props) {
    forall i :: 0 <= i < |props| ==> |props[i].key| < UINT64_LIMIT - 9 && ValOk(ec, dc, g, props[i].val)
  }

  ghost predicate GraphOk(ec: EncConfig, dc: Config, g: Graph) {
    && |g.counted| <= LONG_MAX
    && forall i :: 0 <= i < |g.heap| ==>
      && Invariants.PropsOk(g.heap[i]) && PropsFit(ec, dc, g, g.heap[i])
      && |g.heap[i]| <= dc.maxSize && |g.heap[i]| < UINT32_LIMIT
  }

  /** Properties with names of the graph. */
  ghost predicate NamesOf(g: Graph, props: Props) {
    forall j :: 0 <= j < |props| ==> HasName(g, props[j].key)
  }

  // ----- The state of both sides -----

  /** What the decoder has in its table for a string the encoder has in its own. */
  ghost function TableView(ec: EncConfig, dc: Config, g: Graph, s: bytes, isText: bool): Val {
    if IsName(ec, g, s, isText) then Str(s) else StringView(dc, s, isText)
  }

  ghost predicate TableAgrees(ec: EncConfig, dc: Config, g: Graph, seen: map<bytes, nat>, isText: bool, table: seq<Val>) {
    forall s :: s in seen ==> |s| >= 3 && seen[s] < |table| && table[seen[s]] == TableView(ec, dc, g, s, isText)
  }

  ghost predicate TablesAgree(ec: EncConfig, dc: Config, g: Graph, srns: Srns, table: seq<Val>) {
    && srns.next == |table| && srns.next < UINT32_LIMIT
    && TableAgrees(ec, dc, g, srns.byteTable, false, table)
    && TableAgrees(ec, dc, g, srns.textTable, true, table)
  }

  ghost predicate NamespacesAgree(ec: EncConfig, dc: Config, g: Graph, st: EncState, ns: Namespaces, inNs: bool) {
    st.srns.Some? ==> inNs && ns.Namespace? && TablesAgree(ec, dc, g, st.srns.value, ns.table)
  }

  ghost predicate RefsAgree(ec: EncConfig, g: Graph, st: EncState, c: Clone, refs: seq<Option<Val>>) {
    ec.sharedRef ==>
      && |refs| == |st.refs|
      && (forall id :: id in st.refs <==> id in g.counted && id in c.origin)
      && (forall id :: id in st.refs ==> st.refs[id] < |refs| && refs[st.refs[id]] == Some(Obj(CopyOf(c.origin, id))))
  }

  ghost predicate InStep(ec: EncConfig, dc: Config, g: Graph, st: EncState, c: Clone, env: Env, inNs: bool) {
    && c.Valid() && c.ok && env.heap == c.heap
    && (st.srns.Some? ==> !ec.stringRef.Off?)
    && NamespacesAgree(ec, dc, g, st, env.ns, inNs)
    && RefsAgree(ec, g, st, c, env.refs)
  }

  /** The namespaces around the current one are left alone. */
  predicate SameOuter(ns: Namespaces, ns1: Namespaces) {
    ns.Namespace? == ns1.Namespace? && (ns.Namespace? ==> ns.outer == ns1.outer)
  }

  predicate Grows(env: Env, env1: Env) { SameOuter(env.ns, env1.ns) && env.refs <= env1.refs }

  lemma GrowsOn(env: Env, env1: Env, env2: Env, env3: Env)
    requires env1.ns == env2.ns && env1.refs == env2.refs
    ensures Grows(env, env1) && Grows(env2, env3) ==> Grows(env, env3)
  {
  }

  // ----- Tokens and strings -----

  lemma PlainStringDecodes(
    ec: EncConfig, dc: Config, g: Graph, st: EncState, c: Clone, env: Env, s: bytes, isText: bool, tail: bytes,
    level: nat, slot: Slot) returns (env1: Env)
    requires Compatible(ec, dc) && InStep(ec, dc, g, st, c, env, slot.inNs) && |s| < UINT64_LIMIT - 9
    requires slot.isKey ==> if isText then dc.keyText else dc.keyByte
    requires if slot.isKey then IsName(ec, g, s, isText) else Apart(ec, dc, g, s, isText)
    requires PlainString(ec, st, s, isText).Ok?
    requires st.srns.Some? ==> s !in Table(st.srns.value, isText)
    requires st.srns.Some? && IsLenStringRef(|s|, st.srns.value.next) ==> st.srns.value.next != UINT32_LIMIT - 1
    ensures var st1 := if st.srns.Some? && IsLenStringRef(|s|, st.srns.value.next)
                       then st.(srns := Some(AddString(st.srns.value, s, isText))) else st;
            InStep(ec, dc, g, st1, c, env1, slot.inNs) && Grows(env, env1)
    ensures Item(dc, env, Write(StringToken(s, isText)) + tail, level, slot)
            == Got(if slot.isKey then Str(s) else StringView(dc, s, isText), env1, tail)
  {
    env1 := AfterString(dc, env, s, isText, slot);
    StringItemDecodes(dc, env, s, isText, tail, level, slot);
    hide IsName, Item, Write, AfterString, StringView, IsStringKey;
    StringRegistered(ec, dc, g, st, c, env, s, isText, slot);
  }

  /** The string a slot gets. */
  function SlotView(dc: Config, s: bytes, isText: bool, slot: Slot): Val {
    if slot.isKey then Str(s) else StringView(dc, s, isText)
  }

  function AfterString(dc: Config, env: Env, s: bytes, isText: bool, slot: Slot): Env {
    if slot.inNs then env.(ns := Register(env.ns, SlotView(dc, s, isText, slot))) else env
  }

  lemma StringItemDecodes(dc: Config, env: Env, s: bytes, isText: bool, tail: bytes, level: nat, slot: Slot)
    requires |s| < UINT64_LIMIT - 9 && (isText ==> TextOk(dc, s))
    requires slot.isKey ==> if isText then dc.keyText else dc.keyByte
    ensures Item(dc, env, Write(StringToken(s, isText)) + tail, level, slot)
            == Got(SlotView(dc, s, isText, slot), AfterString(dc, env, s, isText, slot), tail)
  {
    ItemOfWritten(dc, env, StringToken(s, isText), tail, level, slot);
    hide Item, Write;
  }

  /** A string that is written out is numbered on both sides or on neither. */
  lemma StringRegistered(
    ec: EncConfig, dc: Config, g: Graph, st: EncState, c: Clone, env: Env, s: bytes, isText: bool, slot: Slot)
    requires InStep(ec, dc, g, st, c, env, slot.inNs)
    requires if slot.isKey then IsName(ec, g, s, isText) else Apart(ec, dc, g, s, isText)
    requires st.srns.Some? ==> s !in Table(st.srns.value, isText)
    requires st.srns.Some? && IsLenStringRef(|s|, st.srns.value.next) ==> st.srns.value.next != UINT32_LIMIT - 1
    ensures var st1 := if st.srns.Some? && IsLenStringRef(|s|, st.srns.value.next)
                       then st.(srns := Some(AddString(st.srns.value, s, isText))) else st;
            InStep(ec, dc, g, st1, c, AfterString(dc, env, s, isText, slot), slot.inNs)
            && Grows(env, AfterString(dc, env, s, isText, slot))
  {
    var v := SlotView(dc, s, isText, slot);
    hide IsName, TablesAgree, AddString, IsLenStringRef;
    if st.srns.Some? {
      RegisteredAgrees(ec, dc, g, st.srns.value, env.ns, s, isText, v);
    }
  }

  /** A string that qualifies is added on both sides. */
  lemma RegisteredAgrees(
    ec: EncConfig, dc: Config, g: Graph, srns: Srns, ns: Namespaces, s: bytes, isText: bool, v: Val)
    requires ns.Namespace? && TablesAgree(ec, dc, g, srns, ns.table)
    requires |s| >= 3 ==> v == TableView(ec, dc, g, s, isText)
    requires StringLength(v) == |s|
    requires IsLenStringRef(|s|, srns.next) ==> srns.next != UINT32_LIMIT - 1
    ensures var ns1 := Register(ns, v);
            && ns1.Namespace? && ns1.outer == ns.outer
            && TablesAgree(ec, dc, g, if IsLenStringRef(|s|, srns.next) then AddString(srns, s, isText) else srns, ns1.table)
  {
    hide TableView;
  }

  /** A tag around an integer, as references are. */
  lemma IntTagDecodes(dc: Config, env: Env, tag: nat, n: nat, tail: bytes, level: nat, slot: Slot)
    requires tag <= LONG_MAX && n <= LONG_MAX && level < dc.maxDepth && slot.share.None?
    requires EnterTag(env, slot, HandlerOf(dc, tag)) == Ok(env)
    ensures Item(dc, env, Write(TagHead(tag)) + Write(UInt(n)) + tail, level, slot)
            == FromString(ExitTag(env, tag, HandlerOf(dc, tag), |env.refs|, Int(n)), tail)
  {
    var rest := Write(UInt(n)) + tail;
    var h := HandlerOf(dc, tag);
    assert Write(TagHead(tag)) + Write(UInt(n)) + tail == Write(TagHead(tag)) + rest;
    ItemOfWritten(dc, env, TagHead(tag), rest, level, slot);
    ItemOfWritten(dc, env, UInt(n), tail, level + 1, TagSlot(slot, h, |env.refs|));
    assert Item(dc, env, rest, level + 1, TagSlot(slot, h, |env.refs|)) == Got(Int(n), env, tail);
    hide Item, ExitTag, EnterTag, HandlerOf, Write;
    assert TagItem(dc, env, rest, level, slot, tag) == FromString(ExitTag(env, tag, h, |env.refs|, Int(n)), tail);
  }

  /**
   A reference made by hand: the encoder writes it exactly if the decoder will have a string under that number
   by then, and the decoder returns that string.
   */
  lemma HandmadeReference(
    ec: EncConfig, dc: Config, g: Graph, st: EncState, c: Clone, env: Env, i: int, depth: nat, busy: set<nat>,
    tail: bytes, level: nat, inNs: bool)
    requires Compatible(ec, dc) && InStep(ec, dc, g, st, c, env, inNs) && st.srns.Some? && level < dc.maxDepth
    ensures var r := EncVal(ec, g, st, Tag(TAG_STRING_REF, Int(i)), depth, busy);
            && env.ns.Namespace?
            && (depth < ec.maxDepth ==> (r.Ok? <==> 0 <= i < |env.ns.table|))
            && (r.Ok? ==> 0 <= i < |env.ns.table|
                          && Item(dc, env, r.value.out + tail, level, Slot(false, inNs, None)) == Got(env.ns.table[i], env, tail))
  {
    hide Write, Item;
    var r := EncVal(ec, g, st, Tag(TAG_STRING_REF, Int(i)), depth, busy);
    if depth <= ec.maxDepth {
      assert r == EncTag(ec, g, st, TAG_STRING_REF, Int(i), depth, busy);
    }
    if r.Ok? {
      IntTagDecodes(dc, env, TAG_STRING_REF, i, tail, level, Slot(false, inNs, None));
    }
  }

  /** A tag that is too deep, or its content is. */
  lemma TagTooDeep(dc: Config, env: Env, env1: Env, tag: nat, rest: bytes, level: nat, slot: Slot)
    requires tag <= LONG_MAX && level <= dc.maxDepth && slot.share.None?
    requires EnterTag(env, slot, HandlerOf(dc, tag)) == Ok(env1)
    requires level == dc.maxDepth
             || Item(dc, env1, rest, level + 1, TagSlot(slot, HandlerOf(dc, tag), |env.refs|)) == Failed(Depth)
    ensures Item(dc, env, Write(TagHead(tag)) + rest, level, slot) == Failed(Depth)
  {
    ItemOfWritten(dc, env, TagHead(tag), rest, level, slot);
    hide Item, Write, HandlerOf, EnterTag;
  }

  lemma KnownString(
    ec: EncConfig, dc: Config, g: Graph, st: EncState, c: Clone, env: Env, s: bytes, isText: bool, slot: Slot)
    requires Compatible(ec, dc) && InStep(ec, dc, g, st, c, env, slot.inNs) && IsReference(st, s, isText)
    requires if slot.isKey then IsName(ec, g, s, isText) else Apart(ec, dc, g, s, isText)
    ensures st.srns.Some? && s in Table(st.srns.value, isText) && dc.stringRef && env.ns.Namespace?
    ensures var index := Table(st.srns.value, isText)[s];
            index < |env.ns.table| < UINT32_LIMIT && env.ns.table[index] == SlotView(dc, s, isText, slot)
  {
    hide IsName;
  }

  lemma ReferenceFound(dc: Config, env: Env, index: nat, slot: Slot)
    requires dc.stringRef && env.ns.Namespace? && index < |env.ns.table| < UINT32_LIMIT
    ensures EnterTag(env, slot, HandlerOf(dc, TAG_STRING_REF)) == Ok(env)
    ensures ExitTag(env, TAG_STRING_REF, HandlerOf(dc, TAG_STRING_REF), |env.refs|, Int(index)) == Ok((env.ns.table[index], env))
  {
  }

  /** A string that has a number is written as a reference, and found in the decoder's table. */
  lemma KnownStringDecodes(
    ec: EncConfig, dc: Config, g: Graph, st: EncState, c: Clone, env: Env, s: bytes, isText: bool, tail: bytes,
    level: nat, slot: Slot)
    requires Compatible(ec, dc) && InStep(ec, dc, g, st, c, env, slot.inNs) && IsReference(st, s, isText)
    requires if slot.isKey then IsName(ec, g, s, isText) else Apart(ec, dc, g, s, isText)
    requires slot.share.None? && level <= dc.maxDepth
    ensures Item(dc, env, Write(TagHead(TAG_STRING_REF)) + Write(UInt(Table(st.srns.value, isText)[s])) + tail, level, slot)
            == if level < dc.maxDepth then Got(SlotView(dc, s, isText, slot), env, tail) else Failed(Depth)
  {
    hide Item, Write, IsName, InStep, IsReference, Apart, HandlerOf, EnterTag, ExitTag, SlotView;
    KnownString(ec, dc, g, st, c, env, s, isText, slot);
    var index := Table(st.srns.value, isText)[s];
    ReferenceFound(dc, env, index, slot);
    if level < dc.maxDepth {
      IntTagDecodes(dc, env, TAG_STRING_REF, index, tail, level, slot);
    } else {
      Concat(Write(TagHead(TAG_STRING_REF)), Write(UInt(index)), tail);
      TagTooDeep(dc, env, env, TAG_STRING_REF, Write(UInt(index)) + tail, level, slot);
    }
  }

  lemma StringDecodes(
    ec: EncConfig, dc: Config, g: Graph, st: EncState, c: Clone, env: Env, s: bytes, isText: bool, tail: bytes,
    level: nat, slot: Slot) returns (env1: Env)
    requires Compatible(ec, dc) && InStep(ec, dc, g, st, c, env, slot.inNs) && |s| < UINT64_LIMIT - 9
    requires slot.isKey ==> if isText then dc.keyText else dc.keyByte
    requires if slot.isKey then IsName(ec, g, s, isText) else Apart(ec, dc, g, s, isText)
    requires slot.share.None? && level <= dc.maxDepth
    requires EncString(ec, st, s, isText).Ok?
    ensures var o := EncString(ec, st, s, isText).value;
            if level + NestString(st, s, isText, true) <= dc.maxDepth then
              && InStep(ec, dc, g, o.st, c, env1, slot.inNs) && Grows(env, env1)
              && Item(dc, env, o.out + tail, level, slot)
                 == Got(if slot.isKey then Str(s) else StringView(dc, s, isText), env1, tail)
            else Item(dc, env, o.out + tail, level, slot) == Failed(Depth)
  {
    hide InStep, Item, Apart, IsName, Write, AddString, IsLenStringRef;
    if IsReference(st, s, isText) {
      env1 := env;
      KnownStringDecodes(ec, dc, g, st, c, env, s, isText, tail, level, slot);
      InStepBasics(ec, dc, g, st, c, env, slot.inNs);
    } else {
      env1 := PlainStringDecodes(ec, dc, g, st, c, env, s, isText, tail, level, slot);
    }
  }

  /** A property name comes back as a key that stands for the same name. */
  lemma KeyDecodes(
    ec: EncConfig, dc: Config, g: Graph, st: EncState, c: Clone, env: Env, name: bytes, tail: bytes,
    level: nat, inNs: bool) returns (env1: Env, key: Val)
    requires Compatible(ec, dc) && InStep(ec, dc, g, st, c, env, inNs) && |name| < UINT64_LIMIT - 9
    requires HasName(g, name) && level <= dc.maxDepth
    requires EncKey(ec, st, name).Ok?
    ensures var o := EncKey(ec, st, name).value;
            if level + NestKey(ec, st, name, true) <= dc.maxDepth then
              && InStep(ec, dc, g, o.st, c, env1, inNs) && Grows(env, env1)
              && Item(dc, env, o.out + tail, level, Slot(true, inNs, None)) == Got(key, env1, tail)
              && KeyName(key) == name && (key.Str? || (key.Int? && dc.intKey))
            else Item(dc, env, o.out + tail, level, Slot(true, inNs, None)) == Failed(Depth)
  {
    var i := DecimalInt.Parse(name);
    if ec.intKey && i.Some? {
      DecimalInt.ParsedIsPrinted(name);
      ItemOfWritten(dc, env, IntToken(i.value), tail, level, Slot(true, inNs, None));
      env1, key := env, Int(i.value);
    } else {
      hide Item, InStep, HasName;
      env1 := StringDecodes(ec, dc, g, st, c, env, name, ec.keys.AsText?, tail, level, Slot(true, inNs, None));
      key := Str(name);
    }
  }

  // ----- Values -----

  lemma ScalarDecodes(ec: EncConfig, dc: Config, env: Env, v: Val, tail: bytes, level: nat, slot: Slot)
    requires IsScalar(v) && (v.Int? ==> IsLong(v.i))
    ensures Item(dc, env, Write(ScalarToken(ec, v)) + tail, level, slot) == Got(ScalarView(ec, dc, v), env, tail)
    ensures !IsBigInt(ScalarView(ec, dc, v))
  {
    hide FloatItem16, FloatItem32, FloatToken, Float32Token;
    ItemOfWritten(dc, env, ScalarToken(ec, v), tail, level, slot);
  }

  lemma RoomBelow(ec: EncConfig, depth: nat)
    requires depth <= ec.maxDepth
    ensures Room(ec, depth) == Room(ec, depth + 1) + 1
  {
  }

  /** What decoding a value that takes `nest` levels must come to. */
  ghost predicate DecodesTo(
    ec: EncConfig, dc: Config, g: Graph, o: Out, r: Cloned, env: Env, env1: Env, tail: bytes, level: nat, inNs: bool, nest: nat)
  {
    if level + nest <= dc.maxDepth then
      && InStep(ec, dc, g, o.st, r.clone, env1, inNs) && Grows(env, env1)
      && Item(dc, env, o.out + tail, level, Slot(false, inNs, None)) == Got(r.val, env1, tail)
      && !IsBigInt(r.val)
    else Item(dc, env, o.out + tail, level, Slot(false, inNs, None)) == Failed(Depth)
  }

  lemma InStepBasics(ec: EncConfig, dc: Config, g: Graph, st: EncState, c: Clone, env: Env, inNs: bool)
    requires InStep(ec, dc, g, st, c, env, inNs)
    ensures c.Valid() && c.ok && env.heap == c.heap && Grows(env, env)
  {
  }

  lemma {:induction false} ValDecodes(
    ec: EncConfig, dc: Config, g: Graph, st: EncState, c: Clone, env: Env, v: Val, depth: nat, busy: set<nat>,
    tail: bytes, level: nat, inNs: bool) returns (env1: Env)
    requires Compatible(ec, dc) && GraphOk(ec, dc, g) && ValOk(ec, dc, g, v)
    requires InStep(ec, dc, g, st, c, env, inNs) && level <= dc.maxDepth
    requires EncVal(ec, g, st, v, depth, busy).Ok?
    ensures DecodesTo(ec, dc, g, EncVal(ec, g, st, v, depth, busy).value, CloneVal(ec, dc, g, c, v, Room(ec, depth)),
                      env, env1, tail, level, inNs, NestVal(ec, g, st, v, depth, busy, true))
    decreases Room(ec, depth), 4
  {
    hide Item, Grows, GraphOk, InStep, Write, EncString, EncTag, EncObject, CloneObject, ScalarView, ScalarToken;
    InStepBasics(ec, dc, g, st, c, env, inNs);
    RoomBelow(ec, depth);
    env1 := env;
    match v
    case Str(s) =>
      env1 := StringDecodes(ec, dc, g, st, c, env, s, ec.strings.AsText?, tail, level, Slot(false, inNs, None));
    case ByteStr(s) => env1 := StringDecodes(ec, dc, g, st, c, env, s, false, tail, level, Slot(false, inNs, None));
    case TextStr(s) => env1 := StringDecodes(ec, dc, g, st, c, env, s, true, tail, level, Slot(false, inNs, None));
    case List(elems) => env1 := ListDecodes(ec, dc, g, st, c, env, elems, depth, busy, tail, level, inNs);
    case Obj(id) => env1 := ObjectDecodes(ec, dc, g, st, c, env, id, depth, busy, tail, level, inNs);
    case Tag(tag, content) => env1 := TagDecodes(ec, dc, g, st, c, env, tag, content, depth, busy, tail, level, inNs);
    case _ => ScalarDecodes(ec, dc, env, v, tail, level, Slot(false, inNs, None));
  }

  lemma {:induction false} ListDecodes(
    ec: EncConfig, dc: Config, g: Graph, st: EncState, c: Clone, env: Env, elems: seq<Val>, depth: nat, busy: set<nat>,
    tail: bytes, level: nat, inNs: bool) returns (env1: Env)
    requires Compatible(ec, dc) && GraphOk(ec, dc, g) && ValOk(ec, dc, g, List(elems))
    requires InStep(ec, dc, g, st, c, env, inNs) && level <= dc.maxDepth
    requires EncVal(ec, g, st, List(elems), depth, busy).Ok?
    ensures DecodesTo(ec, dc, g, EncVal(ec, g, st, List(elems), depth, busy).value,
                      CloneVal(ec, dc, g, c, List(elems), Room(ec, depth)), env, env1, tail, level, inNs,
                      NestVal(ec, g, st, List(elems), depth, busy, true))
    decreases Room(ec, depth), 3
  {
    hide Item, Grows, GraphOk, InStep, Write, EncVal, EncElems, CloneVal, CloneElems, ItemOf;
    ListEncoded(ec, g, st, elems, depth, busy);
    InStepBasics(ec, dc, g, st, c, env, inNs);
    ListCloned(ec, dc, g, c, elems, depth);
    var body := EncElems(ec, g, st, elems, depth + 1, busy).value;
    ItemOfWritten(dc, env, Array(|elems|), body.out + tail, level, Slot(false, inNs, None));
    Concat(Write(Array(|elems|)), body.out, tail);
    RoomBelow(ec, depth);
    if elems == [] {
      EmptyConcat(tail);
      EmptyArray(dc, env, tail, level, Slot(false, inNs, None), |Write(Array(|elems|))| + |tail|);
      env1 := env;
    } else {
      OpenArray(dc, env, body.out + tail, level, inNs, |elems|, |Write(Array(|elems|))| + |body.out + tail|);
      if level == dc.maxDepth {
        env1 := env;
      } else {
        env1 := ElemsDecode(ec, dc, g, st, c, env, elems, [], depth + 1, busy, tail, level + 1, inNs);
        EmptyConcat(CloneElems(ec, dc, g, c, elems, Room(ec, depth + 1)).0);
      }
    }
  }

  lemma ListEncoded(ec: EncConfig, g: Graph, st: EncState, elems: seq<Val>, depth: nat, busy: set<nat>)
    requires EncVal(ec, g, st, List(elems), depth, busy).Ok?
    ensures depth <= ec.maxDepth
    ensures var r := EncElems(ec, g, st, elems, depth + 1, busy);
            && r.Ok? && EncVal(ec, g, st, List(elems), depth, busy) == Ok(Out(Write(Array(|elems|)) + r.value.out, r.value.st))
            && (elems != [] ==> depth < ec.maxDepth) && (elems == [] ==> r.value == Out([], st))
  {
  }

  lemma ListCloned(ec: EncConfig, dc: Config, g: Graph, c: Clone, elems: seq<Val>, depth: nat)
    requires c.Valid() && depth <= ec.maxDepth
    ensures var r := CloneElems(ec, dc, g, c, elems, Room(ec, depth + 1));
            && CloneVal(ec, dc, g, c, List(elems), Room(ec, depth)) == Cloned(List(r.0), r.1)
            && (elems == [] ==> r == ([], c))
  {
  }

  lemma EmptyArray(dc: Config, env: Env, s: bytes, level: nat, slot: Slot, available: nat)
    requires available > 0
    ensures ItemOf(dc, env, Array(0), available, s, level, slot) == Got(List([]), env, s)
  {
  }

  lemma OpenArray(dc: Config, env: Env, s: bytes, level: nat, inNs: bool, count: nat, available: nat)
    requires 0 < count <= dc.maxSize && count <= |s| < available
    ensures ItemOf(dc, env, Array(count), available, s, level, Slot(false, inNs, None))
            == if level >= dc.maxDepth then Failed(Depth) else Elements(dc, env, s, level + 1, inNs, count, [])
  {
  }

  lemma {:induction false} ElemsDecode(
    ec: EncConfig, dc: Config, g: Graph, st: EncState, c: Clone, env: Env, elems: seq<Val>, done: seq<Val>,
    depth: nat, busy: set<nat>, tail: bytes, level: nat, inNs: bool) returns (env1: Env)
    requires Compatible(ec, dc) && GraphOk(ec, dc, g) && elems != []
    requires forall i :: 0 <= i < |elems| ==> ValOk(ec, dc, g, elems[i])
    requires InStep(ec, dc, g, st, c, env, inNs) && level <= dc.maxDepth
    requires EncElems(ec, g, st, elems, depth, busy).Ok?
    ensures var o := EncElems(ec, g, st, elems, depth, busy).value;
            var r := CloneElems(ec, dc, g, c, elems, Room(ec, depth));
            if level + NestElems(ec, g, st, elems, depth, busy, true) <= dc.maxDepth then
              && InStep(ec, dc, g, o.st, r.1, env1, inNs) && Grows(env, env1)
              && Elements(dc, env, o.out + tail, level, inNs, |elems|, done) == Got(List(done + r.0), env1, tail)
            else Elements(dc, env, o.out + tail, level, inNs, |elems|, done) == Failed(Depth)
    decreases Room(ec, depth), 5, |elems|
  {
    hide Item, Elements, Grows, GraphOk, InStep, EncVal, CloneVal;
    InStepBasics(ec, dc, g, st, c, env, inNs);
    var first := EncVal(ec, g, st, elems[0], depth, busy).value;
    var rest := EncElems(ec, g, first.st, elems[1..], depth, busy).value;
    var v := CloneVal(ec, dc, g, c, elems[0], Room(ec, depth));
    Concat(first.out, rest.out, tail);
    var env2 := ValDecodes(ec, dc, g, st, c, env, elems[0], depth, busy, rest.out + tail, level, inNs);
    FirstElement(dc, env, first.out + (rest.out + tail), level, inNs, |elems|, done);
    if level + NestVal(ec, g, st, elems[0], depth, busy, true) > dc.maxDepth {
      env1 := env;
    } else if |elems| == 1 {
      env1 := env2;
      EmptyConcat(tail);
      assert done + ([v.val] + []) == done + [v.val];
    } else {
      env1 := ElemsDecode(ec, dc, g, first.st, v.clone, env2, elems[1..], done + [v.val], depth, busy, tail, level, inNs);
      GrowsOn(env, env2, env2, env1);
      var r := CloneElems(ec, dc, g, v.clone, elems[1..], Room(ec, depth)).0;
      Concat(done, [v.val], r);
    }
  }

  /** The first of `count` elements is decoded. */
  lemma FirstElement(dc: Config, env: Env, s: bytes, level: nat, inNs: bool, count: nat, done: seq<Val>)
    requires count > 0
    requires var d := Item(dc, env, s, level, Slot(false, inNs, None)); d.Got? ==> !IsBigInt(d.val)
    ensures var d := Item(dc, env, s, level, Slot(false, inNs, None));
            Elements(dc, env, s, level, inNs, count, done) ==
            if d.Failed? then d
            else if count == 1 then Got(List(done + [d.val]), d.env, d.rest)
            else Elements(dc, d.env, d.rest, level, inNs, count - 1, done + [d.val])
  {
    hide Item;
  }

  lemma {:induction false} TagDecodes(
    ec: EncConfig, dc: Config, g: Graph, st: EncState, c: Clone, env: Env, tag: int, content: Val, depth: nat,
    busy: set<nat>, tail: bytes, level: nat, inNs: bool) returns (env1: Env)
    requires Compatible(ec, dc) && GraphOk(ec, dc, g) && ValOk(ec, dc, g, Tag(tag, content))
    requires InStep(ec, dc, g, st, c, env, inNs) && level <= dc.maxDepth
    requires EncVal(ec, g, st, Tag(tag, content), depth, busy).Ok?
    ensures DecodesTo(ec, dc, g, EncVal(ec, g, st, Tag(tag, content), depth, busy).value,
                      CloneVal(ec, dc, g, c, Tag(tag, content), Room(ec, depth)), env, env1, tail, level, inNs,
                      NestVal(ec, g, st, Tag(tag, content), depth, busy, true))
    decreases Room(ec, depth), 3
  {
    hide Item, Grows, GraphOk, InStep, Write, EncVal, CloneVal, HandlerOf;
    TagEncoded(ec, g, st, tag, content, depth, busy);
    InStepBasics(ec, dc, g, st, c, env, inNs);
    TagCloned(ec, dc, g, c, tag, content, depth);
    var h := HandlerOf(dc, tag);
    RoomBelow(ec, depth);
    var st2 := if OpensNamespace(ec, tag) then st.(srns := Some(NEW_SRNS)) else st;
    var env2 := if h.StrRefNs? then env.(ns := Namespace([], env.ns)) else env;
    NewNamespace(ec, dc, g, st, c, env, inNs, tag);
    var body := EncVal(ec, g, st2, content, depth + 1, busy).value;
    var r := CloneVal(ec, dc, g, c, content, Room(ec, depth + 1));
    Concat(Write(TagHead(tag)), body.out, tail);
    if level + 1 + NestVal(ec, g, st2, content, depth + 1, busy, true) > dc.maxDepth {
      env1 := env;
      if level < dc.maxDepth {
        var _ := ValDecodes(ec, dc, g, st2, c, env2, content, depth + 1, busy, tail, level + 1, inNs || h.StrRefNs?);
      }
      ContentTooDeep(dc, env, tag, body.out + tail, level, inNs);
      return;
    }
    var env3 := ValDecodes(ec, dc, g, st2, c, env2, content, depth + 1, busy, tail, level + 1, inNs || h.StrRefNs?);
    OldNamespace(ec, dc, g, st, body.st, c, r.clone, env, env3, inNs, tag);
    env1 := if h.StrRefNs? then env3.(ns := env3.ns.outer) else env3;
    ItemOfTag(dc, env, env3, tag, r.val, body.out + tail, tail, level, inNs);
  }

  lemma ContentTooDeep(dc: Config, env: Env, tag: nat, rest: bytes, level: nat, inNs: bool)
    requires TagOk(dc, tag) && level <= dc.maxDepth
    requires var ns := HandlerOf(dc, tag).StrRefNs?;
             level == dc.maxDepth
             || Item(dc, if ns then env.(ns := Namespace([], env.ns)) else env, rest, level + 1, Slot(false, inNs || ns, None))
                == Failed(Depth)
    ensures Item(dc, env, Write(TagHead(tag)) + rest, level, Slot(false, inNs, None)) == Failed(Depth)
  {
    var ns := HandlerOf(dc, tag).StrRefNs?;
    TagTooDeep(dc, env, if ns then env.(ns := Namespace([], env.ns)) else env, tag, rest, level, Slot(false, inNs, None));
  }

  lemma TagEncoded(ec: EncConfig, g: Graph, st: EncState, tag: int, content: Val, depth: nat, busy: set<nat>)
    requires EncVal(ec, g, st, Tag(tag, content), depth, busy).Ok?
    ensures var opens := OpensNamespace(ec, tag);
            var r := EncVal(ec, g, if opens then st.(srns := Some(NEW_SRNS)) else st, content, depth + 1, busy);
            && 0 <= tag && depth < ec.maxDepth && r.Ok?
            && EncVal(ec, g, st, Tag(tag, content), depth, busy)
               == Ok(Out(Write(TagHead(tag)) + r.value.out, if opens then r.value.st.(srns := st.srns) else r.value.st))
  {
  }

  lemma TagCloned(ec: EncConfig, dc: Config, g: Graph, c: Clone, tag: int, content: Val, depth: nat)
    requires c.Valid() && depth <= ec.maxDepth
    ensures var r := CloneVal(ec, dc, g, c, content, Room(ec, depth + 1));
            CloneVal(ec, dc, g, c, Tag(tag, content), Room(ec, depth))
            == Cloned(if StripsTag(dc, tag) then r.val else Tag(tag, r.val), r.clone)
  {
  }

  /** A plain tag or a namespace tag around a content whose decoding is known. */
  lemma ItemOfTag(dc: Config, env: Env, env3: Env, tag: nat, v: Val, rest: bytes, tail: bytes, level: nat, inNs: bool)
    requires TagOk(dc, tag) && level < dc.maxDepth && !IsBigInt(v)
    requires var ns := HandlerOf(dc, tag).StrRefNs?;
             && Item(dc, if ns then env.(ns := Namespace([], env.ns)) else env, rest, level + 1, Slot(false, inNs || ns, None))
                == Got(v, env3, tail)
             && (ns ==> env3.ns.Namespace?)
    ensures var ns := HandlerOf(dc, tag).StrRefNs?;
            Item(dc, env, Write(TagHead(tag)) + rest, level, Slot(false, inNs, None))
            == Got(if ns then v else Tag(tag, v), if ns then env3.(ns := env3.ns.outer) else env3, tail)
  {
    ItemOfWritten(dc, env, TagHead(tag), rest, level, Slot(false, inNs, None));
    hide Item, Write;
  }

  /** A namespace tag starts with empty tables on both sides. */
  lemma NewNamespace(ec: EncConfig, dc: Config, g: Graph, st: EncState, c: Clone, env: Env, inNs: bool, tag: nat)
    requires Compatible(ec, dc) && TagOk(dc, tag) && InStep(ec, dc, g, st, c, env, inNs)
    ensures var ns := HandlerOf(dc, tag).StrRefNs?;
            InStep(ec, dc, g, if OpensNamespace(ec, tag) then st.(srns := Some(NEW_SRNS)) else st, c,
                   if ns then env.(ns := Namespace([], env.ns)) else env, inNs || ns)
  {
  }

  /** After a namespace tag both sides are back in the namespace they were in before. */
  lemma OldNamespace(
    ec: EncConfig, dc: Config, g: Graph, st: EncState, st1: EncState, c: Clone, c1: Clone, env: Env, env3: Env,
    inNs: bool, tag: nat)
    requires Compatible(ec, dc) && TagOk(dc, tag) && InStep(ec, dc, g, st, c, env, inNs)
    requires InStep(ec, dc, g, st1, c1, env3, inNs || HandlerOf(dc, tag).StrRefNs?)
    requires Grows(if HandlerOf(dc, tag).StrRefNs? then env.(ns := Namespace([], env.ns)) else env, env3)
    ensures var ns := HandlerOf(dc, tag).StrRefNs?;
            && (ns ==> env3.ns.Namespace?)
            && var env1 := if ns then env3.(ns := env3.ns.outer) else env3;
               && InStep(ec, dc, g, if OpensNamespace(ec, tag) then st1.(srns := st.srns) else st1, c1, env1, inNs)
               && Grows(env, env1)
  {
    hide RefsAgree;
    RefsAgreeAgain(ec, g, st1, if OpensNamespace(ec, tag) then st1.(srns := st.srns) else st1, c1, env3.refs);
  }

  lemma RefsAgreeAgain(ec: EncConfig, g: Graph, st: EncState, st1: EncState, c: Clone, refs: seq<Option<Val>>)
    requires RefsAgree(ec, g, st, c, refs) && st.refs == st1.refs
    ensures RefsAgree(ec, g, st1, c, refs)
  {
  }

  // ----- Objects -----

  lemma {:induction false} ObjectDecodes(
    ec: EncConfig, dc: Config, g: Graph, st: EncState, c: Clone, env: Env, id: nat, depth: nat, busy: set<nat>,
    tail: bytes, level: nat, inNs: bool) returns (env1: Env)
    requires Compatible(ec, dc) && GraphOk(ec, dc, g)
    requires InStep(ec, dc, g, st, c, env, inNs) && level <= dc.maxDepth
    requires EncVal(ec, g, st, Obj(id), depth, busy).Ok?
    ensures DecodesTo(ec, dc, g, EncVal(ec, g, st, Obj(id), depth, busy).value,
                      CloneVal(ec, dc, g, c, Obj(id), Room(ec, depth)), env, env1, tail, level, inNs,
                      NestVal(ec, g, st, Obj(id), depth, busy, true))
    decreases Room(ec, depth), 3
  {
    hide CopyOf;
    ObjectEncoded(ec, g, st, id, depth, busy);
    if !IsShared(ec, g, id) {
      env1 := UnsharedDecodes(ec, dc, g, st, c, env, id, depth, busy, tail, level, inNs);
    } else if id in st.refs {
      env1 := env;
      ReferenceDecodes(ec, dc, g, st, c, env, id, depth, busy, tail, level, inNs);
    } else {
      env1 := SharedDecodes(ec, dc, g, st, c, env, id, depth, busy, tail, level, inNs);
    }
  }

  lemma {:induction false} UnsharedDecodes(
    ec: EncConfig, dc: Config, g: Graph, st: EncState, c: Clone, env: Env, id: nat, depth: nat, busy: set<nat>,
    tail: bytes, level: nat, inNs: bool) returns (env1: Env)
    requires Compatible(ec, dc) && GraphOk(ec, dc, g) && !IsShared(ec, g, id)
    requires InStep(ec, dc, g, st, c, env, inNs) && level <= dc.maxDepth
    requires EncVal(ec, g, st, Obj(id), depth, busy).Ok?
    ensures DecodesTo(ec, dc, g, EncVal(ec, g, st, Obj(id), depth, busy).value,
                      CloneVal(ec, dc, g, c, Obj(id), Room(ec, depth)), env, env1, tail, level, inNs,
                      NestVal(ec, g, st, Obj(id), depth, busy, true))
    decreases Room(ec, depth), 2
  {
    hide CopyOf;
    ObjectEncoded(ec, g, st, id, depth, busy);
    ObjectCloned(ec, dc, g, c, id, depth);
    UnsharedInStep(ec, dc, g, st, c, env, id, inNs);
    hide Item, Grows, GraphOk, Write, EncVal, EncHash, EncObject, CloneVal, CloneProps, InStep;
    InStepBasics(ec, dc, g, st, c, env, inNs);
    RoomBelow(ec, depth);
    env1 := HashDecodes(ec, dc, g, st, c, env, NewObject(env), id, depth, busy, tail, level, Slot(false, inNs, None));
    NothingCloned(ec, dc, g, NewCopy(c, id), |c.heap|, Room(ec, depth + 1));
  }

  /** A further encounter with a shared object: a reference by its number. */
  lemma ReferenceDecodes(
    ec: EncConfig, dc: Config, g: Graph, st: EncState, c: Clone, env: Env, id: nat, depth: nat, busy: set<nat>,
    tail: bytes, level: nat, inNs: bool)
    requires Compatible(ec, dc) && GraphOk(ec, dc, g) && IsShared(ec, g, id) && id in st.refs
    requires InStep(ec, dc, g, st, c, env, inNs) && level <= dc.maxDepth
    requires EncVal(ec, g, st, Obj(id), depth, busy).Ok?
    ensures DecodesTo(ec, dc, g, EncVal(ec, g, st, Obj(id), depth, busy).value,
                      CloneVal(ec, dc, g, c, Obj(id), Room(ec, depth)), env, env, tail, level, inNs,
                      NestVal(ec, g, st, Obj(id), depth, busy, true))
  {
    hide CopyOf, Item, Write, EncHash, CloneProps, GraphOk;
    assert |g.counted| <= LONG_MAX by {
      CountedFits(ec, dc, g);
    }
    RefsBounded(st.refs.Keys, g.counted);
    if level < dc.maxDepth {
      IntTagDecodes(dc, env, TAG_SHARED_REF, st.refs[id], tail, level, Slot(false, inNs, None));
    } else {
      var index := Write(UInt(st.refs[id]));
      Concat(Write(TagHead(TAG_SHARED_REF)), index, tail);
      TagTooDeep(dc, env, env, TAG_SHARED_REF, index + tail, level, Slot(false, inNs, None));
    }
  }

  lemma CountedFits(ec: EncConfig, dc: Config, g: Graph)
    requires GraphOk(ec, dc, g)
    ensures |g.counted| <= LONG_MAX
  {
  }

  lemma ObjectCloned(ec: EncConfig, dc: Config, g: Graph, c: Clone, id: nat, depth: nat)
    requires c.Valid() && depth <= ec.maxDepth && id < |g.heap| && !(IsShared(ec, g, id) && id in c.origin)
    ensures CloneVal(ec, dc, g, c, Obj(id), Room(ec, depth))
            == Cloned(Obj(|c.heap|), CloneProps(ec, dc, g, NewCopy(c, id), |c.heap|, g.heap[id], Room(ec, depth + 1)))
  {
  }

  lemma NothingCloned(ec: EncConfig, dc: Config, g: Graph, c: Clone, dest: nat, fuel: nat)
    requires c.Valid() && dest < |c.heap|
    ensures CloneProps(ec, dc, g, c, dest, [], fuel) == c
  {
  }

  lemma ObjectEncoded(ec: EncConfig, g: Graph, st: EncState, id: nat, depth: nat, busy: set<nat>)
    requires EncVal(ec, g, st, Obj(id), depth, busy).Ok?
    ensures depth <= ec.maxDepth && EncVal(ec, g, st, Obj(id), depth, busy) == EncObject(ec, g, st, id, depth, busy)
    ensures !IsShared(ec, g, id) ==> EncObject(ec, g, st, id, depth, busy) == EncHash(ec, g, st, id, depth, busy)
    ensures IsShared(ec, g, id) && id !in st.refs ==>
      var r := EncHash(ec, g, Number(st, id), id, depth, busy);
      r.Ok? && EncObject(ec, g, st, id, depth, busy) == Ok(Out(Write(TagHead(TAG_SHAREABLE)) + r.value.out, r.value.st))
    ensures !(IsShared(ec, g, id) && id in st.refs) ==> id < |g.heap|
  {
  }

  lemma HashEncoded(ec: EncConfig, g: Graph, st: EncState, id: nat, depth: nat, busy: set<nat>)
    requires !ec.cde && depth <= ec.maxDepth && EncHash(ec, g, st, id, depth, busy).Ok?
    ensures id < |g.heap|
    ensures var r := EncProps(ec, g, st, g.heap[id], depth + 1, busy + {id});
            && r.Ok? && EncHash(ec, g, st, id, depth, busy) == Ok(Out(Write(Map(|g.heap[id]|)) + r.value.out, r.value.st))
            && (g.heap[id] != [] ==> depth < ec.maxDepth) && (g.heap[id] == [] ==> r.value == Out([], st))
  {
  }

  lemma {:induction false} RefsBounded(a: set<nat>, b: set<nat>)
    requires a <= b
    ensures |a| <= |b|
  {
    if a != {} {
      var x :| x in a;
      RefsBounded(a - {x}, b - {x});
    }
  }

  lemma {:induction false} CopyOfGrows(origin: seq<nat>, id: nat, more: nat)
    ensures id in origin ==> CopyOf(origin + [more], id) == CopyOf(origin, id)
    ensures id !in origin ==> CopyOf(origin + [id], id) == |origin|
  {
    if origin != [] && origin[0] != id {
      CopyOfGrows(origin[1..], id, more);
      assert (origin + [more])[1..] == origin[1..] + [more];
      assert (origin + [id])[1..] == origin[1..] + [id];
    }
  }

  /** An object that is not shared: nothing but the new object changes. */
  lemma UnsharedInStep(ec: EncConfig, dc: Config, g: Graph, st: EncState, c: Clone, env: Env, id: nat, inNs: bool)
    requires InStep(ec, dc, g, st, c, env, inNs) && !IsShared(ec, g, id)
    ensures InStep(ec, dc, g, st, NewCopy(c, id), NewObject(env), inNs)
  {
    forall x | x in st.refs && ec.sharedRef ensures CopyOf(c.origin + [id], x) == CopyOf(c.origin, x) {
      CopyOfGrows(c.origin, x, id);
    }
  }

  /** A shared object gets the same number on both sides. */
  lemma SharedInStep(ec: EncConfig, dc: Config, g: Graph, st: EncState, c: Clone, env: Env, id: nat, inNs: bool)
    requires InStep(ec, dc, g, st, c, env, inNs) && IsShared(ec, g, id) && id !in st.refs
    ensures InStep(ec, dc, g, Number(st, id), NewCopy(c, id), Shared(env), inNs)
    ensures id !in c.origin && c.Valid() && env.heap == c.heap
  {
    CopyOfGrows(c.origin, id, id);
    forall x | x in st.refs ensures CopyOf(c.origin + [id], x) == CopyOf(c.origin, x) {
      CopyOfGrows(c.origin, x, id);
    }
  }

  /** Inside a shareable tag, before and after its object is known. */
  function Tagged(env: Env): Env { env.(refs := env.refs + [None]) }

  function Shared(env: Env): Env { NewObject(env).(refs := env.refs + [Some(Obj(|env.heap|))]) }

  /** A shareable tag around an object whose decoding is known. */
  lemma ShareableDecodes(dc: Config, env: Env, env3: Env, d: nat, empty: bool, rest: bytes, tail: bytes, level: nat, inNs: bool)
    requires dc.sharedRef && level < dc.maxDepth && d == |env.heap|
    requires Item(dc, Tagged(env), rest, level + 1, Slot(false, inNs, Some(|env.refs|))) == Got(Obj(d), env3, tail)
    requires if empty then env3 == NewObject(Tagged(env)) else Grows(Shared(env), env3)
    ensures Item(dc, env, Write(TagHead(TAG_SHAREABLE)) + rest, level, Slot(false, inNs, None))
            == Got(Obj(d), if empty then Shared(env) else env3, tail)
  {
    hide Item, ItemOf, ExitTag, Write;
    ItemOfWritten(dc, env, TagHead(TAG_SHAREABLE), rest, level, Slot(false, inNs, None));
    ShareableEntered(dc, env, rest, |Write(TagHead(TAG_SHAREABLE))| + |rest|, level, inNs);
    ShareableLeft(env, env3, d, empty);
  }

  /** The content of a shareable tag, and its exit. */
  lemma ShareableEntered(dc: Config, env: Env, rest: bytes, available: nat, level: nat, inNs: bool)
    requires dc.sharedRef && level < dc.maxDepth
    ensures var c := Item(dc, Tagged(env), rest, level + 1, Slot(false, inNs, Some(|env.refs|)));
            c.Got? ==> ItemOf(dc, env, TagHead(TAG_SHAREABLE), available, rest, level, Slot(false, inNs, None))
                       == FromString(ExitTag(c.env, TAG_SHAREABLE, Shareable, |env.refs|, c.val), c.rest)
  {
    hide Item, ExitTag;
  }

  lemma ShareableLeft(env: Env, env3: Env, d: nat, empty: bool)
    requires d == |env.heap| && if empty then env3 == NewObject(Tagged(env)) else Grows(Shared(env), env3)
    ensures ExitTag(env3, TAG_SHAREABLE, Shareable, |env.refs|, Obj(d)) == Ok((Obj(d), if empty then Shared(env) else env3))
  {
    if empty {
      assert env3.refs[|env.refs| := Some(Obj(d))] == Shared(env).refs;
    } else {
      assert env3.refs[|env.refs|] == Shared(env).refs[|env.refs|];
    }
  }

  /** The first encounter with a shared object: a shareable tag around the object. */
  lemma {:induction false} SharedDecodes(
    ec: EncConfig, dc: Config, g: Graph, st: EncState, c: Clone, env: Env, id: nat, depth: nat, busy: set<nat>,
    tail: bytes, level: nat, inNs: bool) returns (env1: Env)
    requires Compatible(ec, dc) && GraphOk(ec, dc, g) && IsShared(ec, g, id) && id !in st.refs
    requires InStep(ec, dc, g, st, c, env, inNs) && level <= dc.maxDepth
    requires EncVal(ec, g, st, Obj(id), depth, busy).Ok?
    ensures DecodesTo(ec, dc, g, EncVal(ec, g, st, Obj(id), depth, busy).value,
                      CloneVal(ec, dc, g, c, Obj(id), Room(ec, depth)), env, env1, tail, level, inNs,
                      NestVal(ec, g, st, Obj(id), depth, busy, true))
    decreases Room(ec, depth), 2
  {
    hide Item, Grows, GraphOk, Write, EncVal, CloneVal, CloneProps, EncHash, EncObject, InStep;
    ObjectEncoded(ec, g, st, id, depth, busy);
    SharedInStep(ec, dc, g, st, c, env, id, inNs);
    ObjectCloned(ec, dc, g, c, id, depth);
    RoomBelow(ec, depth);
    var st2 := Number(st, id);
    var body := EncHash(ec, g, st2, id, depth, busy).value;
    ShareableOpens(dc, env, level + 1, inNs);
    Concat(Write(TagHead(TAG_SHAREABLE)), body.out, tail);
    hide Shared, Open, Number;
    if level == dc.maxDepth {
      env1 := env;
      TagTooDeep(dc, env, Tagged(env), TAG_SHAREABLE, body.out + tail, level, Slot(false, inNs, None));
      return;
    }
    var env3 := HashDecodes(ec, dc, g, st2, c, Tagged(env), Shared(env), id, depth, busy, tail, level + 1,
                            Slot(false, inNs, Some(|env.refs|)));
    if level + 1 + NestHash(ec, g, st2, id, depth, busy, true) > dc.maxDepth {
      env1 := env;
      TagTooDeep(dc, env, Tagged(env), TAG_SHAREABLE, body.out + tail, level, Slot(false, inNs, None));
      return;
    }
    NothingCloned(ec, dc, g, NewCopy(c, id), |c.heap|, Room(ec, depth + 1));
    ShareableDecodes(dc, env, env3, |c.heap|, g.heap[id] == [], body.out + tail, tail, level, inNs);
    SharedGrows(env, env3);
    env1 := if g.heap[id] == [] then Shared(env) else env3;
  }

  lemma SharedGrows(env: Env, env1: Env)
    ensures Grows(env, Shared(env)) && (Grows(Shared(env), env1) ==> Grows(env, env1))
  {
  }

  /** Opening the object inside a shareable tag makes it known under its number. */
  lemma ShareableOpens(dc: Config, env: Env, level: nat, inNs: bool)
    ensures Tagged(env).heap == env.heap
    ensures level < dc.maxDepth ==>
      Open(dc, NewObject(Tagged(env)), level, Slot(false, inNs, Some(|env.refs|)), Some(|env.heap|)) == Ok(Shared(env))
  {
    assert Tagged(env).refs[|env.refs| := Some(Obj(|env.heap|))] == Shared(env).refs;
  }

  /**
   An object in a slot that may belong to a shareable tag. `env2` is the environment once the
   object is open.
   */
  lemma {:induction false} HashDecodes(
    ec: EncConfig, dc: Config, g: Graph, st: EncState, c: Clone, env: Env, env2: Env, id: nat, depth: nat,
    busy: set<nat>, tail: bytes, level: nat, slot: Slot) returns (env1: Env)
    requires Compatible(ec, dc) && GraphOk(ec, dc, g) && depth <= ec.maxDepth && !slot.isKey
    requires env.heap == c.heap && c.Valid() && InStep(ec, dc, g, st, NewCopy(c, id), env2, slot.inNs)
    requires EncHash(ec, g, st, id, depth, busy).Ok?
    requires level <= dc.maxDepth
    requires level < dc.maxDepth ==> Open(dc, NewObject(env), level, slot, Some(|env.heap|)) == Ok(env2)
    ensures var o := EncHash(ec, g, st, id, depth, busy).value;
            if level + NestHash(ec, g, st, id, depth, busy, true) <= dc.maxDepth then
              && Item(dc, env, o.out + tail, level, slot) == Got(Obj(|c.heap|), env1, tail)
              && (g.heap[id] == [] ==> env1 == NewObject(env) && o.st == st)
              && (g.heap[id] != [] ==>
                    && InStep(ec, dc, g, o.st,
                              CloneProps(ec, dc, g, NewCopy(c, id), |c.heap|, g.heap[id], Room(ec, depth + 1)), env1, slot.inNs)
                    && Grows(env2, env1))
            else Item(dc, env, o.out + tail, level, slot) == Failed(Depth)
    decreases Room(ec, depth), 1
  {
    hide Item, Grows, Write, InStep, CloneProps, EncProps, EncHash, NestProps, Open, ItemOf, NamesOf, PropsFit;
    HashEncoded(ec, g, st, id, depth, busy);
    NamesAreNames(g, id);
    InStepBasics(ec, dc, g, st, NewCopy(c, id), env2, slot.inNs);
    var props := g.heap[id];
    var body := EncProps(ec, g, st, props, depth + 1, busy + {id}).value;
    ItemOfWritten(dc, env, Map(|props|), body.out + tail, level, slot);
    Concat(Write(Map(|props|)), body.out, tail);
    env1 := NewObject(env);
    if props == [] {
      EmptyConcat(tail);
      EmptyMap(dc, env, tail, level, slot, |Write(Map(|props|))| + |tail|);
    } else {
      OpenMap(dc, env, env2, body.out + tail, level, slot, |props|, |Write(Map(|props|))| + |body.out + tail|);
      if level < dc.maxDepth {
        env1 := PropsDecode(ec, dc, g, st, NewCopy(c, id), env2, |c.heap|, props, depth + 1, busy + {id}, tail, level + 1, slot.inNs);
      }
    }
  }

  lemma NamesAreNames(g: Graph, id: nat)
    requires id < |g.heap|
    ensures NamesOf(g, g.heap[id])
  {
  }

  lemma EmptyMap(dc: Config, env: Env, s: bytes, level: nat, slot: Slot, available: nat)
    requires available > 0
    ensures ItemOf(dc, env, Map(0), available, s, level, slot) == Got(Obj(|env.heap|), NewObject(env), s)
  {
  }

  lemma OpenMap(dc: Config, env: Env, env2: Env, s: bytes, level: nat, slot: Slot, count: nat, available: nat)
    requires level < dc.maxDepth ==> Open(dc, NewObject(env), level, slot, Some(|env.heap|)) == Ok(env2)
    requires 0 < count <= dc.maxSize && 2 * count <= |s| < available
    ensures ItemOf(dc, env, Map(count), available, s, level, slot)
            == if level >= dc.maxDepth then Failed(Depth) else Pairs(dc, env2, s, level + 1, slot.inNs, count, 0, |env.heap|)
  {
  }

  lemma {:induction false} PropsDecode(
    ec: EncConfig, dc: Config, g: Graph, st: EncState, c: Clone, env: Env, dest: nat, props: Props, depth: nat,
    busy: set<nat>, tail: bytes, level: nat, inNs: bool) returns (env1: Env)
    requires Compatible(ec, dc) && GraphOk(ec, dc, g) && props != []
    requires Invariants.PropsOk(props) && PropsFit(ec, dc, g, props) && NamesOf(g, props) && dest < |c.heap|
    requires forall i, j :: 0 <= i < |c.heap[dest]| && 0 <= j < |props| ==> c.heap[dest][i].key != props[j].key
    requires InStep(ec, dc, g, st, c, env, inNs) && level <= dc.maxDepth
    requires EncProps(ec, g, st, props, depth, busy).Ok?
    ensures var o := EncProps(ec, g, st, props, depth, busy).value;
            if level + NestProps(ec, g, st, props, depth, busy, true) <= dc.maxDepth then
              && InStep(ec, dc, g, o.st, CloneProps(ec, dc, g, c, dest, props, Room(ec, depth)), env1, inNs) && Grows(env, env1)
              && Pairs(dc, env, o.out + tail, level, inNs, |props|, 0, dest) == Got(Obj(dest), env1, tail)
            else Pairs(dc, env, o.out + tail, level, inNs, |props|, 0, dest) == Failed(Depth)
    decreases Room(ec, depth), 5, |props|
  {
    hide Item, Grows, GraphOk, InStep, EncVal, EncKey, PutProperty, CloneVal, HasName, ValOk, NestVal, NestKey;
    InStepBasics(ec, dc, g, st, c, env, inNs);
    env1 := env;
    var key := EncKey(ec, st, props[0].key).value;
    var first := EncVal(ec, g, key.st, props[0].val, depth, busy).value;
    var rest := EncProps(ec, g, first.st, props[1..], depth, busy).value;
    var v := CloneVal(ec, dc, g, c, props[0].val, Room(ec, depth));
    Concat4(key.out, first.out, rest.out, tail);
    var env2, k := KeyDecodes(ec, dc, g, st, c, env, props[0].key, first.out + (rest.out + tail), level, inNs);
    if level + NestKey(ec, st, props[0].key, true) > dc.maxDepth {
      return;
    }
    var env3 := ValDecodes(ec, dc, g, key.st, c, env2, props[0].val, depth, busy, rest.out + tail, level, inNs);
    if level + NestVal(ec, g, key.st, props[0].val, depth, busy, true) > dc.maxDepth {
      return;
    }
    var c4, env4 := AddProp(v.clone, dest, props[0].key, v.val), env3.(heap := AddProp(v.clone, dest, props[0].key, v.val).heap);
    CloneValExtends(ec, dc, g, c, props[0].val, Room(ec, depth));
    PropertyAdded(ec, dc, g, first.st, c, v, env3, dest, props[0].key, k, inNs);
    GrowsOn(env, env2, env2, env3);
    InStepBasics(ec, dc, g, first.st, c4, env4, inNs);
    GrowsOn(env, env3, env4, env4);
    if |props| == 1 {
      env1 := env4;
      assert rest.out + tail == tail;
    } else {
      env1 := PropsDecode(ec, dc, g, first.st, c4, env4, dest, props[1..], depth, busy, tail, level, inNs);
      GrowsOn(env, env3, env4, env1);
    }
  }

  /** Setting a property that is new to the object appends it. */
  lemma PropertyAdded(
    ec: EncConfig, dc: Config, g: Graph, st: EncState, c: Clone, v: Cloned, env: Env, dest: nat, name: bytes, key: Val,
    inNs: bool)
    requires Extends(c, v.clone) && dest < |c.heap| && InStep(ec, dc, g, st, v.clone, env, inNs)
    requires forall i :: 0 <= i < |c.heap[dest]| ==> c.heap[dest][i].key != name
    requires KeyName(key) == name && !IsBigInt(v.val) && (name == [] || name[0] != 0)
    ensures var c1 := AddProp(v.clone, dest, name, v.val);
            && PutProperty(dc, env, dest, key, v.val) == Ok(env.(heap := c1.heap))
            && InStep(ec, dc, g, st, c1, env.(heap := c1.heap), inNs)
  {
    NewKeyIsAppended(c.heap[dest], name, v.val);
  }
}
