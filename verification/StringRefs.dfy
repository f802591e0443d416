/**
 String references are worth their while: an encoding with references is at most three bytes longer than
 without (the namespace tag), and needs at most one level more for them.
 */
module StringRefs {
  import opened Bytes
  import opened Wrappers
  import opened Values
  import opened Wire
  import opened DecoderConfig
  import opened Encoder
  import opened Cloning
  import opened Nesting
  import opened Lockstep
  import opened RoundTrip
  import DecodeContext
  import Utf8

  /** Each string in a table is as long as it must be for its own number. */
  predicate TableOk(cfg: EncConfig, table: map<bytes, nat>, next: nat, isText: bool) {
    forall s :: s in table ==>
      table[s] < next && IsLenStringRef(|s|, table[s]) && (isText && !cfg.unsafeText ==> Utf8.Valid(s))
  }

  predicate SrnsOk(cfg: EncConfig, srns: Option<Srns>) {
    srns.Some? ==>
      && srns.value.next < UINT32_LIMIT
      && TableOk(cfg, srns.value.byteTable, srns.value.next, false)
      && TableOk(cfg, srns.value.textTable, srns.value.next, true)
  }

  function Reference(index: nat): bytes { Write(TagHead(TAG_STRING_REF)) + Write(UInt(index)) }

  /** The threshold is where a reference becomes strictly shorter than the string it stands for. */
  lemma ReferenceIsShorter(s: bytes, isText: bool, index: nat)
    ensures IsLenStringRef(|s|, index) <==> |Reference(index)| < |Write(StringToken(s, isText))|
  {
  }

  /**
   A string that has a number is written as a reference. Any other is written in full, and gets the next
   number exactly if a reference would have been shorter.
   */
  lemma NumberedIffShorter(ec: EncConfig, st: EncState, s: bytes, isText: bool)
    requires st.srns.Some? && EncString(ec, st, s, isText).Ok?
    ensures var srns, o := st.srns.value, EncString(ec, st, s, isText).value;
            if s in Table(srns, isText) then o == Out(Reference(Table(srns, isText)[s]), st)
            else
              && o.out == Write(StringToken(s, isText)) && o.st.srns.Some?
              && (s in Table(o.st.srns.value, isText) <==> |Reference(srns.next)| < |o.out|)
              && (s in Table(o.st.srns.value, isText) ==> Table(o.st.srns.value, isText)[s] == srns.next)
  {
    ReferenceIsShorter(s, isText, st.srns.value.next);
    hide Write, IsLenStringRef, Utf8.Valid;
  }

  function Without(ec: EncConfig): EncConfig { ec.(stringRef := Off) }

  function Forget(st: EncState): EncState { st.(srns := None) }

  /**
   The encoding without references exists, is not shorter, and leads to the same numbers of objects. It
   needs at most one level less. If it is not longer either then there is no reference, so that without
   sharing the decoder needs the levels that the encoder counts.
   */
  ghost predicate NoLonger(ec: EncConfig, r: R<Out>, plain: R<Out>, count: nat, need: nat, plainNeed: nat) {
    r.Ok? ==>
      && plain.Ok? && |r.value.out| <= |plain.value.out| && plain.value.st == Forget(r.value.st) && SrnsOk(ec, r.value.st.srns)
      && plainNeed <= need <= plainNeed + 1
      && (|r.value.out| == |plain.value.out| && !ec.sharedRef ==> need == count)
  }

  /** A string that gets a number is long enough for it. */
  lemma AddedOk(ec: EncConfig, srns: Srns, s: bytes, isText: bool)
    requires SrnsOk(ec, Some(srns)) && IsLenStringRef(|s|, srns.next) && srns.next != UINT32_LIMIT - 1
    requires isText && !ec.unsafeText ==> Utf8.Valid(s)
    ensures SrnsOk(ec, Some(AddString(srns, s, isText)))
  {
    hide IsLenStringRef, Utf8.Valid;
  }

  lemma FoundOk(ec: EncConfig, srns: Srns, s: bytes, isText: bool)
    requires SrnsOk(ec, Some(srns)) && s in Table(srns, isText)
    ensures Table(srns, isText)[s] < UINT32_LIMIT && IsLenStringRef(|s|, Table(srns, isText)[s])
    ensures isText && !ec.unsafeText ==> Utf8.Valid(s)
  {
    hide IsLenStringRef, Utf8.Valid;
  }

  lemma StringNoLonger(ec: EncConfig, st: EncState, s: bytes, isText: bool)
    requires SrnsOk(ec, st.srns)
    ensures NoLonger(ec, EncString(ec, st, s, isText), EncString(Without(ec), Forget(st), s, isText),
                     NestString(st, s, isText, false), NestString(st, s, isText, true), NestString(Forget(st), s, isText, true))
  {
    hide Write, IsLenStringRef, Utf8.Valid, SrnsOk, Table, AddString;
    if st.srns.Some? {
      var srns := st.srns.value;
      if s in Table(srns, isText) {
        FoundOk(ec, srns, s, isText);
        ReferenceIsShorter(s, isText, Table(srns, isText)[s]);
      } else if IsLenStringRef(|s|, srns.next) && srns.next != UINT32_LIMIT - 1
                && !(isText && !ec.unsafeText && !Utf8.Valid(s)) {
        AddedOk(ec, srns, s, isText);
      }
    }
  }

  lemma KeyNoLonger(ec: EncConfig, st: EncState, name: bytes)
    requires SrnsOk(ec, st.srns)
    ensures NoLonger(ec, EncKey(ec, st, name), EncKey(Without(ec), Forget(st), name),
                     NestKey(ec, st, name, false), NestKey(ec, st, name, true), NestKey(Without(ec), Forget(st), name, true))
  {
    hide EncString, Write;
    StringNoLonger(ec, st, name, ec.keys.AsText?);
  }

  lemma ScalarPlain(ec: EncConfig, v: Val)
    requires IsScalar(v)
    ensures ScalarToken(ec, v) == ScalarToken(Without(ec), v)
  {
  }

  lemma {:induction false} ValNoLonger(ec: EncConfig, g: Graph, st: EncState, v: Val, depth: nat, busy: set<nat>)
    requires SrnsOk(ec, st.srns) && !ec.cde
    ensures NoLonger(ec, EncVal(ec, g, st, v, depth, busy), EncVal(Without(ec), g, Forget(st), v, depth, busy),
                     NestVal(ec, g, st, v, depth, busy, false), NestVal(ec, g, st, v, depth, busy, true),
                     NestVal(Without(ec), g, Forget(st), v, depth, busy, true))
    decreases Room(ec, depth), 4
  {
    hide SrnsOk, EncString, Write, ScalarToken, EncElems, EncObject, EncTag, NestElems, NestObject, NestString, Inside;
    if depth <= ec.maxDepth {
      match v
      case List(elems) => ListNoLonger(ec, g, st, elems, depth, busy);
      case Obj(id) => ObjectNoLonger(ec, g, st, id, depth, busy);
      case Tag(tag, content) => TagNoLonger(ec, g, st, tag, content, depth, busy);
      case _ => LeafNoLonger(ec, g, st, v, depth, busy);
    }
  }

  lemma LeafNoLonger(ec: EncConfig, g: Graph, st: EncState, v: Val, depth: nat, busy: set<nat>)
    requires SrnsOk(ec, st.srns) && IsLeaf(v)
    ensures NoLonger(ec, EncVal(ec, g, st, v, depth, busy), EncVal(Without(ec), g, Forget(st), v, depth, busy),
                     NestVal(ec, g, st, v, depth, busy, false), NestVal(ec, g, st, v, depth, busy, true),
                     NestVal(Without(ec), g, Forget(st), v, depth, busy, true))
  {
    hide SrnsOk, EncString, Write, ScalarToken, NestString;
    match v
    case Str(s) => StringNoLonger(ec, st, s, ec.strings.AsText?);
    case ByteStr(s) => StringNoLonger(ec, st, s, false);
    case TextStr(s) => StringNoLonger(ec, st, s, true);
    case List(_) =>
    case Obj(_) =>
    case Tag(_, _) =>
    case _ => ScalarPlain(ec, v);
  }

  lemma {:induction false} ListNoLonger(
    ec: EncConfig, g: Graph, st: EncState, elems: seq<Val>, depth: nat, busy: set<nat>)
    requires SrnsOk(ec, st.srns) && !ec.cde && depth <= ec.maxDepth
    ensures NoLonger(ec, EncVal(ec, g, st, List(elems), depth, busy), EncVal(Without(ec), g, Forget(st), List(elems), depth, busy),
                     NestVal(ec, g, st, List(elems), depth, busy, false), NestVal(ec, g, st, List(elems), depth, busy, true),
                     NestVal(Without(ec), g, Forget(st), List(elems), depth, busy, true))
    decreases Room(ec, depth), 3
  {
    hide SrnsOk, Write, EncElems;
    ElemsNoLonger(ec, g, st, elems, depth + 1, busy);
  }

  lemma {:induction false} ElemsNoLonger(
    ec: EncConfig, g: Graph, st: EncState, elems: seq<Val>, depth: nat, busy: set<nat>)
    requires SrnsOk(ec, st.srns) && !ec.cde
    ensures NoLonger(ec, EncElems(ec, g, st, elems, depth, busy), EncElems(Without(ec), g, Forget(st), elems, depth, busy),
                     NestElems(ec, g, st, elems, depth, busy, false), NestElems(ec, g, st, elems, depth, busy, true),
                     NestElems(Without(ec), g, Forget(st), elems, depth, busy, true))
    decreases Room(ec, depth), 5, |elems|
  {
    hide SrnsOk, EncVal;
    if elems != [] {
      ValNoLonger(ec, g, st, elems[0], depth, busy);
      var first := EncVal(ec, g, st, elems[0], depth, busy);
      if first.Ok? {
        ElemsNoLonger(ec, g, first.value.st, elems[1..], depth, busy);
      }
    }
  }

  lemma {:induction false} ObjectNoLonger(ec: EncConfig, g: Graph, st: EncState, id: nat, depth: nat, busy: set<nat>)
    requires SrnsOk(ec, st.srns) && !ec.cde && depth <= ec.maxDepth
    ensures NoLonger(ec, EncObject(ec, g, st, id, depth, busy), EncObject(Without(ec), g, Forget(st), id, depth, busy),
                     NestObject(ec, g, st, id, depth, busy, false), NestObject(ec, g, st, id, depth, busy, true),
                     NestObject(Without(ec), g, Forget(st), id, depth, busy, true))
    decreases Room(ec, depth), 3
  {
    hide SrnsOk, Write, EncHash;
    HashNoLonger(ec, g, st, id, depth, busy);
    HashNoLonger(ec, g, Number(st, id), id, depth, busy);
  }

  lemma {:induction false} HashNoLonger(ec: EncConfig, g: Graph, st: EncState, id: nat, depth: nat, busy: set<nat>)
    requires SrnsOk(ec, st.srns) && !ec.cde && depth <= ec.maxDepth
    ensures NoLonger(ec, EncHash(ec, g, st, id, depth, busy), EncHash(Without(ec), g, Forget(st), id, depth, busy),
                     NestHash(ec, g, st, id, depth, busy, false), NestHash(ec, g, st, id, depth, busy, true),
                     NestHash(Without(ec), g, Forget(st), id, depth, busy, true))
    decreases Room(ec, depth), 2
  {
    hide SrnsOk, Write, EncProps;
    if id < |g.heap| {
      PropsNoLonger(ec, g, st, g.heap[id], depth + 1, busy + {id});
    }
  }

  lemma {:induction false} PropsNoLonger(ec: EncConfig, g: Graph, st: EncState, props: Props, depth: nat, busy: set<nat>)
    requires SrnsOk(ec, st.srns) && !ec.cde
    ensures NoLonger(ec, EncProps(ec, g, st, props, depth, busy), EncProps(Without(ec), g, Forget(st), props, depth, busy),
                     NestProps(ec, g, st, props, depth, busy, false), NestProps(ec, g, st, props, depth, busy, true),
                     NestProps(Without(ec), g, Forget(st), props, depth, busy, true))
    decreases Room(ec, depth), 5, |props|
  {
    hide SrnsOk, EncVal, EncKey;
    if props != [] {
      KeyNoLonger(ec, st, props[0].key);
      var key := EncKey(ec, st, props[0].key);
      if key.Ok? {
        ValNoLonger(ec, g, key.value.st, props[0].val, depth, busy);
        var first := EncVal(ec, g, key.value.st, props[0].val, depth, busy);
        if first.Ok? {
          PropsNoLonger(ec, g, first.value.st, props[1..], depth, busy);
        }
      }
    }
  }

  lemma TagNest(
    ec: EncConfig, g: Graph, st: EncState, tag: int, content: Val, depth: nat, busy: set<nat>, tags: bool)
    requires depth <= ec.maxDepth
    ensures NestVal(ec, g, st, Tag(tag, content), depth, busy, tags)
            == 1 + NestVal(ec, g, Inside(ec, st, tag), content, depth + 1, busy, tags)
  {
  }

  lemma {:induction false} TagNoLonger(
    ec: EncConfig, g: Graph, st: EncState, tag: int, content: Val, depth: nat, busy: set<nat>)
    requires SrnsOk(ec, st.srns) && !ec.cde && depth <= ec.maxDepth
    ensures NoLonger(ec, EncTag(ec, g, st, tag, content, depth, busy),
                     EncTag(Without(ec), g, Forget(st), tag, content, depth, busy),
                     NestVal(ec, g, st, Tag(tag, content), depth, busy, false),
                     NestVal(ec, g, st, Tag(tag, content), depth, busy, true),
                     NestVal(Without(ec), g, Forget(st), Tag(tag, content), depth, busy, true))
    decreases Room(ec, depth), 3
  {
    NamespaceTag(ec);
    hide SrnsOk, EncVal, Write;
    TagNest(ec, g, st, tag, content, depth, busy, true);
    TagNest(ec, g, st, tag, content, depth, busy, false);
    TagNest(Without(ec), g, Forget(st), tag, content, depth, busy, true);
    hide NestVal;
    ValNoLonger(ec, g, st, content, depth + 1, busy);
    ValNoLonger(ec, g, st.(srns := Some(NEW_SRNS)), content, depth + 1, busy);
  }

  lemma NamespaceTag(ec: EncConfig)
    ensures |Write(TagHead(TAG_STRING_REF_NS))| == 3 && SrnsOk(ec, Some(NEW_SRNS)) && SrnsOk(ec, None)
  {
    BigEndian2(TAG_STRING_REF_NS);
  }

  /** References cost at most the namespace tag. */
  lemma CostAtMostThree(ec: EncConfig, g: Graph, v: Val)
    requires !ec.cde && Encode(ec, g, v).Ok?
    ensures var plain := Encode(Without(ec), g, v);
            plain.Ok? && |Encode(ec, g, v).value| <= |plain.value| + if ec.stringRef.On? then 3 else 0
  {
    hide EncVal, Write, SrnsOk;
    NamespaceTag(ec);
    ValNoLonger(ec, g, InitialState(ec), v, 0, {});
  }
}
