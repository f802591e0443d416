/**
 How many levels an encoding takes. A container with something in it and a tag take one level around
 what they hold. For the decoder (`tags` is true) the tags of string references and of value sharing
 are levels like other tags; the encoder does not count them.
 */
module Nesting {
  import opened Bytes
  import opened Wrappers
  import opened Values
  import opened Wire
  import opened DecoderConfig
  import opened Encoder
  import opened Cloning
  import DecimalInt

  function One(b: bool): nat { if b then 1 else 0 }

  predicate IsReference(st: EncState, s: bytes, isText: bool) { st.srns.Some? && s in Table(st.srns.value, isText) }

  function NestString(st: EncState, s: bytes, isText: bool, tags: bool): nat { One(tags && IsReference(st, s, isText)) }

  predicate IsStringKey(ec: EncConfig, name: bytes) {
    !ec.keys.NoFlag? && !(ec.intKey && DecimalInt.Parse(name).Some?)
  }

  function NestKey(ec: EncConfig, st: EncState, name: bytes, tags: bool): nat {
    if IsStringKey(ec, name) then NestString(st, name, ec.keys.AsText?, tags) else 0
  }

  /** The levels taken by the value; as far as it can be encoded. */
  function NestVal(ec: EncConfig, g: Graph, st: EncState, v: Val, depth: nat, busy: set<nat>, tags: bool): nat
    decreases Room(ec, depth), 4
  {
    if depth > ec.maxDepth then 0
    else
      match v
      case Str(s) => NestString(st, s, ec.strings.AsText?, tags)
      case ByteStr(s) => NestString(st, s, false, tags)
      case TextStr(s) => NestString(st, s, true, tags)
      case List(elems) => if elems == [] then 0 else 1 + NestElems(ec, g, st, elems, depth + 1, busy, tags)
      case Obj(id) => NestObject(ec, g, st, id, depth, busy, tags)
      case Tag(tag, content) => 1 + NestVal(ec, g, Inside(ec, st, tag), content, depth + 1, busy, tags)
      case _ => 0
  }

  /** The state inside a tag. */
  function Inside(ec: EncConfig, st: EncState, tag: int): EncState {
    if OpensNamespace(ec, tag) then st.(srns := Some(NEW_SRNS)) else st
  }

  function NestElems(ec: EncConfig, g: Graph, st: EncState, elems: seq<Val>, depth: nat, busy: set<nat>, tags: bool): nat
    decreases Room(ec, depth), 5, |elems|
  {
    if elems == [] then 0
    else
      var first := EncVal(ec, g, st, elems[0], depth, busy);
      Max(NestVal(ec, g, st, elems[0], depth, busy, tags),
          if first.Ok? then NestElems(ec, g, first.value.st, elems[1..], depth, busy, tags) else 0)
  }

  function NestObject(ec: EncConfig, g: Graph, st: EncState, id: nat, depth: nat, busy: set<nat>, tags: bool): nat
    requires depth <= ec.maxDepth
    decreases Room(ec, depth), 3
  {
    if !IsShared(ec, g, id) then NestHash(ec, g, st, id, depth, busy, tags)
    else One(tags) + if id in st.refs then 0 else NestHash(ec, g, Number(st, id), id, depth, busy, tags)
  }

  function NestHash(ec: EncConfig, g: Graph, st: EncState, id: nat, depth: nat, busy: set<nat>, tags: bool): nat
    requires depth <= ec.maxDepth
    decreases Room(ec, depth), 2
  {
    if id >= |g.heap| || g.heap[id] == [] then 0
    else 1 + NestProps(ec, g, st, g.heap[id], depth + 1, busy + {id}, tags)
  }

  function NestProps(ec: EncConfig, g: Graph, st: EncState, props: Props, depth: nat, busy: set<nat>, tags: bool): nat
    decreases Room(ec, depth), 5, |props|
  {
    if props == [] then 0
    else
      var key := EncKey(ec, st, props[0].key);
      if key.Err? then 0
      else
        var first := EncVal(ec, g, key.value.st, props[0].val, depth, busy);
        Max(NestKey(ec, st, props[0].key, tags),
            Max(NestVal(ec, g, key.value.st, props[0].val, depth, busy, tags),
                if first.Ok? then NestProps(ec, g, first.value.st, props[1..], depth, busy, tags) else 0))
  }

  // ----- Levels for both sides -----

  /** The most levels the decoder may need where `n` are counted by the encoder. */
  function WithTags(ec: EncConfig, n: nat): nat {
    if ec.sharedRef then 2 * n + 1 else if ec.stringRef.Off? then n else n + 1
  }

  predicate StateOk(ec: EncConfig, st: EncState) { st.srns.Some? ==> !ec.stringRef.Off? }

  predicate Bounded(ec: EncConfig, r: R<Out>, count: nat, need: nat) {
    r.Ok? ==> StateOk(ec, r.value.st) && count <= need <= WithTags(ec, count)
  }

  lemma StringBounded(ec: EncConfig, st: EncState, s: bytes, isText: bool)
    requires StateOk(ec, st)
    ensures Bounded(ec, EncString(ec, st, s, isText), NestString(st, s, isText, false), NestString(st, s, isText, true))
  {
    hide Write;
  }

  lemma KeyBounded(ec: EncConfig, st: EncState, name: bytes)
    requires StateOk(ec, st)
    ensures Bounded(ec, EncKey(ec, st, name), NestKey(ec, st, name, false), NestKey(ec, st, name, true))
  {
    hide EncString, Write;
    StringBounded(ec, st, name, ec.keys.AsText?);
  }

  lemma {:induction false} ValBounded(ec: EncConfig, g: Graph, st: EncState, v: Val, depth: nat, busy: set<nat>)
    requires !ec.cde && StateOk(ec, st)
    ensures Bounded(ec, EncVal(ec, g, st, v, depth, busy), NestVal(ec, g, st, v, depth, busy, false),
                    NestVal(ec, g, st, v, depth, busy, true))
    decreases Room(ec, depth), 4
  {
    hide EncString, Write, ScalarToken, EncElems, EncHash, NestElems, NestHash, NestString;
    if depth <= ec.maxDepth {
      match v
      case Str(s) => StringBounded(ec, st, s, ec.strings.AsText?);
      case ByteStr(s) => StringBounded(ec, st, s, false);
      case TextStr(s) => StringBounded(ec, st, s, true);
      case List(elems) => ElemsBounded(ec, g, st, elems, depth + 1, busy);
      case Obj(id) =>
        HashBounded(ec, g, st, id, depth, busy);
        HashBounded(ec, g, Number(st, id), id, depth, busy);
      case Tag(tag, content) => ValBounded(ec, g, Inside(ec, st, tag), content, depth + 1, busy);
      case _ =>
    }
  }

  lemma {:induction false} ElemsBounded(ec: EncConfig, g: Graph, st: EncState, elems: seq<Val>, depth: nat, busy: set<nat>)
    requires !ec.cde && StateOk(ec, st)
    ensures Bounded(ec, EncElems(ec, g, st, elems, depth, busy), NestElems(ec, g, st, elems, depth, busy, false),
                    NestElems(ec, g, st, elems, depth, busy, true))
    decreases Room(ec, depth), 5, |elems|
  {
    hide EncVal, NestVal;
    if elems != [] {
      ValBounded(ec, g, st, elems[0], depth, busy);
      var first := EncVal(ec, g, st, elems[0], depth, busy);
      if first.Ok? {
        ElemsBounded(ec, g, first.value.st, elems[1..], depth, busy);
      }
    }
  }

  /** The tag of a shared object comes on top of this. */
  lemma {:induction false} HashBounded(ec: EncConfig, g: Graph, st: EncState, id: nat, depth: nat, busy: set<nat>)
    requires !ec.cde && StateOk(ec, st) && depth <= ec.maxDepth
    ensures EncHash(ec, g, st, id, depth, busy).Ok? ==>
              && StateOk(ec, EncHash(ec, g, st, id, depth, busy).value.st)
              && NestHash(ec, g, st, id, depth, busy, false) <= NestHash(ec, g, st, id, depth, busy, true)
              && NestHash(ec, g, st, id, depth, busy, true) + One(ec.sharedRef)
                 <= WithTags(ec, NestHash(ec, g, st, id, depth, busy, false))
    decreases Room(ec, depth), 2
  {
    hide EncProps, NestProps, Write;
    if id < |g.heap| {
      PropsBounded(ec, g, st, g.heap[id], depth + 1, busy + {id});
    }
  }

  lemma {:induction false} PropsBounded(ec: EncConfig, g: Graph, st: EncState, props: Props, depth: nat, busy: set<nat>)
    requires !ec.cde && StateOk(ec, st)
    ensures Bounded(ec, EncProps(ec, g, st, props, depth, busy), NestProps(ec, g, st, props, depth, busy, false),
                    NestProps(ec, g, st, props, depth, busy, true))
    decreases Room(ec, depth), 5, |props|
  {
    hide EncVal, EncKey, NestVal, NestKey;
    if props != [] {
      KeyBounded(ec, st, props[0].key);
      var key := EncKey(ec, st, props[0].key);
      if key.Ok? {
        ValBounded(ec, g, key.value.st, props[0].val, depth, busy);
        var first := EncVal(ec, g, key.value.st, props[0].val, depth, busy);
        if first.Ok? {
          PropsBounded(ec, g, first.value.st, props[1..], depth, busy);
        }
      }
    }
  }
}
