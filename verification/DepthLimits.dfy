/**
 Depth limits. The encoder refuses a value for its depth exactly if it takes more levels than the limit,
 and the decoder refuses the encoding exactly if the levels it needs are more than its own limit. Empty
 containers cost nothing on either side. The two numbers differ by the tags that one side does not count:
 those of references, and those in front of the value.
 */
module DepthLimits {
  import opened Bytes
  import opened Wrappers
  import opened Values
  import opened Wire
  import opened DecoderConfig
  import opened Encoder
  import opened Cloning
  import opened Nesting
  import opened Lockstep
  import opened RoundTrip
  import opened StringRefs
  import DecodeContext

  function Limit(ec: EncConfig, m: nat): EncConfig { ec.(maxDepth := m) }

  /** With another depth limit the outcome is the same if the value fits, and the error for the depth if not. */
  predicate Limited(ec: EncConfig, r: R<Out>, limited: R<Out>, fits: bool) {
    r.Ok? ==> (limited == r || limited == Err(Depth)) && (!ec.cde ==> (limited.Ok? <==> fits))
  }

  lemma {:induction false} ValLimited(ec: EncConfig, m: nat, g: Graph, st: EncState, v: Val, depth: nat, busy: set<nat>)
    ensures Limited(ec, EncVal(ec, g, st, v, depth, busy), EncVal(Limit(ec, m), g, st, v, depth, busy),
                    depth + NestVal(ec, g, st, v, depth, busy, false) <= m)
    decreases Room(ec, depth), 4
  {
    hide EncString, Write, ScalarToken, EncElems, EncObject, EncTag, NestElems, NestObject, Inside;
    if depth <= ec.maxDepth && depth <= m {
      match v
      case List(elems) => ListLimited(ec, m, g, st, elems, depth, busy);
      case Obj(id) => ObjectLimited(ec, m, g, st, id, depth, busy);
      case Tag(tag, content) => TagLimited(ec, m, g, st, tag, content, depth, busy);
      case _ => LeafLimited(ec, m, g, st, v, depth, busy);
    }
  }

  lemma LeafLimited(ec: EncConfig, m: nat, g: Graph, st: EncState, v: Val, depth: nat, busy: set<nat>)
    requires depth <= ec.maxDepth && depth <= m && IsLeaf(v)
    ensures EncVal(Limit(ec, m), g, st, v, depth, busy) == EncVal(ec, g, st, v, depth, busy)
    ensures NestVal(ec, g, st, v, depth, busy, false) == 0
  {
    hide EncString, Write, ScalarToken;
    match v
    case Str(s) => StringLimited(ec, m, st, s, ec.strings.AsText?);
    case ByteStr(s) => StringLimited(ec, m, st, s, false);
    case TextStr(s) => StringLimited(ec, m, st, s, true);
    case List(_) =>
    case Obj(_) =>
    case Tag(_, _) =>
    case _ => ScalarLimited(ec, m, v);
  }

  lemma {:induction false} ListLimited(
    ec: EncConfig, m: nat, g: Graph, st: EncState, elems: seq<Val>, depth: nat, busy: set<nat>)
    requires depth <= ec.maxDepth && depth <= m
    ensures Limited(ec, EncVal(ec, g, st, List(elems), depth, busy), EncVal(Limit(ec, m), g, st, List(elems), depth, busy),
                    depth + NestVal(ec, g, st, List(elems), depth, busy, false) <= m)
    decreases Room(ec, depth), 3
  {
    hide Write, EncElems, NestElems;
    ElemsLimited(ec, m, g, st, elems, depth + 1, busy);
  }

  lemma StringLimited(ec: EncConfig, m: nat, st: EncState, s: bytes, isText: bool)
    ensures EncString(Limit(ec, m), st, s, isText) == EncString(ec, st, s, isText)
    ensures EncString(ec, st, s, isText) != Err(Depth)
  {
  }

  lemma ScalarLimited(ec: EncConfig, m: nat, v: Val)
    requires IsScalar(v)
    ensures ScalarToken(Limit(ec, m), v) == ScalarToken(ec, v)
  {
  }

  lemma KeyLimited(ec: EncConfig, m: nat, st: EncState, name: bytes)
    ensures EncKey(Limit(ec, m), st, name) == EncKey(ec, st, name)
  {
    hide EncString;
    StringLimited(ec, m, st, name, ec.keys.AsText?);
  }

  lemma {:induction false} ElemsLimited(
    ec: EncConfig, m: nat, g: Graph, st: EncState, elems: seq<Val>, depth: nat, busy: set<nat>)
    ensures Limited(ec, EncElems(ec, g, st, elems, depth, busy), EncElems(Limit(ec, m), g, st, elems, depth, busy),
                    elems == [] || depth + NestElems(ec, g, st, elems, depth, busy, false) <= m)
    decreases Room(ec, depth), 5, |elems|
  {
    hide EncVal;
    if elems != [] {
      ValLimited(ec, m, g, st, elems[0], depth, busy);
      var first := EncVal(ec, g, st, elems[0], depth, busy);
      if first.Ok? {
        ElemsLimited(ec, m, g, first.value.st, elems[1..], depth, busy);
      }
    }
  }

  lemma {:induction false} ObjectLimited(
    ec: EncConfig, m: nat, g: Graph, st: EncState, id: nat, depth: nat, busy: set<nat>)
    requires depth <= ec.maxDepth && depth <= m
    ensures Limited(ec, EncObject(ec, g, st, id, depth, busy), EncObject(Limit(ec, m), g, st, id, depth, busy),
                    depth + NestObject(ec, g, st, id, depth, busy, false) <= m)
    decreases Room(ec, depth), 3
  {
    hide EncHash, Write;
    HashLimited(ec, m, g, st, id, depth, busy);
    HashLimited(ec, m, g, Number(st, id), id, depth, busy);
  }

  lemma {:induction false} HashLimited(ec: EncConfig, m: nat, g: Graph, st: EncState, id: nat, depth: nat, busy: set<nat>)
    requires depth <= ec.maxDepth && depth <= m
    ensures Limited(ec, EncHash(ec, g, st, id, depth, busy), EncHash(Limit(ec, m), g, st, id, depth, busy),
                    depth + NestHash(ec, g, st, id, depth, busy, false) <= m)
    decreases Room(ec, depth), 2
  {
    hide EncProps, EncKeys, EncEntries, Write;
    if id < |g.heap| {
      PropsLimited(ec, m, g, st, g.heap[id], depth + 1, busy + {id});
      KeysLimited(ec, m, st, g.heap[id]);
      var keyed := EncKeys(ec, st, g.heap[id]);
      if keyed.Ok? && ec.cde {
        EntriesLimited(ec, m, g, keyed.value.1, SortByKey(keyed.value.0), depth + 1, busy);
      }
    }
  }

  lemma {:induction false} PropsLimited(
    ec: EncConfig, m: nat, g: Graph, st: EncState, props: Props, depth: nat, busy: set<nat>)
    ensures Limited(ec, EncProps(ec, g, st, props, depth, busy), EncProps(Limit(ec, m), g, st, props, depth, busy),
                    props == [] || depth + NestProps(ec, g, st, props, depth, busy, false) <= m)
    decreases Room(ec, depth), 5, |props|
  {
    hide EncVal, EncKey;
    if props != [] {
      KeyLimited(ec, m, st, props[0].key);
      var key := EncKey(ec, st, props[0].key);
      if key.Ok? {
        ValLimited(ec, m, g, key.value.st, props[0].val, depth, busy);
        var first := EncVal(ec, g, key.value.st, props[0].val, depth, busy);
        if first.Ok? {
          PropsLimited(ec, m, g, first.value.st, props[1..], depth, busy);
        }
      }
    }
  }

  lemma {:induction false} KeysLimited(ec: EncConfig, m: nat, st: EncState, props: Props)
    ensures EncKeys(Limit(ec, m), st, props) == EncKeys(ec, st, props)
    decreases |props|
  {
    hide EncKey;
    if props != [] {
      KeyLimited(ec, m, st, props[0].key);
      var key := EncKey(ec, st, props[0].key);
      if key.Ok? {
        KeysLimited(ec, m, key.value.st, props[1..]);
      }
    }
  }

  lemma {:induction false} EntriesLimited(
    ec: EncConfig, m: nat, g: Graph, st: EncState, entries: seq<Entry>, depth: nat, busy: set<nat>)
    requires ec.cde
    ensures Limited(ec, EncEntries(ec, g, st, entries, depth, busy), EncEntries(Limit(ec, m), g, st, entries, depth, busy), true)
    decreases Room(ec, depth), 5, |entries|
  {
    hide EncVal;
    if entries != [] {
      ValLimited(ec, m, g, st, entries[0].val, depth, busy);
      var first := EncVal(ec, g, st, entries[0].val, depth, busy);
      if first.Ok? {
        EntriesLimited(ec, m, g, first.value.st, entries[1..], depth, busy);
      }
    }
  }

  lemma {:induction false} TagLimited(
    ec: EncConfig, m: nat, g: Graph, st: EncState, tag: int, content: Val, depth: nat, busy: set<nat>)
    requires depth <= ec.maxDepth && depth <= m
    ensures Limited(ec, EncTag(ec, g, st, tag, content, depth, busy), EncTag(Limit(ec, m), g, st, tag, content, depth, busy),
                    depth + 1 + NestVal(ec, g, Inside(ec, st, tag), content, depth + 1, busy, false) <= m)
    decreases Room(ec, depth), 3
  {
    hide EncVal, Write;
    ValLimited(ec, m, g, st, content, depth + 1, busy);
    ValLimited(ec, m, g, st.(srns := Some(NEW_SRNS)), content, depth + 1, busy);
  }

  // ----- Whole encodings -----

  /** Levels of the decoder that are enough for whatever the encoder lets pass. */
  predicate DepthOk(ec: EncConfig, dc: Config, v: Val) { RootLevels(ec, dc, v) + WithTags(ec, ec.maxDepth) <= dc.maxDepth }

  /** The levels that the encoder counts. */
  function Count(ec: EncConfig, g: Graph, v: Val): nat { NestVal(ec, g, InitialState(ec), v, 0, {}, false) }

  /** Under the limit `m` a value is encoded, to the same bytes, exactly if it takes no more levels. */
  lemma EncoderLimit(ec: EncConfig, g: Graph, v: Val, m: nat)
    requires !ec.cde && Encode(ec, g, v).Ok?
    ensures Encode(Limit(ec, m), g, v) == if Count(ec, g, v) <= m then Encode(ec, g, v) else Err(Depth)
  {
    hide EncVal, NestVal, Write;
    ValLimited(ec, m, g, InitialState(ec), v, 0, {});
  }

  /** What the decoder needs lies between what the encoder counts and twice as much, root tags apart. */
  lemma NeedsBounded(ec: EncConfig, dc: Config, g: Graph, v: Val)
    requires !ec.cde && Encode(ec, g, v).Ok?
    ensures Count(ec, g, v) <= Needs(ec, dc, g, v) - RootLevels(ec, dc, v) <= WithTags(ec, Count(ec, g, v))
  {
    hide EncVal, NestVal, Write;
    ValBounded(ec, g, InitialState(ec), v, 0, {});
  }

  lemma DepthSuffices(ec: EncConfig, dc: Config, g: Graph, v: Val)
    requires !ec.cde && Encode(ec, g, v).Ok? && DepthOk(ec, dc, v)
    ensures Needs(ec, dc, g, v) <= dc.maxDepth
  {
    hide Encode, NestVal;
    EncoderLimit(ec, g, v, ec.maxDepth);
    assert Limit(ec, ec.maxDepth) == ec;
    NeedsBounded(ec, dc, g, v);
  }

  /** No reference is emitted: the encoding is the plain one behind the namespace tag. */
  predicate NoReference(ec: EncConfig, g: Graph, v: Val) {
    && Encode(ec, g, v).Ok? && Encode(Without(ec), g, v).Ok?
    && |Encode(ec, g, v).value| == |Encode(Without(ec), g, v).value| + |NsHead(ec)|
  }

  lemma NoTagsInside(ec: EncConfig, dc: Config, g: Graph, v: Val)
    requires !ec.cde && !ec.sharedRef && NoReference(ec, g, v)
    ensures Needs(ec, dc, g, v) == RootLevels(ec, dc, v) + Count(ec, g, v)
  {
    hide EncVal, NestVal, Write;
    NamespaceTag(ec);
    ValNoLonger(ec, g, InitialState(ec), v, 0, {});
  }

  /**
   The depth limits agree up to the tags in front of the value: without sharing, and if no reference is
   emitted, the decoder under the limit `m` reports the error for the depth exactly if the encoder does
   under `m` less those levels; otherwise it reports no error. There is one level for the namespace, one for
   a self-describe tag that is kept, and one less for a tag of the value that is taken for the prefix.
   */
  lemma DepthLimitsAgree(ec: EncConfig, dc: Config, g: Graph, v: Val)
    requires Compatible(ec, dc) && GraphOk(ec, dc, g) && ValOk(ec, dc, g, v)
    requires !ec.sharedRef && NoReference(ec, g, v)
    ensures var m := dc.maxDepth - RootLevels(ec, dc, v);
            var d := DecodeContext.DecodeAll(dc, Encode(ec, g, v).value);
            if m >= 0 && Encode(Limit(ec, m), g, v).Ok? then d.Ok? else d == Err(Depth)
  {
    hide Encode, GraphOk, ValOk, DecodeContext.DecodeAll, RootLevels, Needs, Count;
    EncodingDecodes(ec, dc, g, v);
    NoTagsInside(ec, dc, g, v);
    var m := dc.maxDepth - RootLevels(ec, dc, v);
    if m >= 0 {
      EncoderLimit(ec, g, v, m);
    }
  }

  /** Without references of either kind and with no tag in front, the same limit does on both sides. */
  lemma SameLimitAgrees(ec: EncConfig, dc: Config, g: Graph, v: Val)
    requires Compatible(ec, dc) && GraphOk(ec, dc, g) && ValOk(ec, dc, g, v) && Encode(ec, g, v).Ok?
    requires ec.stringRef.Off? && !ec.sharedRef && !LosesTag(ec, dc, v) && !(ec.selfDescribe && dc.selfDescribe)
    ensures var d := DecodeContext.DecodeAll(dc, Encode(ec, g, v).value);
            if Encode(Limit(ec, dc.maxDepth), g, v).Ok? then d.Ok? else d == Err(Depth)
  {
    hide Encode, GraphOk, ValOk, DecodeContext.DecodeAll;
    assert Without(ec) == ec && |NsHead(ec)| == 0;
    DepthLimitsAgree(ec, dc, g, v);
  }

  /**
   The implicit namespace tag costs the decoder a level that the encoder does not count: under one limit
   on both sides, a value that takes all the levels is encoded and not decoded.
   */
  lemma NamespaceCostsLevel(ec: EncConfig, dc: Config, g: Graph, v: Val)
    requires Compatible(ec, dc) && GraphOk(ec, dc, g) && ValOk(ec, dc, g, v) && ec.stringRef.On?
    requires Encode(ec, g, v).Ok? && ec.maxDepth == dc.maxDepth == Count(ec, g, v)
    ensures DecodeContext.DecodeAll(dc, Encode(ec, g, v).value) == Err(Depth)
  {
    hide Encode, GraphOk, ValOk, DecodeContext.DecodeAll, Needs, Count;
    EncodingDecodes(ec, dc, g, v);
    NeedsBounded(ec, dc, g, v);
  }

  /** One such value: a list with an element, under the limit 1. */
  lemma NamespaceCostsLevelOfList(ec: EncConfig, dc: Config)
    requires Compatible(ec, dc) && ec.stringRef.On? && ec.maxDepth == dc.maxDepth == 1 && dc.maxSize > 0
    ensures var g, v := Graph([], {}), List([Val.Null]);
            Encode(ec, g, v).Ok? && DecodeContext.DecodeAll(dc, Encode(ec, g, v).value) == Err(Depth)
  {
    var g, v, st := Graph([], {}), List([Val.Null]), InitialState(ec);
    assert EncVal(ec, g, st, Val.Null, 1, {}).Ok? && EncVal(ec, g, st, Val.Null, 1, {}).value.st == st;
    assert [Val.Null][1..] == [];
    assert EncElems(ec, g, st, [], 1, {}) == Ok(Out([], st));
    assert EncElems(ec, g, st, [Val.Null], 1, {}).Ok?;
    assert NestElems(ec, g, st, [], 1, {}, false) == 0;
    assert NestElems(ec, g, st, [Val.Null], 1, {}, false) == 0;
    hide EncVal, NestElems, DecodeContext.DecodeAll;
    NamespaceCostsLevel(ec, dc, g, v);
  }
}
