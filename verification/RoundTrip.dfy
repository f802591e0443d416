/**
 Whole encodings: what `cbor_encode` returns is decoded by `cbor_decode`, with nothing left over, to
 the clone of the value. String references make no difference to the result.
 */
module RoundTrip {
  import opened Bytes
  import opened Wrappers
  import opened Values
  import opened Wire
  import opened DecoderConfig
  import opened RecursiveDecoder
  import opened StackMachine
  import opened Refinement
  import opened Encoder
  import opened Cloning
  import opened Nesting
  import opened Lockstep
  import DecodeContext

  lemma SelfDescribeBytes()
    ensures Write(TagHead(TAG_SELF_DESCRIBE)) == SELF_DESCRIBE
  {
    BigEndian2(TAG_SELF_DESCRIBE);
  }

  /** Only the self-describe tag looks like the prefix. */
  lemma NoPrefix(t: Token, rest: bytes)
    requires Writable(t) && t != TagHead(TAG_SELF_DESCRIBE)
    ensures SkipPrefix(Write(t) + rest) == Ready(Write(t) + rest)
  {
    var s := Write(t) + rest;
    TokenRoundTrip(t, rest);
    hide Write;
    if s[0] == SELF_DESCRIBE[0] {
      TagOfTwoBytes(s);
    }
  }

  lemma TagOfTwoBytes(s: bytes)
    requires s != [] && s[0] == SELF_DESCRIBE[0] && Lex(s).Tok?
    ensures |s| >= 3 && (s[..3] == SELF_DESCRIBE ==> Lex(s).tok == TagHead(TAG_SELF_DESCRIBE))
  {
    assert Lex(s) == LexNumber(s, (n: nat) => TagHead(n));
    if s[..3] == SELF_DESCRIBE {
      assert s[1..3] == [0xd9, 0xf7];
      assert BigEndian([0xd9]) == BigEndian([]) * 256 + 0xd9;
      assert [0xd9, 0xf7][..1] == [0xd9];
    }
  }

  predicate IsLeaf(v: Val) { !v.List? && !v.Obj? && !v.Tag? }

  /** A leaf is one token; the first string of a namespace is never a reference. */
  lemma LeafToken(ec: EncConfig, dc: Config, g: Graph, st: EncState, v: Val) returns (t: Token)
    requires ValOk(ec, dc, g, v) && EncVal(ec, g, st, v, 0, {}).Ok? && IsLeaf(v)
    requires st.srns.Some? ==> st.srns.value == NEW_SRNS
    ensures Writable(t) && EncVal(ec, g, st, v, 0, {}).value.out == Write(t) && !t.TagHead?
  {
    hide Write;
    t := if v.Str? then StringToken(v.s, ec.strings.AsText?)
         else if v.ByteStr? then StringToken(v.s, false)
         else if v.TextStr? then StringToken(v.s, true)
         else ScalarToken(ec, v);
  }

  /** Every encoded value starts with a token that can be written; which one it is. */
  lemma FirstToken(ec: EncConfig, dc: Config, g: Graph, st: EncState, v: Val) returns (t: Token, rest: bytes)
    requires GraphOk(ec, dc, g) && ValOk(ec, dc, g, v) && EncVal(ec, g, st, v, 0, {}).Ok?
    requires st.refs == map[] && (st.srns.Some? ==> st.srns.value == NEW_SRNS) && !ec.cde
    ensures Writable(t) && EncVal(ec, g, st, v, 0, {}).value.out == Write(t) + rest
    ensures t == TagHead(TAG_SELF_DESCRIBE) ==> v.Tag? && v.tag == TAG_SELF_DESCRIBE
  {
    hide EncVal, Write, EncHash, EncProps, EncElems;
    match v
    case List(elems) =>
      ListEncoded(ec, g, st, elems, 0, {});
      t, rest := Array(|elems|), EncElems(ec, g, st, elems, 1, {}).value.out;
    case Obj(id) =>
      ObjectEncoded(ec, g, st, id, 0, {});
      var st1 := if IsShared(ec, g, id) then Number(st, id) else st;
      var r := EncHash(ec, g, st1, id, 0, {}).value;
      if IsShared(ec, g, id) {
        t, rest := TagHead(TAG_SHAREABLE), r.out;
      } else {
        HashEncoded(ec, g, st1, id, 0, {});
        t, rest := Map(|g.heap[id]|), EncProps(ec, g, st1, g.heap[id], 1, {} + {id}).value.out;
      }
    case Tag(tag, content) =>
      TagEncoded(ec, g, st, tag, content, 0, {});
      var st1 := if OpensNamespace(ec, tag) then st.(srns := Some(NEW_SRNS)) else st;
      t, rest := TagHead(tag), EncVal(ec, g, st1, content, 1, {}).value.out;
    case _ =>
      t := LeafToken(ec, dc, g, st, v);
      rest := [];
      assert Write(t) + rest == Write(t);
  }

  // ----- Whole encodings -----

  function InitialState(ec: EncConfig): EncState { EncState(if ec.stringRef.On? then Some(NEW_SRNS) else None, map[]) }

  const NO_CLONE := Clone([], [], true)

  /** The clone of the encoded value. */
  function RootClone(ec: EncConfig, dc: Config, g: Graph, v: Val): Cloned {
    CloneVal(ec, dc, g, NO_CLONE, v, Room(ec, 0))
  }

  /** Will the decoder take a tag of the value itself for the self-describe prefix? */
  predicate LosesTag(ec: EncConfig, dc: Config, v: Val) {
    && !ec.selfDescribe && !dc.selfDescribe && !ec.stringRef.On?
    && v.Tag? && v.tag == TAG_SELF_DESCRIBE
  }

  /** The value the decoder returns, given the clone `w` of the encoded value `v`. */
  function Returned(ec: EncConfig, dc: Config, v: Val, w: Val): Val {
    if LosesTag(ec, dc, v) && w.Tag? then w.content
    else if ec.selfDescribe && dc.selfDescribe then Tag(TAG_SELF_DESCRIBE, w)
    else w
  }

  /** Levels of the decoder in front of the value: tags that were added, less a tag that is skipped. */
  function RootLevels(ec: EncConfig, dc: Config, v: Val): int {
    (if ec.selfDescribe && dc.selfDescribe then 1 else 0) + (if ec.stringRef.On? then 1 else 0)
    - if LosesTag(ec, dc, v) then 1 else 0
  }

  /** The levels the decoder needs for the encoding of a value. */
  function Needs(ec: EncConfig, dc: Config, g: Graph, v: Val): int {
    RootLevels(ec, dc, v) + NestVal(ec, g, InitialState(ec), v, 0, {}, true)
  }

  /** A value that is decoded to `w` with the objects `heap`, whatever is known beside that. */
  ghost predicate DecodedAs(d: Decoded, w: Val, heap: Heap) {
    d.Got? && d.val == w && d.env.heap == heap && d.rest == []
  }

  /** It is decoded if there are levels enough, otherwise the error is that of the depth. */
  ghost predicate DecodedWithin(dc: Config, needs: int, d: Decoded, r: Cloned, w: Val) {
    if needs <= dc.maxDepth then r.clone.ok && DecodedAs(d, w, r.clone.heap) else d == Failed(Depth)
  }

  function NsHead(ec: EncConfig): bytes { if ec.stringRef.On? then Write(TagHead(TAG_STRING_REF_NS)) else [] }

  /** The value and the tags of the encoder in front of it, decoded as one item. */
  lemma RootItem(ec: EncConfig, dc: Config, g: Graph, v: Val, level: nat, env: Env) returns (env1: Env)
    requires Compatible(ec, dc) && GraphOk(ec, dc, g) && ValOk(ec, dc, g, v) && env == EMPTY_ENV && level <= dc.maxDepth
    requires EncVal(ec, g, InitialState(ec), v, 0, {}).Ok?
    ensures var out := EncVal(ec, g, InitialState(ec), v, 0, {}).value.out;
            var r := RootClone(ec, dc, g, v);
            var d := Item(dc, env, NsHead(ec) + out, level, ROOT_SLOT);
            if level + (if ec.stringRef.On? then 1 else 0) + NestVal(ec, g, InitialState(ec), v, 0, {}, true) <= dc.maxDepth
            then r.clone.ok && !IsBigInt(r.val) && env1.heap == r.clone.heap && d == Got(r.val, env1, [])
            else d == Failed(Depth)
  {
    hide Item, EncVal, CloneVal, GraphOk, ValOk, Write, NestVal;
    var st, ns := InitialState(ec), Namespace([], NoNamespace);
    var out := EncVal(ec, g, st, v, 0, {}).value.out;
    assert out + [] == out;
    env1 := env;
    if ec.stringRef.On? {
      var env2 := env.(ns := ns);
      var env3 := env2;
      if level < dc.maxDepth {
        env3 := ValDecodes(ec, dc, g, st, NO_CLONE, env2, v, 0, {}, [], level + 1, true);
      }
      if level + 1 + NestVal(ec, g, st, v, 0, {}, true) <= dc.maxDepth {
        env1 := env3.(ns := NoNamespace);
        ItemOfTag(dc, env, env3, TAG_STRING_REF_NS, RootClone(ec, dc, g, v).val, out, [], level, false);
      } else {
        ContentTooDeep(dc, env, TAG_STRING_REF_NS, out, level, false);
      }
    } else {
      EmptyConcat(out);
      env1 := ValDecodes(ec, dc, g, st, NO_CLONE, env, v, 0, {}, [], level, false);
    }
  }

  lemma EncodeParts(ec: EncConfig, g: Graph, v: Val)
    requires Encode(ec, g, v).Ok?
    ensures var r := EncVal(ec, g, InitialState(ec), v, 0, {});
            r.Ok? &&
            var body := NsHead(ec) + r.value.out;
            Encode(ec, g, v).value == if ec.selfDescribe then Write(TagHead(TAG_SELF_DESCRIBE)) + body else body
  {
    hide EncVal, Write;
    var r := EncVal(ec, g, InitialState(ec), v, 0, {}).value.out;
    Concat(Write(TagHead(TAG_SELF_DESCRIBE)), NsHead(ec), r);
    EmptyConcat(NsHead(ec));
  }

  /** The encoder wrote the self-describe tag: it is skipped, or decoded as a tag. */
  lemma DescribedDecodes(ec: EncConfig, dc: Config, g: Graph, v: Val)
    requires Compatible(ec, dc) && GraphOk(ec, dc, g) && ValOk(ec, dc, g, v) && ec.selfDescribe
    requires Encode(ec, g, v).Ok?
    ensures var r := RootClone(ec, dc, g, v);
            DecodedWithin(dc, Needs(ec, dc, g, v), DecodeAfterPrefix(dc, Encode(ec, g, v).value), r, Returned(ec, dc, v, r.val))
  {
    hide Item, EncVal, CloneVal, GraphOk, ValOk, Write, NestVal;
    EncodeParts(ec, g, v);
    SelfDescribeBytes();
    var r := RootClone(ec, dc, g, v);
    var body := NsHead(ec) + EncVal(ec, g, InitialState(ec), v, 0, {}).value.out;
    if dc.selfDescribe {
      var env1 := EMPTY_ENV;
      if 0 < dc.maxDepth {
        env1 := RootItem(ec, dc, g, v, 1, EMPTY_ENV);
      }
      if Needs(ec, dc, g, v) <= dc.maxDepth {
        ItemOfTag(dc, EMPTY_ENV, env1, TAG_SELF_DESCRIBE, r.val, body, [], 0, false);
      } else {
        ContentTooDeep(dc, EMPTY_ENV, TAG_SELF_DESCRIBE, body, 0, false);
      }
    } else {
      var env1 := RootItem(ec, dc, g, v, 0, EMPTY_ENV);
      assert (SELF_DESCRIBE + body)[..3] == SELF_DESCRIBE && (SELF_DESCRIBE + body)[3..] == body;
    }
  }

  /** The encoder wrote no self-describe tag, so nothing is skipped unless the value has the tag itself. */
  lemma UndescribedDecodes(ec: EncConfig, dc: Config, g: Graph, v: Val)
    requires Compatible(ec, dc) && GraphOk(ec, dc, g) && ValOk(ec, dc, g, v) && !ec.selfDescribe
    requires Encode(ec, g, v).Ok? && !LosesTag(ec, dc, v)
    ensures var r := RootClone(ec, dc, g, v);
            DecodedWithin(dc, Needs(ec, dc, g, v), DecodeAfterPrefix(dc, Encode(ec, g, v).value), r, r.val)
  {
    hide Item, EncVal, CloneVal, GraphOk, ValOk, Write, NestVal;
    EncodeParts(ec, g, v);
    var env1 := RootItem(ec, dc, g, v, 0, EMPTY_ENV);
    var out := EncVal(ec, g, InitialState(ec), v, 0, {}).value.out;
    if !dc.selfDescribe {
      if ec.stringRef.On? {
        NoPrefix(TagHead(TAG_STRING_REF_NS), out);
      } else {
        var t, rest := FirstToken(ec, dc, g, InitialState(ec), v);
        NoPrefix(t, rest);
        EmptyConcat(out);
      }
    }
  }

  /** The value is rooted at a self-describe tag and nothing was put before it: that tag is skipped. */
  lemma LostTagDecodes(ec: EncConfig, dc: Config, g: Graph, v: Val)
    requires Compatible(ec, dc) && GraphOk(ec, dc, g) && ValOk(ec, dc, g, v) && LosesTag(ec, dc, v)
    requires Encode(ec, g, v).Ok?
    ensures var r := RootClone(ec, dc, g, v);
            && r.val.Tag?
            && DecodedWithin(dc, Needs(ec, dc, g, v), DecodeAfterPrefix(dc, Encode(ec, g, v).value), r, r.val.content)
  {
    hide Item, EncVal, CloneVal, GraphOk, Write;
    EncodeParts(ec, g, v);
    SelfDescribeBytes();
    var st := InitialState(ec);
    TagEncoded(ec, g, st, v.tag, v.content, 0, {});
    TagCloned(ec, dc, g, NO_CLONE, v.tag, v.content, 0);
    var body := EncVal(ec, g, st, v.content, 1, {}).value.out;
    var env1 := ValDecodes(ec, dc, g, st, NO_CLONE, EMPTY_ENV, v.content, 1, {}, [], 0, false);
    assert body + [] == body;
    EmptyConcat(SELF_DESCRIBE + body);
    assert (SELF_DESCRIBE + body)[..3] == SELF_DESCRIBE && (SELF_DESCRIBE + body)[3..] == body;
    assert Needs(ec, dc, g, v) == NestVal(ec, g, st, v.content, 1, {}, true);
  }

  /**
   Encoding and then decoding gives the clone of the value and nothing else, or the error for the depth
   if the decoder has less levels than the encoding needs: the round trip for all options of both sides
   that fit together.
   */
  lemma EncodingDecodes(ec: EncConfig, dc: Config, g: Graph, v: Val)
    requires Compatible(ec, dc) && GraphOk(ec, dc, g) && ValOk(ec, dc, g, v)
    requires Encode(ec, g, v).Ok?
    ensures var r := RootClone(ec, dc, g, v);
            var d := DecodeContext.DecodeAll(dc, Encode(ec, g, v).value);
            if Needs(ec, dc, g, v) <= dc.maxDepth then
              r.clone.ok && d.Ok? && d.value.0 == Returned(ec, dc, v, r.val) && d.value.1.heap == r.clone.heap
            else d == Err(Depth)
  {
    hide EncVal, CloneVal, GraphOk, ValOk, Encode, Process, DecodeAfterPrefix, Needs;
    ProcessRefinesRecursion(dc, Encode(ec, g, v).value);
    if ec.selfDescribe {
      DescribedDecodes(ec, dc, g, v);
    } else if LosesTag(ec, dc, v) {
      LostTagDecodes(ec, dc, g, v);
    } else {
      UndescribedDecodes(ec, dc, g, v);
    }
  }
}
