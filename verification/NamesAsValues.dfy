/**
 Where string references are not transparent. A name becomes a PHP string in the decoder's table, so a
 value that refers to it is one too; and a name that refers to a value of a class is not accepted. So for
 every pair of options without the flag that turns values of the type of names into PHP strings, and for
 every string that is written as a name and long enough for a reference, there are values that do not
 come back as from the plain encoding.
 */
module NamesAsValues {
  import opened Bytes
  import opened Wrappers
  import opened Values
  import opened Wire
  import opened DecoderConfig
  import opened RecursiveDecoder
  import opened Encoder
  import opened Cloning
  import opened Nesting
  import opened Lockstep
  import opened RoundTrip
  import opened StringRefs
  import opened Encodable
  import opened Transparency
  import Refinement
  import StackMachine
  import DecodeContext
  import Invariants
  import Utf8

  /** Options with references, but without the flag. */
  predicate WithoutFlag(ec: EncConfig, dc: Config) {
    Compatible(ec, dc) && !ec.stringRef.Off? && !NamesAlike(ec, dc)
  }

  /** The self-describe tag is written, and returned by the decoder. */
  predicate KeepsDescribe(ec: EncConfig, dc: Config) { ec.selfDescribe && dc.selfDescribe }

  /** A name that is written as a string and gets a number. */
  predicate LongName(ec: EncConfig, s: bytes) {
    3 <= |s| < UINT64_LIMIT - 9 && s[0] != 0 && IsStringKey(ec, s) && TextFine(ec, s, ec.keys.AsText?)
  }

  function Typed(s: bytes, isText: bool): Val { if isText then TextStr(s) else ByteStr(s) }

  /** An object with one property. */
  function OneProperty(s: bytes, v: Val): Graph { Graph([[Prop(s, v)]], {}) }

  const REFERENCE_0: bytes := Write(TagHead(TAG_STRING_REF)) + Write(UInt(0))

  /** The object `{s: s}` in a namespace of its own. */
  const IN_NAMESPACE: Val := Tag(TAG_STRING_REF_NS, Obj(0))

  /** The list `[s, {s: null}]` in a namespace of its own. */
  function ValueFirst(s: bytes, isText: bool): Val { Tag(TAG_STRING_REF_NS, List([Typed(s, isText), Obj(0)])) }

  // ----- Encodings -----

  /** The tags of the encoder in front of the value. */
  function RootHead(ec: EncConfig): bytes {
    (if ec.selfDescribe then Write(TagHead(TAG_SELF_DESCRIBE)) else []) + NsHead(ec)
  }

  function NameFirstBytes(ec: EncConfig, s: bytes): bytes {
    Write(TagHead(TAG_STRING_REF_NS)) + (Write(Map(1)) + (Write(StringToken(s, ec.keys.AsText?)) + REFERENCE_0))
  }

  function ValueFirstBytes(ec: EncConfig, s: bytes): bytes {
    Write(TagHead(TAG_STRING_REF_NS))
    + (Write(Array(2)) + (Write(StringToken(s, ec.keys.AsText?)) + (Write(Map(1)) + (REFERENCE_0 + Write(Token.Null)))))
  }

  function NextState(ec: EncConfig, st: EncState, s: bytes): EncState {
    st.(srns := Some(AddString(NEW_SRNS, s, ec.keys.AsText?)))
  }

  /** The first string of a namespace is written and gets number 0; after that it is a reference. */
  lemma FirstString(ec: EncConfig, st: EncState, s: bytes)
    requires LongName(ec, s)
    ensures var st0, isText := st.(srns := Some(NEW_SRNS)), ec.keys.AsText?;
            && EncString(ec, st0, s, isText) == Ok(Out(Write(StringToken(s, isText)), NextState(ec, st, s)))
            && EncString(ec, NextState(ec, st, s), s, isText) == Ok(Out(REFERENCE_0, NextState(ec, st, s)))
            && EncKey(ec, st0, s) == EncString(ec, st0, s, isText)
            && EncKey(ec, NextState(ec, st, s), s) == EncString(ec, NextState(ec, st, s), s, isText)
  {
    hide Write;
  }

  lemma TypedEncodes(ec: EncConfig, g: Graph, st: EncState, s: bytes, isText: bool, depth: nat, busy: set<nat>)
    requires depth <= ec.maxDepth
    ensures EncVal(ec, g, st, Typed(s, isText), depth, busy) == EncString(ec, st, s, isText)
    ensures EncVal(ec, g, st, Val.Null, depth, busy) == Ok(Out(Write(Token.Null), st))
  {
  }

  lemma OnePropertyEncodes(ec: EncConfig, g: Graph, st: EncState, depth: nat)
    requires !ec.cde && depth < ec.maxDepth && g.counted == {} && |g.heap| == 1 && |g.heap[0]| == 1
    ensures var key := EncKey(ec, st, g.heap[0][0].key);
            key.Ok? ==>
              var val := EncVal(ec, g, key.value.st, g.heap[0][0].val, depth + 1, {0});
              val.Ok? ==> EncVal(ec, g, st, Obj(0), depth, {}) == Ok(Out(Write(Map(1)) + (key.value.out + val.value.out), val.value.st))
  {
    hide EncKey, Write;
    var key := EncKey(ec, st, g.heap[0][0].key);
    if key.Ok? {
      var val := EncVal(ec, g, key.value.st, g.heap[0][0].val, depth + 1, {0});
      if val.Ok? {
        assert {} + {0} == {0};
        assert EncProps(ec, g, val.value.st, g.heap[0][1..], depth + 1, {0}) == Ok(Out([], val.value.st));
        assert key.value.out + val.value.out + [] == key.value.out + val.value.out;
        assert EncProps(ec, g, st, g.heap[0], depth + 1, {0}) == Ok(Out(key.value.out + val.value.out, val.value.st));
        assert EncVal(ec, g, st, Obj(0), depth, {}) == EncHash(ec, g, st, 0, depth, {});
      }
    }
  }

  lemma NamespaceEncodes(ec: EncConfig, g: Graph, content: Val)
    requires !ec.stringRef.Off? && ec.maxDepth > 0
    ensures var st := InitialState(ec);
            var r := EncVal(ec, g, st.(srns := Some(NEW_SRNS)), content, 1, {});
            r.Ok? ==> Encode(ec, g, Tag(TAG_STRING_REF_NS, content))
                      == Ok(RootHead(ec) + (Write(TagHead(TAG_STRING_REF_NS)) + r.value.out))
  {
    hide Write;
    var st := InitialState(ec);
    var r := EncVal(ec, g, st.(srns := Some(NEW_SRNS)), content, 1, {});
    assert EncVal(ec, g, st, Tag(TAG_STRING_REF_NS, content), 0, {}) == EncTag(ec, g, st, TAG_STRING_REF_NS, content, 0, {});
  }

  lemma NameFirstEncodes(ec: EncConfig, dc: Config, s: bytes)
    requires WithoutFlag(ec, dc) && LongName(ec, s) && ec.maxDepth >= 2
    ensures Encode(ec, OneProperty(s, Typed(s, ec.keys.AsText?)), IN_NAMESPACE) == Ok(RootHead(ec) + NameFirstBytes(ec, s))
  {
    hide Write, EncVal, EncString, EncKey, Encode, AddString;
    var g, st := OneProperty(s, Typed(s, ec.keys.AsText?)), InitialState(ec);
    FirstString(ec, st, s);
    TypedEncodes(ec, g, NextState(ec, st, s), s, ec.keys.AsText?, 2, {0});
    OnePropertyEncodes(ec, g, st.(srns := Some(NEW_SRNS)), 1);
    NamespaceEncodes(ec, g, Obj(0));
  }

  lemma TwoElementsEncode(ec: EncConfig, g: Graph, st: EncState, a: Val, b: Val, depth: nat)
    requires depth < ec.maxDepth
    ensures var r := EncVal(ec, g, st, a, depth + 1, {});
            r.Ok? ==>
              var q := EncVal(ec, g, r.value.st, b, depth + 1, {});
              q.Ok? ==> EncVal(ec, g, st, List([a, b]), depth, {})
                        == Ok(Out(Write(Array(2)) + (r.value.out + q.value.out), q.value.st))
  {
    hide Write;
    var r := EncVal(ec, g, st, a, depth + 1, {});
    if r.Ok? {
      var q := EncVal(ec, g, r.value.st, b, depth + 1, {});
      if q.Ok? {
        assert [a, b][1..] == [b] && [b][1..] == [];
        assert EncElems(ec, g, q.value.st, [], depth + 1, {}) == Ok(Out([], q.value.st));
        assert q.value.out + [] == q.value.out;
        assert EncElems(ec, g, r.value.st, [b], depth + 1, {}) == q;
      }
    }
  }

  lemma ValueFirstEncodes(ec: EncConfig, dc: Config, s: bytes)
    requires WithoutFlag(ec, dc) && LongName(ec, s) && ec.maxDepth >= 3
    ensures Encode(ec, OneProperty(s, Val.Null), ValueFirst(s, ec.keys.AsText?)) == Ok(RootHead(ec) + ValueFirstBytes(ec, s))
  {
    hide Write, EncVal, EncString, EncKey, Encode, AddString;
    var g, st, v := OneProperty(s, Val.Null), InitialState(ec), Typed(s, ec.keys.AsText?);
    FirstString(ec, st, s);
    TypedEncodes(ec, g, st.(srns := Some(NEW_SRNS)), s, ec.keys.AsText?, 2, {});
    TypedEncodes(ec, g, NextState(ec, st, s), s, ec.keys.AsText?, 3, {0});
    OnePropertyEncodes(ec, g, NextState(ec, st, s), 2);
    TwoElementsEncode(ec, g, st.(srns := Some(NEW_SRNS)), v, Obj(0), 1);
    NamespaceEncodes(ec, g, List([v, Obj(0)]));
  }

  // ----- Decoding -----

  /** The first string in an empty table. */
  lemma FirstStringDecodes(ec: EncConfig, dc: Config, env: Env, s: bytes, tail: bytes, level: nat, isKey: bool)
    requires WithoutFlag(ec, dc) && LongName(ec, s) && env.ns.Namespace? && env.ns.table == []
    ensures var isText := ec.keys.AsText?;
            var v := if isKey then Str(s) else Typed(s, isText);
            Item(dc, env, Write(StringToken(s, isText)) + tail, level, Slot(isKey, true, None))
            == Got(v, env.(ns := Namespace([v], env.ns.outer)), tail)
  {
    StringItemDecodes(dc, env, s, ec.keys.AsText?, tail, level, Slot(isKey, true, None));
    hide Item, Write;
    EmptyConcat([if isKey then Str(s) else Typed(s, ec.keys.AsText?)]);
  }

  /** A reference to it, as a key or as a value. */
  lemma ReferenceDecodes(dc: Config, env: Env, v: Val, tail: bytes, level: nat, isKey: bool)
    requires dc.stringRef && level < dc.maxDepth && env.ns.Namespace? && env.ns.table == [v]
    ensures Item(dc, env, REFERENCE_0 + tail, level, Slot(isKey, true, None)) == Got(v, env, tail)
  {
    IntTagDecodes(dc, env, TAG_STRING_REF, 0, tail, level, Slot(isKey, true, None));
    hide Item, Write;
  }

  /** The environment behind the head of a namespace tag, and behind the head of a map in it. */
  function InTag(env: Env): Env { env.(ns := Namespace([], env.ns)) }

  lemma {:induction false} PairOfReference(ec: EncConfig, dc: Config, env: Env, s: bytes, tail: bytes, level: nat)
    requires WithoutFlag(ec, dc) && LongName(ec, s) && level < dc.maxDepth
    ensures var env1 := InTag(NewObject(env));
            Pairs(dc, env1, Write(StringToken(s, ec.keys.AsText?)) + (REFERENCE_0 + tail), level, true, 1, 0, |env.heap|)
            == Got(Obj(|env.heap|),
                   Env(env.heap + [[Prop(s, Str(s))]], Namespace([Str(s)], env.ns), env.refs), tail)
  {
    var env1 := InTag(NewObject(env));
    FirstStringDecodes(ec, dc, env1, s, REFERENCE_0 + tail, level, true);
    var env2 := env1.(ns := Namespace([Str(s)], env.ns));
    ReferenceDecodes(dc, env2, Str(s), tail, level, false);
    NewProperty(dc, env, env2, s);
    hide Item, Write, PutProperty;
  }

  lemma NewProperty(dc: Config, env: Env, env2: Env, s: bytes)
    requires env2.heap == env.heap + [[]] && s != [] && s[0] != 0
    ensures PutProperty(dc, env2, |env.heap|, Str(s), Str(s)) == Ok(env2.(heap := env.heap + [[Prop(s, Str(s))]]))
  {
    var none: Props := [];
    assert env2.heap[|env.heap|] == none && SetProp(none, s, Str(s)) == [Prop(s, Str(s))] by {
      EmptyConcat([Prop(s, Str(s))]);
    }
    assert (env.heap + [[]])[|env.heap| := [Prop(s, Str(s))]] == env.heap + [[Prop(s, Str(s))]];
  }

  lemma NameFirstDecodes(ec: EncConfig, dc: Config, env: Env, s: bytes, level: nat, inNs: bool)
    requires WithoutFlag(ec, dc) && LongName(ec, s) && level + 2 < dc.maxDepth && dc.maxSize >= 1
    ensures Item(dc, env, NameFirstBytes(ec, s), level, Slot(false, inNs, None))
            == Got(Obj(|env.heap|), env.(heap := env.heap + [[Prop(s, Str(s))]]), [])
  {
    hide Item, Write, ItemOf, Pairs;
    var body := Write(StringToken(s, ec.keys.AsText?)) + REFERENCE_0;
    assert REFERENCE_0 + [] == REFERENCE_0;
    ItemOfWritten(dc, InTag(env), Map(1), body, level + 1, Slot(false, true, None));
    OpenMap(dc, InTag(env), InTag(NewObject(env)), body, level + 1, Slot(false, true, None), 1, |Write(Map(1))| + |body|);
    PairOfReference(ec, dc, env, s, [], level + 2);
    var env3 := Env(env.heap + [[Prop(s, Str(s))]], Namespace([Str(s)], env.ns), env.refs);
    ItemOfTag(dc, env, env3, TAG_STRING_REF_NS, Obj(|env.heap|), Write(Map(1)) + body, [], level, inNs);
  }

  /** A name that refers to a value of a class. */
  lemma MapOfValueFails(dc: Config, env: Env, v: Val, level: nat)
    requires dc.stringRef && level + 1 < dc.maxDepth && dc.maxSize >= 1 && (v.TextStr? || v.ByteStr?)
    requires env.ns.Namespace? && env.ns.table == [v]
    ensures Item(dc, env, Write(Map(1)) + (REFERENCE_0 + Write(Token.Null)), level, Slot(false, true, None))
            == Failed(UnsupportedKeyType)
  {
    hide Item, Write, ItemOf;
    var pair := REFERENCE_0 + Write(Token.Null);
    ItemOfWritten(dc, env, Map(1), pair, level, Slot(false, true, None));
    OpenMap(dc, env, NewObject(env), pair, level, Slot(false, true, None), 1, |Write(Map(1))| + |pair|);
    ReferenceDecodes(dc, NewObject(env), v, Write(Token.Null), level + 1, true);
  }

  lemma ValueFirstFails(ec: EncConfig, dc: Config, env: Env, s: bytes, level: nat, inNs: bool)
    requires WithoutFlag(ec, dc) && LongName(ec, s) && level + 3 < dc.maxDepth && dc.maxSize >= 2
    ensures Item(dc, env, ValueFirstBytes(ec, s), level, Slot(false, inNs, None)) == Failed(UnsupportedKeyType)
  {
    hide Item, Write, ItemOf;
    var v, str := Typed(s, ec.keys.AsText?), Write(StringToken(s, ec.keys.AsText?));
    var pair := REFERENCE_0 + Write(Token.Null);
    var map1 := Write(Map(1)) + pair;
    var body := str + map1;
    var env1, env2 := InTag(env), InTag(env).(ns := Namespace([v], env.ns));
    var slot := Slot(false, true, None);
    ItemOfWritten(dc, env1, Array(2), body, level + 1, slot);
    OpenArray(dc, env1, body, level + 1, true, 2, |Write(Array(2))| + |body|);
    FirstStringDecodes(ec, dc, env1, s, map1, level + 2, false);
    MapOfValueFails(dc, env2, v, level + 2);
    hide Pairs, Typed, StringToken, NewObject;
    TagFails(dc, env, TAG_STRING_REF_NS, Write(Array(2)) + body, level, inNs);
    assert Elements(dc, env1, body, level + 2, true, 2, []) == Failed(UnsupportedKeyType);
  }

  /** An error inside a tag is the error. */
  lemma TagFails(dc: Config, env: Env, tag: nat, rest: bytes, level: nat, inNs: bool)
    requires TagOk(dc, tag) && level < dc.maxDepth
    ensures var ns := HandlerOf(dc, tag).StrRefNs?;
            var d := Item(dc, if ns then InTag(env) else env, rest, level + 1, Slot(false, inNs || ns, None));
            d.Failed? ==> Item(dc, env, Write(TagHead(tag)) + rest, level, Slot(false, inNs, None)) == d
  {
    ItemOfWritten(dc, env, TagHead(tag), rest, level, Slot(false, inNs, None));
    hide Item, Write;
  }

  // ----- Whole encodings -----

  function RootEnv(ec: EncConfig): Env { if ec.stringRef.On? then InTag(EMPTY_ENV) else EMPTY_ENV }

  function RootLevel(ec: EncConfig, dc: Config): nat { One(KeepsDescribe(ec, dc)) + One(ec.stringRef.On?) }

  /** The item behind the tags of the encoder. */
  function Behind(ec: EncConfig, dc: Config, s: bytes, level: nat): Decoded {
    Item(dc, RootEnv(ec), s, level, Slot(false, ec.stringRef.On?, None))
  }

  /** It is all there is, and leaves the namespace as it was. */
  predicate Alone(ec: EncConfig, d: Decoded) {
    d.Got? ==> d.rest == [] && !IsBigInt(d.val) && d.env.ns == RootEnv(ec).ns
  }

  function LeaveNamespace(d: Decoded): Decoded { if d.Got? then d.(env := d.env.(ns := NoNamespace)) else d }

  /** What the decoder makes of that item. */
  function AtRoot(ec: EncConfig, dc: Config, d: Decoded): R<(Val, Env)> {
    match d
    case Failed(e) => Err(e)
    case Got(v, env, _) => Ok((if KeepsDescribe(ec, dc) then Tag(TAG_SELF_DESCRIBE, v) else v, env.(ns := NoNamespace)))
  }

  lemma TagsOk(ec: EncConfig, dc: Config)
    requires WithoutFlag(ec, dc)
    ensures TagOk(dc, TAG_STRING_REF_NS) && HandlerOf(dc, TAG_STRING_REF_NS).StrRefNs?
    ensures TagOk(dc, TAG_SELF_DESCRIBE) && HandlerOf(dc, TAG_SELF_DESCRIBE).PlainTag?
  {
  }

  lemma NamespaceDecodes(ec: EncConfig, dc: Config, body: bytes, level: nat)
    requires WithoutFlag(ec, dc) && level < dc.maxDepth && Alone(ec, Behind(ec, dc, body, level + One(ec.stringRef.On?)))
    ensures Item(dc, EMPTY_ENV, NsHead(ec) + body, level, ROOT_SLOT)
            == LeaveNamespace(Behind(ec, dc, body, level + One(ec.stringRef.On?)))
  {
    hide Item, Write, HandlerOf;
    var d := Behind(ec, dc, body, level + One(ec.stringRef.On?));
    TagsOk(ec, dc);
    if ec.stringRef.On? {
      TagFails(dc, EMPTY_ENV, TAG_STRING_REF_NS, body, level, false);
      if d.Got? {
        ItemOfTag(dc, EMPTY_ENV, d.env, TAG_STRING_REF_NS, d.val, body, [], level, false);
      }
    } else {
      EmptyConcat(body);
    }
  }

  /** What begins with a namespace tag has no prefix. */
  lemma NothingSkipped(ec: EncConfig, rest: bytes)
    ensures var s := NsHead(ec) + (Write(TagHead(TAG_STRING_REF_NS)) + rest); StackMachine.SkipPrefix(s) == StackMachine.Ready(s)
  {
    hide Write;
    var body := Write(TagHead(TAG_STRING_REF_NS)) + rest;
    if ec.stringRef.On? {
      NoPrefix(TagHead(TAG_STRING_REF_NS), body);
    } else {
      NoPrefix(TagHead(TAG_STRING_REF_NS), rest);
      EmptyConcat(body);
    }
  }

  lemma PrefixSkipped(s: bytes)
    ensures StackMachine.SkipPrefix(StackMachine.SELF_DESCRIBE + s) == StackMachine.Ready(s)
  {
    assert (StackMachine.SELF_DESCRIBE + s)[..3] == StackMachine.SELF_DESCRIBE;
    DropConcat(StackMachine.SELF_DESCRIBE, s);
  }

  /** The self-describe tag is skipped, or decoded as a tag. */
  lemma HeadDecodes(ec: EncConfig, dc: Config, rest: bytes)
    requires WithoutFlag(ec, dc) && dc.maxDepth >= 2
    requires Alone(ec, Behind(ec, dc, Write(TagHead(TAG_STRING_REF_NS)) + rest, RootLevel(ec, dc)))
    ensures var body := Write(TagHead(TAG_STRING_REF_NS)) + rest;
            var d := LeaveNamespace(Behind(ec, dc, body, RootLevel(ec, dc)));
            Refinement.DecodeAfterPrefix(dc, RootHead(ec) + body)
            == if d.Got? && KeepsDescribe(ec, dc) then d.(val := Tag(TAG_SELF_DESCRIBE, d.val)) else d
  {
    hide Item, Write, HandlerOf, StackMachine.SkipPrefix;
    var body := Write(TagHead(TAG_STRING_REF_NS)) + rest;
    var inner := NsHead(ec) + body;
    var d := LeaveNamespace(Behind(ec, dc, body, RootLevel(ec, dc)));
    TagsOk(ec, dc);
    NamespaceDecodes(ec, dc, body, One(KeepsDescribe(ec, dc)));
    NothingSkipped(ec, rest);
    if ec.selfDescribe {
      Concat(Write(TagHead(TAG_SELF_DESCRIBE)), NsHead(ec), body);
      SelfDescribeBytes();
      PrefixSkipped(inner);
      TagFails(dc, EMPTY_ENV, TAG_SELF_DESCRIBE, inner, 0, false);
      if dc.selfDescribe && d.Got? {
        ItemOfTag(dc, EMPTY_ENV, d.env, TAG_SELF_DESCRIBE, d.val, inner, [], 0, false);
      }
    } else {
      EmptyConcat(NsHead(ec));
    }
  }

  lemma RootDecodes(ec: EncConfig, dc: Config, rest: bytes)
    requires WithoutFlag(ec, dc) && dc.maxDepth >= 2
    requires Alone(ec, Behind(ec, dc, Write(TagHead(TAG_STRING_REF_NS)) + rest, RootLevel(ec, dc)))
    ensures var body := Write(TagHead(TAG_STRING_REF_NS)) + rest;
            DecodeContext.DecodeAll(dc, RootHead(ec) + body) == AtRoot(ec, dc, Behind(ec, dc, body, RootLevel(ec, dc)))
  {
    hide Behind, Write, Refinement.DecodeAfterPrefix, StackMachine.Process;
    HeadDecodes(ec, dc, rest);
    Refinement.ProcessRefinesRecursion(dc, RootHead(ec) + (Write(TagHead(TAG_STRING_REF_NS)) + rest));
  }

  lemma PlainEncodes(ec: EncConfig, g: Graph, v: Val)
    requires !ec.cde && Encode(ec, g, v).Ok?
    ensures Encode(Without(ec), g, v).Ok?
  {
    hide EncVal, Write;
    CostAtMostThree(ec, g, v);
  }

  /** The limits leave room for a property in a namespace. */
  predicate RoomForProperty(ec: EncConfig, dc: Config) {
    ec.maxDepth >= 2 && dc.maxDepth >= 2 + One(KeepsDescribe(ec, dc)) && dc.maxSize >= 1
  }

  /** What the plain encoding of the first example is decoded to. */
  lemma PlainNameFirst(ec: EncConfig, dc: Config, s: bytes)
    requires WithoutFlag(ec, dc) && LongName(ec, s) && RoomForProperty(ec, dc)
    ensures var g := OneProperty(s, Typed(s, ec.keys.AsText?));
            && Encode(Without(ec), g, IN_NAMESPACE).Ok?
            && var d := DecodeContext.DecodeAll(dc, Encode(Without(ec), g, IN_NAMESPACE).value);
               d.Ok? && d.value.1.heap == g.heap
  {
    hide Encode, EncVal, NestVal, CloneVal, NestKey, Write, DecodeContext.DecodeAll, NestString;
    var w := Typed(s, ec.keys.AsText?);
    var g, e := OneProperty(s, w), Without(ec);
    NameFirstEncodes(ec, dc, s);
    PlainEncodes(ec, g, IN_NAMESPACE);
    PlainFits(ec, dc, g, s, w);
    ShallowNest(e, dc, g, s, w);
    SmallClone(e, dc, g, s, w);
    EncodingDecodes(e, dc, g, IN_NAMESPACE);
  }

  lemma PlainFits(ec: EncConfig, dc: Config, g: Graph, s: bytes, w: Val)
    requires WithoutFlag(ec, dc) && LongName(ec, s) && dc.maxSize >= 1 && w == Typed(s, ec.keys.AsText?)
    requires g == OneProperty(s, w)
    ensures Compatible(Without(ec), dc) && GraphOk(Without(ec), dc, g) && ValOk(Without(ec), dc, g, IN_NAMESPACE)
    ensures !LosesTag(Without(ec), dc, IN_NAMESPACE)
  {
    hide HasName, IsStringKey, TextFine;
    assert PropsFit(Without(ec), dc, g, g.heap[0]);
    assert Invariants.PropsOk(g.heap[0]);
    assert ValOk(Without(ec), dc, g, Obj(0));
  }

  lemma LeafNest(ec: EncConfig, g: Graph, st: EncState, name: bytes, w: Val, depth: nat, busy: set<nat>)
    requires st.srns.None? && IsLeaf(w)
    ensures NestVal(ec, g, st, w, depth, busy, true) == 0 && NestKey(ec, st, name, true) == 0
  {
  }

  lemma PropertyNest(ec: EncConfig, g: Graph, st: EncState, s: bytes, w: Val, depth: nat, busy: set<nat>)
    requires ec.stringRef.Off? && st.srns.None? && IsLeaf(w)
    ensures NestProps(ec, g, st, [Prop(s, w)], depth, busy, true) == 0
  {
    assert Without(ec) == ec;
    KeyFits(ec, st, s);
    LeafNest(ec, g, st, s, w, depth, busy);
    var props := [Prop(s, w)];
    assert props[1..] == [];
    hide EncKey, EncVal, NestVal, NestKey;
    assert forall st: EncState :: NestProps(ec, g, st, [], depth, busy, true) == 0;
  }

  lemma ShallowNest(ec: EncConfig, dc: Config, g: Graph, s: bytes, w: Val)
    requires ec.stringRef.Off? && g == OneProperty(s, w) && IsLeaf(w)
    ensures Needs(ec, dc, g, IN_NAMESPACE) <= 2 + One(KeepsDescribe(ec, dc))
  {
    var st := InitialState(ec);
    PropertyNest(ec, g, st, s, w, 2, {} + {0});
    hide EncKey, EncVal, NestProps, LosesTag;
    assert Inside(ec, st, TAG_STRING_REF_NS) == st;
    if 1 <= ec.maxDepth {
      assert NestHash(ec, g, st, 0, 1, {}, true) == 1;
      assert NestObject(ec, g, st, 0, 1, {}, true) == 1;
    }
    assert NestVal(ec, g, st, Obj(0), 1, {}, true) <= 1;
  }

  lemma SmallClone(ec: EncConfig, dc: Config, g: Graph, s: bytes, w: Val)
    requires dc.stringRef && ec.maxDepth >= 2 && g == OneProperty(s, w) && w == Typed(s, ec.keys.AsText?)
    requires !ToStr(dc, ec.keys.AsText?)
    ensures RootClone(ec, dc, g, IN_NAMESPACE) == Cloned(Obj(0), Clone(g.heap, [0], true))
  {
    var c := NewCopy(NO_CLONE, 0);
    assert CloneVal(ec, dc, g, c, w, Room(ec, 2)) == Cloned(w, c);
    EmptyConcat([Prop(s, w)]);
    assert AddProp(c, 0, s, w) == Clone(g.heap, [0], true);
    assert g.heap[0][1..] == [];
    assert CloneProps(ec, dc, g, c, 0, g.heap[0], Room(ec, 2)) == Clone(g.heap, [0], true);
    assert CloneVal(ec, dc, g, NO_CLONE, Obj(0), Room(ec, 1)) == Cloned(Obj(0), Clone(g.heap, [0], true));
  }

  /** `{s: s}`: with references the value is a PHP string, without it is the object that it was. */
  lemma ValueBecomesName(ec: EncConfig, dc: Config, s: bytes)
    requires WithoutFlag(ec, dc) && LongName(ec, s) && ec.maxDepth >= 2 && dc.maxDepth >= 5 && dc.maxSize >= 1
    ensures var w := Typed(s, ec.keys.AsText?);
            var g := OneProperty(s, w);
            var r, r0 := Encode(ec, g, IN_NAMESPACE), Encode(Without(ec), g, IN_NAMESPACE);
            && r.Ok? && r0.Ok?
            && var d, d0 := DecodeContext.DecodeAll(dc, r.value), DecodeContext.DecodeAll(dc, r0.value);
               d.Ok? && d0.Ok? && d.value.1.heap == [[Prop(s, Str(s))]] && d0.value.1.heap == [[Prop(s, w)]]
  {
    hide Encode, Item, Write, DecodeContext.DecodeAll;
    NameFirstEncodes(ec, dc, s);
    NameFirstDecodes(ec, dc, RootEnv(ec), s, RootLevel(ec, dc), ec.stringRef.On?);
    RootDecodes(ec, dc, Write(Map(1)) + (Write(StringToken(s, ec.keys.AsText?)) + REFERENCE_0));
    PlainNameFirst(ec, dc, s);
    EmptyConcat([[Prop(s, Str(s))]]);
  }

  /** `[s, {s: null}]`: with references it is not decoded at all. */
  lemma NameBecomesValue(ec: EncConfig, dc: Config, s: bytes)
    requires WithoutFlag(ec, dc) && LongName(ec, s) && ec.maxDepth >= 3 && dc.maxDepth >= 6 && dc.maxSize >= 2
    ensures var r := Encode(ec, OneProperty(s, Val.Null), ValueFirst(s, ec.keys.AsText?));
            r.Ok? && DecodeContext.DecodeAll(dc, r.value) == Err(UnsupportedKeyType)
  {
    hide Encode, Item, Write, DecodeContext.DecodeAll;
    ValueFirstEncodes(ec, dc, s);
    ValueFirstFails(ec, dc, RootEnv(ec), s, RootLevel(ec, dc), ec.stringRef.On?);
    RootDecodes(ec, dc, Write(Array(2)) + (Write(StringToken(s, ec.keys.AsText?)) + (Write(Map(1)) + (REFERENCE_0 + Write(Token.Null)))));
  }

  // ----- Which options are transparent -----

  /** What the plain encoding can be decoded for. */
  ghost predicate Admissible(ec: EncConfig, dc: Config, g: Graph, v: Val) {
    && GraphOk(Without(ec), dc, g) && ValOk(Without(ec), dc, g, v) && FewStrings(ec, g, v)
    && Encode(Without(ec), g, v).Ok? && DecodeContext.DecodeAll(dc, Encode(Without(ec), g, v).value).Ok?
  }

  /** With three levels more, the encoding with references is decoded to the same. */
  predicate Transparent(ec: EncConfig, dc: Config, g: Graph, v: Val) {
    && Encode(ec, g, v).Ok? && Encode(Without(ec), g, v).Ok?
    && var d := DecodeContext.DecodeAll(Deeper(dc, dc.maxDepth + 3), Encode(ec, g, v).value);
       var d0 := DecodeContext.DecodeAll(dc, Encode(Without(ec), g, v).value);
       d.Ok? && d0.Ok? && d.value.1.heap == d0.value.1.heap && SameValue(ec, dc, v, d.value.0, d0.value.0)
  }

  const ABC: bytes := [0x61, 0x62, 0x63]

  lemma AbcIsLongName(ec: EncConfig)
    requires !ec.keys.NoFlag?
    ensures LongName(ec, ABC)
  {
    assert Utf8.Valid(ABC) by {
      assert Utf8.CharLen(ABC) == 1 && ABC[1..] == [0x62, 0x63] && ABC[1..][1..] == [0x63];
      assert Utf8.CharLen(ABC[1..]) == 1 && Utf8.CharLen(ABC[1..][1..]) == 1;
      assert Utf8.Valid([]);
    }
  }

  lemma AbcIsAdmissible(ec: EncConfig, dc: Config)
    requires WithoutFlag(ec, dc) && RoomForProperty(ec, dc)
    ensures Admissible(ec, dc, OneProperty(ABC, Typed(ABC, ec.keys.AsText?)), IN_NAMESPACE)
  {
    hide Encode, DecodeContext.DecodeAll, LongName;
    var isText := ec.keys.AsText?;
    var g := OneProperty(ABC, Typed(ABC, isText));
    AbcIsLongName(ec);
    PlainNameFirst(ec, dc, ABC);
    PlainFits(ec, dc, g, ABC, Typed(ABC, isText));
    var strings: set<Text> := {(isText, ABC)};
    assert |strings| == 1;
    AbcIsCovered(ec, strings);
    assert CoversGraph(ec, strings, g);
    hide CoversGraph, Covers;
    assert FewStrings(ec, g, IN_NAMESPACE);
  }

  lemma AbcIsCovered(ec: EncConfig, strings: set<Text>)
    requires (ec.keys.AsText?, ABC) in strings
    ensures Covers(ec, strings, IN_NAMESPACE)
    ensures CoversGraph(ec, strings, OneProperty(ABC, Typed(ABC, ec.keys.AsText?)))
  {
    hide IsStringKey;
    var props := OneProperty(ABC, Typed(ABC, ec.keys.AsText?)).heap[0];
    assert Covers(ec, strings, props[0].val) && Covers(ec, strings, Obj(0));
    assert CoversProps(ec, strings, props);
  }

  /** References are transparent for all values exactly if values of the type of names become PHP strings. */
  lemma FlagDecides(ec: EncConfig, dc: Config)
    requires Compatible(ec, dc) && !ec.stringRef.Off? && !ec.keys.NoFlag? && RoomForProperty(ec, dc)
    ensures ToStr(dc, ec.keys.AsText?)
            <==> forall g: Graph, v: Val :: Admissible(ec, dc, g, v) ==> Transparent(ec, dc, g, v)
  {
    hide Admissible, Transparent;
    if ToStr(dc, ec.keys.AsText?) {
      forall g: Graph, v: Val | Admissible(ec, dc, g, v) ensures Transparent(ec, dc, g, v) {
        FlagSuffices(ec, dc, g, v);
      }
    } else {
      AbcIsAdmissible(ec, dc);
      AbcIsNotTransparent(ec, dc);
    }
  }

  lemma FlagSuffices(ec: EncConfig, dc: Config, g: Graph, v: Val)
    requires Compatible(ec, dc) && ToStr(dc, ec.keys.AsText?) && Admissible(ec, dc, g, v)
    ensures Transparent(ec, dc, g, v)
  {
    hide Encode, DecodeContext.DecodeAll, GraphOk, ValOk, FewStrings, SameValue, LosesTag;
    GraphOkPlain(ec, dc, 0, g);
    ValOkPlain(ec, dc, 0, g, v);
    ReferencesAreTransparent(ec, dc, g, v, dc.maxDepth + 3);
  }

  lemma AbcIsNotTransparent(ec: EncConfig, dc: Config)
    requires WithoutFlag(ec, dc) && RoomForProperty(ec, dc)
    ensures !Transparent(ec, dc, OneProperty(ABC, Typed(ABC, ec.keys.AsText?)), IN_NAMESPACE)
  {
    hide Encode, DecodeContext.DecodeAll, LongName, SameValue;
    AbcIsLongName(ec);
    CompatiblePlain(ec, dc, dc.maxDepth + 3);
    PlainNameFirst(ec, dc, ABC);
    ValueBecomesName(ec, Deeper(dc, dc.maxDepth + 3), ABC);
    assert Prop(ABC, Str(ABC)) != Prop(ABC, Typed(ABC, ec.keys.AsText?));
    assert [[Prop(ABC, Str(ABC))]][0][0] != [[Prop(ABC, Typed(ABC, ec.keys.AsText?))]][0][0];
  }
}
