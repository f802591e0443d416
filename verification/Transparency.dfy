/**
 String references change nothing: an encoding with references is decoded to what the plain encoding is
 decoded to. That needs strings which occur as a name and as a value to be apart, or the decoder to turn
 values of the type of names into PHP strings; without that option there are values for which it fails.
 */
module Transparency {
  import opened Bytes
  import opened Wrappers
  import opened Values
  import opened Wire
  import opened DecoderConfig
  import opened RecursiveDecoder
  import opened Encoder
  import opened Cloning
  import opened Nesting
  import opened Lockstep
  import opened RoundTrip
  import opened StringRefs
  import opened Encodable
  import Refinement
  import StackMachine
  import DecodeContext
  import Invariants

  // ----- What a copy does not depend on -----

  function Deeper(dc: Config, m: nat): Config { dc.(maxDepth := m) }

  /** Clones depend neither on how strings are written nor on the depth limit of the decoder. */
  lemma {:induction false} CloneValPlain(ec: EncConfig, dc: Config, m: nat, g: Graph, c: Clone, v: Val, fuel: nat)
    requires c.Valid()
    ensures CloneVal(ec, Deeper(dc, m), g, c, v, fuel) == CloneVal(Without(ec), dc, g, c, v, fuel)
    decreases fuel, 1
  {
    hide ScalarView, StringView, StripsTag, CloneObject, CloneElems;
    if fuel > 0 {
      match v
      case List(elems) => CloneElemsPlain(ec, dc, m, g, c, elems, fuel - 1);
      case Obj(id) => CloneObjectPlain(ec, dc, m, g, c, id, fuel);
      case Tag(tag, content) =>
        CloneValPlain(ec, dc, m, g, c, content, fuel - 1);
        StripsPlain(dc, m, tag);
      case _ => LeafPlain(ec, dc, m, v);
    }
  }

  lemma {:induction false} CloneObjectPlain(ec: EncConfig, dc: Config, m: nat, g: Graph, c: Clone, id: nat, fuel: nat)
    requires c.Valid() && fuel > 0
    ensures CloneObject(ec, Deeper(dc, m), g, c, id, fuel) == CloneObject(Without(ec), dc, g, c, id, fuel)
    decreases fuel, 0
  {
    hide CloneProps;
    if id < |g.heap| {
      ClonePropsPlain(ec, dc, m, g, NewCopy(c, id), |c.heap|, g.heap[id], fuel - 1);
    }
  }

  lemma StripsPlain(dc: Config, m: nat, tag: int)
    ensures StripsTag(Deeper(dc, m), tag) == StripsTag(dc, tag)
  {
  }

  lemma LeafPlain(ec: EncConfig, dc: Config, m: nat, v: Val)
    ensures IsScalar(v) ==> ScalarView(ec, Deeper(dc, m), v) == ScalarView(Without(ec), dc, v)
    ensures forall s, isText :: StringView(Deeper(dc, m), s, isText) == StringView(dc, s, isText)
  {
    hide FloatToken, Float32Token;
    if IsScalar(v) {
      ScalarPlain(ec, v);
    }
  }

  lemma {:induction false} CloneElemsPlain(
    ec: EncConfig, dc: Config, m: nat, g: Graph, c: Clone, elems: seq<Val>, fuel: nat)
    requires c.Valid()
    ensures CloneElems(ec, Deeper(dc, m), g, c, elems, fuel) == CloneElems(Without(ec), dc, g, c, elems, fuel)
    decreases fuel, 2, |elems|
  {
    if elems != [] {
      CloneValPlain(ec, dc, m, g, c, elems[0], fuel);
      CloneElemsPlain(ec, dc, m, g, CloneVal(Without(ec), dc, g, c, elems[0], fuel).clone, elems[1..], fuel);
    }
  }

  lemma {:induction false} ClonePropsPlain(
    ec: EncConfig, dc: Config, m: nat, g: Graph, c: Clone, dest: nat, props: Props, fuel: nat)
    requires c.Valid() && dest < |c.heap|
    ensures CloneProps(ec, Deeper(dc, m), g, c, dest, props, fuel) == CloneProps(Without(ec), dc, g, c, dest, props, fuel)
    decreases fuel, 2, |props|
  {
    if props != [] {
      CloneValPlain(ec, dc, m, g, c, props[0].val, fuel);
      var first := CloneVal(Without(ec), dc, g, c, props[0].val, fuel);
      ClonePropsPlain(ec, dc, m, g, AddProp(first.clone, dest, props[0].key, first.val), dest, props[1..], fuel);
    }
  }

  /** Values of the type of names become PHP strings, or no name is written as a string. */
  predicate NamesAlike(ec: EncConfig, dc: Config) { ToStr(dc, ec.keys.AsText?) || ec.keys.NoFlag? }

  lemma StringOkPlain(ec: EncConfig, dc: Config, m: nat, g: Graph, s: bytes, isText: bool)
    ensures StringOk(ec, Deeper(dc, m), g, s, isText) == StringOk(ec, dc, g, s, isText)
    ensures StringOk(ec, dc, g, s, isText) ==> StringOk(Without(ec), dc, g, s, isText)
    ensures StringOk(Without(ec), dc, g, s, isText) && NamesAlike(ec, dc) ==> StringOk(ec, dc, g, s, isText)
  {
    hide HasName;
  }

  /** Neither do the conditions on values, except that without references no string has to be apart. */
  lemma {:induction false} ValOkPlain(ec: EncConfig, dc: Config, m: nat, g: Graph, v: Val)
    ensures ValOk(ec, Deeper(dc, m), g, v) == ValOk(ec, dc, g, v)
    ensures ValOk(ec, dc, g, v) ==> ValOk(Without(ec), dc, g, v)
    ensures ValOk(Without(ec), dc, g, v) && NamesAlike(ec, dc) ==> ValOk(ec, dc, g, v)
  {
    hide HasName, StringOk;
    match v
    case Str(s) => StringOkPlain(ec, dc, m, g, s, ec.strings.AsText?);
    case ByteStr(s) => StringOkPlain(ec, dc, m, g, s, false);
    case TextStr(s) => StringOkPlain(ec, dc, m, g, s, true);
    case List(elems) =>
      forall i | 0 <= i < |elems|
        ensures ValOk(ec, Deeper(dc, m), g, elems[i]) == ValOk(ec, dc, g, elems[i])
        ensures ValOk(ec, dc, g, elems[i]) ==> ValOk(Without(ec), dc, g, elems[i])
        ensures ValOk(Without(ec), dc, g, elems[i]) && NamesAlike(ec, dc) ==> ValOk(ec, dc, g, elems[i])
      {
        ValOkPlain(ec, dc, m, g, elems[i]);
      }
    case Tag(_, content) => ValOkPlain(ec, dc, m, g, content);
    case _ =>
  }

  lemma PropsFitPlain(ec: EncConfig, dc: Config, m: nat, g: Graph, props: Props)
    ensures PropsFit(ec, dc, g, props) ==> PropsFit(ec, Deeper(dc, m), g, props) && PropsFit(Without(ec), dc, g, props)
    ensures PropsFit(Without(ec), dc, g, props) && NamesAlike(ec, dc) ==> PropsFit(ec, dc, g, props)
  {
    hide ValOk;
    forall i | 0 <= i < |props|
      ensures ValOk(ec, Deeper(dc, m), g, props[i].val) == ValOk(ec, dc, g, props[i].val)
      ensures ValOk(ec, dc, g, props[i].val) ==> ValOk(Without(ec), dc, g, props[i].val)
      ensures ValOk(Without(ec), dc, g, props[i].val) && NamesAlike(ec, dc) ==> ValOk(ec, dc, g, props[i].val)
    {
      ValOkPlain(ec, dc, m, g, props[i].val);
    }
  }

  lemma GraphOkPlain(ec: EncConfig, dc: Config, m: nat, g: Graph)
    ensures GraphOk(ec, dc, g) ==> GraphOk(ec, Deeper(dc, m), g) && GraphOk(Without(ec), dc, g)
    ensures GraphOk(Without(ec), dc, g) && NamesAlike(ec, dc) ==> GraphOk(ec, dc, g)
  {
    hide PropsFit, Invariants.PropsOk;
    forall i | 0 <= i < |g.heap|
      ensures PropsFit(ec, dc, g, g.heap[i]) ==>
                PropsFit(ec, Deeper(dc, m), g, g.heap[i]) && PropsFit(Without(ec), dc, g, g.heap[i])
      ensures PropsFit(Without(ec), dc, g, g.heap[i]) && NamesAlike(ec, dc) ==> PropsFit(ec, dc, g, g.heap[i])
    {
      PropsFitPlain(ec, dc, m, g, g.heap[i]);
    }
  }

  // ----- Transparency -----

  /** Two levels more: for the namespace, and for a reference. A tag may be skipped on one side only. */
  function LevelsMore(ec: EncConfig, dc: Config, v: Val): nat {
    2 + if LosesTag(Without(ec), dc, v) && !LosesTag(ec, dc, v) then 1 else 0
  }

  /** The value with references and the plain one, which may have lost a tag at its root. */
  predicate SameValue(ec: EncConfig, dc: Config, v: Val, w: Val, plain: Val) {
    if LosesTag(Without(ec), dc, v) && !LosesTag(ec, dc, v) then w == Tag(TAG_SELF_DESCRIBE, plain) else w == plain
  }

  lemma ReturnedSame(ec: EncConfig, dc: Config, m: nat, v: Val, r: Val)
    requires LosesTag(Without(ec), dc, v) ==> r.Tag? && r.tag == TAG_SELF_DESCRIBE
    ensures SameValue(ec, dc, v, Returned(ec, Deeper(dc, m), v, r), Returned(Without(ec), dc, v, r))
  {
  }

  lemma TagKept(ec: EncConfig, dc: Config, g: Graph, v: Val)
    requires v.Tag? && v.tag == TAG_SELF_DESCRIBE
    ensures RootClone(ec, dc, g, v).val.Tag? && RootClone(ec, dc, g, v).val.tag == TAG_SELF_DESCRIBE
  {
    hide CloneVal;
    TagCloned(ec, dc, g, NO_CLONE, v.tag, v.content, 0);
  }

  /**
   What the plain encoding is decoded to, the encoding with references is decoded to, nested explicit
   namespaces included, given the levels for them.
   */
  lemma ReferencesAreTransparent(ec: EncConfig, dc: Config, g: Graph, v: Val, m: nat)
    requires Compatible(ec, dc) && GraphOk(ec, dc, g) && ValOk(ec, dc, g, v) && FewStrings(ec, g, v)
    requires m >= dc.maxDepth + LevelsMore(ec, dc, v)
    requires Encode(Without(ec), g, v).Ok?
    requires DecodeContext.DecodeAll(dc, Encode(Without(ec), g, v).value).Ok?
    ensures Encode(ec, g, v).Ok?
    ensures var d0 := DecodeContext.DecodeAll(dc, Encode(Without(ec), g, v).value);
            var d := DecodeContext.DecodeAll(Deeper(dc, m), Encode(ec, g, v).value);
            && d.Ok? && d.value.1.heap == d0.value.1.heap && SameValue(ec, dc, v, d.value.0, d0.value.0)
  {
    hide EncVal, Encode, CloneVal, GraphOk, ValOk, FewStrings, DecodeContext.DecodeAll, NestVal, Returned, SameValue,
      Compatible, Needs, LosesTag, LevelsMore;
    CompatiblePlain(ec, dc, m);
    ReferencesFollow(ec, g, v);
    ValOkPlain(ec, dc, m, g, v);
    GraphOkPlain(ec, dc, m, g);
    EncodingDecodes(Without(ec), dc, g, v);
    EncodingDecodes(ec, Deeper(dc, m), g, v);
    CloneValPlain(ec, dc, m, g, NO_CLONE, v, Room(ec, 0));
    NeedsMore(ec, dc, g, v, m);
    if LosesTag(Without(ec), dc, v) {
      TagLost(Without(ec), dc, v);
      TagKept(Without(ec), dc, g, v);
    }
    ReturnedSame(ec, dc, m, v, RootClone(Without(ec), dc, g, v).val);
  }

  lemma TagLost(ec: EncConfig, dc: Config, v: Val)
    requires LosesTag(ec, dc, v)
    ensures v.Tag? && v.tag == TAG_SELF_DESCRIBE
  {
  }

  lemma CompatiblePlain(ec: EncConfig, dc: Config, m: nat)
    requires Compatible(ec, dc)
    ensures !ec.cde && Compatible(Without(ec), dc) && Compatible(ec, Deeper(dc, m))
  {
    var e, d := Without(ec), Deeper(dc, m);
    assert e.keys == ec.keys && e.unsafeText == ec.unsafeText && e.intKey == ec.intKey && e.sharedRef == ec.sharedRef;
    assert d.keyByte == dc.keyByte && d.keyText == dc.keyText && d.stringRef == dc.stringRef && d.unsafeText == dc.unsafeText;
  }

  lemma NeedsMore(ec: EncConfig, dc: Config, g: Graph, v: Val, m: nat)
    requires !ec.cde && Encode(ec, g, v).Ok?
    ensures Needs(ec, Deeper(dc, m), g, v) <= Needs(Without(ec), dc, g, v) + LevelsMore(ec, dc, v)
  {
    hide EncVal, NestVal, Write;
    NamespaceTag(ec);
    ValNoLonger(ec, g, InitialState(ec), v, 0, {});
    assert Forget(InitialState(ec)) == InitialState(Without(ec));
  }
}
