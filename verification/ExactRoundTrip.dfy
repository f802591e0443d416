/**
 When the round trip is exact: which scalars and strings come back unchanged, and that then the whole
 value does.
 */
module ExactRoundTrip {
  import opened Bytes
  import opened Wrappers
  import opened Values
  import opened Wire
  import opened DecoderConfig
  import opened Encoder
  import opened Cloning
  import opened Lockstep
  import opened RoundTrip
  import opened Isomorphism
  import opened Sharing
  import opened Encodable
  import DepthLimits
  import DecodeContext
  import Floats

  /** A float is shortened to single precision although it is a NaN with the sign bit. */
  predicate LosesSign(raw: uint64) {
    var f := Floats.Unpack64(raw);
    Floats.TestFp64Size(f) == 4 && Floats.IsNaN64(f) && f.sign == 1
  }

  /** What the options must be for a scalar or a string to come back as it was. */
  predicate LeafKept(ec: EncConfig, dc: Config, v: Val) {
    match v
    case Str(_) => if ec.strings.AsText? then dc.textStr else dc.byteStr
    case ByteStr(_) => !dc.byteStr
    case TextStr(_) => !dc.textStr
    case Float(raw) =>
      var size := Floats.TestFp64Size(Floats.Unpack64(raw));
      ec.compactFloats ==> (size == 2 ==> dc.float16) && (size == 4 ==> dc.float32 && !LosesSign(raw))
    case Float16(_) => !dc.float16
    case Float32(raw) => !dc.float32 && !(ec.cde && Floats.TestFp32Size(Floats.Unpack32(raw)) == 2)
    case _ => true
  }

  lemma FloatComesBack(ec: EncConfig, dc: Config, raw: uint64)
    ensures ScalarView(ec, dc, Val.Float(raw)) == Val.Float(raw) <==> LeafKept(ec, dc, Val.Float(raw))
  {
    hide Floats.TestFp64Size, Floats.FromFloat16, Floats.Float64To16, Floats.Unpack16, Floats.Pack64, Floats.Unpack64,
      Floats.FromFloat32, Floats.Float64To32, Floats.Unpack32, Floats.Pack32, Floats.IsNaN64;
    var f := Floats.Unpack64(raw);
    var size := Floats.TestFp64Size(f);
    if ec.compactFloats && size == 2 {
      Floats.HalfIsLossless(raw);
    } else if ec.compactFloats && size == 4 {
      Floats.SingleIsLossless(raw);
    }
  }

  /** A scalar is returned unchanged exactly under the options named. */
  lemma ScalarComesBack(ec: EncConfig, dc: Config, v: Val)
    requires IsScalar(v)
    ensures ScalarView(ec, dc, v) == v <==> LeafKept(ec, dc, v)
  {
    if v.Float? {
      FloatComesBack(ec, dc, v.raw);
    }
    hide FloatToken, Floats.TestFp32Size, Floats.Unpack32, Floats.Float32To16, LosesSign;
  }

  /** The options keep all scalars and strings of a value, and namespace tags. */
  predicate Kept(ec: EncConfig, dc: Config, v: Val) {
    match v
    case List(elems) => forall i :: 0 <= i < |elems| ==> Kept(ec, dc, elems[i])
    case Tag(tag, content) => !StripsTag(dc, tag) && Kept(ec, dc, content)
    case _ => LeafKept(ec, dc, v)
  }

  /** `w` is `v` with objects replaced by their copies. */
  predicate Equal(origin: seq<nat>, v: Val, w: Val) {
    match v
    case List(elems) => w.List? && |w.elems| == |elems| && forall i :: 0 <= i < |elems| ==> Equal(origin, elems[i], w.elems[i])
    case Tag(tag, content) => w.Tag? && w.tag == tag && Equal(origin, content, w.content)
    case Obj(id) => w.Obj? && w.id < |origin| && origin[w.id] == id
    case _ => w == v
  }

  lemma {:induction false} SameIsEqual(ec: EncConfig, dc: Config, origin: seq<nat>, v: Val, w: Val)
    requires Same(ec, dc, origin, v, w) && Kept(ec, dc, v)
    ensures Equal(origin, v, w)
  {
    match v
    case List(elems) =>
      forall i | 0 <= i < |elems| ensures Equal(origin, elems[i], w.elems[i]) {
        SameIsEqual(ec, dc, origin, elems[i], w.elems[i]);
      }
    case Tag(_, content) => SameIsEqual(ec, dc, origin, content, w.content);
    case Str(_) =>
    case ByteStr(_) =>
    case TextStr(_) =>
    case Obj(_) =>
    case _ => ScalarComesBack(ec, dc, v);
  }

  predicate NoObjects(v: Val) {
    match v
    case Obj(_) => false
    case List(elems) => forall i :: 0 <= i < |elems| ==> NoObjects(elems[i])
    case Tag(_, content) => NoObjects(content)
    case _ => true
  }

  /** Without objects, equal means identical. */
  lemma {:induction false} EqualIsIdentical(origin: seq<nat>, v: Val, w: Val)
    requires Equal(origin, v, w) && NoObjects(v)
    ensures w == v
  {
    match v
    case List(elems) =>
      forall i | 0 <= i < |elems| ensures w.elems[i] == elems[i] {
        EqualIsIdentical(origin, elems[i], w.elems[i]);
      }
    case Tag(_, content) => EqualIsIdentical(origin, content, w.content);
    case _ =>
  }

  predicate GraphKept(ec: EncConfig, dc: Config, g: Graph) {
    forall i, j :: 0 <= i < |g.heap| && 0 <= j < |g.heap[i]| ==> Kept(ec, dc, g.heap[i][j].val)
  }

  /** Copy `d` has the properties of its original, names and values, in the same order. */
  predicate EqualProps(origin: seq<nat>, props: Props, copy: Props) {
    && |props| == |copy|
    && forall i :: 0 <= i < |props| ==> props[i].key == copy[i].key && Equal(origin, props[i].val, copy[i].val)
  }

  /** The value `v` with its objects; without objects, identically. */
  predicate ComesBack(g: Graph, v: Val, d: R<(Val, Env)>, origin: seq<nat>) {
    && d.Ok? && Equal(origin, v, d.value.0) && |d.value.1.heap| == |origin|
    && (NoObjects(v) ==> d.value.0 == v)
    && forall i :: 0 <= i < |origin| ==>
         origin[i] < |g.heap| && EqualProps(origin, g.heap[origin[i]], d.value.1.heap[i])
  }

  /**
   What has been encoded comes back, exactly: the value and the properties of all objects are as they were.
   It holds with and without integer keys, string references, value sharing and self-description, as
   long as the decoder does not take a tag of the value for the self-describe prefix.
   */
  lemma EncodedComesBack(ec: EncConfig, dc: Config, g: Graph, v: Val) returns (origin: seq<nat>)
    requires Compatible(ec, dc) && GraphOk(ec, dc, g) && ValOk(ec, dc, g, v) && Needs(ec, dc, g, v) <= dc.maxDepth
    requires Encode(ec, g, v).Ok? && !LosesTag(ec, dc, v) && !(ec.selfDescribe && dc.selfDescribe)
    requires Kept(ec, dc, v) && GraphKept(ec, dc, g)
    ensures ComesBack(g, v, DecodeContext.DecodeAll(dc, Encode(ec, g, v).value), origin)
  {
    hide Encode, CloneVal, Kept, Equal, Same, DecodeContext.DecodeAll, GraphOk, ValOk, Needs, LosesTag;
    EncodingDecodes(ec, dc, g, v);
    CloneValSame(ec, dc, g, NO_CLONE, v, Room(ec, 0));
    var r := RootClone(ec, dc, g, v);
    origin := r.clone.origin;
    SameIsEqual(ec, dc, origin, v, r.val);
    if NoObjects(v) {
      EqualIsIdentical(origin, v, r.val);
    }
    forall i | 0 <= i < |origin|
      ensures origin[i] < |g.heap| && EqualProps(origin, g.heap[origin[i]], r.clone.heap[i])
    {
      assert Mirrors(ec, dc, g, r.clone, i);
      var props, copy := g.heap[origin[i]], r.clone.heap[i];
      forall j | 0 <= j < |props| ensures Equal(origin, props[j].val, copy[j].val) {
        SameIsEqual(ec, dc, origin, props[j].val, copy[j].val);
      }
    }
  }

  /**
   The full round trip: what can be encoded is, and comes back exactly. Without sharing, these are all
   values that are encoded at all.
   */
  lemma FullRoundTrip(ec: EncConfig, dc: Config, g: Graph, v: Val) returns (origin: seq<nat>)
    requires Compatible(ec, dc) && GraphOk(ec, dc, g) && ValOk(ec, dc, g, v) && DepthLimits.DepthOk(ec, dc, v)
    requires CanEncode(ec, g, v, ec.maxDepth, {}) && FewStrings(ec, g, v)
    requires !LosesTag(ec, dc, v) && !(ec.selfDescribe && dc.selfDescribe)
    requires Kept(ec, dc, v) && GraphKept(ec, dc, g)
    ensures Encode(ec, g, v).Ok?
    ensures ComesBack(g, v, DecodeContext.DecodeAll(dc, Encode(ec, g, v).value), origin)
  {
    hide Encode, Kept, GraphKept, DecodeContext.DecodeAll, GraphOk, ValOk, Needs, LosesTag, FewStrings, CanEncode, ComesBack;
    EncodableIsEncoded(ec, g, v);
    DepthLimits.DepthSuffices(ec, dc, g, v);
    origin := EncodedComesBack(ec, dc, g, v);
  }
}
