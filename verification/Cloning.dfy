/**
 What decoding an encoded value is to give: a copy of the value, made object by object in the order
 in which the encoder meets them. An object with a reference count above one is copied once if
 sharing is on; strings, floats and namespace tags come out as the decoder's options say.
 */
module Cloning {
  import opened Bytes
  import opened Wrappers
  import opened Values
  import opened Wire
  import opened DecoderConfig
  import opened Encoder

  /**
   The copies made so far; `origin[d]` is the object that copy `d` is of. `ok` tells that nothing
   was too deep and no object missing.
   */
  datatype Clone = Clone(heap: Heap, origin: seq<nat>, ok: bool) {
    predicate Valid() { |heap| == |origin| }
  }

  /** The copy a value was turned into, and the copies made by then. */
  datatype Cloned = Cloned(val: Val, clone: Clone)

  /** The first copy of an object. */
  function CopyOf(origin: seq<nat>, id: nat): (i: nat)
    ensures i <= |origin| && (i < |origin| <==> id in origin)
    ensures i < |origin| ==> origin[i] == id
  {
    if origin == [] || origin[0] == id then 0 else 1 + CopyOf(origin[1..], id)
  }

  function StringView(dc: Config, s: bytes, isText: bool): Val {
    if (if isText then dc.textStr else dc.byteStr) then Str(s) else if isText then TextStr(s) else ByteStr(s)
  }

  function ScalarView(ec: EncConfig, dc: Config, v: Val): Val
    requires IsScalar(v)
  {
    match ScalarToken(ec, v)
    case Float16(raw) => FloatItem16(dc, raw)
    case Float32(raw) => FloatItem32(dc, raw)
    case Float64(raw) => Val.Float(raw)
    case _ => v
  }

  predicate StripsTag(dc: Config, tag: int) { tag >= 0 && HandlerOf(dc, tag).StrRefNs? }

  /** `fuel` is how deep the value may be; an encoding that succeeds has fuel enough. */
  function CloneVal(ec: EncConfig, dc: Config, g: Graph, c: Clone, v: Val, fuel: nat): (r: Cloned)
    requires c.Valid()
    ensures r.clone.Valid() && |c.heap| <= |r.clone.heap| && (r.clone.ok ==> c.ok)
    decreases fuel, 1
  {
    if fuel == 0 then Cloned(Val.Null, c.(ok := false))
    else
      match v
      case Str(s) => Cloned(StringView(dc, s, ec.strings.AsText?), c)
      case ByteStr(s) => Cloned(StringView(dc, s, false), c)
      case TextStr(s) => Cloned(StringView(dc, s, true), c)
      case List(elems) =>
        var r := CloneElems(ec, dc, g, c, elems, fuel - 1);
        Cloned(List(r.0), r.1)
      case Obj(id) => CloneObject(ec, dc, g, c, id, fuel)
      case Tag(tag, content) =>
        var r := CloneVal(ec, dc, g, c, content, fuel - 1);
        Cloned(if StripsTag(dc, tag) then r.val else Tag(tag, r.val), r.clone)
      case _ => Cloned(ScalarView(ec, dc, v), c)
  }

  function CloneElems(ec: EncConfig, dc: Config, g: Graph, c: Clone, elems: seq<Val>, fuel: nat): (r: (seq<Val>, Clone))
    requires c.Valid()
    ensures r.1.Valid() && |c.heap| <= |r.1.heap| && |r.0| == |elems| && (r.1.ok ==> c.ok)
    decreases fuel, 2, |elems|
  {
    if elems == [] then ([], c)
    else
      var first := CloneVal(ec, dc, g, c, elems[0], fuel);
      var rest := CloneElems(ec, dc, g, first.clone, elems[1..], fuel);
      ([first.val] + rest.0, rest.1)
  }

  predicate IsShared(ec: EncConfig, g: Graph, id: nat) { ec.sharedRef && id in g.counted }

  function NewCopy(c: Clone, id: nat): Clone { Clone(c.heap + [[]], c.origin + [id], c.ok) }

  function CloneObject(ec: EncConfig, dc: Config, g: Graph, c: Clone, id: nat, fuel: nat): (r: Cloned)
    requires c.Valid() && fuel > 0
    ensures r.clone.Valid() && |c.heap| <= |r.clone.heap| && (r.clone.ok ==> c.ok)
    decreases fuel, 0
  {
    if IsShared(ec, g, id) && id in c.origin then Cloned(Obj(CopyOf(c.origin, id)), c)
    else if id >= |g.heap| then Cloned(Val.Null, c.(ok := false))
    else Cloned(Obj(|c.heap|), CloneProps(ec, dc, g, NewCopy(c, id), |c.heap|, g.heap[id], fuel - 1))
  }

  /** Adds copies of `props` to the copy `dest`. */
  function CloneProps(ec: EncConfig, dc: Config, g: Graph, c: Clone, dest: nat, props: Props, fuel: nat): (r: Clone)
    requires c.Valid() && dest < |c.heap|
    ensures r.Valid() && |c.heap| <= |r.heap| && (r.ok ==> c.ok)
    decreases fuel, 2, |props|
  {
    if props == [] then c
    else
      var first := CloneVal(ec, dc, g, c, props[0].val, fuel);
      CloneProps(ec, dc, g, AddProp(first.clone, dest, props[0].key, first.val), dest, props[1..], fuel)
  }

  function AddProp(c: Clone, dest: nat, key: bytes, v: Val): Clone
    requires dest < |c.heap|
  {
    c.(heap := c.heap[dest := c.heap[dest] + [Prop(key, v)]])
  }

  // ----- Copies are only added -----

  /** `c1` has the copies of `c`, and more behind them. */
  predicate Extends(c: Clone, c1: Clone) { c.heap <= c1.heap && c.origin <= c1.origin }

  lemma {:induction false} CloneValExtends(ec: EncConfig, dc: Config, g: Graph, c: Clone, v: Val, fuel: nat)
    requires c.Valid()
    ensures Extends(c, CloneVal(ec, dc, g, c, v, fuel).clone)
    decreases fuel, 1
  {
    if fuel > 0 {
      match v
      case List(elems) => CloneElemsExtends(ec, dc, g, c, elems, fuel - 1);
      case Obj(id) =>
        if !(IsShared(ec, g, id) && id in c.origin) && id < |g.heap| {
          ClonePropsExtends(ec, dc, g, NewCopy(c, id), |c.heap|, g.heap[id], fuel - 1);
        }
      case Tag(tag, content) => CloneValExtends(ec, dc, g, c, content, fuel - 1);
      case _ =>
    }
  }

  lemma {:induction false} CloneElemsExtends(ec: EncConfig, dc: Config, g: Graph, c: Clone, elems: seq<Val>, fuel: nat)
    requires c.Valid()
    ensures Extends(c, CloneElems(ec, dc, g, c, elems, fuel).1)
    decreases fuel, 2, |elems|
  {
    if elems != [] {
      CloneValExtends(ec, dc, g, c, elems[0], fuel);
      CloneElemsExtends(ec, dc, g, CloneVal(ec, dc, g, c, elems[0], fuel).clone, elems[1..], fuel);
    }
  }

  /** Copying properties adds to the copy `dest` and leaves the other copies alone. */
  lemma {:induction false} ClonePropsExtends(
    ec: EncConfig, dc: Config, g: Graph, c: Clone, dest: nat, props: Props, fuel: nat)
    requires c.Valid() && dest < |c.heap|
    ensures var r := CloneProps(ec, dc, g, c, dest, props, fuel);
            && c.origin <= r.origin && c.heap[dest] <= r.heap[dest]
            && forall d :: 0 <= d < |c.heap| && d != dest ==> r.heap[d] == c.heap[d]
    decreases fuel, 2, |props|
  {
    if props != [] {
      CloneValExtends(ec, dc, g, c, props[0].val, fuel);
      var first := CloneVal(ec, dc, g, c, props[0].val, fuel);
      ClonePropsExtends(ec, dc, g, AddProp(first.clone, dest, props[0].key, first.val), dest, props[1..], fuel);
    }
  }
}
