/**
 In what sense a clone is equal to its original. Each copy has the properties of the object it is of,
 in the same order, with corresponding values; and if every object with more than one reference to it
 is shared, then no object is copied twice, so that the graphs are isomorphic, cycles included.
 */
module Isomorphism {
  import opened Bytes
  import opened Wrappers
  import opened Values
  import opened DecoderConfig
  import opened Encoder
  import opened Cloning

  // ----- Equal up to the identity of objects -----

  /** `w` is `v` as the options show it, objects being replaced by their copies. */
  predicate Same(ec: EncConfig, dc: Config, origin: seq<nat>, v: Val, w: Val) {
    match v
    case Str(s) => w == StringView(dc, s, ec.strings.AsText?)
    case ByteStr(s) => w == StringView(dc, s, false)
    case TextStr(s) => w == StringView(dc, s, true)
    case List(elems) =>
      w.List? && |w.elems| == |elems| && forall i :: 0 <= i < |elems| ==> Same(ec, dc, origin, elems[i], w.elems[i])
    case Obj(id) => w.Obj? && w.id < |origin| && origin[w.id] == id
    case Tag(tag, content) =>
      if StripsTag(dc, tag) then Same(ec, dc, origin, content, w)
      else w.Tag? && w.tag == tag && Same(ec, dc, origin, content, w.content)
    case _ => w == ScalarView(ec, dc, v)
  }

  predicate SameProps(ec: EncConfig, dc: Config, origin: seq<nat>, props: Props, copy: Props) {
    && |props| == |copy|
    && forall i :: 0 <= i < |props| ==> props[i].key == copy[i].key && Same(ec, dc, origin, props[i].val, copy[i].val)
  }

  /** Copy `d` has the properties of the object it is a copy of. */
  predicate Mirrors(ec: EncConfig, dc: Config, g: Graph, c: Clone, d: nat)
    requires c.Valid() && d < |c.heap|
  {
    c.origin[d] < |g.heap| && SameProps(ec, dc, c.origin, g.heap[c.origin[d]], c.heap[d])
  }

  lemma {:induction false} SameGrows(ec: EncConfig, dc: Config, origin: seq<nat>, origin1: seq<nat>, v: Val, w: Val)
    requires Same(ec, dc, origin, v, w) && origin <= origin1
    ensures Same(ec, dc, origin1, v, w)
  {
    match v
    case List(elems) =>
      forall i | 0 <= i < |elems| ensures Same(ec, dc, origin1, elems[i], w.elems[i]) {
        SameGrows(ec, dc, origin, origin1, elems[i], w.elems[i]);
      }
    case Tag(tag, content) => SameGrows(ec, dc, origin, origin1, content, if StripsTag(dc, tag) then w else w.content);
    case _ =>
  }

  lemma SamePropsGrows(ec: EncConfig, dc: Config, origin: seq<nat>, origin1: seq<nat>, props: Props, copy: Props)
    requires SameProps(ec, dc, origin, props, copy) && origin <= origin1
    ensures SameProps(ec, dc, origin1, props, copy)
  {
    forall i | 0 <= i < |props| ensures Same(ec, dc, origin1, props[i].val, copy[i].val) {
      SameGrows(ec, dc, origin, origin1, props[i].val, copy[i].val);
    }
  }

  /** What was mirrored stays mirrored as long as the copies concerned are left alone. */
  lemma MirrorsOn(ec: EncConfig, dc: Config, g: Graph, c: Clone, c1: Clone, d: nat)
    requires c.Valid() && c1.Valid() && d < |c.heap| <= |c1.heap| && c.origin <= c1.origin && c.heap[d] == c1.heap[d]
    requires Mirrors(ec, dc, g, c, d)
    ensures Mirrors(ec, dc, g, c1, d)
  {
    SamePropsGrows(ec, dc, c.origin, c1.origin, g.heap[c.origin[d]], c.heap[d]);
  }

  /** All copies from number `from` on mirror their originals, except possibly `but`. */
  predicate MirrorsFrom(ec: EncConfig, dc: Config, g: Graph, c: Clone, from: nat, but: nat)
    requires c.Valid()
  {
    forall d :: from <= d < |c.heap| && d != but ==> Mirrors(ec, dc, g, c, d)
  }

  lemma MirrorsFromOn(ec: EncConfig, dc: Config, g: Graph, c: Clone, c1: Clone, from: nat, but: nat)
    requires c.Valid() && c1.Valid() && |c.heap| <= |c1.heap| && c.origin <= c1.origin
    requires forall d :: from <= d < |c.heap| && d != but ==> c.heap[d] == c1.heap[d]
    requires MirrorsFrom(ec, dc, g, c, from, but) && MirrorsFrom(ec, dc, g, c1, |c.heap|, but)
    ensures MirrorsFrom(ec, dc, g, c1, from, but)
  {
    forall d | from <= d < |c1.heap| && d != but ensures Mirrors(ec, dc, g, c1, d) {
      if d < |c.heap| {
        MirrorsOn(ec, dc, g, c, c1, d);
      }
    }
  }

  lemma {:induction false} CloneValSame(ec: EncConfig, dc: Config, g: Graph, c: Clone, v: Val, fuel: nat)
    requires c.Valid() && CloneVal(ec, dc, g, c, v, fuel).clone.ok
    ensures var r := CloneVal(ec, dc, g, c, v, fuel);
            Same(ec, dc, r.clone.origin, v, r.val) && MirrorsFrom(ec, dc, g, r.clone, |c.heap|, |r.clone.heap|)
    decreases fuel, 1
  {
    match v
    case List(elems) => CloneElemsSame(ec, dc, g, c, elems, fuel - 1);
    case Obj(id) =>
      if !(IsShared(ec, g, id) && id in c.origin) {
        var c1 := NewCopy(c, id);
        ClonePropsSame(ec, dc, g, c1, |c.heap|, g.heap[id], 0, fuel - 1);
        ClonePropsExtends(ec, dc, g, c1, |c.heap|, g.heap[id], fuel - 1);
        assert g.heap[id][0..] == g.heap[id];
        var r := CloneProps(ec, dc, g, c1, |c.heap|, g.heap[id], fuel - 1);
        assert r.origin[|c.heap|] == c1.origin[|c.heap|] == id;
      }
    case Tag(tag, content) => CloneValSame(ec, dc, g, c, content, fuel - 1);
    case _ =>
  }

  lemma {:induction false} CloneElemsSame(ec: EncConfig, dc: Config, g: Graph, c: Clone, elems: seq<Val>, fuel: nat)
    requires c.Valid() && CloneElems(ec, dc, g, c, elems, fuel).1.ok
    ensures var r := CloneElems(ec, dc, g, c, elems, fuel);
            && (forall i :: 0 <= i < |elems| ==> Same(ec, dc, r.1.origin, elems[i], r.0[i]))
            && MirrorsFrom(ec, dc, g, r.1, |c.heap|, |r.1.heap|)
    decreases fuel, 2, |elems|
  {
    if elems != [] {
      var first := CloneVal(ec, dc, g, c, elems[0], fuel);
      var r := CloneElems(ec, dc, g, c, elems, fuel);
      CloneValExtends(ec, dc, g, c, elems[0], fuel);
      CloneElemsExtends(ec, dc, g, first.clone, elems[1..], fuel);
      CloneElemsSame(ec, dc, g, first.clone, elems[1..], fuel);
      CloneValSame(ec, dc, g, c, elems[0], fuel);
      SameGrows(ec, dc, first.clone.origin, r.1.origin, elems[0], first.val);
      MirrorsFromOn(ec, dc, g, first.clone, r.1, |c.heap|, |r.1.heap|);
      forall i | 0 <= i < |elems| ensures Same(ec, dc, r.1.origin, elems[i], r.0[i]) {
        assert i > 0 ==> elems[i] == elems[1..][i - 1];
      }
    }
  }

  /** The first `k` properties have been copied to `dest`; the others are. */
  lemma {:induction false} ClonePropsSame(
    ec: EncConfig, dc: Config, g: Graph, c: Clone, dest: nat, props: Props, k: nat, fuel: nat)
    requires c.Valid() && dest < |c.heap| && k <= |props|
    requires CloneProps(ec, dc, g, c, dest, props[k..], fuel).ok && SameProps(ec, dc, c.origin, props[..k], c.heap[dest])
    ensures var r := CloneProps(ec, dc, g, c, dest, props[k..], fuel);
            SameProps(ec, dc, r.origin, props, r.heap[dest]) && MirrorsFrom(ec, dc, g, r, |c.heap|, dest)
    decreases fuel, 2, |props| - k
  {
    if k == |props| {
      assert props[..k] == props;
    } else {
      hide Same, SameProps, Mirrors;
      var p := props[k];
      assert props[k..][1..] == props[k + 1..];
      var first := CloneVal(ec, dc, g, c, p.val, fuel);
      var c1 := AddProp(first.clone, dest, p.key, first.val);
      CloneValExtends(ec, dc, g, c, p.val, fuel);
      CloneValSame(ec, dc, g, c, p.val, fuel);
      PropAdded(ec, dc, c.origin, c1.origin, props, k, c.heap[dest], first.val);
      ClonePropsSame(ec, dc, g, c1, dest, props, k + 1, fuel);
      ClonePropsExtends(ec, dc, g, c1, dest, props[k + 1..], fuel);
      var r := CloneProps(ec, dc, g, c1, dest, props[k + 1..], fuel);
      MirrorsFromOn(ec, dc, g, first.clone, r, |c.heap|, dest);
    }
  }

  lemma PropAdded(
    ec: EncConfig, dc: Config, origin: seq<nat>, origin1: seq<nat>, props: Props, k: nat, copy: Props, w: Val)
    requires k < |props| && SameProps(ec, dc, origin, props[..k], copy) && origin <= origin1
    requires Same(ec, dc, origin1, props[k].val, w)
    ensures SameProps(ec, dc, origin1, props[..k + 1], copy + [Prop(props[k].key, w)])
  {
    SamePropsGrows(ec, dc, origin, origin1, props[..k], copy);
    forall i | 0 <= i <= k
      ensures Same(ec, dc, origin1, props[..k + 1][i].val, (copy + [Prop(props[k].key, w)])[i].val)
    {
      assert i < k ==> props[..k + 1][i] == props[..k][i];
    }
  }
}
