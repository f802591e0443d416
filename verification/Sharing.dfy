/**
 Why no object is copied twice. Every reference to an object is in the value to be encoded or in the
 properties of one object. As long as each object is copied at most once, each reference is followed
 at most once; so an object with a single reference to it is copied at most once.
 */
module Sharing {
  import opened Bytes
  import opened Wrappers
  import opened Values
  import opened DecoderConfig
  import opened Encoder
  import opened Cloning
  import opened Lockstep
  import opened Isomorphism
  import opened RoundTrip
  import DecodeContext

  /** References to the object `a` in a value. */
  function Refs(a: nat, v: Val): nat {
    match v
    case Obj(id) => if id == a then 1 else 0
    case List(elems) => RefsIn(a, elems)
    case Tag(_, content) => Refs(a, content)
    case _ => 0
  }

  function RefsIn(a: nat, vals: seq<Val>): nat {
    if vals == [] then 0 else Refs(a, vals[0]) + RefsIn(a, vals[1..])
  }

  function ValuesOf(props: Props): seq<Val> {
    if props == [] then [] else [props[0].val] + ValuesOf(props[1..])
  }

  /** References in the properties of the objects that have not been copied yet. */
  function Unfollowed(heap: Heap, origin: seq<nat>, a: nat, n: nat): nat
    requires n <= |heap|
  {
    if n == 0 then 0
    else Unfollowed(heap, origin, a, n - 1) + if n - 1 in origin then 0 else RefsIn(a, ValuesOf(heap[n - 1]))
  }

  function Copies(origin: seq<nat>, a: nat): nat {
    if origin == [] then 0 else (if origin[0] == a then 1 else 0) + Copies(origin[1..], a)
  }

  /** Copies made of `a`, and references to it that are still to be followed. */
  function Due(g: Graph, origin: seq<nat>, pending: seq<Val>, a: nat): nat {
    Copies(origin, a) + Unfollowed(g.heap, origin, a, |g.heap|) + RefsIn(a, pending)
  }

  predicate NoneTwice(ec: EncConfig, g: Graph, origin: seq<nat>, pending: seq<Val>, a: nat) {
    if IsShared(ec, g, a) then Copies(origin, a) <= 1 else Due(g, origin, pending, a) <= 1
  }

  /** `pending`: the values that are still to be copied. */
  ghost predicate Frugal(ec: EncConfig, g: Graph, origin: seq<nat>, pending: seq<Val>) {
    forall a: nat :: NoneTwice(ec, g, origin, pending, a)
  }

  // ----- Counting -----

  lemma {:induction false} RefsInConcat(a: nat, s: seq<Val>, t: seq<Val>)
    ensures RefsIn(a, s + t) == RefsIn(a, s) + RefsIn(a, t)
  {
    if s == [] {
      assert s + t == t;
    } else {
      RefsInConcat(a, s[1..], t);
      assert (s + t)[1..] == s[1..] + t;
    }
  }

  lemma {:induction false} CopiesAppend(origin: seq<nat>, id: nat, a: nat)
    ensures Copies(origin + [id], a) == Copies(origin, a) + if id == a then 1 else 0
  {
    if origin == [] {
      assert origin + [id] == [id];
    } else {
      CopiesAppend(origin[1..], id, a);
      assert (origin + [id])[1..] == origin[1..] + [id];
    }
  }

  lemma {:induction false} CopiesPositive(origin: seq<nat>, a: nat)
    ensures a in origin <==> Copies(origin, a) > 0
  {
    if origin != [] {
      CopiesPositive(origin[1..], a);
      assert a in origin <==> a == origin[0] || a in origin[1..];
    }
  }

  lemma {:induction false} AtMostOne(origin: seq<nat>, i: nat, j: nat)
    requires i < j < |origin| && Copies(origin, origin[j]) <= 1
    ensures origin[i] != origin[j]
  {
    if i == 0 {
      CopiesPositive(origin[1..], origin[j]);
      assert origin[1..][j - 1] == origin[j];
    } else {
      AtMostOne(origin[1..], i - 1, j - 1);
    }
  }

  /** Copying `id` for the first time takes the references in its properties off the account. */
  lemma {:induction false} UnfollowedCopy(heap: Heap, origin: seq<nat>, id: nat, a: nat, n: nat)
    requires n <= |heap| && id < |heap| && id !in origin
    ensures Unfollowed(heap, origin, a, n)
            == Unfollowed(heap, origin + [id], a, n) + if id < n then RefsIn(a, ValuesOf(heap[id])) else 0
  {
    if n > 0 {
      UnfollowedCopy(heap, origin, id, a, n - 1);
      assert n - 1 in origin + [id] <==> n - 1 in origin || n - 1 == id;
    }
  }

  // ----- Steps -----

  lemma FrugalPop(ec: EncConfig, g: Graph, origin: seq<nat>, v: Val, vals: seq<Val>, rest: seq<Val>)
    requires Frugal(ec, g, origin, [v] + rest)
    requires forall a :: !IsShared(ec, g, a) ==> RefsIn(a, vals) <= Refs(a, v)
    ensures Frugal(ec, g, origin, vals + rest)
  {
    hide Copies, Unfollowed, RefsIn, Refs;
    forall a: nat ensures NoneTwice(ec, g, origin, vals + rest, a) {
      assert NoneTwice(ec, g, origin, [v] + rest, a);
      RefsInConcat(a, vals, rest);
      RefsInConcat(a, [v], rest);
      RefsInOne(a, v);
    }
  }

  lemma RefsInOne(a: nat, v: Val)
    ensures RefsIn(a, [v]) == Refs(a, v)
  {
  }

  /** An object that may be copied has not been copied before. */
  lemma FirstCopy(ec: EncConfig, g: Graph, origin: seq<nat>, id: nat, rest: seq<Val>)
    requires Frugal(ec, g, origin, [Obj(id)] + rest) && !(IsShared(ec, g, id) && id in origin)
    ensures id !in origin
  {
    assert NoneTwice(ec, g, origin, [Obj(id)] + rest, id);
    RefsInConcat(id, [Obj(id)], rest);
    CopiesPositive(origin, id);
  }

  lemma FrugalCopy(ec: EncConfig, g: Graph, origin: seq<nat>, id: nat, rest: seq<Val>)
    requires Frugal(ec, g, origin, [Obj(id)] + rest) && id < |g.heap| && !(IsShared(ec, g, id) && id in origin)
    ensures Frugal(ec, g, origin + [id], ValuesOf(g.heap[id]) + rest)
  {
    FirstCopy(ec, g, origin, id, rest);
    var vals := ValuesOf(g.heap[id]);
    forall a: nat ensures NoneTwice(ec, g, origin + [id], vals + rest, a) {
      CopyOnce(ec, g, origin, id, rest, a);
    }
  }

  lemma CopyOnce(ec: EncConfig, g: Graph, origin: seq<nat>, id: nat, rest: seq<Val>, a: nat)
    requires NoneTwice(ec, g, origin, [Obj(id)] + rest, a) && id < |g.heap| && id !in origin
    ensures NoneTwice(ec, g, origin + [id], ValuesOf(g.heap[id]) + rest, a)
  {
    RefsInOne(a, Obj(id));
    assert Refs(a, Obj(id)) == if id == a then 1 else 0;
    hide Copies, Unfollowed, RefsIn, Refs;
    CopiesAppend(origin, id, a);
    CopiesPositive(origin, a);
    UnfollowedCopy(g.heap, origin, id, a, |g.heap|);
    RefsInConcat(a, ValuesOf(g.heap[id]), rest);
    RefsInConcat(a, [Obj(id)], rest);
  }

  lemma {:induction false} CloneValFrugal(
    ec: EncConfig, dc: Config, g: Graph, c: Clone, v: Val, fuel: nat, rest: seq<Val>)
    requires c.Valid() && CloneVal(ec, dc, g, c, v, fuel).clone.ok && Frugal(ec, g, c.origin, [v] + rest)
    ensures Frugal(ec, g, CloneVal(ec, dc, g, c, v, fuel).clone.origin, rest)
    decreases fuel, 1
  {
    hide Frugal;
    match v
    case List(elems) =>
      FrugalPop(ec, g, c.origin, v, elems, rest);
      CloneElemsFrugal(ec, dc, g, c, elems, fuel - 1, rest);
    case Obj(id) =>
      if IsShared(ec, g, id) && id in c.origin {
        FrugalPop(ec, g, c.origin, v, [], rest);
        EmptyConcat(rest);
      } else {
        FrugalCopy(ec, g, c.origin, id, rest);
        ClonePropsFrugal(ec, dc, g, NewCopy(c, id), |c.heap|, g.heap[id], fuel - 1, rest);
      }
    case Tag(tag, content) =>
      RefsInTag(content);
      FrugalPop(ec, g, c.origin, v, [content], rest);
      CloneValFrugal(ec, dc, g, c, content, fuel - 1, rest);
    case _ =>
      FrugalPop(ec, g, c.origin, v, [], rest);
      EmptyConcat(rest);
  }

  lemma RefsInTag(content: Val)
    ensures forall a: nat :: RefsIn(a, [content]) == Refs(a, content)
  {
    forall a: nat ensures RefsIn(a, [content]) == Refs(a, content) {
      RefsInOne(a, content);
    }
  }

  lemma {:induction false} CloneElemsFrugal(
    ec: EncConfig, dc: Config, g: Graph, c: Clone, elems: seq<Val>, fuel: nat, rest: seq<Val>)
    requires c.Valid() && CloneElems(ec, dc, g, c, elems, fuel).1.ok && Frugal(ec, g, c.origin, elems + rest)
    ensures Frugal(ec, g, CloneElems(ec, dc, g, c, elems, fuel).1.origin, rest)
    decreases fuel, 2, |elems|
  {
    hide Frugal;
    if elems == [] {
      EmptyConcat(rest);
    } else {
      assert elems == [elems[0]] + elems[1..];
      Concat([elems[0]], elems[1..], rest);
      CloneValFrugal(ec, dc, g, c, elems[0], fuel, elems[1..] + rest);
      CloneElemsFrugal(ec, dc, g, CloneVal(ec, dc, g, c, elems[0], fuel).clone, elems[1..], fuel, rest);
    }
  }

  lemma {:induction false} ClonePropsFrugal(
    ec: EncConfig, dc: Config, g: Graph, c: Clone, dest: nat, props: Props, fuel: nat, rest: seq<Val>)
    requires c.Valid() && dest < |c.heap| && CloneProps(ec, dc, g, c, dest, props, fuel).ok
    requires Frugal(ec, g, c.origin, ValuesOf(props) + rest)
    ensures Frugal(ec, g, CloneProps(ec, dc, g, c, dest, props, fuel).origin, rest)
    decreases fuel, 2, |props|
  {
    hide Frugal;
    if props == [] {
      EmptyConcat(rest);
    } else {
      Concat([props[0].val], ValuesOf(props[1..]), rest);
      CloneValFrugal(ec, dc, g, c, props[0].val, fuel, ValuesOf(props[1..]) + rest);
      var first := CloneVal(ec, dc, g, c, props[0].val, fuel);
      ClonePropsFrugal(ec, dc, g, AddProp(first.clone, dest, props[0].key, first.val), dest, props[1..], fuel, rest);
    }
  }

  // ----- Graphs -----

  /** All references to `a`: the reference count of the object, if nothing else refers to it. */
  function RefCount(g: Graph, v: Val, a: nat): nat {
    Unfollowed(g.heap, [], a, |g.heap|) + Refs(a, v)
  }

  /** Objects with two or more references have a reference count above one. */
  ghost predicate CountsRefs(ec: EncConfig, g: Graph, v: Val) {
    forall a: nat :: RefCount(g, v, a) > 1 ==> IsShared(ec, g, a)
  }

  /** `w` with `heap` is an exact copy of `v` with the objects it refers to, `origin` telling which is which. */
  ghost predicate Isomorphic(ec: EncConfig, dc: Config, g: Graph, v: Val, heap: Heap, w: Val, origin: seq<nat>) {
    && |heap| == |origin|
    && Same(ec, dc, origin, v, w)
    && (forall d :: 0 <= d < |heap| ==> Mirrors(ec, dc, g, Clone(heap, origin, true), d))
    && (forall i, j :: 0 <= i < j < |origin| ==> origin[i] != origin[j])
  }

  lemma NothingCopied(ec: EncConfig, g: Graph, v: Val)
    requires CountsRefs(ec, g, v)
    ensures Frugal(ec, g, [], [v] + [])
  {
    forall a: nat ensures NoneTwice(ec, g, [], [v] + [], a) {
      RefsInConcat(a, [v], []);
      RefsInOne(a, v);
      assert RefCount(g, v, a) > 1 ==> IsShared(ec, g, a);
    }
  }

  /** The clone of a graph is isomorphic to it. */
  lemma CloneIsIsomorphic(ec: EncConfig, dc: Config, g: Graph, v: Val)
    requires RootClone(ec, dc, g, v).clone.ok && CountsRefs(ec, g, v)
    ensures var r := RootClone(ec, dc, g, v);
            Isomorphic(ec, dc, g, v, r.clone.heap, r.val, r.clone.origin)
  {
    var r := RootClone(ec, dc, g, v);
    CloneValSame(ec, dc, g, NO_CLONE, v, Room(ec, 0));
    NothingCopied(ec, g, v);
    CloneValFrugal(ec, dc, g, NO_CLONE, v, Room(ec, 0), []);
    hide Mirrors, Same, CloneVal, Due;
    var origin := r.clone.origin;
    assert r.clone == Clone(r.clone.heap, origin, true);
    forall i, j | 0 <= i < j < |origin| ensures origin[i] != origin[j] {
      assert NoneTwice(ec, g, origin, [], origin[j]);
      OneCopy(ec, g, origin, origin[j]);
      AtMostOne(origin, i, j);
    }
  }

  lemma OneCopy(ec: EncConfig, g: Graph, origin: seq<nat>, a: nat)
    requires NoneTwice(ec, g, origin, [], a)
    ensures Copies(origin, a) <= 1
  {
  }

  /**
   If every object with two or more references to it is shared, then what has been encoded is decoded to
   an isomorphic graph, back-edges included.
   */
  lemma EncodedGraphComesBack(ec: EncConfig, dc: Config, g: Graph, v: Val) returns (w: Val, origin: seq<nat>)
    requires Compatible(ec, dc) && GraphOk(ec, dc, g) && ValOk(ec, dc, g, v) && CountsRefs(ec, g, v)
    requires Encode(ec, g, v).Ok? && Needs(ec, dc, g, v) <= dc.maxDepth
    ensures var d := DecodeContext.DecodeAll(dc, Encode(ec, g, v).value);
            && d.Ok? && d.value.0 == Returned(ec, dc, v, w)
            && Isomorphic(ec, dc, g, v, d.value.1.heap, w, origin)
  {
    hide Isomorphic, Encode, CloneVal, Needs;
    EncodingDecodes(ec, dc, g, v);
    CloneIsIsomorphic(ec, dc, g, v);
    var r := RootClone(ec, dc, g, v);
    w, origin := r.val, r.clone.origin;
  }
}
