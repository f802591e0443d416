/**
 Any finite graph, cyclic or not, can be encoded with value sharing and comes back: what it takes is that
 every object with two or more references to it is counted, that the options cover the strings and names,
 and that both sides may go as deep as all objects together. An object that is met again on the way down is
 then always a shared one, since there are two references to it.
 */
module AnyGraph {
  import opened Bytes
  import opened Wrappers
  import opened Values
  import opened Wire
  import opened DecoderConfig
  import opened Encoder
  import opened Cloning
  import opened Nesting
  import opened Lockstep
  import opened RoundTrip
  import opened StringRefs
  import opened Encodable
  import opened Sharing
  import opened ExactRoundTrip
  import DepthLimits
  import DecodeContext

  // ----- Conditions on a graph -----

  /** The options cover the strings in the value, its tags are not negative, and its objects exist. */
  predicate Fine(ec: EncConfig, g: Graph, v: Val) {
    match v
    case List(elems) => forall i :: 0 <= i < |elems| ==> Fine(ec, g, elems[i])
    case Tag(tag, content) => tag >= 0 && Fine(ec, g, content)
    case Obj(id) => id < |g.heap|
    case _ => LeafFine(ec, v)
  }

  predicate AllFine(ec: EncConfig, g: Graph, props: Props) {
    NamesFine(ec, props) && forall i :: 0 <= i < |props| ==> Fine(ec, g, props[i].val)
  }

  predicate GraphFine(ec: EncConfig, g: Graph) { forall i :: 0 <= i < |g.heap| ==> AllFine(ec, g, g.heap[i]) }

  /** Levels a value takes outside the objects it refers to. */
  function Height(v: Val): nat {
    match v
    case List(elems) => if elems == [] then 0 else 1 + HeightOf(elems)
    case Tag(_, content) => 1 + Height(content)
    case _ => 0
  }

  function HeightOf(vals: seq<Val>): nat { if vals == [] then 0 else Max(Height(vals[0]), HeightOf(vals[1..])) }

  function ObjectHeight(props: Props): nat { if props == [] then 0 else 1 + HeightOf(ValuesOf(props)) }

  /** The levels of the first `n` objects that are not on the path. */
  function LevelsLeft(heap: Heap, path: set<nat>, n: nat): nat
    requires n <= |heap|
  {
    if n == 0 then 0 else LevelsLeft(heap, path, n - 1) + if n - 1 in path then 0 else ObjectHeight(heap[n - 1])
  }

  /** All levels there are. */
  function TotalLevels(g: Graph, v: Val): nat { Height(v) + LevelsLeft(g.heap, {}, |g.heap|) }

  lemma {:induction false} LevelsUsed(heap: Heap, path: set<nat>, id: nat, n: nat)
    requires n <= |heap| && id < |heap| && id !in path
    ensures LevelsLeft(heap, path, n)
            == LevelsLeft(heap, path + {id}, n) + if id < n then ObjectHeight(heap[id]) else 0
  {
    if n > 0 {
      LevelsUsed(heap, path, id, n - 1);
    }
  }

  // ----- Encoding succeeds -----

  /** Numbers have been given to the shared objects that were met. */
  ghost predicate Matches(ec: EncConfig, g: Graph, st: EncState, c: Clone) {
    && st.srns.None? && c.Valid() && c.ok
    && forall id :: id in st.refs <==> IsShared(ec, g, id) && id in c.origin
  }

  ghost predicate Ready(ec: EncConfig, g: Graph, st: EncState, c: Clone, busy: set<nat>) {
    !ec.cde && GraphFine(ec, g) && Matches(ec, g, st, c) && forall id :: id in busy ==> id in c.origin
  }

  ghost predicate Succeeded(ec: EncConfig, g: Graph, r: R<Out>, c: Clone) { r.Ok? && Matches(ec, g, r.value.st, c) }

  lemma {:induction false} ValSucceeds(
    ec: EncConfig, dc: Config, g: Graph, st: EncState, c: Clone, v: Val, depth: nat, busy: set<nat>, rest: seq<Val>)
    requires Ready(ec, g, st, c, busy) && Fine(ec, g, v) && Frugal(ec, g, c.origin, [v] + rest)
    requires depth + Height(v) + LevelsLeft(g.heap, busy, |g.heap|) <= ec.maxDepth
    ensures Succeeded(ec, g, EncVal(Without(ec), g, st, v, depth, busy), CloneVal(ec, dc, g, c, v, Room(ec, depth)).clone)
    decreases Room(ec, depth), 4
  {
    hide Frugal, GraphFine, EncElems, EncObject, CloneElems, CloneObject, Write, LeafFine, LevelsLeft, HeightOf;
    RoomBelow(ec, depth);
    match v
    case List(elems) => ListSucceeds(ec, dc, g, st, c, elems, depth, busy, rest);
    case Tag(_, content) =>
      RefsInTag(content);
      FrugalPop(ec, g, c.origin, v, [content], rest);
      ValSucceeds(ec, dc, g, st, c, content, depth + 1, busy, rest);
    case Obj(id) => ObjectSucceeds(ec, dc, g, st, c, id, depth, busy, rest);
    case _ => LeafFits(ec, g, st, v, depth, busy);
  }

  lemma {:induction false} ListSucceeds(
    ec: EncConfig, dc: Config, g: Graph, st: EncState, c: Clone, elems: seq<Val>, depth: nat, busy: set<nat>, rest: seq<Val>)
    requires Ready(ec, g, st, c, busy) && Fine(ec, g, List(elems)) && Frugal(ec, g, c.origin, [List(elems)] + rest)
    requires depth + Height(List(elems)) + LevelsLeft(g.heap, busy, |g.heap|) <= ec.maxDepth
    ensures Succeeded(ec, g, EncVal(Without(ec), g, st, List(elems), depth, busy),
                      CloneVal(ec, dc, g, c, List(elems), Room(ec, depth)).clone)
    decreases Room(ec, depth), 3
  {
    hide Frugal, GraphFine, EncElems, CloneElems, Write, LevelsLeft, HeightOf;
    RoomBelow(ec, depth);
    FrugalPop(ec, g, c.origin, List(elems), elems, rest);
    if elems == [] {
      NothingSucceeds(ec, dc, g, st, c, depth + 1, busy);
    } else {
      ElemsSucceed(ec, dc, g, st, c, elems, depth + 1, busy, rest);
    }
  }

  lemma NothingSucceeds(ec: EncConfig, dc: Config, g: Graph, st: EncState, c: Clone, depth: nat, busy: set<nat>)
    requires c.Valid()
    ensures EncElems(Without(ec), g, st, [], depth, busy) == Ok(Out([], st))
    ensures CloneElems(ec, dc, g, c, [], Room(ec, depth)) == ([], c)
  {
  }

  lemma {:induction false} ElemsSucceed(
    ec: EncConfig, dc: Config, g: Graph, st: EncState, c: Clone, elems: seq<Val>, depth: nat, busy: set<nat>, rest: seq<Val>)
    requires Ready(ec, g, st, c, busy) && Frugal(ec, g, c.origin, elems + rest)
    requires forall i :: 0 <= i < |elems| ==> Fine(ec, g, elems[i])
    requires elems != [] ==> depth + HeightOf(elems) + LevelsLeft(g.heap, busy, |g.heap|) <= ec.maxDepth
    ensures Succeeded(ec, g, EncElems(Without(ec), g, st, elems, depth, busy), CloneElems(ec, dc, g, c, elems, Room(ec, depth)).1)
    decreases Room(ec, depth), 5, |elems|
  {
    hide Frugal, GraphFine, EncVal, CloneVal, Fine, LevelsLeft;
    if elems != [] {
      assert elems == [elems[0]] + elems[1..];
      Concat([elems[0]], elems[1..], rest);
      ValSucceeds(ec, dc, g, st, c, elems[0], depth, busy, elems[1..] + rest);
      var first := CloneVal(ec, dc, g, c, elems[0], Room(ec, depth));
      CloneValExtends(ec, dc, g, c, elems[0], Room(ec, depth));
      CloneValFrugal(ec, dc, g, c, elems[0], Room(ec, depth), elems[1..] + rest);
      ElemsSucceed(ec, dc, g, EncVal(Without(ec), g, st, elems[0], depth, busy).value.st, first.clone, elems[1..],
                   depth, busy, rest);
    }
  }

  lemma {:induction false} ObjectSucceeds(
    ec: EncConfig, dc: Config, g: Graph, st: EncState, c: Clone, id: nat, depth: nat, busy: set<nat>, rest: seq<Val>)
    requires Ready(ec, g, st, c, busy) && id < |g.heap| && Frugal(ec, g, c.origin, [Obj(id)] + rest)
    requires depth + LevelsLeft(g.heap, busy, |g.heap|) <= ec.maxDepth
    ensures Succeeded(ec, g, EncVal(Without(ec), g, st, Obj(id), depth, busy), CloneVal(ec, dc, g, c, Obj(id), Room(ec, depth)).clone)
    decreases Room(ec, depth), 3
  {
    hide Frugal, EncProps, CloneProps, Write, LevelsLeft, AllFine;
    RoomBelow(ec, depth);
    if IsShared(ec, g, id) && id in c.origin {
      assert EncVal(Without(ec), g, st, Obj(id), depth, busy).Ok?;
    } else {
      hide EncVal, EncObject, EncHash, CloneVal, Matches;
      ReadyForCopy(ec, g, st, c, busy, id);
      FirstCopy(ec, g, c.origin, id, rest);
      FrugalCopy(ec, g, c.origin, id, rest);
      LevelsUsed(g.heap, busy, id, |g.heap|);
      var st1 := if IsShared(ec, g, id) then Number(st, id) else st;
      PropsSucceed(ec, dc, g, st1, NewCopy(c, id), |c.heap|, g.heap[id], depth + 1, busy + {id}, rest);
      ObjectCloned(ec, dc, g, c, id, depth);
      FirstEncoded(Without(ec), g, st, id, depth, busy);
    }
  }

  lemma ReadyForCopy(ec: EncConfig, g: Graph, st: EncState, c: Clone, busy: set<nat>, id: nat)
    requires Ready(ec, g, st, c, busy) && !(IsShared(ec, g, id) && id in c.origin)
    ensures Ready(ec, g, if IsShared(ec, g, id) then Number(st, id) else st, NewCopy(c, id), busy + {id})
    ensures IsShared(ec, g, id) ==> id !in st.refs
    ensures forall id :: id in busy ==> id in c.origin
  {
  }

  lemma FirstEncoded(ec: EncConfig, g: Graph, st: EncState, id: nat, depth: nat, busy: set<nat>)
    requires !ec.cde && depth <= ec.maxDepth && id < |g.heap| && id !in busy && !(IsShared(ec, g, id) && id in st.refs)
    ensures var r := EncProps(ec, g, if IsShared(ec, g, id) then Number(st, id) else st, g.heap[id], depth + 1, busy + {id});
            r.Ok? ==> EncVal(ec, g, st, Obj(id), depth, busy).Ok? && EncVal(ec, g, st, Obj(id), depth, busy).value.st == r.value.st
  {
    hide EncProps, Write;
    var st1 := if IsShared(ec, g, id) then Number(st, id) else st;
    assert EncVal(ec, g, st, Obj(id), depth, busy) == EncObject(ec, g, st, id, depth, busy);
    var r := EncHash(ec, g, st1, id, depth, busy);
    assert EncObject(ec, g, st, id, depth, busy).Ok? == r.Ok?;
  }

  lemma {:induction false} PropsSucceed(
    ec: EncConfig, dc: Config, g: Graph, st: EncState, c: Clone, dest: nat, props: Props, depth: nat, busy: set<nat>,
    rest: seq<Val>)
    requires Ready(ec, g, st, c, busy) && AllFine(ec, g, props) && dest < |c.heap|
    requires Frugal(ec, g, c.origin, ValuesOf(props) + rest)
    requires props != [] ==> depth + HeightOf(ValuesOf(props)) + LevelsLeft(g.heap, busy, |g.heap|) <= ec.maxDepth
    ensures Succeeded(ec, g, EncProps(Without(ec), g, st, props, depth, busy), CloneProps(ec, dc, g, c, dest, props, Room(ec, depth)))
    decreases Room(ec, depth), 5, |props|
  {
    hide Frugal, GraphFine, EncVal, EncKey, CloneVal, Fine, NameFine, LevelsLeft;
    if props != [] {
      Concat([props[0].val], ValuesOf(props[1..]), rest);
      assert ValuesOf(props)[1..] == ValuesOf(props[1..]);
      KeyFits(ec, st, props[0].key);
      ValSucceeds(ec, dc, g, st, c, props[0].val, depth, busy, ValuesOf(props[1..]) + rest);
      var first := CloneVal(ec, dc, g, c, props[0].val, Room(ec, depth));
      CloneValExtends(ec, dc, g, c, props[0].val, Room(ec, depth));
      CloneValFrugal(ec, dc, g, c, props[0].val, Room(ec, depth), ValuesOf(props[1..]) + rest);
      PropsSucceed(ec, dc, g, EncVal(Without(ec), g, st, props[0].val, depth, busy).value.st,
                   AddProp(first.clone, dest, props[0].key, first.val), dest, props[1..], depth, busy, rest);
    }
  }

  /** Any graph can be encoded. */
  lemma AnyGraphEncodes(ec: EncConfig, g: Graph, v: Val)
    requires !ec.cde && GraphFine(ec, g) && Fine(ec, g, v) && FewStrings(ec, g, v) && CountsRefs(ec, g, v)
    requires TotalLevels(g, v) <= ec.maxDepth
    ensures Encode(ec, g, v).Ok?
  {
    hide EncVal, Write, GraphFine, Fine, Frugal, FewStrings, CloneVal;
    NothingCopied(ec, g, v);
    var dc: Config := Config(false, false, false, false, false, false, false, false, false, false, 0, 0, false, false, false);
    ValSucceeds(ec, dc, g, EncState(None, map[]), NO_CLONE, v, 0, {}, []);
    ReferencesFollow(ec, g, v);
  }

  // ----- Graphs come back -----

  /**
   Value sharing preserves graphs: any finite graph, cyclic or not, in which every object with two or more
   references to it is counted is encoded, and decoded to an isomorphic graph, back-edges included.
   */
  lemma GraphComesBack(ec: EncConfig, dc: Config, g: Graph, v: Val) returns (w: Val, origin: seq<nat>)
    requires Compatible(ec, dc) && GraphOk(ec, dc, g) && ValOk(ec, dc, g, v)
    requires GraphFine(ec, g) && Fine(ec, g, v) && FewStrings(ec, g, v) && CountsRefs(ec, g, v)
    requires TotalLevels(g, v) <= ec.maxDepth && DepthLimits.DepthOk(ec, dc, v)
    ensures Encode(ec, g, v).Ok?
    ensures var d := DecodeContext.DecodeAll(dc, Encode(ec, g, v).value);
            && d.Ok? && d.value.0 == Returned(ec, dc, v, w)
            && Isomorphic(ec, dc, g, v, d.value.1.heap, w, origin)
  {
    hide Encode, DecodeContext.DecodeAll, GraphOk, ValOk, Needs, Returned, FewStrings, Isomorphic, GraphFine, Fine, CountsRefs;
    AnyGraphEncodes(ec, g, v);
    DepthLimits.DepthSuffices(ec, dc, g, v);
    w, origin := EncodedGraphComesBack(ec, dc, g, v);
  }

  /** For instance an object that is its own property, with the only reference to it from outside. */
  lemma SelfLoopComesBack(ec: EncConfig, dc: Config, name: bytes) returns (w: Val, origin: seq<nat>)
    requires Compatible(ec, dc) && ec.sharedRef && NameFine(ec, name) && |name| < UINT64_LIMIT - 9 && (name == [] || name[0] != 0)
    requires ec.stringRef.Off? && dc.maxSize > 0 && ec.maxDepth > 0 && DepthLimits.DepthOk(ec, dc, Obj(0))
    ensures var g := Graph([[Prop(name, Obj(0))]], {0});
            && Encode(ec, g, Obj(0)).Ok?
            && var d := DecodeContext.DecodeAll(dc, Encode(ec, g, Obj(0)).value);
               d.Ok? && Isomorphic(ec, dc, g, Obj(0), d.value.1.heap, w, origin)
  {
    hide Encode, DecodeContext.DecodeAll, Isomorphic, Returned;
    var g := Graph([[Prop(name, Obj(0))]], {0});
    assert Lockstep.PropsFit(ec, dc, g, g.heap[0]);
    forall a: nat ensures RefCount(g, Obj(0), a) > 1 ==> IsShared(ec, g, a) {
      if a != 0 {
        assert ValuesOf(g.heap[0]) == [Obj(0)];
        RefsInOne(a, Obj(0));
        assert Unfollowed(g.heap, [], a, 0) == 0;
        assert Unfollowed(g.heap, [], a, 1) == RefsIn(a, ValuesOf(g.heap[0]));
      }
    }
    assert ValuesOf(g.heap[0]) == [Obj(0)] && HeightOf([Obj(0)]) == 0;
    assert LevelsLeft(g.heap, {}, 0) == 0 && LevelsLeft(g.heap, {}, 1) == ObjectHeight(g.heap[0]) == 1;
    w, origin := GraphComesBack(ec, dc, g, Obj(0));
  }
}
