/**
 The deterministic encoding tells values apart: values that a decoder could return as they were are encoded
 to the same bytes exactly if they are equal up to the order of properties, however far down one looks.
 */
module Injectivity {
  import opened Bytes
  import opened Wrappers
  import opened Values
  import opened DecoderConfig
  import opened Encoder
  import opened KeyOrder
  import opened Canonical
  import opened DeterministicForm
  import opened DeterministicRoundTrip
  import opened ExactRoundTrip
  import Cloning
  import Floats
  import Lockstep
  import Nesting
  import RoundTrip
  import Invariants
  import DecodeContext

  // ----- A reader that skips no tag and goes deep enough -----

  function Reader(ec: EncConfig, dc: Config, m: nat): Config { dc.(selfDescribe := !ec.selfDescribe, maxDepth := m) }

  lemma LeafRead(ec: EncConfig, dc: Config, m: nat, v: Val)
    ensures LeafKept(ec, Reader(ec, dc, m), v) == LeafKept(ec, dc, v)
  {
    hide Floats.TestFp64Size, Floats.Unpack64, Floats.TestFp32Size, Floats.Unpack32, LosesSign;
  }

  lemma TagRead(ec: EncConfig, dc: Config, m: nat, tag: int)
    ensures Lockstep.TagOk(Reader(ec, dc, m), tag) == Lockstep.TagOk(dc, tag)
    ensures Cloning.StripsTag(Reader(ec, dc, m), tag) == Cloning.StripsTag(dc, tag)
  {
  }

  lemma {:induction false} ValRead(ec: EncConfig, dc: Config, m: nat, g: Graph, v: Val)
    requires Lockstep.ValOk(Ordinary(ec), dc, g, v) && Kept(ec, dc, v)
    ensures Lockstep.ValOk(Ordinary(ec), Reader(ec, dc, m), g, v) && Kept(ec, Reader(ec, dc, m), v)
  {
    hide LeafKept, Lockstep.TagOk, Cloning.StripsTag, Lockstep.HasName;
    match v
    case List(elems) =>
      forall i | 0 <= i < |elems|
        ensures Lockstep.ValOk(Ordinary(ec), Reader(ec, dc, m), g, elems[i]) && Kept(ec, Reader(ec, dc, m), elems[i])
      {
        ValRead(ec, dc, m, g, elems[i]);
      }
    case Tag(tag, content) =>
      TagRead(ec, dc, m, tag);
      ValRead(ec, dc, m, g, content);
    case _ => LeafRead(ec, dc, m, v);
  }

  lemma GraphRead(ec: EncConfig, dc: Config, m: nat, g: Graph)
    requires Lockstep.GraphOk(Ordinary(ec), dc, g) && GraphKept(ec, dc, g)
    ensures Lockstep.GraphOk(Ordinary(ec), Reader(ec, dc, m), g) && GraphKept(ec, Reader(ec, dc, m), g)
  {
    hide Lockstep.ValOk, Kept, Invariants.PropsOk;
    forall i, j | 0 <= i < |g.heap| && 0 <= j < |g.heap[i]|
      ensures Lockstep.ValOk(Ordinary(ec), Reader(ec, dc, m), g, g.heap[i][j].val)
      ensures Kept(ec, Reader(ec, dc, m), g.heap[i][j].val)
    {
      assert Lockstep.PropsFit(Ordinary(ec), dc, g, g.heap[i]);
      ValRead(ec, dc, m, g, g.heap[i][j].val);
    }
    forall i | 0 <= i < |g.heap| ensures Lockstep.PropsFit(Ordinary(ec), Reader(ec, dc, m), g, g.heap[i]) {
      assert Lockstep.PropsFit(Ordinary(ec), dc, g, g.heap[i]);
    }
  }

  lemma ReaderOptions(ec: EncConfig, dc: Config, m: nat)
    ensures var r := Reader(ec, dc, m);
            && r.selfDescribe == !ec.selfDescribe && r.maxDepth == m && r.unsafeText == dc.unsafeText && r.intKey == dc.intKey
            && r.keyByte == dc.keyByte && r.keyText == dc.keyText && r.sharedRef == dc.sharedRef && r.stringRef == dc.stringRef
  {
  }

  lemma ReaderFits(ec: EncConfig, dc: Config, m: nat, g: Graph, v: Val)
    requires Lockstep.Compatible(Ordinary(ec), dc)
    ensures Reader(ec, dc, m).maxDepth == m
    ensures Lockstep.Compatible(Ordinary(ec), Reader(ec, dc, m))
    ensures !RoundTrip.LosesTag(ec, Reader(ec, dc, m), v) && !(ec.selfDescribe && Reader(ec, dc, m).selfDescribe)
    ensures RoundTrip.Needs(Ordinary(ec), Reader(ec, dc, m), g, v) == RoundTrip.Needs(Ordinary(ec), Reader(ec, dc, 0), g, v)
  {
    hide Reader, Nesting.NestVal;
    ReaderOptions(ec, dc, m);
    ReaderOptions(ec, dc, 0);
  }

  /** What the options allow, and a decoder with options `dc` keeps. */
  ghost predicate Representable(ec: EncConfig, dc: Config, g: Graph, v: Val) {
    && Lockstep.GraphOk(Ordinary(ec), dc, g) && Lockstep.ValOk(Ordinary(ec), dc, g, v)
    && Kept(ec, dc, v) && GraphKept(ec, dc, g)
  }

  function LevelsNeeded(ec: EncConfig, dc: Config, g: Graph, v: Val): int {
    RoundTrip.Needs(Ordinary(ec), Reader(ec, dc, 0), OrderedGraph(ec, g), v)
  }

  lemma ReadBack(ec: EncConfig, dc: Config, m: nat, g: Graph, v: Val) returns (origin: seq<nat>)
    requires Deterministic(ec) && Encode(ec, g, v).Ok? && Lockstep.Compatible(Ordinary(ec), dc)
    requires Representable(ec, dc, g, v) && LevelsNeeded(ec, dc, g, v) <= m
    ensures var d := DecodeContext.DecodeAll(Reader(ec, dc, m), Encode(ec, g, v).value);
            d.Ok? && Equal(origin, v, d.value.0) && OrderedCopy(ec, g, origin, d.value.1.heap)
  {
    hide Encode, Reader, OrderedGraph, RoundTrip.Needs, DecodeContext.DecodeAll, Lockstep.GraphOk, Lockstep.ValOk,
      Kept, GraphKept, Equal, OrderedCopy, RoundTrip.LosesTag, Lockstep.Compatible;
    GraphRead(ec, dc, m, g);
    ValRead(ec, dc, m, g, v);
    ReaderFits(ec, dc, m, OrderedGraph(ec, g), v);
    origin := OrderedComesBack(ec, Reader(ec, dc, m), g, v);
  }

  // ----- Two values with the same copy -----

  lemma {:induction false} SameCopyAlike(
    ec: EncConfig, g: Graph, v: Val, g': Graph, v': Val, heap: Heap, w: Val, origin: seq<nat>, origin': seq<nat>, n: nat)
    requires OrderedCopy(ec, g, origin, heap) && OrderedCopy(ec, g', origin', heap)
    requires Equal(origin, v, w) && Equal(origin', v', w)
    ensures Alike(g.heap, v, g'.heap, v', n)
    decreases n, 1
  {
    hide SortProps, EqualProps;
    if n > 0 {
      match v
      case List(elems) =>
        forall i | 0 <= i < |elems| ensures Alike(g.heap, elems[i], g'.heap, v'.elems[i], n - 1) {
          SameCopyAlike(ec, g, elems[i], g', v'.elems[i], heap, w.elems[i], origin, origin', n - 1);
        }
      case Tag(_, content) => SameCopyAlike(ec, g, content, g', v'.content, heap, w.content, origin, origin', n - 1);
      case Obj(_) => SameCopyObjects(ec, g, g', heap, w.id, origin, origin', n);
      case _ =>
    }
  }

  lemma {:induction false} SameCopyObjects(
    ec: EncConfig, g: Graph, g': Graph, heap: Heap, d: nat, origin: seq<nat>, origin': seq<nat>, n: nat)
    requires OrderedCopy(ec, g, origin, heap) && OrderedCopy(ec, g', origin', heap) && n > 0 && d < |heap|
    ensures Alike(g.heap, Obj(origin[d]), g'.heap, Obj(origin'[d]), n)
    decreases n, 0
  {
    hide SortProps, Equal, Alike, HasTwin;
    var props, props', copy := g.heap[origin[d]], g'.heap[origin'[d]], heap[d];
    OrderedLength(ec, props);
    OrderedLength(ec, props');
    forall i | 0 <= i < |props| ensures HasTwin(g.heap, props[i], g'.heap, props', n - 1) {
      SortKeeps(ec, props, props[i]);
      var j :| 0 <= j < |props| && SortProps(ec, props)[j] == props[i];
      var k := SortedFrom(ec, props', j);
      SameCopyAlike(ec, g, props[i].val, g', props'[k].val, heap, copy[j].val, origin, origin', n - 1);
      IsTwin(g.heap, props[i], g'.heap, props', k, n - 1);
    }
    AlikeObjects(g.heap, origin[d], g'.heap, origin'[d], n);
  }

  // ----- Equal bytes -----

  lemma EqualBytesAlike(ec: EncConfig, dc: Config, g: Graph, v: Val, g': Graph, v': Val, n: nat)
    requires Deterministic(ec) && Lockstep.Compatible(Ordinary(ec), dc)
    requires Representable(ec, dc, g, v) && Representable(ec, dc, g', v')
    requires Encode(ec, g, v).Ok? && Encode(ec, g', v') == Encode(ec, g, v)
    ensures Alike(g.heap, v, g'.heap, v', n)
  {
    hide Encode, Representable, Alike, Equal, OrderedCopy, LevelsNeeded, DecodeContext.DecodeAll, Lockstep.Compatible;
    var m: nat := Max(0, Max(LevelsNeeded(ec, dc, g, v), LevelsNeeded(ec, dc, g', v')));
    var origin := ReadBack(ec, dc, m, g, v);
    var origin' := ReadBack(ec, dc, m, g', v');
    var d := DecodeContext.DecodeAll(Reader(ec, dc, m), Encode(ec, g, v).value);
    SameCopyAlike(ec, g, v, g', v', d.value.1.heap, d.value.0, origin, origin', n);
  }

  lemma NamesFine(ec: EncConfig, dc: Config, g: Graph)
    requires Lockstep.GraphOk(ec, dc, g)
    ensures HeapNamesOk(g.heap)
  {
    hide Lockstep.ValOk;
    forall i | 0 <= i < |g.heap| ensures NamesOk(g.heap[i]) {
      assert Lockstep.PropsFit(ec, dc, g, g.heap[i]);
    }
  }

  /** However far down one looks. */
  ghost predicate AlikeThroughout(h: Heap, v: Val, h': Heap, v': Val) { forall n: nat :: Alike(h, v, h', v', n) }

  /** Under CBOR_CDE equal bytes stand for values that are equal up to the order of properties, and only for those. */
  lemma BytesDecide(ec: EncConfig, dc: Config, g: Graph, v: Val, g': Graph, v': Val)
    requires Deterministic(ec) && Lockstep.Compatible(Ordinary(ec), dc)
    requires Representable(ec, dc, g, v) && Representable(ec, dc, g', v')
    requires Encode(ec, g, v).Ok?
    ensures Encode(ec, g', v') == Encode(ec, g, v) <==> AlikeThroughout(g.heap, v, g'.heap, v')
  {
    hide Encode, Alike, Lockstep.GraphOk, Lockstep.ValOk, Kept, GraphKept, HeapNamesOk;
    NamesFine(Ordinary(ec), dc, g);
    NamesFine(Ordinary(ec), dc, g');
    if Encode(ec, g', v') == Encode(ec, g, v) {
      forall n: nat ensures Alike(g.heap, v, g'.heap, v', n) {
        EqualBytesAlike(ec, dc, g, v, g', v', n);
      }
    } else if AlikeThroughout(g.heap, v, g'.heap, v') {
      EncodingIsCanonical(ec, g, g', v, v');
    }
  }
}
