/**
 A deterministic encoding exists exactly if there is an ordinary one of the ordered graph. The ordinary
 encoder refuses cycles, as it keeps the set of objects being encoded. The deterministic one does not
 keep it while values are encoded; but on a cycle its depth would grow without bound.
 */
module DeterministicRoundTrip {
  import opened Bytes
  import opened Wrappers
  import opened Values
  import opened Wire
  import opened DecoderConfig
  import opened Encoder
  import opened KeyOrder
  import opened Canonical
  import opened DeterministicForm
  import Lockstep
  import opened ExactRoundTrip
  import RoundTrip
  import DecodeContext
  import Invariants
  import Floats

  predicate ObjectOk(ec: EncConfig, g: Graph, st: EncState, id: nat, depth: nat) {
    depth <= ec.maxDepth && EncHash(ec, g, st, id, depth, {}).Ok?
  }

  predicate ValueOk(ec: EncConfig, g: Graph, st: EncState, v: Val, depth: nat) {
    EncVal(ec, g, st, v, depth, {}).Ok?
  }

  /** Wherever the object `id` can be encoded, `v` can be encoded somewhere deeper. */
  ghost predicate Contains(ec: EncConfig, g: Graph, st: EncState, id: nat, v: Val) {
    forall d: nat :: ObjectOk(ec, g, st, id, d) ==> exists e: nat :: e > d && ValueOk(ec, g, st, v, e)
  }

  ghost predicate AllContain(ec: EncConfig, g: Graph, st: EncState, busy: set<nat>, v: Val) {
    forall id: nat :: id in busy ==> Contains(ec, g, st, id, v)
  }

  /** No object that can be encoded contains itself. */
  lemma {:induction false} NoCycle(ec: EncConfig, g: Graph, st: EncState, id: nat, depth: nat)
    requires Deterministic(ec) && ObjectOk(ec, g, st, id, depth)
    ensures !Contains(ec, g, st, id, Obj(id))
    decreases Room(ec, depth)
  {
    hide EncHash;
    if Contains(ec, g, st, id, Obj(id)) {
      var e: nat :| e > depth && ValueOk(ec, g, st, Obj(id), e);
      ObjectValueOk(ec, g, st, id, e);
      NoCycle(ec, g, st, id, e);
    }
  }

  lemma ObjectValueOk(ec: EncConfig, g: Graph, st: EncState, id: nat, depth: nat)
    requires Deterministic(ec)
    ensures ValueOk(ec, g, st, Obj(id), depth) <==> ObjectOk(ec, g, st, id, depth)
  {
    hide EncHash;
    if depth <= ec.maxDepth {
      assert EncVal(ec, g, st, Obj(id), depth, {}) == EncObject(ec, g, st, id, depth, {});
      assert EncObject(ec, g, st, id, depth, {}) == EncHash(ec, g, st, id, depth, {});
    }
  }

  // ----- Parts of what can be encoded can be encoded -----

  lemma {:induction false} ElementOk(ec: EncConfig, g: Graph, st: EncState, elems: seq<Val>, depth: nat, i: nat)
    requires Deterministic(ec) && st.srns.None? && EncElems(ec, g, st, elems, depth, {}).Ok? && i < |elems|
    ensures ValueOk(ec, g, st, elems[i], depth)
    decreases |elems|
  {
    hide EncVal;
    ValStays(ec, g, st, elems[0], depth, {});
    if i > 0 {
      ElementOk(ec, g, st, elems[1..], depth, i - 1);
    }
  }

  lemma {:induction false} EntryOk(ec: EncConfig, g: Graph, st: EncState, entries: seq<Entry>, depth: nat, i: nat)
    requires Deterministic(ec) && st.srns.None? && EncEntries(ec, g, st, entries, depth, {}).Ok? && i < |entries|
    ensures ValueOk(ec, g, st, entries[i].val, depth)
    decreases |entries|
  {
    hide EncVal;
    ValStays(ec, g, st, entries[0].val, depth, {});
    if i > 0 {
      EntryOk(ec, g, st, entries[1..], depth, i - 1);
    }
  }

  /** A part is encoded one level deeper than the whole. */
  ghost predicate PartOf(ec: EncConfig, g: Graph, st: EncState, part: Val, v: Val) {
    forall d: nat :: ValueOk(ec, g, st, v, d) ==> ValueOk(ec, g, st, part, d + 1)
  }

  lemma ContainsPart(ec: EncConfig, g: Graph, st: EncState, busy: set<nat>, v: Val, part: Val)
    requires AllContain(ec, g, st, busy, v) && PartOf(ec, g, st, part, v)
    ensures AllContain(ec, g, st, busy, part)
  {
    hide ObjectOk, ValueOk;
    forall id: nat, d: nat | id in busy && ObjectOk(ec, g, st, id, d)
      ensures exists e: nat :: e > d && ValueOk(ec, g, st, part, e)
    {
      assert Contains(ec, g, st, id, v);
      var e: nat :| e > d && ValueOk(ec, g, st, v, e);
      assert ValueOk(ec, g, st, part, e + 1);
    }
  }

  lemma ElementIsPart(ec: EncConfig, g: Graph, st: EncState, elems: seq<Val>, i: nat)
    requires Deterministic(ec) && st.srns.None? && i < |elems|
    ensures PartOf(ec, g, st, elems[i], List(elems))
  {
    hide EncElems;
    forall d: nat | ValueOk(ec, g, st, List(elems), d) ensures ValueOk(ec, g, st, elems[i], d + 1) {
      ElementOk(ec, g, st, elems, d + 1, i);
    }
  }

  lemma ContentIsPart(ec: EncConfig, g: Graph, st: EncState, tag: int, content: Val)
    requires Deterministic(ec) && st.srns.None?
    ensures PartOf(ec, g, st, content, Tag(tag, content))
  {
    forall d: nat | ValueOk(ec, g, st, Tag(tag, content), d) ensures ValueOk(ec, g, st, content, d + 1) {
      TagValueOk(ec, g, st, tag, content, d);
    }
  }

  lemma PropertyOk(ec: EncConfig, g: Graph, st: EncState, id: nat, depth: nat, i: nat)
    requires Deterministic(ec) && st.srns.None? && ObjectOk(ec, g, st, id, depth)
    requires id < |g.heap| && i < |g.heap[id]|
    ensures ValueOk(ec, g, st, g.heap[id][i].val, depth + 1)
  {
    hide EncEntries, EncHash, ValueOk, SortByKey, EntriesOf, KeyToken, Write;
    HashIsSorted(ec, g, st, id, depth, {});
    var sorted := Sorted(ec, g.heap[id]);
    EntryAt(ec, g.heap[id], i);
    SortSorts(EntriesOf(ec, g.heap[id]));
    var e := EntriesOf(ec, g.heap[id])[i];
    assert e in sorted;
    var j :| 0 <= j < |sorted| && sorted[j] == e;
    EntryOk(ec, g, st, sorted, depth + 1, j);
  }

  lemma ValuesAreParts(ec: EncConfig, g: Graph, st: EncState, busy: set<nat>, id: nat, i: nat)
    requires Deterministic(ec) && st.srns.None? && id < |g.heap| && i < |g.heap[id]|
    requires AllContain(ec, g, st, busy, Obj(id))
    ensures AllContain(ec, g, st, busy + {id}, g.heap[id][i].val)
  {
    hide ObjectOk, ValueOk;
    var v := g.heap[id][i].val;
    forall d: nat | ObjectOk(ec, g, st, id, d) ensures ValueOk(ec, g, st, v, d + 1) {
      PropertyOk(ec, g, st, id, d, i);
    }
    forall d: nat | ValueOk(ec, g, st, Obj(id), d) ensures ValueOk(ec, g, st, v, d + 1) {
      ObjectValueOk(ec, g, st, id, d);
    }
    ContainsPart(ec, g, st, busy, Obj(id), v);
    assert Contains(ec, g, st, id, v);
  }

  // ----- The ordinary encoder succeeds too -----

  lemma {:induction false} ValEncodes(ec: EncConfig, g: Graph, st: EncState, v: Val, depth: nat, busy: set<nat>)
    requires Deterministic(ec) && st.srns.None?
    requires ValueOk(ec, g, st, v, depth) && AllContain(ec, g, st, busy, v)
    ensures EncVal(Ordinary(ec), OrderedGraph(ec, g), st, Short(v), depth, busy).Ok?
    decreases Room(ec, depth), 4
  {
    hide EncString, Write, ScalarToken, EncElems, EncObject, EncTag, OrderedGraph, AllContain;
    match v
    case List(elems) =>
      forall i | 0 <= i < |elems| ensures AllContain(ec, g, st, busy, elems[i]) {
        ElementIsPart(ec, g, st, elems, i);
        ContainsPart(ec, g, st, busy, v, elems[i]);
      }
      ElemsEncode(ec, g, st, elems, depth + 1, busy);
    case Obj(id) => ObjectEncodes(ec, g, st, id, depth, busy);
    case Tag(tag, content) => TagEncodes(ec, g, st, tag, content, depth, busy);
    case Str(s) => StringSame(ec, st, s, ec.strings.AsText?);
    case ByteStr(s) => StringSame(ec, st, s, false);
    case TextStr(s) => StringSame(ec, st, s, true);
    case _ => ScalarShort(ec, v);
  }

  lemma {:induction false} ElemsEncode(
    ec: EncConfig, g: Graph, st: EncState, elems: seq<Val>, depth: nat, busy: set<nat>)
    requires Deterministic(ec) && st.srns.None? && EncElems(ec, g, st, elems, depth, {}).Ok?
    requires forall i :: 0 <= i < |elems| ==> AllContain(ec, g, st, busy, elems[i])
    ensures EncElems(Ordinary(ec), OrderedGraph(ec, g), st, ShortAll(elems), depth, busy).Ok?
    decreases Room(ec, depth), 5, |elems|
  {
    hide EncVal, OrderedGraph, Short, AllContain;
    if elems != [] {
      ValStays(ec, g, st, elems[0], depth, {});
      ValEncodes(ec, g, st, elems[0], depth, busy);
      ValOrdered(ec, g, st, elems[0], depth, busy);
      ElemsEncode(ec, g, st, elems[1..], depth, busy);
      assert ShortAll(elems)[1..] == ShortAll(elems[1..]);
    }
  }

  lemma TagValueOk(ec: EncConfig, g: Graph, st: EncState, tag: int, content: Val, depth: nat)
    requires ValueOk(ec, g, st, Tag(tag, content), depth)
    ensures depth <= ec.maxDepth && EncTag(ec, g, st, tag, content, depth, {}).Ok?
  {
    assert EncVal(ec, g, st, Tag(tag, content), depth, {}) == EncTag(ec, g, st, tag, content, depth, {});
  }

  lemma {:induction false} TagEncodes(
    ec: EncConfig, g: Graph, st: EncState, tag: int, content: Val, depth: nat, busy: set<nat>)
    requires Deterministic(ec) && st.srns.None?
    requires ValueOk(ec, g, st, Tag(tag, content), depth) && AllContain(ec, g, st, busy, Tag(tag, content))
    ensures depth <= ec.maxDepth
    ensures EncTag(Ordinary(ec), OrderedGraph(ec, g), st, tag, Short(content), depth, busy).Ok?
    decreases Room(ec, depth), 3
  {
    hide EncVal, OrderedGraph, Short, Write, AllContain;
    TagValueOk(ec, g, st, tag, content, depth);
    ContentIsPart(ec, g, st, tag, content);
    ContainsPart(ec, g, st, busy, Tag(tag, content), content);
    ValEncodes(ec, g, st, content, depth + 1, busy);
  }

  lemma {:induction false} ObjectEncodes(ec: EncConfig, g: Graph, st: EncState, id: nat, depth: nat, busy: set<nat>)
    requires Deterministic(ec) && st.srns.None?
    requires ValueOk(ec, g, st, Obj(id), depth) && AllContain(ec, g, st, busy, Obj(id))
    ensures depth <= ec.maxDepth
    ensures EncObject(Ordinary(ec), OrderedGraph(ec, g), st, id, depth, busy).Ok?
    decreases Room(ec, depth), 3
  {
    hide EncVal, EncKeys, EncEntries, Write, Contains, SortProps, ShortProps;
    ObjectValueOk(ec, g, st, id, depth);
    NoCycle(ec, g, st, id, depth);
    HashIsSorted(ec, g, st, id, depth, {});
    var props := SortProps(ec, g.heap[id]);
    forall i | 0 <= i < |props|
      ensures AllContain(ec, g, st, busy + {id}, props[i].val) && EncKey(ec, st, props[i].key).Ok?
    {
      var j := SortedFrom(ec, g.heap[id], i);
      ValuesAreParts(ec, g, st, busy, id, j);
      KeysOk(ec, st, g.heap[id], j);
    }
    SortEntries(ec, g.heap[id]);
    PropsEncode(ec, g, st, props, depth + 1, busy + {id});
  }

  lemma SortedFrom(ec: EncConfig, props: Props, i: nat) returns (j: nat)
    requires i < |SortProps(ec, props)|
    ensures j < |props| && props[j] == SortProps(ec, props)[i]
  {
    SortPermutes(ec, props);
    assert SortProps(ec, props)[i] in multiset(SortProps(ec, props));
    j :| 0 <= j < |props| && props[j] == SortProps(ec, props)[i];
  }

  lemma {:induction false} PropsEncode(ec: EncConfig, g: Graph, st: EncState, props: Props, depth: nat, busy: set<nat>)
    requires Deterministic(ec) && st.srns.None? && EncEntries(ec, g, st, EntriesOf(ec, props), depth, {}).Ok?
    requires forall i :: 0 <= i < |props| ==>
               AllContain(ec, g, st, busy, props[i].val) && EncKey(ec, st, props[i].key).Ok?
    ensures EncProps(Ordinary(ec), OrderedGraph(ec, g), st, ShortProps(props), depth, busy).Ok?
    decreases Room(ec, depth), 5, |props|
  {
    hide EncVal, EncKey, OrderedGraph, Short, KeyToken, Write, AllContain;
    if props != [] {
      KeySame(ec, st, props[0].key);
      EncKeyIsToken(ec, st, props[0].key);
      assert EntriesOf(ec, props)[1..] == EntriesOf(ec, props[1..]);
      ValStays(ec, g, st, props[0].val, depth, {});
      ValEncodes(ec, g, st, props[0].val, depth, busy);
      ValOrdered(ec, g, st, props[0].val, depth, busy);
      PropsEncode(ec, g, st, props[1..], depth, busy);
      assert ShortProps(props)[1..] == ShortProps(props[1..]);
    }
  }

  /**
   The deterministic encoder writes something exactly if the ordinary one does for the ordered graph,
   and then the same.
   */
  lemma DeterministicIffOrdered(ec: EncConfig, g: Graph, v: Val)
    requires Deterministic(ec)
    ensures Encode(ec, g, v).Ok? <==> Encode(Ordinary(ec), OrderedGraph(ec, g), Short(v)).Ok?
    ensures Encode(ec, g, v).Ok? ==> Encode(ec, g, v) == Encode(Ordinary(ec), OrderedGraph(ec, g), Short(v))
  {
    hide EncVal, Write, OrderedGraph, Short;
    var st := EncState(None, map[]);
    ValOrdered(ec, g, st, v, 0, {});
    if EncVal(ec, g, st, v, 0, {}).Ok? {
      ValEncodes(ec, g, st, v, 0, {});
    }
  }

  // ----- The ordered graph is as acceptable to the decoder as the graph -----

  lemma {:induction false} ShortOk(e: EncConfig, dc: Config, g: Graph, g': Graph, v: Val)
    requires e.stringRef.Off?
    ensures Lockstep.ValOk(e, dc, g, v) ==> Lockstep.ValOk(e, dc, g', Short(v))
  {
    hide HalfToken32, Floats.TestFp32Size, Floats.Unpack32, Lockstep.IsName;
    match v
    case List(elems) => AllShortOk(e, dc, g, g', elems);
    case Tag(_, content) => ShortOk(e, dc, g, g', content);
    case _ =>
  }

  lemma {:induction false} AllShortOk(e: EncConfig, dc: Config, g: Graph, g': Graph, elems: seq<Val>)
    requires e.stringRef.Off?
    ensures (forall i :: 0 <= i < |elems| ==> Lockstep.ValOk(e, dc, g, elems[i])) ==>
              forall i :: 0 <= i < |elems| ==> Lockstep.ValOk(e, dc, g', ShortAll(elems)[i])
  {
    hide Short, Lockstep.ValOk;
    if elems != [] {
      ShortOk(e, dc, g, g', elems[0]);
      AllShortOk(e, dc, g, g', elems[1..]);
    }
  }

  lemma {:induction false} InsertDistinct(ec: EncConfig, props: Props, p: Prop)
    requires DistinctKeys(props) && forall q :: q in props ==> q.key != p.key
    ensures DistinctKeys(InsertProp(ec, props, p))
  {
    hide KeyBytes, BytesLess;
    if props != [] && !BytesLess(KeyBytes(ec, p.key), KeyBytes(ec, props[0].key)) {
      InsertDistinct(ec, props[1..], p);
      InsertPermutes(ec, props[1..], p);
      forall q | q in InsertProp(ec, props[1..], p) ensures q.key != props[0].key {
        assert q in multiset(InsertProp(ec, props[1..], p));
      }
    }
  }

  lemma {:induction false} SortDistinct(ec: EncConfig, props: Props)
    requires DistinctKeys(props)
    ensures DistinctKeys(SortProps(ec, props))
  {
    hide InsertProp;
    if props != [] {
      SortDistinct(ec, props[1..]);
      SortPermutes(ec, props[1..]);
      forall q | q in SortProps(ec, props[1..]) ensures q.key != props[0].key {
        assert q in multiset(SortProps(ec, props[1..]));
      }
      InsertDistinct(ec, SortProps(ec, props[1..]), props[0]);
    }
  }

  lemma {:induction false} ShortPropAt(props: Props, i: nat)
    requires i < |props|
    ensures |ShortProps(props)| == |props| && ShortProps(props)[i] == Prop(props[i].key, Short(props[i].val))
  {
    hide Short;
    ShortLength(props);
    if i > 0 {
      ShortPropAt(props[1..], i - 1);
    }
  }

  lemma OrderedAt(ec: EncConfig, props: Props, i: nat) returns (j: nat)
    requires i < |props|
    ensures |Ordered(ec, props)| == |SortProps(ec, props)| == |props| && j < |props|
    ensures Ordered(ec, props)[i] == Prop(props[j].key, Short(props[j].val))
    ensures SortProps(ec, props)[i] == props[j]
  {
    hide Short, SortProps, ShortProps;
    OrderedLength(ec, props);
    ShortPropAt(SortProps(ec, props), i);
    j := SortedFrom(ec, props, i);
  }

  lemma OrderedOk(ec: EncConfig, e: EncConfig, dc: Config, g: Graph, g': Graph, props: Props)
    requires e.stringRef.Off? && Invariants.PropsOk(props) && Lockstep.PropsFit(e, dc, g, props)
    ensures Invariants.PropsOk(Ordered(ec, props)) && Lockstep.PropsFit(e, dc, g', Ordered(ec, props))
  {
    hide Short, Lockstep.ValOk, SortProps, Ordered;
    var sorted := SortProps(ec, props);
    SortDistinct(ec, props);
    OrderedLength(ec, props);
    forall i | 0 <= i < |props|
      ensures Ordered(ec, props)[i].key == sorted[i].key && sorted[i] in props
      ensures Lockstep.ValOk(e, dc, g', Ordered(ec, props)[i].val)
    {
      var j := OrderedAt(ec, props, i);
      ShortOk(e, dc, g, g', props[j].val);
    }
  }

  lemma OrderedGraphOk(ec: EncConfig, e: EncConfig, dc: Config, g: Graph)
    requires e.stringRef.Off? && Lockstep.GraphOk(e, dc, g)
    ensures Lockstep.GraphOk(e, dc, OrderedGraph(ec, g))
  {
    hide Ordered, Lockstep.PropsFit, Invariants.PropsOk;
    var g' := OrderedGraph(ec, g);
    forall i | 0 <= i < |g.heap|
      ensures Invariants.PropsOk(Ordered(ec, g.heap[i])) && Lockstep.PropsFit(e, dc, g', Ordered(ec, g.heap[i]))
      ensures |Ordered(ec, g.heap[i])| == |g.heap[i]|
    {
      OrderedOk(ec, e, dc, g, g', g.heap[i]);
      OrderedLength(ec, g.heap[i]);
    }
  }

  /** The round trip under CBOR_CDE: what comes back is the clone of the ordered graph. */
  lemma DeterministicDecodes(ec: EncConfig, dc: Config, g: Graph, v: Val)
    requires Deterministic(ec) && Encode(ec, g, v).Ok?
    requires Lockstep.Compatible(Ordinary(ec), dc)
    requires Lockstep.GraphOk(Ordinary(ec), dc, g) && Lockstep.ValOk(Ordinary(ec), dc, g, v)
    ensures var e, g', v' := Ordinary(ec), OrderedGraph(ec, g), Short(v);
            var r := RoundTrip.RootClone(e, dc, g', v');
            var d := DecodeContext.DecodeAll(dc, Encode(ec, g, v).value);
            if RoundTrip.Needs(e, dc, g', v') <= dc.maxDepth then
              d.Ok? && d.value.0 == RoundTrip.Returned(e, dc, v', r.val) && d.value.1.heap == r.clone.heap
            else d == Err(Depth)
  {
    hide Encode, OrderedGraph, Short, RoundTrip.RootClone, RoundTrip.Returned, RoundTrip.Needs, DecodeContext.DecodeAll,
      Lockstep.GraphOk, Lockstep.ValOk;
    DeterministicIffOrdered(ec, g, v);
    OrderedGraphOk(ec, Ordinary(ec), dc, g);
    ShortOk(Ordinary(ec), dc, g, OrderedGraph(ec, g), v);
    RoundTrip.EncodingDecodes(Ordinary(ec), dc, OrderedGraph(ec, g), Short(v));
  }

  // ----- The value comes back up to the order of properties -----

  /** Nothing is shortened that the options are to keep. */
  lemma {:induction false} KeptIsShort(ec: EncConfig, dc: Config, v: Val)
    requires ec.cde && Kept(ec, dc, v)
    ensures Short(v) == v && Kept(Ordinary(ec), dc, v)
  {
    hide HalfToken32, Floats.TestFp32Size, Floats.Unpack32, Floats.TestFp64Size, Floats.Unpack64, LosesSign;
    match v
    case List(elems) =>
      forall i | 0 <= i < |elems| ensures Short(elems[i]) == elems[i] && Kept(Ordinary(ec), dc, elems[i]) {
        KeptIsShort(ec, dc, elems[i]);
      }
      AllSame(elems);
    case Tag(_, content) => KeptIsShort(ec, dc, content);
    case _ =>
  }

  lemma {:induction false} AllSame(elems: seq<Val>)
    requires forall i :: 0 <= i < |elems| ==> Short(elems[i]) == elems[i]
    ensures ShortAll(elems) == elems
  {
    hide Short;
    if elems != [] {
      AllSame(elems[1..]);
    }
  }

  lemma OrderedKept(ec: EncConfig, dc: Config, g: Graph)
    requires ec.cde && GraphKept(ec, dc, g)
    ensures GraphKept(Ordinary(ec), dc, OrderedGraph(ec, g))
    ensures forall i :: 0 <= i < |g.heap| ==> OrderedGraph(ec, g).heap[i] == SortProps(ec, g.heap[i])
  {
    hide Kept, Short, SortProps, Ordered;
    forall i | 0 <= i < |g.heap|
      ensures Ordered(ec, g.heap[i]) == SortProps(ec, g.heap[i]) && |Ordered(ec, g.heap[i])| == |g.heap[i]|
      ensures forall j :: 0 <= j < |g.heap[i]| ==> Kept(Ordinary(ec), dc, Ordered(ec, g.heap[i])[j].val)
    {
      OrderedLength(ec, g.heap[i]);
      forall j | 0 <= j < |g.heap[i]|
        ensures Ordered(ec, g.heap[i])[j] == SortProps(ec, g.heap[i])[j]
        ensures Kept(Ordinary(ec), dc, Ordered(ec, g.heap[i])[j].val)
      {
        var k := OrderedAt(ec, g.heap[i], j);
        KeptIsShort(ec, dc, g.heap[i][k].val);
      }
    }
  }

  /** The heap consists of copies of objects with their properties ordered. */
  predicate OrderedCopy(ec: EncConfig, g: Graph, origin: seq<nat>, heap: Heap) {
    && |heap| == |origin|
    && forall d :: 0 <= d < |origin| ==>
         origin[d] < |g.heap| && EqualProps(origin, SortProps(ec, g.heap[origin[d]]), heap[d])
  }

  /** Equal to the value in the ordered graph means alike to it in the graph. */
  lemma {:induction false} EqualIsAlike(
    ec: EncConfig, g: Graph, v: Val, heap: Heap, w: Val, origin: seq<nat>, n: nat)
    requires Equal(origin, v, w) && OrderedCopy(ec, g, origin, heap)
    ensures Alike(g.heap, v, heap, w, n)
    decreases n, 1
  {
    hide SortProps, EqualProps;
    if n > 0 {
      match v
      case List(elems) =>
        forall i | 0 <= i < |elems| ensures Alike(g.heap, elems[i], heap, w.elems[i], n - 1) {
          EqualIsAlike(ec, g, elems[i], heap, w.elems[i], origin, n - 1);
        }
      case Tag(_, content) => EqualIsAlike(ec, g, content, heap, w.content, origin, n - 1);
      case Obj(id) => CopyIsAlike(ec, g, heap, w.id, origin, n);
      case _ =>
    }
  }

  lemma {:induction false} CopyIsAlike(ec: EncConfig, g: Graph, heap: Heap, d: nat, origin: seq<nat>, n: nat)
    requires n > 0 && d < |heap| && OrderedCopy(ec, g, origin, heap)
    ensures Alike(g.heap, Obj(origin[d]), heap, Obj(d), n)
    decreases n, 0
  {
    hide SortProps, Equal, Alike, HasTwin;
    var id := origin[d];
    var props, copy := g.heap[id], heap[d];
    OrderedLength(ec, props);
    forall i | 0 <= i < |props|
      ensures HasTwin(g.heap, props[i], heap, copy, n - 1)
    {
      SortKeeps(ec, props, props[i]);
      var j :| 0 <= j < |props| && SortProps(ec, props)[j] == props[i];
      EqualIsAlike(ec, g, props[i].val, heap, copy[j].val, origin, n - 1);
      IsTwin(g.heap, props[i], heap, copy, j, n - 1);
    }
    AlikeObjects(g.heap, id, heap, d, n);
  }

  lemma IsTwin(h: Heap, p: Prop, h': Heap, props: Props, j: nat, n: nat)
    requires j < |props| && props[j].key == p.key && Alike(h, p.val, h', props[j].val, n)
    ensures HasTwin(h, p, h', props, n)
  {
    assert AlikeProp(h, p, h', props[j], n);
  }

  lemma AlikeObjects(h: Heap, id: nat, h': Heap, id': nat, n: nat)
    requires n > 0 && id < |h| && id' < |h'| && |h[id]| == |h'[id']|
    requires forall i :: 0 <= i < |h[id]| ==> HasTwin(h, h[id][i], h', h'[id'], n - 1)
    ensures Alike(h, Obj(id), h', Obj(id'), n)
  {
  }

  /** Under CBOR_CDE the value comes back with copies of its objects that have their properties ordered. */
  lemma OrderedComesBack(ec: EncConfig, dc: Config, g: Graph, v: Val) returns (origin: seq<nat>)
    requires Deterministic(ec) && Encode(ec, g, v).Ok?
    requires Lockstep.Compatible(Ordinary(ec), dc)
    requires Lockstep.GraphOk(Ordinary(ec), dc, g) && Lockstep.ValOk(Ordinary(ec), dc, g, v)
    requires !RoundTrip.LosesTag(ec, dc, v) && !(ec.selfDescribe && dc.selfDescribe)
    requires Kept(ec, dc, v) && GraphKept(ec, dc, g)
    requires RoundTrip.Needs(Ordinary(ec), dc, OrderedGraph(ec, g), v) <= dc.maxDepth
    ensures var d := DecodeContext.DecodeAll(dc, Encode(ec, g, v).value);
            d.Ok? && Equal(origin, v, d.value.0) && OrderedCopy(ec, g, origin, d.value.1.heap)
  {
    hide Encode, OrderedGraph, Short, RoundTrip.Needs, DecodeContext.DecodeAll, Lockstep.GraphOk, Lockstep.ValOk,
      Kept, GraphKept, Equal, EqualProps;
    DeterministicIffOrdered(ec, g, v);
    KeptIsShort(ec, dc, v);
    OrderedGraphOk(ec, Ordinary(ec), dc, g);
    ShortOk(Ordinary(ec), dc, g, OrderedGraph(ec, g), v);
    OrderedKept(ec, dc, g);
    origin := EncodedComesBack(Ordinary(ec), dc, OrderedGraph(ec, g), v);
    OrderedGraphSize(ec, g);
  }

  lemma OrderedGraphSize(ec: EncConfig, g: Graph)
    ensures |OrderedGraph(ec, g).heap| == |g.heap|
  {
  }

  /** So it is the same up to the order of properties, as far down as one may look. */
  lemma DeterministicRoundTrips(ec: EncConfig, dc: Config, g: Graph, v: Val, n: nat)
    requires Deterministic(ec) && Encode(ec, g, v).Ok?
    requires Lockstep.Compatible(Ordinary(ec), dc)
    requires Lockstep.GraphOk(Ordinary(ec), dc, g) && Lockstep.ValOk(Ordinary(ec), dc, g, v)
    requires !RoundTrip.LosesTag(ec, dc, v) && !(ec.selfDescribe && dc.selfDescribe)
    requires Kept(ec, dc, v) && GraphKept(ec, dc, g)
    requires RoundTrip.Needs(Ordinary(ec), dc, OrderedGraph(ec, g), v) <= dc.maxDepth
    ensures var d := DecodeContext.DecodeAll(dc, Encode(ec, g, v).value);
            d.Ok? && Alike(g.heap, v, d.value.1.heap, d.value.0, n)
  {
    hide Encode, OrderedGraph, Short, RoundTrip.Needs, DecodeContext.DecodeAll, Lockstep.GraphOk, Lockstep.ValOk,
      Kept, GraphKept, Equal, Alike, OrderedCopy;
    var origin := OrderedComesBack(ec, dc, g, v);
    var d := DecodeContext.DecodeAll(dc, Encode(ec, g, v).value);
    EqualIsAlike(ec, g, v, d.value.1.heap, d.value.0, origin, n);
  }
}
