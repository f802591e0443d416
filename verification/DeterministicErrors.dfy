/**
 What the deterministic encoder accepts, and how it fails. It accepts what the ordinary encoder accepts
 without sharing. If the strings, names and tags of a graph are fine, the only error is that of the depth;
 so that is what a cycle ends with, as nothing marks the objects on the way as busy.
 */
module DeterministicErrors {
  import opened Bytes
  import opened Wrappers
  import opened Values
  import opened Wire
  import opened DecoderConfig
  import opened Encoder
  import opened Cloning
  import opened KeyOrder
  import opened Canonical
  import opened DeterministicForm
  import opened DeterministicRoundTrip
  import opened StringRefs
  import opened Encodable
  import opened AnyGraph
  import Floats

  // ----- The only error -----

  predicate OkOrDeep(r: R<Out>, st: EncState) { if r.Ok? then r.value.st == st else r.error == Depth }

  lemma {:induction false} ValOkOrDeep(ec: EncConfig, g: Graph, st: EncState, v: Val, depth: nat)
    requires Deterministic(ec) && st.srns.None? && GraphFine(ec, g) && Fine(ec, g, v)
    ensures OkOrDeep(EncVal(ec, g, st, v, depth, {}), st)
    decreases Room(ec, depth), 4
  {
    hide EncElems, EncHash, GraphFine, LeafFine, Write;
    assert Without(ec) == ec;
    if depth <= ec.maxDepth {
      match v
      case List(elems) => ElemsOkOrDeep(ec, g, st, elems, depth + 1);
      case Tag(_, content) => ValOkOrDeep(ec, g, st, content, depth + 1);
      case Obj(id) => HashOkOrDeep(ec, g, st, id, depth);
      case _ => LeafFits(ec, g, st, v, depth, {});
    }
  }

  lemma {:induction false} ElemsOkOrDeep(ec: EncConfig, g: Graph, st: EncState, elems: seq<Val>, depth: nat)
    requires Deterministic(ec) && st.srns.None? && GraphFine(ec, g)
    requires forall i :: 0 <= i < |elems| ==> Fine(ec, g, elems[i])
    ensures OkOrDeep(EncElems(ec, g, st, elems, depth, {}), st)
    decreases Room(ec, depth), 5, |elems|
  {
    hide EncVal, GraphFine, Fine;
    if elems != [] {
      ValOkOrDeep(ec, g, st, elems[0], depth);
      ElemsOkOrDeep(ec, g, st, elems[1..], depth);
    }
  }

  lemma {:induction false} HashOkOrDeep(ec: EncConfig, g: Graph, st: EncState, id: nat, depth: nat)
    requires Deterministic(ec) && st.srns.None? && GraphFine(ec, g) && id < |g.heap| && depth <= ec.maxDepth
    ensures OkOrDeep(EncHash(ec, g, st, id, depth, {}), st)
    decreases Room(ec, depth), 3
  {
    hide EncEntries, EncKeys, Fine, NameFine, Write, EntriesOf, SortByKey;
    var props := g.heap[id];
    assert AllFine(ec, g, props);
    if props == [] {
      assert EncProps(ec, g, st, [], depth + 1, {} + {id}) == Ok(Out([], st));
    } else {
      NamesEncode(ec, st, props);
      EncKeysAreEntries(ec, st, props);
      var entries := Sorted(ec, props);
      SortSorts(EntriesOf(ec, props));
      forall i | 0 <= i < |entries| ensures Fine(ec, g, entries[i].val) {
        assert entries[i] in entries;
        var j := EntrySource(ec, props, entries[i]);
      }
      EntriesOkOrDeep(ec, g, st, entries, depth + 1);
    }
  }

  lemma NamesEncode(ec: EncConfig, st: EncState, props: Props)
    requires Deterministic(ec) && st.srns.None? && NamesFine(ec, props)
    ensures EncKeys(ec, st, props).Ok?
  {
    hide EncKey, NameFine;
    assert Without(ec) == ec;
    forall i | 0 <= i < |props| ensures EncKey(ec, st, props[i].key).Ok? {
      KeyFits(ec, st, props[i].key);
    }
    AllKeysOk(ec, st, props);
  }

  lemma {:induction false} EntriesOkOrDeep(ec: EncConfig, g: Graph, st: EncState, entries: seq<Entry>, depth: nat)
    requires Deterministic(ec) && st.srns.None? && GraphFine(ec, g)
    requires forall i :: 0 <= i < |entries| ==> Fine(ec, g, entries[i].val)
    ensures OkOrDeep(EncEntries(ec, g, st, entries, depth, {}), st)
    decreases Room(ec, depth), 5, |entries|
  {
    hide EncVal, GraphFine, Fine;
    if entries != [] {
      ValOkOrDeep(ec, g, st, entries[0].val, depth);
      EntriesOkOrDeep(ec, g, st, entries[1..], depth);
    }
  }

  // ----- What is accepted does not depend on the order -----

  lemma {:induction false} OrderedCanEncode(ec: EncConfig, g: Graph, v: Val, n: nat, path: set<nat>)
    requires ec.cde && !ec.sharedRef
    ensures CanEncode(Ordinary(ec), OrderedGraph(ec, g), Short(v), n, path) <==> CanEncode(Ordinary(ec), g, v, n, path)
    decreases n
  {
    hide OrderedGraph, NamesFine, HalfToken32, Floats.TestFp32Size, Floats.Unpack32;
    match v
    case List(elems) =>
      if n > 0 {
        forall i | 0 <= i < |elems|
          ensures ShortAll(elems)[i] == Short(elems[i])
          ensures CanEncode(Ordinary(ec), OrderedGraph(ec, g), Short(elems[i]), n - 1, path)
                  <==> CanEncode(Ordinary(ec), g, elems[i], n - 1, path)
        {
          ShortAt(elems, i);
          OrderedCanEncode(ec, g, elems[i], n - 1, path);
        }
      }
    case Tag(_, content) =>
      if n > 0 {
        OrderedCanEncode(ec, g, content, n - 1, path);
      }
    case Obj(id) => ObjectCanEncode(ec, g, id, n, path);
    case _ =>
  }

  lemma {:induction false} ShortAt(elems: seq<Val>, i: nat)
    requires i < |elems|
    ensures ShortAll(elems)[i] == Short(elems[i])
  {
    hide Short;
    if i > 0 {
      ShortAt(elems[1..], i - 1);
    }
  }

  lemma {:induction false} ObjectCanEncode(ec: EncConfig, g: Graph, id: nat, n: nat, path: set<nat>)
    requires ec.cde && !ec.sharedRef
    ensures CanEncode(Ordinary(ec), OrderedGraph(ec, g), Obj(id), n, path) <==> CanEncode(Ordinary(ec), g, Obj(id), n, path)
    decreases n, 0
  {
    hide OrderedGraph, CanEncode, SortProps, NameFine;
    if id in path || id >= |g.heap| {
      ObjectMissing(ec, g, id, n, path);
    } else {
      var e, g', props := Ordinary(ec), OrderedGraph(ec, g), g.heap[id];
      if n > 0 {
        forall i | 0 <= i < |props|
          ensures CanEncode(e, g', Short(props[i].val), n - 1, path + {id}) <==> CanEncode(e, g, props[i].val, n - 1, path + {id})
        {
          OrderedCanEncode(ec, g, props[i].val, n - 1, path + {id});
        }
      }
      hide Ordered, Short;
      OrderedObject(ec, g, id);
      OrderedLength(ec, props);
      NamesStay(e, ec, props);
      ValuesStay(ec, g, props, n, path + {id});
      ObjectParts(e, g, id, n, path);
      ObjectParts(e, g', id, n, path);
    }
  }

  lemma OrderedObject(ec: EncConfig, g: Graph, id: nat)
    requires id < |g.heap|
    ensures |OrderedGraph(ec, g).heap| == |g.heap| && OrderedGraph(ec, g).heap[id] == Ordered(ec, g.heap[id])
  {
  }

  /** Property `i` of the ordered object is property `j` of the object. */
  predicate SamePlace(ec: EncConfig, props: Props, i: nat, j: nat) {
    && i < |Ordered(ec, props)| == |props| && j < |props|
    && Ordered(ec, props)[i].key == props[j].key && Ordered(ec, props)[i].val == Short(props[j].val)
  }

  lemma PlaceBefore(ec: EncConfig, props: Props, i: nat) returns (j: nat)
    requires i < |props|
    ensures SamePlace(ec, props, i, j)
  {
    hide Ordered, Short, SortProps;
    j := OrderedAt(ec, props, i);
  }

  lemma PlaceAfter(ec: EncConfig, props: Props, j: nat) returns (i: nat)
    requires j < |props|
    ensures SamePlace(ec, props, i, j)
  {
    hide Ordered, Short, SortProps;
    SortKeeps(ec, props, props[j]);
    OrderedLength(ec, props);
    i :| 0 <= i < |props| && SortProps(ec, props)[i] == props[j];
    var k := OrderedAt(ec, props, i);
  }

  lemma NamesStay(e: EncConfig, ec: EncConfig, props: Props)
    ensures NamesFine(e, Ordered(ec, props)) <==> NamesFine(e, props)
  {
    hide NameFine, Ordered;
    OrderedLength(ec, props);
    forall i | 0 <= i < |props|
      ensures NamesFine(e, props) ==> NameFine(e, Ordered(ec, props)[i].key)
      ensures NamesFine(e, Ordered(ec, props)) ==> NameFine(e, props[i].key)
    {
      var j := PlaceBefore(ec, props, i);
      var k := PlaceAfter(ec, props, i);
    }
  }

  predicate ValuesCanEncode(e: EncConfig, g: Graph, props: Props, n: nat, path: set<nat>) {
    n > 0 && forall i :: 0 <= i < |props| ==> CanEncode(e, g, props[i].val, n - 1, path)
  }

  lemma ValuesStay(ec: EncConfig, g: Graph, props: Props, n: nat, path: set<nat>)
    requires n > 0 ==> forall i :: 0 <= i < |props| ==>
      (CanEncode(Ordinary(ec), OrderedGraph(ec, g), Short(props[i].val), n - 1, path)
       <==> CanEncode(Ordinary(ec), g, props[i].val, n - 1, path))
    ensures ValuesCanEncode(Ordinary(ec), OrderedGraph(ec, g), Ordered(ec, props), n, path)
            <==> ValuesCanEncode(Ordinary(ec), g, props, n, path)
  {
    hide CanEncode, Ordered, OrderedGraph, Short;
    var e, g' := Ordinary(ec), OrderedGraph(ec, g);
    OrderedLength(ec, props);
    if n > 0 {
      forall i | 0 <= i < |props|
        ensures ValuesCanEncode(e, g, props, n, path) ==> CanEncode(e, g', Ordered(ec, props)[i].val, n - 1, path)
        ensures ValuesCanEncode(e, g', Ordered(ec, props), n, path) ==> CanEncode(e, g, props[i].val, n - 1, path)
      {
        var j := PlaceBefore(ec, props, i);
        var k := PlaceAfter(ec, props, i);
      }
    }
  }

  lemma ObjectParts(e: EncConfig, g: Graph, id: nat, n: nat, path: set<nat>)
    requires id !in path && id < |g.heap|
    ensures CanEncode(e, g, Obj(id), n, path)
            <==> NamesFine(e, g.heap[id]) && (g.heap[id] == [] || ValuesCanEncode(e, g, g.heap[id], n, path + {id}))
  {
    hide NamesFine;
  }

  lemma ObjectMissing(ec: EncConfig, g: Graph, id: nat, n: nat, path: set<nat>)
    requires !ec.sharedRef && (id in path || id >= |g.heap|)
    ensures !CanEncode(Ordinary(ec), OrderedGraph(ec, g), Obj(id), n, path) && !CanEncode(Ordinary(ec), g, Obj(id), n, path)
  {
    OrderedGraphSize(ec, g);
    hide OrderedGraph, NamesFine;
  }

  // ----- Whole encodings -----

  /** Under CBOR_CDE, exactly what can be encoded without sharing is encoded. */
  lemma DeterministicIffEncodable(ec: EncConfig, g: Graph, v: Val)
    requires Deterministic(ec)
    ensures Encode(ec, g, v).Ok? <==> CanEncode(Ordinary(ec), g, v, ec.maxDepth, {})
  {
    hide Encode, CanEncode, OrderedGraph, Short;
    DeterministicIffOrdered(ec, g, v);
    EncodedIffEncodable(Ordinary(ec), OrderedGraph(ec, g), Short(v));
    OrderedCanEncode(ec, g, v, ec.maxDepth, {});
  }

  /** With fine strings, names and tags, whatever is not encoded is too deep. */
  lemma DeterministicOutcome(ec: EncConfig, g: Graph, v: Val)
    requires Deterministic(ec) && GraphFine(ec, g) && Fine(ec, g, v)
    ensures CanEncode(Ordinary(ec), g, v, ec.maxDepth, {}) <==> Encode(ec, g, v).Ok?
    ensures Encode(ec, g, v).Ok? || Encode(ec, g, v) == Err(Depth)
  {
    hide EncVal, CanEncode, GraphFine, Fine, Write;
    DeterministicIffEncodable(ec, g, v);
    ValOkOrDeep(ec, g, EncState(None, map[]), v, 0);
  }

  /** An object that is one of its own properties ends with the error for the depth. */
  lemma SelfLoopIsTooDeep(ec: EncConfig, g: Graph, id: nat, i: nat)
    requires Deterministic(ec) && GraphFine(ec, g) && id < |g.heap| && i < |g.heap[id]| && g.heap[id][i].val == Obj(id)
    ensures Encode(ec, g, Obj(id)) == Err(Depth)
  {
    DeterministicOutcome(ec, g, Obj(id));
    if ec.maxDepth > 0 {
      assert !CanEncode(Ordinary(ec), g, Obj(id), ec.maxDepth - 1, {} + {id});
    }
    hide Encode;
    assert !CanEncode(Ordinary(ec), g, Obj(id), ec.maxDepth, {});
  }

  /** The ordinary encoder has another error for it. */
  lemma SelfLoopIsRecursion(ec: EncConfig, g: Graph, id: nat)
    requires !ec.cde && !ec.sharedRef && ec.stringRef.Off? && ec.maxDepth > 0
    requires id < |g.heap| && |g.heap[id]| > 0 && g.heap[id][0].val == Obj(id) && NameFine(ec, g.heap[id][0].key)
    ensures Encode(ec, g, Obj(id)) == Err(Recursion)
  {
    hide NameFine, EncKey;
    var st := EncState(None, map[]);
    assert Without(ec) == ec;
    KeyFits(ec, st, g.heap[id][0].key);
    assert EncVal(ec, g, st, Obj(id), 1, {} + {id}) == EncObject(ec, g, st, id, 1, {} + {id}) == Err(Recursion);
    assert EncProps(ec, g, st, g.heap[id], 1, {} + {id}) == Err(Recursion);
    assert EncHash(ec, g, st, id, 0, {}) == Err(Recursion);
    assert EncVal(ec, g, st, Obj(id), 0, {}) == EncObject(ec, g, st, id, 0, {}) == Err(Recursion);
  }
}
