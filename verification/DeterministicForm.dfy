/**
 The deterministic encoding of a graph is the ordinary encoding of the graph with the properties of
 every object put in order of their encoded keys. So it is decoded to a copy in that order.
 */
module DeterministicForm {
  import opened Bytes
  import opened Wrappers
  import opened Values
  import opened Wire
  import opened DecoderConfig
  import opened Encoder
  import opened KeyOrder
  import opened Canonical
  import Lockstep
  import Floats

  function KeyBytes(ec: EncConfig, name: bytes): bytes { Write(KeyToken(ec, name)) }

  function InsertProp(ec: EncConfig, props: Props, p: Prop): Props {
    if props == [] || BytesLess(KeyBytes(ec, p.key), KeyBytes(ec, props[0].key)) then [p] + props
    else [props[0]] + InsertProp(ec, props[1..], p)
  }

  function SortProps(ec: EncConfig, props: Props): Props {
    if props == [] then [] else InsertProp(ec, SortProps(ec, props[1..]), props[0])
  }

  /** A value with its Cbor\Float32 objects as short as the deterministic encoding writes them. */
  function Short(v: Val): Val {
    match v
    case Float32(raw) => if Floats.TestFp32Size(Floats.Unpack32(raw)) == 2 then Val.Float16(HalfToken32(raw).raw16) else v
    case List(elems) => List(ShortAll(elems))
    case Tag(tag, content) => Tag(tag, Short(content))
    case _ => v
  }

  function ShortAll(elems: seq<Val>): (r: seq<Val>)
    ensures |r| == |elems|
  {
    if elems == [] then [] else [Short(elems[0])] + ShortAll(elems[1..])
  }

  function ShortProps(props: Props): Props {
    if props == [] then [] else [Prop(props[0].key, Short(props[0].val))] + ShortProps(props[1..])
  }

  /** The properties of an object as the deterministic encoding has them. */
  function Ordered(ec: EncConfig, props: Props): Props { ShortProps(SortProps(ec, props)) }

  function OrderedHeap(ec: EncConfig, heap: Heap): (r: Heap)
    ensures |r| == |heap| && forall i :: 0 <= i < |heap| ==> r[i] == Ordered(ec, heap[i])
  {
    seq(|heap|, i requires 0 <= i < |heap| => Ordered(ec, heap[i]))
  }

  function OrderedGraph(ec: EncConfig, g: Graph): Graph { Graph(OrderedHeap(ec, g.heap), g.counted) }

  function Ordinary(ec: EncConfig): EncConfig { ec.(cde := false) }

  // ----- Sorting properties is sorting entries -----

  lemma {:induction false} InsertEntries(ec: EncConfig, props: Props, p: Prop)
    ensures EntriesOf(ec, InsertProp(ec, props, p)) == Insert(EntriesOf(ec, props), Entry(KeyBytes(ec, p.key), p.val))
  {
    hide KeyToken, Write, BytesLess;
    if props != [] && !BytesLess(KeyBytes(ec, p.key), KeyBytes(ec, props[0].key)) {
      InsertEntries(ec, props[1..], p);
    } else {
      assert ([p] + props)[1..] == props;
    }
  }

  lemma {:induction false} SortEntries(ec: EncConfig, props: Props)
    ensures EntriesOf(ec, SortProps(ec, props)) == Sorted(ec, props)
  {
    hide KeyToken, Write, BytesLess;
    if props != [] {
      SortEntries(ec, props[1..]);
      InsertEntries(ec, SortProps(ec, props[1..]), props[0]);
      assert EntriesOf(ec, props)[1..] == EntriesOf(ec, props[1..]);
    }
  }

  lemma {:induction false} InsertLength(ec: EncConfig, props: Props, p: Prop)
    ensures |InsertProp(ec, props, p)| == |props| + 1
  {
    hide KeyBytes, BytesLess;
    if props != [] && !BytesLess(KeyBytes(ec, p.key), KeyBytes(ec, props[0].key)) {
      InsertLength(ec, props[1..], p);
    }
  }

  lemma {:induction false} OrderedLength(ec: EncConfig, props: Props)
    ensures |SortProps(ec, props)| == |props| && |Ordered(ec, props)| == |props|
  {
    if props != [] {
      OrderedLength(ec, props[1..]);
      InsertLength(ec, SortProps(ec, props[1..]), props[0]);
    }
    ShortLength(SortProps(ec, props));
  }

  lemma {:induction false} InsertKeeps(ec: EncConfig, props: Props, p: Prop, q: Prop)
    requires q == p || q in props
    ensures q in InsertProp(ec, props, p)
  {
    hide KeyBytes, BytesLess;
    if props != [] && !BytesLess(KeyBytes(ec, p.key), KeyBytes(ec, props[0].key)) && q != props[0] {
      assert props == [props[0]] + props[1..];
      InsertKeeps(ec, props[1..], p, q);
    }
  }

  lemma {:induction false} SortKeeps(ec: EncConfig, props: Props, q: Prop)
    requires q in props
    ensures q in SortProps(ec, props)
  {
    assert props == [props[0]] + props[1..];
    if q != props[0] {
      SortKeeps(ec, props[1..], q);
    }
    InsertKeeps(ec, SortProps(ec, props[1..]), props[0], q);
  }

  lemma {:induction false} InsertPermutes(ec: EncConfig, props: Props, p: Prop)
    ensures multiset(InsertProp(ec, props, p)) == multiset(props) + multiset{p}
  {
    hide KeyBytes, BytesLess;
    if props != [] && !BytesLess(KeyBytes(ec, p.key), KeyBytes(ec, props[0].key)) {
      InsertPermutes(ec, props[1..], p);
      assert props == [props[0]] + props[1..];
    }
  }

  /** Ordering loses no property and adds none. */
  lemma {:induction false} SortPermutes(ec: EncConfig, props: Props)
    ensures multiset(SortProps(ec, props)) == multiset(props)
  {
    if props != [] {
      SortPermutes(ec, props[1..]);
      InsertPermutes(ec, SortProps(ec, props[1..]), props[0]);
      assert props == [props[0]] + props[1..];
    }
  }

  lemma {:induction false} ShortLength(props: Props)
    ensures |ShortProps(props)| == |props|
  {
    if props != [] {
      ShortLength(props[1..]);
    }
  }

  // ----- The two encodings -----

  lemma ScalarShort(ec: EncConfig, v: Val)
    requires ec.cde && IsScalar(v)
    ensures IsScalar(Short(v)) && ScalarToken(Ordinary(ec), Short(v)) == ScalarToken(ec, v)
  {
    hide Floats.TestFp32Size, Floats.Unpack32, Floats.Float32To16, FloatToken;
    if v.Float? {
      FloatSame(ec, v.raw);
    }
  }

  lemma FloatSame(ec: EncConfig, raw: uint64)
    ensures FloatToken(Ordinary(ec), raw) == FloatToken(ec, raw)
  {
  }

  lemma StringSame(ec: EncConfig, st: EncState, s: bytes, isText: bool)
    requires st.srns.None?
    ensures EncString(Ordinary(ec), st, s, isText) == EncString(ec, st, s, isText)
    ensures EncString(ec, st, s, isText).Ok? ==> EncString(ec, st, s, isText).value.st == st
  {
  }

  lemma KeySame(ec: EncConfig, st: EncState, name: bytes)
    requires st.srns.None?
    ensures EncKey(Ordinary(ec), st, name) == EncKey(ec, st, name)
  {
    hide EncString;
    StringSame(ec, st, name, ec.keys.AsText?);
  }

  /** If the ordinary encoding of the ordered value succeeds, the deterministic one gives the same. */
  ghost predicate Follows(r: R<Out>, cde: R<Out>, st: EncState) { r.Ok? ==> cde == r && r.value.st == st }

  lemma {:induction false} ValOrdered(
    ec: EncConfig, g: Graph, st: EncState, v: Val, depth: nat, busy: set<nat>)
    requires Deterministic(ec) && st.srns.None?
    ensures Follows(EncVal(Ordinary(ec), OrderedGraph(ec, g), st, Short(v), depth, busy), EncVal(ec, g, st, v, depth, {}), st)
    decreases Room(ec, depth), 4
  {
    hide EncString, Write, ScalarToken, EncElems, EncObject, EncTag, OrderedGraph;
    if depth <= ec.maxDepth {
      match v
      case List(elems) => ElemsOrdered(ec, g, st, elems, depth + 1, busy);
      case Obj(id) => ObjectOrdered(ec, g, st, id, depth, busy);
      case Tag(tag, content) => TagOrdered(ec, g, st, tag, content, depth, busy);
      case Str(s) => StringSame(ec, st, s, ec.strings.AsText?);
      case ByteStr(s) => StringSame(ec, st, s, false);
      case TextStr(s) => StringSame(ec, st, s, true);
      case _ => ScalarShort(ec, v);
    }
  }

  lemma {:induction false} ElemsOrdered(
    ec: EncConfig, g: Graph, st: EncState, elems: seq<Val>, depth: nat, busy: set<nat>)
    requires Deterministic(ec) && st.srns.None?
    ensures Follows(EncElems(Ordinary(ec), OrderedGraph(ec, g), st, ShortAll(elems), depth, busy),
                    EncElems(ec, g, st, elems, depth, {}), st)
    decreases Room(ec, depth), 5, |elems|
  {
    hide EncVal, OrderedGraph, Short;
    if elems != [] {
      ValOrdered(ec, g, st, elems[0], depth, busy);
      ElemsOrdered(ec, g, st, elems[1..], depth, busy);
      assert ShortAll(elems)[1..] == ShortAll(elems[1..]);
    }
  }

  lemma {:induction false} TagOrdered(
    ec: EncConfig, g: Graph, st: EncState, tag: int, content: Val, depth: nat, busy: set<nat>)
    requires Deterministic(ec) && st.srns.None? && depth <= ec.maxDepth
    ensures Follows(EncTag(Ordinary(ec), OrderedGraph(ec, g), st, tag, Short(content), depth, busy),
                    EncTag(ec, g, st, tag, content, depth, {}), st)
    decreases Room(ec, depth), 3
  {
    hide EncVal, OrderedGraph, Short, Write;
    ValOrdered(ec, g, st, content, depth + 1, busy);
  }

  lemma {:induction false} ObjectOrdered(ec: EncConfig, g: Graph, st: EncState, id: nat, depth: nat, busy: set<nat>)
    requires Deterministic(ec) && st.srns.None? && depth <= ec.maxDepth
    ensures Follows(EncObject(Ordinary(ec), OrderedGraph(ec, g), st, id, depth, busy),
                    EncObject(ec, g, st, id, depth, {}), st)
    decreases Room(ec, depth), 3
  {
    var g' := OrderedGraph(ec, g);
    var r := EncHash(Ordinary(ec), g', st, id, depth, busy);
    assert EncObject(Ordinary(ec), g', st, id, depth, busy) == r;
    assert EncObject(ec, g, st, id, depth, {}) == EncHash(ec, g, st, id, depth, {});
    if r.Ok? {
      hide EncProps, EncEntries, EncKeys, EncHash, EncObject, Write, Ordered, SortByKey, EntriesOf;
      Lockstep.HashEncoded(Ordinary(ec), g', st, id, depth, busy);
      OrderedLength(ec, g.heap[id]);
      PropsOrdered(ec, g, st, SortProps(ec, g.heap[id]), depth + 1, busy + {id});
      SortEntries(ec, g.heap[id]);
      KeysOfOrdered(ec, g, st, g.heap[id], depth + 1, busy + {id});
      HashSucceeds(ec, g, st, id, depth, {});
      HashIsSorted(ec, g, st, id, depth, {});
    }
  }

  /** Properties with their keys one by one, against entries with keys encoded before. */
  lemma {:induction false} PropsOrdered(ec: EncConfig, g: Graph, st: EncState, props: Props, depth: nat, busy: set<nat>)
    requires Deterministic(ec) && st.srns.None?
    ensures Follows(EncProps(Ordinary(ec), OrderedGraph(ec, g), st, ShortProps(props), depth, busy),
                    EncEntries(ec, g, st, EntriesOf(ec, props), depth, {}), st)
    decreases Room(ec, depth), 5, |props|
  {
    hide EncVal, EncKey, OrderedGraph, Short, KeyToken, Write;
    if props != [] {
      KeySame(ec, st, props[0].key);
      if EncKey(ec, st, props[0].key).Ok? {
        EncKeyIsToken(ec, st, props[0].key);
      }
      ValOrdered(ec, g, st, props[0].val, depth, busy);
      PropsOrdered(ec, g, st, props[1..], depth, busy);
      assert ShortProps(props)[1..] == ShortProps(props[1..]);
      assert EntriesOf(ec, props)[1..] == EntriesOf(ec, props[1..]);
    }
  }

  /** A key that was encoded among the ordered properties can be encoded in any case. */
  lemma {:induction false} OrderedKeyOk(
    ec: EncConfig, g: Graph, st: EncState, props: Props, depth: nat, busy: set<nat>, i: nat)
    requires Deterministic(ec) && st.srns.None? && i < |props|
    requires EncProps(Ordinary(ec), OrderedGraph(ec, g), st, ShortProps(props), depth, busy).Ok?
    ensures EncKey(ec, st, props[i].key).Ok?
    decreases Room(ec, depth), 6, |props|
  {
    hide EncVal, EncKey, OrderedGraph, Short, KeyToken, Write;
    KeySame(ec, st, props[0].key);
    EncKeyIsToken(ec, st, props[0].key);
    ValOrdered(ec, g, st, props[0].val, depth, busy);
    assert ShortProps(props)[1..] == ShortProps(props[1..]);
    if i > 0 {
      OrderedKeyOk(ec, g, st, props[1..], depth, busy, i - 1);
    }
  }

  lemma {:induction false} KeysOfOrdered(ec: EncConfig, g: Graph, st: EncState, props: Props, depth: nat, busy: set<nat>)
    requires Deterministic(ec) && st.srns.None?
    requires EncProps(Ordinary(ec), OrderedGraph(ec, g), st, Ordered(ec, props), depth, busy).Ok?
    ensures EncKeys(ec, st, props).Ok?
    decreases Room(ec, depth), 7
  {
    hide EncProps, EncKey, OrderedGraph, ShortProps, SortProps;
    var sorted := SortProps(ec, props);
    forall i | 0 <= i < |props| ensures EncKey(ec, st, props[i].key).Ok? {
      SortKeeps(ec, props, props[i]);
      var j :| 0 <= j < |sorted| && sorted[j] == props[i];
      OrderedKeyOk(ec, g, st, sorted, depth, busy, j);
    }
    AllKeysOk(ec, st, props);
  }
}
