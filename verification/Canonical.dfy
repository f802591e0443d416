/**
 The deterministic encoding is canonical (section 4.2.1 of RFC 8949): the keys of every map are in
 strictly ascending bytewise order, and values that differ only in the order of properties are encoded
 to the same bytes.
 */
module Canonical {
  import opened Bytes
  import opened Wrappers
  import opened Values
  import opened Wire
  import opened DecoderConfig
  import opened Encoder
  import opened KeyOrder
  import Invariants

  predicate Deterministic(ec: EncConfig) { ec.cde && Consistent(ec) }

  predicate NamesOk(props: Props) {
    DistinctKeys(props) && forall i :: 0 <= i < |props| ==> |props[i].key| < UINT64_LIMIT - 9
  }

  predicate HeapNamesOk(heap: Heap) { forall i :: 0 <= i < |heap| ==> NamesOk(heap[i]) }

  /** Equal up to the order of properties, as far as `n` levels down. */
  predicate Alike(h: Heap, v: Val, h': Heap, v': Val, n: nat)
    decreases n, 0
  {
    n == 0 ||
    match v
    case List(elems) =>
      v'.List? && |v'.elems| == |elems| && forall i :: 0 <= i < |elems| ==> Alike(h, elems[i], h', v'.elems[i], n - 1)
    case Tag(tag, content) => v'.Tag? && v'.tag == tag && Alike(h, content, h', v'.content, n - 1)
    case Obj(id) =>
      && v'.Obj? && id < |h| && v'.id < |h'| && |h[id]| == |h'[v'.id]|
      && forall i :: 0 <= i < |h[id]| ==> HasTwin(h, h[id][i], h', h'[v'.id], n - 1)
    case _ => v' == v
  }

  predicate HasTwin(h: Heap, p: Prop, h': Heap, props: Props, n: nat)
    decreases n, 2
  {
    exists j :: 0 <= j < |props| && AlikeProp(h, p, h', props[j], n)
  }

  predicate AlikeProp(h: Heap, p: Prop, h': Heap, p': Prop, n: nat)
    decreases n, 1
  {
    p.key == p'.key && Alike(h, p.val, h', p'.val, n)
  }

  // ----- Keys and entries -----

  /** The entries of an object's properties, in their order. */
  function EntriesOf(ec: EncConfig, props: Props): seq<Entry> {
    if props == [] then []
    else [Entry(Write(KeyToken(ec, props[0].key)), props[0].val)] + EntriesOf(ec, props[1..])
  }

  lemma {:induction false} EncKeysAreEntries(ec: EncConfig, st: EncState, props: Props)
    requires st.srns.None? && EncKeys(ec, st, props).Ok?
    ensures EncKeys(ec, st, props) == Ok((EntriesOf(ec, props), st))
    decreases |props|
  {
    hide EncKey, KeyToken, Write;
    if props != [] {
      EncKeyIsToken(ec, st, props[0].key);
      EncKeysAreEntries(ec, st, props[1..]);
    }
  }

  lemma {:induction false} EntryAt(ec: EncConfig, props: Props, i: nat)
    requires i < |props|
    ensures |EntriesOf(ec, props)| == |props|
    ensures EntriesOf(ec, props)[i] == Entry(Write(KeyToken(ec, props[i].key)), props[i].val)
  {
    hide KeyToken, Write;
    if i > 0 {
      EntryAt(ec, props[1..], i - 1);
    } else if |props| > 1 {
      EntryAt(ec, props[1..], 0);
    }
  }

  lemma EntriesDistinct(ec: EncConfig, props: Props)
    requires NamesOk(props)
    ensures DistinctEntries(EntriesOf(ec, props)) && |EntriesOf(ec, props)| == |props|
  {
    hide KeyToken, Write, EntriesOf;
    if props != [] {
      EntryAt(ec, props, 0);
    } else {
      NoEntries(ec);
    }
    var es := EntriesOf(ec, props);
    forall i, j | 0 <= i < j < |es| ensures es[i].key != es[j].key {
      EntryAt(ec, props, i);
      EntryAt(ec, props, j);
      if es[i].key == es[j].key {
        KeyIsInjective(ec, props[i].key, props[j].key);
      }
    }
  }

  lemma NoEntries(ec: EncConfig)
    ensures EntriesOf(ec, []) == []
  {
  }

  /** An entry comes from a property. */
  lemma EntrySource(ec: EncConfig, props: Props, e: Entry) returns (i: nat)
    requires e in EntriesOf(ec, props)
    ensures i < |props| && e == Entry(Write(KeyToken(ec, props[i].key)), props[i].val)
  {
    hide KeyToken, Write, EntriesOf;
    if props == [] {
      NoEntries(ec);
    } else {
      EntryAt(ec, props, 0);
    }
    i :| 0 <= i < |EntriesOf(ec, props)| && EntriesOf(ec, props)[i] == e;
    EntryAt(ec, props, i);
  }

  function Sorted(ec: EncConfig, props: Props): seq<Entry> { SortByKey(EntriesOf(ec, props)) }

  lemma SortedOk(ec: EncConfig, props: Props)
    requires NamesOk(props)
    ensures Ascending(Sorted(ec, props)) && |Sorted(ec, props)| == |props|
    ensures forall e :: e in Sorted(ec, props) <==> e in EntriesOf(ec, props)
  {
    EntriesDistinct(ec, props);
    SortSorts(EntriesOf(ec, props));
  }

  /** An object under the deterministic encoding: its properties in ascending order of keys. */
  lemma HashIsSorted(ec: EncConfig, g: Graph, st: EncState, id: nat, depth: nat, busy: set<nat>)
    requires Deterministic(ec) && st.srns.None? && depth <= ec.maxDepth && EncHash(ec, g, st, id, depth, busy).Ok?
    ensures id < |g.heap|
    ensures var r := EncEntries(ec, g, st, Sorted(ec, g.heap[id]), depth + 1, busy);
            r.Ok? && EncHash(ec, g, st, id, depth, busy) == Ok(Out(Write(Map(|g.heap[id]|)) + r.value.out, r.value.st))
  {
    hide KeyToken, Write;
    var props := g.heap[id];
    if props == [] {
      NoEntries(ec);
      assert EncEntries(ec, g, st, [], depth + 1, busy) == Ok(Out([], st));
      assert EncProps(ec, g, st, [], depth + 1, busy + {id}) == Ok(Out([], st));
    } else {
      EncKeysAreEntries(ec, st, props);
    }
  }

  // ----- Encoding leaves the state alone -----

  predicate Stays(r: R<Out>, st: EncState) { r.Ok? ==> r.value.st == st }

  lemma {:induction false} ValStays(ec: EncConfig, g: Graph, st: EncState, v: Val, depth: nat, busy: set<nat>)
    requires Deterministic(ec) && st.srns.None?
    ensures Stays(EncVal(ec, g, st, v, depth, busy), st)
    decreases Room(ec, depth), 4
  {
    hide EncString, Write, ScalarToken, EncElems, EncHash;
    if depth <= ec.maxDepth {
      match v
      case List(elems) => ElemsStay(ec, g, st, elems, depth + 1, busy);
      case Obj(id) => ObjectStays(ec, g, st, id, depth, busy);
      case Tag(_, content) => ValStays(ec, g, st, content, depth + 1, busy);
      case Str(s) => StringKeepsState(ec, st, s, ec.strings.AsText?);
      case ByteStr(s) => StringKeepsState(ec, st, s, false);
      case TextStr(s) => StringKeepsState(ec, st, s, true);
      case _ =>
    }
  }

  lemma {:induction false} ElemsStay(ec: EncConfig, g: Graph, st: EncState, elems: seq<Val>, depth: nat, busy: set<nat>)
    requires Deterministic(ec) && st.srns.None?
    ensures Stays(EncElems(ec, g, st, elems, depth, busy), st)
    decreases Room(ec, depth), 5, |elems|
  {
    hide EncVal;
    if elems != [] {
      ValStays(ec, g, st, elems[0], depth, busy);
      ElemsStay(ec, g, st, elems[1..], depth, busy);
    }
  }

  lemma {:induction false} ObjectStays(ec: EncConfig, g: Graph, st: EncState, id: nat, depth: nat, busy: set<nat>)
    requires Deterministic(ec) && st.srns.None? && depth <= ec.maxDepth
    ensures Stays(EncHash(ec, g, st, id, depth, busy), st)
    decreases Room(ec, depth), 3
  {
    hide EncEntries, EncHash, Sorted;
    if EncHash(ec, g, st, id, depth, busy).Ok? {
      HashIsSorted(ec, g, st, id, depth, busy);
      EntriesStay(ec, g, st, Sorted(ec, g.heap[id]), depth + 1, busy);
    }
  }

  lemma {:induction false} EntriesStay(ec: EncConfig, g: Graph, st: EncState, entries: seq<Entry>, depth: nat, busy: set<nat>)
    requires Deterministic(ec) && st.srns.None?
    ensures Stays(EncEntries(ec, g, st, entries, depth, busy), st)
    decreases Room(ec, depth), 5, |entries|
  {
    hide EncVal;
    if entries != [] {
      ValStays(ec, g, st, entries[0].val, depth, busy);
      EntriesStay(ec, g, st, entries[1..], depth, busy);
    }
  }

  // ----- Maps as they are written -----

  /** Keys and values by turns. */
  function Interleaved(keys: seq<bytes>, vals: seq<bytes>): bytes
    requires |keys| == |vals|
  {
    if keys == [] then [] else keys[0] + vals[0] + Interleaved(keys[1..], vals[1..])
  }

  lemma {:induction false} EntriesWritten(
    ec: EncConfig, g: Graph, st: EncState, entries: seq<Entry>, depth: nat, busy: set<nat>)
    returns (keys: seq<bytes>, vals: seq<bytes>)
    requires Deterministic(ec) && st.srns.None? && EncEntries(ec, g, st, entries, depth, busy).Ok?
    ensures |keys| == |vals| == |entries| && EncEntries(ec, g, st, entries, depth, busy).value.out == Interleaved(keys, vals)
    ensures forall i :: 0 <= i < |entries| ==>
              keys[i] == entries[i].key && IsEncoding(ec, g, st, entries[i].val, depth, busy, vals[i])
  {
    hide EncVal;
    if entries == [] {
      keys, vals := [], [];
    } else {
      ValStays(ec, g, st, entries[0].val, depth, busy);
      var first := EncVal(ec, g, st, entries[0].val, depth, busy).value.out;
      keys, vals := EntriesWritten(ec, g, st, entries[1..], depth, busy);
      keys, vals := [entries[0].key] + keys, [first] + vals;
    }
  }

  predicate IsEncoding(ec: EncConfig, g: Graph, st: EncState, v: Val, depth: nat, busy: set<nat>, out: bytes) {
    var r := EncVal(ec, g, st, v, depth, busy);
    r.Ok? && r.value.out == out
  }

  /** Each key is the encoded name of a property, and the value behind it is that of the property. */
  ghost predicate IsMember(
    ec: EncConfig, g: Graph, st: EncState, props: Props, depth: nat, busy: set<nat>, key: bytes, val: bytes)
  {
    exists i :: 0 <= i < |props| && key == Write(KeyToken(ec, props[i].key))
                && IsEncoding(ec, g, st, props[i].val, depth, busy, val)
  }

  /**
   In every map that is written each key is bytewise less than the next ones: at the first difference its
   byte is less or it has ended. There are as many members as properties, each of them one of those.
   */
  lemma MapKeysAscend(ec: EncConfig, g: Graph, st: EncState, id: nat, depth: nat, busy: set<nat>)
    returns (keys: seq<bytes>, vals: seq<bytes>)
    requires Deterministic(ec) && st.srns.None? && depth <= ec.maxDepth && EncHash(ec, g, st, id, depth, busy).Ok?
    requires HeapNamesOk(g.heap)
    ensures id < |g.heap| && |keys| == |vals| == |g.heap[id]|
    ensures EncHash(ec, g, st, id, depth, busy).value.out == Write(Map(|keys|)) + Interleaved(keys, vals)
    ensures forall i, j :: 0 <= i < j < |keys| ==> Precedes(keys[i], keys[j])
    ensures forall i :: 0 <= i < |keys| ==> IsMember(ec, g, st, g.heap[id], depth + 1, busy, keys[i], vals[i])
  {
    hide KeyToken, Write, EncHash, EncEntries, EntriesOf, IsEncoding, Precedes, BytesLess;
    HashIsSorted(ec, g, st, id, depth, busy);
    SortedOk(ec, g.heap[id]);
    var entries := Sorted(ec, g.heap[id]);
    keys, vals := EntriesWritten(ec, g, st, entries, depth + 1, busy);
    forall i, j | 0 <= i < j < |keys| ensures Precedes(keys[i], keys[j]) {
      LessIsBytewise(keys[i], keys[j]);
    }
    forall i | 0 <= i < |keys| ensures IsMember(ec, g, st, g.heap[id], depth + 1, busy, keys[i], vals[i]) {
      var j := EntrySource(ec, g.heap[id], entries[i]);
    }
  }

  // ----- Order of properties does not matter -----

  predicate AlikeEntries(h: Heap, s: seq<Entry>, h': Heap, t: seq<Entry>, n: nat) {
    |s| == |t| && forall i :: 0 <= i < |s| ==> s[i].key == t[i].key && Alike(h, s[i].val, h', t[i].val, n)
  }

  ghost predicate HasPartner(h: Heap, e: Entry, h': Heap, t: seq<Entry>, n: nat) {
    exists j :: 0 <= j < |t| && t[j].key == e.key && Alike(h, e.val, h', t[j].val, n)
  }

  lemma PartnerOf(ec: EncConfig, h: Heap, a: nat, h': Heap, b: nat, n: nat, i: nat) returns (j: nat)
    requires n > 0 && Alike(h, Obj(a), h', Obj(b), n) && i < |h[a]|
    ensures j < |h'[b]| && AlikeProp(h, h[a][i], h', h'[b][j], n - 1)
  {
    j :| 0 <= j < |h'[b]| && AlikeProp(h, h[a][i], h', h'[b][j], n - 1);
  }

  /** Objects that are alike have the same sorted keys, and values that are alike under them. */
  lemma SortedAlike(ec: EncConfig, h: Heap, a: nat, h': Heap, b: nat, n: nat)
    requires n > 0 && Alike(h, Obj(a), h', Obj(b), n) && HeapNamesOk(h) && HeapNamesOk(h')
    ensures AlikeEntries(h, Sorted(ec, h[a]), h', Sorted(ec, h'[b]), n - 1)
  {
    hide KeyToken, Write, EntriesOf, Alike, Ascending, Sorted;
    SameLength(h, a, h', b, n);
    var props, props' := h[a], h'[b];
    SortedOk(ec, props);
    SortedOk(ec, props');
    var s, t := Sorted(ec, props), Sorted(ec, props');
    forall i | 0 <= i < |s| ensures HasPartner(h, s[i], h', t, n - 1) {
      var k := EntrySource(ec, props, s[i]);
      var l := PartnerOf(ec, h, a, h', b, n, k);
      EntryAt(ec, props', l);
      var e := EntriesOf(ec, props')[l];
      assert e in t;
      var j :| 0 <= j < |t| && t[j] == e;
    }
    InjectionsMatch(h, s, h', t, n - 1);
  }

  lemma SameLength(h: Heap, a: nat, h': Heap, b: nat, n: nat)
    requires n > 0 && Alike(h, Obj(a), h', Obj(b), n)
    ensures a < |h| && b < |h'| && |h[a]| == |h'[b]|
  {
  }

  /**
   Two ascending sequences of the same length, each entry of the first having a partner with the same
   key in the second: they match position by position.
   */
  lemma InjectionsMatch(h: Heap, s: seq<Entry>, h': Heap, t: seq<Entry>, n: nat)
    requires Ascending(s) && Ascending(t) && |s| == |t|
    requires forall i :: 0 <= i < |s| ==> HasPartner(h, s[i], h', t, n)
    ensures AlikeEntries(h, s, h', t, n)
  {
    hide Alike, HasPartner, Ascending;
    forall i | 0 <= i < |s| ensures s[i].key == t[i].key && Alike(h, s[i].val, h', t[i].val, n) {
      var j := Partner(h, s[i], h', t, n);
      PositionAtLeast(h, s, h', t, n, i, j);
      PositionAtMost(h, s, h', t, n, i, j);
    }
  }

  lemma Partner(h: Heap, e: Entry, h': Heap, t: seq<Entry>, n: nat) returns (j: nat)
    requires HasPartner(h, e, h', t, n)
    ensures j < |t| && t[j].key == e.key && Alike(h, e.val, h', t[j].val, n)
  {
    j :| 0 <= j < |t| && t[j].key == e.key && Alike(h, e.val, h', t[j].val, n);
  }

  /** The partner of entry `i` cannot come before position `i`: the entries before it need their own. */
  lemma {:induction false} PositionAtLeast(h: Heap, s: seq<Entry>, h': Heap, t: seq<Entry>, n: nat, i: nat, j: nat)
    requires Ascending(s) && Ascending(t) && |s| == |t| && i < |s| && j < |t| && t[j].key == s[i].key
    requires forall i :: 0 <= i < |s| ==> HasPartner(h, s[i], h', t, n)
    ensures j >= i
    decreases i
  {
    hide Alike, HasPartner, BytesLess;
    if i > 0 {
      var k := Partner(h, s[i - 1], h', t, n);
      PositionAtLeast(h, s, h', t, n, i - 1, k);
      OrderedPositions(t, k, j);
    }
  }

  lemma {:induction false} PositionAtMost(h: Heap, s: seq<Entry>, h': Heap, t: seq<Entry>, n: nat, i: nat, j: nat)
    requires Ascending(s) && Ascending(t) && |s| == |t| && i < |s| && j < |t| && t[j].key == s[i].key
    requires forall i :: 0 <= i < |s| ==> HasPartner(h, s[i], h', t, n)
    ensures j <= i
    decreases |s| - i
  {
    hide Alike, HasPartner, BytesLess;
    if i + 1 < |s| {
      var k := Partner(h, s[i + 1], h', t, n);
      PositionAtMost(h, s, h', t, n, i + 1, k);
      OrderedPositions(t, j, k);
    }
  }

  lemma OrderedPositions(t: seq<Entry>, j: nat, k: nat)
    requires Ascending(t) && j < |t| && k < |t| && BytesLess(t[j].key, t[k].key)
    ensures j < k
  {
    LessIrreflexive(t[j].key);
    if k < j {
      LessTransitive(t[j].key, t[k].key, t[j].key);
    }
  }

  lemma {:induction false} ValCanonical(
    ec: EncConfig, g: Graph, g': Graph, st: EncState, v: Val, v': Val, depth: nat, busy: set<nat>)
    requires Deterministic(ec) && st.srns.None? && HeapNamesOk(g.heap) && HeapNamesOk(g'.heap) && busy == {}
    requires Alike(g.heap, v, g'.heap, v', Room(ec, depth)) && EncVal(ec, g, st, v, depth, busy).Ok?
    ensures EncVal(ec, g', st, v', depth, busy) == EncVal(ec, g, st, v, depth, busy)
    ensures EncVal(ec, g, st, v, depth, busy).value.st == st
    decreases Room(ec, depth), 4
  {
    hide EncString, Write, ScalarToken, EncElems, EncObject, EncTag, HeapNamesOk;
    match v
    case List(elems) => ElemsCanonical(ec, g, g', st, elems, v'.elems, depth + 1, busy);
    case Obj(id) => ObjectCanonical(ec, g, g', st, id, v'.id, depth, busy);
    case Tag(tag, content) => TagCanonical(ec, g, g', st, tag, content, v'.content, depth, busy);
    case Str(s) => StringKeepsState(ec, st, s, ec.strings.AsText?);
    case ByteStr(s) => StringKeepsState(ec, st, s, false);
    case TextStr(s) => StringKeepsState(ec, st, s, true);
    case _ =>
  }

  lemma StringKeepsState(ec: EncConfig, st: EncState, s: bytes, isText: bool)
    requires st.srns.None?
    ensures EncString(ec, st, s, isText).Ok? ==> EncString(ec, st, s, isText).value.st == st
  {
  }

  lemma {:induction false} ElemsCanonical(
    ec: EncConfig, g: Graph, g': Graph, st: EncState, elems: seq<Val>, elems': seq<Val>, depth: nat, busy: set<nat>)
    requires Deterministic(ec) && st.srns.None? && HeapNamesOk(g.heap) && HeapNamesOk(g'.heap) && busy == {}
    requires |elems| == |elems'| && forall i :: 0 <= i < |elems| ==> Alike(g.heap, elems[i], g'.heap, elems'[i], Room(ec, depth))
    requires EncElems(ec, g, st, elems, depth, busy).Ok?
    ensures EncElems(ec, g', st, elems', depth, busy) == EncElems(ec, g, st, elems, depth, busy)
    ensures EncElems(ec, g, st, elems, depth, busy).value.st == st
    decreases Room(ec, depth), 5, |elems|
  {
    hide EncVal, Alike, HeapNamesOk;
    if elems != [] {
      ValCanonical(ec, g, g', st, elems[0], elems'[0], depth, busy);
      ElemsCanonical(ec, g, g', st, elems[1..], elems'[1..], depth, busy);
    }
  }

  lemma {:induction false} TagCanonical(
    ec: EncConfig, g: Graph, g': Graph, st: EncState, tag: int, content: Val, content': Val, depth: nat, busy: set<nat>)
    requires Deterministic(ec) && st.srns.None? && HeapNamesOk(g.heap) && HeapNamesOk(g'.heap) && busy == {}
    requires depth <= ec.maxDepth && Alike(g.heap, content, g'.heap, content', Room(ec, depth + 1))
    requires EncTag(ec, g, st, tag, content, depth, busy).Ok?
    ensures EncTag(ec, g', st, tag, content', depth, busy) == EncTag(ec, g, st, tag, content, depth, busy)
    ensures EncTag(ec, g, st, tag, content, depth, busy).value.st == st
    decreases Room(ec, depth), 3
  {
    hide EncVal, Alike, HeapNamesOk, Write;
    ValCanonical(ec, g, g', st, content, content', depth + 1, busy);
  }

  lemma {:induction false} ObjectCanonical(
    ec: EncConfig, g: Graph, g': Graph, st: EncState, id: nat, id': nat, depth: nat, busy: set<nat>)
    requires Deterministic(ec) && st.srns.None? && HeapNamesOk(g.heap) && HeapNamesOk(g'.heap) && busy == {}
    requires depth <= ec.maxDepth && Alike(g.heap, Obj(id), g'.heap, Obj(id'), Room(ec, depth))
    requires EncObject(ec, g, st, id, depth, busy).Ok?
    ensures EncObject(ec, g', st, id', depth, busy) == EncObject(ec, g, st, id, depth, busy)
    ensures EncObject(ec, g, st, id, depth, busy).value.st == st
    decreases Room(ec, depth), 3
  {
    hide EncEntries, Alike, HeapNamesOk, Write, Sorted, EncHash;
    SameLength(g.heap, id, g'.heap, id', Room(ec, depth));
    HashIsSorted(ec, g, st, id, depth, busy);
    SortedAlike(ec, g.heap, id, g'.heap, id', Room(ec, depth));
    EntriesCanonical(ec, g, g', st, Sorted(ec, g.heap[id]), Sorted(ec, g'.heap[id']), depth + 1, busy);
    KeysSucceed(ec, g, g', st, id, id', depth, busy);
    HashIsSorted(ec, g', st, id', depth, busy);
  }

  lemma {:induction false} EntriesCanonical(
    ec: EncConfig, g: Graph, g': Graph, st: EncState, s: seq<Entry>, t: seq<Entry>, depth: nat, busy: set<nat>)
    requires Deterministic(ec) && st.srns.None? && HeapNamesOk(g.heap) && HeapNamesOk(g'.heap) && busy == {}
    requires AlikeEntries(g.heap, s, g'.heap, t, Room(ec, depth)) && EncEntries(ec, g, st, s, depth, busy).Ok?
    ensures EncEntries(ec, g', st, t, depth, busy) == EncEntries(ec, g, st, s, depth, busy)
    ensures EncEntries(ec, g, st, s, depth, busy).value.st == st
    decreases Room(ec, depth), 5, |s|
  {
    hide EncVal, Alike, HeapNamesOk;
    if s != [] {
      ValCanonical(ec, g, g', st, s[0].val, t[0].val, depth, busy);
      EntriesCanonical(ec, g, g', st, s[1..], t[1..], depth, busy);
    }
  }

  /** The other object's keys can be encoded too, as they are the same; then so can the object. */
  lemma KeysSucceed(ec: EncConfig, g: Graph, g': Graph, st: EncState, id: nat, id': nat, depth: nat, busy: set<nat>)
    requires Deterministic(ec) && st.srns.None? && HeapNamesOk(g.heap) && HeapNamesOk(g'.heap) && busy == {}
    requires depth <= ec.maxDepth && Alike(g.heap, Obj(id), g'.heap, Obj(id'), Room(ec, depth))
    requires EncHash(ec, g, st, id, depth, busy).Ok?
    requires id' < |g'.heap| && EncEntries(ec, g', st, Sorted(ec, g'.heap[id']), depth + 1, busy).Ok?
    ensures EncHash(ec, g', st, id', depth, busy).Ok?
  {
    hide EncEntries, Alike, KeyToken, Write, Sorted, EncKey;
    var props, props' := g.heap[id], g'.heap[id'];
    SameLength(g.heap, id, g'.heap, id', Room(ec, depth));
    SortedAlike(ec, g.heap, id, g'.heap, id', Room(ec, depth));
    forall j | 0 <= j < |props'| ensures EncKey(ec, st, props'[j].key).Ok? {
      var i := SameName(ec, props, props', j, g.heap, g'.heap, Room(ec, depth) - 1);
      KeysOk(ec, st, props, i);
    }
    AllKeysOk(ec, st, props');
    HashSucceeds(ec, g', st, id', depth, busy);
  }

  lemma HashSucceeds(ec: EncConfig, g: Graph, st: EncState, id: nat, depth: nat, busy: set<nat>)
    requires Deterministic(ec) && st.srns.None? && depth <= ec.maxDepth && id < |g.heap| && id !in busy
    requires EncKeys(ec, st, g.heap[id]).Ok? && EncEntries(ec, g, st, Sorted(ec, g.heap[id]), depth + 1, busy).Ok?
    ensures EncHash(ec, g, st, id, depth, busy).Ok?
  {
    hide Write;
    EncKeysAreEntries(ec, st, g.heap[id]);
    assert EncProps(ec, g, st, [], depth + 1, busy + {id}) == Ok(Out([], st));
  }

  /** A name of the other object is a name of this one. */
  lemma SameName(ec: EncConfig, props: Props, props': Props, j: nat, h: Heap, h': Heap, n: nat) returns (i: nat)
    requires NamesOk(props) && NamesOk(props') && j < |props'|
    requires AlikeEntries(h, Sorted(ec, props), h', Sorted(ec, props'), n)
    ensures i < |props| && props[i].key == props'[j].key
  {
    hide Alike, KeyToken, Write, Sorted, EntriesOf;
    SortedOk(ec, props);
    SortedOk(ec, props');
    EntryAt(ec, props', j);
    var e := EntriesOf(ec, props')[j];
    assert e in Sorted(ec, props');
    var k :| 0 <= k < |props'| && Sorted(ec, props')[k] == e;
    i := EntrySource(ec, props, Sorted(ec, props)[k]);
    KeyIsInjective(ec, props[i].key, props'[j].key);
  }

  lemma {:induction false} KeysOk(ec: EncConfig, st: EncState, props: Props, i: nat)
    requires st.srns.None? && EncKeys(ec, st, props).Ok? && i < |props|
    ensures EncKey(ec, st, props[i].key).Ok?
    decreases |props|
  {
    hide EncKey, KeyToken, Write;
    EncKeyIsToken(ec, st, props[0].key);
    if i > 0 {
      KeysOk(ec, st, props[1..], i - 1);
    }
  }

  lemma {:induction false} AllKeysOk(ec: EncConfig, st: EncState, props: Props)
    requires st.srns.None? && forall i :: 0 <= i < |props| ==> EncKey(ec, st, props[i].key).Ok?
    ensures EncKeys(ec, st, props).Ok?
    decreases |props|
  {
    hide EncKey, KeyToken, Write;
    if props != [] {
      EncKeyIsToken(ec, st, props[0].key);
      forall i | 0 <= i < |props[1..]| ensures EncKey(ec, st, props[1..][i].key).Ok? {
        assert props[1..][i] == props[i + 1];
      }
      AllKeysOk(ec, st, props[1..]);
    }
  }

  /** Values that are equal up to the order of properties have one deterministic encoding. */
  lemma EncodingIsCanonical(ec: EncConfig, g: Graph, g': Graph, v: Val, v': Val)
    requires Deterministic(ec) && HeapNamesOk(g.heap) && HeapNamesOk(g'.heap)
    requires Alike(g.heap, v, g'.heap, v', Room(ec, 0)) && Encode(ec, g, v).Ok?
    ensures Encode(ec, g', v') == Encode(ec, g, v)
  {
    hide EncVal, Alike, HeapNamesOk, Write;
    ValCanonical(ec, g, g', EncState(None, map[]), v, v', 0, {});
  }
}
