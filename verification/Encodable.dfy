/**
 Which values can be encoded. Without sharing, a value is encoded exactly if the options cover its
 strings and names, its text is valid, its tags are not negative, and no path through its objects is too
 deep or comes back to an object on it. With sharing a path may come back to a counted object. String
 references make no difference as long as there are numbers enough for the strings.
 */
module Encodable {
  import opened Bytes
  import opened Wrappers
  import opened Values
  import opened Wire
  import opened DecoderConfig
  import opened Encoder
  import opened Cloning
  import opened Nesting
  import opened RoundTrip
  import opened StringRefs
  import DecimalInt
  import Utf8

  // ----- Conditions on a value -----

  predicate TextFine(ec: EncConfig, s: bytes, isText: bool) { isText && !ec.unsafeText ==> Utf8.Valid(s) }

  predicate NameFine(ec: EncConfig, name: bytes) {
    (ec.intKey && DecimalInt.Parse(name).Some?) || (!ec.keys.NoFlag? && TextFine(ec, name, ec.keys.AsText?))
  }

  predicate NamesFine(ec: EncConfig, props: Props) { forall i :: 0 <= i < |props| ==> NameFine(ec, props[i].key) }

  predicate LeafFine(ec: EncConfig, v: Val) {
    match v
    case Str(s) => !ec.strings.NoFlag? && TextFine(ec, s, ec.strings.AsText?)
    case TextStr(s) => TextFine(ec, s, true)
    case _ => true
  }

  /** `n` is how many levels there may be, `path` the objects that the value is in. */
  predicate CanEncode(ec: EncConfig, g: Graph, v: Val, n: nat, path: set<nat>)
    decreases n
  {
    match v
    case List(elems) => elems == [] || (n > 0 && forall i :: 0 <= i < |elems| ==> CanEncode(ec, g, elems[i], n - 1, path))
    case Tag(tag, content) => tag >= 0 && n > 0 && CanEncode(ec, g, content, n - 1, path)
    case Obj(id) =>
      if id in path then IsShared(ec, g, id)
      else
        && id < |g.heap| && NamesFine(ec, g.heap[id])
        && (g.heap[id] == []
            || (n > 0 && forall i :: 0 <= i < |g.heap[id]| ==> CanEncode(ec, g, g.heap[id][i].val, n - 1, path + {id})))
    case _ => LeafFine(ec, v)
  }

  // ----- Plain encodings -----

  /** The objects on the path that are shared have their numbers. */
  predicate Numbered(ec: EncConfig, g: Graph, st: EncState, busy: set<nat>) {
    st.srns.None? && forall id :: id in busy && IsShared(ec, g, id) ==> id in st.refs
  }

  /** Encoding succeeds, and takes no number back. */
  predicate Succeeds(st: EncState, r: R<Out>) {
    r.Ok? && r.value.st.srns.None? && st.refs.Keys <= r.value.st.refs.Keys
  }

  lemma KeyFits(ec: EncConfig, st: EncState, name: bytes)
    requires st.srns.None?
    ensures EncKey(Without(ec), st, name).Ok? <==> NameFine(ec, name)
    ensures EncKey(Without(ec), st, name).Ok? ==> EncKey(Without(ec), st, name).value.st == st
  {
    hide Write, Utf8.Valid;
  }

  lemma LeafFits(ec: EncConfig, g: Graph, st: EncState, v: Val, depth: nat, busy: set<nat>)
    requires st.srns.None? && IsLeaf(v) && depth <= ec.maxDepth
    ensures var r := EncVal(Without(ec), g, st, v, depth, busy);
            (r.Ok? <==> LeafFine(ec, v)) && (r.Ok? ==> r.value.st == st)
  {
    hide Write, ScalarToken, Utf8.Valid;
  }

  lemma {:induction false} ValFits(ec: EncConfig, g: Graph, st: EncState, v: Val, depth: nat, busy: set<nat>)
    requires !ec.cde && depth <= ec.maxDepth && Numbered(ec, g, st, busy)
    requires CanEncode(ec, g, v, ec.maxDepth - depth, busy)
    ensures Succeeds(st, EncVal(Without(ec), g, st, v, depth, busy))
    decreases Room(ec, depth), 4
  {
    hide EncElems, EncHash, LeafFine, NamesFine, Write;
    match v
    case List(elems) =>
      if elems == [] {
        assert EncElems(Without(ec), g, st, [], depth + 1, busy) == Ok(Out([], st)) by {
          NothingEncoded(ec, g, st, depth + 1, busy);
        }
      } else {
        ElemsFit(ec, g, st, elems, depth + 1, busy);
      }
    case Tag(_, content) => ValFits(ec, g, st, content, depth + 1, busy);
    case Obj(id) => ObjectFits(ec, g, st, id, depth, busy);
    case _ => LeafFits(ec, g, st, v, depth, busy);
  }

  lemma NothingEncoded(ec: EncConfig, g: Graph, st: EncState, depth: nat, busy: set<nat>)
    ensures EncElems(Without(ec), g, st, [], depth, busy) == Ok(Out([], st))
    ensures EncProps(Without(ec), g, st, [], depth, busy) == Ok(Out([], st))
  {
  }

  lemma {:induction false} ElemsFit(ec: EncConfig, g: Graph, st: EncState, elems: seq<Val>, depth: nat, busy: set<nat>)
    requires !ec.cde && depth <= ec.maxDepth && Numbered(ec, g, st, busy)
    requires forall i :: 0 <= i < |elems| ==> CanEncode(ec, g, elems[i], ec.maxDepth - depth, busy)
    ensures Succeeds(st, EncElems(Without(ec), g, st, elems, depth, busy))
    decreases Room(ec, depth), 5, |elems|
  {
    hide EncVal, CanEncode;
    if elems != [] {
      ValFits(ec, g, st, elems[0], depth, busy);
      ElemsFit(ec, g, EncVal(Without(ec), g, st, elems[0], depth, busy).value.st, elems[1..], depth, busy);
    }
  }

  lemma {:induction false} ObjectFits(ec: EncConfig, g: Graph, st: EncState, id: nat, depth: nat, busy: set<nat>)
    requires !ec.cde && depth <= ec.maxDepth && Numbered(ec, g, st, busy)
    requires CanEncode(ec, g, Obj(id), ec.maxDepth - depth, busy)
    ensures Succeeds(st, EncObject(Without(ec), g, st, id, depth, busy))
    decreases Room(ec, depth), 3
  {
    hide EncHash, Write, NamesFine;
    if !(IsShared(ec, g, id) && id in st.refs) {
      HashFits(ec, g, if IsShared(ec, g, id) then Number(st, id) else st, id, depth, busy);
    }
  }

  lemma {:induction false} HashFits(ec: EncConfig, g: Graph, st: EncState, id: nat, depth: nat, busy: set<nat>)
    requires !ec.cde && depth <= ec.maxDepth && Numbered(ec, g, st, busy + {id}) && id !in busy
    requires CanEncode(ec, g, Obj(id), ec.maxDepth - depth, busy)
    ensures Succeeds(st, EncHash(Without(ec), g, st, id, depth, busy))
    decreases Room(ec, depth), 2
  {
    hide EncProps, Write, NamesFine;
    if g.heap[id] == [] {
      NothingEncoded(ec, g, st, depth + 1, busy + {id});
    } else {
      MembersFit(ec, g, st, g.heap[id], depth + 1, busy + {id});
    }
  }

  lemma {:induction false} MembersFit(ec: EncConfig, g: Graph, st: EncState, props: Props, depth: nat, busy: set<nat>)
    requires !ec.cde && depth <= ec.maxDepth && Numbered(ec, g, st, busy) && NamesFine(ec, props)
    requires forall i :: 0 <= i < |props| ==> CanEncode(ec, g, props[i].val, ec.maxDepth - depth, busy)
    ensures Succeeds(st, EncProps(Without(ec), g, st, props, depth, busy))
    decreases Room(ec, depth), 5, |props|
  {
    hide EncVal, EncKey, CanEncode, NameFine;
    if props != [] {
      KeyFits(ec, st, props[0].key);
      ValFits(ec, g, st, props[0].val, depth, busy);
      MembersFit(ec, g, EncVal(Without(ec), g, st, props[0].val, depth, busy).value.st, props[1..], depth, busy);
    }
  }

  // ----- Without sharing, nothing else can be encoded -----

  predicate Unshared(ec: EncConfig, st: EncState) { !ec.cde && !ec.sharedRef && st.srns.None? }

  lemma {:induction false} ValFitted(ec: EncConfig, g: Graph, st: EncState, v: Val, depth: nat, busy: set<nat>)
    requires Unshared(ec, st) && EncVal(Without(ec), g, st, v, depth, busy).Ok?
    ensures depth <= ec.maxDepth && CanEncode(ec, g, v, ec.maxDepth - depth, busy)
    ensures EncVal(Without(ec), g, st, v, depth, busy).value.st == st
    decreases Room(ec, depth), 4
  {
    hide EncElems, EncHash, LeafFine, NamesFine, Write;
    match v
    case List(elems) => ElemsFitted(ec, g, st, elems, depth + 1, busy);
    case Tag(_, content) => ValFitted(ec, g, st, content, depth + 1, busy);
    case Obj(id) => HashFitted(ec, g, st, id, depth, busy);
    case _ => LeafFits(ec, g, st, v, depth, busy);
  }

  lemma {:induction false} ElemsFitted(ec: EncConfig, g: Graph, st: EncState, elems: seq<Val>, depth: nat, busy: set<nat>)
    requires Unshared(ec, st) && EncElems(Without(ec), g, st, elems, depth, busy).Ok?
    ensures elems != [] ==> depth <= ec.maxDepth
    ensures forall i :: 0 <= i < |elems| ==> CanEncode(ec, g, elems[i], ec.maxDepth - depth, busy)
    ensures EncElems(Without(ec), g, st, elems, depth, busy).value.st == st
    decreases Room(ec, depth), 5, |elems|
  {
    hide EncVal, CanEncode;
    if elems != [] {
      ValFitted(ec, g, st, elems[0], depth, busy);
      ElemsFitted(ec, g, st, elems[1..], depth, busy);
      forall i | 0 <= i < |elems| ensures CanEncode(ec, g, elems[i], ec.maxDepth - depth, busy) {
        assert i > 0 ==> elems[i] == elems[1..][i - 1];
      }
    }
  }

  lemma {:induction false} HashFitted(ec: EncConfig, g: Graph, st: EncState, id: nat, depth: nat, busy: set<nat>)
    requires Unshared(ec, st) && depth <= ec.maxDepth && EncHash(Without(ec), g, st, id, depth, busy).Ok?
    ensures CanEncode(ec, g, Obj(id), ec.maxDepth - depth, busy)
    ensures EncHash(Without(ec), g, st, id, depth, busy).value.st == st
    decreases Room(ec, depth), 2
  {
    hide EncProps, Write, NamesFine;
    MembersFitted(ec, g, st, g.heap[id], depth + 1, busy + {id});
  }

  lemma {:induction false} MembersFitted(ec: EncConfig, g: Graph, st: EncState, props: Props, depth: nat, busy: set<nat>)
    requires Unshared(ec, st) && EncProps(Without(ec), g, st, props, depth, busy).Ok?
    ensures props != [] ==> depth <= ec.maxDepth
    ensures NamesFine(ec, props)
    ensures forall i :: 0 <= i < |props| ==> CanEncode(ec, g, props[i].val, ec.maxDepth - depth, busy)
    ensures EncProps(Without(ec), g, st, props, depth, busy).value.st == st
    decreases Room(ec, depth), 5, |props|
  {
    hide EncVal, EncKey, CanEncode, NameFine;
    if props != [] {
      KeyFits(ec, st, props[0].key);
      ValFitted(ec, g, st, props[0].val, depth, busy);
      MembersFitted(ec, g, st, props[1..], depth, busy);
      forall i | 0 <= i < |props|
        ensures NameFine(ec, props[i].key) && CanEncode(ec, g, props[i].val, ec.maxDepth - depth, busy)
      {
        assert i > 0 ==> props[i] == props[1..][i - 1];
      }
    }
  }

  // ----- References can be written wherever the strings can -----

  /** A string together with its type. */
  type Text = (bool, bytes)

  /** All strings of the value are known, and no reference was made by hand. */
  predicate Covers(ec: EncConfig, strings: set<Text>, v: Val) {
    match v
    case Str(s) => (ec.strings.AsText?, s) in strings
    case ByteStr(s) => (false, s) in strings
    case TextStr(s) => (true, s) in strings
    case List(elems) => forall i :: 0 <= i < |elems| ==> Covers(ec, strings, elems[i])
    case Tag(tag, content) => tag != TAG_STRING_REF && Covers(ec, strings, content)
    case _ => true
  }

  predicate CoversProps(ec: EncConfig, strings: set<Text>, props: Props) {
    forall i :: 0 <= i < |props| ==>
      (IsStringKey(ec, props[i].key) ==> (ec.keys.AsText?, props[i].key) in strings) && Covers(ec, strings, props[i].val)
  }

  predicate CoversGraph(ec: EncConfig, strings: set<Text>, g: Graph) {
    forall i :: 0 <= i < |g.heap| ==> CoversProps(ec, strings, g.heap[i])
  }

  /** There are numbers enough for the strings, and no reference was made by hand. */
  ghost predicate FewStrings(ec: EncConfig, g: Graph, v: Val) {
    ec.stringRef.Off?
    || exists strings: set<Text> :: |strings| < UINT32_LIMIT && Covers(ec, strings, v) && CoversGraph(ec, strings, g)
  }

  /** The strings that have a number. */
  function Seen(srns: Srns): set<Text> {
    (set s | s in srns.byteTable :: (false, s)) + (set s | s in srns.textTable :: (true, s))
  }

  predicate Counts(srns: Srns, strings: set<Text>) { Seen(srns) <= strings && |Seen(srns)| == srns.next }

  predicate Numbering(ec: EncConfig, st: EncState, strings: set<Text>) {
    && !ec.cde && |strings| < UINT32_LIMIT && SrnsOk(ec, st.srns)
    && (st.srns.Some? ==> !ec.stringRef.Off? && Counts(st.srns.value, strings))
  }

  /** The encoding with references exists if the plain one does. */
  predicate Follows(ec: EncConfig, strings: set<Text>, plain: R<Out>, r: R<Out>) {
    plain.Ok? ==> r.Ok? && Numbering(ec, r.value.st, strings) && plain.value.st == Forget(r.value.st)
  }

  lemma {:induction false} SubsetSize(a: set<Text>, b: set<Text>)
    requires a <= b
    ensures |a| <= |b|
  {
    if a != {} {
      var x :| x in a;
      SubsetSize(a - {x}, b - {x});
    }
  }

  /** A new string gets the next number, of which there is one. */
  lemma NewString(srns: Srns, s: bytes, isText: bool, strings: set<Text>)
    requires Counts(srns, strings) && (isText, s) in strings && s !in Table(srns, isText) && |strings| < UINT32_LIMIT
    ensures srns.next < UINT32_LIMIT - 1 && Counts(AddString(srns, s, isText), strings)
  {
    SeenAdds(srns, s, isText);
    hide Seen, Table;
    SubsetSize(Seen(srns) + {(isText, s)}, strings);
  }

  lemma SeenAdds(srns: Srns, s: bytes, isText: bool)
    requires s !in Table(srns, isText)
    ensures (isText, s) !in Seen(srns) && Seen(AddString(srns, s, isText)) == Seen(srns) + {(isText, s)}
  {
    var r := AddString(srns, s, isText);
    forall x: Text ensures x in Seen(r) <==> x in Seen(srns) + {(isText, s)} {
      SeenIff(r, x);
      SeenIff(srns, x);
    }
    SeenIff(srns, (isText, s));
  }

  lemma SeenIff(srns: Srns, x: Text)
    ensures x in Seen(srns) <==> x.1 in Table(srns, x.0)
  {
  }

  lemma StringFollows(ec: EncConfig, strings: set<Text>, st: EncState, s: bytes, isText: bool)
    requires Numbering(ec, st, strings) && (isText, s) in strings
    ensures Follows(ec, strings, EncString(Without(ec), Forget(st), s, isText), EncString(ec, st, s, isText))
  {
    StringNoLonger(ec, st, s, isText);
    if st.srns.Some? && s !in Table(st.srns.value, isText) {
      NewString(st.srns.value, s, isText, strings);
    }
    hide Write, Utf8.Valid, IsLenStringRef, SrnsOk, Counts, Table, AddString;
  }

  lemma KeyFollows(ec: EncConfig, strings: set<Text>, st: EncState, name: bytes)
    requires Numbering(ec, st, strings) && (IsStringKey(ec, name) ==> (ec.keys.AsText?, name) in strings)
    ensures Follows(ec, strings, EncKey(Without(ec), Forget(st), name), EncKey(ec, st, name))
  {
    hide EncString, Write, Numbering;
    if IsStringKey(ec, name) {
      StringFollows(ec, strings, st, name, ec.keys.AsText?);
    }
  }

  lemma {:induction false} ValFollows(
    ec: EncConfig, strings: set<Text>, g: Graph, st: EncState, v: Val, depth: nat, busy: set<nat>)
    requires Numbering(ec, st, strings) && Covers(ec, strings, v) && CoversGraph(ec, strings, g)
    ensures Follows(ec, strings, EncVal(Without(ec), g, Forget(st), v, depth, busy), EncVal(ec, g, st, v, depth, busy))
    decreases Room(ec, depth), 4
  {
    hide Numbering, EncString, Write, ScalarToken, EncElems, EncObject, EncTag, CoversGraph;
    if depth <= ec.maxDepth {
      match v
      case Str(s) => StringFollows(ec, strings, st, s, ec.strings.AsText?);
      case ByteStr(s) => StringFollows(ec, strings, st, s, false);
      case TextStr(s) => StringFollows(ec, strings, st, s, true);
      case List(elems) => ElemsFollow(ec, strings, g, st, elems, depth + 1, busy);
      case Obj(id) => ObjectFollows(ec, strings, g, st, id, depth, busy);
      case Tag(tag, content) => TagFollows(ec, strings, g, st, tag, content, depth, busy);
      case _ => ScalarPlain(ec, v);
    }
  }

  lemma {:induction false} ElemsFollow(
    ec: EncConfig, strings: set<Text>, g: Graph, st: EncState, elems: seq<Val>, depth: nat, busy: set<nat>)
    requires Numbering(ec, st, strings) && CoversGraph(ec, strings, g)
    requires forall i :: 0 <= i < |elems| ==> Covers(ec, strings, elems[i])
    ensures Follows(ec, strings, EncElems(Without(ec), g, Forget(st), elems, depth, busy), EncElems(ec, g, st, elems, depth, busy))
    decreases Room(ec, depth), 5, |elems|
  {
    hide Numbering, EncVal, CoversGraph, Covers;
    if elems != [] {
      ValFollows(ec, strings, g, st, elems[0], depth, busy);
      var first := EncVal(ec, g, st, elems[0], depth, busy);
      if first.Ok? && EncVal(Without(ec), g, Forget(st), elems[0], depth, busy).Ok? {
        ElemsFollow(ec, strings, g, first.value.st, elems[1..], depth, busy);
      }
    }
  }

  lemma {:induction false} ObjectFollows(
    ec: EncConfig, strings: set<Text>, g: Graph, st: EncState, id: nat, depth: nat, busy: set<nat>)
    requires Numbering(ec, st, strings) && CoversGraph(ec, strings, g) && depth <= ec.maxDepth
    ensures Follows(ec, strings, EncObject(Without(ec), g, Forget(st), id, depth, busy), EncObject(ec, g, st, id, depth, busy))
    decreases Room(ec, depth), 3
  {
    hide Write, EncHash, CoversGraph;
    HashFollows(ec, strings, g, st, id, depth, busy);
    HashFollows(ec, strings, g, Number(st, id), id, depth, busy);
  }

  lemma {:induction false} HashFollows(
    ec: EncConfig, strings: set<Text>, g: Graph, st: EncState, id: nat, depth: nat, busy: set<nat>)
    requires Numbering(ec, st, strings) && CoversGraph(ec, strings, g) && depth <= ec.maxDepth
    ensures Follows(ec, strings, EncHash(Without(ec), g, Forget(st), id, depth, busy), EncHash(ec, g, st, id, depth, busy))
    decreases Room(ec, depth), 2
  {
    hide Write, EncProps, CoversProps;
    if id < |g.heap| {
      PropsFollow(ec, strings, g, st, g.heap[id], depth + 1, busy + {id});
    }
  }

  lemma {:induction false} PropsFollow(
    ec: EncConfig, strings: set<Text>, g: Graph, st: EncState, props: Props, depth: nat, busy: set<nat>)
    requires Numbering(ec, st, strings) && CoversGraph(ec, strings, g) && CoversProps(ec, strings, props)
    ensures Follows(ec, strings, EncProps(Without(ec), g, Forget(st), props, depth, busy), EncProps(ec, g, st, props, depth, busy))
    decreases Room(ec, depth), 5, |props|
  {
    hide Numbering, EncVal, EncKey, CoversGraph, Covers, IsStringKey;
    if props != [] {
      KeyFollows(ec, strings, st, props[0].key);
      var key := EncKey(ec, st, props[0].key);
      if key.Ok? && EncKey(Without(ec), Forget(st), props[0].key).Ok? {
        ValFollows(ec, strings, g, key.value.st, props[0].val, depth, busy);
        var first := EncVal(ec, g, key.value.st, props[0].val, depth, busy);
        if first.Ok? && EncVal(Without(ec), g, Forget(key.value.st), props[0].val, depth, busy).Ok? {
          PropsFollow(ec, strings, g, first.value.st, props[1..], depth, busy);
        }
      }
    }
  }

  lemma NothingSeen(ec: EncConfig, strings: set<Text>)
    ensures SrnsOk(ec, Some(NEW_SRNS)) && Counts(NEW_SRNS, strings)
  {
    assert Seen(NEW_SRNS) == {};
  }

  lemma {:induction false} TagFollows(
    ec: EncConfig, strings: set<Text>, g: Graph, st: EncState, tag: int, content: Val, depth: nat, busy: set<nat>)
    requires Numbering(ec, st, strings) && CoversGraph(ec, strings, g) && depth <= ec.maxDepth
    requires tag != TAG_STRING_REF && Covers(ec, strings, content)
    ensures Follows(ec, strings, EncTag(Without(ec), g, Forget(st), tag, content, depth, busy),
                    EncTag(ec, g, st, tag, content, depth, busy))
    decreases Room(ec, depth), 3
  {
    hide EncVal, Write, CoversGraph, Covers, Counts, SrnsOk;
    if OpensNamespace(ec, tag) {
      NothingSeen(ec, strings);
      ValFollows(ec, strings, g, st.(srns := Some(NEW_SRNS)), content, depth + 1, busy);
    } else {
      ValFollows(ec, strings, g, st, content, depth + 1, busy);
    }
  }

  // ----- Whole encodings -----

  /** With numbers enough, the encoding with references exists exactly if the plain one does. */
  lemma ReferencesFollow(ec: EncConfig, g: Graph, v: Val)
    requires !ec.cde && FewStrings(ec, g, v)
    ensures Encode(ec, g, v).Ok? <==> Encode(Without(ec), g, v).Ok?
  {
    hide EncVal, Write, Covers, CoversGraph;
    NamespaceTag(ec);
    ValNoLonger(ec, g, InitialState(ec), v, 0, {});
    if ec.stringRef.Off? {
      assert Without(ec) == ec;
    } else {
      var strings: set<Text> :| |strings| < UINT32_LIMIT && Covers(ec, strings, v) && CoversGraph(ec, strings, g);
      NothingSeen(ec, strings);
      ValFollows(ec, strings, g, InitialState(ec), v, 0, {});
    }
  }

  /** What can be encoded is. */
  lemma EncodableIsEncoded(ec: EncConfig, g: Graph, v: Val)
    requires !ec.cde && FewStrings(ec, g, v) && CanEncode(ec, g, v, ec.maxDepth, {})
    ensures Encode(ec, g, v).Ok?
  {
    hide EncVal, Write, CanEncode;
    ReferencesFollow(ec, g, v);
    ValFits(ec, g, EncState(None, map[]), v, 0, {});
  }

  /** Without sharing, exactly what can be encoded is. */
  lemma EncodedIffEncodable(ec: EncConfig, g: Graph, v: Val)
    requires !ec.cde && !ec.sharedRef && FewStrings(ec, g, v)
    ensures Encode(ec, g, v).Ok? <==> CanEncode(ec, g, v, ec.maxDepth, {})
  {
    hide EncVal, Write, CanEncode;
    ReferencesFollow(ec, g, v);
    if Encode(ec, g, v).Ok? {
      ValFitted(ec, g, EncState(None, map[]), v, 0, {});
    } else if CanEncode(ec, g, v, ec.maxDepth, {}) {
      EncodableIsEncoded(ec, g, v);
    }
  }

  /** For every value with a plain encoding there is one with references, at most three bytes longer. */
  lemma ReferencesCostAtMostThree(ec: EncConfig, g: Graph, v: Val)
    requires !ec.cde && FewStrings(ec, g, v) && Encode(Without(ec), g, v).Ok?
    ensures Encode(ec, g, v).Ok?
    ensures |Encode(ec, g, v).value| <= |Encode(Without(ec), g, v).value| + if ec.stringRef.On? then 3 else 0
  {
    hide Encode, FewStrings;
    ReferencesFollow(ec, g, v);
    CostAtMostThree(ec, g, v);
  }
}
