/**
 What becomes of the members of a map: decoding touches no object that existed before, a name that comes up
 again overwrites the value under it or is refused, and only keys that the options allow are taken.
 */
module Members {
  import opened Bytes
  import opened Wrappers
  import opened Values
  import opened Wire
  import opened DecoderConfig
  import opened RecursiveDecoder
  import Encoder
  import Locality
  import IndefiniteLength

  // ----- Objects that exist are left alone -----

  /** Objects are added; all but `dest` are as they were. */
  ghost predicate KeepsBut(h: Heap, h1: Heap, dest: nat) {
    |h| <= |h1| && forall i :: 0 <= i < |h| && i != dest ==> h1[i] == h[i]
  }

  ghost predicate Keeps(h: Heap, h1: Heap) { |h| <= |h1| && forall i :: 0 <= i < |h| ==> h1[i] == h[i] }

  ghost predicate ItemKeeps(env: Env, d: Decoded) { d.Got? ==> Keeps(env.heap, d.env.heap) }

  /** Decoding an item changes no object that existed before it. */
  lemma {:induction false} ObjectsStay(cfg: Config, env: Env, s: bytes, depth: nat, slot: Slot)
    ensures ItemKeeps(env, Item(cfg, env, s, depth, slot))
    decreases |s|, 0
  {
    hide ItemOf, ItemKeeps, Lex;
    var r := Lex(s);
    if r.Tok? {
      TokenStays(cfg, env, r.tok, |s|, s[r.len..], depth, slot);
    } else {
      FailureKeeps(env, LexError(r));
    }
  }

  lemma FailureKeeps(env: Env, e: Error)
    ensures ItemKeeps(env, Failed(e))
  {
  }

  lemma {:induction false} TokenStays(cfg: Config, env: Env, tok: Token, available: nat, rest: bytes, depth: nat, slot: Slot)
    ensures ItemKeeps(env, ItemOf(cfg, env, tok, available, rest, depth, slot))
    decreases |rest|, 4
  {
    hide ItemOf, ItemKeeps, Opens;
    if Opens(tok) {
      OpeningStays(cfg, env, tok, available, rest, depth, slot);
    } else {
      PlainStays(cfg, env, tok, available, rest, depth, slot);
    }
  }

  lemma PlainStays(cfg: Config, env: Env, tok: Token, available: nat, rest: bytes, depth: nat, slot: Slot)
    requires !Opens(tok)
    ensures ItemKeeps(env, ItemOf(cfg, env, tok, available, rest, depth, slot))
  {
    hide TextOk, FloatItem16, FloatItem32;
  }

  lemma {:induction false} OpeningStays(
    cfg: Config, env: Env, tok: Token, available: nat, rest: bytes, depth: nat, slot: Slot)
    requires Opens(tok)
    ensures ItemKeeps(env, ItemOf(cfg, env, tok, available, rest, depth, slot))
    decreases |rest|, 3
  {
    hide ChunkedString, ArrayItem, MapItem, TagItem;
    match tok
    case ByteStart => ChunksStay(cfg, env, rest, depth, slot, false);
    case TextStart => ChunksStay(cfg, env, rest, depth, slot, true);
    case Array(count) => ArrayStays(cfg, env, rest, depth, slot, count);
    case ArrayStart => ArrayStays(cfg, env, rest, depth, slot, 0);
    case Map(count) => MapStays(cfg, env, rest, depth, slot, count);
    case MapStart => MapStays(cfg, env, rest, depth, slot, 0);
    case TagHead(n) => TagStays(cfg, env, rest, depth, slot, n);
  }

  lemma OpenStays(cfg: Config, env: Env, depth: nat, slot: Slot, created: Option<nat>)
    ensures var r := Open(cfg, env, depth, slot, created); r.Ok? ==> r.value.heap == env.heap && r.value.ns == env.ns
  {
  }

  lemma ChunksStay(cfg: Config, env: Env, s: bytes, depth: nat, slot: Slot, isText: bool)
    ensures ItemKeeps(env, ChunkedString(cfg, env, s, depth, slot, isText))
  {
    hide Item, Chunks, Open;
    OpenStays(cfg, env, depth, slot, None);
    var r := Open(cfg, env, depth, slot, None);
    if r.Ok? && Chunks(cfg, r.value, s, depth, slot, isText, []).Got? {
      var chunks := IndefiniteLength.ChunksListed(cfg, r.value, s, isText, depth, slot, []);
      var rest := Chunks(cfg, r.value, s, depth, slot, isText, []).rest;
      IndefiniteLength.ChunksDecode(cfg, r.value, s, chunks, isText, rest, depth, slot, []);
    }
  }

  lemma {:induction false} ArrayStays(cfg: Config, env: Env, s: bytes, depth: nat, slot: Slot, count: nat)
    ensures ItemKeeps(env, ArrayItem(cfg, env, s, depth, slot, count))
    decreases |s|, 2
  {
    hide Elements, Open;
    OpenStays(cfg, env, depth, slot, None);
    var r := Open(cfg, env, depth, slot, None);
    if r.Ok? {
      ElementsStay(cfg, r.value, s, depth + 1, slot.inNs, count, []);
    }
  }

  lemma {:induction false} ElementsStay(cfg: Config, env: Env, s: bytes, depth: nat, inNs: bool, count: nat, elems: seq<Val>)
    ensures ItemKeeps(env, Elements(cfg, env, s, depth, inNs, count, elems))
    decreases |s|, 1
  {
    hide Item, IsBreak;
    ObjectsStay(cfg, env, s, depth, Slot(false, inNs, None));
    var d := Item(cfg, env, s, depth, Slot(false, inNs, None));
    if d.Got? {
      var r := AddElement(cfg, count == 0, elems, d.val);
      if r.Ok? {
        ElementsStay(cfg, d.env, d.rest, depth, inNs, if count == 0 then 0 else count - 1, r.value);
      }
    }
  }

  lemma {:induction false} TagStays(cfg: Config, env: Env, s: bytes, depth: nat, slot: Slot, tag: nat)
    ensures ItemKeeps(env, TagItem(cfg, env, s, depth, slot, tag))
    decreases |s|, 2
  {
    hide Item, Open, HandlerOf;
    var h := HandlerOf(cfg, tag);
    var r := EnterTag(env, slot, h);
    if r.Ok? {
      OpenStays(cfg, r.value, depth, slot, None);
      var entered := Open(cfg, r.value, depth, slot, None);
      if entered.Ok? {
        ObjectsStay(cfg, entered.value, s, depth + 1, TagSlot(slot, h, |env.refs|));
      }
    }
  }

  lemma {:induction false} MapStays(cfg: Config, env: Env, s: bytes, depth: nat, slot: Slot, count: nat)
    ensures ItemKeeps(env, MapItem(cfg, env, s, depth, slot, count))
    decreases |s|, 2
  {
    hide Pairs, Open;
    var dest := |env.heap|;
    OpenStays(cfg, NewObject(env), depth, slot, Some(dest));
    var r := Open(cfg, NewObject(env), depth, slot, Some(dest));
    if r.Ok? {
      var ms, env1 := MembersTaken(cfg, r.value, s, depth + 1, slot.inNs, count, 0, dest);
    }
  }

  // ----- The members of a map -----

  /** The names and values at the front of `s`, in the order of the input, for the object `dest`. */
  ghost predicate MembersRead(
    cfg: Config, env: Env, s: bytes, depth: nat, inNs: bool, dest: nat, ms: Props, env1: Env, rest: bytes)
    decreases |ms|
  {
    if ms == [] then env1 == env && rest == s
    else
      var k := Item(cfg, env, s, depth, Slot(true, inNs, None));
      && k.Got? && (k.val.Str? || (k.val.Int? && cfg.intKey)) && ms[0].key == KeyName(k.val)
      && var v := Item(cfg, k.env, k.rest, depth, Slot(false, inNs, None));
         && v.Got? && ms[0].val == v.val && dest < |v.env.heap|
         && MembersRead(cfg, WithProperty(v.env, dest, ms[0]), v.rest, depth, inNs, dest, ms[1..], env1, rest)
  }

  function WithProperty(env: Env, dest: nat, m: Prop): Env
    requires dest < |env.heap|
  {
    env.(heap := env.heap[dest := SetProp(env.heap[dest], m.key, m.val)])
  }

  /** All written to an object one after the other. */
  function SetAll(props: Props, ms: Props): Props
    decreases |ms|
  {
    if ms == [] then props else SetAll(SetProp(props, ms[0].key, ms[0].val), ms[1..])
  }

  /** Values and names that a property can have. */
  predicate Allowed(ms: Props) {
    forall i :: 0 <= i < |ms| ==> !IsBigInt(ms[i].val) && (ms[i].key == [] || ms[i].key[0] != 0)
  }

  predicate NewNames(props: Props, ms: Props) {
    DistinctKeys(ms) && forall i, j :: 0 <= i < |props| && 0 <= j < |ms| ==> props[i].key != ms[j].key
  }

  /**
   A map that is decoded: its members are written to the object one after the other, and nothing else
   is. Under CBOR_MAP_NO_DUP_KEY all names are different.
   */
  ghost predicate Taken(
    cfg: Config, env: Env, s: bytes, depth: nat, inNs: bool, count: nat, dest: nat, ms: Props, env1: Env, d: Decoded)
    requires dest < |env.heap|
  {
    d.Got? ==>
      && MembersRead(cfg, env, s, depth, inNs, dest, ms, env1, if count == 0 then [0xff] + d.rest else d.rest)
      && d.val == Obj(dest) && d.env == env1 && dest < |env1.heap|
      && env1.heap[dest] == SetAll(env.heap[dest], ms)
      && KeepsBut(env.heap, env1.heap, dest)
      && (count > 0 ==> |ms| == count) && Allowed(ms) && (cfg.noDupKey ==> NewNames(env.heap[dest], ms))
  }

  lemma {:induction false} MembersTaken(
    cfg: Config, env: Env, s: bytes, depth: nat, inNs: bool, count: nat, added: nat, dest: nat)
    returns (ms: Props, env1: Env)
    requires dest < |env.heap|
    ensures Taken(cfg, env, s, depth, inNs, count, dest, ms, env1, Pairs(cfg, env, s, depth, inNs, count, added, dest))
    decreases |s|, 1
  {
    hide Item, IsBreak, PutProperty, SetAll, NewNames, ItemKeeps, KeepsBut, MembersRead, WithProperty, Allowed;
    var d := Pairs(cfg, env, s, depth, inNs, count, added, dest);
    ms, env1 := [], env;
    if d.Failed? {
    } else if count == 0 && IsBreak(s) {
      NoMembers(env, s, dest);
      NothingRead(cfg, env, s, depth, inNs, dest);
    } else {
      var k := Item(cfg, env, s, depth, Slot(true, inNs, None));
      var key := TakeKey(cfg, count == 0, added, k.val).value;
      var v := Item(cfg, k.env, k.rest, depth, Slot(false, inNs, None));
      var put := PutProperty(cfg, v.env, dest, key, v.val);
      ObjectsStay(cfg, env, s, depth, Slot(true, inNs, None));
      ObjectsStay(cfg, k.env, k.rest, depth, Slot(false, inNs, None));
      ObjectKept(env, k, v, dest);
      PutMeans(cfg, v.env, dest, key, v.val);
      var m := Prop(KeyName(key), v.val);
      var rest := if count == 0 then [0xff] + d.rest else d.rest;
      if count == 1 {
        ms, env1 := [m], put.value;
        OneMember(env.heap[dest], m);
        NothingRead(cfg, put.value, v.rest, depth, inNs, dest);
        MemberRead(cfg, env, s, depth, inNs, dest, [], env1, rest);
        assert [m] + [] == [m];
      } else {
        var more;
        more, env1 := MembersTaken(
          cfg, put.value, v.rest, depth, inNs, if count == 0 then 0 else count - 1, if count == 0 then added + 1 else added, dest);
        ms := [m] + more;
        FirstMember(env.heap[dest], m, more);
        MemberRead(cfg, env, s, depth, inNs, dest, more, env1, rest);
      }
      KeepsAll(env.heap, v.env.heap, put.value.heap, env1.heap, dest);
    }
  }

  lemma NothingRead(cfg: Config, env: Env, s: bytes, depth: nat, inNs: bool, dest: nat)
    ensures MembersRead(cfg, env, s, depth, inNs, dest, [], env, s)
  {
  }

  lemma MemberRead(
    cfg: Config, env: Env, s: bytes, depth: nat, inNs: bool, dest: nat, more: Props, env1: Env, rest: bytes)
    requires var k := Item(cfg, env, s, depth, Slot(true, inNs, None));
             && k.Got? && (k.val.Str? || (k.val.Int? && cfg.intKey))
             && var v := Item(cfg, k.env, k.rest, depth, Slot(false, inNs, None));
                && v.Got? && dest < |v.env.heap|
                && MembersRead(cfg, WithProperty(v.env, dest, Prop(KeyName(k.val), v.val)), v.rest, depth, inNs, dest, more, env1, rest)
    ensures var k := Item(cfg, env, s, depth, Slot(true, inNs, None));
            var v := Item(cfg, k.env, k.rest, depth, Slot(false, inNs, None));
            MembersRead(cfg, env, s, depth, inNs, dest, [Prop(KeyName(k.val), v.val)] + more, env1, rest)
  {
    hide Item, WithProperty;
    var k := Item(cfg, env, s, depth, Slot(true, inNs, None));
    var v := Item(cfg, k.env, k.rest, depth, Slot(false, inNs, None));
    assert ([Prop(KeyName(k.val), v.val)] + more)[1..] == more;
  }

  lemma NoMembers(env: Env, s: bytes, dest: nat)
    requires IsBreak(s) && dest < |env.heap|
    ensures s == [0xff] + s[1..] && SetAll(env.heap[dest], []) == env.heap[dest] && KeepsBut(env.heap, env.heap, dest)
    ensures NewNames(env.heap[dest], []) && Allowed([])
  {
    Locality.BreakByte(s);
  }

  lemma ObjectKept(env: Env, k: Decoded, v: Decoded, dest: nat)
    requires k.Got? && v.Got? && ItemKeeps(env, k) && ItemKeeps(k.env, v) && dest < |env.heap|
    ensures dest < |v.env.heap| && v.env.heap[dest] == env.heap[dest] && Keeps(env.heap, v.env.heap)
  {
  }

  lemma PutMeans(cfg: Config, env: Env, dest: nat, key: Val, v: Val)
    ensures var r := PutProperty(cfg, env, dest, key, v);
            r.Ok? ==>
              && dest < |env.heap| && r.value == WithProperty(env, dest, Prop(KeyName(key), v))
              && KeepsBut(env.heap, r.value.heap, dest) && dest < |r.value.heap| && Allowed([Prop(KeyName(key), v)])
              && r.value.heap[dest] == SetProp(env.heap[dest], KeyName(key), v)
              && (cfg.noDupKey ==> !HasKey(env.heap[dest], KeyName(key)))
  {
    hide SetProp, HasKey;
  }

  lemma KeepsAll(h: Heap, h1: Heap, h2: Heap, h3: Heap, dest: nat)
    requires Keeps(h, h1) && KeepsBut(h1, h2, dest) && KeepsBut(h2, h3, dest)
    ensures KeepsBut(h, h3, dest)
  {
  }

  lemma OneMember(props: Props, m: Prop)
    ensures SetAll(props, [m]) == SetProp(props, m.key, m.val)
    ensures !HasKey(props, m.key) ==> NewNames(props, [m])
  {
    FirstMember(props, m, []);
    assert SetAll(SetProp(props, m.key, m.val), []) == SetProp(props, m.key, m.val);
    assert [m] + [] == [m];
  }

  lemma FirstMember(props: Props, m: Prop, more: Props)
    ensures ([m] + more)[1..] == more && SetAll(props, [m] + more) == SetAll(SetProp(props, m.key, m.val), more)
    ensures !HasKey(props, m.key) && NewNames(SetProp(props, m.key, m.val), more) ==> NewNames(props, [m] + more)
    ensures Allowed([m]) && Allowed(more) ==> Allowed([m] + more)
  {
    assert ([m] + more)[1..] == more;
    if !HasKey(props, m.key) && NewNames(SetProp(props, m.key, m.val), more) {
      FindKeyIsFirst(props, m.key);
      var longer := SetProp(props, m.key, m.val);
      assert longer == props + [m];
      assert longer[|props|] == m;
      forall i, j | 0 <= i < |props| && 0 <= j < |more| ensures props[i].key != more[j].key {
        assert longer[i] == props[i];
      }
    }
  }

  /** The first member of those that are allowed is taken, unless its name is there already and must not be. */
  lemma FirstPut(cfg: Config, env: Env, dest: nat, key: Val, v: Val, more: Props)
    requires dest < |env.heap| && Allowed([Prop(KeyName(key), v)] + more)
    ensures var m := Prop(KeyName(key), v);
            var r := PutProperty(cfg, env, dest, key, v);
            && Allowed(more)
            && if cfg.noDupKey && HasKey(env.heap[dest], m.key)
               then r == Err(DuplicateKey) && !NewNames(env.heap[dest], [m] + more)
               else
                 && r == Ok(WithProperty(env, dest, m))
                 && (cfg.noDupKey ==> (NewNames(env.heap[dest], [m] + more) <==> NewNames(r.value.heap[dest], more)))
  {
    hide Allowed, NewNames, WithProperty;
    var m, props := Prop(KeyName(key), v), env.heap[dest];
    AllowedFirst(m, more);
    FirstMember(props, m, more);
    if HasKey(props, m.key) {
      NotNew(props, m, more);
    } else if NewNames(props, [m] + more) {
      NewNamesNext(props, m, more);
      SetNew(props, m);
    }
    PropertyAt(env, dest, m);
  }

  lemma PropertyAt(env: Env, dest: nat, m: Prop)
    requires dest < |env.heap|
    ensures WithProperty(env, dest, m).heap == env.heap[dest := SetProp(env.heap[dest], m.key, m.val)]
    ensures WithProperty(env, dest, m) == env.(heap := WithProperty(env, dest, m).heap)
  {
  }

  lemma AllowedFirst(m: Prop, more: Props)
    requires Allowed([m] + more)
    ensures !IsBigInt(m.val) && (m.key == [] || m.key[0] != 0) && Allowed(more)
  {
    var ms := [m] + more;
    assert ms[0] == m && forall i :: 0 <= i < |more| ==> more[i] == ms[i + 1];
  }

  lemma NotNew(props: Props, m: Prop, more: Props)
    requires HasKey(props, m.key)
    ensures !NewNames(props, [m] + more)
  {
    var i := FindKey(props, m.key);
    assert ([m] + more)[0] == m && props[i].key == m.key;
  }

  lemma SetNew(props: Props, m: Prop)
    requires !Named(props, m.key)
    ensures SetProp(props, m.key, m.val) == props + [m]
  {
    var i := FindKey(props, m.key);
  }

  /**
   What can be read as members, and is allowed, is decoded as the members of a map, or refused as
   CBOR_MAP_NO_DUP_KEY asks for: if there is a name twice.
   */
  lemma {:induction false} MembersDecide(
    cfg: Config, env: Env, s: bytes, depth: nat, inNs: bool, added: nat, dest: nat, ms: Props, env1: Env, rest: bytes)
    requires ms != [] && dest < |env.heap| && MembersRead(cfg, env, s, depth, inNs, dest, ms, env1, rest) && Allowed(ms)
    ensures Pairs(cfg, env, s, depth, inNs, |ms|, added, dest) ==
            if cfg.noDupKey && !NewNames(env.heap[dest], ms) then Failed(DuplicateKey) else Got(Obj(dest), env1, rest)
    decreases |ms|
  {
    hide Item, PutProperty, WithProperty, NewNames, Allowed, ItemKeeps;
    var k := Item(cfg, env, s, depth, Slot(true, inNs, None));
    var v := Item(cfg, k.env, k.rest, depth, Slot(false, inNs, None));
    ObjectsStay(cfg, env, s, depth, Slot(true, inNs, None));
    ObjectsStay(cfg, k.env, k.rest, depth, Slot(false, inNs, None));
    ObjectKept(env, k, v, dest);
    assert ms == [Prop(KeyName(k.val), v.val)] + ms[1..];
    FirstPut(cfg, v.env, dest, k.val, v.val, ms[1..]);
    PutMeans(cfg, v.env, dest, k.val, v.val);
    var put := PutProperty(cfg, v.env, dest, k.val, v.val);
    if put.Ok? {
      if |ms| > 1 {
        MembersDecide(cfg, put.value, v.rest, depth, inNs, added, dest, ms[1..], env1, rest);
      } else {
        NothingNew(put.value.heap[dest]);
      }
    }
  }

  lemma NothingNew(props: Props)
    ensures NewNames(props, [])
  {
  }

  // ----- Names that come up again -----

  /** `p` is among the members, and no later one has its name. */
  predicate IsLast(ms: Props, p: Prop) {
    exists j :: 0 <= j < |ms| && ms[j] == p && NotAfter(ms, j, p.key)
  }

  predicate NotAfter(ms: Props, j: nat, key: bytes) { forall k :: j < k < |ms| ==> ms[k].key != key }

  predicate Named(props: Props, key: bytes) { exists i :: 0 <= i < |props| && props[i].key == key }

  lemma SetMeans(props: Props, m: Prop)
    requires DistinctKeys(props)
    ensures var next := SetProp(props, m.key, m.val);
            && DistinctKeys(next)
            && (forall p :: p in next ==> p == m || (p in props && p.key != m.key))
            && (forall key :: Named(next, key) <==> Named(props, key) || key == m.key)
            && (!Named(props, m.key) ==> next == props + [m])
  {
    SetPropIsUpdate(props, m.key, m.val);
    FindKeyIsFirst(props, m.key);
    var next, i := SetProp(props, m.key, m.val), FindKey(props, m.key);
    assert next[i] == m;
    forall p | p in next ensures p == m || (p in props && p.key != m.key) {
      var j :| 0 <= j < |next| && next[j] == p;
    }
    forall key ensures Named(next, key) <==> Named(props, key) || key == m.key {
      if j :| 0 <= j < |props| && props[j].key == key {
        assert next[j].key == key;
      }
      if j :| 0 <= j < |next| && next[j].key == key {
        assert j != i ==> props[j].key == key;
      }
    }
  }

  lemma NamedFirst(m: Prop, more: Props, key: bytes)
    ensures Named([m] + more, key) <==> key == m.key || Named(more, key)
  {
    var ms := [m] + more;
    assert ms[0] == m;
    if i :| 0 <= i < |more| && more[i].key == key {
      assert ms[i + 1] == more[i];
    }
    if i :| 0 <= i < |ms| && ms[i].key == key {
      assert i > 0 ==> more[i - 1] == ms[i];
    }
  }

  lemma LastFirst(m: Prop, more: Props, p: Prop)
    ensures IsLast(more, p) || (p == m && !Named(more, m.key)) ==> IsLast([m] + more, p)
  {
    var ms := [m] + more;
    if j :| 0 <= j < |more| && more[j] == p && NotAfter(more, j, p.key) {
      assert ms[j + 1] == p;
      assert forall k :: j + 1 < k < |ms| ==> ms[k] == more[k - 1];
      assert NotAfter(ms, j + 1, p.key);
    } else if p == m && !Named(more, m.key) {
      assert forall k :: 0 < k < |ms| ==> ms[k] == more[k - 1];
      assert ms[0] == p && NotAfter(ms, 0, p.key);
    }
  }

  lemma NewNamesNext(props: Props, m: Prop, more: Props)
    requires NewNames(props, [m] + more)
    ensures !Named(props, m.key) && NewNames(props + [m], more) && props + ([m] + more) == props + [m] + more
  {
    var ms := [m] + more;
    assert ms[0] == m;
    assert forall i :: 0 <= i < |more| ==> more[i] == ms[i + 1];
  }

  /** The value under a name is the last one given for it; different names are kept in their order. */
  lemma {:induction false} LastOneStays(props: Props, ms: Props)
    requires DistinctKeys(props)
    ensures DistinctKeys(SetAll(props, ms))
    ensures forall p :: p in SetAll(props, ms) ==> IsLast(ms, p) || (p in props && !Named(ms, p.key))
    ensures forall key :: Named(SetAll(props, ms), key) <==> Named(props, key) || Named(ms, key)
    ensures NewNames(props, ms) ==> SetAll(props, ms) == props + ms
    decreases |ms|
  {
    hide Named, IsLast, NewNames, DistinctKeys;
    if ms == [] {
      NothingNamed(props);
    } else {
      var m, more := ms[0], ms[1..];
      assert ms == [m] + more;
      var next := SetProp(props, m.key, m.val);
      SetMeans(props, m);
      LastOneStays(next, more);
      forall p | p in SetAll(props, ms) ensures IsLast(ms, p) || (p in props && !Named(ms, p.key)) {
        LastFirst(m, more, p);
        NamedFirst(m, more, p.key);
      }
      forall key ensures Named(SetAll(props, ms), key) <==> Named(props, key) || Named(ms, key) {
        NamedFirst(m, more, key);
      }
      if NewNames(props, ms) {
        NewNamesNext(props, m, more);
      }
    }
  }

  lemma NothingNamed(props: Props)
    ensures props + [] == props && forall key :: !Named([], key)
  {
  }

  // ----- Maps -----

  /**
   A map that is decoded: its members are written to a new object one after the other, so under each name is
   the last value given for it. Under CBOR_MAP_NO_DUP_KEY there is no name twice, and the object has the
   members as they are in the input.
   */
  lemma MapDecoded(cfg: Config, env: Env, s: bytes, depth: nat, slot: Slot) returns (ms: Props, env0: Env)
    requires Lex(s).Tok? && (Lex(s).tok.Map? || Lex(s).tok.MapStart?) && Item(cfg, env, s, depth, slot).Got?
    ensures var d, dest, t := Item(cfg, env, s, depth, slot), |env.heap|, Lex(s);
            && d.val == Obj(dest) && dest < |d.env.heap| && Keeps(env.heap, d.env.heap)
            && env0.heap == env.heap + [[]] && env0.ns == env.ns
            && MembersRead(cfg, env0, s[t.len..], depth + 1, slot.inNs, dest, ms, d.env,
                           if t.tok.Map? then d.rest else [0xff] + d.rest)
            && (t.tok.Map? ==> |ms| == t.tok.count)
            && IsObjectOf(ms, d.env.heap[dest]) && (cfg.noDupKey ==> DistinctKeys(ms))
  {
    hide Item, Lex, Pairs, MembersRead, SetAll, KeepsBut, IsObjectOf, Open;
    var t := Lex(s);
    var rest, dest := s[t.len..], |env.heap|;
    if t.tok == Map(0) {
      EmptyMap(cfg, env, s, depth, slot);
      ms, env0 := [], NewObject(env);
      NothingRead(cfg, env0, rest, depth + 1, slot.inNs, dest);
      SetNothing();
    } else {
      MapOpened(cfg, env, s, depth, slot);
      OpenStays(cfg, NewObject(env), depth, slot, Some(dest));
      var count := if t.tok.Map? then t.tok.count else 0;
      env0 := Open(cfg, NewObject(env), depth, slot, Some(dest)).value;
      var d := Pairs(cfg, env0, rest, depth + 1, slot.inNs, count, 0, dest);
      var env1;
      ms, env1 := MembersTaken(cfg, env0, rest, depth + 1, slot.inNs, count, 0, dest);
      AllNew(env, env0, env1, ms);
    }
    MadeOf(ms);
  }

  lemma MapOpened(cfg: Config, env: Env, s: bytes, depth: nat, slot: Slot)
    requires Lex(s).Tok? && (Lex(s).tok.Map? || Lex(s).tok.MapStart?) && Lex(s).tok != Map(0)
    requires Item(cfg, env, s, depth, slot).Got?
    ensures var r := Open(cfg, NewObject(env), depth, slot, Some(|env.heap|));
            && r.Ok?
            && Item(cfg, env, s, depth, slot)
               == Pairs(cfg, r.value, s[Lex(s).len..], depth + 1, slot.inNs,
                        if Lex(s).tok.Map? then Lex(s).tok.count else 0, 0, |env.heap|)
  {
    hide Lex, Pairs, Open;
    var tok, rest := Lex(s).tok, s[Lex(s).len..];
    assert Item(cfg, env, s, depth, slot) == ItemOf(cfg, env, tok, |s|, rest, depth, slot);
    assert ItemOf(cfg, env, tok, |s|, rest, depth, slot)
        == MapItem(cfg, env, rest, depth, slot, if tok.Map? then tok.count else 0);
  }

  lemma EmptyMap(cfg: Config, env: Env, s: bytes, depth: nat, slot: Slot)
    requires Lex(s).Tok? && Lex(s).tok == Map(0) && Item(cfg, env, s, depth, slot).Got?
    ensures Item(cfg, env, s, depth, slot) == Got(Obj(|env.heap|), NewObject(env), s[Lex(s).len..])
    ensures Keeps(env.heap, NewObject(env).heap)
  {
    hide Lex;
  }

  lemma SetNothing()
    ensures SetAll([], []) == []
  {
  }

  lemma AllNew(env: Env, env0: Env, env1: Env, ms: Props)
    requires env0.heap == env.heap + [[]] && KeepsBut(env0.heap, env1.heap, |env.heap|)
    ensures Keeps(env.heap, env1.heap) && (NewNames(env0.heap[|env.heap|], ms) ==> DistinctKeys(ms))
  {
  }

  lemma MadeOf(ms: Props)
    ensures IsObjectOf(ms, SetAll([], ms))
  {
    hide IsLast, SetAll;
    LastOneStays([], ms);
    EmptyConcat(ms);
  }

  /** The properties of an object that was made of these members. */
  ghost predicate IsObjectOf(ms: Props, props: Props) {
    && DistinctKeys(props)
    && (forall p :: p in props ==> IsLast(ms, p))
    && (forall key :: Named(props, key) <==> Named(ms, key))
    && (DistinctKeys(ms) ==> props == ms)
  }

  /** A string is taken as a key exactly if the flag of its type is given, and text only if it is text. */
  lemma KeyFlagDecides(cfg: Config, env: Env, s: bytes, isText: bool, rest: bytes, depth: nat, inNs: bool)
    requires |s| < UINT64_LIMIT - 9
    ensures var d := Item(cfg, env, Write(Encoder.StringToken(s, isText)) + rest, depth, Slot(true, inNs, None));
            && (d.Got? <==> if isText then cfg.keyText && TextOk(cfg, s) else cfg.keyByte)
            && (d.Got? ==> d.val == Str(s) && d.rest == rest)
  {
    hide Write, TextOk, Item;
    ItemOfWritten(cfg, env, Encoder.StringToken(s, isText), rest, depth, Slot(true, inNs, None));
  }
}
