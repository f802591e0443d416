/**
 Decoding an item depends on the bytes of the item alone: with anything else behind it, it is decoded to the
 same value and the same objects, and the same is left over.
 */
module Locality {
  import opened Bytes
  import opened Wrappers
  import opened Values
  import opened Wire
  import opened DecoderConfig
  import opened RecursiveDecoder
  import EarlyCount

  // ----- Heads -----

  lemma ReadArgLocal(p: bytes, a: bytes, b: bytes)
    requires p != [] && ReadArg(p + a).ArgOk? && ReadArg(p + a).len <= |p|
    ensures ReadArg(p + b) == ReadArg(p + a)
  {
    if 24 <= p[0] % 32 <= 27 {
      var k := ArgWidth(p[0] % 32);
      assert (p + a)[1..1 + k] == p[1..1 + k] == (p + b)[1..1 + k];
    }
  }

  /** A token depends on its own bytes. */
  lemma LexLocal(p: bytes, a: bytes, b: bytes)
    requires Lex(p + a).Tok? && Lex(p + a).len <= |p|
    ensures Lex(p + b) == Lex(p + a)
  {
    assert (p + a)[0] == p[0] == (p + b)[0];
    hide BigEndian;
    if p[0] % 32 < 28 {
      HeadWithin(p, a);
      ReadArgLocal(p, a, b);
      var r := ReadArg(p + a);
      if p[0] / 32 in {2, 3} {
        assert (p + a)[r.len..r.len + r.n] == p[r.len..r.len + r.n] == (p + b)[r.len..r.len + r.n];
      }
    }
  }

  lemma HeadWithin(p: bytes, a: bytes)
    requires p != [] && p[0] % 32 < 28 && Lex(p + a).Tok? && Lex(p + a).len <= |p|
    ensures ReadArg(p + a).ArgOk? && ReadArg(p + a).len <= |p|
  {
    hide BigEndian;
    assert (p + a)[0] == p[0];
  }

  // ----- What follows an item -----

  /** If no more than `p` was used, the same holds with `b` in place of `a`. */
  ghost predicate Moved(d: Decoded, p: bytes, a: bytes, e: Decoded, b: bytes) {
    d.Got? && |a| <= |d.rest| ==>
      && |d.rest| <= |p| + |a|
      && d.rest == p[|p| + |a| - |d.rest|..] + a
      && e == Got(d.val, d.env, p[|p| + |a| - |d.rest|..] + b)
  }

  lemma DropFirst(p: bytes, a: bytes, k: nat)
    requires k <= |p|
    ensures (p + a)[k..] == p[k..] + a
  {
  }

  lemma MovedOn(d: Decoded, p: bytes, k: nat, a: bytes, e: Decoded, b: bytes)
    requires k <= |p| && Moved(d, p[k..], a, e, b)
    ensures Moved(d, p, a, e, b)
  {
    if d.Got? && |a| <= |d.rest| {
      var q := p[k..];
      assert q[|q| + |a| - |d.rest|..] == p[|p| + |a| - |d.rest|..];
    }
  }

  lemma {:induction false} ItemMoved(cfg: Config, env: Env, p: bytes, a: bytes, b: bytes, depth: nat, slot: Slot)
    requires !cfg.limited
    ensures Moved(Item(cfg, env, p + a, depth, slot), p, a, Item(cfg, env, p + b, depth, slot), b)
    decreases |p| + |a|, 0
  {
    hide ItemOf, Lex, Moved;
    var d := Item(cfg, env, p + a, depth, slot);
    if d.Got? && |a| <= |d.rest| {
      var len := Lex(p + a).len;
      LexLocal(p, a, b);
      DropFirst(p, a, len);
      DropFirst(p, b, len);
      TokenMoved(cfg, env, Lex(p + a).tok, |p + a|, |p + b|, p[len..], a, b, depth, slot);
      MovedOn(d, p, len, a, Item(cfg, env, p + b, depth, slot), b);
    } else {
      NotMoved(d, p, a, Item(cfg, env, p + b, depth, slot), b);
    }
  }

  lemma NotMoved(d: Decoded, p: bytes, a: bytes, e: Decoded, b: bytes)
    requires d.Failed? || |d.rest| < |a|
    ensures Moved(d, p, a, e, b)
  {
  }

  lemma NothingUsed(v: Val, env: Env, p: bytes, a: bytes, b: bytes)
    ensures Moved(Got(v, env, p + a), p, a, Got(v, env, p + b), b)
  {
    assert p[0..] == p;
  }

  lemma StringMoved(r: R<(Val, Env)>, p: bytes, a: bytes, b: bytes)
    ensures Moved(FromString(r, p + a), p, a, FromString(r, p + b), b)
  {
    if r.Ok? {
      NothingUsed(r.value.0, r.value.1, p, a, b);
    }
  }

  lemma {:induction false} TokenMoved(
    cfg: Config, env: Env, tok: Token, n: nat, m: nat, p: bytes, a: bytes, b: bytes, depth: nat, slot: Slot)
    requires !cfg.limited
    ensures Moved(ItemOf(cfg, env, tok, n, p + a, depth, slot), p, a, ItemOf(cfg, env, tok, m, p + b, depth, slot), b)
    decreases |p| + |a|, 4
  {
    hide ItemOf, Moved, Opens;
    if Opens(tok) {
      OpeningMoved(cfg, env, tok, n, m, p, a, b, depth, slot);
    } else {
      PlainMoved(cfg, env, tok, n, m, p, a, b, depth, slot);
    }
  }

  lemma PlainMoved(
    cfg: Config, env: Env, tok: Token, n: nat, m: nat, p: bytes, a: bytes, b: bytes, depth: nat, slot: Slot)
    requires !Opens(tok)
    ensures Moved(ItemOf(cfg, env, tok, n, p + a, depth, slot), p, a, ItemOf(cfg, env, tok, m, p + b, depth, slot), b)
  {
    hide Moved, FromString, StringItem, TextOk, FloatItem16, FloatItem32;
    var d, e := ItemOf(cfg, env, tok, n, p + a, depth, slot), ItemOf(cfg, env, tok, m, p + b, depth, slot);
    if tok.ByteString? || tok.TextString? {
      StringMoved(StringItem(cfg, env, slot, tok.s, tok.TextString?, false), p, a, b);
      if d.Failed? {
        NotMoved(d, p, a, e, b);
      }
    } else if d.Failed? {
      NotMoved(d, p, a, e, b);
    } else {
      NothingUsed(d.val, env, p, a, b);
    }
  }

  lemma {:induction false} OpeningMoved(
    cfg: Config, env: Env, tok: Token, n: nat, m: nat, p: bytes, a: bytes, b: bytes, depth: nat, slot: Slot)
    requires !cfg.limited && Opens(tok)
    ensures Moved(ItemOf(cfg, env, tok, n, p + a, depth, slot), p, a, ItemOf(cfg, env, tok, m, p + b, depth, slot), b)
    decreases |p| + |a|, 3
  {
    hide Moved, ChunkedString, ArrayItem, MapItem, TagItem;
    var d, e := ItemOf(cfg, env, tok, n, p + a, depth, slot), ItemOf(cfg, env, tok, m, p + b, depth, slot);
    match tok
    case ByteStart => ChunkedMoved(cfg, env, p, a, b, depth, slot, false);
    case TextStart => ChunkedMoved(cfg, env, p, a, b, depth, slot, true);
    case Array(count) =>
      ArrayMoved(cfg, env, p, a, b, depth, slot, count);
      NothingUsed(List([]), env, p, a, b);
      if d.Failed? {
        NotMoved(d, p, a, e, b);
      }
    case ArrayStart => ArrayMoved(cfg, env, p, a, b, depth, slot, 0);
    case Map(count) =>
      MapMoved(cfg, env, p, a, b, depth, slot, count);
      NothingUsed(Obj(|env.heap|), NewObject(env), p, a, b);
      if d.Failed? {
        NotMoved(d, p, a, e, b);
      }
    case MapStart => MapMoved(cfg, env, p, a, b, depth, slot, 0);
    case TagHead(id) =>
      TagMoved(cfg, env, p, a, b, depth, slot, id);
      if d.Failed? {
        NotMoved(d, p, a, e, b);
      }
  }

  lemma {:induction false} ChunkedMoved(
    cfg: Config, env: Env, p: bytes, a: bytes, b: bytes, depth: nat, slot: Slot, isText: bool)
    requires !cfg.limited
    ensures Moved(ChunkedString(cfg, env, p + a, depth, slot, isText), p, a,
                  ChunkedString(cfg, env, p + b, depth, slot, isText), b)
    decreases |p| + |a|, 2
  {
    hide Moved, Chunks, Open;
    var r := Open(cfg, env, depth, slot, None);
    if r.Ok? {
      ChunksMoved(cfg, r.value, p, a, b, depth, slot, isText, []);
    } else {
      NotMoved(Failed(r.error), p, a, Failed(r.error), b);
    }
  }

  lemma {:induction false} ChunksMoved(
    cfg: Config, env: Env, p: bytes, a: bytes, b: bytes, depth: nat, slot: Slot, isText: bool, content: bytes)
    requires !cfg.limited
    ensures Moved(Chunks(cfg, env, p + a, depth, slot, isText, content), p, a,
                  Chunks(cfg, env, p + b, depth, slot, isText, content), b)
    decreases |p| + |a|, 1
  {
    hide Moved, Item, Lex, TextOk, StringItem, Chunks;
    var d, e := Chunks(cfg, env, p + a, depth, slot, isText, content), Chunks(cfg, env, p + b, depth, slot, isText, content);
    if d.Got? && |a| <= |d.rest| {
      EarlyCount.ChunkCases(cfg, env, p + a, depth, slot, isText, content);
      EarlyCount.ChunkCases(cfg, env, p + b, depth, slot, isText, content);
      var r := Lex(p + a);
      var len := r.len;
      LexLocal(p, a, b);
      DropFirst(p, a, len);
      DropFirst(p, b, len);
      if r.tok.Break? {
        StringMoved(StringItem(cfg, env, slot, content, isText, true), p[len..], a, b);
      } else {
        ChunksMoved(cfg, env, p[len..], a, b, depth, slot, isText, content + r.tok.s);
      }
      MovedOn(d, p, len, a, e, b);
    } else {
      NotMoved(d, p, a, e, b);
    }
  }

  lemma {:induction false} ArrayMoved(
    cfg: Config, env: Env, p: bytes, a: bytes, b: bytes, depth: nat, slot: Slot, count: nat)
    requires !cfg.limited
    ensures Moved(ArrayItem(cfg, env, p + a, depth, slot, count), p, a, ArrayItem(cfg, env, p + b, depth, slot, count), b)
    decreases |p| + |a|, 2
  {
    hide Moved, Elements, Open;
    var r := Open(cfg, env, depth, slot, None);
    if r.Ok? {
      ElementsMoved(cfg, r.value, p, a, b, depth + 1, slot.inNs, count, []);
    } else {
      NotMoved(Failed(r.error), p, a, Failed(r.error), b);
    }
  }

  lemma BreakMoved(p: bytes, a: bytes, b: bytes)
    requires p != [] && (IsBreak(p + a) || IsBreak(p + b))
    ensures IsBreak(p + a) && IsBreak(p + b) && (p + a)[1..] == p[1..] + a && (p + b)[1..] == p[1..] + b
  {
    assert (p + a)[0] == p[0] == (p + b)[0];
    BreakByte(p + a);
    BreakByte(p + b);
    hide Lex;
    DropFirst(p, a, 1);
    DropFirst(p, b, 1);
  }

  lemma BreakByte(s: bytes)
    ensures IsBreak(s) <==> s != [] && s[0] == 0xff
  {
  }

  lemma {:induction false} ElementsMoved(
    cfg: Config, env: Env, p: bytes, a: bytes, b: bytes, depth: nat, inNs: bool, count: nat, elems: seq<Val>)
    requires !cfg.limited
    ensures Moved(Elements(cfg, env, p + a, depth, inNs, count, elems), p, a,
                  Elements(cfg, env, p + b, depth, inNs, count, elems), b)
    decreases |p| + |a|, 1
  {
    hide Moved, Item, Lex, IsBreak;
    var d, e := Elements(cfg, env, p + a, depth, inNs, count, elems), Elements(cfg, env, p + b, depth, inNs, count, elems);
    if d.Failed? || |d.rest| < |a| || p == [] {
      EmptyConcat(a);
      NotMoved(d, p, a, e, b);
    } else if count == 0 && IsBreak(p + a) {
      BreakMoved(p, a, b);
      NothingUsed(List(elems), env, p[1..], a, b);
      MovedOn(d, p, 1, a, e, b);
    } else {
      if IsBreak(p + b) {
        BreakMoved(p, a, b);
      }
      var slot := Slot(false, inNs, None);
      var i := Item(cfg, env, p + a, depth, slot);
      ItemMoved(cfg, env, p, a, b, depth, slot);
      MovedItem(i, p, a, Item(cfg, env, p + b, depth, slot), b);
      var k := |p| + |a| - |i.rest|;
      var r := AddElement(cfg, count == 0, elems, i.val);
      if count == 1 {
        NothingUsed(List(r.value), i.env, p[k..], a, b);
      } else {
        ElementsMoved(cfg, i.env, p[k..], a, b, depth, inNs, if count == 0 then 0 else count - 1, r.value);
      }
      MovedOn(d, p, k, a, e, b);
    }
  }

  lemma MovedItem(d: Decoded, p: bytes, a: bytes, e: Decoded, b: bytes)
    requires d.Got? && |a| <= |d.rest| && Moved(d, p, a, e, b)
    ensures |d.rest| <= |p| + |a| && d.rest == p[|p| + |a| - |d.rest|..] + a
    ensures e == Got(d.val, d.env, p[|p| + |a| - |d.rest|..] + b)
  {
  }

  lemma {:induction false} MapMoved(
    cfg: Config, env: Env, p: bytes, a: bytes, b: bytes, depth: nat, slot: Slot, count: nat)
    requires !cfg.limited
    ensures Moved(MapItem(cfg, env, p + a, depth, slot, count), p, a, MapItem(cfg, env, p + b, depth, slot, count), b)
    decreases |p| + |a|, 2
  {
    hide Moved, Pairs, Open;
    var dest := |env.heap|;
    var r := Open(cfg, NewObject(env), depth, slot, Some(dest));
    if r.Ok? {
      PairsMoved(cfg, r.value, p, a, b, depth + 1, slot.inNs, count, 0, dest);
    } else {
      NotMoved(Failed(r.error), p, a, Failed(r.error), b);
    }
  }

  lemma {:induction false} PairsMoved(
    cfg: Config, env: Env, p: bytes, a: bytes, b: bytes, depth: nat, inNs: bool, count: nat, added: nat, dest: nat)
    requires !cfg.limited
    ensures Moved(Pairs(cfg, env, p + a, depth, inNs, count, added, dest), p, a,
                  Pairs(cfg, env, p + b, depth, inNs, count, added, dest), b)
    decreases |p| + |a|, 1
  {
    hide Moved, Item, Lex, IsBreak, TakeKey, PutProperty;
    var d, e := Pairs(cfg, env, p + a, depth, inNs, count, added, dest), Pairs(cfg, env, p + b, depth, inNs, count, added, dest);
    if d.Failed? || |d.rest| < |a| || p == [] {
      EmptyConcat(a);
      NotMoved(d, p, a, e, b);
    } else if count == 0 && IsBreak(p + a) {
      BreakMoved(p, a, b);
      NothingUsed(Obj(dest), env, p[1..], a, b);
      MovedOn(d, p, 1, a, e, b);
    } else {
      if IsBreak(p + b) {
        BreakMoved(p, a, b);
      }
      var i := Item(cfg, env, p + a, depth, Slot(true, inNs, None));
      ItemMoved(cfg, env, p, a, b, depth, Slot(true, inNs, None));
      MovedItem(i, p, a, Item(cfg, env, p + b, depth, Slot(true, inNs, None)), b);
      var k := |p| + |a| - |i.rest|;
      ValueMoved(cfg, i.env, p[k..], a, b, depth, inNs, count, added, dest, TakeKey(cfg, count == 0, added, i.val).value);
      MovedOn(d, p, k, a, e, b);
    }
  }

  lemma {:induction false} ValueMoved(
    cfg: Config, env: Env, p: bytes, a: bytes, b: bytes, depth: nat, inNs: bool, count: nat, added: nat, dest: nat, key: Val)
    requires !cfg.limited
    ensures Moved(AfterKey(cfg, env, p + a, depth, inNs, count, added, dest, key), p, a,
                  AfterKey(cfg, env, p + b, depth, inNs, count, added, dest, key), b)
    decreases |p| + |a|, 1
  {
    hide Moved, Item, Pairs, PutProperty;
    var d, e := AfterKey(cfg, env, p + a, depth, inNs, count, added, dest, key),
                AfterKey(cfg, env, p + b, depth, inNs, count, added, dest, key);
    if d.Failed? || |d.rest| < |a| {
      NotMoved(d, p, a, e, b);
    } else {
      var i := Item(cfg, env, p + a, depth, Slot(false, inNs, None));
      ItemMoved(cfg, env, p, a, b, depth, Slot(false, inNs, None));
      MovedItem(i, p, a, Item(cfg, env, p + b, depth, Slot(false, inNs, None)), b);
      var k := |p| + |a| - |i.rest|;
      var r := PutProperty(cfg, i.env, dest, key, i.val);
      if count == 1 {
        NothingUsed(Obj(dest), r.value, p[k..], a, b);
      } else {
        PairsMoved(cfg, r.value, p[k..], a, b, depth, inNs, if count == 0 then 0 else count - 1,
                   if count == 0 then added + 1 else added, dest);
      }
      MovedOn(d, p, k, a, e, b);
    }
  }

  lemma {:induction false} TagMoved(
    cfg: Config, env: Env, p: bytes, a: bytes, b: bytes, depth: nat, slot: Slot, tag: nat)
    requires !cfg.limited
    ensures Moved(TagItem(cfg, env, p + a, depth, slot, tag), p, a, TagItem(cfg, env, p + b, depth, slot, tag), b)
    decreases |p| + |a|, 2
  {
    hide Moved, Item, ExitTag, Open, HandlerOf, EnterTag, TagSlot;
    var d, e := TagItem(cfg, env, p + a, depth, slot, tag), TagItem(cfg, env, p + b, depth, slot, tag);
    if d.Failed? || |d.rest| < |a| {
      NotMoved(d, p, a, e, b);
    } else {
      var h, index := HandlerOf(cfg, tag), |env.refs|;
      var env2 := Open(cfg, EnterTag(env, slot, h).value, depth, slot, None).value;
      var i := Item(cfg, env2, p + a, depth + 1, TagSlot(slot, h, index));
      ItemMoved(cfg, env2, p, a, b, depth + 1, TagSlot(slot, h, index));
      MovedItem(i, p, a, Item(cfg, env2, p + b, depth + 1, TagSlot(slot, h, index)), b);
      var k := |p| + |a| - |i.rest|;
      StringMoved(ExitTag(i.env, tag, h, index, i.val), p[k..], a, b);
      MovedOn(d, p, k, a, e, b);
    }
  }

  // ----- The main result -----

  /**
   An item that has been decoded is the front of the input, and with anything else behind it, it is decoded
   to the same value with the same objects, whether or not counts are checked early.
   */
  lemma ItemIsLocal(cfg: Config, env: Env, s: bytes, b: bytes, depth: nat, slot: Slot) returns (p: bytes)
    requires Item(cfg, env, s, depth, slot).Got?
    ensures var d := Item(cfg, env, s, depth, slot);
            s == p + d.rest && Item(cfg, env, p + b, depth, slot) == Got(d.val, d.env, b)
  {
    hide Item, Moved, EarlyCount.Unchecked;
    var u := EarlyCount.Unchecked(cfg);
    var d := Item(cfg, env, s, depth, slot);
    SameEitherWay(cfg, env, s, depth, slot);
    NothingBehind(s);
    ItemMoved(u, env, s, [], [], depth, slot);
    MovedItem(d, s, [], d, []);
    var i := |s| - |d.rest|;
    NothingBehind(s[i..]);
    p := s[..i];
    assert s == p + d.rest;
    ItemMoved(u, env, p, d.rest, b, depth, slot);
    MovedItem(d, p, d.rest, Item(u, env, p + b, depth, slot), b);
    EmptyConcat(b);
    assert p[i..] == [];
    SameEitherWay(cfg, env, p + b, depth, slot);
  }

  lemma NothingBehind(s: bytes)
    ensures s + [] == s
  {
  }

  lemma SameEitherWay(cfg: Config, env: Env, s: bytes, depth: nat, slot: Slot)
    ensures EarlyCount.Agree(Item(cfg, env, s, depth, slot), Item(EarlyCount.Unchecked(cfg), env, s, depth, slot))
    ensures !EarlyCount.Unchecked(cfg).limited
  {
    hide Item;
    EarlyCount.ItemsAgree(cfg, env, s, depth, slot);
    assert cfg == if cfg.limited then EarlyCount.Checked(cfg) else EarlyCount.Unchecked(cfg);
  }

  /** The item at the front of `s` is decoded to `v`, with `env1` beside it and `rest` behind it. */
  predicate Yields(cfg: Config, env: Env, s: bytes, depth: nat, slot: Slot, v: Val, env1: Env, rest: bytes) {
    Item(cfg, env, s, depth, slot) == Got(v, env1, rest)
  }

  lemma YieldsEitherWay(cfg: Config, env: Env, s: bytes, depth: nat, slot: Slot, v: Val, env1: Env, rest: bytes)
    ensures Yields(cfg, env, s, depth, slot, v, env1, rest)
            <==> Yields(EarlyCount.Unchecked(cfg), env, s, depth, slot, v, env1, rest)
  {
    hide Item, EarlyCount.Unchecked;
    SameEitherWay(cfg, env, s, depth, slot);
  }
}
