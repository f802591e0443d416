/**
 Indefinite and definite length are two forms of the same item (section 3.2 of RFC 8949): containers of both
 forms are decoded to the same value with the same objects, and chunks to what the joined string is decoded to.
 */
module IndefiniteLength {
  import opened Bytes
  import opened Wrappers
  import opened Values
  import opened Wire
  import opened DecoderConfig
  import opened RecursiveDecoder
  import opened Locality
  import EarlyCount
  import Encoder
  import Utf8

  const BREAK: bytes := [0xff]

  lemma BreakRead(b: bytes)
    ensures IsBreak(BREAK + b) && (BREAK + b)[1..] == b
  {
    BreakByte(BREAK + b);
  }

  /** An item is no break. */
  lemma ItemIsNoBreak(cfg: Config, env: Env, s: bytes, depth: nat, slot: Slot)
    requires Item(cfg, env, s, depth, slot).Got?
    ensures !IsBreak(s)
  {
    hide Lex;
  }

  /** The first item of what is left, with other bytes behind. */
  lemma NextItem(cfg: Config, env: Env, p: bytes, a: bytes, b: bytes, depth: nat, slot: Slot) returns (q: bytes)
    requires !cfg.limited && Item(cfg, env, p + a, depth, slot).Got? && |a| <= |Item(cfg, env, p + a, depth, slot).rest|
    ensures var d := Item(cfg, env, p + a, depth, slot);
            d.rest == q + a && |q| < |p| && Item(cfg, env, p + b, depth, slot) == Got(d.val, d.env, q + b)
    ensures !IsBreak(p + a) && !IsBreak(p + b)
  {
    hide Item, Moved, IsBreak;
    var d := Item(cfg, env, p + a, depth, slot);
    ItemMoved(cfg, env, p, a, b, depth, slot);
    MovedItem(d, p, a, Item(cfg, env, p + b, depth, slot), b);
    q := p[|p| + |a| - |d.rest|..];
    ItemIsNoBreak(cfg, env, p + a, depth, slot);
    ItemIsNoBreak(cfg, env, p + b, depth, slot);
  }

  // ----- Arrays -----

  /** `n` elements and nothing else are also what a break ends. */
  lemma {:induction false} BrokenOff(
    cfg: Config, env: Env, p: bytes, a: bytes, b: bytes, depth: nat, inNs: bool, n: nat, elems: seq<Val>)
    requires !cfg.limited && n > 0 && |elems| + n <= cfg.maxSize
    requires var d := Elements(cfg, env, p + a, depth, inNs, n, elems); d.Got? && d.rest == a
    ensures var d := Elements(cfg, env, p + a, depth, inNs, n, elems);
            Elements(cfg, env, p + (BREAK + b), depth, inNs, 0, elems) == Got(d.val, d.env, b)
    decreases n
  {
    hide Item, IsBreak;
    var slot := Slot(false, inNs, None);
    var i := Item(cfg, env, p + a, depth, slot);
    var q := NextItem(cfg, env, p, a, BREAK + b, depth, slot);
    var more := AddElement(cfg, false, elems, i.val).value;
    if n == 1 {
      assert q == [];
      EmptyConcat(BREAK + b);
      BreakRead(b);
    } else {
      BrokenOff(cfg, i.env, q, a, b, depth, inNs, n - 1, more);
    }
  }

  /** And what a break ends are as many elements. */
  lemma {:induction false} CountedOut(
    cfg: Config, env: Env, p: bytes, a: bytes, b: bytes, depth: nat, inNs: bool, elems: seq<Val>)
    requires !cfg.limited
    requires var d := Elements(cfg, env, p + (BREAK + b), depth, inNs, 0, elems); d.Got? && d.rest == b
    ensures var d := Elements(cfg, env, p + (BREAK + b), depth, inNs, 0, elems);
            && d.val.List? && |elems| <= |d.val.elems| && |d.val.elems| <= Max(cfg.maxSize, |elems|)
            && if |d.val.elems| == |elems| then p == [] && d.env == env
               else Elements(cfg, env, p + a, depth, inNs, |d.val.elems| - |elems|, elems) == Got(d.val, d.env, a)
    decreases |p|
  {
    hide Item, IsBreak;
    var s := p + (BREAK + b);
    var d := Elements(cfg, env, s, depth, inNs, 0, elems);
    if IsBreak(s) {
      assert |s| == 1 + |b|;
    } else {
      var slot := Slot(false, inNs, None);
      var i := Item(cfg, env, s, depth, slot);
      var q := NextItem(cfg, env, p, BREAK + b, a, depth, slot);
      var more := AddElement(cfg, true, elems, i.val).value;
      CountedOut(cfg, i.env, q, a, b, depth, inNs, more);
      if |d.val.elems| == |more| {
        EmptyConcat(BREAK + b);
        EmptyConcat(a);
        BreakRead(b);
      }
    }
  }

  // ----- Maps -----

  lemma {:induction false} PairsBrokenOff(
    cfg: Config, env: Env, p: bytes, a: bytes, b: bytes, depth: nat, inNs: bool, n: nat, zero: nat, added: nat, dest: nat)
    requires !cfg.limited && n > 0 && added + n <= cfg.maxSize
    requires var d := Pairs(cfg, env, p + a, depth, inNs, n, zero, dest); d.Got? && d.rest == a
    ensures var d := Pairs(cfg, env, p + a, depth, inNs, n, zero, dest);
            Pairs(cfg, env, p + (BREAK + b), depth, inNs, 0, added, dest) == Got(d.val, d.env, b)
    decreases n
  {
    hide Item, IsBreak, PutProperty;
    var t := BREAK + b;
    var k := Item(cfg, env, p + a, depth, Slot(true, inNs, None));
    var key := TakeKey(cfg, false, zero, k.val).value;
    var v := Item(cfg, k.env, k.rest, depth, Slot(false, inNs, None));
    var next := PutProperty(cfg, v.env, dest, key, v.val).value;
    var q := NextItem(cfg, env, p, a, t, depth, Slot(true, inNs, None));
    var r := NextItem(cfg, k.env, q, a, t, depth, Slot(false, inNs, None));
    if n == 1 {
      assert r == [];
      EmptyConcat(t);
      BreakRead(b);
    } else {
      PairsBrokenOff(cfg, next, r, a, b, depth, inNs, n - 1, zero, added + 1, dest);
    }
  }

  /** `n` is the number of members. */
  lemma {:induction false} PairsCountedOut(
    cfg: Config, env: Env, p: bytes, a: bytes, b: bytes, depth: nat, inNs: bool, zero: nat, added: nat, dest: nat)
    returns (n: nat)
    requires !cfg.limited
    requires var d := Pairs(cfg, env, p + (BREAK + b), depth, inNs, 0, added, dest); d.Got? && d.rest == b
    ensures var d := Pairs(cfg, env, p + (BREAK + b), depth, inNs, 0, added, dest);
            && added + n <= Max(cfg.maxSize, added)
            && if n == 0 then p == [] && d == Got(Obj(dest), env, b)
               else Pairs(cfg, env, p + a, depth, inNs, n, zero, dest) == Got(d.val, d.env, a)
    decreases |p|
  {
    hide Item, IsBreak, PutProperty;
    var t := BREAK + b;
    var s := p + t;
    if IsBreak(s) {
      assert |s| == 1 + |b|;
      n := 0;
    } else {
      var k := Item(cfg, env, s, depth, Slot(true, inNs, None));
      var key := TakeKey(cfg, true, added, k.val).value;
      var v := Item(cfg, k.env, k.rest, depth, Slot(false, inNs, None));
      var next := PutProperty(cfg, v.env, dest, key, v.val).value;
      var q := NextItem(cfg, env, p, t, a, depth, Slot(true, inNs, None));
      var r := NextItem(cfg, k.env, q, t, a, depth, Slot(false, inNs, None));
      n := PairsCountedOut(cfg, next, r, a, b, depth, inNs, zero, added + 1, dest);
      if n == 0 {
        EmptyConcat(t);
        EmptyConcat(a);
        BreakRead(b);
      }
      n := n + 1;
    }
  }

  // ----- Containers as items -----

  /** The same container of `n` members with its number in front and with a break behind. */
  function Definite(isMap: bool, n: nat, body: bytes): bytes { Write(if isMap then Map(n) else Array(n)) + body }

  function Indefinite(isMap: bool, body: bytes): bytes { [if isMap then 0xbf else 0x9f] + body + BREAK }

  lemma IndefiniteHead(isMap: bool, body: bytes, b: bytes)
    ensures Indefinite(isMap, body) + b == Write(if isMap then MapStart else ArrayStart) + (body + (BREAK + b))
  {
    Concat4([if isMap then 0xbf else 0x9f], body, BREAK, b);
    Concat(body, BREAK, b);
  }

  /** The elements or members in a container of indefinite length. */
  lemma IndefiniteOpened(cfg: Config, env: Env, isMap: bool, body: bytes, b: bytes, depth: nat, slot: Slot)
    ensures Item(cfg, env, Indefinite(isMap, body) + b, depth, slot) ==
            if isMap then MapItem(cfg, env, body + (BREAK + b), depth, slot, 0)
            else ArrayItem(cfg, env, body + (BREAK + b), depth, slot, 0)
  {
    hide Write, MapItem, ArrayItem, Item;
    IndefiniteHead(isMap, body, b);
    ItemOfWritten(cfg, env, if isMap then MapStart else ArrayStart, body + (BREAK + b), depth, slot);
  }

  /** And in one of `n` of them; there have to be enough bytes if counts are checked early. */
  lemma DefiniteOpened(cfg: Config, env: Env, isMap: bool, n: nat, body: bytes, a: bytes, depth: nat, slot: Slot)
    requires 0 < n <= cfg.maxSize && n < UINT32_LIMIT && !cfg.limited
    ensures Item(cfg, env, Definite(isMap, n, body) + a, depth, slot) ==
            if isMap then MapItem(cfg, env, body + a, depth, slot, n) else ArrayItem(cfg, env, body + a, depth, slot, n)
  {
    hide Write, MapItem, ArrayItem, Item;
    var tok := if isMap then Map(n) else Array(n);
    Concat(Write(tok), body, a);
    ItemOfWritten(cfg, env, tok, body + a, depth, slot);
  }

  lemma {:induction false} ArrayForms(
    cfg: Config, env: Env, es: seq<Val>, env1: Env, body: bytes, a: bytes, b: bytes, depth: nat, slot: Slot)
    requires !cfg.limited && 0 < |es| <= cfg.maxSize && |es| < UINT32_LIMIT
    ensures Yields(cfg, env, Definite(false, |es|, body) + a, depth, slot, List(es), env1, a)
            <==> Yields(cfg, env, Indefinite(false, body) + b, depth, slot, List(es), env1, b)
  {
    hide Item, Elements, Open, Definite, Indefinite;
    DefiniteOpened(cfg, env, false, |es|, body, a, depth, slot);
    IndefiniteOpened(cfg, env, false, body, b, depth, slot);
    var r := Open(cfg, env, depth, slot, None);
    if r.Ok? {
      if Elements(cfg, r.value, body + a, depth + 1, slot.inNs, |es|, []) == Got(List(es), env1, a) {
        BrokenOff(cfg, r.value, body, a, b, depth + 1, slot.inNs, |es|, []);
      }
      if Elements(cfg, r.value, body + (BREAK + b), depth + 1, slot.inNs, 0, []) == Got(List(es), env1, b) {
        CountedOut(cfg, r.value, body, a, b, depth + 1, slot.inNs, []);
      }
    }
  }

  lemma SameLimits(cfg: Config)
    ensures !EarlyCount.Unchecked(cfg).limited && EarlyCount.Unchecked(cfg).maxSize == cfg.maxSize
  {
  }

  /**
   Arrays: with its number of elements in front, or with a break behind, an array is decoded to the same
   elements in the same order with the same objects, wherever it stands.
   */
  lemma ArraysDecodeAlike(
    cfg: Config, env: Env, es: seq<Val>, env1: Env, body: bytes, a: bytes, b: bytes, depth: nat, slot: Slot)
    requires 0 < |es| <= cfg.maxSize && |es| < UINT32_LIMIT
    ensures Yields(cfg, env, Definite(false, |es|, body) + a, depth, slot, List(es), env1, a)
            <==> Yields(cfg, env, Indefinite(false, body) + b, depth, slot, List(es), env1, b)
  {
    hide Yields, Definite, Indefinite, EarlyCount.Unchecked;
    var u := EarlyCount.Unchecked(cfg);
    SameLimits(cfg);
    ArrayForms(u, env, es, env1, body, a, b, depth, slot);
    YieldsEitherWay(cfg, env, Definite(false, |es|, body) + a, depth, slot, List(es), env1, a);
    YieldsEitherWay(cfg, env, Indefinite(false, body) + b, depth, slot, List(es), env1, b);
  }

  lemma {:induction false} MapForms(
    cfg: Config, env: Env, n: nat, body: bytes, a: bytes, b: bytes, depth: nat, slot: Slot)
    requires !cfg.limited && 0 < n <= cfg.maxSize && n < UINT32_LIMIT
    requires var d := Item(cfg, env, Definite(true, n, body) + a, depth, slot); d.Got? && d.rest == a
    ensures var d := Item(cfg, env, Definite(true, n, body) + a, depth, slot);
            Item(cfg, env, Indefinite(true, body) + b, depth, slot) == Got(d.val, d.env, b)
  {
    hide Item, Pairs, Open, Definite, Indefinite;
    DefiniteOpened(cfg, env, true, n, body, a, depth, slot);
    IndefiniteOpened(cfg, env, true, body, b, depth, slot);
    var dest := |env.heap|;
    var r := Open(cfg, NewObject(env), depth, slot, Some(dest));
    PairsBrokenOff(cfg, r.value, body, a, b, depth + 1, slot.inNs, n, 0, 0, dest);
  }

  /** Maps: what has its number of members in front is decoded to the same with a break behind. */
  lemma MapsDecodeAlike(cfg: Config, env: Env, n: nat, body: bytes, a: bytes, b: bytes, depth: nat, slot: Slot)
    requires 0 < n <= cfg.maxSize && n < UINT32_LIMIT
    requires var d := Item(cfg, env, Definite(true, n, body) + a, depth, slot); d.Got? && d.rest == a
    ensures var d := Item(cfg, env, Definite(true, n, body) + a, depth, slot);
            Item(cfg, env, Indefinite(true, body) + b, depth, slot) == Got(d.val, d.env, b)
  {
    hide Item, Definite, Indefinite;
    SameEitherWay(cfg, env, Definite(true, n, body) + a, depth, slot);
    SameEitherWay(cfg, env, Indefinite(true, body) + b, depth, slot);
    MapForms(EarlyCount.Unchecked(cfg), env, n, body, a, b, depth, slot);
  }

  lemma {:induction false} MapFormsBack(
    cfg: Config, env: Env, body: bytes, a: bytes, b: bytes, depth: nat, slot: Slot) returns (n: nat)
    requires !cfg.limited && cfg.maxSize < UINT32_LIMIT && body != []
    requires var d := Item(cfg, env, Indefinite(true, body) + b, depth, slot); d.Got? && d.rest == b
    ensures var d := Item(cfg, env, Indefinite(true, body) + b, depth, slot);
            0 < n <= cfg.maxSize && Item(cfg, env, Definite(true, n, body) + a, depth, slot) == Got(d.val, d.env, a)
  {
    hide Item, Pairs, Open, Definite, Indefinite;
    IndefiniteOpened(cfg, env, true, body, b, depth, slot);
    var dest := |env.heap|;
    var r := Open(cfg, NewObject(env), depth, slot, Some(dest));
    n := PairsCountedOut(cfg, r.value, body, a, b, depth + 1, slot.inNs, 0, 0, dest);
    DefiniteOpened(cfg, env, true, n, body, a, depth, slot);
  }

  /** And what has a break behind is decoded to the same with the number of its members in front. */
  lemma MapsDecodeBack(cfg: Config, env: Env, body: bytes, a: bytes, b: bytes, depth: nat, slot: Slot) returns (n: nat)
    requires cfg.maxSize < UINT32_LIMIT && body != []
    requires var d := Item(cfg, env, Indefinite(true, body) + b, depth, slot); d.Got? && d.rest == b
    ensures var d := Item(cfg, env, Indefinite(true, body) + b, depth, slot);
            0 < n <= cfg.maxSize && Item(cfg, env, Definite(true, n, body) + a, depth, slot) == Got(d.val, d.env, a)
  {
    hide Item, Definite, Indefinite;
    SameEitherWay(cfg, env, Indefinite(true, body) + b, depth, slot);
    n := MapFormsBack(EarlyCount.Unchecked(cfg), env, body, a, b, depth, slot);
    SameEitherWay(cfg, env, Definite(true, n, body) + a, depth, slot);
  }

  // ----- Whole inputs -----

  lemma DecodeYields(cfg: Config, s: bytes, v: Val, env: Env)
    requires !IsBigInt(v)
    ensures Decode(cfg, s) == Got(v, env, []) <==> Yields(cfg, EMPTY_ENV, s, 0, ROOT_SLOT, v, env, [])
  {
    hide Item;
  }

  /** An array is decoded alike from both forms. */
  lemma ArrayDecodesAlike(cfg: Config, es: seq<Val>, env: Env, body: bytes)
    requires 0 < |es| <= cfg.maxSize && |es| < UINT32_LIMIT
    ensures Decode(cfg, Definite(false, |es|, body)) == Got(List(es), env, [])
            <==> Decode(cfg, Indefinite(false, body)) == Got(List(es), env, [])
  {
    hide Decode, Definite, Indefinite, Yields;
    DecodeYields(cfg, Definite(false, |es|, body), List(es), env);
    DecodeYields(cfg, Indefinite(false, body), List(es), env);
    NothingBehind(Definite(false, |es|, body));
    NothingBehind(Indefinite(false, body));
    ArraysDecodeAlike(cfg, EMPTY_ENV, es, env, body, [], [], 0, ROOT_SLOT);
  }

  /** So is a map of `n` members, one way and the other. */
  lemma MapDecodesAlike(cfg: Config, n: nat, body: bytes)
    requires 0 < n <= cfg.maxSize && n < UINT32_LIMIT
    ensures var d := Decode(cfg, Definite(true, n, body));
            d.Got? && d.rest == [] ==> Decode(cfg, Indefinite(true, body)) == d
  {
    hide Item, Definite, Indefinite;
    NothingBehind(Definite(true, n, body));
    NothingBehind(Indefinite(true, body));
    var d := Item(cfg, EMPTY_ENV, Definite(true, n, body), 0, ROOT_SLOT);
    if d.Got? && d.rest == [] {
      MapsDecodeAlike(cfg, EMPTY_ENV, n, body, [], [], 0, ROOT_SLOT);
    }
  }

  lemma MapDecodesBack(cfg: Config, body: bytes) returns (n: nat)
    requires cfg.maxSize < UINT32_LIMIT && body != []
    requires var d := Decode(cfg, Indefinite(true, body)); d.Got? && d.rest == []
    ensures 0 < n <= cfg.maxSize && Decode(cfg, Definite(true, n, body)) == Decode(cfg, Indefinite(true, body))
  {
    hide Item, Definite, Indefinite;
    NothingBehind(Indefinite(true, body));
    n := MapsDecodeBack(cfg, EMPTY_ENV, body, [], [], 0, ROOT_SLOT);
    NothingBehind(Definite(true, n, body));
  }

  // ----- Strings -----

  /** `s` starts with strings of one type, in any form of head, and a break behind them. */
  predicate ChunkList(s: bytes, chunks: seq<bytes>, isText: bool, rest: bytes)
    decreases |chunks|
  {
    var r := Lex(s);
    if chunks == [] then IsBreak(s) && rest == s[1..]
    else r.Tok? && r.tok == Encoder.StringToken(chunks[0], isText) && ChunkList(s[r.len..], chunks[1..], isText, rest)
  }

  function Joined(chunks: seq<bytes>): bytes { if chunks == [] then [] else chunks[0] + Joined(chunks[1..]) }

  predicate AllOk(cfg: Config, chunks: seq<bytes>) { forall i :: 0 <= i < |chunks| ==> TextOk(cfg, chunks[i]) }

  /** Chunks of valid UTF-8 join to valid UTF-8. */
  lemma {:induction false} JoinedOk(cfg: Config, chunks: seq<bytes>)
    requires AllOk(cfg, chunks)
    ensures TextOk(cfg, Joined(chunks))
  {
    hide Utf8.CharLen;
    if chunks != [] {
      assert AllOk(cfg, chunks[1..]);
      JoinedOk(cfg, chunks[1..]);
      if !cfg.unsafeText {
        assert TextOk(cfg, chunks[0]);
        Utf8.ValidConcat(chunks[0], Joined(chunks[1..]));
      }
    }
  }

  /** A chunk that is not valid UTF-8 is refused, even if the string as a whole is valid. */
  lemma {:induction false} ChunksDecode(
    cfg: Config, env: Env, s: bytes, chunks: seq<bytes>, isText: bool, rest: bytes, depth: nat, slot: Slot, content: bytes)
    requires ChunkList(s, chunks, isText, rest)
    ensures Chunks(cfg, env, s, depth, slot, isText, content) ==
            if isText && !AllOk(cfg, chunks) then Failed(InvalidUtf8)
            else FromString(StringItem(cfg, env, slot, content + Joined(chunks), isText, true), rest)
    decreases |chunks|
  {
    hide Item, Lex, TextOk, StringItem, FromString;
    if chunks == [] {
      BreakLength(s);
      assert content + [] == content;
    } else {
      var r := Lex(s);
      FirstAndRest(cfg, chunks);
      Concat(content, chunks[0], Joined(chunks[1..]));
      ChunksDecode(cfg, env, s[r.len..], chunks[1..], isText, rest, depth, slot, content + chunks[0]);
    }
  }

  lemma FirstAndRest(cfg: Config, chunks: seq<bytes>)
    requires chunks != []
    ensures AllOk(cfg, chunks) <==> TextOk(cfg, chunks[0]) && AllOk(cfg, chunks[1..])
  {
    hide TextOk;
    if AllOk(cfg, chunks[1..]) && TextOk(cfg, chunks[0]) {
      forall i | 0 <= i < |chunks| ensures TextOk(cfg, chunks[i]) {
        assert i > 0 ==> chunks[i] == chunks[1..][i - 1];
      }
    }
  }

  /** Nothing else than chunks is decoded. */
  lemma {:induction false} ChunksListed(
    cfg: Config, env: Env, s: bytes, isText: bool, depth: nat, slot: Slot, content: bytes) returns (chunks: seq<bytes>)
    requires Chunks(cfg, env, s, depth, slot, isText, content).Got?
    ensures ChunkList(s, chunks, isText, Chunks(cfg, env, s, depth, slot, isText, content).rest)
    ensures isText ==> AllOk(cfg, chunks)
    decreases |s|
  {
    hide Item, Lex, TextOk, StringItem, Chunks;
    EarlyCount.ChunkCases(cfg, env, s, depth, slot, isText, content);
    var r := Lex(s);
    if r.tok.Break? {
      chunks := [];
      BreakLength(s);
    } else {
      var more := ChunksListed(cfg, env, s[r.len..], isText, depth, slot, content + r.tok.s);
      chunks := [r.tok.s] + more;
      assert chunks[1..] == more;
      FirstAndRest(cfg, chunks);
    }
  }

  function Chunked(isText: bool, s: bytes): bytes { [if isText then 0x7f else 0x5f] + s }

  lemma ChunkedOpened(cfg: Config, env: Env, isText: bool, s: bytes, depth: nat, slot: Slot)
    ensures Item(cfg, env, Chunked(isText, s), depth, slot) == ChunkedString(cfg, env, s, depth, slot, isText)
  {
    hide ChunkedString, Item;
    var tok := if isText then TextStart else ByteStart;
    assert Write(tok) == [if isText then 0x7f else 0x5f];
    ItemOfWritten(cfg, env, tok, s, depth, slot);
  }

  /** The joined string, as an item of its own. */
  lemma JoinedDecodes(cfg: Config, env: Env, s: bytes, isText: bool, rest: bytes, depth: nat, slot: Slot)
    requires |s| < UINT64_LIMIT - 9 && (isText ==> TextOk(cfg, s))
    ensures Item(cfg, env, Write(Encoder.StringToken(s, isText)) + rest, depth, slot)
            == FromString(StringItem(cfg, env, slot, s, isText, false), rest)
  {
    hide Write, TextOk, StringItem, Item;
    ItemOfWritten(cfg, env, Encoder.StringToken(s, isText), rest, depth, slot);
  }

  /** Chunks differ from the joined string in that they are in no table of a namespace. */
  lemma RegisteredOnly(cfg: Config, env: Env, slot: Slot, s: bytes, isText: bool, rest: bytes)
    ensures var d, e := FromString(StringItem(cfg, env, slot, s, isText, true), rest),
                        FromString(StringItem(cfg, env, slot, s, isText, false), rest);
            if e.Failed? then d == e else d == Got(e.val, env, rest) && e.rest == rest && (!slot.inNs ==> e.env == env)
  {
  }

  /**
   Strings: chunks are decoded to the value that the joined string is decoded to, if each of them is text
   where it has to be and the frame of the string fits the limit; only, no number is given to it.
   */
  lemma StringsDecodeAlike(
    cfg: Config, env: Env, s: bytes, chunks: seq<bytes>, isText: bool, rest: bytes, depth: nat, slot: Slot)
    requires ChunkList(s, chunks, isText, rest) && (isText ==> AllOk(cfg, chunks)) && |Joined(chunks)| < UINT64_LIMIT - 9
    requires depth < cfg.maxDepth && slot.share.None?
    ensures var d := Item(cfg, env, Chunked(isText, s), depth, slot);
            var e := Item(cfg, env, Write(Encoder.StringToken(Joined(chunks), isText)) + rest, depth, slot);
            if e.Failed? then d == e else d == Got(e.val, env, rest) && e.rest == rest && (!slot.inNs ==> e.env == env)
  {
    hide Item, Write, Chunks, TextOk, StringItem, FromString;
    ChunkedOpened(cfg, env, isText, s, depth, slot);
    ChunksDecode(cfg, env, s, chunks, isText, rest, depth, slot, []);
    EmptyConcat(Joined(chunks));
    if isText {
      JoinedOk(cfg, chunks);
    }
    JoinedDecodes(cfg, env, Joined(chunks), isText, rest, depth, slot);
    RegisteredOnly(cfg, env, slot, Joined(chunks), isText, rest);
  }

  /** No other strings of indefinite length are decoded. */
  lemma ChunkedIsChunks(cfg: Config, env: Env, s: bytes, isText: bool, depth: nat, slot: Slot) returns (chunks: seq<bytes>)
    requires Item(cfg, env, Chunked(isText, s), depth, slot).Got?
    ensures ChunkList(s, chunks, isText, Item(cfg, env, Chunked(isText, s), depth, slot).rest)
    ensures (isText ==> AllOk(cfg, chunks)) && depth < cfg.maxDepth && slot.share.None?
  {
    hide Item, Chunks, ChunkList;
    ChunkedOpened(cfg, env, isText, s, depth, slot);
    chunks := ChunksListed(cfg, Open(cfg, env, depth, slot, None).value, s, isText, depth, slot, []);
  }
}
