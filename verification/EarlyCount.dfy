/**
 One-shot decoding knows where its input ends and refuses element counts that cannot fit early. That
 rejects nothing that could have been decoded: with and without the check the same inputs are
 accepted, with the same values.
 */
module EarlyCount {
  import opened Bytes
  import opened Wrappers
  import opened Values
  import opened Wire
  import opened DecoderConfig
  import opened RecursiveDecoder
  import Refinement
  import StackMachine
  import DecodeContext
  import Utf8

  function Checked(cfg: Config): Config { cfg.(limited := true) }

  function Unchecked(cfg: Config): Config { cfg.(limited := false) }

  /** If one of them succeeds the other does the same. */
  predicate Agree(d: Decoded, d1: Decoded) { d.Got? || d1.Got? ==> d == d1 }

  /** Each element takes a byte. */
  lemma {:induction false} ElementsTakeBytes(
    cfg: Config, env: Env, s: bytes, depth: nat, inNs: bool, count: nat, elems: seq<Val>)
    ensures var d := Elements(cfg, env, s, depth, inNs, count, elems);
            d.Got? ==> |d.rest| + count <= |s|
    decreases |s|
  {
    hide Item, Lex;
    if count > 0 {
      var d := Item(cfg, env, s, depth, Slot(false, inNs, None));
      if d.Got? && count > 1 {
        var r := AddElement(cfg, false, elems, d.val);
        if r.Ok? {
          ElementsTakeBytes(cfg, d.env, d.rest, depth, inNs, count - 1, r.value);
        }
      }
    }
  }

  /** Each member takes two. */
  lemma {:induction false} PairsTakeBytes(
    cfg: Config, env: Env, s: bytes, depth: nat, inNs: bool, count: nat, added: nat, dest: nat)
    ensures var d := Pairs(cfg, env, s, depth, inNs, count, added, dest);
            d.Got? ==> |d.rest| + 2 * count <= |s|
    decreases |s|
  {
    hide Item, Lex, TakeKey, PutProperty;
    if count > 0 {
      var k := Item(cfg, env, s, depth, Slot(true, inNs, None));
      if k.Got? {
        var key := TakeKey(cfg, false, added, k.val);
        var v := Item(cfg, k.env, k.rest, depth, Slot(false, inNs, None));
        if key.Ok? && v.Got? {
          var r := PutProperty(cfg, v.env, dest, key.value, v.val);
          if r.Ok? && count > 1 {
            PairsTakeBytes(cfg, r.value, v.rest, depth, inNs, count - 1, added, dest);
          }
        }
      }
    }
  }

  lemma {:induction false} ItemsAgree(cfg: Config, env: Env, s: bytes, depth: nat, slot: Slot)
    ensures Agree(Item(Checked(cfg), env, s, depth, slot), Item(Unchecked(cfg), env, s, depth, slot))
    decreases |s|, 0
  {
    hide ItemOf;
    var r := Lex(s);
    if r.Tok? {
      TokensAgree(cfg, env, r.tok, |s|, s[r.len..], depth, slot);
    }
  }

  lemma {:induction false} TokensAgree(
    cfg: Config, env: Env, tok: Token, available: nat, rest: bytes, depth: nat, slot: Slot)
    requires available > |rest|
    ensures Agree(ItemOf(Checked(cfg), env, tok, available, rest, depth, slot),
                  ItemOf(Unchecked(cfg), env, tok, available, rest, depth, slot))
    decreases |rest|, 3
  {
    hide ChunkedString, ArrayItem, MapItem, TagItem, Utf8.Valid, FloatItem16, FloatItem32;
    match tok
    case ByteString(b) => LeavesAgree(cfg, env, slot, b, false, 0, 0);
    case TextString(b) => LeavesAgree(cfg, env, slot, b, true, 0, 0);
    case ByteStart => StringsAgree(cfg, env, rest, depth, slot, false);
    case TextStart => StringsAgree(cfg, env, rest, depth, slot, true);
    case Array(count) => ArraysAgree(cfg, env, rest, depth, slot, count);
    case ArrayStart => ArraysAgree(cfg, env, rest, depth, slot, 0);
    case Map(count) => MapsAgree(cfg, env, rest, depth, slot, count);
    case MapStart => MapsAgree(cfg, env, rest, depth, slot, 0);
    case TagHead(n) => TagsAgree(cfg, env, rest, depth, slot, n);
    case Float16(raw) => LeavesAgree(cfg, env, slot, [], false, raw, 0);
    case Float32(raw) => LeavesAgree(cfg, env, slot, [], false, 0, raw);
    case _ =>
  }

  /** The parts that look at one value do not look at the check. */
  lemma LeavesAgree(cfg: Config, env: Env, slot: Slot, s: bytes, isText: bool, raw16: uint16, raw32: uint32)
    ensures StringItem(Checked(cfg), env, slot, s, isText, false) == StringItem(Unchecked(cfg), env, slot, s, isText, false)
    ensures StringItem(Checked(cfg), env, slot, s, isText, true) == StringItem(Unchecked(cfg), env, slot, s, isText, true)
    ensures FloatItem16(Checked(cfg), raw16) == FloatItem16(Unchecked(cfg), raw16)
    ensures FloatItem32(Checked(cfg), raw32) == FloatItem32(Unchecked(cfg), raw32)
    ensures TextOk(Checked(cfg), s) == TextOk(Unchecked(cfg), s)
  {
  }

  lemma OpeningsAgree(cfg: Config, env: Env, depth: nat, slot: Slot, created: Option<nat>, tag: nat)
    ensures Open(Checked(cfg), env, depth, slot, created) == Open(Unchecked(cfg), env, depth, slot, created)
    ensures HandlerOf(Checked(cfg), tag) == HandlerOf(Unchecked(cfg), tag)
  {
  }

  lemma {:induction false} StringsAgree(cfg: Config, env: Env, s: bytes, depth: nat, slot: Slot, isText: bool)
    ensures Agree(ChunkedString(Checked(cfg), env, s, depth, slot, isText),
                  ChunkedString(Unchecked(cfg), env, s, depth, slot, isText))
    decreases |s|, 2
  {
    hide Chunks, Open;
    OpeningsAgree(cfg, env, depth, slot, None, 0);
    var r := Open(Checked(cfg), env, depth, slot, None);
    if r.Ok? {
      ChunksAgree(cfg, r.value, s, depth, slot, isText, []);
    }
  }

  /** The cases of a chunked string; what is neither a chunk nor a break is refused in the end. */
  lemma ChunkCases(cfg: Config, env: Env, s: bytes, depth: nat, slot: Slot, isText: bool, content: bytes)
    ensures var d, r := Chunks(cfg, env, s, depth, slot, isText, content), Lex(s);
            if r.Tok? && r.tok.Break? then d == FromString(StringItem(cfg, env, slot, content, isText, true), s[r.len..])
            else if r.Tok? && (r.tok.TextString? || r.tok.ByteString?) && r.tok.TextString? == isText
                    && (isText ==> TextOk(cfg, r.tok.s))
            then d == Chunks(cfg, env, s[r.len..], depth, slot, isText, content + r.tok.s)
            else d.Failed?
  {
    hide Item, Lex, TextOk, StringItem;
  }

  lemma {:induction false} ChunksAgree(
    cfg: Config, env: Env, s: bytes, depth: nat, slot: Slot, isText: bool, content: bytes)
    ensures Agree(Chunks(Checked(cfg), env, s, depth, slot, isText, content),
                  Chunks(Unchecked(cfg), env, s, depth, slot, isText, content))
    decreases |s|, 1
  {
    hide Item, Lex, TextOk, StringItem, Chunks;
    ChunkCases(Checked(cfg), env, s, depth, slot, isText, content);
    ChunkCases(Unchecked(cfg), env, s, depth, slot, isText, content);
    LeavesAgree(cfg, env, slot, content, isText, 0, 0);
    var r := Lex(s);
    if r.Tok? && (r.tok.TextString? || r.tok.ByteString?) {
      LeavesAgree(cfg, env, slot, r.tok.s, isText, 0, 0);
      ChunksAgree(cfg, env, s[r.len..], depth, slot, isText, content + r.tok.s);
    }
  }

  lemma {:induction false} ArraysAgree(cfg: Config, env: Env, s: bytes, depth: nat, slot: Slot, count: nat)
    ensures Agree(ArrayItem(Checked(cfg), env, s, depth, slot, count), ArrayItem(Unchecked(cfg), env, s, depth, slot, count))
    ensures var d := ArrayItem(Unchecked(cfg), env, s, depth, slot, count); d.Got? ==> count <= |s|
    decreases |s|, 2
  {
    hide Elements, Open;
    OpeningsAgree(cfg, env, depth, slot, None, 0);
    var r := Open(Checked(cfg), env, depth, slot, None);
    if r.Ok? {
      ElementsAgree(cfg, r.value, s, depth + 1, slot.inNs, count, []);
      ElementsTakeBytes(Unchecked(cfg), r.value, s, depth + 1, slot.inNs, count, []);
    }
  }

  lemma {:induction false} ElementsAgree(
    cfg: Config, env: Env, s: bytes, depth: nat, inNs: bool, count: nat, elems: seq<Val>)
    ensures Agree(Elements(Checked(cfg), env, s, depth, inNs, count, elems),
                  Elements(Unchecked(cfg), env, s, depth, inNs, count, elems))
    decreases |s|, 1
  {
    hide Item, Lex;
    ItemsAgree(cfg, env, s, depth, Slot(false, inNs, None));
    var d := Item(Checked(cfg), env, s, depth, Slot(false, inNs, None));
    if d.Got? {
      var r := AddElement(Checked(cfg), count == 0, elems, d.val);
      if r.Ok? {
        ElementsAgree(cfg, d.env, d.rest, depth, inNs, if count == 0 then 0 else count - 1, r.value);
      }
    }
  }

  lemma {:induction false} MapsAgree(cfg: Config, env: Env, s: bytes, depth: nat, slot: Slot, count: nat)
    ensures Agree(MapItem(Checked(cfg), env, s, depth, slot, count), MapItem(Unchecked(cfg), env, s, depth, slot, count))
    ensures var d := MapItem(Unchecked(cfg), env, s, depth, slot, count); d.Got? ==> 2 * count <= |s|
    decreases |s|, 2
  {
    hide Pairs, Open;
    var dest := |env.heap|;
    OpeningsAgree(cfg, NewObject(env), depth, slot, Some(dest), 0);
    var r := Open(Checked(cfg), NewObject(env), depth, slot, Some(dest));
    if r.Ok? {
      PairsAgree(cfg, r.value, s, depth + 1, slot.inNs, count, 0, dest);
      PairsTakeBytes(Unchecked(cfg), r.value, s, depth + 1, slot.inNs, count, 0, dest);
    }
  }

  lemma KeysAgree(cfg: Config, indef: bool, added: nat, key: Val)
    ensures TakeKey(Checked(cfg), indef, added, key) == TakeKey(Unchecked(cfg), indef, added, key)
  {
  }

  lemma MembersAgree(cfg: Config, env: Env, dest: nat, key: Val, v: Val)
    ensures PutProperty(Checked(cfg), env, dest, key, v) == PutProperty(Unchecked(cfg), env, dest, key, v)
  {
  }

  lemma {:induction false} PairsAgree(
    cfg: Config, env: Env, s: bytes, depth: nat, inNs: bool, count: nat, added: nat, dest: nat)
    ensures Agree(Pairs(Checked(cfg), env, s, depth, inNs, count, added, dest),
                  Pairs(Unchecked(cfg), env, s, depth, inNs, count, added, dest))
    decreases |s|, 1
  {
    hide Item, Lex, TakeKey, PutProperty;
    ItemsAgree(cfg, env, s, depth, Slot(true, inNs, None));
    var k := Item(Checked(cfg), env, s, depth, Slot(true, inNs, None));
    if k.Got? {
      ItemsAgree(cfg, k.env, k.rest, depth, Slot(false, inNs, None));
      var key := TakeKey(Checked(cfg), count == 0, added, k.val);
      var v := Item(Checked(cfg), k.env, k.rest, depth, Slot(false, inNs, None));
      KeysAgree(cfg, count == 0, added, k.val);
      if key.Ok? && v.Got? {
        MembersAgree(cfg, v.env, dest, key.value, v.val);
        var r := PutProperty(Checked(cfg), v.env, dest, key.value, v.val);
        if r.Ok? {
          PairsAgree(cfg, r.value, v.rest, depth, inNs, if count == 0 then 0 else count - 1,
                     if count == 0 then added + 1 else added, dest);
        }
      }
    }
  }

  lemma {:induction false} TagsAgree(cfg: Config, env: Env, s: bytes, depth: nat, slot: Slot, tag: nat)
    ensures Agree(TagItem(Checked(cfg), env, s, depth, slot, tag), TagItem(Unchecked(cfg), env, s, depth, slot, tag))
    decreases |s|, 2
  {
    hide Item, ExitTag, Open, HandlerOf, EnterTag;
    OpeningsAgree(cfg, env, depth, slot, None, tag);
    var h := HandlerOf(Checked(cfg), tag);
    var r := EnterTag(env, slot, h);
    if r.Ok? {
      OpeningsAgree(cfg, r.value, depth, slot, None, tag);
      var entered := Open(Checked(cfg), r.value, depth, slot, None);
      if entered.Ok? {
        ItemsAgree(cfg, entered.value, s, depth + 1, TagSlot(slot, h, |env.refs|));
      }
    }
  }

  /**
   A count that cannot be met is refused at its head, whatever follows: there have to be as many bytes behind
   the head of an array or a map as it has items.
   */
  lemma CountIsChecked(cfg: Config, env: Env, s: bytes, depth: nat, slot: Slot)
    requires cfg.limited && Lex(s).Tok? && (Lex(s).tok.Array? || Lex(s).tok.Map?) && Lex(s).tok.count <= cfg.maxSize
    requires (if Lex(s).tok.Array? then Lex(s).tok.count else Lex(s).tok.count * 2 % UINT32_LIMIT) >= |s|
    ensures Item(cfg, env, s, depth, slot) == Failed(TruncatedData)
  {
    hide Lex;
  }

  /** One-shot decoding accepts the same inputs with the check as without, and gives the same values. */
  lemma EarlyCheckIsSound(cfg: Config, s: bytes)
    ensures var d, d1 := DecodeContext.DecodeAll(Checked(cfg), s), DecodeContext.DecodeAll(Unchecked(cfg), s);
            (d.Ok? <==> d1.Ok?) && (d.Ok? ==> d == d1)
  {
    hide Item, StackMachine.Process;
    Refinement.ProcessRefinesRecursion(Checked(cfg), s);
    Refinement.ProcessRefinesRecursion(Unchecked(cfg), s);
    ItemsAgree(cfg, EMPTY_ENV, s, 0, ROOT_SLOT);
    var p := StackMachine.SkipPrefix(s);
    if p.Ready? {
      ItemsAgree(cfg, EMPTY_ENV, p.rest, 0, ROOT_SLOT);
    }
  }
}
