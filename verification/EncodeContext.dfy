/** The encoding context of encode.c, and the writers of di_encoder.c, as an object changed step by step. */
module EncodeContext {
  import opened Bytes
  import opened Wrappers
  import opened Values
  import opened Wire
  import opened DecoderConfig
  import opened Encoder
  import DecimalInt
  import Utf8

  /** What is left to do once `done` has been written. */
  function After(done: bytes, r: R<Out>): R<Out> {
    match r
    case Ok(o) => Ok(Out(done + o.out, o.st))
    case Err(e) => Err(e)
  }

  lemma AfterTwo(a: bytes, b: bytes, r: R<Out>)
    ensures After(a, After(b, r)) == After(a + b, r)
  {
    if r.Ok? {
      assert a + (b + r.value.out) == a + b + r.value.out;
    }
  }

  lemma AfterNone(r: R<Out>)
    ensures After([], r) == r
  {
    if r.Ok? {
      assert [] + r.value.out == r.value.out;
    }
  }

  lemma NextElement(cfg: EncConfig, g: Graph, st: EncState, elems: seq<Val>, depth: nat, busy: set<nat>)
    requires elems != []
    ensures var first := EncVal(cfg, g, st, elems[0], depth, busy);
            EncElems(cfg, g, st, elems, depth, busy) ==
            if first.Err? then Err(first.error)
            else After(first.value.out, EncElems(cfg, g, first.value.st, elems[1..], depth, busy))
  {
  }

  lemma NextProperty(cfg: EncConfig, g: Graph, st: EncState, props: Props, depth: nat, busy: set<nat>)
    requires props != []
    ensures var key := EncKey(cfg, st, props[0].key);
            EncProps(cfg, g, st, props, depth, busy) ==
            if key.Err? then Err(key.error)
            else
              var first := EncVal(cfg, g, key.value.st, props[0].val, depth, busy);
              if first.Err? then Err(first.error)
              else After(key.value.out + first.value.out, EncProps(cfg, g, first.value.st, props[1..], depth, busy))
  {
  }

  lemma NoProperty(cfg: EncConfig, g: Graph, st: EncState, depth: nat, busy: set<nat>)
    ensures EncProps(cfg, g, st, [], depth, busy) == Ok(Out([], st))
  {
  }

  lemma NextEntry(cfg: EncConfig, g: Graph, st: EncState, entries: seq<Entry>, depth: nat, busy: set<nat>)
    requires entries != []
    ensures var first := EncVal(cfg, g, st, entries[0].val, depth, busy);
            EncEntries(cfg, g, st, entries, depth, busy) ==
            if first.Err? then Err(first.error)
            else After(entries[0].key + first.value.out, EncEntries(cfg, g, first.value.st, entries[1..], depth, busy))
  {
  }

  function KeysAfter(done: seq<Entry>, r: R<(seq<Entry>, EncState)>): R<(seq<Entry>, EncState)> {
    match r
    case Ok((entries, st)) => Ok((done + entries, st))
    case Err(e) => Err(e)
  }

  lemma NextKey(cfg: EncConfig, st: EncState, props: Props, done: seq<Entry>)
    requires props != []
    ensures var key := EncKey(cfg, st, props[0].key);
            KeysAfter(done, EncKeys(cfg, st, props)) ==
            if key.Err? then Err(key.error)
            else KeysAfter(done + [Entry(key.value.out, props[0].val)], EncKeys(cfg, key.value.st, props[1..]))
  {
    var key := EncKey(cfg, st, props[0].key);
    if key.Ok? && EncKeys(cfg, key.value.st, props[1..]).Ok? {
      var rest := EncKeys(cfg, key.value.st, props[1..]).value.0;
      assert done + ([Entry(key.value.out, props[0].val)] + rest) == done + [Entry(key.value.out, props[0].val)] + rest;
    }
  }

  lemma HeadByShifts(major: nat, n: nat)
    requires major < 7
    ensures WriteHead(major, n) ==
            if n <= 23 then [major * 32 + n]
            else if n <= 0xff then [major * 32 + 24, n]
            else if n <= 0xffff then [major * 32 + 25] + [n / 0x100, n % 0x100]
            else if n <= 0xffff_ffff then
              [major * 32 + 26] + [n / 0x100_0000, n / 0x1_0000 % 0x100, n / 0x100 % 0x100, n % 0x100]
            else
              [major * 32 + 27] +
              [n / 0x100_0000_0000_0000 % 0x100, n / 0x1_0000_0000_0000 % 0x100, n / 0x100_0000_0000 % 0x100,
               n / 0x1_0000_0000 % 0x100, n / 0x100_0000 % 0x100, n / 0x1_0000 % 0x100, n / 0x100 % 0x100, n % 0x100]
  {
    BigEndian8(n);
    BigEndian4(n);
    BigEndian2(n);
    hide ToBigEndian;
  }

  lemma PlainOutsideNamespace(cfg: EncConfig, st: EncState, s: bytes, toText: bool)
    ensures st.srns.None? ==> EncString(cfg, st, s, toText) == PlainString(cfg, st, s, toText)
  {
  }

  lemma HeadOfArray(n: nat)
    ensures Write(Array(n)) == WriteHead(4, n) && Write(Map(n)) == WriteHead(5, n)
  {
  }

  class Context {
    const cfg: EncConfig
    const g: Graph
    var buf: bytes
    var curDepth: nat
    var srns: Option<Srns>
    var refs: map<nat, nat>
    /** The objects whose recursion protection is set. */
    var busy: set<nat>

    constructor (cfg: EncConfig, g: Graph)
      ensures this.cfg == cfg && this.g == g && buf == [] && curDepth == 0 && busy == {}
      ensures GetState() == EncState(None, map[])
    {
      this.cfg, this.g := cfg, g;
      buf, curDepth, srns, refs, busy := [], 0, None, map[], {};
    }

    function GetState(): EncState
      reads this
    {
      EncState(srns, refs)
    }

    /** `was` has been extended by the output of `r`, or its error was reported. */
    ghost predicate Emitted(r: R<Out>, was: bytes, error: Option<Error>)
      reads this
    {
      match r
      case Ok(o) => error.None? && buf == was + o.out && GetState() == o.st
      case Err(e) => error == Some(e)
    }

    // ----- di_encoder.c -----

    /** `cbor_di_write_int` */
    method WriteInt(major: nat, val: nat)
      requires major < 7
      modifies this`buf
      ensures buf == old(buf) + WriteHead(major, val)
    {
      var iniByte := major * 32;
      HeadByShifts(major, val);
      if val <= 23 {
        buf := buf + [iniByte + val];
      } else if val <= 0xff {
        buf := buf + [iniByte + 24, val];
      } else if val <= 0xffff {
        buf := buf + [iniByte + 25] + [val / 0x100, val % 0x100];
      } else if val <= 0xffff_ffff {
        buf := buf + [iniByte + 26] + [val / 0x100_0000, val / 0x1_0000 % 0x100, val / 0x100 % 0x100, val % 0x100];
      } else {
        buf := buf + [iniByte + 27] +
          [val / 0x100_0000_0000_0000 % 0x100, val / 0x1_0000_0000_0000 % 0x100, val / 0x100_0000_0000 % 0x100,
           val / 0x1_0000_0000 % 0x100, val / 0x100_0000 % 0x100, val / 0x1_0000 % 0x100, val / 0x100 % 0x100,
           val % 0x100];
      }
    }

    method WriteToken(t: Token)
      modifies this`buf
      ensures buf == old(buf) + Write(t)
    {
      buf := buf + Write(t);
    }

    /** `enc_tag_bare` */
    method EncTagBare(tag: nat)
      modifies this`buf
      ensures buf == old(buf) + Write(TagHead(tag))
    {
      WriteInt(6, tag);
    }

    /** `enc_long` */
    method EncLong(i: int)
      modifies this`buf
      ensures buf == old(buf) + Write(IntToken(i))
    {
      if i >= 0 {
        WriteInt(0, i);
      } else {
        WriteInt(1, -(i + 1));
      }
    }

    // ----- Strings -----

    /** `enc_string_ref`: writes a reference, or asks for the value to follow. */
    method EncStringRef(s: bytes, toText: bool) returns (error: Option<Error>, valueFollows: bool)
      requires srns.Some?
      modifies this`buf, this`srns
      ensures valueFollows ==> error.None? && buf == old(buf)
      ensures valueFollows ==> EncString(cfg, old(GetState()), s, toText) == PlainString(cfg, GetState(), s, toText)
      ensures !valueFollows ==> Emitted(EncString(cfg, old(GetState()), s, toText), old(buf), error)
    {
      hide PlainString, Write, IsLenStringRef, AddString, Table;
      var space := srns.value;
      var table := Table(space, toText);
      if s in table {
        ghost var was := buf;
        buf := buf + Write(TagHead(TAG_STRING_REF));
        buf := buf + Write(UInt(table[s]));
        assert buf == was + (Write(TagHead(TAG_STRING_REF)) + Write(UInt(table[s])));
        return None, false;
      }
      if !IsLenStringRef(|s|, space.next) {
        return None, true;
      }
      if space.next == UINT32_LIMIT - 1 {
        return Some(Internal), false;
      }
      srns := Some(AddString(space, s, toText));
      return None, true;
    }

    /** `enc_string_len` */
    method EncStringLen(s: bytes, toText: bool) returns (error: Option<Error>)
      modifies this`buf, this`srns
      ensures Emitted(EncString(cfg, old(GetState()), s, toText), old(buf), error)
    {
      hide EncString, Utf8.Valid, WriteHead;
      PlainOutsideNamespace(cfg, GetState(), s, toText);
      ghost var was := buf;
      if srns.Some? {
        var valueFollows;
        error, valueFollows := EncStringRef(s, toText);
        if !valueFollows {
          return;
        }
      }
      if toText && !cfg.unsafeText {
        var valid := Utf8.IsUtf8(s);
        if !valid {
          return Some(InvalidUtf8);
        }
      }
      WriteInt(if toText then 3 else 2, |s|);
      if |s| > 0 {
        buf := buf + s;
      }
      assert buf == was + Write(StringToken(s, toText));
      error := None;
    }

    method EncPropertyKey(name: bytes) returns (error: Option<Error>)
      modifies this`buf, this`srns
      ensures Emitted(EncKey(cfg, old(GetState()), name), old(buf), error)
    {
      if cfg.intKey {
        var ok, value, isNegative := DecimalInt.ConvertStringToInt(name);
        if ok {
          WriteInt(if isNegative then 1 else 0, value);
          return None;
        }
      }
      if cfg.keys.NoFlag? {
        error := Some(NoKeyStringFlag);
      } else {
        error := EncStringLen(name, cfg.keys.AsText?);
      }
    }

    // ----- Values -----

    /** `enc_zval` */
    method EncZval(v: Val) returns (error: Option<Error>)
      modifies this
      ensures Emitted(EncVal(cfg, g, old(GetState()), v, old(curDepth), old(busy)), old(buf), error)
      ensures error.None? ==> curDepth == old(curDepth) && busy == old(busy)
      ensures curDepth >= old(curDepth)
      decreases Room(cfg, curDepth), 4
    {
      hide EncString, EncHash, EncElems, EncTag, EncObject, ScalarToken, Write;
      error := None;
      curDepth := curDepth + 1;
      if curDepth - 1 > cfg.maxDepth {
        return Some(Depth);
      }
      match v {
        case Str(s) =>
          if cfg.strings.NoFlag? {
            error := Some(NoStringFlag);
          } else {
            error := EncStringLen(s, cfg.strings.AsText?);
          }
        case ByteStr(s) => error := EncStringLen(s, false);
        case TextStr(s) => error := EncStringLen(s, true);
        case List(elems) => error := EncodeList(elems);
        case Obj(id) => error := EncodeObject(id);
        case Tag(tag, content) => error := EncodeTag(tag, content);
        case _ => WriteToken(ScalarToken(cfg, v));
      }
      curDepth := curDepth - 1;
    }

    /** `enc_hash` for a list */
    method EncodeList(elems: seq<Val>) returns (error: Option<Error>)
      modifies this
      ensures Emitted(After(Write(Array(|elems|)), EncElems(cfg, g, old(GetState()), elems, old(curDepth), old(busy))),
                      old(buf), error)
      ensures error.None? ==> curDepth == old(curDepth) && busy == old(busy)
      ensures curDepth >= old(curDepth)
      decreases Room(cfg, curDepth), 5
    {
      hide EncVal, Write;
      ghost var all := After(Write(Array(|elems|)), EncElems(cfg, g, GetState(), elems, curDepth, busy));
      ghost var was, done := buf, Write(Array(|elems|));
      WriteInt(4, |elems|);
      HeadOfArray(|elems|);
      for i := 0 to |elems|
        invariant buf == was + done && curDepth == old(curDepth) && busy == old(busy)
        invariant After(done, EncElems(cfg, g, GetState(), elems[i..], curDepth, busy)) == all
      {
        NextElement(cfg, g, GetState(), elems[i..], curDepth, busy);
        ghost var first := EncVal(cfg, g, GetState(), elems[i], curDepth, busy);
        error := EncZval(elems[i]);
        if error.Some? {
          return;
        }
        AfterTwo(done, first.value.out, EncElems(cfg, g, first.value.st, elems[i..][1..], curDepth, busy));
        done := done + first.value.out;
      }
      error := None;
    }

    /** `enc_ref_counted`: writes a reference to an object that has a number, or gives it one. */
    method EncRefCounted(id: nat) returns (valueFollows: bool)
      modifies this`buf, this`refs
      ensures valueFollows <==> id !in old(refs)
      ensures valueFollows ==> refs == old(refs)[id := |old(refs)|] && buf == old(buf) + Write(TagHead(TAG_SHAREABLE))
      ensures !valueFollows ==>
        refs == old(refs) && buf == old(buf) + (Write(TagHead(TAG_SHARED_REF)) + Write(IntToken(refs[id])))
    {
      hide Write;
      if id in refs {
        EncTagBare(TAG_SHARED_REF);
        EncLong(refs[id]);
        return false;
      }
      refs := refs[id := |refs|];
      EncTagBare(TAG_SHAREABLE);
      valueFollows := true;
    }

    method EncodeObject(id: nat) returns (error: Option<Error>)
      requires 0 < curDepth <= cfg.maxDepth + 1
      modifies this
      ensures Emitted(EncObject(cfg, g, old(GetState()), id, old(curDepth) - 1, old(busy)), old(buf), error)
      ensures error.None? ==> curDepth == old(curDepth) && busy == old(busy)
      ensures curDepth >= old(curDepth)
      decreases Room(cfg, curDepth), 9
    {
      hide EncHash, Write;
      ghost var head := [];
      if cfg.sharedRef && id in g.counted {
        var valueFollows := EncRefCounted(id);
        if !valueFollows {
          return None;
        }
        head := Write(TagHead(TAG_SHAREABLE));
      }
      ghost var r := EncHash(cfg, g, GetState(), id, curDepth - 1, busy);
      error := EncodeHash(id);
      assert r.Ok? ==> old(buf) + head + r.value.out == old(buf) + (head + r.value.out);
    }

    /** `enc_hash` for an object */
    method EncodeHash(id: nat) returns (error: Option<Error>)
      requires 0 < curDepth <= cfg.maxDepth + 1
      modifies this
      ensures Emitted(EncHash(cfg, g, old(GetState()), id, old(curDepth) - 1, old(busy)), old(buf), error)
      ensures error.None? ==> curDepth == old(curDepth) && busy == old(busy)
      ensures curDepth >= old(curDepth)
      decreases Room(cfg, curDepth), 8
    {
      hide EncProps, EncKeys, EncEntries, Write;
      if id >= |g.heap| {
        return Some(Internal);
      }
      if id in busy {
        return Some(Recursion);
      }
      var props := g.heap[id];
      HeadOfArray(|props|);
      if props != [] && cfg.cde {
        error := EncodeSorted(id, props);
      } else {
        ghost var was := buf;
        WriteInt(5, |props|);
        ghost var before := busy;
        busy := busy + {id};
        ghost var r := EncProps(cfg, g, GetState(), props, curDepth, busy);
        error := EncodeProps(props);
        busy := busy - {id};
        assert error.None? ==> busy == before;
        assert r.Ok? ==> was + Write(Map(|props|)) + r.value.out == was + (Write(Map(|props|)) + r.value.out);
      }
    }

    /** Keys and values one after the other. */
    method EncodeProps(props: Props) returns (error: Option<Error>)
      modifies this
      ensures Emitted(EncProps(cfg, g, old(GetState()), props, old(curDepth), old(busy)), old(buf), error)
      ensures error.None? ==> curDepth == old(curDepth) && busy == old(busy)
      ensures curDepth >= old(curDepth)
      decreases Room(cfg, curDepth), 5
    {
      hide EncVal, EncKey, EncProps;
      ghost var all := EncProps(cfg, g, GetState(), props, curDepth, busy);
      ghost var was, done := buf, [];
      AfterNone(all);
      for i := 0 to |props|
        invariant buf == was + done && curDepth == old(curDepth) && busy == old(busy)
        invariant After(done, EncProps(cfg, g, GetState(), props[i..], curDepth, busy)) == all
      {
        NextProperty(cfg, g, GetState(), props[i..], curDepth, busy);
        ghost var key := EncKey(cfg, GetState(), props[i].key);
        error := EncPropertyKey(props[i].key);
        if error.Some? {
          return;
        }
        ghost var first := EncVal(cfg, g, GetState(), props[i].val, curDepth, busy);
        error := EncZval(props[i].val);
        if error.Some? {
          return;
        }
        AfterTwo(done, key.value.out + first.value.out, EncProps(cfg, g, first.value.st, props[i..][1..], curDepth, busy));
        done := done + (key.value.out + first.value.out);
      }
      NoProperty(cfg, g, GetState(), curDepth, busy);
      error := None;
    }

    /** The deterministic form: keys are encoded to a buffer of their own, then `enc_cde_map`. */
    method EncodeSorted(id: nat, props: Props) returns (error: Option<Error>)
      requires 0 < curDepth <= cfg.maxDepth + 1 && cfg.cde && props != []
      requires id < |g.heap| && props == g.heap[id] && id !in busy
      modifies this
      ensures Emitted(EncHash(cfg, g, old(GetState()), id, old(curDepth) - 1, old(busy)), old(buf), error)
      ensures error.None? ==> curDepth == old(curDepth) && busy == old(busy)
      ensures curDepth >= old(curDepth)
      decreases Room(cfg, curDepth), 7
    {
      hide EncKeys, EncEntries, Write, SortByKey;
      ghost var was, before := buf, busy;
      busy := busy + {id};
      var entries;
      error, entries := EncodeKeys(props);
      busy := busy - {id};
      if error.Some? {
        return;
      }
      assert busy == before;
      ghost var r := EncEntries(cfg, g, GetState(), SortByKey(entries), curDepth, busy);
      WriteInt(5, |props|);
      HeadOfArray(|props|);
      error := EncodeEntries(SortByKey(entries));
      assert r.Ok? ==> was + Write(Map(|props|)) + r.value.out == was + (Write(Map(|props|)) + r.value.out);
    }

    method EncodeKeys(props: Props) returns (error: Option<Error>, entries: seq<Entry>)
      modifies this`buf, this`srns
      ensures match EncKeys(cfg, old(GetState()), props)
              case Ok(r) => error.None? && buf == old(buf) && entries == r.0 && GetState() == r.1
              case Err(e) => error == Some(e)
    {
      hide EncKey;
      ghost var all := EncKeys(cfg, GetState(), props);
      entries := [];
      assert KeysAfter([], all) == all by {
        assert all.Ok? ==> [] + all.value.0 == all.value.0;
      }
      for i := 0 to |props|
        invariant buf == old(buf) && KeysAfter(entries, EncKeys(cfg, GetState(), props[i..])) == all
      {
        NextKey(cfg, GetState(), props[i..], entries);
        var outBuf := buf;
        ghost var r := EncKey(cfg, GetState(), props[i].key);
        buf := [];
        error := EncPropertyKey(props[i].key);
        var key := buf;
        assert r.Ok? ==> key == [] + r.value.out == r.value.out;
        buf := outBuf;
        if error.Some? {
          return;
        }
        entries := entries + [Entry(key, props[i].val)];
      }
      error := None;
    }

    /** `enc_cde_map` after sorting */
    method EncodeEntries(entries: seq<Entry>) returns (error: Option<Error>)
      modifies this
      ensures Emitted(EncEntries(cfg, g, old(GetState()), entries, old(curDepth), old(busy)), old(buf), error)
      ensures error.None? ==> curDepth == old(curDepth) && busy == old(busy)
      ensures curDepth >= old(curDepth)
      decreases Room(cfg, curDepth), 5
    {
      hide EncVal;
      ghost var all := EncEntries(cfg, g, GetState(), entries, curDepth, busy);
      ghost var was, done := buf, [];
      AfterNone(all);
      for i := 0 to |entries|
        invariant buf == was + done && curDepth == old(curDepth) && busy == old(busy)
        invariant After(done, EncEntries(cfg, g, GetState(), entries[i..], curDepth, busy)) == all
      {
        NextEntry(cfg, g, GetState(), entries[i..], curDepth, busy);
        ghost var first := EncVal(cfg, g, GetState(), entries[i].val, curDepth, busy);
        buf := buf + entries[i].key;
        error := EncZval(entries[i].val);
        if error.Some? {
          return;
        }
        AfterTwo(done, entries[i].key + first.value.out,
                 EncEntries(cfg, g, first.value.st, entries[i..][1..], curDepth, busy));
        done := done + (entries[i].key + first.value.out);
      }
      error := None;
    }

    /** A reference made by hand has to be one to a known string. */
    method ReferenceError(tag: nat, content: Val) returns (error: Option<Error>)
      ensures error == CheckTag(cfg, GetState(), tag, content)
    {
      if tag == TAG_STRING_REF && !cfg.stringRef.Off? {
        if !content.Int? {
          return Some(TagType);
        }
        if srns.None? {
          return Some(TagSyntax);
        }
        if content.i < 0 || content.i >= srns.value.next {
          return Some(TagValue);
        }
      }
      error := None;
    }

    /** `enc_tag`: a namespace tag replaces the namespace while its content is encoded. */
    method EncodeTag(tag: int, content: Val) returns (error: Option<Error>)
      requires 0 < curDepth <= cfg.maxDepth + 1
      modifies this
      ensures Emitted(EncTag(cfg, g, old(GetState()), tag, content, old(curDepth) - 1, old(busy)), old(buf), error)
      ensures error.None? ==> curDepth == old(curDepth) && busy == old(busy)
      ensures curDepth >= old(curDepth)
      decreases Room(cfg, curDepth), 9
    {
      hide EncVal, Write, WriteHead, CheckTag;
      TagChecks(cfg, GetState(), tag, content);
      if tag < 0 {
        return Some(NegativeTag);
      }
      ghost var was := buf;
      EncTagBare(tag);
      var origSrns, newSrns := srns, false;
      if tag == TAG_STRING_REF_NS && !cfg.stringRef.Off? {
        newSrns := true;
        srns := Some(NEW_SRNS);
      } else {
        error := ReferenceError(tag, content);
        if error.Some? {
          return;
        }
      }
      ghost var r := EncVal(cfg, g, GetState(), content, curDepth, busy);
      error := EncZval(content);
      if newSrns {
        srns := origSrns;
      }
      if r.Ok? {
        Concat(was, Write(TagHead(tag)), r.value.out);
      }
    }
  }

  lemma TagChecks(cfg: EncConfig, st: EncState, tag: int, content: Val)
    ensures tag < 0 ==> CheckTag(cfg, st, tag, content) == Some(NegativeTag)
    ensures tag == TAG_STRING_REF_NS ==> CheckTag(cfg, st, tag, content) == None
  {
  }

  /** `cbor_encode` */
  method CborEncode(cfg: EncConfig, g: Graph, v: Val) returns (r: R<bytes>)
    ensures r == Encode(cfg, g, v)
  {
    hide EncVal, Write;
    ghost var st := EncState(if cfg.stringRef.On? then Some(NEW_SRNS) else None, map[]);
    ghost var out := EncVal(cfg, g, st, v, 0, {});
    var ctx := new Context(cfg, g);
    if cfg.selfDescribe {
      ctx.EncTagBare(TAG_SELF_DESCRIBE);
    }
    if cfg.stringRef.On? {
      ctx.EncTagBare(TAG_STRING_REF_NS);
      ctx.srns := Some(NEW_SRNS);
    }
    ghost var head := (if cfg.selfDescribe then Write(TagHead(TAG_SELF_DESCRIBE)) else [])
                      + if cfg.stringRef.On? then Write(TagHead(TAG_STRING_REF_NS)) else [];
    assert ctx.buf == head;
    var error := ctx.EncZval(v);
    assert out.Ok? ==> ctx.buf == head + out.value.out;
    r := if error.Some? then Err(error.value) else Ok(ctx.buf);
  }
}
