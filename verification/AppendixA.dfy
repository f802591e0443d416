/** Examples from Appendix A of RFC 8949 and of the registered tags, byte for byte, on the decoder. */
module AppendixA {
  import opened Bytes
  import opened Values
  import opened Wire
  import opened DecoderConfig
  import opened RecursiveDecoder

  /** `s` is decoded to `v` and nothing else. */
  predicate Gives(cfg: Config, s: bytes, v: Val) { Decode(cfg, s) == Got(v, EMPTY_ENV, []) }

  lemma OneToken(cfg: Config, s: bytes, tok: Token, v: Val)
    requires Lex(s) == Tok(tok, |s|) && !IsBigInt(v)
    requires ItemOf(cfg, EMPTY_ENV, tok, |s|, [], 0, ROOT_SLOT) == Got(v, EMPTY_ENV, [])
    ensures Gives(cfg, s, v)
  {
    hide Lex, ItemOf;
    assert s[|s|..] == [];
  }

  lemma Integers(cfg: Config)
    ensures Gives(cfg, [0x00], Int(0)) && Gives(cfg, [0x01], Int(1)) && Gives(cfg, [0x0a], Int(10)) && Gives(cfg, [0x17], Int(23))
    ensures Gives(cfg, [0x20], Int(-1)) && Gives(cfg, [0x29], Int(-10))
  {
    OneToken(cfg, [0x00], UInt(0), Int(0));
    OneToken(cfg, [0x01], UInt(1), Int(1));
    OneToken(cfg, [0x0a], UInt(10), Int(10));
    OneToken(cfg, [0x17], UInt(23), Int(23));
    OneToken(cfg, [0x20], NInt(0), Int(-1));
    OneToken(cfg, [0x29], NInt(9), Int(-10));
    hide Gives;
  }

  lemma TwoBytes(a: byte, b: byte)
    ensures BigEndian([a, b][1..2]) == b
  {
    assert [a, b][1..2] == [b] && [b][..0] == [];
  }

  lemma LongerIntegers(cfg: Config)
    ensures Gives(cfg, [0x18, 0x18], Int(24)) && Gives(cfg, [0x18, 0x64], Int(100)) && Gives(cfg, [0x38, 0x63], Int(-100))
  {
    TwoBytes(0x18, 0x18);
    TwoBytes(0x18, 0x64);
    TwoBytes(0x38, 0x63);
    OneToken(cfg, [0x18, 0x18], UInt(24), Int(24));
    OneToken(cfg, [0x18, 0x64], UInt(100), Int(100));
    OneToken(cfg, [0x38, 0x63], NInt(99), Int(-100));
    hide Gives;
  }

  lemma SimpleHeads()
    ensures Lex([0xf4]) == Tok(False, 1) && Lex([0xf5]) == Tok(True, 1)
    ensures Lex([0xf6]) == Tok(Token.Null, 1) && Lex([0xf7]) == Tok(Token.Undefined, 1)
  {
  }

  lemma SimpleValues(cfg: Config)
    ensures Gives(cfg, [0xf4], Bool(false)) && Gives(cfg, [0xf5], Bool(true))
    ensures Gives(cfg, [0xf6], Val.Null) && Gives(cfg, [0xf7], Val.Undefined)
  {
    SimpleHeads();
    hide Lex;
    OneToken(cfg, [0xf4], False, Bool(false));
    OneToken(cfg, [0xf5], True, Bool(true));
    OneToken(cfg, [0xf6], Token.Null, Val.Null);
    OneToken(cfg, [0xf7], Token.Undefined, Val.Undefined);
    hide Gives;
  }

  lemma ShortString(s: bytes, content: bytes, isText: bool)
    requires s == [if isText then 0x60 + |content| else 0x40 + |content|] + content && |content| < 24
    ensures Lex(s) == Tok(if isText then TextString(content) else ByteString(content), |s|)
  {
    assert s[1..1 + |content|] == content;
  }

  lemma Strings(cfg: Config)
    requires !cfg.byteStr && !cfg.textStr && cfg.unsafeText
    ensures Gives(cfg, [0x40], ByteStr([])) && Gives(cfg, [0x42, 0x01, 0x02], ByteStr([1, 2]))
    ensures Gives(cfg, [0x60], TextStr([])) && Gives(cfg, [0x62, 0x61, 0x62], TextStr(['a' as int, 'b' as int]))
  {
    ShortString([0x40], [], false);
    ShortString([0x42, 0x01, 0x02], [1, 2], false);
    ShortString([0x60], [], true);
    ShortString([0x62, 0x61, 0x62], [0x61, 0x62], true);
    OneToken(cfg, [0x40], ByteString([]), ByteStr([]));
    OneToken(cfg, [0x42, 0x01, 0x02], ByteString([1, 2]), ByteStr([1, 2]));
    OneToken(cfg, [0x60], TextString([]), TextStr([]));
    OneToken(cfg, [0x62, 0x61, 0x62], TextString([0x61, 0x62]), TextStr([0x61, 0x62]));
    hide Gives;
  }

  /** The tags of stringref (25, 256), value sharing (28, 29) and self-described CBOR (55799) as they stand in data. */
  lemma RegisteredTags()
    ensures Write(TagHead(TAG_STRING_REF)) == [0xd8, 0x19] && Write(TagHead(TAG_STRING_REF_NS)) == [0xd9, 0x01, 0x00]
    ensures Write(TagHead(TAG_SHAREABLE)) == [0xd8, 0x1c] && Write(TagHead(TAG_SHARED_REF)) == [0xd8, 0x1d]
    ensures Write(TagHead(TAG_SELF_DESCRIBE)) == [0xd9, 0xd9, 0xf7]
  {
    BigEndian2(TAG_STRING_REF);
    BigEndian2(TAG_SHAREABLE);
    BigEndian2(TAG_SHARED_REF);
    BigEndian2(TAG_STRING_REF_NS);
    BigEndian2(TAG_SELF_DESCRIBE);
    hide ToBigEndian;
  }
}
