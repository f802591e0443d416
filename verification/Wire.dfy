/**
 The wire format of one data item head (section 3 of RFC 8949): the head writer of
 di_encoder.c, and the head reader of di_decoder.c with its length accounting and the
 truncated/malformed distinction of decode_base.h.
 */
module Wire {
  import opened Bytes

  /** One step of the byte stream: a head, together with the content of a definite-length string. */
  datatype Token =
    | UInt(n: nat)
    | NInt(n: nat)  // stands for -1 - n
    | ByteString(s: bytes)
    | TextString(s: bytes)
    | ByteStart
    | TextStart
    | Array(count: nat)
    | ArrayStart
    | Map(count: nat)
    | MapStart
    | TagHead(id: nat)
    | False
    | True
    | Null
    | Undefined
    | Simple(n: nat)
    | Float16(raw16: uint16)
    | Float32(raw32: uint32)
    | Float64(raw64: uint64)
    | Break

  // ----- Reading -----

  /** The argument of a head, or why there is none. */
  datatype Arg = ArgOk(n: nat, len: nat) | ArgIndef | ArgTruncated | ArgReserved

  /** Width in bytes of the argument that follows the initial byte. */
  function ArgWidth(info: nat): (k: nat)
    requires 24 <= info <= 27
    ensures k in {1, 2, 4, 8}
  {
    if info == 24 then 1 else if info == 25 then 2 else if info == 26 then 4 else 8
  }

  function ReadArg(s: bytes): (a: Arg)
    requires s != []
    ensures a.ArgOk? ==> 1 <= a.len <= |s|
  {
    var info := s[0] % 32;
    if info <= 23 then ArgOk(info, 1)
    else if info <= 27 then
      var k := ArgWidth(info);
      if |s| < 1 + k then ArgTruncated else ArgOk(BigEndian(s[1..1 + k]), 1 + k)
    else if info == 31 then ArgIndef
    else ArgReserved
  }

  /** An argument fits its width. */
  lemma ReadArgBound(s: bytes)
    requires s != [] && ReadArg(s).ArgOk?
    ensures ReadArg(s).n < UINT64_LIMIT
    ensures s[0] % 32 == 24 ==> ReadArg(s).n < 0x100
    ensures s[0] % 32 == 25 ==> ReadArg(s).n < 0x1_0000
    ensures s[0] % 32 == 26 ==> ReadArg(s).n < UINT32_LIMIT
  {
    Pow256Values();
    if 24 <= s[0] % 32 {
      BigEndianBound(s[1..ReadArg(s).len]);
    }
  }

  datatype Lexed = Tok(tok: Token, len: nat) | LexTruncated | LexMalformed | LexTooMany

  /** A number head: indefinite length has no meaning there. */
  function LexNumber(s: bytes, make: nat -> Token): (r: Lexed)
    requires s != []
    ensures r.Tok? ==> 1 <= r.len <= |s|
  {
    match ReadArg(s)
    case ArgOk(n, len) => Tok(make(n), len)
    case ArgTruncated => LexTruncated
    case _ => LexMalformed
  }

  /**
   A string head with its content. No buffer holds 2^64 bytes. The required length is computed in
   64 bits and a required length of 0 means "malformed", so one particular string length is
   reported otherwise than the rest.
   */
  function LexString(s: bytes, isText: bool): (r: Lexed)
    requires s != []
    ensures r.Tok? ==> 1 <= r.len <= |s|
  {
    match ReadArg(s)
    case ArgOk(n, len) =>
      if n > |s| - len || len + n >= UINT64_LIMIT then
        if (len + n) % UINT64_LIMIT == 0 then LexMalformed else LexTruncated
      else Tok(if isText then TextString(s[len..len + n]) else ByteString(s[len..len + n]), len + n)
    case ArgIndef => Tok(if isText then TextStart else ByteStart, 1)
    case ArgTruncated => LexTruncated
    case ArgReserved => LexMalformed
  }

  /** An array or map head; counts over 32 bits are refused. */
  function LexContainer(s: bytes, isMap: bool): (r: Lexed)
    requires s != []
    ensures r.Tok? ==> 1 <= r.len <= |s|
  {
    match ReadArg(s)
    case ArgOk(n, len) =>
      if n >= UINT32_LIMIT then LexTooMany else Tok(if isMap then Map(n) else Array(n), len)
    case ArgIndef => Tok(if isMap then MapStart else ArrayStart, 1)
    case ArgTruncated => LexTruncated
    case ArgReserved => LexMalformed
  }

  /** Major type 7: simple values, floats and break. */
  function LexSimple(s: bytes): (r: Lexed)
    requires s != []
    ensures r.Tok? ==> 1 <= r.len <= |s|
  {
    var info := s[0] % 32;
    if info < 20 then Tok(Simple(info), 1)
    else if info == 20 then Tok(False, 1)
    else if info == 21 then Tok(True, 1)
    else if info == 22 then Tok(Null, 1)
    else if info == 23 then Tok(Undefined, 1)
    else if info == 31 then Tok(Break, 1)
    else
      match ReadArg(s)
      case ArgOk(n, len) =>
        ReadArgBound(s);
        if info == 24 then (if n <= 31 then LexMalformed else Tok(Simple(n), len))
        else Tok(if info == 25 then Float16(n) else if info == 26 then Float32(n) else Float64(n), len)
      case ArgTruncated => LexTruncated
      case _ => LexMalformed
  }

  /** The next token of `s`. */
  function Lex(s: bytes): (r: Lexed)
    ensures r.Tok? ==> 1 <= r.len <= |s|
  {
    if s == [] then LexTruncated
    else
      var major := s[0] / 32;
      if major == 0 then LexNumber(s, (n: nat) => UInt(n))
      else if major == 1 then LexNumber(s, (n: nat) => NInt(n))
      else if major == 2 then LexString(s, false)
      else if major == 3 then LexString(s, true)
      else if major == 4 then LexContainer(s, false)
      else if major == 5 then LexContainer(s, true)
      else if major == 6 then LexNumber(s, (n: nat) => TagHead(n))
      else LexSimple(s)
  }

  /** More items may follow as part of the one that the token starts. */
  predicate Opens(tok: Token) {
    || tok.ByteStart? || tok.TextStart? || tok.Array? || tok.ArrayStart? || tok.Map? || tok.MapStart? || tok.TagHead?
  }

  lemma BreakLength(s: bytes)
    ensures Lex(s).Tok? && Lex(s).tok.Break? ==> Lex(s).len == 1
  {
  }

  // ----- Writing -----

  /** The shortest head for `major` and argument `n`. */
  function WriteHead(major: nat, n: nat): (s: bytes)
    requires major < 8
    ensures 1 <= |s| <= 9
  {
    if n <= 23 then [major * 32 + n]
    else if n <= 0xff then [major * 32 + 24] + ToBigEndian(n, 1)
    else if n <= 0xffff then [major * 32 + 25] + ToBigEndian(n, 2)
    else if n <= 0xffff_ffff then [major * 32 + 26] + ToBigEndian(n, 4)
    else [major * 32 + 27] + ToBigEndian(n, 8)
  }

  /** The tokens an encoder may write, that is, those within the ranges of the format. */
  predicate Writable(t: Token) {
    match t
    case UInt(n) => n < UINT64_LIMIT
    case NInt(n) => n < UINT64_LIMIT
    case ByteString(s) => |s| < UINT64_LIMIT - 9
    case TextString(s) => |s| < UINT64_LIMIT - 9
    case Array(n) => n < UINT32_LIMIT
    case Map(n) => n < UINT32_LIMIT
    case TagHead(n) => n < UINT64_LIMIT
    case Simple(n) => n < 20 || 32 <= n < 256
    case _ => true
  }

  function Write(t: Token): (s: bytes)
    ensures s != []
  {
    match t
    case UInt(n) => WriteHead(0, n)
    case NInt(n) => WriteHead(1, n)
    case ByteString(s) => WriteHead(2, |s|) + s
    case TextString(s) => WriteHead(3, |s|) + s
    case ByteStart => [0x5f]
    case TextStart => [0x7f]
    case Array(n) => WriteHead(4, n)
    case ArrayStart => [0x9f]
    case Map(n) => WriteHead(5, n)
    case MapStart => [0xbf]
    case TagHead(n) => WriteHead(6, n)
    case False => [0xf4]
    case True => [0xf5]
    case Null => [0xf6]
    case Undefined => [0xf7]
    case Simple(n) => if n < 24 then [0xe0 + n] else [0xf8, n % 256]
    case Float16(raw) => [0xf9] + ToBigEndian(raw, 2)
    case Float32(raw) => [0xfa] + ToBigEndian(raw, 4)
    case Float64(raw) => [0xfb] + ToBigEndian(raw, 8)
    case Break => [0xff]
  }

  // ----- Properties -----

  /** A head written with a `k`-byte argument is read back. */
  lemma ReadArgOfWidth(ini: byte, k: nat, n: nat, tail: bytes)
    requires 24 <= ini % 32 <= 27 && k == ArgWidth(ini % 32) && n < Pow256(k)
    ensures ReadArg([ini] + ToBigEndian(n, k) + tail) == ArgOk(n, 1 + k)
  {
    var s := [ini] + ToBigEndian(n, k) + tail;
    assert s[1..1 + k] == ToBigEndian(n, k);
    BigEndianRoundTrip(n, k);
  }

  lemma HeadRoundTrip(major: nat, n: nat, tail: bytes)
    requires major < 8 && n < UINT64_LIMIT
    ensures var s := WriteHead(major, n) + tail;
            s[0] / 32 == major && ReadArg(s) == ArgOk(n, |WriteHead(major, n)|)
  {
    hide Pow256, BigEndian, ToBigEndian;
    Pow256Values();
    if 23 < n {
      var info := if n <= 0xff then 24 else if n <= 0xffff then 25 else if n <= 0xffff_ffff then 26 else 27;
      ReadArgOfWidth(major * 32 + info, ArgWidth(info), n, tail);
    }
  }

  /** Every written token is read back, whatever follows it: tokens are self-delimiting. */
  lemma TokenRoundTrip(t: Token, tail: bytes)
    requires Writable(t)
    ensures Lex(Write(t) + tail) == Tok(t, |Write(t)|)
  {
    Pow256Values();
    var s := Write(t) + tail;
    match t
    case UInt(n) => HeadRoundTrip(0, n, tail);
    case NInt(n) => HeadRoundTrip(1, n, tail);
    case ByteString(b) => StringRoundTrip(b, false, tail);
    case TextString(b) => StringRoundTrip(b, true, tail);
    case Array(n) => HeadRoundTrip(4, n, tail);
    case Map(n) => HeadRoundTrip(5, n, tail);
    case TagHead(n) => HeadRoundTrip(6, n, tail);
    case Simple(n) =>
      if n >= 24 {
        assert s[1..2] == [n];
        assert BigEndian([n]) == BigEndian([]) * 256 + n;
      }
    case Float16(raw) => ReadArgOfWidth(0xf9, 2, raw, tail);
    case Float32(raw) => ReadArgOfWidth(0xfa, 4, raw, tail);
    case Float64(raw) => ReadArgOfWidth(0xfb, 8, raw, tail);
    case _ =>
  }

  lemma StringRoundTrip(b: bytes, isText: bool, tail: bytes)
    requires |b| < UINT64_LIMIT - 9
    ensures var t := if isText then TextString(b) else ByteString(b);
            Lex(Write(t) + tail) == Tok(t, |Write(t)|)
  {
    var major := if isText then 3 else 2;
    var head := WriteHead(major, |b|);
    HeadRoundTrip(major, |b|, b + tail);
    assert head + b + tail == head + (b + tail);
    assert (head + (b + tail))[|head|..|head| + |b|] == b;
  }

  /** No shorter head carries the same argument (section 4.1 of RFC 8949). */
  lemma HeadIsShortest(major: nat, n: nat, s: bytes)
    requires major < 8 && s != [] && ReadArg(s).ArgOk? && ReadArg(s).n == n
    ensures |WriteHead(major, n)| <= ReadArg(s).len
  {
    ReadArgBound(s);
  }

  /** A token that was read, or refused for another reason than truncation, stays so when more bytes follow. */
  lemma LexExtends(s: bytes, more: bytes)
    requires Lex(s) != LexTruncated
    ensures Lex(s + more) == Lex(s)
  {
    ReadArgExtends(s, more);
    match ReadArg(s)
    case ArgOk(n, len) =>
      if s[0] / 32 in {2, 3} && n <= |s| - len {
        assert (s + more)[len..len + n] == s[len..len + n];
      }
    case _ =>
  }

  lemma ReadArgExtends(s: bytes, more: bytes)
    requires s != [] && ReadArg(s) != ArgTruncated
    ensures ReadArg(s + more) == ReadArg(s)
  {
    if 24 <= s[0] % 32 <= 27 {
      var k := ArgWidth(s[0] % 32);
      assert (s + more)[1..1 + k] == s[1..1 + k];
    }
  }

  // ----- Truncated exactly when incomplete -----

  predicate Complete(r: Lexed) { r.Tok? || r.LexTooMany? }

  /** The one string head whose required length, header included, is 2^64 and wraps to 0. */
  predicate RequiredLengthWraps(s: bytes) {
    && s != [] && s[0] / 32 in {2, 3}
    && ReadArg(s) == ArgOk(UINT64_LIMIT - 9, 9)
  }

  /** A string head that asks for more bytes than any buffer holds. */
  predicate Oversized(s: bytes) {
    && s != [] && s[0] / 32 in {2, 3} && ReadArg(s).ArgOk?
    && ReadArg(s).len + ReadArg(s).n >= UINT64_LIMIT
  }

  /** `s` is not a complete head and content yet, but some continuation of it is. */
  ghost predicate Incomplete(s: bytes) {
    !Complete(Lex(s)) && exists more: bytes :: Complete(Lex(s + more))
  }

  /** The argument bytes a truncated head still lacks. */
  function MissingArg(s: bytes): bytes
    requires s != [] && ReadArg(s).ArgTruncated?
  {
    seq(ArgWidth(s[0] % 32) + 1 - |s|, _ => if s[0] == 0xf8 then 32 else 0)
  }

  lemma MissingArgCompletes(s: bytes)
    requires s != [] && ReadArg(s).ArgTruncated?
    ensures ReadArg(s + MissingArg(s)).ArgOk?
    ensures s[0] == 0xf8 ==> ReadArg(s + MissingArg(s)).n == 32
    ensures ReadArg(s + MissingArg(s)).n < UINT64_LIMIT - 9
  {
    var k := ArgWidth(s[0] % 32);
    var t := (s + MissingArg(s))[1..1 + k];
    assert t[k - 1] == if s[0] == 0xf8 then 32 else 0;
    BigEndianBound(t[..k - 1]);
    Pow256Values();
    assert Pow256(8) == 256 * Pow256(7);
    if s[0] == 0xf8 {
      assert t[..0] == [];
    }
  }

  lemma MissingContentCompletes(s: bytes) returns (more: bytes)
    requires s != [] && s[0] / 32 in {2, 3} && ReadArg(s).ArgOk? && !Oversized(s)
    ensures Complete(Lex(s + more))
  {
    more := seq(ReadArg(s).n, _ => 0 as byte);
    ReadArgExtends(s, more);
  }

  lemma StringCompletes(s: bytes) returns (more: bytes)
    requires s != [] && s[0] / 32 in {2, 3} && ReadArg(s).ArgTruncated?
    ensures Complete(Lex(s + more))
  {
    MissingArgCompletes(s);
    more := MissingContentCompletes(s + MissingArg(s));
    assert s + MissingArg(s) + more == s + (MissingArg(s) + more);
    more := MissingArg(s) + more;
  }

  lemma HeadCompletes(s: bytes)
    requires s != [] && s[0] / 32 !in {2, 3} && Lex(s) == LexTruncated
    ensures Complete(Lex(s + MissingArg(s)))
  {
    MissingArgCompletes(s);
    assert (s + MissingArg(s))[0] == s[0];
  }

  lemma TruncatedCompletes(s: bytes) returns (more: bytes)
    requires Lex(s) == LexTruncated && !Oversized(s)
    ensures Complete(Lex(s + more))
  {
    if s == [] {
      more := [0xf6];
    } else if s[0] / 32 !in {2, 3} {
      HeadCompletes(s);
      more := MissingArg(s);
    } else if ReadArg(s).ArgTruncated? {
      more := StringCompletes(s);
    } else {
      more := MissingContentCompletes(s);
    }
  }

  lemma MalformedStays(s: bytes, more: bytes)
    requires Lex(s) == LexMalformed && !RequiredLengthWraps(s)
    ensures Lex(s + more) == LexMalformed
  {
    ReadArgExtends(s, more);
    Pow256Values();
    if 24 <= s[0] % 32 <= 27 {
      BigEndianBound(s[1..1 + ArgWidth(s[0] % 32)]);
    }
  }

  lemma OversizedStays(s: bytes, more: bytes)
    requires Oversized(s)
    ensures !Complete(Lex(s + more))
    ensures Lex(s) == if RequiredLengthWraps(s) then LexMalformed else LexTruncated
  {
    ReadArgExtends(s, more);
    Pow256Values();
    if 24 <= s[0] % 32 <= 27 {
      BigEndianBound(s[1..1 + ArgWidth(s[0] % 32)]);
    }
  }

  /**
   The reader says "truncated" for exactly the incomplete inputs and, except for the one length
   that wraps, for strings that can never be completed.
   */
  lemma TruncatedIffIncomplete(s: bytes)
    ensures Lex(s) == LexTruncated <==> Incomplete(s) || (Oversized(s) && !RequiredLengthWraps(s))
  {
    if Oversized(s) {
      forall more: bytes ensures !Complete(Lex(s + more)) {
        OversizedStays(s, more);
      }
      OversizedStays(s, []);
    } else if Lex(s) == LexTruncated {
      var more := TruncatedCompletes(s);
    } else if Incomplete(s) {
      var more: bytes :| Complete(Lex(s + more));
      MalformedStays(s, more);
    }
  }
}
