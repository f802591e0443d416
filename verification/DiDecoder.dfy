/**
 The low-level reader of di_decoder.c, with its length accounting: each reader reports the bytes it
 took (`readLen`) or the bytes it would need (`reqLen`, computed in 64 bits, 0 for a head that is
 malformed). `NextToken` is the reading half of `dec_item`, which maps these reports to "truncated"
 and "malformed". `Wire` says what a head means without this accounting.
 */
module DiDecoder {
  import opened Bytes
  import opened Wire
  import opened Wrappers

  datatype Kind =
    | DiUint | DiNint | DiBstr | DiTstr | DiArray | DiMap | DiTag
    | DiFalse | DiTrue | DiNull | DiUndef | DiSimple0 | DiSimple8
    | DiFloat16 | DiFloat32 | DiFloat64 | DiBreak | DiReserved

  /** `cbor_di_get_type` */
  function GetType(data: bytes): Kind
    requires data != []
  {
    var major := data[0] / 32;
    var info := data[0] % 32;
    if major == 0 then DiUint
    else if major == 1 then DiNint
    else if major == 2 then DiBstr
    else if major == 3 then DiTstr
    else if major == 4 then DiArray
    else if major == 5 then DiMap
    else if major == 6 then DiTag
    else if info == 20 then DiFalse
    else if info == 21 then DiTrue
    else if info == 22 then DiNull
    else if info == 23 then DiUndef
    else if info == 24 then DiSimple8
    else if info == 25 then DiFloat16
    else if info == 26 then DiFloat32
    else if info == 27 then DiFloat64
    else if info == 31 then DiBreak
    else if info < 20 then DiSimple0
    else DiReserved
  }

  // ----- Length accounting -----

  /** The outcome of a reader, `SET_OUT_LEN` and `ADD_OUT_LEN` included. */
  datatype Report = Report(ok: bool, readLen: nat, reqLen: uint64)

  const FAILED := Report(false, 0, 0)

  /** `SET_OUT_LEN`: the head has `n` bytes behind its initial byte. */
  function SetOutLen(n: nat, len: nat): (r: Report)
    ensures r.ok <==> 1 + n <= len
    ensures r.readLen == if r.ok then 1 + n else 0
    ensures n < 9 ==> !r.ok ==> r.reqLen == 1 + n
  {
    if len == 0 || n > len - 1 then Report(false, 0, (1 + n) % UINT64_LIMIT) else Report(true, 1 + n, 0)
  }

  /**
   `ADD_OUT_LEN`: `n` more bytes belong to the item, `read` of `len` having been read. No buffer
   holds 2^64 bytes.
   */
  function AddOutLen(n: nat, len: nat, read: nat): (r: Report)
    requires read <= len
    ensures r.ok <==> read + n <= len && read + n < UINT64_LIMIT
    ensures r.readLen == if r.ok then read + n else 0
    ensures !r.ok ==> (r.reqLen == 0 <==> (read + n) % UINT64_LIMIT == 0)
  {
    if n > len - read || read + n >= UINT64_LIMIT then Report(false, 0, (read + n) % UINT64_LIMIT)
    else Report(true, read + n, 0)
  }

  // ----- The bytes of the argument -----

  function Read1(data: bytes): (n: nat)
    requires |data| >= 2
    ensures n == BigEndian(data[1..2])
  {
    assert data[1..2][..0] == [];
    data[1]
  }

  function Read2(data: bytes): (n: nat)
    requires |data| >= 3
    ensures n == BigEndian(data[1..3])
  {
    assert data[1..3][..1] == data[1..2];
    Read1(data) * 0x100 + data[2]
  }

  function Read4(data: bytes): (n: nat)
    requires |data| >= 5
    ensures n == BigEndian(data[1..5])
  {
    assert data[1..4][..2] == data[1..3];
    assert BigEndian(data[1..4]) == Read2(data) * 0x100 + data[3];
    assert data[1..5][..3] == data[1..4];
    var b1: nat, b2: nat, b3: nat, b4: nat := data[1], data[2], data[3], data[4];
    b1 * 0x100_0000 + b2 * 0x1_0000 + b3 * 0x100 + b4
  }

  function Read8(data: bytes): (n: nat)
    requires |data| >= 9
    ensures n == BigEndian(data[1..9])
  {
    assert data[1..6][..4] == data[1..5];
    assert data[1..7][..5] == data[1..6];
    assert data[1..8][..6] == data[1..7];
    assert data[1..9][..7] == data[1..8];
    assert BigEndian(data[1..7]) == (Read4(data) * 0x100 + data[5]) * 0x100 + data[6];
    assert BigEndian(data[1..9]) == (BigEndian(data[1..7]) * 0x100 + data[7]) * 0x100 + data[8];
    var b5: nat, b6: nat, b7: nat, b8: nat := data[5], data[6], data[7], data[8];
    Read4(data) * 0x1_0000_0000 + b5 * 0x100_0000 + b6 * 0x1_0000 + b7 * 0x100 + b8
  }

  // ----- Readers -----

  /** What a report says about the argument of the head of `data`. */
  ghost predicate Reports(data: bytes, r: Report, n: nat)
    requires data != []
  {
    match ReadArg(data)
    case ArgOk(m, len) => r.ok && n == m && r.readLen == len
    case ArgTruncated => !r.ok && r.readLen == 0 && r.reqLen != 0 && r.reqLen > |data|
    case _ => r == FAILED
  }

  /** `cbor_di_read_int` */
  method ReadInt(data: bytes) returns (r: Report, n: nat)
    requires data != []
    ensures Reports(data, r, n)
  {
    var info := data[0] % 32;
    n := 0;
    if info <= 23 {
      r, n := SetOutLen(0, |data|), info;
      return;
    }
    if info == 24 {
      r := SetOutLen(1, |data|);
      if r.ok { n := Read1(data); }
    } else if info == 25 {
      r := SetOutLen(2, |data|);
      if r.ok { n := Read2(data); }
    } else if info == 26 {
      r := SetOutLen(4, |data|);
      if r.ok { n := Read4(data); }
    } else if info == 27 {
      r := SetOutLen(8, |data|);
      if r.ok { n := Read8(data); }
    } else {
      r := FAILED;
    }
  }

  /** `cbor_di_read_list`: a count, or the mark of indefinite length. */
  method ReadList(data: bytes) returns (r: Report, n: nat, isIndef: bool)
    requires data != []
    ensures if ReadArg(data).ArgIndef? then r.ok && r.readLen == 1 && isIndef
            else !isIndef && Reports(data, r, n)
  {
    if data[0] % 32 == 31 {
      r, n, isIndef := SetOutLen(0, |data|), 0, true;
    } else {
      r, n := ReadInt(data);
      isIndef := false;
    }
  }

  /** What a report says about a string head and its content; no content for an indefinite length. */
  ghost predicate ReportsString(data: bytes, r: Report, content: Option<bytes>)
    requires data != []
  {
    match ReadArg(data)
    case ArgOk(n, len) =>
      if len + n <= |data| && len + n < UINT64_LIMIT then
        r.ok && r.readLen == len + n && content == Some(data[len..len + n])
      else !r.ok && r.readLen == 0 && (r.reqLen == 0 <==> (len + n) % UINT64_LIMIT == 0)
    case ArgIndef => r.ok && r.readLen == 1 && content.None?
    case ArgTruncated => !r.ok && r.readLen == 0 && r.reqLen != 0
    case ArgReserved => r == FAILED
  }

  /** `cbor_di_read_str`; the caller has set the read length to 1, which stands for an indefinite length. */
  method ReadStr(data: bytes) returns (r: Report, content: Option<bytes>)
    requires data != []
    ensures ReportsString(data, r, content)
  {
    content := None;
    if data[0] % 32 == 31 {
      r := AddOutLen(0, |data|, 1);
      return;
    }
    var strLen;
    r, strLen := ReadInt(data);
    if r.ok {
      var start := r.readLen;
      r := AddOutLen(strLen, |data|, start);
      if r.ok {
        content := Some(data[start..start + strLen]);
      }
    }
  }

  /** `cbor_di_read_float`, for the three widths of a float. */
  method ReadFloat(data: bytes) returns (r: Report, raw: nat)
    requires data != [] && data[0] % 32 in {25, 26, 27}
    ensures Reports(data, r, raw)
  {
    raw := 0;
    if data[0] % 32 == 25 {
      r := SetOutLen(2, |data|);
      if r.ok { raw := Read2(data); }
    } else if data[0] % 32 == 26 {
      r := SetOutLen(4, |data|);
      if r.ok { raw := Read4(data); }
    } else {
      r := SetOutLen(8, |data|);
      if r.ok { raw := Read8(data); }
    }
  }

  /** The label `DI_FAILURE` of `dec_item`. */
  function Failure(r: Report): Lexed {
    if r.reqLen != 0 then LexTruncated else LexMalformed
  }

  /**
   The reading half of `dec_item`: the token, or why there is none. `readLen` is the number of bytes
   to step over, also where a complete head is refused.
   */
  method NextToken(data: bytes) returns (lexed: Lexed, readLen: nat)
    requires data != []
    ensures lexed == Lex(data)
    ensures readLen <= |data|
    ensures lexed.Tok? ==> readLen == lexed.len
    ensures lexed.LexTruncated? ==> readLen == 0
  {
    var kind := GetType(data);
    ReadArgBoundIfAny(data);
    if kind in {DiUint, DiNint, DiTag, DiSimple0} {
      var r, n := ReadInt(data);
      readLen := r.readLen;
      lexed := if !r.ok then Failure(r)
               else Tok(if kind == DiUint then UInt(n) else if kind == DiNint then NInt(n)
                        else if kind == DiTag then TagHead(n) else Simple(n), readLen);
    } else if kind in {DiBstr, DiTstr} {
      var r, content := ReadStr(data);
      readLen := r.readLen;
      lexed := if !r.ok then Failure(r)
               else if content.Some? then
                 Tok(if kind == DiTstr then TextString(content.value) else ByteString(content.value), readLen)
               else Tok(if kind == DiTstr then TextStart else ByteStart, readLen);
    } else if kind in {DiArray, DiMap} {
      var r, n, isIndef := ReadList(data);
      readLen := r.readLen;
      lexed := if !r.ok then Failure(r)
               else if isIndef then Tok(if kind == DiMap then MapStart else ArrayStart, readLen)
               else if n > 0xffff_ffff then LexTooMany
               else Tok(if kind == DiMap then Map(n) else Array(n), readLen);
    } else if kind == DiSimple8 {
      var r, n := ReadInt(data);
      readLen := r.readLen;
      lexed := if !r.ok then Failure(r) else if n <= 31 then LexMalformed else Tok(Simple(n), readLen);
    } else if kind in {DiFloat16, DiFloat32, DiFloat64} {
      var r, raw := ReadFloat(data);
      readLen := r.readLen;
      lexed := if !r.ok then Failure(r)
               else Tok(if kind == DiFloat16 then Float16(raw) else if kind == DiFloat32 then Float32(raw)
                        else Float64(raw), readLen);
    } else if kind == DiReserved {
      lexed, readLen := LexMalformed, 0;
    } else {
      readLen := 1;
      lexed := Tok(match kind
                   case DiFalse => False
                   case DiTrue => True
                   case DiNull => Null
                   case DiUndef => Undefined
                   case _ => Break, readLen);
    }
  }

  lemma ReadArgBoundIfAny(data: bytes)
    requires data != []
    ensures ReadArg(data).ArgOk? ==>
              && ReadArg(data).n < UINT64_LIMIT
              && (data[0] % 32 == 25 ==> ReadArg(data).n < 0x1_0000)
              && (data[0] % 32 == 26 ==> ReadArg(data).n < UINT32_LIMIT)
  {
    if ReadArg(data).ArgOk? {
      ReadArgBound(data);
    }
  }
}
