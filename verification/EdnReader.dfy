/**
 A reader of diagnostic notation (section 8 of RFC 8949 and appendix G of RFC 8610) that knows no options of the
 printer. Whatever well-formed item is printed, under all options, is read back as what the item means.
 */
module EdnReader {
  import opened Bytes
  import opened Wrappers
  import opened Wire
  import opened EdnStrings
  import opened EdnPrinter
  import EdnItems
  import EdnRefinement
  import AppendixC
  import DecimalInt
  import Floats
  import FloatValues
  import Utf8

  // ----- What the notation says -----

  datatype FloatNotation = Infinity(negative: bool) | NaN | Digits(text: bytes)

  datatype Notation =
    | Integer(i: int)
    | Boolean(b: bool)
    | Nothing
    | Undefined
    | Simple(n: nat)
    | Float(width: nat, value: FloatNotation)
    | String(s: bytes, isText: bool)
    | Stream(chunks: seq<bytes>, isText: bool)
    | Sequence(elems: seq<Notation>, indef: bool)
    | Mapping(members: seq<Entry>, indef: bool)
    | Tagged(id: nat, content: Notation)

  datatype Entry = Entry(key: Notation, val: Notation)

  // ----- Words -----

  predicate IsDigit(c: byte) { '0' as int <= c <= '9' as int }

  predicate IsWordChar(c: byte) {
    || IsDigit(c) || 'a' as int <= c <= 'z' as int || 'A' as int <= c <= 'Z' as int
    || c == '+' as int || c == '-' as int || c == '.' as int || c == '_' as int
  }

  function WordLength(t: bytes): (n: nat)
    ensures n <= |t|
  {
    if t != [] && IsWordChar(t[0]) then 1 + WordLength(t[1..]) else 0
  }

  predicate IsDecimal(w: bytes) { forall i :: 0 <= i < |w| ==> IsDigit(w[i]) }

  function Decimal(w: bytes): nat
    requires IsDecimal(w)
  {
    if w == [] then 0 else 10 * Decimal(w[..|w| - 1]) + (w[|w| - 1] - '0' as int)
  }

  function ReadInteger(w: bytes): Option<int> {
    if w != [] && IsDecimal(w) then Some(Decimal(w))
    else if |w| > 1 && w[0] == '-' as int && IsDecimal(w[1..]) then Some(0 as int - Decimal(w[1..]))
    else None
  }

  /** The digits of a number in floating-point notation. */
  predicate IsNumberText(w: bytes) {
    forall i :: 0 <= i < |w| ==>
      IsDigit(w[i]) || w[i] == '+' as int || w[i] == '-' as int || w[i] == '.' as int || w[i] == 'e' as int
  }

  /** Without a fraction of zero at the end. */
  function Plain(w: bytes): bytes {
    if |w| > 1 && w[|w| - 2] == '.' as int && w[|w| - 1] == '0' as int then w[..|w| - 2] else w
  }

  /** A float with its encoding indicator. */
  function ReadFloat(w: bytes): Option<Notation> {
    if |w| > 2 && w[|w| - 2] == '_' as int && '1' as int <= w[|w| - 1] <= '3' as int then
      var body, width := w[..|w| - 2], w[|w| - 1] - '0' as int;
      if body == Ascii("Infinity") then Some(Float(width, Infinity(false)))
      else if body == Ascii("-Infinity") then Some(Float(width, Infinity(true)))
      else if body == Ascii("NaN") then Some(Float(width, NaN))
      else if IsNumberText(body) && '.' as int in body then Some(Float(width, Digits(Plain(body))))
      else None
    else None
  }

  function ReadScalar(w: bytes): Option<Notation> {
    if w == Ascii("false") then Some(Boolean(false))
    else if w == Ascii("true") then Some(Boolean(true))
    else if w == Ascii("null") then Some(Nothing)
    else if w == Ascii("undefined") then Some(Notation.Undefined)
    else
      match ReadInteger(w)
      case Some(i) => Some(Integer(i))
      case None => ReadFloat(w)
  }

  // ----- Items -----

  /** An item, and what follows it. */
  function ReadItem(t: bytes): (r: Option<(Notation, bytes)>)
    ensures r.Some? ==> |r.value.1| < |t|
    decreases |t|, 3
  {
    var u := SkipSpace(t);
    if u == [] then None
    else if u[0] == '[' as int then ReadArray(u)
    else if u[0] == '{' as int then ReadMap(u)
    else if u[0] == '(' as int then ReadStream(u)
    else if u[0] == '"' as int || u[0] == '\'' as int || StartsHex(u) then ReadString(u)
    else ReadWord(u)
  }

  function ReadString(u: bytes): (r: Option<(Notation, bytes)>)
    requires u != []
    ensures r.Some? ==> |r.value.1| < |u|
    decreases |u|, 2
  {
    if |u| > 2 && u[..3] == Ascii("\"\"_") then Some((Stream([], true), u[3..]))
    else if |u| > 2 && u[..3] == Ascii("''_") then Some((Stream([], false), u[3..]))
    else
      match Read(u, Between)
      case Some((s, rest)) => if |rest| < |u| then Some((String(s, StartsText(u)), rest)) else None
      case None => None
  }

  /** What follows the opening bracket and the mark of indefinite length. */
  function Inside(u: bytes): (v: bytes)
    requires u != []
    ensures |v| < |u|
  {
    SkipSpace(u[if IsMarked(u) then 2 else 1..])
  }

  predicate IsMarked(u: bytes) { |u| > 1 && u[1] == '_' as int }

  function ReadArray(u: bytes): (r: Option<(Notation, bytes)>)
    requires u != []
    ensures r.Some? ==> |r.value.1| < |u|
    decreases |u|, 2
  {
    var v := Inside(u);
    if v != [] && v[0] == ']' as int then Some((Sequence([], IsMarked(u)), v[1..]))
    else
      match ReadElems(v)
      case Some((elems, rest)) => Some((Sequence(elems, IsMarked(u)), rest))
      case None => None
  }

  function ReadElems(t: bytes): (r: Option<(seq<Notation>, bytes)>)
    ensures r.Some? ==> |r.value.1| < |t|
    decreases |t|, 4
  {
    match ReadItem(t)
    case None => None
    case Some((x, rest)) =>
      var v := SkipSpace(rest);
      if v != [] && v[0] == ']' as int then Some(([x], v[1..]))
      else if v != [] && v[0] == ',' as int then
        match ReadElems(v[1..])
        case Some((xs, rest1)) => Some(([x] + xs, rest1))
        case None => None
      else None
  }

  function ReadMap(u: bytes): (r: Option<(Notation, bytes)>)
    requires u != []
    ensures r.Some? ==> |r.value.1| < |u|
    decreases |u|, 2
  {
    var v := Inside(u);
    if v != [] && v[0] == '}' as int then Some((Mapping([], IsMarked(u)), v[1..]))
    else
      match ReadMembers(v)
      case Some((members, rest)) => Some((Mapping(members, IsMarked(u)), rest))
      case None => None
  }

  function ReadMember(t: bytes): (r: Option<(Entry, bytes)>)
    ensures r.Some? ==> |r.value.1| < |t|
    decreases |t|, 4
  {
    match ReadItem(t)
    case None => None
    case Some((k, rest)) =>
      var v := SkipSpace(rest);
      if v != [] && v[0] == ':' as int then
        match ReadItem(v[1..])
        case Some((x, rest1)) => Some((Entry(k, x), rest1))
        case None => None
      else None
  }

  function ReadMembers(t: bytes): (r: Option<(seq<Entry>, bytes)>)
    ensures r.Some? ==> |r.value.1| < |t|
    decreases |t|, 5
  {
    match ReadMember(t)
    case None => None
    case Some((m, rest)) =>
      var v := SkipSpace(rest);
      if v != [] && v[0] == '}' as int then Some(([m], v[1..]))
      else if v != [] && v[0] == ',' as int then
        match ReadMembers(v[1..])
        case Some((ms, rest1)) => Some(([m] + ms, rest1))
        case None => None
      else None
  }

  function ReadStream(u: bytes): (r: Option<(Notation, bytes)>)
    requires u != []
    ensures r.Some? ==> |r.value.1| < |u|
    decreases |u|, 2
  {
    if !IsMarked(u) then None
    else
      var v := Inside(u);
      match ReadChunks(v, StartsText(v))
      case Some((chunks, rest)) => Some((Stream(chunks, StartsText(v)), rest))
      case None => None
  }

  /** Strings of one type. */
  function ReadChunks(t: bytes, isText: bool): (r: Option<(seq<bytes>, bytes)>)
    ensures r.Some? ==> |r.value.1| < |t|
    decreases |t|, 1
  {
    var u := SkipSpace(t);
    if !(if isText then StartsText(u) else StartsHex(u)) then None
    else
      match Read(u, Between)
      case None => None
      case Some((s, rest)) =>
        var v := SkipSpace(rest);
        if v != [] && v[0] == ')' as int then Some(([s], v[1..]))
        else if v != [] && v[0] == ',' as int then
          match ReadChunks(v[1..], isText)
          case Some((ss, rest1)) => Some(([s] + ss, rest1))
          case None => None
        else None
  }

  /** A number, a name, or something in parentheses behind one of them. */
  function ReadWord(u: bytes): (r: Option<(Notation, bytes)>)
    requires u != []
    ensures r.Some? ==> |r.value.1| < |u|
    decreases |u|, 2
  {
    var n := WordLength(u);
    var w, rest := u[..n], u[n..];
    if n == 0 then None
    else if rest != [] && rest[0] == '(' as int then
      match ReadItem(rest[1..])
      case None => None
      case Some((x, rest1)) =>
        var v := SkipSpace(rest1);
        if v != [] && v[0] == ')' as int && Applied(w, x).Some? then Some((Applied(w, x).value, v[1..])) else None
    else
      match ReadScalar(w)
      case Some(x) => Some((x, rest))
      case None => None
  }

  function Applied(w: bytes, x: Notation): Option<Notation> {
    if w == Ascii("simple") then (if x.Integer? && x.i >= 0 then Some(Notation.Simple(x.i)) else None)
    else if IsDecimal(w) then Some(Notation.Tagged(Decimal(w), x))
    else None
  }

  // ----- What an item means -----

  predicate IsFloatToken(t: Token) { t.Float16? || t.Float32? || t.Float64? }

  /** The value of a float, in the format that it has. */
  function ValueOf(tok: Token): FloatValues.FloatValue
    requires IsFloatToken(tok)
  {
    match tok
    case Float16(raw) => FloatValues.Denoted(FloatValues.BINARY16, Floats.Unpack16(raw))
    case Float32(raw) => FloatValues.Denoted(FloatValues.BINARY32, Floats.Unpack32(raw))
    case Float64(raw) => FloatValues.Denoted(FloatValues.BINARY64, Floats.Unpack64(raw))
  }

  function FloatMeaning(cfg: EdnConfig, tok: Token, v: FloatValues.FloatValue): FloatNotation {
    match v
    case Infinite(negative) => Infinity(negative)
    case NotANumber(_, _) => NaN
    case Finite(_, _) => Digits(Plain(cfg.digits(tok)))
  }

  function ScalarMeaning(cfg: EdnConfig, tok: Token): Notation
    requires EdnPrinter.IsScalarToken(tok)
  {
    match tok
    case UInt(n) => Integer(n)
    case NInt(n) => Integer(-1 - n)
    case False => Boolean(false)
    case True => Boolean(true)
    case Null => Nothing
    case Undefined => Notation.Undefined
    case Simple(n) => Notation.Simple(n)
    case Float16(_) => Float(1, FloatMeaning(cfg, tok, ValueOf(tok)))
    case Float32(_) => Float(2, FloatMeaning(cfg, tok, ValueOf(tok)))
    case Float64(_) => Float(3, FloatMeaning(cfg, tok, ValueOf(tok)))
  }

  function Meaning(cfg: EdnConfig, item: Item): Notation
    requires WellFormed(item)
    decreases item
  {
    match item
    case Scalar(tok) => ScalarMeaning(cfg, tok)
    case Text(s) => String(s, true)
    case ByteStr(s) => String(s, false)
    case Chunks(chunks, isText) => Stream(chunks, isText)
    case Arr(elems, indef) => Sequence(Meanings(cfg, elems), indef)
    case Dict(members, indef) => Mapping(EntriesOf(cfg, members), indef)
    case Tagged(id, content) => Notation.Tagged(id, Meaning(cfg, content))
  }

  function Meanings(cfg: EdnConfig, elems: seq<Item>): seq<Notation>
    requires forall i :: 0 <= i < |elems| ==> WellFormed(elems[i])
    decreases elems
  {
    if elems == [] then [] else [Meaning(cfg, elems[0])] + Meanings(cfg, elems[1..])
  }

  function EntriesOf(cfg: EdnConfig, members: seq<Member>): seq<Entry>
    requires forall i :: 0 <= i < |members| ==> WellFormed(members[i].key) && WellFormed(members[i].val)
    decreases members
  {
    if members == [] then [] else [EntryOf(cfg, members[0])] + EntriesOf(cfg, members[1..])
  }

  function EntryOf(cfg: EdnConfig, m: Member): Entry
    requires WellFormed(m.key) && WellFormed(m.val)
    decreases m
  {
    Entry(Meaning(cfg, m.key), Meaning(cfg, m.val))
  }

  /** `zend_gcvt` gives digits, a sign, a point, and an exponent. */
  ghost predicate DigitsOk(cfg: EdnConfig) { forall tok :: cfg.digits(tok) != [] && IsNumberText(cfg.digits(tok)) }

  // ----- White space -----

  /** Nothing that would belong to the item in front. */
  predicate Ends(tail: bytes) {
    var u := SkipSpace(tail);
    u == [] || u[0] == ',' as int || u[0] == ':' as int || u[0] == ')' as int || u[0] == ']' as int || u[0] == '}' as int
  }

  lemma {:induction false} Skipped(t: bytes)
    ensures SkipSpace(SkipSpace(t)) == SkipSpace(t)
    ensures SkipSpace(t) == [] || !IsSpace(SkipSpace(t)[0])
  {
    if t != [] && IsSpace(t[0]) {
      Skipped(t[1..]);
    }
  }

  lemma NotSpace(t: bytes)
    requires t != [] && !IsSpace(t[0])
    ensures SkipSpace(t) == t
  {
  }

  lemma SpaceBefore(nl: bytes, t: bytes)
    requires AllSpace(nl)
    ensures ReadItem(nl + t) == ReadItem(t) && ReadItem(SkipSpace(t)) == ReadItem(t)
  {
    SpaceSkipped(nl, t);
    Skipped(t);
    hide ReadArray, ReadMap, ReadStream, ReadString, ReadWord, SkipSpace;
  }

  /** The end of an item: white space, and a character that closes or separates. */
  lemma CloserEnds(nl: bytes, c: byte, tail: bytes)
    requires AllSpace(nl) && c in [',' as int, ':' as int, ')' as int, ']' as int, '}' as int]
    ensures Ends(nl + ([c] + tail)) && SkipSpace(nl + ([c] + tail)) == [c] + tail && ([c] + tail)[1..] == tail
  {
    SpaceSkipped(nl, [c] + tail);
    NotSpace([c] + tail);
  }

  lemma EndsMeans(tail: bytes)
    requires Ends(tail)
    ensures !GoesOn(tail) && (tail != [] ==> !IsWordChar(tail[0]) && tail[0] != '(' as int && tail[0] != '_' as int)
  {
  }

  lemma BreakIsSpace(cfg: EdnConfig, level: int, space: bool)
    requires ConfigOk(cfg)
    ensures AllSpace(NewLine(cfg, level, space)) && AllSpace(Sp(cfg.space))
  {
  }

  // ----- Words are read back -----

  predicate AllWord(w: bytes) { forall i :: 0 <= i < |w| ==> IsWordChar(w[i]) }

  lemma {:induction false} WordTaken(w: bytes, tail: bytes)
    requires AllWord(w) && (tail != [] ==> !IsWordChar(tail[0]))
    ensures WordLength(w + tail) == |w|
  {
    if w == [] {
      EmptyConcat(tail);
    } else {
      assert (w + tail)[1..] == w[1..] + tail;
      WordTaken(w[1..], tail);
    }
  }

  /** A word that starts no string. */
  predicate Bare(w: bytes) { w != [] && AllWord(w) && w[0] != 'h' as int && w[0] != '_' as int }

  lemma BareItem(w: bytes, tail: bytes)
    requires Bare(w) && (tail != [] ==> !IsWordChar(tail[0]))
    ensures ReadItem(w + tail) == ReadWord(w + tail)
    ensures WordLength(w + tail) == |w| && (w + tail)[..|w|] == w && (w + tail)[|w|..] == tail
  {
    var t := w + tail;
    assert t[0] == w[0];
    WordTaken(w, tail);
    NotSpace(t);
    hide ReadWord, ReadArray, ReadMap, ReadStream, ReadString;
  }

  lemma ScalarWord(w: bytes, x: Notation, tail: bytes)
    requires Bare(w) && ReadScalar(w) == Some(x) && Ends(tail)
    ensures ReadItem(w + tail) == Some((x, tail))
  {
    hide Bare, Ends, ReadScalar, ReadItem, IsWordChar;
    EndsMeans(tail);
    BareItem(w, tail);
    NotEmpty(w, tail);
  }

  lemma NotEmpty(w: bytes, tail: bytes)
    requires Bare(w)
    ensures w != []
  {
  }

  /** Something in parentheses. */
  lemma InParens(w: bytes, inner: bytes, x: Notation, nl: bytes, tail: bytes)
    requires Bare(w) && AllSpace(nl) && Applied(w, x).Some?
    requires ReadItem(inner + (nl + ([')' as int] + tail))) == Some((x, nl + ([')' as int] + tail)))
    ensures ReadItem(w + (['(' as int] + (inner + (nl + ([')' as int] + tail))))) == Some((Applied(w, x).value, tail))
  {
    hide Bare, ReadItem, Applied, SkipSpace, IsWordChar;
    var rest := inner + (nl + ([')' as int] + tail));
    NotWordChar();
    BareItem(w, ['(' as int] + rest);
    assert (['(' as int] + rest)[1..] == rest;
    NotEmpty(w, tail);
    CloserEnds(nl, ')' as int, tail);
  }

  lemma NotWordChar()
    ensures !IsWordChar('(' as int)
  {
  }

  // ----- Numbers -----

  lemma {:induction false} DigitsRead(n: nat)
    ensures IsDecimal(DecimalInt.Digits(n)) && Decimal(DecimalInt.Digits(n)) == n
  {
    var s := DecimalInt.Digits(n);
    if n >= 10 {
      DigitsRead(n / 10);
      assert s[..|s| - 1] == DecimalInt.Digits(n / 10);
    } else {
      assert s[..0] == [];
    }
  }

  /** A decimal number is a word of digits. */
  lemma NumberReads(n: nat)
    ensures var w := DecimalInt.Print(n); Bare(w) && IsDecimal(w) && Decimal(w) == n
  {
    DigitsRead(n);
    assert DecimalInt.Print(n) == DecimalInt.Digits(n);
    hide Decimal, DecimalInt.Digits;
  }

  lemma IntegerReads(i: int)
    ensures Bare(DecimalInt.Print(i)) && ReadInteger(DecimalInt.Print(i)) == Some(i)
  {
    DigitsRead(if i < 0 then -i else i);
    hide Decimal, DecimalInt.Digits;
    if i < 0 {
      var w := DecimalInt.Print(i);
      assert w[0] == '-' as int && w[1..] == DecimalInt.Digits(-i);
    }
  }

  lemma NamesAreNoNumbers(w: bytes)
    requires ReadInteger(w).Some?
    ensures ReadScalar(w) == Some(Integer(ReadInteger(w).value))
  {
    assert Ascii("false")[0] == 'f' as int && Ascii("true")[0] == 't' as int;
    assert Ascii("null")[0] == 'n' as int && Ascii("undefined")[0] == 'u' as int;
    hide Decimal;
  }

  // ----- Floats -----

  lemma PlainAgain(s: bytes)
    ensures '.' as int !in s ==> Plain(s + Ascii(".0")) == s && Plain(s) == s
  {
    var t := s + Ascii(".0");
    assert t[|t| - 2] == '.' as int && t[|t| - 1] == '0' as int && t[..|t| - 2] == s;
  }

  lemma SuffixRead(body: bytes, width: nat, suffix: bytes)
    requires body != [] && 1 <= width <= 3 && suffix == ['_' as int, '0' as int + width]
    ensures var w := body + suffix;
            && |w| > 2 && w[|w| - 2] == '_' as int && w[|w| - 1] == '0' as int + width && w[..|w| - 2] == body
  {
    var w := body + suffix;
    assert w[..|w| - 2] == body;
  }

  /** What is in front of the suffix. */
  function ReadFloatBody(body: bytes): Option<FloatNotation> {
    if body == Ascii("Infinity") then Some(Infinity(false))
    else if body == Ascii("-Infinity") then Some(Infinity(true))
    else if body == Ascii("NaN") then Some(NaN)
    else if IsNumberText(body) && '.' as int in body then Some(Digits(Plain(body)))
    else None
  }

  lemma FloatWordReads(body: bytes, width: nat, suffix: bytes)
    requires body != [] && 1 <= width <= 3 && suffix == ['_' as int, '0' as int + width] && ReadFloatBody(body).Some?
    ensures ReadScalar(body + suffix) == Some(Float(width, ReadFloatBody(body).value))
  {
    var w := body + suffix;
    SuffixRead(body, width, suffix);
    NoName(w);
    assert !IsDecimal(w) && !IsDecimal(w[1..]) by {
      assert w[1..][|w| - 3] == '_' as int && w[|w| - 2] == '_' as int;
    }
    hide Plain, Ascii, IsNumberText, IsDecimal;
  }

  lemma NoName(w: bytes)
    requires |w| > 2 && w[|w| - 2] == '_' as int
    ensures w != Ascii("false") && w != Ascii("true") && w != Ascii("null") && w != Ascii("undefined")
  {
  }

  lemma NumberTextReads(s: bytes)
    requires s != [] && IsNumberText(s)
    ensures var t := s + if POINT in s then [] else Ascii(".0"); Bare(t) && ReadFloatBody(t) == Some(Digits(Plain(s)))
  {
    var t := s + if POINT in s then [] else Ascii(".0");
    PlainAgain(s);
    assert Ascii(".0") == ['.' as int, '0' as int];
    assert t[0] == s[0];
    if POINT in s {
      assert t == s;
    } else {
      assert t[|s|] == '.' as int;
    }
    assert Ascii("Infinity")[0] == 'I' as int && Ascii("-Infinity")[1] == 'I' as int && Ascii("NaN")[0] == 'N' as int;
    hide Plain;
  }

  lemma NamesOfFloats()
    ensures Bare(Ascii("Infinity")) && Bare(Ascii("-Infinity")) && Bare(Ascii("NaN"))
    ensures Ascii("Infinity") != Ascii("-Infinity") && Ascii("NaN") != Ascii("Infinity") && Ascii("NaN") != Ascii("-Infinity")
  {
    NameIsBare("Infinity");
    NameIsBare("-Infinity");
    NameIsBare("NaN");
    hide Bare, Ascii;
  }

  lemma NameIsBare(s: string)
    requires s != "" && s[0] != 'h'
    requires forall i :: 0 <= i < |s| ==> 'a' <= s[i] <= 'z' || 'A' <= s[i] <= 'Z' || s[i] == '-'
    ensures Bare(Ascii(s)) && Ascii(s)[0] == s[0] as int
  {
  }

  /** The value decides what is written, and is the one that the pattern has in its own format. */
  lemma FloatTextReads(cfg: EdnConfig, tok: Token, f: Floats.Fields, v: FloatValues.FloatValue)
    requires DigitsOk(cfg) && Floats.Is64(f)
    requires var d := FloatValues.Denoted(FloatValues.BINARY64, f);
             d == v || (d.NotANumber? && v.NotANumber?)
    ensures var t := FloatText(cfg, tok, f); Bare(t) && ReadFloatBody(t) == Some(FloatMeaning(cfg, tok, v))
  {
    hide Plain, Ascii, Bare, FloatValues.Exp2, Floats.Pow2, IsNumberText;
    NamesOfFloats();
    if f.exp != 0x7ff {
      NumberTextReads(cfg.digits(tok));
    }
  }

  lemma FloatDenotes(tok: Token)
    requires IsFloatToken(tok)
    ensures Floats.Is64(FloatFields(tok))
    ensures var d, v := FloatValues.Denoted(FloatValues.BINARY64, FloatFields(tok)), ValueOf(tok);
            d == v || (d.NotANumber? && v.NotANumber?)
  {
    hide FloatValues.Denoted, Floats.FromFloat16, Floats.FromFloat32, Floats.Unpack16, Floats.Unpack32, Floats.Unpack64;
    match tok
    case Float16(raw) =>
      Floats.Unpack16Is16(raw);
      Floats.FromFloat16Is64(Floats.Unpack16(raw));
      FloatValues.HalfDenotes(Floats.Unpack16(raw));
    case Float32(raw) =>
      Floats.PackUnpack32(raw);
      Floats.FromFloat32Is64(Floats.Unpack32(raw));
      FloatValues.SingleDenotes(Floats.Unpack32(raw));
    case Float64(raw) => Floats.PackUnpack64(raw);
  }

  // ----- Scalars are read back -----

  lemma AppendedWord(a: bytes, b: bytes)
    requires Bare(a) && AllWord(b)
    ensures Bare(a + b)
  {
    assert (a + b)[0] == a[0];
  }

  lemma FloatReads(cfg: EdnConfig, tok: Token, width: nat, suffix: bytes)
    requires DigitsOk(cfg) && IsFloatToken(tok) && 1 <= width <= 3 && suffix == ['_' as int, '0' as int + width]
    ensures var w := FloatText(cfg, tok, FloatFields(tok)) + suffix;
            Bare(w) && ReadScalar(w) == Some(Float(width, FloatMeaning(cfg, tok, ValueOf(tok))))
  {
    hide FloatText, FloatFields, ReadScalar, FloatValues.Denoted, FloatMeaning, Bare, ReadFloatBody;
    FloatDenotes(tok);
    FloatTextReads(cfg, tok, FloatFields(tok), ValueOf(tok));
    var body := FloatText(cfg, tok, FloatFields(tok));
    NotEmpty(body, []);
    FloatWordReads(body, width, suffix);
    AppendedWord(body, suffix);
  }

  lemma KeywordsRead()
    ensures Bare(Ascii("false")) && ReadScalar(Ascii("false")) == Some(Boolean(false))
    ensures Bare(Ascii("true")) && ReadScalar(Ascii("true")) == Some(Boolean(true))
    ensures Bare(Ascii("null")) && ReadScalar(Ascii("null")) == Some(Nothing)
    ensures Bare(Ascii("undefined")) && ReadScalar(Ascii("undefined")) == Some(Notation.Undefined)
    ensures Bare(Ascii("simple"))
  {
    hide Bare, ReadInteger, ReadFloat, Ascii;
    NameIsBare("false");
    NameIsBare("true");
    NameIsBare("null");
    NameIsBare("undefined");
    NameIsBare("simple");
  }

  lemma Suffixes()
    ensures Ascii("_1") == ['_' as int, '0' as int + 1] && Ascii("_2") == ['_' as int, '0' as int + 2]
    ensures Ascii("_3") == ['_' as int, '0' as int + 3]
  {
  }

  /** Every scalar that is a single word. */
  lemma WordReads(cfg: EdnConfig, tok: Token)
    requires DigitsOk(cfg) && EdnPrinter.IsScalarToken(tok) && !tok.Simple?
    ensures var w := ScalarText(cfg, tok); Bare(w) && ReadScalar(w) == Some(ScalarMeaning(cfg, tok))
  {
    hide ReadScalar, Bare, Ascii, FloatText, FloatFields, FloatMeaning, ValueOf, ReadInteger;
    KeywordsRead();
    Suffixes();
    match tok
    case UInt(n) =>
      IntegerReads(n);
      NamesAreNoNumbers(DecimalInt.Print(n));
    case NInt(n) =>
      IntegerReads(-1 - n);
      NamesAreNoNumbers(DecimalInt.Print(-1 - n));
    case Float16(_) => FloatReads(cfg, tok, 1, Ascii("_1"));
    case Float32(_) => FloatReads(cfg, tok, 2, Ascii("_2"));
    case Float64(_) => FloatReads(cfg, tok, 3, Ascii("_3"));
    case _ =>
  }

  lemma SimpleText(n: nat, tail: bytes)
    ensures Ascii("simple(") + DecimalInt.Print(n) + [R_PAREN] + tail
            == Ascii("simple") + (['(' as int] + (DecimalInt.Print(n) + ([] + ([')' as int] + tail))))
  {
    assert Ascii("simple(") == Ascii("simple") + ['(' as int];
    hide Ascii;
    EmptyConcat([')' as int] + tail);
    Concat4(Ascii("simple"), ['(' as int], DecimalInt.Print(n), [')' as int]);
    Concat(Ascii("simple") + ['(' as int] + DecimalInt.Print(n), [')' as int], tail);
    Concat4(Ascii("simple"), ['(' as int], DecimalInt.Print(n), [')' as int] + tail);
  }

  lemma SimpleReads(n: nat, tail: bytes)
    ensures ReadItem(Ascii("simple(") + DecimalInt.Print(n) + [R_PAREN] + tail) == Some((Notation.Simple(n), tail))
  {
    hide ReadItem, ReadScalar, Ascii, Bare, ReadInteger;
    IntegerReads(n);
    NamesAreNoNumbers(DecimalInt.Print(n));
    CloserEnds([], ')' as int, tail);
    ScalarWord(DecimalInt.Print(n), Integer(n), [] + ([')' as int] + tail));
    KeywordsRead();
    InParens(Ascii("simple"), DecimalInt.Print(n), Integer(n), [], tail);
    SimpleText(n, tail);
  }

  lemma ScalarReads(cfg: EdnConfig, tok: Token, tail: bytes)
    requires DigitsOk(cfg) && EdnPrinter.IsScalarToken(tok) && Ends(tail)
    ensures ReadItem(ScalarText(cfg, tok) + tail) == Some((ScalarMeaning(cfg, tok), tail))
  {
    if tok.Simple? {
      hide ReadItem, Ascii;
      SimpleReads(tok.n, tail);
    } else {
      hide ReadItem, ScalarText, ScalarMeaning, ReadScalar, Bare;
      WordReads(cfg, tok);
      ScalarWord(ScalarText(cfg, tok), ScalarMeaning(cfg, tok), tail);
    }
  }

  // ----- Strings are read back -----

  lemma {:induction false} TextRestStarts(space: bool, s: bytes, tail: bytes)
    requires Ends(tail)
    ensures var t := TextRest(space, s, true) + tail; t != [] && !(|t| > 1 && t[0] == '"' as int && t[1] == '_' as int)
  {
    EndsMeans(tail);
    hide Utf8.CharLen, Utf8.Scalar;
    if s == [] {
      assert TextRest(space, s, true) == [QUOTE];
    } else {
      var t := TextRest(space, s, true) + tail;
    }
  }

  lemma StringStarts(cfg: EdnConfig, s: bytes, isText: bool, level: int, tail: bytes)
    ensures var t := StringText(cfg, s, isText, level) + tail; if isText then StartsText(t) else StartsHex(t)
    ensures |StringText(cfg, s, isText, level)| > 0
  {
    hide TextRest, ByteRest;
  }

  lemma QuotedUnmarked(space: bool, s: bytes, tail: bytes)
    requires Ends(tail)
    ensures var t := TextBody(space, s) + tail; |t| > 2 ==> t[..3] != Ascii("\"\"_")
  {
    hide TextRest;
    TextRestStarts(space, s, tail);
    var t, r := TextBody(space, s) + tail, TextRest(space, s, true) + tail;
    Concat([QUOTE], TextRest(space, s, true), tail);
    if |t| > 2 {
      assert r[0] == t[..3][1] && r[1] == t[..3][2];
    }
  }

  lemma NotMarked(cfg: EdnConfig, s: bytes, isText: bool, level: int, tail: bytes)
    requires Ends(tail)
    ensures var t := StringText(cfg, s, isText, level) + tail;
            |t| > 2 ==> t[..3] != Ascii("\"\"_") && t[..3] != Ascii("''_")
  {
    StringStarts(cfg, s, isText, level, tail);
    var t := StringText(cfg, s, isText, level) + tail;
    assert Ascii("\"\"_")[0] == '"' as int && Ascii("''_")[0] == '\'' as int;
    if isText {
      QuotedUnmarked(cfg.space, s, tail);
    }
    hide StringText, Ascii;
  }

  lemma StringReads(cfg: EdnConfig, s: bytes, isText: bool, level: int, tail: bytes)
    requires ConfigOk(cfg) && Ends(tail)
    ensures ReadItem(StringText(cfg, s, isText, level) + tail) == Some((String(s, isText), tail))
  {
    hide Read, StringText, Ends, ReadArray, ReadMap, ReadStream, ReadWord, SkipSpace, ConfigOk;
    var t := StringText(cfg, s, isText, level) + tail;
    EndsMeans(tail);
    EdnItems.PrintedStringReads(cfg, s, isText, level, tail);
    StringStarts(cfg, s, isText, level, tail);
    NotMarked(cfg, s, isText, level, tail);
    NotSpace(t);
  }

  // ----- Streams are read back -----

  lemma ChunksSkip(nl: bytes, t: bytes, isText: bool)
    requires AllSpace(nl)
    ensures ReadChunks(nl + t, isText) == ReadChunks(t, isText) && ReadChunks(SkipSpace(t), isText) == ReadChunks(t, isText)
  {
    SpaceSkipped(nl, t);
    Skipped(t);
    hide Read, SkipSpace;
  }

  /** A chunk, and what follows it. */
  lemma ChunkReads(cfg: EdnConfig, s: bytes, isText: bool, level: int, tail: bytes)
    requires ConfigOk(cfg) && Ends(tail)
    ensures var v := SkipSpace(tail);
            ReadChunks(StringText(cfg, s, isText, level) + tail, isText) ==
            if v != [] && v[0] == ')' as int then Some(([s], v[1..]))
            else if v != [] && v[0] == ',' as int then PrependChunk(s, ReadChunks(v[1..], isText))
            else None
  {
    hide Read, StringText, Ends, ConfigOk;
    var t := StringText(cfg, s, isText, level) + tail;
    EndsMeans(tail);
    EdnItems.PrintedStringReads(cfg, s, isText, level, tail);
    StringStarts(cfg, s, isText, level, tail);
    NotSpace(t);
    hide SkipSpace;
  }

  function PrependChunk(s: bytes, r: Option<(seq<bytes>, bytes)>): Option<(seq<bytes>, bytes)> {
    match r
    case Some((ss, rest)) => Some(([s] + ss, rest))
    case None => None
  }

  lemma {:induction false} ChunksRead(cfg: EdnConfig, chunks: seq<bytes>, isText: bool, level: int, nl: bytes, tail: bytes)
    requires ConfigOk(cfg) && chunks != [] && AllSpace(nl)
    ensures ReadChunks(JoinChunks(cfg, chunks, isText, level) + (nl + ([')' as int] + tail)), isText) == Some((chunks, tail))
    decreases |chunks|
  {
    hide StringText, Ends, ConfigOk, ReadChunks, NewLine, SkipSpace;
    var end := nl + ([')' as int] + tail);
    var text := StringText(cfg, chunks[0], isText, level);
    if |chunks| == 1 {
      CloserEnds(nl, ')' as int, tail);
      ChunkReads(cfg, chunks[0], isText, level, end);
      assert text + [] == text && chunks == [chunks[0]];
    } else {
      var more, gap := JoinChunks(cfg, chunks[1..], isText, level), NewLine(cfg, level, true);
      BreakIsSpace(cfg, level, true);
      ChunksRead(cfg, chunks[1..], isText, level, nl, tail);
      SeparatorEnds(gap, more + end);
      ChunkReads(cfg, chunks[0], isText, level, [COMMA] + (gap + (more + end)));
      ChunksSkip(gap, more + end, isText);
      assert chunks == [chunks[0]] + chunks[1..];
      SeparatedText(text, gap, more, end);
    }
  }

  lemma SeparatorEnds(gap: bytes, more: bytes)
    ensures var t := [COMMA] + (gap + more); Ends(t) && SkipSpace(t) == t && t[0] == ',' as int && t[1..] == gap + more
  {
    NotSpace([COMMA] + (gap + more));
  }

  lemma SeparatedText(text: bytes, gap: bytes, more: bytes, end: bytes)
    ensures text + ([COMMA] + gap + more) + end == text + ([COMMA] + (gap + (more + end)))
  {
    Concat([COMMA], gap, more);
    Concat(text, [COMMA] + gap + more, end);
    Concat([COMMA], gap + more, end);
    Concat(gap, more, end);
  }

  // ----- Brackets -----

  /** What stands in front of the first item or of the closing bracket. */
  predicate Unmarked(t: bytes) { t != [] && t[0] != '_' as int }

  /** An opening bracket as it is printed, and what is read behind it. */
  lemma OpeningReads(cfg: EdnConfig, open: byte, level: int, indef: bool, t: bytes)
    requires ConfigOk(cfg) && Unmarked(t) && !IsSpace(open)
    ensures var u := Opening(cfg, open, level, indef) + t;
            && u != [] && u[0] == open && SkipSpace(u) == u && IsMarked(u) == indef && Inside(u) == SkipSpace(t)
  {
    var nl := NewLine(cfg, Deeper(cfg, level), indef);
    BreakIsSpace(cfg, Deeper(cfg, level), indef);
    SpaceSkipped(nl, t);
    var u := Opening(cfg, open, level, indef) + t;
    NotSpace(u);
    hide NewLine, SkipSpace;
    if indef {
      Concat([open, UNDERSCORE], nl, t);
      assert u[2..] == nl + t;
    } else {
      Concat([open], nl, t);
      assert u[1..] == nl + t;
      if nl != [] {
        assert u[1] == nl[0];
      } else {
        EmptyConcat(t);
        assert u[1] == t[0];
      }
    }
  }

  /** No item starts with an underscore. */
  lemma PrintStarts(cfg: EdnConfig, item: Item, level: int, tail: bytes)
    requires DigitsOk(cfg) && WellFormed(item)
    ensures Unmarked(Print(cfg, item, level) + tail) && |Print(cfg, item, level)| > 0
  {
    match item
    case Scalar(tok) => ScalarStarts(cfg, tok, tail);
    case Text(s) => StringStarts(cfg, s, true, level, tail);
    case ByteStr(s) => StringStarts(cfg, s, false, level, tail);
    case Tagged(id, content) =>
      NumberReads(id);
      hide Print, DecimalInt.Print, NewLine, IsDecimal, Decimal;
      TaggedStarts(cfg, id, content, level);
    case Chunks(_, _) => FirstOf(cfg, item, level);
    case Arr(_, _) => FirstOf(cfg, item, level);
    case Dict(_, _) => FirstOf(cfg, item, level);
  }

  lemma TaggedStarts(cfg: EdnConfig, id: nat, content: Item, level: int)
    requires DecimalInt.Print(id) != []
    ensures Print(cfg, Item.Tagged(id, content), level) != []
    ensures Print(cfg, Item.Tagged(id, content), level)[0] == DecimalInt.Print(id)[0]
  {
    hide NewLine;
  }

  lemma FirstOf(cfg: EdnConfig, item: Item, level: int)
    requires item.Chunks? || item.Arr? || item.Dict?
    ensures var t := Print(cfg, item, level); t != [] && t[0] != '_' as int
  {
    hide NewLine, JoinItems, JoinMembers, JoinChunks;
  }

  lemma ScalarStarts(cfg: EdnConfig, tok: Token, tail: bytes)
    requires DigitsOk(cfg) && EdnPrinter.IsScalarToken(tok)
    ensures Unmarked(ScalarText(cfg, tok) + tail) && |ScalarText(cfg, tok)| > 0
  {
    if tok.Simple? {
      assert ScalarText(cfg, tok)[0] == 's' as int;
    } else {
      WordReads(cfg, tok);
      hide ScalarText, ReadScalar;
    }
  }

  // ----- Items are read back -----

  /** Whatever is printed is read back as what it means, and nothing behind it is read. */
  lemma {:induction false} ItemReads(cfg: EdnConfig, item: Item, level: int, tail: bytes)
    requires ConfigOk(cfg) && DigitsOk(cfg) && WellFormed(item) && Ends(tail)
    ensures ReadItem(Print(cfg, item, level) + tail) == Some((Meaning(cfg, item), tail))
    decreases item, 1
  {
    hide ReadItem, Print, ScalarText, StringText, ConfigOk, DigitsOk, Ends;
    LeafText(cfg, item, level);
    match item
    case Scalar(tok) => ScalarReads(cfg, tok, tail);
    case Text(s) => StringReads(cfg, s, true, level, tail);
    case ByteStr(s) => StringReads(cfg, s, false, level, tail);
    case Chunks(chunks, isText) => StreamReads(cfg, chunks, isText, level, tail);
    case Arr(elems, indef) => ArrayReads(cfg, elems, indef, level, tail);
    case Dict(members, indef) => MapReads(cfg, members, indef, level, tail);
    case Tagged(id, content) => TagReads(cfg, id, content, level, tail);
  }

  lemma LeafText(cfg: EdnConfig, item: Item, level: int)
    ensures item.Scalar? ==> Print(cfg, item, level) == ScalarText(cfg, item.tok)
    ensures item.Text? ==> Print(cfg, item, level) == StringText(cfg, item.s, true, level)
    ensures item.ByteStr? ==> Print(cfg, item, level) == StringText(cfg, item.s, false, level)
  {
  }

  lemma BracketedText(open: bytes, inner: bytes, nl: bytes, close: byte, tail: bytes)
    ensures open + inner + nl + [close] + tail == open + (inner + (nl + ([close] + tail)))
  {
    Concat4(open, inner, nl, [close]);
    Concat(open, inner + (nl + [close]), tail);
    Concat4(inner, nl, [close], tail);
    Concat(inner, nl, [close]);
  }

  lemma EmptyStreamReads(isText: bool, tail: bytes)
    ensures ReadItem((if isText then Ascii("\"\"_") else Ascii("''_")) + tail) == Some((Stream([], isText), tail))
  {
    hide Read, ReadArray, ReadMap, ReadStream, ReadWord;
    var mark := if isText then Ascii("\"\"_") else Ascii("''_");
    assert mark[0] == if isText then '"' as int else '\'' as int;
    assert Ascii("''_")[0] == '\'' as int && Ascii("\"\"_")[0] == '"' as int;
    var t := mark + tail;
    hide Ascii;
    NotSpace(t);
    assert t[..3] == mark && t[3..] == tail;
  }

  lemma {:induction false} StreamReads(cfg: EdnConfig, chunks: seq<bytes>, isText: bool, level: int, tail: bytes)
    requires ConfigOk(cfg)
    ensures ReadItem(Print(cfg, Chunks(chunks, isText), level) + tail) == Some((Stream(chunks, isText), tail))
  {
    hide ReadItem, JoinChunks, Opening, NewLine, Ascii, ReadChunks, SkipSpace, Inside, IsMarked, ConfigOk;
    if chunks == [] {
      EmptyStreamReads(isText, tail);
    } else {
      var deep := Deeper(cfg, level);
      var open, inner, nl := Opening(cfg, L_PAREN, level, true), JoinChunks(cfg, chunks, isText, deep), NewLine(cfg, level, false);
      var rest := inner + (nl + ([')' as int] + tail));
      BracketedText(open, inner, nl, R_PAREN, tail);
      BreakIsSpace(cfg, level, false);
      ChunksStart(cfg, chunks, isText, deep, nl + ([')' as int] + tail));
      ChunksRead(cfg, chunks, isText, deep, nl, tail);
      OpeningReads(cfg, L_PAREN, level, true, rest);
      NotSpace(rest);
      OpenedItem(open + rest);
    }
  }

  lemma ChunksStart(cfg: EdnConfig, chunks: seq<bytes>, isText: bool, level: int, tail: bytes)
    requires chunks != []
    ensures var t := JoinChunks(cfg, chunks, isText, level) + tail;
            && t != [] && !IsSpace(t[0]) && Unmarked(t) && StartsText(t) == isText
  {
    var text := StringText(cfg, chunks[0], isText, level);
    var more := if |chunks| == 1 then [] else Separator(cfg, level) + JoinChunks(cfg, chunks[1..], isText, level);
    StringStarts(cfg, chunks[0], isText, level, more + tail);
    Concat(text, more, tail);
    hide StringText, Separator;
  }

  /** Which bracket it is decides what is read. */
  lemma OpenedItem(u: bytes)
    requires u != [] && SkipSpace(u) == u
    ensures u[0] == '[' as int ==> ReadItem(u) == ReadArray(u)
    ensures u[0] == '{' as int ==> ReadItem(u) == ReadMap(u)
    ensures u[0] == '(' as int ==> ReadItem(u) == ReadStream(u)
  {
    hide ReadArray, ReadMap, ReadStream, SkipSpace;
  }

  lemma EmptyBrackets(open: byte, close: byte, tail: bytes, t: bytes)
    requires t == [open, close] + tail && !IsSpace(open) && !IsSpace(close) && close != '_' as int
    ensures t != [] && t[0] == open && SkipSpace(t) == t && !IsMarked(t) && Inside(t) == [close] + tail && ([close] + tail)[1..] == tail
  {
    NotSpace(t);
    NotSpace([close] + tail);
    assert t[1..] == [close] + tail;
  }

  lemma ReadNothingAt(t: bytes)
    requires t != [] && (t[0] == ']' as int || t[0] == '}' as int)
    ensures ReadItem(t) == None
  {
    NotSpace(t);
  }

  lemma {:induction false} ArrayReads(cfg: EdnConfig, elems: seq<Item>, indef: bool, level: int, tail: bytes)
    requires ConfigOk(cfg) && DigitsOk(cfg) && WellFormed(Arr(elems, indef))
    ensures ReadItem(Print(cfg, Arr(elems, indef), level) + tail) == Some((Sequence(Meanings(cfg, elems), indef), tail))
    decreases elems, 2
  {
    hide ReadItem, JoinItems, Opening, NewLine, ReadElems, SkipSpace, Inside, IsMarked, ConfigOk, DigitsOk, Print;
    var deep := Deeper(cfg, level);
    var open, inner, nl := Opening(cfg, L_BRACKET, level, indef), JoinItems(cfg, elems, deep), NewLine(cfg, level, false);
    var end := nl + ([']' as int] + tail);
    var rest := inner + end;
    EdnRefinement.PrintArray(cfg, elems, indef, level);
    BreakIsSpace(cfg, level, false);
    CloserEnds(nl, ']' as int, tail);
    if elems == [] && !indef {
      assert Ascii("[]") == ['[' as int, ']' as int];
      EmptyBrackets('[' as int, ']' as int, tail, Ascii("[]") + tail);
      OpenedItem(Ascii("[]") + tail);
    } else {
      BracketedText(open, inner, nl, R_BRACKET, tail);
      if elems == [] {
        NoItems(cfg, elems, deep, end);
        EndUnmarked(nl, ']' as int, tail);
      } else {
        ItemsStart(cfg, elems, deep, end);
        ElemsRead(cfg, elems, deep, nl, tail);
      }
      OpeningReads(cfg, L_BRACKET, level, indef, rest);
      OpenedItem(open + rest);
      ElemsSkip(rest);
    }
  }

  lemma EndUnmarked(nl: bytes, c: byte, tail: bytes)
    requires AllSpace(nl) && c != '_' as int
    ensures Unmarked(nl + ([c] + tail))
  {
    if nl == [] {
      EmptyConcat([c] + tail);
    } else {
      assert (nl + ([c] + tail))[0] == nl[0];
    }
  }

  lemma NoItems(cfg: EdnConfig, elems: seq<Item>, level: int, end: bytes)
    requires elems == []
    ensures JoinItems(cfg, elems, level) + end == end && Meanings(cfg, elems) == []
  {
    EmptyConcat(end);
  }

  lemma ItemsStart(cfg: EdnConfig, elems: seq<Item>, level: int, end: bytes)
    requires DigitsOk(cfg) && elems != [] && WellFormed(elems[0])
    ensures Unmarked(JoinItems(cfg, elems, level) + end)
  {
    var text := Print(cfg, elems[0], level);
    var more := if |elems| == 1 then [] else Separator(cfg, level) + JoinItems(cfg, elems[1..], level);
    PrintStarts(cfg, elems[0], level, more + end);
    Concat(text, more, end);
    hide Print, Separator;
  }

  /** White space in front of elements; where they can be read, there is no closing bracket. */
  lemma ElemsSkip(t: bytes)
    ensures ReadElems(SkipSpace(t)) == ReadElems(t)
    ensures ReadElems(t).Some? ==> !(SkipSpace(t) != [] && SkipSpace(t)[0] == ']' as int)
  {
    SpaceBefore([], t);
    EmptyConcat(t);
    hide ReadItem, SkipSpace;
    if SkipSpace(t) != [] && SkipSpace(t)[0] == ']' as int {
      ReadNothingAt(SkipSpace(t));
    }
  }

  lemma ElemsSpace(nl: bytes, t: bytes)
    requires AllSpace(nl)
    ensures ReadElems(nl + t) == ReadElems(t)
  {
    SpaceBefore(nl, t);
    hide ReadItem, SkipSpace;
  }

  function Prepend<T>(x: T, r: Option<(seq<T>, bytes)>): Option<(seq<T>, bytes)> {
    match r
    case Some((xs, rest)) => Some(([x] + xs, rest))
    case None => None
  }

  /** An element that has been read, and what follows it. */
  lemma ElemReads(t: bytes, x: Notation, tail: bytes)
    requires ReadItem(t) == Some((x, tail))
    ensures var v := SkipSpace(tail);
            ReadElems(t) ==
            if v != [] && v[0] == ']' as int then Some(([x], v[1..]))
            else if v != [] && v[0] == ',' as int then Prepend(x, ReadElems(v[1..]))
            else None
  {
    hide ReadItem, SkipSpace;
  }

  lemma {:induction false} ElemsRead(cfg: EdnConfig, elems: seq<Item>, level: int, nl: bytes, tail: bytes)
    requires ConfigOk(cfg) && DigitsOk(cfg) && elems != [] && AllSpace(nl)
    requires forall i :: 0 <= i < |elems| ==> WellFormed(elems[i])
    ensures ReadElems(JoinItems(cfg, elems, level) + (nl + ([']' as int] + tail))) == Some((Meanings(cfg, elems), tail))
    decreases elems, 1
  {
    hide ReadItem, ReadElems, Print, NewLine, ConfigOk, DigitsOk, Ends, SkipSpace, Meaning;
    var end := nl + ([']' as int] + tail);
    var text := Print(cfg, elems[0], level);
    if |elems| == 1 {
      CloserEnds(nl, ']' as int, tail);
      ItemReads(cfg, elems[0], level, end);
      ElemReads(text + end, Meaning(cfg, elems[0]), end);
      assert text + [] == text && [Meaning(cfg, elems[0])] + [] == [Meaning(cfg, elems[0])];
    } else {
      var more, gap := JoinItems(cfg, elems[1..], level), NewLine(cfg, level, true);
      var behind := [COMMA] + (gap + (more + end));
      BreakIsSpace(cfg, level, true);
      ElemsRead(cfg, elems[1..], level, nl, tail);
      SeparatorEnds(gap, more + end);
      ItemReads(cfg, elems[0], level, behind);
      ElemReads(text + behind, Meaning(cfg, elems[0]), behind);
      ElemsSpace(gap, more + end);
      SeparatedText(text, gap, more, end);
    }
  }

  // ----- Maps -----

  lemma {:induction false} MapReads(cfg: EdnConfig, members: seq<Member>, indef: bool, level: int, tail: bytes)
    requires ConfigOk(cfg) && DigitsOk(cfg) && WellFormed(Dict(members, indef))
    ensures ReadItem(Print(cfg, Dict(members, indef), level) + tail) == Some((Mapping(EntriesOf(cfg, members), indef), tail))
    decreases members, 2
  {
    hide ReadItem, JoinMembers, Opening, NewLine, ReadMembers, SkipSpace, Inside, IsMarked, ConfigOk, DigitsOk, Print;
    var deep := Deeper(cfg, level);
    var open, inner, nl := Opening(cfg, L_BRACE, level, indef), JoinMembers(cfg, members, deep), NewLine(cfg, level, false);
    var end := nl + (['}' as int] + tail);
    var rest := inner + end;
    EdnRefinement.PrintDict(cfg, members, indef, level);
    BreakIsSpace(cfg, level, false);
    CloserEnds(nl, '}' as int, tail);
    if members == [] && !indef {
      assert Ascii("{}") == ['{' as int, '}' as int];
      EmptyBrackets('{' as int, '}' as int, tail, Ascii("{}") + tail);
      OpenedItem(Ascii("{}") + tail);
    } else {
      BracketedText(open, inner, nl, R_BRACE, tail);
      if members == [] {
        NoMembers(cfg, members, deep, end);
        EndUnmarked(nl, '}' as int, tail);
      } else {
        MembersStart(cfg, members, deep, end);
        MembersRead(cfg, members, deep, nl, tail);
      }
      OpeningReads(cfg, L_BRACE, level, indef, rest);
      OpenedItem(open + rest);
      MembersSkip(rest);
    }
  }

  lemma NoMembers(cfg: EdnConfig, members: seq<Member>, level: int, end: bytes)
    requires members == []
    ensures JoinMembers(cfg, members, level) + end == end && EntriesOf(cfg, members) == []
  {
    EmptyConcat(end);
  }

  lemma MemberText(key: bytes, space: bytes, val: bytes, tail: bytes)
    ensures key + [COLON] + space + val + tail == key + ([COLON] + (space + (val + tail)))
  {
    Concat4(key, [COLON], space, val);
    Concat(key, [COLON] + (space + val), tail);
    Concat4([COLON], space, val, tail);
    Concat([COLON], space, val);
  }

  lemma MembersStart(cfg: EdnConfig, members: seq<Member>, level: int, end: bytes)
    requires DigitsOk(cfg) && members != [] && WellFormed(members[0].key)
    ensures Unmarked(JoinMembers(cfg, members, level) + end)
  {
    var m := members[0];
    PrintStarts(cfg, m.key, level, []);
    hide Print, JoinMembers, NewLine;
    MembersText(cfg, members, level);
    var key := Print(cfg, m.key, level);
    assert (key + [])[0] == key[0];
    assert (JoinMembers(cfg, members, level) + end)[0] == key[0];
  }

  lemma MembersText(cfg: EdnConfig, members: seq<Member>, level: int)
    requires members != []
    ensures JoinMembers(cfg, members, level) ==
            PrintMember(cfg, members[0], level)
            + if |members| == 1 then [] else Separator(cfg, level) + JoinMembers(cfg, members[1..], level)
  {
    hide PrintMember, Separator;
  }

  lemma MembersSkip(t: bytes)
    ensures ReadMembers(SkipSpace(t)) == ReadMembers(t)
    ensures ReadMembers(t).Some? ==> !(SkipSpace(t) != [] && SkipSpace(t)[0] == '}' as int)
  {
    SpaceBefore([], t);
    EmptyConcat(t);
    hide ReadItem, SkipSpace;
    assert ReadMember(SkipSpace(t)) == ReadMember(t);
    if SkipSpace(t) != [] && SkipSpace(t)[0] == '}' as int {
      ReadNothingAt(SkipSpace(t));
    }
  }

  lemma MembersSpace(nl: bytes, t: bytes)
    requires AllSpace(nl)
    ensures ReadMembers(nl + t) == ReadMembers(t)
  {
    SpaceBefore(nl, t);
    hide ReadItem, SkipSpace;
    assert ReadMember(nl + t) == ReadMember(t);
  }

  lemma MemberGoesOn(t: bytes, m: Entry, tail: bytes)
    requires ReadMember(t) == Some((m, tail))
    ensures var v := SkipSpace(tail);
            ReadMembers(t) ==
            if v != [] && v[0] == '}' as int then Some(([m], v[1..]))
            else if v != [] && v[0] == ',' as int then Prepend(m, ReadMembers(v[1..]))
            else None
  {
    hide ReadMember, SkipSpace;
  }

  /** A key, a colon and a value. */
  lemma {:induction false} MemberReads(cfg: EdnConfig, m: Member, level: int, tail: bytes)
    requires ConfigOk(cfg) && DigitsOk(cfg) && WellFormed(m.key) && WellFormed(m.val) && Ends(tail)
    ensures ReadMember(PrintMember(cfg, m, level) + tail) == Some((EntryOf(cfg, m), tail))
    decreases m, 2
  {
    hide ReadItem, Print, ConfigOk, DigitsOk, Ends, SkipSpace, Meaning;
    var key, val, space := Print(cfg, m.key, level), Print(cfg, m.val, level), Sp(cfg.space);
    var behind := space + (val + tail);
    BreakIsSpace(cfg, level, true);
    MemberText(key, space, val, tail);
    ColonEnds(behind);
    ItemReads(cfg, m.key, level, [COLON] + behind);
    ItemReads(cfg, m.val, level, tail);
    SpaceBefore(space, val + tail);
  }

  lemma ColonEnds(behind: bytes)
    ensures var t := [COLON] + behind; Ends(t) && SkipSpace(t) == t && t[0] == ':' as int && t[1..] == behind
  {
    NotSpace([COLON] + behind);
  }

  lemma {:induction false} MembersRead(cfg: EdnConfig, members: seq<Member>, level: int, nl: bytes, tail: bytes)
    requires ConfigOk(cfg) && DigitsOk(cfg) && members != [] && AllSpace(nl)
    requires forall i :: 0 <= i < |members| ==> WellFormed(members[i].key) && WellFormed(members[i].val)
    ensures ReadMembers(JoinMembers(cfg, members, level) + (nl + (['}' as int] + tail))) == Some((EntriesOf(cfg, members), tail))
    decreases members, 1
  {
    hide ReadMember, ReadMembers, PrintMember, NewLine, ConfigOk, DigitsOk, Ends, SkipSpace, EntryOf;
    var end := nl + (['}' as int] + tail);
    var text := PrintMember(cfg, members[0], level);
    if |members| == 1 {
      CloserEnds(nl, '}' as int, tail);
      MemberReads(cfg, members[0], level, end);
      MemberGoesOn(text + end, EntryOf(cfg, members[0]), end);
      assert text + [] == text && [EntryOf(cfg, members[0])] + [] == [EntryOf(cfg, members[0])];
    } else {
      var more, gap := JoinMembers(cfg, members[1..], level), NewLine(cfg, level, true);
      var behind := [COMMA] + (gap + (more + end));
      BreakIsSpace(cfg, level, true);
      MembersRead(cfg, members[1..], level, nl, tail);
      SeparatorEnds(gap, more + end);
      MemberReads(cfg, members[0], level, behind);
      MemberGoesOn(text + behind, EntryOf(cfg, members[0]), behind);
      MembersSpace(gap, more + end);
      SeparatedText(text, gap, more, end);
    }
  }

  // ----- Tags -----

  lemma TagText(number: bytes, front: bytes, text: bytes, nl: bytes, tail: bytes)
    ensures number + [L_PAREN] + (front + text + nl) + [R_PAREN] + tail
            == number + (['(' as int] + (front + (text + (nl + ([')' as int] + tail)))))
  {
    Concat4(number, [L_PAREN], front + text + nl, [R_PAREN]);
    Concat(number, [L_PAREN] + ((front + text + nl) + [R_PAREN]), tail);
    Concat4([L_PAREN], front + text + nl, [R_PAREN], tail);
    Concat([L_PAREN], front + text + nl, [R_PAREN]);
    Concat(front, text, nl);
    Concat(front, text + nl, [R_PAREN] + tail);
    Concat(text, nl, [R_PAREN] + tail);
  }

  lemma TagPrinted(cfg: EdnConfig, id: nat, content: Item, level: int) returns (front: bytes, text: bytes, nl: bytes, at: int)
    requires ConfigOk(cfg)
    ensures AllSpace(front) && AllSpace(nl) && text == Print(cfg, content, at)
    ensures Print(cfg, Item.Tagged(id, content), level) == DecimalInt.Print(id) + [L_PAREN] + (front + text + nl) + [R_PAREN]
  {
    hide DecimalInt.Print, NewLine;
    BreakIsSpace(cfg, Deeper(cfg, level), false);
    BreakIsSpace(cfg, level, false);
    if content.ByteStr? && Wraps(cfg, content.s) {
      front, nl, at := NewLine(cfg, Deeper(cfg, level), false), NewLine(cfg, level, false), Deeper(cfg, level);
    } else {
      front, nl, at := [], [], level;
    }
    text := Print(cfg, content, at);
    if front == [] && nl == [] {
      EmptyConcat(text);
      assert text + [] == text;
    }
  }

  lemma {:induction false} TagReads(cfg: EdnConfig, id: nat, content: Item, level: int, tail: bytes)
    requires ConfigOk(cfg) && DigitsOk(cfg) && WellFormed(content)
    ensures ReadItem(Print(cfg, Item.Tagged(id, content), level) + tail) == Some((Notation.Tagged(id, Meaning(cfg, content)), tail))
    decreases content, 2
  {
    hide ReadItem, Print, DecimalInt.Print, ConfigOk, DigitsOk, Ends, SkipSpace, Meaning, Bare, IsDecimal, Decimal;
    var front, text, nl, at := TagPrinted(cfg, id, content, level);
    var end := nl + ([')' as int] + tail);
    TagText(DecimalInt.Print(id), front, text, nl, tail);
    CloserEnds(nl, ')' as int, tail);
    ItemReads(cfg, content, at, end);
    SpaceBefore(front, text + end);
    NumberReads(id);
    NotTheName(DecimalInt.Print(id));
    Concat(front, text, end);
    InParens(DecimalInt.Print(id), front + text, Meaning(cfg, content), nl, tail);
  }

  lemma NotTheName(w: bytes)
    requires IsDecimal(w)
    ensures w != Ascii("simple")
  {
    assert Ascii("simple")[0] == 's' as int;
  }

  // ----- From bytes -----

  lemma PrintReads(cfg: EdnConfig, item: Item)
    requires ConfigOk(cfg) && DigitsOk(cfg) && WellFormed(item)
    ensures ReadItem(Print(cfg, item, 0)) == Some((Meaning(cfg, item), []))
  {
    ItemReads(cfg, item, 0, []);
    assert Print(cfg, item, 0) + [] == Print(cfg, item, 0);
    hide Print, ReadItem, Meaning, DigitsOk;
  }

  /**
   Any well-formed data within the depth limit is printed, and the output says what the data says: read
   back, it is what the item means that the data spells.
   */
  lemma WellFormedDataReads(cfg: EdnConfig, s: bytes) returns (item: Item)
    requires ConfigOk(cfg) && DigitsOk(cfg) && EdnItems.Small(s) && AppendixC.Check(s, false).WellFormed?
    ensures EdnItems.Reads(s, item, AppendixC.Check(s, false).rest)
    ensures Nesting(item) <= cfg.maxDepth ==>
              var o := DriveBytes(cfg, EdnState([], 0, Bottom), s);
              o.Finished? && ReadItem(o.st.out) == Some((Meaning(cfg, item), []))
  {
    hide DriveBytes, Print, AppendixC.Check, ReadItem, Meaning, DigitsOk, EdnRefinement.Spells;
    item := EdnItems.WellFormedDataPrints(cfg, s);
    PrintReads(cfg, item);
  }
}
