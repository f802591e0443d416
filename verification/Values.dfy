/** The values the codec works on, and what can go wrong. */
module Values {
  import opened Bytes
  import opened Wrappers

  /**
   A PHP value. `stdClass` objects are handles: `Obj(id)` is a reference to entry `id` of a heap,
   so one object can be referred to from several places, itself included. A list is an array
   with keys 0, 1, 2, ... in order. An integer outside the range of a PHP integer stands for
   the intermediate value a decoder carries for it.
   */
  datatype Val =
    | Null
    | Undefined
    | Bool(b: bool)
    | Int(i: int)
    | Float(raw: uint64)     // PHP float, as a binary64 pattern
    | Float16(raw16: uint16) // Cbor\Float16
    | Float32(raw32: uint32) // Cbor\Float32
    | Str(s: bytes)          // PHP string
    | ByteStr(s: bytes)      // Cbor\Byte
    | TextStr(s: bytes)      // Cbor\Text
    | List(elems: seq<Val>)
    | Obj(id: nat)
    | Tag(tag: int, content: Val)  // Cbor\Tag

  datatype Prop = Prop(key: bytes, val: Val)

  /** The properties of an object, in insertion order. */
  type Props = seq<Prop>
  type Heap = seq<Props>

  const LONG_MAX := 0x7fff_ffff_ffff_ffff
  const LONG_MIN := -0x8000_0000_0000_0000

  predicate IsLong(i: int) { LONG_MIN <= i <= LONG_MAX }

  /** An integer PHP cannot represent. */
  predicate IsBigInt(v: Val) { v.Int? && !IsLong(v.i) }

  /** Values that are instances of a PHP class. */
  predicate IsObject(v: Val) {
    v.Undefined? || v.Float16? || v.Float32? || v.ByteStr? || v.TextStr? || v.Obj? || v.Tag?
  }

  /** Position of `key`, or the number of properties. */
  function FindKey(props: Props, key: bytes): (i: nat)
    ensures i <= |props|
    ensures i < |props| ==> props[i].key == key
  {
    if props == [] || props[0].key == key then 0 else 1 + FindKey(props[1..], key)
  }

  predicate HasKey(props: Props, key: bytes) { FindKey(props, key) < |props| }

  /** Writing a property overwrites it in place or appends it. */
  function SetProp(props: Props, key: bytes, v: Val): Props {
    var i := FindKey(props, key);
    if i < |props| then props[i := Prop(key, v)] else props + [Prop(key, v)]
  }

  predicate DistinctKeys(props: Props) {
    forall i, j :: 0 <= i < j < |props| ==> props[i].key != props[j].key
  }

  datatype Error =
    | Depth
    | Recursion
    | BreakUnderflow
    | BreakUnexpected
    | InconsistentStringType
    | IndefStringChunkType
    | InvalidTagNumber
    | InvalidUtf8
    | UnsupportedSimple
    | IntRange
    | UnsupportedSize
    | UnsupportedKeyType
    | ReservedPropName
    | DuplicateKey
    | TruncatedData
    | MalformedData
    | ExtraneousData
    | StrRefWithoutNamespace
    | StrRefNotInt
    | StrRefRange
    | ShareNested
    | ShareIncompatible
    | ShareNotInt
    | ShareRange
    | NoStringFlag
    | NoKeyStringFlag
    | NegativeTag
    | TagType
    | TagSyntax
    | TagValue
    | UnsupportedValue
    | Internal

  // ----- Lookup -----

  lemma {:induction false} FindKeyIsFirst(props: Props, key: bytes)
    ensures forall j :: 0 <= j < FindKey(props, key) ==> props[j].key != key
  {
    if props != [] && props[0].key != key {
      FindKeyIsFirst(props[1..], key);
      forall j | 0 <= j < FindKey(props, key) ensures props[j].key != key {
        assert j > 0 ==> props[j] == props[1..][j - 1];
      }
    }
  }

  lemma NewKeyIsAppended(props: Props, key: bytes, v: Val)
    requires forall j :: 0 <= j < |props| ==> props[j].key != key
    ensures !HasKey(props, key) && SetProp(props, key, v) == props + [Prop(key, v)]
  {
    var i := FindKey(props, key);
  }

  /** Writing keeps keys distinct, sets the written key and leaves the others alone. */
  lemma SetPropIsUpdate(props: Props, key: bytes, v: Val)
    requires DistinctKeys(props)
    ensures var r := SetProp(props, key, v);
            && DistinctKeys(r) && HasKey(r, key) && r[FindKey(r, key)].val == v
            && |r| == |props| + (if HasKey(props, key) then 0 else 1)
            && forall j :: 0 <= j < |props| && props[j].key != key ==> r[j] == props[j]
  {
    FindKeyIsFirst(props, key);
    var r := SetProp(props, key, v);
    var i := FindKey(props, key);
    FindKeyIsFirst(r, key);
    assert r[i].key == key;
  }
}
