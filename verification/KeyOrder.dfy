/** The order of encoded keys, sorting by it, and that different names have different encoded keys. */
module KeyOrder {
  import opened Bytes
  import opened Wrappers
  import opened Values
  import opened Wire
  import opened DecoderConfig
  import opened Encoder
  import DecimalInt

  // ----- The order of memcmp -----

  /** At the first place where they differ the byte is less, or the string has ended. */
  predicate LessAt(a: bytes, b: bytes, k: nat) {
    && k <= |a| && k <= |b| && a[..k] == b[..k]
    && ((k == |a| && k < |b|) || (k < |a| && k < |b| && a[k] < b[k]))
  }

  lemma {:induction false} LessSomewhere(a: bytes, b: bytes) returns (k: nat)
    requires BytesLess(a, b)
    ensures LessAt(a, b, k)
  {
    k := 0;
    if a != [] && a[0] == b[0] {
      k := LessSomewhere(a[1..], b[1..]);
      k := k + 1;
      assert a[..k] == [a[0]] + a[1..][..k - 1] && b[..k] == [b[0]] + b[1..][..k - 1];
    }
  }

  lemma {:induction false} LessFrom(a: bytes, b: bytes, k: nat)
    requires LessAt(a, b, k)
    ensures BytesLess(a, b)
  {
    if k > 0 {
      assert a[0] == a[..k][0] && b[0] == b[..k][0];
      assert a[1..][..k - 1] == a[..k][1..] && b[1..][..k - 1] == b[..k][1..];
      LessFrom(a[1..], b[1..], k - 1);
    }
  }

  /** Bytewise, a proper prefix coming first. */
  ghost predicate Precedes(a: bytes, b: bytes) { exists k: nat :: LessAt(a, b, k) }

  lemma LessIsBytewise(a: bytes, b: bytes)
    ensures BytesLess(a, b) <==> Precedes(a, b)
  {
    if BytesLess(a, b) {
      var k := LessSomewhere(a, b);
    } else if k: nat :| LessAt(a, b, k) {
      LessFrom(a, b, k);
    }
  }

  // ----- A strict total order -----

  lemma {:induction false} LessIrreflexive(a: bytes)
    ensures !BytesLess(a, a)
  {
    if a != [] {
      LessIrreflexive(a[1..]);
    }
  }

  lemma {:induction false} LessTransitive(a: bytes, b: bytes, c: bytes)
    requires BytesLess(a, b) && BytesLess(b, c)
    ensures BytesLess(a, c)
  {
    if a != [] && a[0] == b[0] && b[0] == c[0] {
      LessTransitive(a[1..], b[1..], c[1..]);
    }
  }

  lemma {:induction false} LessTotal(a: bytes, b: bytes)
    ensures BytesLess(a, b) || a == b || BytesLess(b, a)
  {
    if a != [] && b != [] && a[0] == b[0] {
      LessTotal(a[1..], b[1..]);
      assert a == [a[0]] + a[1..] && b == [b[0]] + b[1..];
    }
  }

  // ----- Sorting -----

  predicate Ascending(entries: seq<Entry>) {
    forall i, j :: 0 <= i < j < |entries| ==> BytesLess(entries[i].key, entries[j].key)
  }

  predicate DistinctEntries(entries: seq<Entry>) {
    forall i, j :: 0 <= i < j < |entries| ==> entries[i].key != entries[j].key
  }

  ghost predicate SameMembers(s: seq<Entry>, t: seq<Entry>) { |s| == |t| && forall e :: e in s <==> e in t }

  lemma {:induction false} InsertMembers(entries: seq<Entry>, e: Entry)
    ensures SameMembers(Insert(entries, e), [e] + entries)
  {
    if entries != [] && !BytesLess(e.key, entries[0].key) {
      InsertMembers(entries[1..], e);
      assert entries == [entries[0]] + entries[1..];
    }
  }

  lemma {:induction false} InsertAscends(entries: seq<Entry>, e: Entry)
    requires Ascending(entries) && forall i :: 0 <= i < |entries| ==> entries[i].key != e.key
    ensures Ascending(Insert(entries, e))
  {
    if entries == [] {
    } else if BytesLess(e.key, entries[0].key) {
      forall j | 0 <= j < |entries| ensures BytesLess(e.key, entries[j].key) {
        if j > 0 {
          LessTransitive(e.key, entries[0].key, entries[j].key);
        }
      }
    } else {
      var rest := Insert(entries[1..], e);
      InsertAscends(entries[1..], e);
      InsertMembers(entries[1..], e);
      LessTotal(e.key, entries[0].key);
      forall j | 0 <= j < |rest| ensures BytesLess(entries[0].key, rest[j].key) {
        assert rest[j] in [e] + entries[1..];
      }
    }
  }

  /** Sorting keeps the entries and, if their keys differ, puts them in strictly ascending order. */
  lemma {:induction false} SortSorts(entries: seq<Entry>)
    ensures SameMembers(SortByKey(entries), entries)
    ensures DistinctEntries(entries) ==> Ascending(SortByKey(entries))
  {
    if entries != [] {
      var rest := SortByKey(entries[1..]);
      SortSorts(entries[1..]);
      InsertMembers(rest, entries[0]);
      SortedMember(entries, rest);
      if DistinctEntries(entries) {
        forall i | 0 <= i < |rest| ensures rest[i].key != entries[0].key {
          assert rest[i] in entries[1..];
        }
        InsertAscends(rest, entries[0]);
      }
    }
  }

  lemma SortedMember(entries: seq<Entry>, rest: seq<Entry>)
    requires entries != [] && SameMembers(rest, entries[1..])
    ensures SameMembers([entries[0]] + rest, entries)
  {
    assert entries == [entries[0]] + entries[1..];
  }

  // ----- Encoded keys -----

  /** The token of a property name. */
  function KeyToken(ec: EncConfig, name: bytes): Token {
    var i := DecimalInt.Parse(name);
    if ec.intKey && i.Some? then IntToken(i.value) else StringToken(name, ec.keys.AsText?)
  }

  lemma EncKeyIsToken(ec: EncConfig, st: EncState, name: bytes)
    requires st.srns.None? && EncKey(ec, st, name).Ok?
    ensures EncKey(ec, st, name) == Ok(Out(Write(KeyToken(ec, name)), st))
  {
  }

  /** With CBOR_INT_KEY exactly the names that are the canonical text of an integer are written as one, and as that one. */
  lemma KeyIsInteger(ec: EncConfig, st: EncState, name: bytes, i: int)
    ensures ec.intKey && DecimalInt.InRange(i) && name == DecimalInt.Print(i)
            ==> EncKey(ec, st, name) == Ok(Out(Write(if i >= 0 then UInt(i) else NInt(-1 - i)), st))
    ensures KeyToken(ec, name) == (if i >= 0 then UInt(i) else NInt(-1 - i))
            <==> ec.intKey && DecimalInt.InRange(i) && name == DecimalInt.Print(i)
  {
    hide Write, DecimalInt.Print, DecimalInt.Parse;
    DecimalInt.ParseIffPrinted(name, i);
  }

  lemma KeyWritable(ec: EncConfig, name: bytes)
    requires |name| < UINT64_LIMIT - 9
    ensures Writable(KeyToken(ec, name))
  {
    if ec.intKey && DecimalInt.Parse(name).Some? {
      DecimalInt.ParsedIsPrinted(name);
    }
  }

  /** Names that look like integers included: only equal names have equal keys. */
  lemma KeyIsInjective(ec: EncConfig, a: bytes, b: bytes)
    requires |a| < UINT64_LIMIT - 9 && |b| < UINT64_LIMIT - 9
    requires Write(KeyToken(ec, a)) == Write(KeyToken(ec, b))
    ensures a == b
  {
    KeyWritable(ec, a);
    KeyWritable(ec, b);
    TokenRoundTrip(KeyToken(ec, a), []);
    TokenRoundTrip(KeyToken(ec, b), []);
    assert KeyToken(ec, a) == KeyToken(ec, b);
    hide Write, Lex, DecimalInt.Parse;
    if ec.intKey && DecimalInt.Parse(a).Some? {
      DecimalInt.ParsedIsPrinted(a);
    }
    if ec.intKey && DecimalInt.Parse(b).Some? {
      DecimalInt.ParsedIsPrinted(b);
    }
  }
}
