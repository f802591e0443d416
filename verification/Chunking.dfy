/**
 Chunking independence of the incremental decoder: however a stream is cut into chunks and
 whenever `process` is called in between, the values given out are the successive items of the
 stream (a CBOR sequence, section 2 of RFC 8742), up to the first error.
 */
module Chunking {
  import opened Bytes
  import opened Wrappers
  import opened Values
  import opened DecoderConfig
  import opened StackMachine
  import opened IncrementalDecoder
  import opened Refinement
  import Invariants

  /** What a user of the decoder does. */
  datatype Op = Feed(chunk: bytes) | Poll

  /** The values given out, the bytes not used by them, and the error that ended it. */
  datatype Trace = Trace(values: seq<Yield>, pending: bytes, error: Option<Error>)

  function Input(op: Op): bytes { if op.Feed? then op.chunk else [] }

  /** All bytes of a session. */
  function Fed(ops: seq<Op>): bytes { if ops == [] then [] else Input(ops[0]) + Fed(ops[1..]) }

  /** What one operation observes, `pending` being the bytes not used so far. */
  function Observe(cfg: Config, op: Op, pending: bytes): Trace {
    match op
    case Feed(chunk) => Trace([], pending + chunk, None)
    case Poll =>
      match Process(cfg, Start(cfg), pending)
      case Complete(v, env, rest) => Trace([Yield(v, env)], rest, None)
      case Rejected(e) => Trace([], pending, Some(e))
      case Waiting(_, _) => Trace([], pending, None)
  }

  /** What a session up to its first error observes. */
  function Play(cfg: Config, ops: seq<Op>, pending: bytes): Trace {
    if ops == [] then Trace([], pending, None)
    else
      var first := Observe(cfg, ops[0], pending);
      if first.error.Some? then first
      else
        var t := Play(cfg, ops[1..], first.pending);
        t.(values := first.values + t.values)
  }

  /** The successive items of a stream, decoded one by one by recursive descent. */
  function Items(cfg: Config, s: bytes): seq<Yield>
    decreases |s|
  {
    match DecodeAfterPrefix(cfg, s)
    case Got(v, env, rest) => [Yield(v, env)] + Items(cfg, rest)
    case Failed(_) => []
  }

  /** Why there is no further item: the stream is truncated, or in error. */
  function Ending(cfg: Config, s: bytes): Error
    decreases |s|
  {
    match DecodeAfterPrefix(cfg, s)
    case Got(_, _, rest) => Ending(cfg, rest)
    case Failed(e) => e
  }

  /** `t` has given out items of the stream `s`, and what it has not used holds the others. */
  predicate Splits(cfg: Config, t: Trace, s: bytes) {
    if t.error.Some? then Items(cfg, s) == t.values && Ending(cfg, s) == t.error.value
    else Items(cfg, s) == t.values + Items(cfg, t.pending) && Ending(cfg, s) == Ending(cfg, t.pending)
  }

  lemma {:induction false} SessionSplitsStream(cfg: Config, ops: seq<Op>, pending: bytes)
    requires !cfg.limited
    ensures Splits(cfg, Play(cfg, ops, pending), pending + Fed(ops))
    decreases |ops|
  {
    hide Process, DecodeAfterPrefix;
    var s := pending + Fed(ops);
    if ops == [] {
      assert s == pending;
    } else {
      match ops[0]
      case Feed(chunk) =>
        SessionSplitsStream(cfg, ops[1..], pending + chunk);
        assert s == pending + chunk + Fed(ops[1..]);
      case Poll =>
        assert Fed(ops) == Fed(ops[1..]);
        ProcessResumes(cfg, Start(cfg), pending, Fed(ops));
        ProcessRefinesRecursion(cfg, s);
        var r := Process(cfg, Start(cfg), pending);
        match r
        case Complete(v, env, rest) =>
          SessionSplitsStream(cfg, ops[1..], rest);
          assert Items(cfg, s) == [Yield(v, env)] + Items(cfg, rest + Fed(ops));
        case Rejected(e) =>
        case Waiting(_, _) => SessionSplitsStream(cfg, ops[1..], pending);
    }
  }

  /** The session has been polled until it had nothing more to give. */
  predicate Drained(cfg: Config, t: Trace) {
    t.error.Some? || Process(cfg, Start(cfg), t.pending).Waiting?
  }

  /**
   The values of a session are a prefix of the items of its stream. If it was drained they are all
   of them, and what is left is truncated, or the error of the session is the error of the stream.
   */
  lemma ChunkingIndependence(cfg: Config, ops: seq<Op>)
    requires !cfg.limited
    ensures var t, s := Play(cfg, ops, []), Fed(ops);
            && t.values <= Items(cfg, s)
            && (t.error.Some? ==> Ending(cfg, s) == t.error.value)
            && (Drained(cfg, t) ==> t.values == Items(cfg, s))
            && (Drained(cfg, t) && t.error.None? ==> Ending(cfg, s) == TruncatedData)
  {
    hide Process, DecodeAfterPrefix;
    var t := Play(cfg, ops, []);
    SessionSplitsStream(cfg, ops, []);
    assert [] + Fed(ops) == Fed(ops);
    ProcessRefinesRecursion(cfg, t.pending);
  }

  /** Missing bytes are never an error. */
  lemma {:induction false} TruncationIsNoError(cfg: Config, ops: seq<Op>, pending: bytes)
    ensures Play(cfg, ops, pending).error != Some(TruncatedData)
  {
    hide Drive, SkipPrefix;
    if ops != [] && Observe(cfg, ops[0], pending).error.None? {
      TruncationIsNoError(cfg, ops[1..], Observe(cfg, ops[0], pending).pending);
    }
  }

  /** Two drained sessions over the same bytes give the same values and end alike. */
  lemma SplitsAgree(cfg: Config, ops: seq<Op>, ops': seq<Op>)
    requires !cfg.limited && Fed(ops) == Fed(ops')
    requires Drained(cfg, Play(cfg, ops, [])) && Drained(cfg, Play(cfg, ops', []))
    ensures Play(cfg, ops, []).values == Play(cfg, ops', []).values
    ensures Play(cfg, ops, []).error == Play(cfg, ops', []).error
  {
    TruncationIsNoError(cfg, ops, []);
    TruncationIsNoError(cfg, ops', []);
    hide Process, Play, Items, Ending;
    ChunkingIndependence(cfg, ops);
    ChunkingIndependence(cfg, ops');
  }

  lemma FedNext(ops: seq<Op>, i: nat)
    requires i < |ops|
    ensures Fed(ops[..i + 1]) == Fed(ops[..i]) + Input(ops[i])
    ensures |Fed(ops[..i + 1])| <= |Fed(ops)|
  {
    FedSplits(ops, i + 1);
    FedSplits(ops[..i + 1], i);
    assert ops[..i + 1][..i] == ops[..i] && ops[..i + 1][i..] == [ops[i]];
    assert Fed([ops[i]]) == Input(ops[i]);
  }

  lemma {:induction false} FedSplits(ops: seq<Op>, i: nat)
    requires i <= |ops|
    ensures Fed(ops) == Fed(ops[..i]) + Fed(ops[i..])
  {
    if i == 0 {
      assert ops[0..] == ops;
    } else {
      FedSplits(ops[1..], i - 1);
      assert ops[..i][1..] == ops[1..][..i - 1];
      assert ops[1..][i - 1..] == ops[i..];
    }
  }

  lemma WholeChunk(chunk: bytes)
    ensures Substr(chunk, 0, None) == chunk
  {
  }

  method FeedChunk(decoder: Decoder, chunk: bytes, isOwned: bool)
    requires decoder.Valid() && |decoder.added + chunk| < UINT64_LIMIT
    modifies decoder`buffer, decoder`added, decoder.mem, if isOwned then {decoder.buffer} else {}
    ensures decoder.Valid() && decoder.added == old(decoder.added) + chunk
    ensures decoder.buffer == old(decoder.buffer) || fresh(decoder.buffer)
  {
    hide Process, Invariants.InOrder;
    var src := new byte[|chunk|](j requires 0 <= j < |chunk| => chunk[j]);
    assert src[..] == chunk;
    WholeChunk(chunk);
    hide Substr;
    var added := decoder.Add(src, 0, None, isOwned);
  }

  method Apply(decoder: Decoder, op: Op, isOwned: bool) returns (values: seq<Yield>, error: Option<Error>)
    requires decoder.Valid() && |decoder.added + Input(op)| < UINT64_LIMIT
    modifies decoder, decoder.mem
    modifies if isOwned then {decoder.buffer} else {}, if decoder.ctx == null then {} else {decoder.ctx}
    ensures decoder.Valid() && decoder.added == old(decoder.added) + Input(op)
    ensures values == Observe(decoder.cfg, op, old(decoder.Pending())).values
    ensures error == Observe(decoder.cfg, op, old(decoder.Pending())).error
    ensures error.None? ==> decoder.Pending() == Observe(decoder.cfg, op, old(decoder.Pending())).pending
    ensures decoder.buffer == old(decoder.buffer) || fresh(decoder.buffer)
    ensures decoder.ctx == null || decoder.ctx == old(decoder.ctx) || fresh(decoder.ctx)
  {
    hide Process;
    values, error := [], None;
    match op
    case Feed(chunk) =>
      FeedChunk(decoder, chunk, isOwned);
    case Poll =>
      var r := decoder.Poll(isOwned);
      if r.Err? {
        error := Some(r.error);
      } else if r.value {
        var y := decoder.GetValue(true);
        values := [y.value];
      }
  }

  // ----- A session with an object -----

  /** After `i` operations: what has been given out, and what is still to come from `pending`. */
  predicate Midway(cfg: Config, ops: seq<Op>, i: nat, values: seq<Yield>, pending: bytes) {
    && i <= |ops|
    && Play(cfg, ops, []) == var t := Play(cfg, ops[i..], pending); t.(values := values + t.values)
  }

  lemma SessionStarts(cfg: Config, ops: seq<Op>)
    ensures Midway(cfg, ops, 0, [], []) && Fed(ops[..0]) == []
  {
    assert ops[0..] == ops;
    EmptyConcat(Play(cfg, ops, []).values);
  }

  /** The next operation. */
  lemma SessionGoesOn(cfg: Config, ops: seq<Op>, i: nat, values: seq<Yield>, pending: bytes)
    requires i < |ops| && Midway(cfg, ops, i, values, pending)
    ensures var t := Observe(cfg, ops[i], pending);
            if t.error.Some? then SameResult(Play(cfg, ops, []), values + t.values, t.error)
            else Midway(cfg, ops, i + 1, values + t.values, t.pending)
    ensures Fed(ops[..i + 1]) == Fed(ops[..i]) + Input(ops[i]) && |Fed(ops[..i + 1])| <= |Fed(ops)|
  {
    hide Observe;
    FedNext(ops, i);
    assert ops[i..][0] == ops[i] && ops[i..][1..] == ops[i + 1..];
    var t := Observe(cfg, ops[i], pending);
    Concat(values, t.values, Play(cfg, ops[i + 1..], t.pending).values);
  }

  lemma SessionEnds(cfg: Config, ops: seq<Op>, values: seq<Yield>, pending: bytes)
    requires Midway(cfg, ops, |ops|, values, pending)
    ensures SameResult(Play(cfg, ops, []), values, None)
  {
  }

  predicate SameResult(t: Trace, values: seq<Yield>, error: Option<Error>) { t.values == values && t.error == error }

  /** A session with a decoder object, whoever else holds its buffer at any moment. */
  method Session(cfg: Config, ops: seq<Op>) returns (values: seq<Yield>, error: Option<Error>)
    requires !cfg.limited && |Fed(ops)| < UINT64_LIMIT
    ensures SameResult(Play(cfg, ops, []), values, error)
  {
    hide Process, Fed, Observe, Play, Invariants.InOrder, Midway, SameResult;
    var decoder := new Decoder(cfg);
    values, error := [], None;
    SessionStarts(cfg, ops);
    assert decoder.Pending() == [];
    hide Decoder.Valid, Decoder.Pending;
    for i := 0 to |ops|
      invariant fresh(decoder) && fresh(decoder.mem) && decoder.Valid() && decoder.cfg == cfg
      invariant fresh(decoder.buffer) && (decoder.ctx != null ==> fresh(decoder.ctx))
      invariant decoder.added == Fed(ops[..i]) && error.None?
      invariant Midway(cfg, ops, i, values, decoder.Pending())
    {
      SessionGoesOn(cfg, ops, i, values, decoder.Pending());
      var isOwned: bool := *;
      var more;
      more, error := Apply(decoder, ops[i], isOwned);
      values := values + more;
      if error.Some? {
        return;
      }
    }
    SessionEnds(cfg, ops, values, decoder.Pending());
  }
}
