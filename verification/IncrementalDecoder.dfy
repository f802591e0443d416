/**
 The incremental `Decoder` class of decoder.c: bytes are added in chunks to a buffer and items are
 decoded as they become complete.
 */
module IncrementalDecoder {
  import opened Bytes
  import opened Wrappers
  import opened Values
  import opened DecoderConfig
  import opened StackMachine
  import opened DecodeContext
  import RecursiveDecoder
  import Refinement

  function Min(a: int, b: int): int { if a < b then a else b }

  /** The part of a string that PHP's `substr` selects. */
  function Substr(s: bytes, offset: int, length: Option<int>): bytes {
    var start := if offset < 0 then Max(0, |s| + offset) else Min(offset, |s|);
    var end := if length.None? then |s|
               else if length.value < 0 then Max(start, |s| + length.value)
               else Min(start + length.value, |s|);
    s[start..end]
  }

  /** A decoded value with the objects it refers to. */
  datatype Yield = Yield(val: Val, env: Env)

  const SHRINK_OFFSET := 512 * 1024

  lemma NothingNew(cfg: Config, p: Progress)
    ensures Process(cfg, p, []) == Waiting(p, [])
  {
  }

  /** Two decodings that are bound to end alike still are when the same bytes are added to both. */
  lemma StreamGrows(cfg: Config, p: Progress, s: bytes, q: Progress, t: bytes, more: bytes)
    requires !cfg.limited && Process(cfg, p, s) == Process(cfg, q, t)
    ensures Process(cfg, p, s + more) == Process(cfg, q, t + more)
  {
    ProcessResumes(cfg, p, s, more);
    ProcessResumes(cfg, q, t, more);
  }

  lemma WaitingGoesOn(cfg: Config, p: Progress, s: bytes)
    requires !cfg.limited
    ensures match Process(cfg, p, s)
            case Waiting(p1, rest) => Process(cfg, p1, rest) == Process(cfg, p, s)
            case _ => true
  {
    ProcessResumes(cfg, p, s, []);
    assert s + [] == s;
    var r := Process(cfg, p, s);
    if r.Waiting? {
      assert r.rest + [] == r.rest;
    }
  }

  class Decoder {
    const cfg: Config
    const mem: Fragment
    var buffer: array<byte>
    var ctx: Context?
    var data: Option<Yield>

    /** Everything added since the last reset, and where in it the current item starts. */
    ghost var added: bytes
    ghost var itemStart: nat

    constructor (cfg: Config)
      requires !cfg.limited
      ensures Valid() && fresh(this) && fresh(mem) && fresh(buffer)
      ensures this.cfg == cfg && added == [] && itemStart == 0 && data == None && !IsPartial()
    {
      this.cfg := cfg;
      var empty := new byte[0];
      mem := new Fragment(empty);
      buffer, ctx, data := empty, null, None;
      added, itemStart := [], 0;
    }

    /** Bytes read since the last reset. */
    function Consumed(): nat
      reads this, mem
    {
      mem.base + mem.offset
    }

    function Unread(): bytes
      requires mem.offset <= mem.length <= buffer.Length
      reads this, mem, buffer
    {
      buffer[mem.offset..mem.length]
    }

    /**
     The buffer holds what was added and not read yet. A decoding in progress will end as decoding
     all bytes from the start of the item would.
     */
    ghost predicate Valid()
      reads this, mem, buffer, if ctx == null then {} else {ctx}
    {
      && !cfg.limited
      && mem.offset <= mem.length <= buffer.Length
      && itemStart <= Consumed() <= |added|
      && Unread() == added[Consumed()..]
      && (ctx == null ==> itemStart == Consumed())
      && (ctx != null ==>
            && ctx.mem == mem && ctx.cfg == cfg && ctx.Valid()
            && Process(cfg, ctx.GetProgress(), Unread()) == Process(cfg, Start(cfg), added[itemStart..]))
    }

    predicate IsPartial()
      reads this
    {
      ctx != null
    }

    method GetBuffer() returns (copy: bytes)
      requires Valid()
      ensures added[..Consumed()] + copy == added
    {
      copy := buffer[mem.offset..mem.length];
    }

    /** `reset_buffer_offset`: moves the unread bytes to the front, in place. */
    method ResetBufferOffset()
      requires mem.offset <= mem.length <= buffer.Length
      modifies buffer, mem
      ensures mem.offset == 0 && mem.length == old(mem.length) - old(mem.offset) <= buffer.Length
      ensures mem.base == old(Consumed()) && mem.ptr == old(mem.ptr)
      ensures Unread() == old(Unread())
    {
      if mem.offset == 0 {
        return;
      }
      var n, d := mem.length - mem.offset, mem.offset;
      forall i | 0 <= i < n {
        buffer[i] := buffer[d + i];
      }
      mem.length := n;
      mem.base := mem.base + mem.offset;
      mem.offset := 0;
    }

    /** A new buffer of `size` bytes with the first `n` bytes of `src` from `from` on. */
    static method CopyOf(src: array<byte>, from: nat, n: nat, size: nat) returns (dst: array<byte>)
      requires from + n <= src.Length && n <= size
      ensures fresh(dst) && dst.Length == size && dst[..n] == src[from..from + n]
    {
      dst := new byte[size](_ => 0);
      forall i | 0 <= i < n {
        dst[i] := src[from + i];
      }
    }

    /** `add` with a part of `src` to be copied: the buffer is separated if it is shared, and grown. */
    method Append(src: array<byte>, from: nat, n: nat, isOwned: bool)
      requires mem.offset <= mem.length <= buffer.Length && from + n <= src.Length
      requires isOwned ==> buffer != src
      modifies this`buffer, mem, if isOwned then {buffer} else {}
      ensures mem.offset <= mem.length <= buffer.Length
      ensures Consumed() == old(Consumed()) && Unread() == old(Unread()) + old(src[from..from + n])
      ensures buffer == old(buffer) || fresh(buffer)
    {
      if !isOwned {
        Separate(n);
      }
      MakeRoom(n);
      CopyToEnd(src, from, n);
    }

    /** Replaces a shared buffer by one of its own, with room for `n` more bytes. */
    method Separate(n: nat)
      requires mem.offset <= mem.length <= buffer.Length
      modifies this`buffer, mem
      ensures mem.offset <= mem.length && mem.length + n <= buffer.Length && fresh(buffer)
      ensures Consumed() == old(Consumed()) && Unread() == old(Unread())
    {
      var length := mem.length - mem.offset;
      buffer := CopyOf(buffer, mem.offset, length, length + n);
      mem.base := mem.base + mem.offset;
      mem.length := length;
      mem.offset := 0;
    }

    /** Makes room for `n` more bytes, by moving the unread bytes to the front or by growing. */
    method MakeRoom(n: nat)
      requires mem.offset <= mem.length <= buffer.Length
      modifies this`buffer, mem, if mem.length + n > buffer.Length then {buffer} else {}
      ensures mem.offset <= mem.length && mem.length + n <= buffer.Length
      ensures Consumed() == old(Consumed()) && Unread() == old(Unread())
      ensures buffer == old(buffer) || fresh(buffer)
      ensures old(mem.length + n <= buffer.Length) ==> buffer == old(buffer)
    {
      if mem.length + n > buffer.Length {
        ResetBufferOffset();
        var newSize := mem.length + n;
        if newSize > buffer.Length {
          ghost var unread := Unread();
          buffer := CopyOf(buffer, 0, mem.length, newSize);
          assert Unread() == unread;
        }
      }
    }

    method CopyToEnd(src: array<byte>, from: nat, n: nat)
      requires mem.offset <= mem.length && mem.length + n <= buffer.Length && from + n <= src.Length && buffer != src
      modifies mem`length, buffer
      ensures mem.offset <= mem.length <= buffer.Length
      ensures Unread() == old(Unread()) + src[from..from + n]
    {
      var end := mem.length;
      forall i | 0 <= i < n {
        buffer[end + i] := src[from + i];
      }
      mem.length := end + n;
      assert buffer[end..end + n] == src[from..from + n];
      assert Unread() == buffer[mem.offset..end] + buffer[end..end + n];
    }

    /** What `add` does to the buffer; `chunk` is the part of `src` that is selected. */
    method Store(src: array<byte>, offset: int, length: Option<int>, isOwned: bool, ghost chunk: bytes) returns (ok: bool)
      requires mem.offset <= mem.length <= buffer.Length && (isOwned ==> buffer != src)
      requires chunk == Substr(src[..], offset, length)
      modifies this`buffer, mem, if isOwned then {buffer} else {}
      ensures mem.offset <= mem.length <= buffer.Length && Consumed() == old(Consumed())
      ensures ok ==> Unread() == old(Unread()) + chunk
      ensures !ok ==> Unread() == old(Unread()) && old(mem.length) + |chunk| >= UINT64_LIMIT
      ensures buffer == old(buffer) || buffer == src || fresh(buffer)
    {
      var dataOff := if offset < 0 then Max(0, src.Length + offset) else Min(offset, src.Length);
      var wholeRest, dataLen := length.None?, 0;
      ok := true;
      if length.Some? {
        dataLen := length.value;
        if dataLen == 0 {
          assert Unread() == old(Unread()) + chunk;
          return;
        } else if dataLen < 0 {
          dataLen := Max(0, Max(0, dataLen + src.Length) - dataOff);
        } else if dataLen >= src.Length - dataOff {
          wholeRest := true;
        }
      }
      if dataOff >= src.Length {
        assert Unread() == old(Unread()) + chunk;
        return;
      }
      var appendLen := if wholeRest then src.Length - dataOff else Min(dataLen, src.Length - dataOff);
      assert chunk == src[dataOff..dataOff + appendLen];
      if mem.offset == mem.length && dataOff == 0 && wholeRest {
        buffer := src;
        mem.base := mem.base + mem.offset;
        mem.offset := 0;
        mem.length := src.Length;
      } else {
        if appendLen > UINT64_LIMIT - 1 - mem.length {
          return false;
        }
        Append(src, dataOff, appendLen, isOwned);
      }
    }

    /**
     `add`: appends the selected part of `src`. `isOwned` tells whether nobody else holds the
     buffer; a buffer that is shared is never written to. Fails if the length would not fit.
     */
    method Add(src: array<byte>, offset: int, length: Option<int>, isOwned: bool) returns (ok: bool)
      requires Valid() && (isOwned ==> buffer != src)
      modifies this`buffer, this`added, mem, if isOwned then {buffer} else {}
      ensures Valid() && Consumed() == old(Consumed())
      ensures ok ==> added == old(added) + Substr(old(src[..]), offset, length)
      ensures !ok ==> added == old(added) && old(mem.length) + |Substr(old(src[..]), offset, length)| >= UINT64_LIMIT
      ensures buffer == old(buffer) || buffer == src || fresh(buffer)
    {
      hide Substr, StackMachine.Process, Invariants.InOrder;
      ghost var chunk := Substr(src[..], offset, length);
      ghost var unread := Unread();
      ok := Store(src, offset, length, isOwned, chunk);
      if ok {
        if ctx != null {
          StreamGrows(cfg, ctx.GetProgress(), unread, Start(cfg), added[itemStart..], chunk);
          SuffixConcat(added, chunk, itemStart);
        }
        SuffixConcat(added, chunk, Consumed());
        added := added + chunk;
      }
    }

    /** What the next `process` will find: everything from the start of the current item. */
    ghost function Pending(): bytes
      requires itemStart <= |added|
      reads this
    {
      added[itemStart..]
    }

    /** What a call of `process` with `pending` pending did, given how decoding it ends. */
    ghost predicate Polled(r: Processed, pending: bytes, error: Option<Error>)
      requires itemStart <= |added|
      reads this
    {
      match r
      case Complete(v, env, rest) => error.None? && data == Some(Yield(v, env)) && Pending() == rest && !IsPartial()
      case Rejected(e) => error == Some(e) && data.None? && !IsPartial()
      case Waiting(_, _) => error.None? && data.None? && Pending() == pending
    }

    /** How the run of the context ended. */
    ghost predicate Resumed(r: Processed, error: Option<Error>)
      requires ctx != null && mem.offset <= mem.length <= buffer.Length
      reads this, mem, buffer, ctx
    {
      match r
      case Complete(v, env, rest) => error.None? && ctx.root == Some(v) && ctx.GetEnv() == env && Unread() == rest
      case Rejected(e) => error == Some(e)
      case Waiting(_, _) => error == Some(TruncatedData) && Valid()
    }

    method Resume() returns (error: Option<Error>)
      requires Valid() && data.None? && ctx != null
      modifies mem`ptr, mem`offset, ctx
      ensures mem.offset <= mem.length <= buffer.Length && itemStart <= Consumed()
      ensures Unread() == added[Consumed()..]
      ensures Resumed(StackMachine.Process(cfg, Start(cfg), Pending()), error)
    {
      hide Invariants.InOrder, Drive, StackMachine.Process;
      ghost var unread, p := Unread(), ctx.GetProgress();
      mem.ptr := buffer;
      assert mem.Unread() == unread;
      error := ctx.Process();
      assert Unread() == added[Consumed()..];
      WaitingGoesOn(cfg, p, unread);
    }

    method Begin()
      requires Valid() && ctx == null
      modifies this`ctx
      ensures Valid() && ctx != null && fresh(ctx)
    {
      hide Invariants.InOrder, Drive, StackMachine.Process;
      ctx := new Context(cfg, mem);
    }

    /** `decode_buffer`: goes on with the item in progress, or starts one. */
    method DecodeBuffer() returns (error: Option<Error>)
      requires Valid() && data.None?
      modifies this`ctx, this`data, this`itemStart, mem`ptr, mem`offset, if ctx == null then {} else {ctx}
      ensures Valid() && Polled(StackMachine.Process(cfg, Start(cfg), old(Pending())), old(Pending()), error)
      ensures ctx == null || ctx == old(ctx) || fresh(ctx)
    {
      hide Invariants.InOrder, Drive, StackMachine.Process;
      if mem.offset == mem.length {
        NothingNew(cfg, if ctx == null then Start(cfg) else ctx.GetProgress());
        return None;
      }
      if ctx == null {
        Begin();
      }
      error := Resume();
      if error == Some(TruncatedData) {
        return None;
      }
      if error.None? {
        data := Some(Yield(ctx.root.value, ctx.GetEnv()));
      }
      ctx := null;
      itemStart := Consumed();
    }

    /**
     `process`: whether a value is ready now. That is so exactly if the bytes that were not used by
     earlier items start with a complete item.
     */
    method Poll(isOwned: bool) returns (r: R<bool>)
      requires Valid()
      modifies this`ctx, this`data, this`itemStart, this`buffer, mem
      modifies if ctx == null then {} else {ctx}, if isOwned then {buffer} else {}
      ensures Valid() && added == old(added)
      ensures Polled(StackMachine.Process(cfg, Start(cfg), old(Pending())), old(Pending()), if r.Err? then Some(r.error) else None)
      ensures r.Ok? ==> r.value == HasValue()
      ensures ctx == null || ctx == old(ctx) || fresh(ctx)
      ensures buffer == old(buffer) || fresh(buffer)
    {
      hide Invariants.InOrder, Drive, StackMachine.Process;
      data := None;
      var error := DecodeBuffer();
      if mem.offset > SHRINK_OFFSET && isOwned {
        Shrink();
      }
      r := if error.Some? then Err(error.value) else Ok(data.Some?);
    }

    method Shrink()
      requires Valid()
      modifies this`buffer, mem, buffer
      ensures Valid() && Consumed() == old(Consumed()) && fresh(buffer)
    {
      hide Invariants.InOrder, Drive, StackMachine.Process;
      ghost var unread := Unread();
      ResetBufferOffset();
      buffer := CopyOf(buffer, 0, mem.length, mem.length);
      assert Unread() == unread;
    }

    predicate HasValue()
      reads this
    {
      data.Some?
    }

    /** `getValue`: the value of the last `process`, which is given out once unless `clear` is false. */
    method GetValue(clear: bool) returns (r: Option<Yield>)
      requires Valid()
      modifies this`data
      ensures Valid() && r == old(data) && data == if clear then None else old(data)
    {
      r := data;
      if clear {
        data := None;
      }
    }

    method Reset()
      requires Valid()
      modifies this, mem
      ensures Valid() && added == [] && Consumed() == 0 && data == None && !IsPartial()
    {
      ctx := null;
      buffer := new byte[0];
      mem.base, mem.offset, mem.length := 0, 0, 0;
      data := None;
      added, itemStart := [], 0;
    }
  }
}
