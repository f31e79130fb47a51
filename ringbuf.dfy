/*
 * The ring buffer of the catlog kernel module: one fixed-size circular store of
 * debug text, the static state of kernel_module/src/ringbuf.c. Each public
 * method is one call of the C API and is atomic (the C code holds a mutex for
 * the whole body). Positions are offsets from the start of the memory block;
 * module Addressing shows that the C pointer arithmetic agrees with them when
 * the block's base address is a multiple of the buffer length.
 */
module RingBuf {
  import opened RingSpec

  /** Status of ringbuf_init: the first negative kernel result, or 0 when all three succeed. */
  function InitStatus(evfUid: int, mtxUid: int, memblockUid: int): (r: int)
    ensures r == 0 <==> evfUid >= 0 && mtxUid >= 0 && memblockUid >= 0
    ensures r != 0 ==> r < 0 && (r == evfUid || r == mtxUid || r == memblockUid)
    ensures evfUid < 0 ==> r == evfUid
    ensures evfUid >= 0 && mtxUid < 0 ==> r == mtxUid
  {
    if evfUid < 0 then evfUid
    else if mtxUid < 0 then mtxUid
    else if memblockUid < 0 then memblockUid
    else 0
  }

  class RingBuffer {
    /** base_ptr: the memory block, null before ringbuf_init and after ringbuf_term. */
    var base: array?<char>
    /** buf_len */
    var bufLen: int
    /** get_ptr and put_ptr, as offsets from base_ptr */
    var getPos: int
    var putPos: int
    /** The RINGBUF_EVF_NON_EMPTY bit of the event flag. */
    var nonEmpty: bool
    /** The unread bytes, oldest first. */
    ghost var Contents: seq<char>

    /** The buffer has been initialised and not terminated. */
    predicate Ready()
      reads this
    {
      base != null
    }

    /** Positions and storage agree with Contents; the event flag is not part of this. */
    ghost predicate Shape()
      reads this, base
    {
      if base == null then
        bufLen == 0 && getPos == 0 && putPos == 0 && Contents == []
      else
        bufLen == base.Length && 2 <= bufLen &&
        0 <= getPos < bufLen && 0 <= putPos < bufLen &&
        Contents == Window(base[..], getPos, putPos)
    }

    /** The object invariant: Shape, and the flag is set exactly when bytes are unread. */
    ghost predicate Valid()
      reads this, base
    {
      Shape() && nonEmpty == (Contents != [])
    }

    /** The static initial values: no block, zero length, null pointers, flag clear. */
    constructor ()
      ensures Valid() && !Ready()
    {
      base := null;
      bufLen, getPos, putPos := 0, 0, 0;
      nonEmpty := false;
      Contents := [];
    }

    /**
     * What the invariant says in terms of the C state: at most bufLen - 1
     * bytes are stored, and the flag is set exactly when get_ptr != put_ptr.
     */
    lemma CapacityAndFlag()
      requires Valid() && Ready()
      ensures 0 <= getPos < bufLen && 0 <= putPos < bufLen
      ensures |Contents| <= bufLen - 1
      ensures nonEmpty <==> getPos != putPos
    {
    }

    /** empty(): no unread byte (also before ringbuf_init, when both pointers are null). */
    function IsEmpty(): (r: bool)
      requires Shape()
      reads this, base
      ensures r <==> Contents == []
    {
      getPos == putPos
    }

    /** full(): the next write would reach the read position, so bufLen - 1 bytes are unread. */
    function IsFull(): (r: bool)
      requires Shape() && Ready()
      reads this, base
      ensures r <==> |Contents| == bufLen - 1
    {
      Full(getPos, putPos, bufLen)
    }

    /** put(c): store one byte unless full; 0 on success, -1 when full. */
    method PutByte(c: char) returns (r: int)
      requires Shape() && Ready()
      modifies this, base
      ensures Shape() && Ready() && base == old(base) && bufLen == old(bufLen)
      ensures nonEmpty == old(nonEmpty) && getPos == old(getPos)
      ensures r == 0 || r == -1
      ensures r == -1 <==> |old(Contents)| == bufLen - 1
      ensures Contents == if r == 0 then old(Contents) + [c] else old(Contents)
    {
      if IsFull() {
        return -1;
      }
      WindowPush(base[..], getPos, putPos, c);
      base[putPos] := c;
      putPos := Next(putPos, bufLen);
      Contents := Contents + [c];
      return 0;
    }

    /** put_clobber(c): store one byte, first dropping the oldest one when full. */
    method PutClobberByte(c: char)
      requires Shape() && Ready()
      modifies this, base
      ensures Shape() && Ready() && base == old(base) && bufLen == old(bufLen)
      ensures nonEmpty == old(nonEmpty)
      ensures Contents == ClobberStep(bufLen, old(Contents), c)
    {
      if IsFull() {
        WindowPop(base[..], getPos, putPos);
        getPos := Next(getPos, bufLen);
        Contents := Contents[1..];
      }
      WindowPush(base[..], getPos, putPos, c);
      base[putPos] := c;
      putPos := Next(putPos, bufLen);
      Contents := Contents + [c];
    }

    /** get(c): take the oldest unread byte; 0 on success, -1 when empty. */
    method GetByte() returns (r: int, c: char)
      requires Shape()
      modifies this
      ensures Shape() && base == old(base) && bufLen == old(bufLen)
      ensures nonEmpty == old(nonEmpty) && putPos == old(putPos)
      ensures r == 0 || r == -1
      ensures r == -1 <==> old(Contents) == []
      ensures r == 0 ==> c == old(Contents)[0] && Contents == old(Contents)[1..]
      ensures r == -1 ==> Contents == old(Contents)
    {
      if IsEmpty() {
        return -1, ' ';
      }
      WindowPop(base[..], getPos, putPos);
      c := base[getPos];
      getPos := Next(getPos, bufLen);
      Contents := Contents[1..];
      r := 0;
    }

    /**
     * ringbuf_init(size): with all three kernel objects created, an empty
     * buffer of `size` slots with the flag clear; otherwise the first negative
     * kernel result and no state.
     */
    method Init(size: int, evfUid: int, mtxUid: int, memblockUid: int) returns (ret: int)
      requires Valid() && !Ready()
      requires 2 <= size
      modifies this
      ensures Valid()
      ensures ret == InitStatus(evfUid, mtxUid, memblockUid)
      ensures ret == 0 ==> Ready() && fresh(base) && bufLen == size &&
                           getPos == putPos && Contents == [] && !nonEmpty
      ensures ret != 0 ==> !Ready() && unchanged(this)
    {
      ret := InitStatus(evfUid, mtxUid, memblockUid);
      if ret != 0 {
        return;
      }
      base := new char[size];
      bufLen := size;
      getPos, putPos := 0, 0;
      nonEmpty := false;
      Contents := [];
    }

    /** ringbuf_term(): release the block; zero length and null pointers again. */
    method Term() returns (ret: int)
      requires Valid()
      modifies this
      ensures Valid() && !Ready()
      ensures ret == 0 && bufLen == 0 && getPos == 0 && putPos == 0 && Contents == []
    {
      base := null;
      bufLen, getPos, putPos := 0, 0, 0;
      nonEmpty := false;
      Contents := [];
      ret := 0;
    }

    /**
     * ringbuf_put(data, size): copy bytes in order until `size` are copied or
     * the buffer is full; set the flag when at least one byte went in.
     */
    method Put(data: seq<char>, size: int) returns (n: int)
      requires Valid() && (Ready() || size <= 0)
      requires size <= |data|
      modifies this, base
      ensures Valid() && base == old(base) && bufLen == old(bufLen)
      ensures n == if Ready() then PutCount(bufLen, old(Contents), size) else 0
      ensures Contents == old(Contents) + data[..n]
      ensures nonEmpty == (old(nonEmpty) || n > 0)
    {
      ghost var start, stopped := Contents, false;
      n := 0;
      var remaining := size;
      while remaining > 0
        invariant Shape() && base == old(base) && bufLen == old(bufLen)
        invariant Ready() || (n == 0 && remaining <= 0)
        invariant nonEmpty == old(nonEmpty) && !stopped
        invariant 0 <= n <= |data| && n + remaining == size && (remaining >= 0 || n == 0)
        invariant Contents == start + data[..n]
        decreases remaining
      {
        remaining := remaining - 1;
        var r := PutByte(data[n]);
        if r != 0 {
          PutCountWhenFull(bufLen, start, size, n);
          stopped := true;
          break;
        }
        AppendNext(start, data, n);
        n := n + 1;
      }
      if Ready() && !stopped {
        PutCountWhenDone(bufLen, start, size, n, remaining);
      }
      if n > 0 {
        nonEmpty := true;
      }
    }

    /**
     * ringbuf_put_clobber(data, size): copy every byte, each insertion into a
     * full buffer first dropping the oldest unread byte; set the flag when
     * at least one byte went in.
     */
    method PutClobber(data: seq<char>, size: int) returns (n: int)
      requires Valid() && (Ready() || size <= 0)
      requires size <= |data|
      modifies this, base
      ensures Valid() && base == old(base) && bufLen == old(bufLen)
      ensures n == if size <= 0 then 0 else size
      ensures Contents == if Ready() then Clobber(bufLen, old(Contents), data[..n]) else old(Contents)
      ensures nonEmpty == (old(nonEmpty) || n > 0)
    {
      ghost var start := Contents;
      assert Ready() ==> |start| <= bufLen - 1;
      n := 0;
      var remaining := size;
      while remaining > 0
        invariant Shape() && base == old(base) && bufLen == old(bufLen)
        invariant Ready() || (n == 0 && remaining <= 0)
        invariant nonEmpty == old(nonEmpty)
        invariant 0 <= n && n + remaining == size && n <= |data| && (remaining >= 0 || n == 0)
        invariant Ready() ==> Contents == Clobber(bufLen, start, data[..n])
        decreases remaining
      {
        remaining := remaining - 1;
        ClobberOneMore(bufLen, start, data, n);
        PutClobberByte(data[n]);
        n := n + 1;
      }

      if n > 0 {
        nonEmpty := true;
      }
    }

    /**
     * ringbuf_get(out, size): move up to `size` of the oldest unread bytes
     * into `out`, in order; clear the flag when the buffer is left empty.
     */
    method Get(out: array<char>, size: int) returns (n: int)
      requires Valid()
      requires out != base && size <= out.Length
      modifies this, out
      ensures Valid() && base == old(base) && bufLen == old(bufLen)
      ensures n == GetCount(old(Contents), size)
      ensures out[..n] == old(Contents)[..n] && out[n..] == old(out[n..])
      ensures Contents == old(Contents)[n..]
      ensures nonEmpty <==> Contents != []
    {
      n := 0;
      var remaining := size;
      while remaining > 0
        invariant Shape() && base == old(base) && bufLen == old(bufLen)
        invariant old(nonEmpty) == (old(Contents) != [])
        invariant nonEmpty == old(nonEmpty)
        invariant 0 <= n <= |old(Contents)| && n <= out.Length && n + remaining == size
        invariant remaining >= 0 || n == 0
        invariant Contents == old(Contents)[n..]
        invariant out[..n] == old(Contents)[..n]
        invariant forall k :: n <= k < out.Length ==> out[k] == old(out[k])
        decreases remaining
      {
        remaining := remaining - 1;
        var r, c := GetByte();
        if r == 0 {
          out[n] := c;
          n := n + 1;
        } else {
          break;
        }
      }
      if IsEmpty() {
        nonEmpty := false;
      }
    }

    /**
     * ringbuf_get_wait(out, size, timeout): `waitSucceeded` is the outcome of
     * waiting for the flag. A failed or timed-out wait returns 0 and touches
     * nothing; otherwise this is ringbuf_get.
     */
    method GetWait(out: array<char>, size: int, waitSucceeded: bool) returns (n: int)
      requires Valid()
      requires out != base && size <= out.Length
      modifies this, out
      ensures Valid() && base == old(base) && bufLen == old(bufLen)
      ensures !waitSucceeded ==> n == 0 && unchanged(this) && unchanged(out)
      ensures waitSucceeded ==>
                (n == GetCount(old(Contents), size) &&
                 out[..n] == old(Contents)[..n] && out[n..] == old(out[n..]) &&
                 Contents == old(Contents)[n..] && (nonEmpty <==> Contents != []))
    {
      if !waitSucceeded {
        return 0;
      }
      n := Get(out, size);
    }
  }
}
