/*
 * What a sequence of ring buffer calls does to the byte stream, stated on the
 * same specification functions that the RingBuffer methods are proved
 * against (PutCount, GetCount, Clobber).
 */
module Streams {
  import opened RingSpec

  /** One public call: ringbuf_put of all of `data`, or ringbuf_get of up to `size` bytes. */
  datatype Call = Write(data: seq<char>) | Read(size: int)

  /** Unread bytes after some calls, the bytes the writes stored, and the bytes the reads returned. */
  datatype Trace = Trace(unread: seq<char>, accepted: seq<char>, delivered: seq<char>)

  /** The effect of one call (ringbuf_put or ringbuf_get) on the unread bytes. */
  function Step(len: int, unread: seq<char>, call: Call): (t: Trace)
    requires 2 <= len && |unread| <= len - 1
    ensures |t.unread| <= len - 1
    ensures call.Write? ==> t.delivered == [] && t.accepted <= call.data
    ensures call.Read? ==> t.accepted == [] && t.delivered <= unread
    ensures unread + t.accepted == t.delivered + t.unread
  {
    match call
    case Write(data) =>
      var n := PutCount(len, unread, |data|);
      Trace(unread + data[..n], data[..n], [])
    case Read(size) =>
      var n := GetCount(unread, size);
      assert unread == unread[..n] + unread[n..];
      Trace(unread[n..], [], unread[..n])
  }

  /**
   * The calls in order, accumulating what was stored and what was returned.
   * With ringbuf_put as the only writer, nothing is lost or repeated: what
   * the reads returned, followed by what is still unread, is exactly the old
   * unread bytes followed by every byte the writes stored.
   */
  function Run(len: int, unread: seq<char>, calls: seq<Call>): (t: Trace)
    requires 2 <= len && |unread| <= len - 1
    ensures |t.unread| <= len - 1
    ensures unread + t.accepted == t.delivered + t.unread
    decreases |calls|
  {
    if calls == [] then
      assert unread + [] == [] + unread;
      Trace(unread, [], [])
    else
      var before := Run(len, unread, calls[..|calls| - 1]);
      var last := Step(len, before.unread, calls[|calls| - 1]);
      Regroup(unread, before.accepted, last.accepted, before.delivered, before.unread, last.delivered, last.unread);
      Trace(last.unread, before.accepted + last.accepted, before.delivered + last.delivered)
  }

  /** Stream equations compose: two balanced steps make one. */
  lemma Regroup(u: seq<char>, fa: seq<char>, ra: seq<char>, fd: seq<char>, fu: seq<char>, rd: seq<char>, ru: seq<char>)
    requires u + fa == fd + fu && fu + ra == rd + ru
    ensures u + (fa + ra) == (fd + rd) + ru
  {
    calc {
      u + (fa + ra);
      (u + fa) + ra;
      (fd + fu) + ra;
      fd + (fu + ra);
      fd + (rd + ru);
      (fd + rd) + ru;
    }
  }

  /** Starting empty and drained at the end, the reads return the stored bytes exactly, in order. */
  lemma DrainedRunDeliversAll(len: int, calls: seq<Call>)
    requires 2 <= len
    requires Run(len, [], calls).unread == []
    ensures Run(len, [], calls).delivered == Run(len, [], calls).accepted
  {
    var t := Run(len, [], calls);
    assert [] + t.accepted == t.accepted && t.delivered + [] == t.delivered;
  }

  /** All chunks in order, concatenated. */
  function Concat(chunks: seq<seq<char>>): seq<char>
  {
    if chunks == [] then [] else chunks[0] + Concat(chunks[1..])
  }

  /** Unread bytes after one ringbuf_put_clobber call per chunk. */
  function ClobberAll(len: int, unread: seq<char>, chunks: seq<seq<char>>): (r: seq<char>)
    requires 2 <= len && |unread| <= len - 1
    ensures |r| <= len - 1
    decreases |chunks|
  {
    if chunks == [] then unread
    else ClobberAll(len, Clobber(len, unread, chunks[0]), chunks[1..])
  }

  /**
   * However many ringbuf_put_clobber calls are made, the buffer then holds
   * exactly the newest bufLen - 1 bytes of everything (all of it when it
   * fits), in the order written.
   */
  lemma {:induction false} ClobberAllKeepsNewest(len: int, unread: seq<char>, chunks: seq<seq<char>>)
    requires 2 <= len && |unread| <= len - 1
    ensures ClobberAll(len, unread, chunks) == Newest(unread + Concat(chunks), len - 1)
    decreases |chunks|
  {
    if chunks == [] {
      assert unread + [] == unread;
    } else {
      var k, mid, tail := len - 1, Clobber(len, unread, chunks[0]), Concat(chunks[1..]);
      calc {
        ClobberAll(len, unread, chunks);
        ClobberAll(len, mid, chunks[1..]);
        { ClobberAllKeepsNewest(len, mid, chunks[1..]); }
        Newest(mid + tail, k);
        { ClobberKeepsNewest(len, unread, chunks[0]); }
        Newest(Newest(unread + chunks[0], k) + tail, k);
        { NewestOfNewest(unread + chunks[0], tail, k); }
        Newest(unread + chunks[0] + tail, k);
        { assert unread + chunks[0] + tail == unread + (chunks[0] + tail); }
        Newest(unread + Concat(chunks), k);
      }
    }
  }
}
