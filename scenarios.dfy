/*
 * Client runs of the RingBuffer class with a buffer of 8 slots (7 usable),
 * showing what its method contracts alone let a caller conclude.
 */
module Scenarios {
  import opened RingSpec
  import opened RingBuf
  import opened Streams

  /** ringbuf_put_clobber of "ABCDEFGHIJ" keeps the last 7 bytes; a read of 16 returns them. */
  method ClobberThenRead() returns (n: int, got: seq<char>)
    ensures n == 7 && got == "DEFGHIJ"
  {
    var rb := new RingBuffer();
    var ret := rb.Init(8, 1, 2, 3);
    var written := rb.PutClobber("ABCDEFGHIJ", 10);
    var input := "ABCDEFGHIJ";
    assert input[..10] == input && [] + input == input;
    ClobberKeepsNewest(8, [], input);
    assert Newest(input, 7) == input[3..] == "DEFGHIJ";
    assert rb.Contents == "DEFGHIJ";
    var out := new char[16];
    n := rb.Get(out, 16);
    got := out[..n];
  }

  /** ringbuf_put of "ABCDEFGHIJ" stops when full: 7 bytes go in and are read back in order. */
  method PutThenRead() returns (accepted: int, got: seq<char>)
    ensures accepted == 7 && got == "ABCDEFG"
  {
    var rb := new RingBuffer();
    var ret := rb.Init(8, 1, 2, 3);
    accepted := rb.Put("ABCDEFGHIJ", 10);
    assert "ABCDEFGHIJ"[..7] == "ABCDEFG";
    var out := new char[16];
    var n := rb.Get(out, 16);
    got := out[..n];
  }

  /**
   * The consumer of the kernel module: a failed wait returns nothing and
   * loses nothing, a later successful wait returns the bytes, and the flag
   * is clear once they are all read.
   */
  method WaitTimesOutThenReads() returns (first: int, second: int, got: seq<char>, flag: bool)
    ensures first == 0 && second == 3 && got == "abc" && !flag
  {
    var rb := new RingBuffer();
    var ret := rb.Init(8, 1, 2, 3);
    var written := rb.Put("abc", 3);
    var out := new char[4];
    first := rb.GetWait(out, 4, false);
    second := rb.GetWait(out, 4, true);
    got := out[..second];
    flag := rb.nonEmpty;
  }

  /**
   * Before ringbuf_init both pointers are null, so ringbuf_get finds the
   * buffer empty and returns 0, and a put of zero bytes never touches it.
   */
  method CallsBeforeInit() returns (got: int, stored: int, flag: bool)
    ensures got == 0 && stored == 0 && !flag
  {
    var rb := new RingBuffer();
    var out := new char[4];
    got := rb.Get(out, 4);
    stored := rb.Put("abc", 0);
    flag := rb.nonEmpty;
  }

  /** One ringbuf_put or ringbuf_get call on a RingBuffer does what Streams.Step says. */
  method Apply(rb: RingBuffer, call: Call) returns (got: seq<char>)
    requires rb.Valid() && rb.Ready()
    modifies rb, rb.base
    ensures rb.Valid() && rb.Ready() && rb.base == old(rb.base) && rb.bufLen == old(rb.bufLen)
    ensures rb.Contents == Step(rb.bufLen, old(rb.Contents), call).unread
    ensures got == Step(rb.bufLen, old(rb.Contents), call).delivered
  {
    match call {
      case Write(data) =>
        var n := rb.Put(data, |data|);
        got := [];
      case Read(size) =>
        var out := new char[if size <= 0 then 0 else size];
        var n := rb.Get(out, size);
        got := out[..n];
    }
  }

  /**
   * Replays ringbuf_put and ringbuf_get calls against a RingBuffer: the buffer
   * and the reads follow Streams.Run call by call, so the concatenated reads,
   * followed by the bytes still unread, reproduce the old unread bytes
   * followed by everything the puts accepted.
   */
  method Replay(rb: RingBuffer, calls: seq<Call>) returns (delivered: seq<char>)
    requires rb.Valid() && rb.Ready()
    modifies rb, rb.base
    ensures rb.Valid() && rb.Ready() && rb.base == old(rb.base) && rb.bufLen == old(rb.bufLen)
    ensures rb.Contents == Run(rb.bufLen, old(rb.Contents), calls).unread
    ensures delivered == Run(rb.bufLen, old(rb.Contents), calls).delivered
    ensures delivered + rb.Contents == old(rb.Contents) + Run(rb.bufLen, old(rb.Contents), calls).accepted
  {
    ghost var len, start := rb.bufLen, rb.Contents;
    assert |start| <= len - 1;
    delivered := [];
    var i := 0;
    while i < |calls|
      invariant 0 <= i <= |calls|
      invariant rb.Valid() && rb.Ready() && rb.base == old(rb.base) && rb.bufLen == len
      invariant rb.Contents == Run(len, start, calls[..i]).unread
      invariant delivered == Run(len, start, calls[..i]).delivered
    {
      assert calls[..i + 1][..i] == calls[..i];
      var got := Apply(rb, calls[i]);
      delivered := delivered + got;
      i := i + 1;
    }
    assert calls[..|calls|] == calls;
  }
}
