/*
 * Pure specification of the catlog ring buffer: positions are offsets in a
 * ring of `len` slots, the unread bytes are the window from the read position
 * up to (not including) the write position, and one slot always stays free so
 * that "empty" and "full" can be told apart with two positions alone.
 */
module RingSpec {

  /** The offset that follows `p` in a ring of `len` slots (what `inc` does). */
  function Next(p: int, len: int): (r: int)
    requires 0 <= p < len
    ensures 0 <= r < len
    ensures r == if p == len - 1 then 0 else p + 1
  {
    (p + 1) % len
  }

  /** Number of unread bytes between read position `get` and write position `put`. */
  function Count(get: int, put: int, len: int): (r: int)
    requires 0 <= get < len && 0 <= put < len
    ensures 0 <= r < len
    ensures r == 0 <==> get == put
  {
    if get <= put then put - get else put - get + len
  }

  /** The buffer is full when advancing the write position would reach the read position. */
  predicate Full(get: int, put: int, len: int): (r: bool)
    requires 0 <= get < len && 0 <= put < len
    ensures r <==> Count(get, put, len) == len - 1
  {
    Next(put, len) == get
  }

  /** The unread bytes of ring storage `buf`, oldest first. */
  function Window(buf: seq<char>, get: int, put: int): (w: seq<char>)
    requires 0 <= get < |buf| && 0 <= put < |buf|
    ensures |w| == Count(get, put, |buf|)
  {
    if get <= put then buf[get..put] else buf[get..] + buf[..put]
  }

  /** Storing `c` at the write position and advancing it appends `c` to the unread bytes. */
  lemma WindowPush(buf: seq<char>, get: int, put: int, c: char)
    requires 0 <= get < |buf| && 0 <= put < |buf|
    requires !Full(get, put, |buf|)
    ensures Window(buf[put := c], get, Next(put, |buf|)) == Window(buf, get, put) + [c]
  {
    var len, b := |buf|, buf[put := c];
    if get <= put {
      if put < len - 1 {
        assert b[get..put + 1] == buf[get..put] + [c];
      } else {
        assert b[get..] == buf[get..put] + [c];
        assert b[..0] == [];
      }
    } else {
      assert b[get..] == buf[get..];
      assert b[..put + 1] == buf[..put] + [c];
    }
  }

  /** Reading at the read position yields the oldest unread byte; advancing it drops that byte. */
  lemma WindowPop(buf: seq<char>, get: int, put: int)
    requires 0 <= get < |buf| && 0 <= put < |buf|
    requires get != put
    ensures Window(buf, get, put) != []
    ensures Window(buf, get, put)[0] == buf[get]
    ensures Window(buf, Next(get, |buf|), put) == Window(buf, get, put)[1..]
  {
    var len, w := |buf|, Window(buf, get, put);
    if get < put {
      assert buf[get + 1..put] == w[1..];
    } else if get < len - 1 {
      assert buf[get + 1..] + buf[..put] == w[1..];
    } else {
      assert buf[0..put] == w[1..];
    }
  }

  /**
   * Bytes that ringbuf_put accepts: all of them when they fit, otherwise as
   * many as there are free slots (it stops at the first full slot).
   */
  function PutCount(len: int, unread: seq<char>, size: int): (r: int)
    requires |unread| <= len - 1
    ensures 0 <= r && (size <= 0 ==> r == 0) && (size > 0 ==> r <= size)
    ensures |unread| + r <= len - 1
    ensures 0 < size && r < size ==> |unread| + r == len - 1
  {
    if size <= 0 then 0
    else if size <= len - 1 - |unread| then size
    else len - 1 - |unread|
  }

  /** ringbuf_put stopped at a full slot before `size` bytes: it took exactly the free slots. */
  lemma PutCountWhenFull(len: int, unread: seq<char>, size: int, n: int)
    requires 0 <= n < size && |unread| + n == len - 1
    ensures n == PutCount(len, unread, size)
  {
  }

  /** ringbuf_put ran out of input without meeting a full slot: it took all `size` bytes. */
  lemma PutCountWhenDone(len: int, unread: seq<char>, size: int, n: int, remaining: int)
    requires remaining <= 0 && n + remaining == size && (remaining >= 0 || n == 0)
    requires 0 <= n && |unread| + n <= len - 1
    ensures n == PutCount(len, unread, size)
  {
  }

  /** Appending the next input byte extends the consumed prefix by one. */
  lemma AppendNext(s: seq<char>, data: seq<char>, n: int)
    requires 0 <= n < |data|
    ensures s + data[..n] + [data[n]] == s + data[..n + 1]
  {
    assert data[..n + 1] == data[..n] + [data[n]];
  }

  /** Bytes that ringbuf_get hands out: as many as asked for, but no more than are unread. */
  function GetCount(unread: seq<char>, size: int): (r: int)
    ensures 0 <= r <= |unread| && (size <= 0 ==> r == 0) && (size > 0 ==> r <= size)
    ensures 0 < size && r < size ==> r == |unread|
  {
    if size <= 0 then 0 else if size <= |unread| then size else |unread|
  }

  /** Inserting one byte with put_clobber: a full buffer first loses its oldest byte. */
  function ClobberStep(len: int, unread: seq<char>, c: char): (r: seq<char>)
    requires 2 <= len && |unread| <= len - 1
    ensures |r| <= len - 1 && r != [] && r[|r| - 1] == c
  {
    if |unread| == len - 1 then unread[1..] + [c] else unread + [c]
  }

  /** Unread bytes after put_clobber inserts `input` one byte at a time. */
  function Clobber(len: int, unread: seq<char>, input: seq<char>): (r: seq<char>)
    requires 2 <= len && |unread| <= len - 1
    ensures |r| <= len - 1
    ensures |r| == if |unread| + |input| <= len - 1 then |unread| + |input| else len - 1
  {
    if input == [] then unread
    else ClobberStep(len, Clobber(len, unread, input[..|input| - 1]), input[|input| - 1])
  }

  /** Clobbering one more byte of the input is one more ClobberStep. */
  lemma ClobberOneMore(len: int, unread: seq<char>, input: seq<char>, i: int)
    requires 2 <= len && |unread| <= len - 1
    requires 0 <= i < |input|
    ensures Clobber(len, unread, input[..i + 1]) == ClobberStep(len, Clobber(len, unread, input[..i]), input[i])
  {
    assert input[..i + 1][..i] == input[..i];
  }

  /** The last `k` elements of `s` (all of `s` when it is shorter). */
  function Newest(s: seq<char>, k: nat): (r: seq<char>)
    ensures |r| == if |s| <= k then |s| else k
    ensures r == s[|s| - |r|..]
  {
    if |s| <= k then s else s[|s| - k..]
  }

  /** One put_clobber step on the newest `len - 1` bytes keeps the newest `len - 1` bytes. */
  lemma ClobberStepKeepsNewest(len: int, t: seq<char>, c: char)
    requires 2 <= len
    ensures ClobberStep(len, Newest(t, len - 1), c) == Newest(t + [c], len - 1)
  {
    var k, p, s := len - 1, Newest(t, len - 1), t + [c];
    if |t| < k {
      assert p == t && Newest(s, k) == s;
    } else {
      assert |p| == k && p == t[|t| - k..];
      assert p[1..] == t[|t| - k + 1..];
      assert s[|s| - k..] == t[|t| - k + 1..] + [c];
    }
  }

  /**
   * put_clobber never loses a byte it was given unless the buffer is full:
   * afterwards the buffer holds exactly the newest `len - 1` bytes of the old
   * unread bytes followed by the input, so only the oldest bytes are evicted.
   */
  lemma {:induction false} ClobberKeepsNewest(len: int, unread: seq<char>, input: seq<char>)
    requires 2 <= len && |unread| <= len - 1
    ensures Clobber(len, unread, input) == Newest(unread + input, len - 1)
  {
    if input == [] {
      assert unread + input == unread;
      assert Newest(unread, len - 1) == unread;
    } else {
      var init, c := input[..|input| - 1], input[|input| - 1];
      ClobberKeepsNewest(len, unread, init);
      ClobberStepKeepsNewest(len, unread + init, c);
      assert unread + input == (unread + init) + [c] by { assert input == init + [c]; }
    }
  }

  /** Newest bytes of newest bytes: clobbering in two calls equals clobbering once. */
  lemma {:induction false} NewestOfNewest(s: seq<char>, t: seq<char>, k: nat)
    ensures Newest(Newest(s, k) + t, k) == Newest(s + t, k)
  {
    var a, b := Newest(Newest(s, k) + t, k), Newest(s + t, k);
    assert |a| == |b|;
    forall i | 0 <= i < |a| ensures a[i] == b[i] {
      var ns := Newest(s, k);
      var off := |ns + t| - |a|;
      if off + i < |ns| {
        assert a[i] == ns[off + i];
        assert ns[off + i] == s[|s| - |ns| + off + i];
      } else {
        assert a[i] == t[off + i - |ns|];
      }
    }
  }

  /** Two successive put_clobber calls leave what one call with both inputs would. */
  lemma {:induction false} ClobberTwice(len: int, unread: seq<char>, a: seq<char>, b: seq<char>)
    requires 2 <= len && |unread| <= len - 1
    ensures Clobber(len, Clobber(len, unread, a), b) == Clobber(len, unread, a + b)
  {
    var k, mid := len - 1, Clobber(len, unread, a);
    calc {
      Clobber(len, mid, b);
      { ClobberKeepsNewest(len, mid, b); }
      Newest(mid + b, k);
      { ClobberKeepsNewest(len, unread, a); }
      Newest(Newest(unread + a, k) + b, k);
      { NewestOfNewest(unread + a, b, k); }
      Newest(unread + a + b, k);
      { assert unread + a + b == unread + (a + b); }
      Newest(unread + (a + b), k);
      { ClobberKeepsNewest(len, unread, a + b); }
      Clobber(len, unread, a + b);
    }
  }
}
