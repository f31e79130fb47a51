/*
 * Position arithmetic of ringbuf.c at the level of raw addresses.
 *
 * The C code keeps get_ptr and put_ptr as pointers into a block that starts
 * at base_ptr. Its idx() reduces the 32-bit ADDRESS modulo buf_len, not the
 * offset from base_ptr; inc() adds that result back to base_ptr. This module
 * shows that this agrees with the offset arithmetic of RingSpec exactly when
 * the base address is a multiple of buf_len (AlignedAgrees for one direction,
 * UnalignedDisagrees for the other), and what goes wrong otherwise. Alignment
 * is the assumption the rest of the model makes.
 */
module Addressing {
  import opened RingSpec

  /** Size of the 32-bit address space: `(unsigned int)ptr` keeps an address modulo this. */
  const AddressSpace: int := 0x1_0000_0000

  /** idx(ptr): the unsigned 32-bit address reduced modulo buf_len. */
  function Idx(addr: int, len: int): (r: int)
    requires 0 < len
    ensures 0 <= r < len
  {
    (addr % AddressSpace) % len
  }

  /** inc(&ptr) as written: base_ptr + idx(ptr + 1). */
  function Inc(base: int, addr: int, len: int): (r: int)
    requires 0 < len
    ensures base <= r < base + len
  {
    base + Idx(addr + 1, len)
  }

  /** full() as written: idx(put_ptr + 1) == idx(get_ptr). */
  predicate FullAt(getAddr: int, putAddr: int, len: int)
    requires 0 < len
  {
    Idx(putAddr + 1, len) == Idx(getAddr, len)
  }

  /** inc with the offset reduced instead of the address: the arithmetic the model uses. */
  function IncOffset(base: int, addr: int, len: int): (r: int)
    requires 0 < len && base <= addr < base + len
    ensures base <= r < base + len
    ensures r - base == Next(addr - base, len)
  {
    base + (addr - base + 1) % len
  }

  /** A positive multiple of a positive length is at least that length. */
  lemma {:induction false} MulAtLeast(k: int, len: int)
    requires 1 <= k && 0 < len
    ensures k * len >= len
  {
    if k > 1 {
      MulAtLeast(k - 1, len);
      assert k * len == (k - 1) * len + len;
    }
  }

  /** Euclidean division is unique: x == q * len + r with 0 <= r < len fixes x % len. */
  lemma ModUnique(x: int, len: int, q: int, r: int)
    requires 0 < len && 0 <= r < len && x == q * len + r
    ensures x % len == r
  {
    var q', r' := x / len, x % len;
    var k := q - q';
    assert k * len == r' - r by {
      assert q * len - q' * len == (q - q') * len;
    }
    if k >= 1 {
      MulAtLeast(k, len);
    } else if k <= -1 {
      MulAtLeast(-k, len);
    }
  }

  /**
   * With a base address that is a multiple of buf_len and a block inside the
   * address space, idx, inc and full on addresses are exactly the offset
   * arithmetic of RingSpec.
   */
  lemma AlignedAgrees(base: int, len: int, g: int, p: int)
    requires 0 < len && 0 <= base && base % len == 0 && base + len < AddressSpace
    requires 0 <= g < len && 0 <= p < len
    ensures Idx(base + g, len) == g
    ensures Inc(base, base + p, len) == IncOffset(base, base + p, len)
    ensures FullAt(base + g, base + p, len) <==> Full(g, p, len)
  {
    var q := base / len;
    assert base == q * len;
    assert (base + g) % AddressSpace == base + g;
    assert (base + p + 1) % AddressSpace == base + p + 1;
    ModUnique(base + g, len, q, g);
    if p + 1 < len {
      ModUnique(base + p + 1, len, q, p + 1);
    } else {
      assert (q + 1) * len == q * len + len;
      ModUnique(base + p + 1, len, q + 1, 0);
    }
  }

  /**
   * The converse of AlignedAgrees: with a base address that is not a multiple
   * of buf_len, idx of the block's first slot is not 0, and inc from the last
   * slot does not wrap back to base_ptr as the offset arithmetic does.
   */
  lemma UnalignedDisagrees(base: int, len: int)
    requires 0 < len && 0 <= base && base + len < AddressSpace && base % len != 0
    ensures Idx(base, len) != 0
    ensures Inc(base, base + len - 1, len) != IncOffset(base, base + len - 1, len)
  {
    assert base % AddressSpace == base && (base + len) % AddressSpace == base + len;
    var q := base / len;
    assert (q + 1) * len == q * len + len;
    ModUnique(base + len, len, q + 1, base % len);
  }

  /** Bytes ringbuf_put stores when the positions move by the C pointer arithmetic. */
  function PutRun(base: int, len: int, getAddr: int, putAddr: int, size: nat): (n: nat)
    requires 0 < len
    ensures n <= size
    decreases size
  {
    if size == 0 || FullAt(getAddr, putAddr, len) then 0
    else 1 + PutRun(base, len, getAddr, Inc(base, putAddr, len), size - 1)
  }

  /** The same loop with positions advanced by offset: what ringbuf_put evidently intends. */
  function PutRunOffset(base: int, len: int, getAddr: int, putAddr: int, size: nat): (n: nat)
    requires 0 < len && base <= getAddr < base + len && base <= putAddr < base + len
    ensures n <= size
    decreases size
  {
    if size == 0 || Full(getAddr - base, putAddr - base, len) then 0
    else 1 + PutRunOffset(base, len, getAddr, IncOffset(base, putAddr, len), size - 1)
  }

  /**
   * With offset arithmetic, for any base address, ringbuf_put stores
   * min(size, free slots) bytes, where one slot always stays free.
   */
  lemma {:induction false} PutRunOffsetFillsFreeSlots(base: int, len: int, getAddr: int, putAddr: int, size: nat)
    requires 0 < len && base <= getAddr < base + len && base <= putAddr < base + len
    ensures var free := len - 1 - Count(getAddr - base, putAddr - base, len);
            PutRunOffset(base, len, getAddr, putAddr, size) == if size <= free then size else free
    decreases size
  {
    var g, p := getAddr - base, putAddr - base;
    if size > 0 && !Full(g, p, len) {
      var p' := IncOffset(base, putAddr, len);
      PutRunOffsetFillsFreeSlots(base, len, getAddr, p', size - 1);
      assert Count(g, p' - base, len) == Count(g, p, len) + 1;
    }
  }

  /** With an aligned base, the code as written stores exactly what the offset version stores. */
  lemma {:induction false} AlignedPutRunAgrees(base: int, len: int, g: int, p: int, size: nat)
    requires 0 < len && 0 <= base && base % len == 0 && base + len < AddressSpace
    requires 0 <= g < len && 0 <= p < len
    ensures PutRun(base, len, base + g, base + p, size) == PutRunOffset(base, len, base + g, base + p, size)
    decreases size
  {
    AlignedAgrees(base, len, g, p);
    if size > 0 && !Full(g, p, len) {
      AlignedPutRunAgrees(base, len, g, Next(p, len), size - 1);
    }
  }

  /**
   * A base address that is not a multiple of buf_len: with buf_len 8 and a
   * base address congruent to 4 modulo 8, ringbuf_put into the empty buffer
   * stores only 3 of 7 bytes, although 7 slots are free.
   */
  lemma UnalignedPutStopsEarly()
    ensures PutRun(4, 8, 4, 4, 7) == 3
    ensures PutRunOffset(4, 8, 4, 4, 7) == 7
  {
    assert Idx(5, 8) == 5 && Idx(10, 8) == 2 && Idx(7, 8) == 7 && Idx(12, 8) == 4 && Idx(4, 8) == 4;
    assert Inc(4, 4, 8) == 9 && Inc(4, 9, 8) == 6 && Inc(4, 6, 8) == 11;
    assert FullAt(4, 11, 8) && !FullAt(4, 6, 8) && !FullAt(4, 9, 8) && !FullAt(4, 4, 8);
    assert PutRun(4, 8, 4, 11, 4) == 0;
    assert PutRun(4, 8, 4, 6, 5) == 1;
    assert PutRun(4, 8, 4, 9, 6) == 2;
    PutRunOffsetFillsFreeSlots(4, 8, 4, 4, 7);
  }
}
