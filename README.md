# catlog ring buffer, in Dafny

catlog is a PlayStation Vita logging plugin. Its kernel module keeps one
fixed-size circular byte store of debug text, `kernel_module/src/ringbuf.c`.
Writers feed it in one of two ways:

- `ringbuf_put` rejects: it stops at the first full slot and returns a short count.
- `ringbuf_put_clobber` overwrites: it drops the oldest unread byte before each insertion into a full buffer.

It is drained through `ringbuf_get` or
`ringbuf_get_wait`. The module's network worker calls only `ringbuf_get_wait`,
and `ringbuf_get` has no caller in the module. An event-flag bit,
`RINGBUF_EVF_NON_EMPTY`, signals that data is present.

`ringbuf_put`, `ringbuf_put_clobber` and `ringbuf_get` hold one mutex for
their whole body. `ringbuf_get_wait` waits on the event flag first, outside
the mutex, and then holds the mutex for the copy. `ringbuf_init` and
`ringbuf_term` take no lock. Each call is modelled as one atomic method. The
wait itself is not modelled; its outcome is an input.

The project has five modules:

- `RingSpec` (`ring_spec.dfy`) is the pure specification:
  - the `Next` step on offsets, `Count`, `Full` and the `Window` of unread bytes;
  - the counts the public calls return (`PutCount`, `GetCount`);
  - the clobber semantics (`ClobberStep`, `Clobber`), with the lemmas that they keep the newest `len - 1` bytes.
- `RingBuf` (`ringbuf.dfy`) holds class `RingBuffer`, which is the static state of `ringbuf.c`:
  - `base` is the memory block; `null` stands for `base_ptr == NULL`;
  - `bufLen`;
  - `getPos` and `putPos` are `get_ptr` and `put_ptr` as offsets from `base_ptr`;
  - `nonEmpty` is the event-flag bit;
  - the ghost `Contents` holds the unread bytes, oldest first.

  `empty()` and `full()` are the functions `IsEmpty` and `IsFull`. The byte helpers `put`, `put_clobber` and `get` are methods without loops. The public calls are methods with loops. Each is proved against the `RingSpec` functions.
- `Addressing` (`addressing.dfy`) is the C pointer arithmetic on raw 32-bit addresses. `idx` reduces the *address* modulo `buf_len`. The module proves that this equals the offset arithmetic exactly when the block's base address is a multiple of `buf_len`. `AlignedAgrees` proves agreement for an aligned base. `UnalignedDisagrees` proves that for any unaligned base, `idx` and `inc` differ from the offset forms. It also exhibits what goes wrong otherwise (see Findings).
- `Streams` (`streams.dfy`) covers sequences of public calls:
  - with `ringbuf_put` as the writer, the bytes read plus the bytes still unread reproduce the accepted stream;
  - any number of `ringbuf_put_clobber` calls leave the newest `len - 1` bytes.
- `Scenarios` (`scenarios.dfy`) holds clients of `RingBuffer` that use only the method contracts:
  - runs on an 8-slot buffer;
  - calls made before `ringbuf_init`;
  - a replay of any sequence of `ringbuf_put` and `ringbuf_get` calls, which follows `Streams.Run` call by call.

Model decisions:

- **Alignment.** The model's positions are offsets in `[0, bufLen)`. It therefore assumes, as the C code implicitly does, that the memory block is aligned to `buf_len`.
- **Kernel results as inputs.** The three kernel object results of `ringbuf_init` are inputs.
- **Wait outcome as input.** The outcome of the event-flag wait in `ringbuf_get_wait` is the input `waitSucceeded`.

## Model

| member | source | states |
|---|---|---|
| RingSpec.Next | kernel_module/src/ringbuf.c:42-45 | advancing a position stays in `[0, len)` and wraps from `len - 1` to 0 |
| RingSpec.Count | kernel_module/src/ringbuf.c:47-50 | the unread count lies in `[0, len)` and is 0 exactly when `get == put` (empty) |
| RingSpec.Full | kernel_module/src/ringbuf.c:52-55 | full (`put + 1 == get` modulo `len`) holds exactly when `len - 1` bytes are unread |
| RingSpec.Window | kernel_module/src/ringbuf.c:47-55 | the unread bytes between `get` and `put` number `Count(get, put, len)` |
| RingSpec.WindowPush | kernel_module/src/ringbuf.c:63-64 | storing at `put_ptr` and advancing it appends exactly that byte to the unread bytes, when not full |
| RingSpec.WindowPop | kernel_module/src/ringbuf.c:85-86 | reading at `get_ptr` yields the oldest unread byte, and advancing it drops exactly that byte |
| RingSpec.PutCount | kernel_module/src/ringbuf.c:140-164 | `ringbuf_put` accepts between 0 and `size` bytes, 0 when `size <= 0`, never more than the free slots, and fewer than `size` only when it filled the buffer |
| RingSpec.GetCount | kernel_module/src/ringbuf.c:186-210 | `ringbuf_get` returns between 0 and `size` bytes, 0 when `size <= 0`, never more than are unread, and fewer than `size` only when it emptied the buffer |
| RingSpec.ClobberStep | kernel_module/src/ringbuf.c:68-77 | one `put_clobber` keeps at most `len - 1` bytes, and the byte just written is the newest |
| RingSpec.Clobber | kernel_module/src/ringbuf.c:166-184 | after clobbering `input`, the buffer holds `min(len - 1, old + input)` bytes |
| RingSpec.ClobberStepKeepsNewest | kernel_module/src/ringbuf.c:68-77 | one `put_clobber` on the newest `len - 1` bytes of a stream leaves the newest `len - 1` bytes of the stream plus the new byte |
| RingSpec.ClobberKeepsNewest | kernel_module/src/ringbuf.c:166-184 | `ringbuf_put_clobber` leaves exactly the newest `len - 1` bytes of the old unread bytes followed by the input, so it evicts only the oldest bytes |
| RingSpec.ClobberTwice | kernel_module/src/ringbuf.c:166-184 | two clobbering calls leave what one call with both inputs concatenated leaves |
| RingBuf.InitStatus | kernel_module/src/ringbuf.c:90-127 | init returns 0 exactly when all three kernel objects were created; otherwise it returns a negative result, the first failing one in creation order (event flag, then mutex, then memory block) |
| RingBuf.RingBuffer.constructor | kernel_module/src/ringbuf.c:28-35 | the static initial state: no block, zero length, flag clear, nothing unread |
| RingBuf.RingBuffer.CapacityAndFlag | kernel_module/src/ringbuf.c:42-55 | both positions lie in `[0, bufLen)`, at most `bufLen - 1` bytes are stored, and the flag is set exactly when `get_ptr != put_ptr` |
| RingBuf.RingBuffer.IsEmpty | kernel_module/src/ringbuf.c:47-50 | `empty()` holds exactly when no byte is unread, also before init when both pointers are null |
| RingBuf.RingBuffer.IsFull | kernel_module/src/ringbuf.c:52-55 | `full()` holds exactly when `bufLen - 1` bytes are unread |
| RingBuf.RingBuffer.PutByte | kernel_module/src/ringbuf.c:57-66 | `put(c)` returns -1 and changes nothing when full; otherwise it returns 0 and appends `c`; the read position and the flag are unchanged |
| RingBuf.RingBuffer.PutClobberByte | kernel_module/src/ringbuf.c:68-77 | `put_clobber(c)` drops the oldest byte when full and then appends `c` |
| RingBuf.RingBuffer.GetByte | kernel_module/src/ringbuf.c:79-88 | `get` returns -1 and changes nothing when empty, which includes before init; otherwise it returns 0, yields the oldest byte and drops it |
| RingBuf.RingBuffer.Init | kernel_module/src/ringbuf.c:90-127 | on success: a fresh block of `size` slots, `get == put`, empty, flag clear; on a kernel failure: that failure's code and no state change |
| RingBuf.RingBuffer.Term | kernel_module/src/ringbuf.c:129-138 | returns 0, releases the block, and resets the length and both positions to zero/null with nothing unread |
| RingBuf.RingBuffer.Put | kernel_module/src/ringbuf.c:140-164 | returns `PutCount` (min(size, free slots), 0 for `size <= 0`); the contents become the old contents followed by the first `n` input bytes; the flag is set iff a byte went in, otherwise unchanged. Before init, a put of `size <= 0` returns 0 and changes nothing |
| RingBuf.RingBuffer.PutClobber | kernel_module/src/ringbuf.c:166-184 | returns `max(size, 0)`; the contents become `Clobber` of the old contents and the input, which `ClobberKeepsNewest` shows is the newest `bufLen - 1` bytes; the flag is set iff a byte went in. Before init, a put of `size <= 0` returns 0 and changes nothing |
| RingBuf.RingBuffer.Get | kernel_module/src/ringbuf.c:186-210 | returns `GetCount` (min(size, unread), 0 for `size <= 0`); the output receives the oldest `n` unread bytes in order, and the rest of the output is untouched; those bytes are dropped; the flag is set afterwards exactly when bytes remain. Before init nothing is unread, so it returns 0 |
| RingBuf.RingBuffer.GetWait | kernel_module/src/ringbuf.c:212-242 | a failed wait returns 0 and changes neither the buffer, the positions, the flag nor the output; otherwise it behaves exactly like `Get` |
| Addressing.Idx | kernel_module/src/ringbuf.c:37-40 | `idx` of an address lies in `[0, buf_len)` |
| Addressing.FullAt | kernel_module/src/ringbuf.c:52-55 | `full()` as written: `idx(put_ptr + 1) == idx(get_ptr)` on raw addresses. The third `ensures` of `AlignedAgrees` equates it with `Full` for an aligned block |
| Addressing.Inc | kernel_module/src/ringbuf.c:42-45 | `inc` keeps a pointer inside `[base_ptr, base_ptr + buf_len)` |
| Addressing.IncOffset | kernel_module/src/ringbuf.c:42-45 | the offset version of `inc` advances the offset by `Next` |
| Addressing.AlignedAgrees | kernel_module/src/ringbuf.c:37-55 | with `base_ptr` a multiple of `buf_len`, `idx`, `inc` and `full` on addresses equal the offset arithmetic |
| Addressing.UnalignedDisagrees | kernel_module/src/ringbuf.c:37-45 | for every base that is not a multiple of `buf_len`, `idx` of the first slot is not 0, and `inc` from the last slot does not wrap back to `base_ptr` as the offset step does |
| Addressing.PutRun | kernel_module/src/ringbuf.c:140-155 | the `ringbuf_put` loop on raw addresses stores at most `size` bytes |
| Addressing.PutRunOffset | kernel_module/src/ringbuf.c:140-155 | the same loop on offsets stores at most `size` bytes |
| Addressing.PutRunOffsetFillsFreeSlots | kernel_module/src/ringbuf.c:140-155 | on offsets, for any base address, the loop stores `min(size, free slots)` bytes |
| Addressing.AlignedPutRunAgrees | kernel_module/src/ringbuf.c:140-155 | with an aligned base, the loop as written stores exactly what the offset loop stores |
| Addressing.UnalignedPutStopsEarly | kernel_module/src/ringbuf.c:37-45 | with `buf_len` 8 and a base address that is 4 modulo 8, the loop as written stores 3 of 7 bytes into an empty buffer, where the offset loop stores 7 |
| Streams.Step | kernel_module/src/ringbuf.c:140-210 | one `ringbuf_put` or `ringbuf_get` loses and duplicates nothing: old unread plus accepted equals delivered plus new unread; a put accepts a prefix of its input, and a get delivers a prefix of the unread bytes |
| Streams.Run | kernel_module/src/ringbuf.c:140-210 | a run of calls never holds more than `len - 1` unread bytes. Over any run of puts and gets, the bytes delivered followed by those still unread are exactly the old unread bytes followed by all accepted bytes |
| Streams.DrainedRunDeliversAll | kernel_module/src/ringbuf.c:140-210 | starting empty and ending drained, the gets return exactly the accepted bytes, in order and without overlap |
| Streams.ClobberAll | kernel_module/src/ringbuf.c:166-184 | any number of clobbering calls hold at most `len - 1` bytes |
| Streams.ClobberAllKeepsNewest | kernel_module/src/ringbuf.c:166-184 | after any number of clobbering calls, the buffer holds exactly the newest `len - 1` bytes of everything written, in order |
| Scenarios.ClobberThenRead | kernel_module/src/ringbuf.c:166-210 | with 8 slots, clobbering "ABCDEFGHIJ" and reading 16 returns 7 bytes, "DEFGHIJ" |
| Scenarios.PutThenRead | kernel_module/src/ringbuf.c:140-210 | with 8 slots, putting "ABCDEFGHIJ" accepts 7 and a read returns "ABCDEFG" |
| Scenarios.CallsBeforeInit | kernel_module/src/ringbuf.c:140-210 | before init, `ringbuf_get` returns 0, a zero-size `ringbuf_put` returns 0, and the flag stays clear |
| Scenarios.Apply | kernel_module/src/ringbuf.c:140-210 | one `Put` or `Get` on a `RingBuffer` leaves the contents and returns the bytes that `Streams.Step` gives |
| Scenarios.Replay | kernel_module/src/ringbuf.c:140-210 | any sequence of puts and gets on a `RingBuffer` follows `Streams.Run`: the concatenated reads, followed by the bytes still unread, are the old unread bytes followed by all accepted bytes |
| Scenarios.WaitTimesOutThenReads | kernel_module/src/ringbuf.c:212-242 | a failed wait returns 0 and loses nothing; a later successful wait returns "abc" and clears the flag |

## Left out

- The mutex, the event-flag wait and thread wake-ups (`kernel_module/src/ringbuf.c:143, 162, 169, 182, 189, 208, 215, 220, 239`) are not modelled. Each public call is one atomic method. The wait's outcome is the `waitSucceeded` input, and its timeout value plays no other part.
- Creating and deleting the event flag, the mutex and the memory block (`kernel_module/src/ringbuf.c:94-115, 121-126, 131-133`) are not modelled. Their results are the inputs of `Init`, and the new block is a fresh array. Kernel object ids are not part of the state, so `ringbuf_term` leaving `evf_uid` at its old value is not modelled.
- Alignment is assumed: `RingBuffer` treats positions as offsets, which matches the C code only when `base_ptr` is a multiple of `buf_len`. `Addressing` proves this equivalence and shows the failure without it.
- RingBuf.RingBuffer.Init: requires `2 <= size`. With `size` 0, `idx` divides by zero, and with `size` 1 the buffer can never hold a byte. The module passes `RINGBUF_LEN` (0x2000, `kernel_module/src/main.c:39`).
- RingBuf.RingBuffer.Init: requires a buffer that is not initialised. In C, a second `ringbuf_init` without `ringbuf_term` leaks the first block's kernel objects. The module calls it once (`kernel_module/src/main.c:323`).
- RingBuf.RingBuffer.Put and PutClobber: require an initialised buffer when `size > 0`. Before `ringbuf_init`, `buf_len` is 0, and the first `full()` computes `idx` modulo 0. With `size <= 0` the loop is never entered, and the model covers that case. `Get` and `GetWait` need no initialised buffer. Before init, `ringbuf_get`'s `empty()` compares two null pointers, so it returns 0. `ringbuf_get_wait` waits on the event flag `evf_uid == -1` (`kernel_module/src/ringbuf.c:28, 215`); that wait fails, and the call returns 0 at line 241. The model's `waitSucceeded == false` case gives exactly that result.
- RingBuf.RingBuffer.Put and PutClobber: the input bytes are a `seq<char>` of at least `size` bytes. Get and GetWait write into an array distinct from the block. The C callers pass separate buffers of sufficient size.
- The network worker, the configuration and hook glue in `kernel_module/src/main.c` are not part of this model, and neither are `user_module/user.c` and `include/catlog.h`. They are TCP client loops, file I/O and platform hooks around the buffer. The worker starts only after a successful `ringbuf_init` (`kernel_module/src/main.c:323-327, 371-380`). It drains the buffer with an untimed `ringbuf_get_wait` (`kernel_module/src/main.c:151`) and a 1-second timed one (`kernel_module/src/main.c:170`).

## Findings

| source | as written | input that shows it | evidently intended | confidence | as-written member | corrected member |
|---|---|---|---|---|---|---|
| kernel_module/src/ringbuf.c:37-45 | `idx` reduces the raw address modulo `buf_len`, and `inc` adds that to `base_ptr`, so with an unaligned block the pointers jump inside the block and `full()` fires early | `buf_len` 8, block at an address that is 4 modulo 8, `ringbuf_put` of 7 bytes into the empty buffer: 3 bytes stored | reduce the offset `ptr - base_ptr`, so that `buf_len - 1` bytes always fit | medium: harmless if the allocator aligns the block to its size; not executed | Addressing.UnalignedPutStopsEarly | Addressing.PutRunOffsetFillsFreeSlots |
