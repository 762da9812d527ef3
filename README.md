# Cosa ring-buffer queue, modelled in Dafny

Cosa's `Queue` is a FIFO with a fixed capacity, built for AVR firmware. It
holds `nmemb` members of `msize` bytes each in one byte buffer. Interrupt
handlers and the main loop use it to pass events and serial data to each
other. Its state:

- the buffer `_buffer`, supplied by the caller or allocated by the constructor;
- a write cursor `_putp` and a read cursor `_getp`, which wrap back to the
  buffer start when they reach the end marker `_lastp`;
- an explicit `_length` counter, which tells a full queue from an empty one.

Its operations are `length()`, `available()`, the non-blocking `enqueue`,
`enqueue_P` and `dequeue`, and the blocking `await`.

The project has three modules:

- `QueueSpec` (`queue_spec.dfy`) is the abstract behaviour. `Step` accepts or
  refuses one call. `Run` performs a sequence of calls. The lemmas prove the
  length bound, FIFO order, conservation of length, the capacity bound, and
  that a refused call changes nothing.
- `CosaQueue` (`queue.dfy`) is the byte-level queue, a class over
  `array<uint8>`. Its fields are the source's fields, and each pointer is a
  byte offset from the start of the buffer. `Contents` is a ghost list of the
  queued members, and `getSlot` is the ghost slot under the read cursor.
  `Valid()` (through `RingInv`) ties these together: the end marker is
  `nmemb * msize` bytes on, both cursors are on slot boundaries, the write
  cursor is `length` slots round the ring from the read cursor, and the
  `i`-th member occupies the `i`-th slot from the read cursor. `Offset(s, m)`
  is `s * m` written as a sum, so the cursor proofs stay linear
  (`OffsetIsProduct` proves the two equal). `Enqueue`, `EnqueueP` and
  `Dequeue` each state their whole new state, including the matching
  `QueueSpec.Step`. `Await` states the new contents, length and `data`, and
  the matching `QueueSpec.Run`: the enqueues its wake-ups made, then one
  dequeue.
- `QueueScenarios` (`scenarios.dfy`) holds callers proved from the contracts
  alone: a wrap-around run, the empty and full bounds, and `await` on an
  empty queue.

The bodies of `enqueue`, `enqueue_P`, `dequeue` and `await` are declared in
`Cosa/Queue.h` and defined in `Cosa/Queue.cpp`, which is not part of this
model. Their behaviour comes from the doc comments and the field layout:

- "full" is the test `_length == _nmemb`;
- a member is copied byte by byte at the cursor;
- the cursor advances by `_msize`, and it is reset to the buffer start when it
  equals `_lastp`.

Two further facts about the header shape the model:

- The header does not require `nmemb > 0` or `msize > 0`, so the model allows
  both to be zero: a zero-capacity queue refuses every enqueue and never
  becomes available.
- The header has no destructor, so an allocated buffer is never released.
  Nothing about release is modelled.

## Model

| member | source | states |
|---|---|---|
| CosaQueue.Queue.constructor | Cosa/Queue.h:55-64 | length is 0 and the contents are empty. Both cursors are at the buffer start. The end marker is `nmemb * msize`. The buffer is the supplied one, or a fresh one of exactly `nmemb * msize` bytes. The invariant holds. |
| CosaQueue.Queue.Length | Cosa/Queue.h:70-73 | The result is the number of queued members, and at most `nmemb`. It is a function, so it changes nothing. |
| CosaQueue.Queue.Available | Cosa/Queue.h:80-83 | True exactly when at least one member is queued. |
| CosaQueue.Queue.Enqueue | Cosa/Queue.h:85-91 | Succeeds exactly when length < nmemb. When refused, no field and no buffer byte changes. Otherwise: the first `msize` bytes of `data` are written at the old write cursor and no other byte changes; the write cursor advances one member and wraps at the end marker; length grows by one; the member is appended to the contents. The result equals `QueueSpec.Step` on a Put. The read cursor, end marker and buffer stay the same, and the invariant is kept. |
| CosaQueue.Queue.EnqueueP | Cosa/Queue.h:93-98 | The same contract as Enqueue: it succeeds exactly when there is room, with the same effect on the bytes, the cursors, length and contents. |
| CosaQueue.Queue.Dequeue | Cosa/Queue.h:100-107 | Succeeds exactly when length > 0. When refused, nothing changes, including `data`. Otherwise: the oldest member is copied into `data[..msize]` and the rest of `data` is untouched; the read cursor advances one member and wraps; length drops by one; the contents lose their first member. The result equals `QueueSpec.Step` on a Get. The buffer bytes and the write cursor are unchanged. |
| CosaQueue.Queue.Await | Cosa/Queue.h:109-115 | Loops while nothing is available. Each wake-up may bring an interrupt-context enqueue. When a member is available, it is dequeued into `data`. On return, `data` holds the oldest member present at that moment (`Arrived`), and the contents are what remained then, minus that member. So length is one less than when data became available. The whole call is `QueueSpec.Run` of the enqueues the wake-ups made (`Woken`) followed by one dequeue: it ends in the new contents and its last event delivers `data[..msize]`. |
| CosaQueue.Queue.CursorsInStorage | Cosa/Queue.h:38-44 | Under the invariant, both cursors are multiples of `msize`, and each is on a slot below `nmemb` (or at 0 in an empty storage). Each has a whole member of room before the end marker. Both lie inside `[0, lastp)` whenever the storage is not empty. |
| CosaQueue.AdvanceIsNextSlot | Cosa/Queue.h:41-43 | Cursor wrap-around. Moving a cursor on slot `s` by `msize`, and resetting it to 0 when it reaches the end marker, puts it on slot `s + 1`, or on slot 0 after the last slot. This holds for `msize = 0` too. |
| CosaQueue.SlotBoundary | Cosa/Queue.h:41-42 | A slot offset is a whole number of members: `Offset(s, m) % m == 0` and `Offset(s, m) / m == s`. |
| CosaQueue.OffsetIsProduct | Cosa/Queue.h:63 | The byte offset of slot `s` is `s * m`, so the end marker `Offset(nmemb, msize)` is the source's `nmemb * msize`. |
| CosaQueue.SlotAfterOverwrite | Cosa/Queue.h:60-63 | In an `nmemb * msize`-byte buffer, writing one member into slot `t` changes slot `t` and leaves every other slot as it was. |
| CosaQueue.PutKeepsRingInv | Cosa/Queue.h:85-91 | On values: with room, the write cursor has a whole member before the end marker. Writing the member there, advancing the cursor with wrap and counting it keeps the invariant, with the member appended. |
| CosaQueue.GetKeepsRingInv | Cosa/Queue.h:100-107 | On values: when length > 0, the bytes at the read cursor are the oldest member. Advancing the cursor with wrap and uncounting it keeps the invariant without that member. |
| CosaQueue.CopyIn | Cosa/Queue.h:85-91 | The byte copy of enqueue. Afterwards the buffer holds the first `m` source bytes at the offset, and every other byte is unchanged. |
| CosaQueue.CopyOut | Cosa/Queue.h:100-107 | The byte copy of dequeue. Afterwards the first `m` bytes of `data` are the member's bytes, and the rest of `data` is unchanged. |
| QueueSpec.StepUnchangedIffRefused | Cosa/Queue.h:85-107 | One call leaves the contents as they were exactly when it is refused: an enqueue on a full queue or a dequeue on an empty one. |
| QueueSpec.RunOne | Cosa/Queue.h:85-107 | A run of one call is exactly that call's step: its new contents and a one-event log. |
| QueueSpec.RunKeepsBound | Cosa/Queue.h:38-39 | From a queue within capacity, no sequence of enqueues and dequeues takes the length above `nmemb`. |
| QueueSpec.RunIsFifo | Cosa/Queue.h:85-107 | FIFO. The members queued at the start, followed by the accepted members, equal the delivered members followed by what is still queued. This holds for any interleaving of calls, so nothing is lost, duplicated or reordered. |
| QueueSpec.RunConservesLength | Cosa/Queue.h:85-107 | The final length is the starting length plus the accepted enqueues minus the successful dequeues, and it is at most `nmemb`. |
| QueueSpec.PutsAllStored | Cosa/Queue.h:85-91 | Enqueues that fit are all accepted and appended in order. Nothing is delivered. |
| QueueSpec.GetsDrain | Cosa/Queue.h:100-107 | Dequeuing as many times as there are members hands them all out, oldest first, and leaves the queue empty. |
| QueueSpec.CapacityRejects | Cosa/Queue.h:85-91 | After `nmemb` enqueues into an empty queue, the next enqueue is refused and the queue holds exactly those members. |
| QueueSpec.PutsThenGets | Cosa/Queue.h:85-107 | Enqueue up to `nmemb` members into an empty queue, then dequeue as many. The members come out exactly as they went in, and the queue ends empty. |
| QueueScenarios.WrapAround | Cosa/Queue.h:85-107 | Capacity 4, one-byte members. Enqueue 1, 2, 3, then dequeue, which gives 1. Enqueue 4 and 5; the write cursor wraps. A full drain then gives 2, 3, 4, 5. |
| QueueScenarios.Bounds | Cosa/Queue.h:70-107 | A fresh queue over a supplied buffer is not available and refuses a dequeue. After two enqueues into room for two, a third is refused, the length is 2 and the queue is available. |
| QueueScenarios.AwaitDelivers | Cosa/Queue.h:109-115 | Await on an empty queue sleeps through a wake-up that brings nothing. The next wake-up brings 7; await returns 7 and leaves the length at 0. |

## Left out

- Interrupt masking: the source makes `enqueue` and `dequeue` atomic by disabling interrupts. Each operation is modelled as one sequential step, and concurrency is not modelled.
- Sleep hardware: `await`'s sleep mode from `<avr/sleep.h>` is a parameter the model ignores. Each sleep period is one entry of `wakeups`, either the member an interrupt handler enqueued or `None`.
- CosaQueue.Queue.Await: a wake-up brings at most one member, whereas a real interrupt burst may enqueue several before the processor resumes. Await also requires that a member is queued or that some wake-up brings one into a queue with `nmemb > 0`. Otherwise the source's call never returns, and a model without `decreases *` cannot express that.
- `malloc`: the constructor's allocation is modelled as a fresh array. Allocation failure, and the fact that the buffer is never freed, are not modelled.
- CosaQueue.Queue.EnqueueP: the program-memory copy (`memcpy_P`) is modelled as the same byte copy as `enqueue`, because the separate address space of the AVR is not modelled.
- Pointer arithmetic: pointers are byte offsets from the buffer start. The 8-bit `_length` cannot overflow, since it never exceeds `_nmemb`, and the model proves this.
- CosaQueue.Queue.constructor: the product `nmemb * msize` is computed in `int` after integer promotion, and `int` is 16 bits on the AVR. The product overflows, which is undefined behaviour in C++, when `nmemb * msize > 32767`, for example 255 × 255. The model's product is unbounded, so it matches the source only while `nmemb * msize <= 32767`. The overflow case is not modelled, because no buffer that large fits in AVR RAM.
- Aliasing: CosaQueue.Queue.Dequeue and CosaQueue.Queue.Await require the output array to be a different array from the queue's storage. Dafny arrays are separate objects, so the model keeps the destination out of the queue's array entirely. It does not model a destination inside the queue's own buffer, even one that does not overlap the slot being copied, which `memcpy` allows. CosaQueue.Queue.Enqueue takes its member bytes by value. A supplied buffer may be larger than `nmemb * msize`; only the first `nmemb * msize` bytes are used.
- `Cosa/Queue.cpp`, which holds the bodies of `enqueue`, `enqueue_P`, `dequeue` and `await`, is not part of this model. Their contracts come from the header's doc comments and field layout.
- `cores/cosa/Cosa/IOStream.hh` is not part of this model. It is a character-device interface whose filters forward to another device, and its formatting bodies are not shown.
