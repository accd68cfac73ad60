# Fixed-capacity message queue: Dafny model

This project models the custom message queue `CustomQueue_t` of an STM32F756
FreeRTOS application. The queue is a ring buffer of `MAX_QUEUE_SIZE` (16)
slots of `MAX_MSG_SIZE` (100) bytes. It has `head`, `tail`, `count` and
`maxSize` indices, and four operations:

- `queue_init` sets the capacity and empties the queue.
- `queue_send` copies a message into the slot at `tail`, advances `tail` and increments `count`.
- `queue_receive` copies the slot at `head` out, zeroes the copied bytes, advances `head` and decrements `count`.
- `queue_get_count` reads `count`.

Files:

- `queue_private_h.dfy` (module `QueueTypes`) holds the header's constants,
  the `uint8_t`/`uint32_t` types and the status codes.
- `ring.dfy` (module `Ring`) holds the ring-buffer index arithmetic. It has the
  index/count invariant `Indices`. `Window` gives the occupied slots in FIFO
  order. The lemmas show that send and receive keep the invariant, and that they
  append to the window and remove from its front.
- `queue_private.dfy` (module `QueuePrivate`) holds the class `CustomQueue`. It
  keeps the `16 x 100` byte storage as an `array2<uint8>` and the four indices
  as mutable fields. A ghost sequence `Contents` holds the queued slots, oldest
  first. The operations are methods that update the fields and the storage in
  place. Their byte copies and the clear are the methods `CopyIn`, `CopyOut`
  and `ClearSlot`. Each is a loop standing for one of the C code's `memcpy`
  and `memset` calls on the storage. A client method `Scenario` replays a
  capacity-2 send/receive sequence through the methods' contracts.

Modelling decisions:

- **Semaphores.** The two counting semaphores wait in two places: a send waits
  while the queue is full, and a receive waits while it is empty. In the model
  such a call returns a third status, `Blocked`, and leaves the queue unchanged.
  It stands for a call that has not happened yet. As in the C code, the size
  check runs first. So an oversized message fails even on a full queue.
- **Capacity 0.** `queue_init` accepts a capacity of 0. A send or receive on
  such a queue is then always `Blocked`, because no space permit and no item
  permit exist. The model never reaches the `% maxSize` of
  `Core/Src/queue_private.c:42,72`, which would divide by zero.
- **Messages.** Each element of `Contents` is a whole 100-byte slot. A send of
  `n` bytes overwrites the first `n` bytes of its slot and leaves the rest as it
  was. A receive of `n` bytes returns the first `n` bytes of the oldest slot.
  The storage starts out arbitrary, since `queue_init` never clears it.
- **Creation failure.** The boolean `created` of `Init` says whether the mutex
  and both semaphores were created. When it is false, `Init` still resets the
  indices and sets `maxSize`, as the code does (`Core/Src/queue_private.c:11-20`),
  and returns `Fail`.
- **Integer width.** `head`, `tail`, `count` and `maxSize` stay at or below
  16, and `msgSize` is only compared with `MAX_MSG_SIZE` and never added to,
  so no arithmetic wraps around. The fields and sizes keep the `uint32_t`
  range as a subset type.

Three behaviours of the code are kept as written:

- A capacity of 0 is accepted.
- A failed semaphore creation still leaves the indices reset.
- The code returns only pdPASS or pdFAIL, with no error kinds; the model's
  `Pass` and `Fail` are those two. `Blocked` is added by the model for a
  call that would wait on a semaphore.

## Model

| member | source | states |
|---|---|---|
| Ring.Next | Core/Src/queue_private.c:42 | the index after `i` is `i + 1`, or 0 when `i` is the last slot, and always below the capacity |
| Ring.SendKeepsIndices | Core/Src/queue_private.c:41-43 | advancing `tail` and incrementing `count` on a queue with room keeps `count <= maxSize <= MAX_QUEUE_SIZE`, `head, tail < maxSize` and `tail == (head + count) % maxSize` |
| Ring.ReceiveKeepsIndices | Core/Src/queue_private.c:72-73 | advancing `head` and decrementing `count` on a non-empty queue keeps the same invariant |
| Ring.HeadMeetsTail | Core/Inc/queue_private.h:13-15 | for a non-zero capacity, under the invariant, `head == tail` holds exactly when the queue is empty or full, so only `count` tells the two apart |
| Ring.WindowPush | Core/Src/queue_private.c:41-43 | writing an item into the slot at `tail` of a queue with room appends it to the FIFO sequence and leaves every queued item as it was |
| Ring.WindowPop | Core/Src/queue_private.c:69-73 | the first queued item is the slot at `head`; overwriting that slot and advancing `head` removes exactly that item from the front of the FIFO sequence |
| QueuePrivate.Overwrite | Core/Src/queue_private.c:41 | a slot after copying a prefix into it has that prefix as its first bytes and its old bytes after them, at the same length |
| QueuePrivate.CustomQueue.constructor | Core/Inc/queue_private.h:11-20 | the storage has exactly `MAX_QUEUE_SIZE` slots of `MAX_MSG_SIZE` bytes |
| QueuePrivate.CustomQueue.Init | Core/Src/queue_private.c:6-21 | a capacity above 16 fails and changes nothing; otherwise head, tail and count are 0, `maxSize` is the argument (0 included), the queue is empty and valid, and the result is pass exactly when the synchronisation objects were created |
| QueuePrivate.CustomQueue.Send | Core/Src/queue_private.c:24-49 | a size above 100 fails and a full queue blocks, both with no change; otherwise it passes. Bytes `0..msgSize` of slot `tail` become the message, every other byte of the storage is unchanged, `tail` advances modulo `maxSize`, `count` grows by one and the slot is appended to `Contents`; the invariant is kept |
| QueuePrivate.CustomQueue.Receive | Core/Src/queue_private.c:52-79 | a size above 100 fails and an empty queue blocks, both with no change; otherwise the buffer's first `msgSize` bytes are those of the oldest message, which are the old bytes of slot `head`, and the rest of the buffer is unchanged. Those bytes of slot `head` become 0, every other storage byte is unchanged, `head` advances modulo `maxSize`, `count` shrinks by one and the oldest message leaves `Contents`; the invariant is kept |
| QueuePrivate.CustomQueue.CopyIn | Core/Src/queue_private.c:41 | bytes `0..n` of slot `k` become the message's first `n` bytes; every other byte of the storage is unchanged |
| QueuePrivate.CustomQueue.CopyOut | Core/Src/queue_private.c:69 | the buffer's first `n` bytes become those of slot `k`; the rest of the buffer and the storage are unchanged |
| QueuePrivate.CustomQueue.ClearSlot | Core/Src/queue_private.c:71 | bytes `0..n` of slot `k` become 0; every other byte of the storage is unchanged |
| QueuePrivate.CustomQueue.SendKeepsValid | Core/Src/queue_private.c:41-43 | once slot `tail` holds the new row, advancing `tail` and counting one more keeps the invariant, with the row appended to `Contents` |
| QueuePrivate.CustomQueue.ReceiveKeepsValid | Core/Src/queue_private.c:69-73 | the oldest item is slot `head`; once that slot is rewritten, advancing `head` and counting one less keeps the invariant, with the oldest item removed from `Contents` |
| QueuePrivate.CustomQueue.GetCount | Core/Src/queue_private.c:82-90 | returns the number of queued messages, at most `maxSize`, and changes nothing |
| QueuePrivate.Scenario | Core/Inc/queue_private.h:23-58 | a client of the four operations declared here, using only their contracts: initialising with capacity 2 passes and the count is then 0; two sends pass, a third blocks, after one receive the third send passes, and the three receives return the three messages in the order they were sent |

## Left out

- FreeRTOS mutex and semaphore creation, take and give (`Core/Src/queue_private.c:16-20, 30-38, 45-46, 58-66, 75-76, 85, 87`) are foreign calls whose purpose is mutual exclusion and blocking. The model runs each critical section as one sequential step. It replaces waiting on a semaphore with the `Blocked` outcome.
- A mutex or semaphore take that fails after waiting forever, and the compensating give that follows it, are not modelled. With `portMAX_DELAY` these takes do not return failure.
- Concurrent interleavings, fairness between waiting tasks and wake-ups are not modelled.
- QueuePrivate.CustomQueue.Init: semaphore creation is a boolean parameter. The model does not say which capacities the RTOS refuses to create semaphores for, such as 0.
- QueuePrivate.CustomQueue.GetCount: requires a valid queue. Reading `count` under the mutex is a single read in the model.
- After a failed `Init`, the queue's semaphore handles would be null. The model does not track the handles, so it lets send and receive run on such a queue.
- The caller's pointer validity for `msg` is modelled as `msgSize <= |msg|` (send) and `msgSize <= buf.Length` (receive). Both apply only when `msgSize` passes the size check.
