/**
 * The index arithmetic of the ring buffer in Core/Src/queue_private.c and
 * the abstract view of its occupied slots as a sequence in FIFO order.
 */
module Ring {
  import opened QueueTypes

  /** The slot after `i` in a ring of `size` slots: `(i + 1) % size`. */
  function Next(i: nat, size: nat): (r: nat)
    requires i < size
    ensures r < size
    ensures i + 1 < size ==> r == i + 1
    ensures i + 1 == size ==> r == 0
  {
    (i + 1) % size
  }

  /**
   * The index/count invariant of the queue: at most `size` items, at most
   * MaxQueueSize slots in use, and `tail` is `count` slots after `head`.
   * A queue initialised with size 0 keeps all three at 0.
   */
  predicate Indices(head: nat, tail: nat, count: nat, size: nat) {
    count <= size <= MaxQueueSize &&
    if size == 0 then head == 0 && tail == 0
    else head < size && tail < size && tail == (head + count) % size
  }

  /** The `count` slots starting at `head`, going round a ring of `size` slots. */
  function Window<T>(slots: seq<T>, head: nat, count: nat, size: nat): (w: seq<T>)
    requires count <= size <= |slots|
    ensures |w| == count
  {
    seq(count, i requires 0 <= i < count => slots[(head + i) % size])
  }

  /** Reducing a number below twice the modulus subtracts the modulus at most once. */
  lemma ModWrap(x: nat, m: nat)
    requires 0 < m && x < 2 * m
    ensures x % m == if x < m then x else x - m
  {
  }

  /** Sending keeps the invariant: `tail` advances and the count grows by one. */
  lemma SendKeepsIndices(head: nat, tail: nat, count: nat, size: nat)
    requires Indices(head, tail, count, size) && count < size
    ensures Indices(head, Next(tail, size), count + 1, size)
  {
    ModWrap(head + count, size);
    ModWrap(head + count + 1, size);
    ModWrap(tail + 1, size);
  }

  /** Receiving keeps the invariant: `head` advances and the count shrinks by one. */
  lemma ReceiveKeepsIndices(head: nat, tail: nat, count: nat, size: nat)
    requires Indices(head, tail, count, size) && 0 < count
    ensures Indices(Next(head, size), tail, count - 1, size)
  {
    ModWrap(head + count, size);
    ModWrap(head + 1, size);
    ModWrap(Next(head, size) + count - 1, size);
  }

  /**
   * `head == tail` does not tell an empty queue from a full one; only the
   * separate count does.
   */
  lemma HeadMeetsTail(head: nat, tail: nat, count: nat, size: nat)
    requires Indices(head, tail, count, size) && 0 < size
    ensures head == tail <==> count == 0 || count == size
  {
    ModWrap(head + count, size);
  }

  /** Distinct offsets below the modulus land on distinct slots. */
  lemma DistinctSlots(head: nat, i: nat, j: nat, size: nat)
    requires head < size && i < j < size
    ensures (head + i) % size != (head + j) % size
  {
    ModWrap(head + i, size);
    ModWrap(head + j, size);
  }

  /**
   * Writing `item` into the slot at `tail` of a queue with room appends it
   * to the window and changes none of the items already queued.
   */
  lemma WindowPush<T>(slots: seq<T>, head: nat, tail: nat, count: nat, size: nat, item: T)
    requires Indices(head, tail, count, size) && count < size <= |slots|
    ensures Window(slots[tail := item], head, count + 1, size) == Window(slots, head, count, size) + [item]
  {
    var before := Window(slots, head, count, size);
    var after := Window(slots[tail := item], head, count + 1, size);
    forall i | 0 <= i < count
      ensures after[i] == before[i]
    {
      DistinctSlots(head, i, count, size);
    }
    assert after == before + [item];
  }

  /**
   * The first queued item is the slot at `head`; overwriting that slot and
   * advancing `head` drops exactly that item from the window.
   */
  lemma WindowPop<T>(slots: seq<T>, head: nat, tail: nat, count: nat, size: nat, item: T)
    requires Indices(head, tail, count, size) && 0 < count && size <= |slots|
    ensures Window(slots, head, count, size)[0] == slots[head]
    ensures Window(slots[head := item], Next(head, size), count - 1, size) == Window(slots, head, count, size)[1..]
  {
    var before := Window(slots, head, count, size);
    var after := Window(slots[head := item], Next(head, size), count - 1, size);
    ModWrap(head, size);
    forall i | 0 <= i < count - 1
      ensures after[i] == before[i + 1]
    {
      ModWrap(head + 1, size);
      ModWrap(Next(head, size) + i, size);
      ModWrap(head + i + 1, size);
      DistinctSlots(head, 0, i + 1, size);
    }
    assert after == before[1..];
  }
}
