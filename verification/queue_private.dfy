/**
 * The custom queue of Core/Src/queue_private.c: a ring buffer of
 * MaxQueueSize fixed-size byte slots with head, tail and count indices.
 * The FreeRTOS mutex and counting semaphores that surround each operation
 * are not modelled as threads: a call that would wait on a semaphore
 * returns `Blocked` and changes nothing.
 */
module QueuePrivate {
  import opened QueueTypes
  import opened Ring

  /** The slot `row` after `memcpy`/`memset` of `prefix` into its first bytes. */
  function Overwrite(row: seq<uint8>, prefix: seq<uint8>): (r: seq<uint8>)
    requires |prefix| <= |row|
    ensures |r| == |row|
    ensures r[..|prefix|] == prefix && r[|prefix|..] == row[|prefix|..]
  {
    prefix + row[|prefix|..]
  }

  /** `n` zero bytes, what `memset(.., 0, n)` writes. */
  function Zeros(n: nat): (z: seq<uint8>)
    ensures |z| == n && forall i :: 0 <= i < n ==> z[i] == 0
  {
    seq(n, _ => 0)
  }

  /** The C struct CustomQueue_t without its semaphore handles. */
  class CustomQueue {
    /** `data[MAX_QUEUE_SIZE][MAX_MSG_SIZE]`: the message slots. */
    const data: array2<uint8>
    var head: uint32
    var tail: uint32
    var count: uint32
    var maxSize: uint32

    /** The queued messages, oldest first, each as its whole slot. */
    ghost var Contents: seq<seq<uint8>>

    /** The bytes of slot `k`. */
    ghost function Row(k: nat): (r: seq<uint8>)
      requires k < data.Length0
      reads data
      ensures |r| == data.Length1
    {
      seq(data.Length1, j requires 0 <= j < data.Length1 reads data => data[k, j])
    }

    /** All slots, whether queued or free. */
    ghost function Slots(): (s: seq<seq<uint8>>)
      reads data
      ensures |s| == data.Length0
    {
      seq(data.Length0, k requires 0 <= k < data.Length0 reads data => Row(k))
    }

    /** The storage has the declared layout. */
    ghost predicate Shaped()
    {
      data.Length0 == MaxQueueSize && data.Length1 == MaxMsgSize
    }

    /** The queue's invariant: indices consistent, Contents the occupied slots in order. */
    ghost predicate Valid()
      reads this, data
    {
      Shaped() &&
      Indices(head, tail, count, maxSize) &&
      Contents == Window(Slots(), head, count, maxSize)
    }

    /** Storage for one queue; its fields and bytes are not initialised. */
    constructor ()
      ensures Shaped() && fresh(data)
    {
      data := new uint8[MaxQueueSize, MaxMsgSize];
    }

    /**
     * queue_init: rejects a capacity above MaxQueueSize without touching
     * the queue; otherwise empties the queue with capacity `size`.
     * `created` says whether the mutex and both semaphores were created.
     */
    method Init(size: uint32, created: bool) returns (s: Status)
      requires Shaped()
      modifies this
      ensures size > MaxQueueSize ==> s == Fail && unchanged(this)
      ensures size <= MaxQueueSize ==> s == (if created then Pass else Fail)
      ensures size <= MaxQueueSize ==>
        Valid() && Contents == [] &&
        head == 0 && tail == 0 && count == 0 && maxSize == size
    {
      if size > MaxQueueSize {
        return Fail;
      }
      head := 0;
      tail := 0;
      count := 0;
      maxSize := size;
      Contents := [];
      s := if created then Pass else Fail;
    }

    /**
     * queue_send: rejects a message longer than a slot; waits while the
     * queue is full; otherwise copies the first `msgSize` bytes of `msg`
     * into the slot at `tail` and appends that slot to the queue.
     */
    method Send(msg: seq<uint8>, msgSize: uint32) returns (s: Status)
      requires Valid()
      requires msgSize <= MaxMsgSize ==> msgSize <= |msg|
      modifies this, data
      ensures Valid()
      ensures s == (if msgSize > MaxMsgSize then Fail
                    else if old(count) == old(maxSize) then Blocked
                    else Pass)
      ensures s != Pass ==> unchanged(this, data)
      ensures s == Pass ==>
        Contents == old(Contents) + [Overwrite(old(Row(tail)), msg[..msgSize])] &&
        maxSize == old(maxSize) && head == old(head) &&
        tail == Next(old(tail), maxSize) && count == old(count) + 1
      ensures s == Pass ==> forall k, j :: 0 <= k < MaxQueueSize && 0 <= j < MaxMsgSize ==>
        data[k, j] == if k == old(tail) && j < msgSize then msg[j] else old(data[k, j])
    {
      if msgSize > MaxMsgSize {
        return Fail;
      }
      if count == maxSize {
        return Blocked;
      }
      ghost var before := Slots();
      var t := tail;
      CopyIn(t, msg, msgSize);
      ghost var row := Overwrite(before[t], msg[..msgSize]);
      SendKeepsValid(before, row);
      tail := (tail + 1) % maxSize;
      count := count + 1;
      Contents := Contents + [row];
      s := Pass;
    }

    /**
     * queue_receive: rejects a size longer than a slot; waits while the
     * queue is empty; otherwise copies the first `msgSize` bytes of the
     * oldest message into `buf`, zeroes them in its slot and removes it.
     */
    method Receive(buf: array<uint8>, msgSize: uint32) returns (s: Status)
      requires Valid()
      requires msgSize <= MaxMsgSize ==> msgSize <= buf.Length
      modifies this, data, buf
      ensures Valid()
      ensures s == (if msgSize > MaxMsgSize then Fail
                    else if old(count) == 0 then Blocked
                    else Pass)
      ensures s != Pass ==> unchanged(this, data, buf)
      ensures s == Pass ==>
        buf[..msgSize] == old(Contents)[0][..msgSize] &&
        buf[msgSize..] == old(buf[msgSize..])
      ensures s == Pass ==> forall j :: 0 <= j < msgSize ==> buf[j] == old(data[head, j])
      ensures s == Pass ==>
        Contents == old(Contents)[1..] &&
        maxSize == old(maxSize) && tail == old(tail) &&
        head == Next(old(head), maxSize) && count == old(count) - 1
      ensures s == Pass ==> forall k, j :: 0 <= k < MaxQueueSize && 0 <= j < MaxMsgSize ==>
        data[k, j] == if k == old(head) && j < msgSize then 0 else old(data[k, j])
    {
      if msgSize > MaxMsgSize {
        return Fail;
      }
      if count == 0 {
        return Blocked;
      }
      ghost var before := Slots();
      var h := head;
      CopyOut(h, buf, msgSize);
      ClearSlot(h, msgSize);
      ReceiveKeepsValid(before, Overwrite(before[h], Zeros(msgSize)));
      head := (head + 1) % maxSize;
      count := count - 1;
      Contents := Contents[1..];
      s := Pass;
    }

    /** `memcpy(data[k], msg, n)`: the first `n` bytes of slot `k` become those of `msg`. */
    method CopyIn(k: uint32, msg: seq<uint8>, n: uint32)
      requires Shaped() && k < MaxQueueSize && n <= MaxMsgSize && n <= |msg|
      modifies data
      ensures forall i, j :: 0 <= i < MaxQueueSize && 0 <= j < MaxMsgSize ==>
        data[i, j] == if i == k && j < n then msg[j] else old(data[i, j])
    {
      for j := 0 to n
        invariant forall i, l :: 0 <= i < MaxQueueSize && 0 <= l < MaxMsgSize ==>
          data[i, l] == if i == k && l < j then msg[l] else old(data[i, l])
      {
        data[k, j] := msg[j];
      }
    }

    /** `memcpy(buf, data[k], n)`: the first `n` bytes of `buf` become those of slot `k`. */
    method CopyOut(k: uint32, buf: array<uint8>, n: uint32)
      requires Shaped() && k < MaxQueueSize && n <= MaxMsgSize && n <= buf.Length
      modifies buf
      ensures buf[..n] == Row(k)[..n] && buf[n..] == old(buf[n..])
    {
      for j := 0 to n
        invariant forall l :: 0 <= l < buf.Length ==>
          buf[l] == if l < j then data[k, l] else old(buf[l])
      {
        buf[j] := data[k, j];
      }
    }

    /** `memset(data[k], 0, n)`: the first `n` bytes of slot `k` become 0. */
    method ClearSlot(k: uint32, n: uint32)
      requires Shaped() && k < MaxQueueSize && n <= MaxMsgSize
      modifies data
      ensures forall i, j :: 0 <= i < MaxQueueSize && 0 <= j < MaxMsgSize ==>
        data[i, j] == if i == k && j < n then 0 else old(data[i, j])
    {
      for j := 0 to n
        invariant forall i, l :: 0 <= i < MaxQueueSize && 0 <= l < MaxMsgSize ==>
          data[i, l] == if i == k && l < j then 0 else old(data[i, l])
      {
        data[k, j] := 0;
      }
    }

    /** queue_get_count: the number of queued messages; changes nothing. */
    method GetCount() returns (c: uint32)
      requires Valid()
      ensures c == |Contents| && c <= maxSize
    {
      c := count;
    }

    /**
     * The bookkeeping of a send: once slot `tail` of the storage `before`
     * holds `row`, advancing `tail` and counting one more item keeps the
     * invariant with `row` appended to the queue.
     */
    lemma SendKeepsValid(before: seq<seq<uint8>>, row: seq<uint8>)
      requires Shaped() && Indices(head, tail, count, maxSize) && count < maxSize
      requires |before| == MaxQueueSize && forall i :: 0 <= i < MaxQueueSize ==> |before[i]| == MaxMsgSize
      requires Contents == Window(before, head, count, maxSize) && |row| == MaxMsgSize
      requires forall i, j :: 0 <= i < MaxQueueSize && 0 <= j < MaxMsgSize ==>
        data[i, j] == if i == tail then row[j] else before[i][j]
      ensures Indices(head, Next(tail, maxSize), count + 1, maxSize)
      ensures Window(Slots(), head, count + 1, maxSize) == Contents + [row]
    {
      SlotsAfterWrite(before, tail, row);
      WindowPush(before, head, tail, count, maxSize, row);
      SendKeepsIndices(head, tail, count, maxSize);
    }

    /**
     * The bookkeeping of a receive: the oldest item is slot `head` of the
     * storage `before`; once that slot holds `row`, advancing `head` and
     * counting one item less keeps the invariant without the oldest item.
     */
    lemma ReceiveKeepsValid(before: seq<seq<uint8>>, row: seq<uint8>)
      requires Shaped() && Indices(head, tail, count, maxSize) && 0 < count
      requires |before| == MaxQueueSize && forall i :: 0 <= i < MaxQueueSize ==> |before[i]| == MaxMsgSize
      requires Contents == Window(before, head, count, maxSize) && |row| == MaxMsgSize
      requires forall i, j :: 0 <= i < MaxQueueSize && 0 <= j < MaxMsgSize ==>
        data[i, j] == if i == head then row[j] else before[i][j]
      ensures Contents[0] == before[head]
      ensures Indices(Next(head, maxSize), tail, count - 1, maxSize)
      ensures Window(Slots(), Next(head, maxSize), count - 1, maxSize) == Contents[1..]
    {
      SlotsAfterWrite(before, head, row);
      WindowPop(before, head, tail, count, maxSize, row);
      ReceiveKeepsIndices(head, tail, count, maxSize);
    }

    /** After a loop that rewrote slot `k` into `row`, the slots are the old ones with `k` replaced. */
    lemma SlotsAfterWrite(before: seq<seq<uint8>>, k: nat, row: seq<uint8>)
      requires Shaped() && |before| == MaxQueueSize && k < MaxQueueSize && |row| == MaxMsgSize
      requires forall i :: 0 <= i < MaxQueueSize ==> |before[i]| == MaxMsgSize
      requires forall i, j :: 0 <= i < MaxQueueSize && 0 <= j < MaxMsgSize ==>
        data[i, j] == if i == k then row[j] else before[i][j]
      ensures Slots() == before[k := row]
    {
      forall i | 0 <= i < MaxQueueSize
        ensures Slots()[i] == before[k := row][i]
      {
        assert Row(i) == before[k := row][i];
      }
    }
  }

  /**
   * The ordering scenario: with capacity 2, initialisation passes and the
   * count is 0, two sends pass, a third waits, a receive frees a slot so
   * that the third send passes, and the three messages come out in the
   * order they went in.
   */
  method Scenario(a: seq<uint8>, b: seq<uint8>, c: seq<uint8>)
    returns (init: Status, empty: uint32, sends: seq<Status>, third: Status,
             ra: seq<uint8>, rb: seq<uint8>, rc: seq<uint8>)
    requires |a| == |b| == |c| <= MaxMsgSize
    ensures init == Pass && empty == 0
    ensures sends == [Pass, Pass, Pass] && third == Blocked
    ensures ra == a && rb == b && rc == c
  {
    var q := new CustomQueue();
    init := q.Init(2, true);
    empty := q.GetCount();
    var n: uint32 := |a|;
    var sa := SendFrom(q, a);
    var sb := SendFrom(q, b);
    third := q.Send(c, n);
    ra := ReceiveInto(q, n, a);
    var sc := SendFrom(q, c);
    sends := [sa, sb, sc];
    rb := ReceiveInto(q, n, b);
    rc := ReceiveInto(q, n, c);
  }

  /** Sends all of `m` to a queue with room; its first bytes join the back of the queue. */
  method SendFrom(q: CustomQueue, m: seq<uint8>) returns (s: Status)
    requires q.Valid() && |m| <= MaxMsgSize && q.count < q.maxSize
    modifies q, q.data
    ensures s == Pass
    ensures q.Valid() && q.maxSize == old(q.maxSize) && q.count == old(q.count) + 1
    ensures q.Contents[..|q.Contents| - 1] == old(q.Contents)
    ensures q.Contents[|q.Contents| - 1][..|m|] == m
  {
    s := q.Send(m, |m|);
  }

  /** Receives `n` bytes into a fresh buffer from a queue whose oldest message starts with `m`. */
  method ReceiveInto(q: CustomQueue, n: uint32, ghost m: seq<uint8>) returns (r: seq<uint8>)
    requires q.Valid() && n <= MaxMsgSize && 0 < q.count && q.Contents[0][..n] == m
    modifies q, q.data
    ensures q.Valid() && q.maxSize == old(q.maxSize) && q.count == old(q.count) - 1
    ensures q.Contents == old(q.Contents)[1..] && r == m
  {
    var buf := new uint8[n];
    var s := q.Receive(buf, n);
    assert buf[..] == buf[..n];
    r := buf[..];
  }
}
