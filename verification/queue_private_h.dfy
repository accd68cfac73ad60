/**
 * Constants, integer types and status codes of the custom message queue
 * (Core/Inc/queue_private.h).
 */
module QueueTypes {

  /** The C `uint8_t`: one byte of a message. */
  type uint8 = x: int | 0 <= x < 0x100

  /** The C `uint32_t` of the indices, the count, the capacity and the sizes. */
  type uint32 = x: int | 0 <= x < 0x1_0000_0000

  /** MAX_QUEUE_SIZE: number of message slots in the storage. */
  const MaxQueueSize: nat := 16

  /** MAX_MSG_SIZE: number of bytes in one message slot. */
  const MaxMsgSize: nat := 100

  /**
   * Outcome of a queue operation. `Pass` and `Fail` are pdPASS and pdFAIL.
   * `Blocked` stands for a call that waits on a counting semaphore (space
   * for a send, an item for a receive): the call has not happened yet and
   * the queue is left as it was.
   */
  datatype Status = Pass | Fail | Blocked
}
