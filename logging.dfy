/**
 * The logging middleware and what it does to delivery. The logger swaps
 * the response body for an in-memory buffer, runs the rest of the chain,
 * copies the buffer out and puts the connection's stream back. Its `using`
 * block disposes the buffer on every exit, but the stream is put back only
 * after the block, so that step is skipped when the rest of the chain
 * throws. The exception boundary, further out, then writes its JSON answer
 * to the disposed buffer.
 */
module Logging {
  import opened Users
  import opened Http

  /** Where the response body points: the connection's stream, or the logger's buffer. */
  datatype BodyStream = Connection | Buffer(open: bool)

  /** What reaches the client: a status and the response written, or no body when it was lost. */
  datatype Delivered = Delivered(status: int, body: Option<Response>)

  /**
   * The body stream installed once the logger has run the inner chain.
   * `restoreInFinally` is false for the code as written, where the stream is
   * put back only on normal completion, and true for a logger that puts it
   * back in a `finally` block.
   */
  function BodyAfterLogger(inner: Reply, restoreInFinally: bool): BodyStream {
    match inner
    case Returned(_) => Connection
    case Threw(_) => if restoreInFinally then Connection else Buffer(false)
  }

  /**
   * What the exception boundary delivers around the logger. A returned
   * response was written into the buffer and copied out. A caught exception
   * is written as JSON to whatever stream is installed; a write to a
   * disposed buffer throws again, and the host answers 500 with no body.
   */
  function Deliver(inner: Reply, body: BodyStream): Delivered {
    match inner
    case Returned(response) => Delivered(Status(response), Some(response))
    case Threw(message) =>
      if body == Buffer(false) then Delivered(500, None)
      else Delivered(500, Some(ServerError(message)))
  }

  function DeliverAsWritten(inner: Reply): Delivered {
    Deliver(inner, BodyAfterLogger(inner, false))
  }

  function DeliverRestored(inner: Reply): Delivered {
    Deliver(inner, BodyAfterLogger(inner, true))
  }

  /**
   * As written, every endpoint exception reaches the client as a bare 500:
   * the boundary's message and detail are lost, and the response is not
   * the one the boundary meant to write.
   */
  lemma ThrowLosesMessage(inner: Reply)
    requires inner.Threw?
    ensures DeliverAsWritten(inner) == Delivered(500, None)
    ensures DeliverAsWritten(inner).body != Some(Translate(inner))
  {
  }

  /** As written, a response that was returned, not thrown, is delivered intact. */
  lemma ReturnedDeliveredIntact(inner: Reply)
    requires inner.Returned?
    ensures DeliverAsWritten(inner) == Delivered(Status(inner.response), Some(inner.response))
    ensures DeliverAsWritten(inner) == DeliverRestored(inner)
  {
  }

  /**
   * With the stream put back in a `finally` block, the client receives
   * exactly what the boundary produces (Translate), on both paths.
   */
  lemma RestoredDeliversTranslate(inner: Reply)
    ensures DeliverRestored(inner) == Delivered(Status(Translate(inner)), Some(Translate(inner)))
  {
  }
}
