/**
 * The chat protocol's message: an enumerated tag and a text payload.
 * The wire codec lives in message.h/message.cpp, which are not part of
 * this model; a message here is already decoded.
 */
module ChatMessage {

  /** The nine tags of the protocol (`slogin`, `rlogin`, `join`, ...). */
  datatype Tag = SLogin | RLogin | Join | Leave | SendAll | Quit | Ok | Err | Delivery

  datatype Message = Message(tag: Tag, data: string)

  /** `Message::MAX_LEN`, the payload bound; its value is assumed (message.h is not part of this model). */
  const MAX_LEN: nat := 255

  /**
   * What `Connection::receive` hands a caller on the server side: a
   * message, a failed read (end of stream or error), or a decoding
   * exception carrying its `what()` text.
   */
  datatype Incoming = Got(msg: Message) | Closed | Malformed(reason: string)

  /** The `Message(TAG_OK, "")` acknowledgement. */
  function OkReply(): Message
  {
    Message(Ok, "")
  }

  /** An error reply with its explanation. */
  function ErrReply(text: string): Message
  {
    Message(Err, text)
  }
}
