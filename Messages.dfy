/** The chat message record shared by the chat room and its message bubble. */
module Messages {
  import opened Wrappers

  /** Delivery status: "sent", "delivered" or "read". */
  datatype MessageStatus = Sent | Delivered | Read

  /** A message as the server sends it. `id` is the server-assigned offset in
      decimal (absent on messages the client makes up itself); `text` is the
      message body, or the file's URL when `isFile` holds; `group` is the
      room id. */
  datatype Message = Message(
    id: Option<string>,
    from: string,
    text: string,
    isFile: bool,
    group: string,
    msgStatus: MessageStatus)
}
