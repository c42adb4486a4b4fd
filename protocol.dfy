/**
  The protocol messages exchanged by the relay and its clients. On the wire each
  is a JSON object whose `type` field names the variant; the JSON text itself
  is not modelled, only the fields each variant carries.
 */
module Protocol {
  import opened Wrappers

  /** A peer's `(host, port)` address. */
  datatype Address = Address(host: string, port: int)

  /** One `{host, port, name}` entry of a `users_list`. */
  datatype UserEntry = UserEntry(host: string, port: int, name: string)

  /** A JSON field that may be missing altogether, present as `null`, or hold a value. */
  datatype Field<T> = Absent | Null | Value(value: T)

  datatype Message =
    | ConnectionRequest(name: string)                              // "connection-request"
    | ConnectionResponse(success: bool, usersList: Option<seq<UserEntry>>,
                         errorMsg: Option<string>)                 // "connection-response"
    | UserJoined(name: string, host: string, port: int)            // "user-joined"
    | UserLeft(name: string, host: string, port: int)              // "user-left"
    | ChatMessage(isPrivate: bool, sender: string, receiver: Field<string>,
                  message: string)                                 // "chat-message"
    | DisconnectionRequest                                         // "disconnection-request"
    | DisconnectionResponse                                        // "disconnection-response"
    | Unrecognized(typeName: string)                               // any other "type"

  /** What decoding a payload's UTF-8 text and parsing its JSON yields. */
  datatype Parsed = Malformed | Parsed(msg: Message)
}
