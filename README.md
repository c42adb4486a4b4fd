# Chat relay and client, modelled in Dafny

The system is a small TCP chat. A relay server keeps two dictionaries:

- `connected_clients` maps every accepted socket to its peer address;
- `online_users` maps every joined address to its display name.

It answers four kinds of request: `connection-request` (join under a name),
`disconnection-request` (leave), `chat-message` (public broadcast or private
message), and end of stream. Each client keeps a mirror of `online_users`,
parses the `/mp <name> <text>` command, and shows incoming events in its chat
window. Every message on the wire is a frame: a 4-byte big-endian length, then
that many bytes of JSON text.

The project has six modules:

- `Wrappers` (`wrappers.dfy`): `Option`.
- `Dict` (`dict.dfy`): Python dictionaries as insertion-ordered sequences of
  pairs. Assigning to an existing key keeps its position; a new key is appended;
  `del` removes the entry. `ToMap` gives the unordered map each one stands for,
  and every update is proved against it.
- `Framing` (`framing.dfy`): the frame codec and its round trips. A
  `Connection` class hands out bytes in chunks of unspecified size, as `recv`
  does. `RecvAll` and `ReceiveMessage` are the source's accumulation loops,
  proved against the pure decoder `DecodeFrame`. The client's `recvall` and
  `receiveMessage` are the same code as the server's, so these members model
  both.
- `Protocol` (`protocol.dfy`): the message kinds and their fields. JSON text is
  not modelled. Payload decoding (UTF-8 plus `json.loads`) is a function
  parameter `parse`.
- `Server` (`server.dfy`):
  - Pure step functions specify each handler. Each takes the registry
    (`connected`, `online`) and returns the new registry plus the frames written
    (`Out(socket, message)`, in order). They are `Join`, `Leave`, `Chat`,
    `Dispatch`, `Disconnect` and `Session`, a whole connection's stream.
  - The class `Relay` holds the two dictionaries and an `outbox`. Its methods
    update them in place as the source does and are proved against the step
    functions.
- `Client` (`client.dfy`):
  - `Classify` is the decision `sendMessage` makes for one input line.
  - `Deliver` and `Receiving` are what the receive loop does with each frame.
  - The class `ChatClient` holds the roster mirror, the transcript shown in the
    chat window, the messages sent to the server, and whether the socket is
    open. It performs those updates in place.
- `Mirror` (`mirror.dfy`): how the two sides fit together. From a first login
  until the client goes back to the menu, its roster mirrors the relay's
  `online` dictionary, and typed lines show up in the other clients'
  transcripts.

The model reproduces the source's behaviour as written:

- The relay forwards chat from connections that never joined.
- A second join from the same address under a new name overwrites the old name
  and sends no `user-left` for it.
- The `sender` field is relayed as the client wrote it.
- A forwarded private message carries no `receiver` field.
- Only the client refuses private messages addressed to oneself.
- Going back to the menu keeps the client's roster, and a later login loads the
  users list on top of it. Users who left while the client was at the menu
  stay on its roster (`Mirror.RosterStaleAfterRelogin`).
- On the relay, a zero-length frame ends the session like end of stream does; the client hands it to the JSON decoder, which rejects it.
- The length header counts characters. This is correct only for ASCII text,
  which `json.dumps` produces by default, so ASCII is a precondition of
  `TextFrame`.

## Model

| member | source | states |
|---|---|---|
| Framing.HeaderRoundTrip | servidor.py:116 | unpacking the `>I` header packed from any length below 2^32 gives back that length |
| Framing.HeaderInverse | servidor.py:62-65 | every 4-byte header is the packing of the one length it unpacks to |
| Framing.EncodeHeader | servidor.py:116 | `struct.pack('>I', n)` is four bytes; `HeaderRoundTrip` and `HeaderInverse` make it the inverse of `DecodeHeader` |
| Framing.DecodeHeader | servidor.py:65 | `struct.unpack('>I', header)[0]` is always below 2^32 |
| Framing.DecodeFrame | servidor.py:60-67 | no message exactly when the stream ends inside the header or inside the announced payload; otherwise the stream is that frame followed by the rest |
| Framing.EncodeFrame | servidor.py:116 | a frame is the four header bytes followed by exactly the payload |
| Framing.FrameRoundTrip | servidor.py:116 | a frame followed by anything decodes to its payload and exactly what follows |
| Framing.FrameTruncated | servidor.py:60-67 | a stream cut anywhere inside a frame yields no message, the same as a clean close |
| Framing.TextFrameRoundTrip | servidor.py:116 | for ASCII text the character count in the header equals the byte count, so the receiver reads back exactly the text sent |
| Framing.TextFrame | servidor.py:116 | the frame of a text is four header bytes plus one byte per character, and its header reads back as the character count |
| Framing.FramesInOrder | servidor.py:71-75 | consecutive frames are delivered whole and in sending order; a trailing partial frame is never delivered |
| Framing.Connection.Recv | servidor.py:54 | `recv` returns at most the requested number of bytes, in stream order, and returns nothing only at end of stream |
| Framing.RecvAll | servidor.py:49-58 | returns the next `n` bytes in arrival order when the peer sends that many before closing, and leaves the rest unread; otherwise `None`, with the stream used up. The client's `recvall` (cliente.py:30-42) is the same loop |
| Framing.ReceiveMessage | servidor.py:60-67 | returns the payload of the next frame and leaves the bytes after it unread, or returns `None` when the stream ends before a whole frame. The client's `receiveMessage` (cliente.py:45-58) is the same code |
| Dict.IndexOf | servidor.py:115 | the position of the first entry with the key, and it exists exactly when the key is in the dictionary |
| Dict.IndexOfValue | servidor.py:216 | `list(d.values()).index(v)`: the first position holding `v`, and it exists exactly when `v` is among the values |
| Dict.Get | servidor.py:195 | `d[k]` is defined exactly when `k` is a key, and then it is a value stored under `k` |
| Dict.Put | servidor.py:154 | assigning to an existing key keeps the keys and their order; a new key is appended at the end |
| Dict.Remove | servidor.py:200 | `del` of a present key removes one entry; an absent key changes nothing |
| Dict.FirstKeyOf | servidor.py:215-216 | `list(d.keys())[list(d.values()).index(v)]`: the key of the first entry holding the value, present exactly when the value is among the values |
| Dict.PutToMap | servidor.py:154 | assignment updates the abstract dictionary like `m[k := v]` |
| Dict.GetAfterPut | servidor.py:154 | after `d[k] = v`, looking up `k` gives `v` and every other key gives what it gave before |
| Dict.RemoveToMap | servidor.py:200 | deletion removes exactly `k` from the abstract dictionary |
| Dict.PutKeys | cliente.py:531 | after an assignment the keys are the old keys plus the assigned one |
| Dict.PutDistinct | servidor.py:154 | assignment keeps keys unique, and values unique when the new value is not already present |
| Dict.RemoveDistinct | servidor.py:79 | deletion keeps keys and values unique |
| Dict.PutOverwritesValue | servidor.py:154 | with unique values, assigning a fresh value to a present key leaves the replaced value nowhere in the dictionary |
| Dict.RemoveKeepsOther | servidor.py:200 | deletion leaves every other key with the entry it had |
| Dict.RemoveDropsKey | servidor.py:79 | with unique keys, the deleted key is gone |
| Dict.RemoveValues | servidor.py:200 | after deleting an entry, its value is gone when values were unique, and every other value remains |
| Server.Recipients | servidor.py:112-116 | a socket receives a broadcast exactly when it is connected, its address has joined, and it is not the originating socket |
| Server.RecipientsDistinct | servidor.py:114-116 | a broadcast writes at most one frame to each socket |
| Server.Fanout | servidor.py:114-116 | the same message to each recipient, one frame each, in dictionary order |
| Server.UsersList | servidor.py:137-145 | one users-list entry per joined address, in dictionary order, each with that address's host, port and name |
| Server.Join | servidor.py:118-175 | a taken name produces exactly one frame, a refusal with no users list and the fixed error text, and changes nothing. Otherwise the address is (re)assigned the name, `user-joined` goes to every other joined connection, and the requester gets success with the roster as it was before the join. Unique names are preserved |
| Server.JoinNeverSaysLeft | servidor.py:118-175 | a join writes only `user-joined` and `connection-response` frames |
| Server.RejoinReplacesName | servidor.py:122-161 | a join under a new name from an already-joined address drops the old name, keeps the number of joined users, and writes no `user-left` |
| Server.RejoinDropsOldName | servidor.py:154 | overwriting an address's name leaves the old name nowhere in `online_users` |
| Server.Leave | servidor.py:177-208 | never touches `connected`; a leave for an address that has not joined changes nothing and writes at most the `disconnection-response`; unique sockets, addresses and names stay unique |
| Server.LeaveResponse | servidor.py:179-189 | a `disconnection-response` to the requesting socket exactly when it is still connected, and nothing else |
| Server.LeaveRemoves | servidor.py:191-208 | a leave for a joined address removes exactly that address and tells the remaining joined connections its name, host and port |
| Server.LeaveIdempotent | servidor.py:177-208 | repeating a leave leaves the registry as the first leave did and broadcasts nothing more |
| Server.LeaveFreesName | servidor.py:200 | after a leave the name resolves to no socket and can be taken by the next join |
| Server.ReceiverSocket | servidor.py:210-224 | a socket is returned only for the first connection of the first address joined under the receiver's name; with unique names, none is returned exactly when that name's address has no connection |
| Server.Chat | servidor.py:226-266 | a private message goes as at most one frame, without a `receiver` field, to a connection of the address joined under that name, and nothing is sent when there is none. A public message is exactly the broadcast: one frame to each connected socket whose address has joined, other than the sender's, in dictionary order |
| Server.Dispatch | servidor.py:100-110 | only joins and leaves change the registry; chat and unknown types leave it as it was; unique names are preserved |
| Server.Disconnect | servidor.py:75-86 | at end of stream the socket is removed from `connected` before the implicit leave, so it receives no `disconnection-response` and no frame at all |
| Server.Session | servidor.py:69-110 | over a connection's whole stream the only change to `connected` is the removal of that connection's own socket |
| Server.SessionLeftover | servidor.py:71-75 | what `handleRequests` leaves unread is a suffix of the stream: the bytes after the zero-length frame that ended it, or nothing |
| Server.SessionPreservesInv | servidor.py:69-110 | over a whole connection's stream, sockets, addresses and display names stay unique |
| Server.SessionEndsDisconnected | servidor.py:71-86 | when a connection's session ends, its socket is no longer connected |
| Server.Relay.constructor | servidor.py:21-23 | both dictionaries start empty |
| Server.Relay.AcceptConnection | servidor.py:39-47 | the accepted socket is recorded with its address; nothing else changes |
| Server.Relay.Broadcast | servidor.py:112-116 | the loop over `connected_clients` writes exactly the frames `Fanout` of `Recipients` describes |
| Server.Relay.HandleJoinRequest | servidor.py:118-175 | the dictionaries and the frames written are those of `Join`, including the users list the loop builds |
| Server.Relay.HandleLeaveRequest | servidor.py:177-208 | the dictionaries and the frames written are those of `Leave` |
| Server.Relay.HandleChatMessage | servidor.py:226-266 | the frames written are those of `Chat`, and the dictionaries do not change |
| Server.Relay.CloseConnection | servidor.py:77-86 | the end-of-stream branch leaves the registry and writes the frames `Disconnect` describes |
| Server.Relay.HandleMessage | servidor.py:100-110 | the type dispatch acts as `Dispatch` |
| Server.Relay.HandleRequests | servidor.py:69-110 | the per-connection loop leaves the registry and writes the frames of `Session` over the connection's whole stream, keeps names unique, and leaves unread exactly `SessionLeftover` |
| Server.Relay.ServeOne | servidor.py:73-110 | one pass of the per-connection loop either closes the connection, leaving the registry, the frames and the unread bytes that `Session` and `SessionLeftover` give for the whole stream, or consumes a frame and leaves a state from which the rest of the stream leads to that same end |
| Client.IndexFrom | cliente.py:440 | `s.index(c, start)` is the first position at or after `start` holding `c`, and fails exactly when there is none |
| Client.HasPrivatePrefix | cliente.py:436 | `msg[:4] == '/mp '` holds exactly when the line is `/mp ` followed by something |
| Client.IsSpace | cliente.py:467 | `str.isspace` of one character: space, tab, newline and carriage return are white space, letters and digits are not |
| Client.Blank | cliente.py:467 | `not msg or msg.isspace()`: the empty body is blank, and a body with a letter is not |
| Client.SplitPrivate | cliente.py:436-464 | a `/mp ` line with a space at index 5 or later is `/mp ` + receiver + space + body, with no space in the receiver after its first character. Without such a space there is no split |
| Client.SplitPrivateRoundTrip | cliente.py:440-464 | splitting a composed private command gives back its receiver and body |
| Client.Classify | cliente.py:431-521 | never silent. A line not starting with the four characters `/mp ` is sent publicly exactly as typed, even if it is only whitespace. A private message is sent only under one's own name, to a name on the roster other than one's own, with a non-blank body, and is exactly `/mp ` + receiver + space + body, the receiver containing no space after its first character |
| Client.Submit | cliente.py:363-378 | exactly the empty input does nothing; any other input is classified |
| Client.PrivateCommandSent | cliente.py:461-492 | every private command to another name on the roster with a non-blank body is sent as that private message with its echo line |
| Client.PrivateCommandErrors | cliente.py:436-499 | each local error is shown for its cause, in the source's order: no space after the name, one's own name, an unknown name, a blank body |
| Client.LoadRoster | cliente.py:174-175 | inserting a users list keeps every earlier roster entry where it was and adds at most one entry per listed user; the names it gives are stated by `LoadRosterName` and `LoadRosterUnlisted` |
| Client.LoadRosterDistinct | cliente.py:174-175 | loading a users list keeps one roster entry per address |
| Client.LoadRosterHasListed | cliente.py:174-175 | any one listed user's address is on the roster after loading, whatever the roster held before |
| Client.LoadRosterKeys | cliente.py:174-175 | every listed user, and everyone already on the roster, is on the roster after loading |
| Client.LoadRosterName | cliente.py:174-175 | on any roster, a listed address ends up under the name of its last entry in the list |
| Client.LoadRosterUnlisted | cliente.py:174-175 | an address the list does not mention keeps exactly what the roster held for it, present or absent |
| Client.LoginFirstFrame | cliente.py:150-176 | read off the wire, a login succeeds exactly when the first frame's payload parses as a `connection-response` saying success, and the users list loaded is the one that response carries, whatever follows the frame |
| Client.Deliver | cliente.py:403-422 | the transcript only grows. A `disconnection-response` ends the loop with nothing changed. A `user-left` for an address not on the roster always closes the socket and stops, and that is the only other way to stop. A chat message adds exactly its display line. Only joins and leaves touch the roster |
| Client.DeliverRoster | cliente.py:524-550 | `user-joined` sets the address's name and `user-left` deletes the address, in the abstract dictionary; the roster keeps unique addresses |
| Client.Receiving | cliente.py:381-428 | the receive loop reads a prefix of the stream and leaves the rest unread |
| Client.ReceivingKeepsHistory | cliente.py:381-428 | over any stream, the transcript only grows and the roster keeps unique addresses |
| Client.ReceivingStops | cliente.py:416-418 | a `disconnection-response` frame ends the receive loop at once, leaving what follows unread |
| Client.ReceivingUnknownLeft | cliente.py:424-428 | a `user-left` frame for an address not on the roster makes `del` raise `KeyError`, which the receive loop catches by closing the socket and stopping, leaving what follows unread |
| Client.ChatDisplay | cliente.py:570-580 | a received chat line starts with the sender's name and ends with the message and a blank line |
| Client.ChatClient.constructor | cliente.py:21 | the roster starts empty |
| Client.ChatClient.LoginToChat | cliente.py:129-192 | sends the `connection-request` under the given name. On success the chat window opens with only the welcome line and the roster loads the users list; the receive loop starts only when the list is present. Any other outcome leaves the roster and transcript alone. Exactly the response frame is consumed; the rest of the stream is left for the receive loop |
| Client.ChatClient.LoadUsersList | cliente.py:174-176 | the loop inserts every users-list entry in order, as `LoadRoster` describes |
| Client.ChatClient.SendButton | cliente.py:363-378 | adds the echo or error line to the transcript and sends exactly the message `Submit` decides |
| Client.ChatClient.ReturnToMenu | cliente.py:333-351 | sends a `disconnection-request` |
| Client.ChatClient.HandleUserJoined | cliente.py:524-540 | sets the roster entry and adds the "se conectou" line, as `Deliver` describes |
| Client.ChatClient.HandleUserLeft | cliente.py:543-560 | deletes the roster entry and adds the "se desconectou" line; for an absent address (the `KeyError`) nothing changes |
| Client.ChatClient.HandleChatMessage | cliente.py:563-581 | adds `sender -> Você: message` for a private message and `sender: message` for a public one |
| Client.ChatClient.HandleMessage | cliente.py:403-422 | the type dispatch acts as `Deliver` and reports whether the loop ends |
| Client.ChatClient.Receive | cliente.py:381-428 | the receive loop leaves the state and the unread bytes that `Receiving` gives for the stream |
| Client.ChatClient.ReceiveOne | cliente.py:384-422 | one pass of the receive loop either ends it in the state and with the unread bytes `Receiving` gives for the whole stream, or consumes a frame and leaves a state from which the rest of the stream leads to that same end |
| Mirror.JoinerRoster | servidor.py:139-145 | the users list of a successful join, loaded into an empty roster, is the relay's `online_users` as it was, order included |
| Mirror.JoinerStartsMirrored | servidor.py:137-161 | a client logging in for the first time, with an empty roster, from a new address starts with a roster that is the relay's `online_users` without its own address; one that joins again from the same address also lists itself |
| Mirror.RosterStaleAfterRelogin | cliente.py:174-175 | `returnToMenu` keeps the roster and a client at the menu hears no `user-left`, so an address that left meanwhile stays on the roster through the next login and the roster no longer mirrors the relay's `online_users` |
| Mirror.LoginAgainstRelay | servidor.py:118-175 | the frame a join writes to the requester, read as the client's first frame, makes the login succeed exactly when the name was free, and then loads the relay's roster from before the join |
| Mirror.MirrorFollowsJoin | cliente.py:531 | a client whose roster is the relay's `online_users` without its own address stays so after handling the `user-joined` that another address's successful join broadcasts |
| Mirror.MirrorFollowsLeave | cliente.py:550 | likewise for the `user-left` of another address's leave, which never makes such a client close its socket |
| Mirror.PublicLineDisplayed | servidor.py:253-266 | a public line typed by `own` reaches exactly the other joined connections, one frame each when sockets are unique, never the sender, and shows there as `own: line` |
| Mirror.PrivateLineDisplayed | servidor.py:231-251 | a private command to a name on a mirroring client's roster passes the client's checks, the relay knows the name, and the message reaches at most one connection, one of the address joined under that name, never the sender's own address when names are unique, and shows there as `own -> Você: body` |
| Mirror.MirroredNameJoined | servidor.py:212-216 | a name on a mirroring client's roster is joined on the relay under an address other than the client's own |
| Mirror.PrivateChatShown | servidor.py:231-251 | the relay's frame for a private message goes to a connection of an address joined under the receiver's name and shows there as `own -> Você: body` |
| Mirror.PrivateReachesOther | servidor.py:212-224 | with unique names, every frame for a name goes to a connection of the one address joined under it |

## Left out

- Threads. The source runs one thread per connection over unlocked shared dictionaries. The model treats each handler as one atomic step and runs one connection's stream at a time, so interleavings between connections are not covered.
- JSON. `json.dumps` and `json.loads` are not modelled: messages are a datatype, and decoding a payload is the parameter `parse`. Frames written are recorded as messages (`outbox`, `sent`), not as bytes; `Framing.TextFrame` states how an ASCII text becomes bytes.
- Framing.EncodeHeader: requires a length below 2^32, the range `struct.pack('>I', n)` accepts; the `struct.error` it raises above that is not modelled.
- Framing.EncodeFrame: requires a payload shorter than 2^32 bytes. For a longer one `struct.pack('>I', n)` raises `struct.error`, which ends the sending thread (servidor.py:116, 171, 189, 251; cliente.py:143, 347, 492, 521); the model does not cover that error path.
- Framing.TextFrame: requires a text shorter than 2^32 characters, for the same reason; the `struct.error` a longer text raises is not modelled.
- Server.Relay.HandleRequests: a payload that is not valid UTF-8, JSON that is not an object, or a missing `type` or field makes the source's thread die without cleanup. The model reads every such payload as `Malformed` and skips it, as the source does only for invalid JSON.
- Server.Chat: a private message without a `receiver` field makes the source raise `KeyError` and end that connection's thread. The model sends nothing and carries on.
- Client.Receiving: a payload that is not valid UTF-8, or a message missing a field, makes the source close the socket. The model reads every payload `parse` rejects as skipped, which the source does only for invalid JSON. A zero-length frame is skipped exactly when `parse` reads the empty payload as `Malformed`, as `json.loads` does with empty text; on the relay it ends the session instead.
- Client.ChatClient.LoginToChat: a refused login shows `error_msg` in a message box, and a refusal is not otherwise visible in the model's state.
- The window. Widgets, the user listbox, message boxes, focus and scrolling are not modelled, including the listbox lookup in `handleUserLeft`, which raises when the name is not listed. The transcript models the text area's content only.
- Socket setup and lifecycle: creating, binding, connecting, listening, `select` and the accept loop. `acceptConnection` takes the socket and address as parameters, and sockets are abstract numbers. `sendall` is assumed to succeed.
- Console output, `os._exit` and `sys.exit`.
