/**
  The relay engine. Its state is two insertion-ordered dictionaries:
  `connected` (socket -> peer address, every accepted connection) and
  `online` (address -> display name, every joined participant). Each handler is
  one atomic transition of that state which also emits frames, collected as
  `Out(socket, message)` records in the order they are written.

  The pure functions `Join`, `Leave`, `Chat`, `Dispatch`, `Disconnect` and
  `Session` specify the handlers; the class `Relay` implements them the way
  the source does (loops over the dictionaries, in-place updates) and is
  proved against them.
 */
module Server {
  import opened Wrappers
  import opened Dict
  import opened Framing
  import opened Protocol

  /** An accepted connection, identified abstractly. */
  type Sock = nat

  /** A frame written to socket `to` carrying `msg`. */
  datatype Out = Out(to: Sock, msg: Message)

  datatype Registry = Registry(connected: seq<(Sock, Address)>, online: seq<(Address, string)>)

  /** The registry after a handler, and the frames it wrote. */
  datatype Step = Step(reg: Registry, out: seq<Out>)

  const NAME_TAKEN_ERROR: string := "Nome de usuário já está em uso!\nPor favor, digite outro nome."

  lemma ConcatAssoc<T>(a: seq<T>, b: seq<T>, c: seq<T>)
    ensures (a + b) + c == a + (b + c)
  {
  }

  /** Each socket and each address appears once, and display names are pairwise distinct. */
  ghost predicate Inv(r: Registry) {
    DistinctKeys(r.connected) && DistinctKeys(r.online) && DistinctValues(r.online)
  }

  /** The sockets `broadcast` writes to, in the order of `connected`: every
      connection whose address has joined, except the originating one. */
  function Recipients(connected: seq<(Sock, Address)>, online: seq<(Address, string)>, from: Sock): (rs: seq<Sock>)
    ensures forall s :: s in rs <==>
      s != from && exists i :: 0 <= i < |connected| && connected[i].0 == s && connected[i].1 in Keys(online)
  {
    if connected == [] then []
    else
      var n := |connected| - 1;
      var rs := Recipients(connected[..n], online, from)
                + (if connected[n].1 in Keys(online) && connected[n].0 != from then [connected[n].0] else []);
      assert forall i :: 0 <= i < n ==> connected[..n][i] == connected[i];
      rs
  }

  /** The same message to each socket of `rs`, in order. */
  function Fanout(rs: seq<Sock>, msg: Message): (out: seq<Out>)
    ensures |out| == |rs|
    ensures forall i :: 0 <= i < |rs| ==> out[i] == Out(rs[i], msg)
    ensures forall o :: o in out <==> o.to in rs && o.msg == msg
  {
    seq(|rs|, i requires 0 <= i < |rs| => Out(rs[i], msg))
  }

  /** The roster sent to a new participant: one entry per joined address, in join order. */
  function UsersList(online: seq<(Address, string)>): (users: seq<UserEntry>)
    ensures |users| == |online|
    ensures forall i :: 0 <= i < |online| ==>
      Address(users[i].host, users[i].port) == online[i].0 && users[i].name == online[i].1
  {
    seq(|online|, i requires 0 <= i < |online| => UserEntry(online[i].0.host, online[i].0.port, online[i].1))
  }

  /** `handleJoinRequest`. A taken name is refused with exactly one frame and no
      change; otherwise the address is (re)assigned the name, every other joined
      connection is told, and the requester gets the roster as it was before. */
  function Join(r: Registry, sock: Sock, addr: Address, name: string): (s: Step)
    ensures s.reg.connected == r.connected
    ensures s.reg == r <==> name in Values(r.online)
    ensures name in Values(r.online) ==>
      s.out == [Out(sock, ConnectionResponse(false, None, Some(NAME_TAKEN_ERROR)))]
    ensures name !in Values(r.online) ==>
      && ToMap(s.reg.online) == ToMap(r.online)[addr := name]
      && s.out == Fanout(Recipients(r.connected, s.reg.online, sock), UserJoined(name, addr.host, addr.port))
                  + [Out(sock, ConnectionResponse(true, Some(UsersList(r.online)), None))]
    ensures Inv(r) ==> Inv(s.reg)
  {
    if name in Values(r.online) then
      Step(r, [Out(sock, ConnectionResponse(false, None, Some(NAME_TAKEN_ERROR)))])
    else
      var online := Put(r.online, addr, name);
      PutToMap(r.online, addr, name);
      assert name in Values(online) by {
        assert Get(online, addr) == Some(name) by { GetAgreesWithMap(online, addr); }
        var i := IndexOf(online, addr);
        assert Values(online)[i] == name;
      }
      assert Inv(r) ==> Inv(Registry(r.connected, online)) by {
        if Inv(r) { PutDistinct(r.online, addr, name); }
      }
      Step(Registry(r.connected, online),
           Fanout(Recipients(r.connected, online, sock), UserJoined(name, addr.host, addr.port))
           + [Out(sock, ConnectionResponse(true, Some(UsersList(r.online)), None))])
  }

  /** The `disconnection-response` written when the socket is still connected. */
  function LeaveResponse(r: Registry, sock: Sock): (out: seq<Out>)
    ensures out != [] <==> sock in Keys(r.connected)
    ensures forall o :: o in out ==> o == Out(sock, DisconnectionResponse)
  {
    if sock in Keys(r.connected) then [Out(sock, DisconnectionResponse)] else []
  }

  /** `handleLeaveRequest`. Answers a still-connected socket; if the address had
      joined, removes it and tells the remaining joined connections its name. */
  function Leave(r: Registry, sock: Sock, addr: Address): (s: Step)
    ensures s.reg.connected == r.connected
    ensures addr !in Keys(r.online) ==> s.reg == r && s.out == LeaveResponse(r, sock)
    ensures Inv(r) ==> Inv(s.reg)
  {
    match Get(r.online, addr)
    case None => Step(r, LeaveResponse(r, sock))
    case Some(name) =>
      var online := Remove(r.online, addr);
      assert Inv(r) ==> Inv(Registry(r.connected, online)) by {
        if Inv(r) { RemoveDistinct(r.online, addr); }
      }
      Step(Registry(r.connected, online),
           LeaveResponse(r, sock)
           + Fanout(Recipients(r.connected, online, sock), UserLeft(name, addr.host, addr.port)))
  }

  /** `getReceiverSocket`: the first connection of the first address joined under
      the receiver's name. */
  function ReceiverSocket(r: Registry, receiver: Field<string>): (s: Option<Sock>)
    ensures s.Some? ==>
      receiver.Value? && exists a :: (a, receiver.value) in r.online && (s.value, a) in r.connected
    ensures s.Some? ==>
      exists a :: FirstWithValue(r.online, a, receiver.value) && FirstWithValue(r.connected, s.value, a)
    ensures receiver.Value? && DistinctValues(r.online) ==>
      (s.None? <==> forall a :: (a, receiver.value) in r.online ==> a !in Values(r.connected))
  {
    match receiver
    case Value(name) =>
      (match FirstKeyOf(r.online, name)
       case None => None
       case Some(a) =>
         assert forall b :: (b, name) in r.online && DistinctValues(r.online) ==> b == a by {
           forall b | (b, name) in r.online && DistinctValues(r.online) ensures b == a {
             var i := IndexOfValue(r.online, name);
             var j :| 0 <= j < |r.online| && r.online[j] == (b, name);
             assert !(i < j) && !(j < i);
           }
         }
         FirstKeyOf(r.connected, a))
    case _ => None
  }

  /** `handleChatMessage`. A private message reaches at most the receiver's
      socket, without a `receiver` field; a public one is broadcast. The sender
      field is relayed as the client wrote it. */
  function Chat(r: Registry, sock: Sock, isPrivate: bool, sender: string, receiver: Field<string>,
                message: string): (out: seq<Out>)
    ensures isPrivate ==> |out| <= 1
    ensures isPrivate ==> forall o :: o in out ==>
      && o.msg == ChatMessage(true, sender, Absent, message)
      && receiver.Value?
      && exists a :: (a, receiver.value) in r.online && (o.to, a) in r.connected
    ensures isPrivate && receiver.Value? && DistinctValues(r.online) ==>
      (out == [] <==> forall a :: (a, receiver.value) in r.online ==> a !in Values(r.connected))
    ensures !isPrivate ==> out == Fanout(Recipients(r.connected, r.online, sock), ChatMessage(false, sender, Absent, message))
    ensures !isPrivate ==> forall o :: o in out ==>
      o.msg == ChatMessage(false, sender, Absent, message) && o.to != sock
    ensures !isPrivate ==> forall i ::
      (0 <= i < |r.connected| && r.connected[i].1 in Keys(r.online) && r.connected[i].0 != sock) ==>
        Out(r.connected[i].0, ChatMessage(false, sender, Absent, message)) in out
  {
    if isPrivate then
      match ReceiverSocket(r, receiver)
      case None => []
      case Some(s) => [Out(s, ChatMessage(true, sender, Absent, message))]
    else
      Fanout(Recipients(r.connected, r.online, sock), ChatMessage(false, sender, Absent, message))
  }

  /** The `type` dispatch of `handleRequests` for one parsed message. */
  function Dispatch(r: Registry, sock: Sock, addr: Address, m: Message): (s: Step)
    ensures s.reg.connected == r.connected
    ensures !m.ConnectionRequest? && !m.DisconnectionRequest? ==> s.reg == r
    ensures Inv(r) ==> Inv(s.reg)
  {
    match m
    case ConnectionRequest(name) => Join(r, sock, addr, name)
    case DisconnectionRequest => Leave(r, sock, addr)
    case ChatMessage(isPrivate, sender, receiver, message) =>
      Step(r, Chat(r, sock, isPrivate, sender, receiver, message))
    case _ => Step(r, [])
  }

  /** End of stream: the socket is dropped from `connected` first, then the
      implicit leave runs, so no `disconnection-response` is written. */
  function Disconnect(r: Registry, sock: Sock, addr: Address): (s: Step)
    ensures s.reg.connected == Remove(r.connected, sock)
    ensures DistinctKeys(r.connected) ==> sock !in Keys(s.reg.connected)
    ensures DistinctKeys(r.connected) ==> forall o :: o in s.out ==> o.to != sock
    ensures Inv(r) ==> Inv(s.reg)
  {
    var r' := Registry(Remove(r.connected, sock), r.online);
    assert DistinctKeys(r.connected) ==> sock !in Keys(r'.connected) && DistinctKeys(r'.connected) by {
      if DistinctKeys(r.connected) {
        RemoveToMap(r.connected, sock);
        RemoveDistinct(r.connected, sock);
      }
    }
    Leave(r', sock, addr)
  }

  /** `handleRequests`: read frames until the stream ends or a frame is empty,
      dispatching each parsed message; `parse` stands for UTF-8 decoding plus
      `json.loads`, and a malformed payload is skipped. */
  function Session(r: Registry, sock: Sock, addr: Address, stream: seq<Byte>, parse: seq<Byte> -> Parsed): (s: Step)
    ensures s.reg.connected == Remove(r.connected, sock)
    decreases |stream|
  {
    match DecodeFrame(stream)
    case None => Disconnect(r, sock, addr)
    case Some((payload, rest)) =>
      if payload == [] then Disconnect(r, sock, addr)
      else
        var first := match parse(payload)
                     case Malformed => Step(r, [])
                     case Parsed(m) => Dispatch(r, sock, addr, m);
        var after := Session(first.reg, sock, addr, rest, parse);
        Step(after.reg, first.out + after.out)
  }

  /** One more connection considered by the `broadcast` loop adds at most its own frame. */
  lemma RecipientsStep(connected: seq<(Sock, Address)>, online: seq<(Address, string)>, from: Sock, i: nat, msg: Message)
    requires i < |connected|
    ensures Fanout(Recipients(connected[..i + 1], online, from), msg)
            == Fanout(Recipients(connected[..i], online, from), msg)
               + (if connected[i].1 in Keys(online) && connected[i].0 != from then [Out(connected[i].0, msg)] else [])
  {
    assert connected[..i + 1][..i] == connected[..i];
  }

  /** No element occurs twice. */
  ghost predicate NoRepeats<T>(s: seq<T>) {
    forall a, b :: 0 <= a < b < |s| ==> s[a] != s[b]
  }

  /** The bytes of a connection's stream that `handleRequests` never reads:
      those after the zero-length frame that ends it, if any. */
  function SessionLeftover(stream: seq<Byte>): (rest: seq<Byte>)
    ensures IsSuffix(rest, stream)
    decreases |stream|
  {
    match DecodeFrame(stream)
    case None => []
    case Some((payload, rest)) =>
      FrameRestIsSuffix(stream);
      var leftover := if payload == [] then rest else SessionLeftover(rest);
      SuffixTransitive(leftover, rest, stream);
      leftover
  }


  lemma {:induction false} RecipientsDistinct(connected: seq<(Sock, Address)>,
                                              online: seq<(Address, string)>, from: Sock)
    requires DistinctKeys(connected)
    ensures NoRepeats(Recipients(connected, online, from))
  {
    if connected != [] {
      var n := |connected| - 1;
      var prefix := connected[..n];
      var before := Recipients(prefix, online, from);
      var last := connected[n].0;
      var rs := Recipients(connected, online, from);
      assert rs == before + (if connected[n].1 in Keys(online) && last != from then [last] else []);
      RecipientsDistinct(prefix, online, from);
      assert NoRepeats(before);
      assert last !in before;
      forall a, b | 0 <= a < b < |rs| ensures rs[a] != rs[b] {
        assert rs[a] == before[a] && rs[a] in before;
        if b < |before| { assert rs[b] == before[b] && before[a] != before[b]; } else { assert rs[b] == last; }
      }
    }
  }

  /** Every handler keeps sockets, addresses and display names unique, over a
      whole session. */
  lemma {:induction false} SessionPreservesInv(r: Registry, sock: Sock, addr: Address, stream: seq<Byte>,
                                               parse: seq<Byte> -> Parsed)
    requires Inv(r)
    ensures Inv(Session(r, sock, addr, stream, parse).reg)
    decreases |stream|
  {
    match DecodeFrame(stream)
    case None =>
    case Some((payload, rest)) =>
      if payload != [] {
        var first := match parse(payload)
                     case Malformed => Step(r, [])
                     case Parsed(m) => Dispatch(r, sock, addr, m);
        SessionPreservesInv(first.reg, sock, addr, rest, parse);
      }
  }

  /** When a session ends its socket is no longer among the connections, and its
      last frames never go to itself. */
  lemma {:induction false} SessionEndsDisconnected(r: Registry, sock: Sock, addr: Address, stream: seq<Byte>,
                                                   parse: seq<Byte> -> Parsed)
    requires DistinctKeys(r.connected)
    ensures sock !in Keys(Session(r, sock, addr, stream, parse).reg.connected)
    decreases |stream|
  {
    match DecodeFrame(stream)
    case None =>
    case Some((payload, rest)) =>
      if payload != [] {
        var first := match parse(payload)
                     case Malformed => Step(r, [])
                     case Parsed(m) => Dispatch(r, sock, addr, m);
        SessionEndsDisconnected(first.reg, sock, addr, rest, parse);
      }
  }

  /** A leave for a joined address removes exactly that entry and tells the
      remaining joined connections the name it had. */
  lemma LeaveRemoves(r: Registry, sock: Sock, addr: Address)
    requires DistinctKeys(r.online) && addr in Keys(r.online)
    ensures var s := Leave(r, sock, addr);
      && ToMap(s.reg.online) == ToMap(r.online) - {addr}
      && s.out == LeaveResponse(r, sock)
                  + Fanout(Recipients(r.connected, s.reg.online, sock),
                           UserLeft(ToMap(r.online)[addr], addr.host, addr.port))
  {
    GetAgreesWithMap(r.online, addr);
    RemoveToMap(r.online, addr);
  }

  /** A second leave for the same address leaves the registry as the first did
      and broadcasts nothing: at most it answers the socket again. */
  lemma LeaveIdempotent(r: Registry, sock: Sock, addr: Address)
    requires DistinctKeys(r.online)
    ensures var once := Leave(r, sock, addr);
      var twice := Leave(once.reg, sock, addr);
      twice.reg == once.reg && twice.out == LeaveResponse(r, sock)
  {
    var once := Leave(r, sock, addr);
    if addr in Keys(r.online) {
      RemoveToMap(r.online, addr);
      RemoveDistinct(r.online, addr);
      GetAgreesWithMap(once.reg.online, addr);
    }
  }

  /** After a participant leaves, its name resolves to nobody and can be taken
      by the next join. */
  lemma LeaveFreesName(r: Registry, sock: Sock, addr: Address)
    requires Inv(r) && addr in Keys(r.online)
    ensures var s := Leave(r, sock, addr);
      var name := ToMap(r.online)[addr];
      && name !in Values(s.reg.online)
      && ReceiverSocket(s.reg, Value(name)) == None
      && Join(s.reg, sock, addr, name).reg != s.reg
  {
    var name := Get(r.online, addr).value;
    GetAgreesWithMap(r.online, addr);
    RemoveValues(r.online, addr);
  }

  /** A join under a new name from an address that had already joined replaces
      the old name: the old name is gone, `user-joined` is broadcast and no
      `user-left` is written for the old name. */
  lemma RejoinReplacesName(r: Registry, sock: Sock, addr: Address, newName: string)
    requires Inv(r) && addr in Keys(r.online) && newName !in Values(r.online)
    ensures var s := Join(r, sock, addr, newName);
      && ToMap(r.online)[addr] !in Values(s.reg.online)
      && |s.reg.online| == |r.online|
      && forall o :: o in s.out ==> !o.msg.UserLeft?
  {
    RejoinDropsOldName(r, sock, addr, newName);
    JoinNeverSaysLeft(r, sock, addr, newName);
  }

  lemma RejoinDropsOldName(r: Registry, sock: Sock, addr: Address, newName: string)
    requires Inv(r) && addr in Keys(r.online) && newName !in Values(r.online)
    ensures ToMap(r.online)[addr] !in Values(Join(r, sock, addr, newName).reg.online)
  {
    assert Join(r, sock, addr, newName).reg.online == Put(r.online, addr, newName);
    PutOverwritesValue(r.online, addr, newName);
    GetAgreesWithMap(r.online, addr);
  }

  /** A join writes `user-joined` and `connection-response` frames only. */
  lemma JoinNeverSaysLeft(r: Registry, sock: Sock, addr: Address, name: string)
    ensures forall o :: o in Join(r, sock, addr, name).out ==> o.msg.UserJoined? || o.msg.ConnectionResponse?
  {
    var s := Join(r, sock, addr, name);
    if name !in Values(r.online) {
      var rs := Recipients(r.connected, s.reg.online, sock);
      assert s.out == Fanout(rs, UserJoined(name, addr.host, addr.port))
                      + [Out(sock, ConnectionResponse(true, Some(UsersList(r.online)), None))];
    }
  }

  /** The relay's shared state: the handlers of every connection update these
      dictionaries in place and write frames, recorded in `outbox`. */
  class Relay {
    var connected: seq<(Sock, Address)>
    var online: seq<(Address, string)>
    var outbox: seq<Out>

    function Reg(): Registry
      reads this
    {
      Registry(connected, online)
    }

    ghost predicate Valid()
      reads this
    {
      Inv(Reg())
    }

    constructor ()
      ensures Valid() && connected == [] && online == [] && outbox == []
    {
      connected, online, outbox := [], [], [];
    }

    /** `acceptConnection`: record the new socket and its peer address. */
    method AcceptConnection(sock: Sock, addr: Address)
      requires Valid()
      modifies this
      ensures Valid()
      ensures connected == Put(old(connected), sock, addr)
      ensures online == old(online) && outbox == old(outbox)
    {
      PutDistinct(connected, sock, addr);
      connected := Put(connected, sock, addr);
    }

    /** `broadcast`: one frame to every connection whose address has joined,
        except the originating one. */
    method Broadcast(from: Sock, msg: Message)
      modifies this`outbox
      ensures outbox == old(outbox) + Fanout(Recipients(connected, online, from), msg)
    {
      var i := 0;
      while i < |connected|
        invariant 0 <= i <= |connected|
        invariant outbox == old(outbox) + Fanout(Recipients(connected[..i], online, from), msg)
      {
        var (sock, addr) := connected[i];
        RecipientsStep(connected, online, from, i, msg);
        ghost var told := Fanout(Recipients(connected[..i], online, from), msg);
        if addr in Keys(online) && sock != from {
          ConcatAssoc(old(outbox), told, [Out(sock, msg)]);
          outbox := outbox + [Out(sock, msg)];
        } else {
          assert told + [] == told;
        }
        i := i + 1;
      }
      assert connected[..i] == connected;
    }

    /** `handleJoinRequest` */
    method HandleJoinRequest(sock: Sock, addr: Address, name: string)
      requires Valid()
      modifies this
      ensures Valid()
      ensures Reg() == Join(old(Reg()), sock, addr, name).reg
      ensures outbox == old(outbox) + Join(old(Reg()), sock, addr, name).out
    {
      ghost var r := Reg();
      if name in Values(online) {
        outbox := outbox + [Out(sock, ConnectionResponse(false, None, Some(NAME_TAKEN_ERROR)))];
        return;
      }
      var usersList: seq<UserEntry> := [];
      var i := 0;
      while i < |online|
        invariant 0 <= i <= |online|
        invariant usersList == UsersList(online[..i])
      {
        var (address, userName) := online[i];
        usersList := usersList + [UserEntry(address.host, address.port, userName)];
        i := i + 1;
      }
      assert online[..i] == online;
      var response := ConnectionResponse(true, Some(usersList), None);
      PutDistinct(online, addr, name);
      online := Put(online, addr, name);
      ghost var sent := outbox;
      Broadcast(sock, UserJoined(name, addr.host, addr.port));
      ghost var told := Fanout(Recipients(connected, online, sock), UserJoined(name, addr.host, addr.port));
      outbox := outbox + [Out(sock, response)];
      ConcatAssoc(sent, told, [Out(sock, response)]);
      assert Join(r, sock, addr, name) == Step(Reg(), told + [Out(sock, response)]);
    }

    /** `handleLeaveRequest` */
    method HandleLeaveRequest(sock: Sock, addr: Address)
      requires Valid()
      modifies this
      ensures Valid()
      ensures Reg() == Leave(old(Reg()), sock, addr).reg
      ensures outbox == old(outbox) + Leave(old(Reg()), sock, addr).out
    {
      ghost var r := Reg();
      if sock in Keys(connected) {
        outbox := outbox + [Out(sock, DisconnectionResponse)];
      }
      assert outbox == old(outbox) + LeaveResponse(r, sock);
      if addr in Keys(online) {
        var name := Get(online, addr).value;
        online := Remove(online, addr);
        ghost var sent := outbox;
        Broadcast(sock, UserLeft(name, addr.host, addr.port));
        ghost var told := Fanout(Recipients(connected, online, sock), UserLeft(name, addr.host, addr.port));
        ConcatAssoc(old(outbox), LeaveResponse(r, sock), told);
        assert Leave(r, sock, addr) == Step(Reg(), LeaveResponse(r, sock) + told);
      } else {
        assert Leave(r, sock, addr) == Step(r, LeaveResponse(r, sock));
      }
    }

    /** `handleChatMessage` */
    method HandleChatMessage(sock: Sock, isPrivate: bool, sender: string, receiver: Field<string>, message: string)
      modifies this`outbox
      ensures outbox == old(outbox) + Chat(Reg(), sock, isPrivate, sender, receiver, message)
    {
      if isPrivate {
        var receiverSocket := ReceiverSocket(Reg(), receiver);
        if receiverSocket.None? {
          return;
        }
        outbox := outbox + [Out(receiverSocket.value, ChatMessage(true, sender, Absent, message))];
      } else {
        Broadcast(sock, ChatMessage(false, sender, Absent, message));
      }
    }

    /** The end-of-stream branch of `handleRequests`: forget the socket, then
        run the leave for its address. */
    method CloseConnection(sock: Sock, addr: Address)
      requires Valid()
      modifies this
      ensures Valid()
      ensures Reg() == Disconnect(old(Reg()), sock, addr).reg
      ensures outbox == old(outbox) + Disconnect(old(Reg()), sock, addr).out
    {
      RemoveDistinct(connected, sock);
      connected := Remove(connected, sock);
      HandleLeaveRequest(sock, addr);
    }

    /** The `type` dispatch inside `handleRequests`: one parsed message to its handler. */
    method HandleMessage(sock: Sock, addr: Address, m: Message)
      requires Valid()
      modifies this
      ensures Valid()
      ensures Reg() == Dispatch(old(Reg()), sock, addr, m).reg
      ensures outbox == old(outbox) + Dispatch(old(Reg()), sock, addr, m).out
    {
      match m {
        case ConnectionRequest(name) =>
          HandleJoinRequest(sock, addr, name);
        case DisconnectionRequest =>
          HandleLeaveRequest(sock, addr);
        case ChatMessage(isPrivate, sender, receiver, message) =>
          HandleChatMessage(sock, isPrivate, sender, receiver, message);
        case _ =>
      }
    }

    /** `handleRequests`: the per-connection loop. */
    method HandleRequests(conn: Connection, sock: Sock, addr: Address, parse: seq<Byte> -> Parsed)
      requires Valid()
      modifies this, conn
      ensures Valid()
      ensures Reg() == Session(old(Reg()), sock, addr, old(conn.unread), parse).reg
      ensures outbox == old(outbox) + Session(old(Reg()), sock, addr, old(conn.unread), parse).out
      ensures conn.unread == SessionLeftover(old(conn.unread))
    {
      while true
        invariant Valid()
        invariant SessionLeftover(conn.unread) == SessionLeftover(old(conn.unread))
        invariant Session(Reg(), sock, addr, conn.unread, parse).reg
                  == Session(old(Reg()), sock, addr, old(conn.unread), parse).reg
        invariant outbox + Session(Reg(), sock, addr, conn.unread, parse).out
                  == old(outbox) + Session(old(Reg()), sock, addr, old(conn.unread), parse).out
        decreases |conn.unread|
      {
        var done := ServeOne(conn, sock, addr, parse);
        if done {
          return;
        }
      }
    }

    /** One pass of the `handleRequests` loop: read a request and serve it.
        `done` is true when the connection has been closed; otherwise what is
        left of the stream is shorter and leads to the same end of the session. */
    method ServeOne(conn: Connection, sock: Sock, addr: Address, parse: seq<Byte> -> Parsed) returns (done: bool)
      requires Valid()
      modifies this, conn
      ensures Valid()
      ensures done ==> Reg() == Session(old(Reg()), sock, addr, old(conn.unread), parse).reg
      ensures done ==> outbox == old(outbox) + Session(old(Reg()), sock, addr, old(conn.unread), parse).out
      ensures done ==> conn.unread == SessionLeftover(old(conn.unread))
      ensures !done ==> |conn.unread| < |old(conn.unread)|
      ensures !done ==> SessionLeftover(conn.unread) == SessionLeftover(old(conn.unread))
      ensures !done ==> Session(Reg(), sock, addr, conn.unread, parse).reg
                        == Session(old(Reg()), sock, addr, old(conn.unread), parse).reg
      ensures !done ==> outbox + Session(Reg(), sock, addr, conn.unread, parse).out
                        == old(outbox) + Session(old(Reg()), sock, addr, old(conn.unread), parse).out
    {
      ghost var r, stream, sent := Reg(), conn.unread, outbox;
      var received := ReceiveMessage(conn);
      if received.None? || received.value == [] {
        assert Session(r, sock, addr, stream, parse) == Disconnect(r, sock, addr);
        CloseConnection(sock, addr);
        return true;
      }
      FrameRestIsSuffix(stream);
      ghost var first := match parse(received.value)
                         case Malformed => Step(r, [])
                         case Parsed(m) => Dispatch(r, sock, addr, m);
      match parse(received.value) {
        case Malformed =>
        case Parsed(m) => HandleMessage(sock, addr, m);
      }
      assert Reg() == first.reg && outbox == sent + first.out;
      ghost var after := Session(first.reg, sock, addr, conn.unread, parse);
      assert Session(r, sock, addr, stream, parse) == Step(after.reg, first.out + after.out);
      ConcatAssoc(sent, first.out, after.out);
      done := false;
    }
  }
}
