/**
  The chat client's decision logic. The user's name, the local roster mirror
  (`online_users`, address -> display name, insertion-ordered) and the
  transcript shown in the chat window are the client's state; the window
  widgets themselves are not modelled.

  `Classify` is what `sendMessage` decides for one input line; `Deliver` and
  `Receiving` are what the `receive` loop does with each incoming frame. The
  class `ChatClient` performs those updates in place and is proved against
  them.
 */
module Client {
  import opened Wrappers
  import opened Dict
  import opened Framing
  import opened Protocol

  const PRIVATE_PREFIX: string := "/mp "
  const EMPTY_PRIVATE_ERROR: string := "Mensagem privada não deve ser vazia!\n\n"
  const INVALID_RECEIVER_ERROR: string := "Usuário inválido para mensagem privada!\n\n"

  function NotFoundError(receiver: string): string {
    "Usuário \"" + receiver + "\" não encontrado.\n\n"
  }

  /** What one submitted input line leads to: nothing at all, an error line in
      the transcript, or a frame to the server together with its echo line. */
  datatype Action = Ignore | ShowError(text: string) | Send(msg: Message, echo: string)

  /** Python's `str.isspace` for one character: the ASCII separators and
      controls, plus the Unicode space separators and line/paragraph separators. */
  predicate IsSpace(c: char)
    ensures c == ' ' || c == '\t' || c == '\n' || c == '\r' ==> IsSpace(c)
    ensures IsSpace(c) ==> !('0' <= c <= '9' || 'a' <= c <= 'z' || 'A' <= c <= 'Z')
  {
    var n := c as int;
    || 9 <= n <= 13 || 0x1C <= n <= 0x20 || n == 0x85 || n == 0xA0 || n == 0x1680
    || 0x2000 <= n <= 0x200A || n == 0x2028 || n == 0x2029 || n == 0x202F
    || n == 0x205F || n == 0x3000
  }

  /** `not s or s.isspace()`: empty, or nothing but whitespace. */
  predicate Blank(s: string)
    ensures s == "" ==> Blank(s)
    ensures (exists i :: 0 <= i < |s| && ('a' <= s[i] <= 'z' || 'A' <= s[i] <= 'Z')) ==> !Blank(s)
  {
    forall i :: 0 <= i < |s| ==> IsSpace(s[i])
  }

  /** `s[:4] == '/mp '`: a slice of a shorter string is shorter, so the line
      must have at least four characters. */
  predicate HasPrivatePrefix(s: string)
    ensures HasPrivatePrefix(s) <==> exists t :: s == PRIVATE_PREFIX + t
  {
    if |s| >= 4 && s[..4] == PRIVATE_PREFIX then
      assert s == PRIVATE_PREFIX + s[4..];
      true
    else
      false
  }

  /** `s.index(c, start)`: the first position at or after `start` holding `c`,
      or `None` where Python raises `ValueError`. */
  function IndexFrom(s: string, c: char, start: nat): (r: Option<nat>)
    ensures r.Some? ==> start <= r.value < |s| && s[r.value] == c
    ensures r.Some? ==> forall k :: start <= k < r.value ==> s[k] != c
    ensures r.None? <==> forall k :: start <= k < |s| ==> s[k] != c
    decreases |s| - start
  {
    if start >= |s| then None
    else if s[start] == c then Some(start)
    else IndexFrom(s, c, start + 1)
  }

  /** No space after the first character: the names a private command can address. */
  predicate Addressable(receiver: string) {
    |receiver| >= 1 && forall i :: 1 <= i < |receiver| ==> receiver[i] != ' '
  }

  /** The receiver name and body of a `/mp ` line: the name runs from index 4 up
      to the first space found from index 5 on, the body is everything after
      that space. `None` when there is no such space. */
  function SplitPrivate(s: string): (r: Option<(string, string)>)
    requires HasPrivatePrefix(s)
    ensures r.None? <==> forall k :: 5 <= k < |s| ==> s[k] != ' '
    ensures r.Some? ==> s == PRIVATE_PREFIX + r.value.0 + " " + r.value.1 && Addressable(r.value.0)
  {
    match IndexFrom(s, ' ', 5)
    case None => None
    case Some(next) =>
      assert s == s[..4] + s[4..next] + " " + s[next + 1..];
      Some((s[4..next], s[next + 1..]))
  }

  /** Splitting a composed private command gives back its receiver and body. */
  lemma SplitPrivateRoundTrip(receiver: string, body: string)
    requires Addressable(receiver)
    ensures HasPrivatePrefix(PRIVATE_PREFIX + receiver + " " + body)
    ensures SplitPrivate(PRIVATE_PREFIX + receiver + " " + body) == Some((receiver, body))
  {
    var s := PRIVATE_PREFIX + receiver + " " + body;
    var next := 4 + |receiver|;
    assert s[..4] == PRIVATE_PREFIX;
    assert s[next] == ' ';
    assert forall k :: 5 <= k < next ==> s[k] == receiver[k - 4];
    assert IndexFrom(s, ' ', 5) == Some(next);
    assert s[4..next] == receiver;
    assert s[next + 1..] == body;
  }

  /** `sendMessage`: a `/mp <name> <text>` line becomes a private message, after
      the local checks for a missing body, the user's own name, an unknown
      name and a blank body, in that order; any other line is sent publicly as
      it was typed. */
  function Classify(input: string, own: string, roster: seq<(Address, string)>): (r: Action)
    ensures !r.Ignore?
    ensures r.Send? ==> r.msg.ChatMessage? && r.msg.sender == own
    ensures (r.Send? && !r.msg.isPrivate) <==> !HasPrivatePrefix(input)
    ensures r.Send? && !r.msg.isPrivate ==> r.msg.message == input && r.msg.receiver == Null
    ensures r.Send? && r.msg.isPrivate ==>
      && r.msg.receiver.Value?
      && Addressable(r.msg.receiver.value)
      && r.msg.receiver.value != own
      && r.msg.receiver.value in Values(roster)
      && !Blank(r.msg.message)
      && input == PRIVATE_PREFIX + r.msg.receiver.value + " " + r.msg.message
  {
    if HasPrivatePrefix(input) then
      match SplitPrivate(input)
      case None => ShowError(EMPTY_PRIVATE_ERROR)
      case Some((receiver, body)) =>
        if receiver == own then ShowError(INVALID_RECEIVER_ERROR)
        else if receiver in Values(roster) then
          if Blank(body) then ShowError(EMPTY_PRIVATE_ERROR)
          else Send(ChatMessage(true, own, Value(receiver), body), "Você -> " + receiver + ": " + body + "\n\n")
        else ShowError(NotFoundError(receiver))
    else
      Send(ChatMessage(false, own, Null, input), "Você: " + input + "\n\n")
  }

  /** `sendButton`: an empty entry does nothing; anything else goes to `sendMessage`. */
  function Submit(input: string, own: string, roster: seq<(Address, string)>): (r: Action)
    ensures r.Ignore? <==> input == ""
    ensures input != "" ==> r == Classify(input, own, roster)
  {
    if input == "" then Ignore else Classify(input, own, roster)
  }

  /** Every private command to a name on the roster other than one's own, with a
      body that is not blank, is sent as exactly that private message. With the
      ensures of `Classify` this is an if-and-only-if. */
  lemma PrivateCommandSent(receiver: string, body: string, own: string, roster: seq<(Address, string)>)
    requires Addressable(receiver) && receiver != own && receiver in Values(roster) && !Blank(body)
    ensures Classify(PRIVATE_PREFIX + receiver + " " + body, own, roster)
            == Send(ChatMessage(true, own, Value(receiver), body), "Você -> " + receiver + ": " + body + "\n\n")
  {
    SplitPrivateRoundTrip(receiver, body);
  }

  /** The local errors of a private command, each with its cause; none sends anything. */
  lemma PrivateCommandErrors(input: string, own: string, roster: seq<(Address, string)>)
    requires HasPrivatePrefix(input)
    ensures (forall k :: 5 <= k < |input| ==> input[k] != ' ') ==>
      Classify(input, own, roster) == ShowError(EMPTY_PRIVATE_ERROR)
    ensures forall body :: Addressable(own) && input == PRIVATE_PREFIX + own + " " + body ==>
      Classify(input, own, roster) == ShowError(INVALID_RECEIVER_ERROR)
    ensures forall receiver, body ::
      && Addressable(receiver) && input == PRIVATE_PREFIX + receiver + " " + body
      && receiver != own && receiver !in Values(roster) ==>
        Classify(input, own, roster) == ShowError(NotFoundError(receiver))
    ensures forall receiver, body ::
      && Addressable(receiver) && input == PRIVATE_PREFIX + receiver + " " + body
      && receiver != own && receiver in Values(roster) && Blank(body) ==>
        Classify(input, own, roster) == ShowError(EMPTY_PRIVATE_ERROR)
  {
    forall receiver, body | Addressable(receiver) && input == PRIVATE_PREFIX + receiver + " " + body
      ensures SplitPrivate(input) == Some((receiver, body))
    {
      SplitPrivateRoundTrip(receiver, body);
    }
  }

  /** A received chat message as the transcript shows it. */
  function ChatDisplay(isPrivate: bool, sender: string, message: string): (line: string)
    ensures |line| >= |sender| + |message| + 2
    ensures line[..|sender|] == sender && line[|line| - |message| - 2..] == message + "\n\n"
  {
    if isPrivate then sender + " -> Você: " + message + "\n\n" else sender + ": " + message + "\n\n"
  }

  /** The first line of a freshly opened chat window. */
  const WELCOME_LINE: string := "Você se conectou ao bate-papo.\n\n"

  function JoinedLine(name: string): string {
    name + " se conectou ao bate-papo.\n\n"
  }

  function LeftLine(name: string): string {
    name + " se desconectou do bate-papo.\n\n"
  }

  /** The roster after inserting every `users_list` entry, in order, with `online_users[(host, port)] = name`. */
  function LoadRoster(roster: seq<(Address, string)>, users: seq<UserEntry>): (r: seq<(Address, string)>)
    ensures |roster| <= |r| <= |roster| + |users|
    ensures Keys(r)[..|roster|] == Keys(roster)
    decreases |users|
  {
    if users == [] then roster
    else
      var n := |users| - 1;
      Put(LoadRoster(roster, users[..n]), Address(users[n].host, users[n].port), users[n].name)
  }

  /** Loading keeps one entry per address. */
  lemma {:induction false} LoadRosterDistinct(roster: seq<(Address, string)>, users: seq<UserEntry>)
    requires DistinctKeys(roster)
    ensures DistinctKeys(LoadRoster(roster, users))
    decreases |users|
  {
    if users != [] {
      var n := |users| - 1;
      LoadRosterDistinct(roster, users[..n]);
      PutDistinct(LoadRoster(roster, users[..n]), Address(users[n].host, users[n].port), users[n].name);
    }
  }

  /** One listed user ends up on the roster. */
  lemma {:induction false} LoadRosterHasListed(roster: seq<(Address, string)>, users: seq<UserEntry>, u: UserEntry)
    requires u in users
    ensures Address(u.host, u.port) in Keys(LoadRoster(roster, users))
    decreases |users|
  {
    var n := |users| - 1;
    var front, last, a := users[..n], Address(users[n].host, users[n].port), Address(u.host, u.port);
    assert LoadRoster(roster, users) == Put(LoadRoster(roster, front), last, users[n].name);
    GetAfterPut(LoadRoster(roster, front), last, users[n].name, a);
    if u != users[n] {
      assert u in front;
      LoadRosterHasListed(roster, front, u);
    }
  }

  /** Every listed user ends up on the roster, and so does everyone already on it. */
  lemma LoadRosterKeys(roster: seq<(Address, string)>, users: seq<UserEntry>)
    ensures forall u :: u in users ==> Address(u.host, u.port) in Keys(LoadRoster(roster, users))
    ensures forall a :: a in Keys(roster) ==> a in Keys(LoadRoster(roster, users))
  {
    var loaded := LoadRoster(roster, users);
    forall u | u in users ensures Address(u.host, u.port) in Keys(loaded) {
      LoadRosterHasListed(roster, users, u);
    }
    forall a | a in Keys(roster) ensures a in Keys(loaded) {
      var i :| 0 <= i < |roster| && Keys(roster)[i] == a;
      assert Keys(loaded)[..|roster|][i] == a;
    }
  }

  /** A listed address gets the name of its last entry in the list, whatever the
      roster held before. */
  lemma {:induction false} LoadRosterName(roster: seq<(Address, string)>, users: seq<UserEntry>, i: nat)
    requires i < |users|
    requires forall j :: i < j < |users| ==>
      Address(users[j].host, users[j].port) != Address(users[i].host, users[i].port)
    ensures Get(LoadRoster(roster, users), Address(users[i].host, users[i].port)) == Some(users[i].name)
    decreases |users|
  {
    var n := |users| - 1;
    var a, last := Address(users[i].host, users[i].port), Address(users[n].host, users[n].port);
    var front := users[..n];
    assert LoadRoster(roster, users) == Put(LoadRoster(roster, front), last, users[n].name);
    GetAfterPut(LoadRoster(roster, front), last, users[n].name, a);
    if i < n {
      assert a == Address(front[i].host, front[i].port);
      forall j | i < j < |front|
        ensures Address(front[j].host, front[j].port) != a
      {
        assert front[j] == users[j];
      }
      LoadRosterName(roster, front, i);
    }
  }

  /** An address the list does not mention keeps what the roster held for it:
      loading never removes or renames anyone else. */
  lemma {:induction false} LoadRosterUnlisted(roster: seq<(Address, string)>, users: seq<UserEntry>, a: Address)
    requires forall u :: u in users ==> Address(u.host, u.port) != a
    ensures Get(LoadRoster(roster, users), a) == Get(roster, a)
    decreases |users|
  {
    if users != [] {
      var n := |users| - 1;
      var prev := LoadRoster(roster, users[..n]);
      assert forall u :: u in users[..n] ==> u in users;
      LoadRosterUnlisted(roster, users[..n], a);
      GetAfterPut(prev, Address(users[n].host, users[n].port), users[n].name, a);
    }
  }

  /** The `connection-response` that answers a login, when the first frame of
      the stream is one. */
  function LoginResponse(stream: seq<Byte>, parse: seq<Byte> -> Parsed): (r: Option<Message>)
    ensures r.Some? <==>
      && DecodeFrame(stream).Some?
      && parse(DecodeFrame(stream).value.0).Parsed?
      && parse(DecodeFrame(stream).value.0).msg.ConnectionResponse?
    ensures r.Some? ==> r.value == parse(DecodeFrame(stream).value.0).msg
  {
    match DecodeFrame(stream)
    case None => None
    case Some((p, _)) =>
      match parse(p)
      case Parsed(ConnectionResponse(success, usersList, errorMsg)) =>
        Some(ConnectionResponse(success, usersList, errorMsg))
      case _ => None
  }

  /** `receivedMsgObject['success'] == True`: the chat window opens. */
  predicate LoginSucceeded(stream: seq<Byte>, parse: seq<Byte> -> Parsed) {
    var r := LoginResponse(stream, parse);
    r.Some? && r.value.success
  }

  /** The users list loaded at login: present only when the name was accepted
      and the response carries a list. */
  function LoginUsers(stream: seq<Byte>, parse: seq<Byte> -> Parsed): (r: Option<seq<UserEntry>>)
    ensures r.Some? <==> LoginSucceeded(stream, parse) && LoginResponse(stream, parse).value.usersList.Some?
    ensures r.Some? ==> r == LoginResponse(stream, parse).value.usersList
  {
    if LoginSucceeded(stream, parse) then LoginResponse(stream, parse).value.usersList else None
  }

  /** The login answer read off the wire: the response is the first frame's
      payload as parsed, whatever follows it. */
  lemma LoginFirstFrame(p: seq<Byte>, rest: seq<Byte>, parse: seq<Byte> -> Parsed)
    requires |p| < FRAME_LIMIT
    ensures LoginSucceeded(EncodeFrame(p) + rest, parse)
            <==> parse(p).Parsed? && parse(p).msg.ConnectionResponse? && parse(p).msg.success
    ensures LoginUsers(EncodeFrame(p) + rest, parse)
            == if LoginSucceeded(EncodeFrame(p) + rest, parse) then parse(p).msg.usersList else None
  {
    FrameRoundTrip(p, rest);
  }

  /** The client's visible state. `socketOpen` turns false when the receive loop
      closes the socket. */
  datatype ClientView = ClientView(roster: seq<(Address, string)>, transcript: seq<string>, socketOpen: bool)

  /** What the receive loop does next after handling one message. */
  datatype Next = Continue(view: ClientView) | Stop(view: ClientView)

  /** One parsed message from the server, as the `receive` loop handles it. A
      `user-left` for an address not on the roster raises `KeyError`, which the
      loop catches by closing the socket; a `disconnection-response` ends the
      loop; any other type is ignored. */
  function Deliver(v: ClientView, m: Message): (n: Next)
    ensures m.DisconnectionResponse? ==> n == Stop(v)
    ensures n.Stop? && !m.DisconnectionResponse? ==>
      m.UserLeft? && Address(m.host, m.port) !in Keys(v.roster) && n.view == v.(socketOpen := false)
    ensures m.UserLeft? && Address(m.host, m.port) !in Keys(v.roster) ==> n == Stop(v.(socketOpen := false))
    ensures n.Continue? ==> n.view.socketOpen == v.socketOpen
    ensures v.transcript <= n.view.transcript
    ensures !m.UserJoined? && !m.UserLeft? ==> n.view.roster == v.roster
    ensures m.ChatMessage? ==> n == Continue(v.(transcript := v.transcript + [ChatDisplay(m.isPrivate, m.sender, m.message)]))
  {
    match m
    case UserJoined(name, host, port) =>
      Continue(v.(roster := Put(v.roster, Address(host, port), name), transcript := v.transcript + [JoinedLine(name)]))
    case UserLeft(name, host, port) =>
      if Address(host, port) in Keys(v.roster) then
        Continue(v.(roster := Remove(v.roster, Address(host, port)), transcript := v.transcript + [LeftLine(name)]))
      else
        Stop(v.(socketOpen := false))
    case ChatMessage(isPrivate, sender, _, message) =>
      Continue(v.(transcript := v.transcript + [ChatDisplay(isPrivate, sender, message)]))
    case DisconnectionResponse => Stop(v)
    case _ => Continue(v)
  }

  /** The roster mirror follows `user-joined` and `user-left` like the dictionary it copies. */
  lemma DeliverRoster(v: ClientView, m: Message)
    requires DistinctKeys(v.roster)
    ensures DistinctKeys(Deliver(v, m).view.roster)
    ensures m.UserJoined? ==> ToMap(Deliver(v, m).view.roster) == ToMap(v.roster)[Address(m.host, m.port) := m.name]
    ensures m.UserLeft? && Deliver(v, m).Continue? ==>
      ToMap(Deliver(v, m).view.roster) == ToMap(v.roster) - {Address(m.host, m.port)}
  {
    match m
    case UserJoined(name, host, port) =>
      PutDistinct(v.roster, Address(host, port), name);
      PutToMap(v.roster, Address(host, port), name);
    case UserLeft(name, host, port) =>
      RemoveDistinct(v.roster, Address(host, port));
      RemoveToMap(v.roster, Address(host, port));
    case _ =>
  }

  /** `receive`: handle frames until one cannot be read (the `.decode` of `None`
      raises and the loop closes the socket), a handler stops the loop, or for
      ever. A payload that does not parse is skipped. Unlike the relay, the
      client gives a zero-length frame to `parse` like any other: `json.loads`
      rejects the empty text, so the source skips it, which is what happens here
      for every `parse` that reads the empty payload as `Malformed`. Yields the
      final view and the bytes left unread. */
  function Receiving(v: ClientView, stream: seq<Byte>, parse: seq<Byte> -> Parsed): (r: (ClientView, seq<Byte>))
    ensures IsSuffix(r.1, stream)
    decreases |stream|
  {
    match DecodeFrame(stream)
    case None => (v.(socketOpen := false), [])
    case Some((payload, rest)) =>
      FrameRestIsSuffix(stream);
      var r := match parse(payload)
               case Malformed => Receiving(v, rest, parse)
               case Parsed(m) =>
                 (match Deliver(v, m)
                  case Continue(v') => Receiving(v', rest, parse)
                  case Stop(v') => (v', rest));
      SuffixTransitive(r.1, rest, stream);
      r
  }

  /** The transcript only grows, and the roster keeps one entry per address. */
  lemma {:induction false} ReceivingKeepsHistory(v: ClientView, stream: seq<Byte>, parse: seq<Byte> -> Parsed)
    requires DistinctKeys(v.roster)
    ensures var (v', _) := Receiving(v, stream, parse);
      && v.transcript <= v'.transcript
      && DistinctKeys(v'.roster)
    decreases |stream|
  {
    match DecodeFrame(stream)
    case None =>
    case Some((payload, rest)) =>
      match parse(payload)
      case Malformed => ReceivingKeepsHistory(v, rest, parse);
      case Parsed(m) =>
        DeliverRoster(v, m);
        match Deliver(v, m)
        case Continue(v') =>
          ReceivingKeepsHistory(v', rest, parse);
          var final := Receiving(v', rest, parse).0;
          assert Receiving(v, stream, parse).0 == final;
          assert v.transcript <= v'.transcript <= final.transcript;
        case Stop(v') =>
  }

  /** A `disconnection-response` ends the loop at once: nothing after it is read
      and the view is left as it was. */
  lemma ReceivingStops(v: ClientView, payload: seq<Byte>, rest: seq<Byte>, parse: seq<Byte> -> Parsed)
    requires |payload| < FRAME_LIMIT && parse(payload) == Parsed(DisconnectionResponse)
    ensures Receiving(v, EncodeFrame(payload) + rest, parse) == (v, rest)
  {
    FrameRoundTrip(payload, rest);
  }

  /** A `user-left` frame for an address not on the roster ends the receive loop
      at once with the socket closed, leaving what follows unread. */
  lemma ReceivingUnknownLeft(v: ClientView, payload: seq<Byte>, rest: seq<Byte>, parse: seq<Byte> -> Parsed,
                             name: string, host: string, port: int)
    requires |payload| < FRAME_LIMIT && parse(payload) == Parsed(UserLeft(name, host, port))
    requires Address(host, port) !in Keys(v.roster)
    ensures Receiving(v, EncodeFrame(payload) + rest, parse) == (v.(socketOpen := false), rest)
  {
    FrameRoundTrip(payload, rest);
  }

  /** The chat client: its user name, roster mirror, transcript, the messages it
      has sent to the server, and whether its socket is still open. */
  class ChatClient {
    var name: string
    var roster: seq<(Address, string)>
    var transcript: seq<string>
    var sent: seq<Message>
    var socketOpen: bool

    function View(): ClientView
      reads this
    {
      ClientView(roster, transcript, socketOpen)
    }

    ghost predicate Valid()
      reads this
    {
      DistinctKeys(roster)
    }

    constructor ()
      ensures Valid() && name == "" && roster == [] && transcript == [] && sent == [] && socketOpen
    {
      name, roster, transcript, sent, socketOpen := "", [], [], [], true;
    }

    /** `loginToChat`: send the `connection-request` and wait for the response.
        When it accepts the name a fresh chat window opens, its transcript
        holding only the welcome line, and the users list, if any, is loaded
        into the roster; the receiving thread starts only when the list was
        there. Any other outcome leaves the transcript and the roster alone. */
    method LoginToChat(userName: string, conn: Connection, parse: seq<Byte> -> Parsed) returns (accepted: bool)
      requires Valid()
      modifies this, conn
      ensures Valid()
      ensures name == userName && sent == old(sent) + [ConnectionRequest(userName)]
      ensures accepted == LoginUsers(old(conn.unread), parse).Some?
      ensures roster == match LoginUsers(old(conn.unread), parse)
                        case None => old(roster)
                        case Some(users) => LoadRoster(old(roster), users)
      ensures transcript == if LoginSucceeded(old(conn.unread), parse) then [WELCOME_LINE] else old(transcript)
      ensures socketOpen == old(socketOpen)
      ensures conn.unread == match DecodeFrame(old(conn.unread))
                             case None => []
                             case Some((_, rest)) => rest
    {
      name := userName;
      sent := sent + [ConnectionRequest(userName)];
      ghost var stream := conn.unread;
      var received := ReceiveMessage(conn);
      if received.None? {
        return false;
      }
      assert received.value == DecodeFrame(stream).value.0;
      match parse(received.value) {
        case Parsed(ConnectionResponse(true, usersList, errorMsg)) =>
          assert LoginResponse(stream, parse) == Some(ConnectionResponse(true, usersList, errorMsg));
          transcript := [WELCOME_LINE];
          if usersList.None? {
            return false;
          }
          LoadUsersList(usersList.value);
          accepted := true;
        case _ =>
          assert !LoginSucceeded(stream, parse);
          accepted := false;
      }
    }

    /** The `for user in users_list` loop of `loginToChat`. */
    method LoadUsersList(users: seq<UserEntry>)
      requires Valid()
      modifies this`roster
      ensures Valid()
      ensures roster == LoadRoster(old(roster), users)
    {
      var i := 0;
      while i < |users|
        invariant 0 <= i <= |users|
        invariant roster == LoadRoster(old(roster), users[..i])
        invariant DistinctKeys(roster)
      {
        assert users[..i + 1][..i] == users[..i];
        assert LoadRoster(old(roster), users[..i + 1])
               == Put(LoadRoster(old(roster), users[..i]), Address(users[i].host, users[i].port), users[i].name);
        PutDistinct(roster, Address(users[i].host, users[i].port), users[i].name);
        roster := Put(roster, Address(users[i].host, users[i].port), users[i].name);
        i := i + 1;
      }
      assert users[..i] == users;
    }

    /** `sendButton` followed by `sendMessage`: append the echo or the error line
        to the transcript and, for a send, the message to what went to the server. */
    method SendButton(input: string)
      modifies this`transcript, this`sent
      ensures match Submit(input, name, roster)
              case Ignore => transcript == old(transcript) && sent == old(sent)
              case ShowError(text) => transcript == old(transcript) + [text] && sent == old(sent)
              case Send(msg, echo) => transcript == old(transcript) + [echo] && sent == old(sent) + [msg]
    {
      var action := Submit(input, name, roster);
      match action {
        case Ignore =>
        case ShowError(text) =>
          transcript := transcript + [text];
        case Send(msg, echo) =>
          transcript := transcript + [echo];
          sent := sent + [msg];
      }
    }

    /** `returnToMenu`: ask the server to leave the chat. */
    method ReturnToMenu()
      modifies this`sent
      ensures sent == old(sent) + [DisconnectionRequest]
    {
      sent := sent + [DisconnectionRequest];
    }

    /** `handleUserJoined` */
    method HandleUserJoined(userName: string, host: string, port: int)
      requires Valid()
      modifies this`roster, this`transcript
      ensures Valid()
      ensures Continue(View()) == Deliver(old(View()), UserJoined(userName, host, port))
    {
      PutDistinct(roster, Address(host, port), userName);
      roster := Put(roster, Address(host, port), userName);
      transcript := transcript + [JoinedLine(userName)];
    }

    /** `handleUserLeft`: `del online_users[address]`; `found` is false where the
        deletion raises `KeyError`, and then nothing has changed. */
    method HandleUserLeft(userName: string, host: string, port: int) returns (found: bool)
      requires Valid()
      modifies this`roster, this`transcript
      ensures Valid()
      ensures found == Deliver(old(View()), UserLeft(userName, host, port)).Continue?
      ensures found ==> Continue(View()) == Deliver(old(View()), UserLeft(userName, host, port))
      ensures !found ==> View() == old(View())
    {
      var address := Address(host, port);
      if address !in Keys(roster) {
        return false;
      }
      RemoveDistinct(roster, address);
      roster := Remove(roster, address);
      transcript := transcript + [LeftLine(userName)];
      return true;
    }

    /** `handleChatMessage` */
    method HandleChatMessage(isPrivate: bool, sender: string, message: string)
      modifies this`transcript
      ensures transcript == old(transcript) + [ChatDisplay(isPrivate, sender, message)]
    {
      if isPrivate {
        transcript := transcript + [sender + " -> Você: " + message + "\n\n"];
      } else {
        transcript := transcript + [sender + ": " + message + "\n\n"];
      }
    }

    /** `receive`: the receiving thread's loop. */
    method Receive(conn: Connection, parse: seq<Byte> -> Parsed)
      requires Valid()
      modifies this, conn
      ensures Valid()
      ensures View() == Receiving(old(View()), old(conn.unread), parse).0
      ensures conn.unread == Receiving(old(View()), old(conn.unread), parse).1
      ensures name == old(name) && sent == old(sent)
    {
      while true
        invariant Valid()
        invariant Receiving(View(), conn.unread, parse) == Receiving(old(View()), old(conn.unread), parse)
        invariant name == old(name) && sent == old(sent)
        decreases |conn.unread|
      {
        var done := ReceiveOne(conn, parse);
        if done {
          return;
        }
      }
    }

    /** One pass of the `receive` loop: read a frame and handle it. `done` is
        true when the loop ends; otherwise what is left of the stream is shorter
        and the loop goes on to the end the whole stream leads to. */
    method ReceiveOne(conn: Connection, parse: seq<Byte> -> Parsed) returns (done: bool)
      requires Valid()
      modifies this`roster, this`transcript, this`socketOpen, conn
      ensures Valid()
      ensures done ==> (View(), conn.unread) == Receiving(old(View()), old(conn.unread), parse)
      ensures !done ==> |conn.unread| < |old(conn.unread)|
      ensures !done ==> Receiving(View(), conn.unread, parse) == Receiving(old(View()), old(conn.unread), parse)
    {
      var received := ReceiveMessage(conn);
      if received.None? {
        socketOpen := false;
        return true;
      }
      match parse(received.value) {
        case Malformed =>
          done := false;
        case Parsed(m) =>
          done := HandleMessage(m);
      }
    }

    /** The `type` dispatch inside `receive`; `stop` is true when the loop ends. */
    method HandleMessage(m: Message) returns (stop: bool)
      requires Valid()
      modifies this`roster, this`transcript, this`socketOpen
      ensures Valid()
      ensures stop == Deliver(old(View()), m).Stop?
      ensures View() == Deliver(old(View()), m).view
    {
      match m {
        case UserJoined(userName, host, port) =>
          HandleUserJoined(userName, host, port);
          stop := false;
        case UserLeft(userName, host, port) =>
          var found := HandleUserLeft(userName, host, port);
          if !found {
            socketOpen := false;
          }
          stop := !found;
        case ChatMessage(isPrivate, sender, _, message) =>
          HandleChatMessage(isPrivate, sender, message);
          stop := false;
        case DisconnectionResponse =>
          stop := true;
        case _ =>
          stop := false;
      }
    }
  }
}
