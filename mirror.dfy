/**
  How the two sides fit together: the roster a client keeps mirrors the
  relay's `online` dictionary, and a line typed into one client shows up in
  the other clients' transcripts in the expected form.
 */
module Mirror {
  import opened Wrappers
  import opened Dict
  import opened Framing
  import opened Protocol
  import opened Server
  import opened Client

  /** The users list in a successful `connection-response`, loaded into an empty
      roster, is the relay's `online` dictionary itself, order included. */
  lemma {:induction false} JoinerRoster(online: seq<(Address, string)>)
    requires DistinctKeys(online)
    ensures LoadRoster([], UsersList(online)) == online
    decreases |online|
  {
    if online != [] {
      var n := |online| - 1;
      var users := UsersList(online);
      assert users[..n] == UsersList(online[..n]);
      assert online[..n] + [online[n]] == online;
      JoinerRoster(online[..n]);
      assert online[n].0 !in Keys(online[..n]) by {
        forall j | 0 <= j < n ensures online[..n][j].0 != online[n].0 {
          assert online[j].0 != online[n].0;
        }
      }
      assert Address(users[n].host, users[n].port) == online[n].0;
    }
  }

  /** The roster of the client at address `own` mirrors the relay's `online`
      dictionary: it lists every joined address except the client's own, each
      under the same name. The client never lists itself, because the users
      list it loads is taken before it joins and broadcasts skip its socket. */
  ghost predicate Mirrors(roster: seq<(Address, string)>, online: seq<(Address, string)>, own: Address) {
    ToMap(roster) == ToMap(online) - {own}
  }

  /** A client logging in for the first time, with an empty roster, starts out
      mirroring the relay when it joins from a new address; one that joined
      again from the same address also lists itself, under the name it had
      before. A later login loads onto the roster it kept (see
      `RosterStaleAfterRelogin`). */
  lemma JoinerStartsMirrored(r: Registry, sock: Sock, addr: Address, name: string)
    requires DistinctKeys(r.online) && name !in Values(r.online)
    ensures addr !in Keys(r.online) ==>
      Mirrors(LoadRoster([], UsersList(r.online)), Join(r, sock, addr, name).reg.online, addr)
    ensures addr in Keys(r.online) ==> addr in Keys(LoadRoster([], UsersList(r.online)))
  {
    JoinerRoster(r.online);
    var m, m' := ToMap(r.online), ToMap(Join(r, sock, addr, name).reg.online) - {addr};
    if addr !in Keys(r.online) {
      forall a ensures a in m <==> a in m' {}
      MapsEqual(m, m');
    }
  }

  /** `returnToMenu` keeps the roster, and while the client is at the menu its
      address is not in `online`, so no `user-left` reaches it. An address `b`
      that left in the meantime stays on the roster through the next login,
      because loading the users list only adds entries, and the client no longer
      mirrors the relay. */
  lemma RosterStaleAfterRelogin(roster: seq<(Address, string)>, r: Registry, sock: Sock,
                                addr: Address, name: string, b: Address)
    requires b in Keys(roster) && b !in Keys(r.online) && b != addr
    ensures b in Keys(LoadRoster(roster, UsersList(r.online)))
    ensures !Mirrors(LoadRoster(roster, UsersList(r.online)), Join(r, sock, addr, name).reg.online, addr)
  {
    var loaded := LoadRoster(roster, UsersList(r.online));
    LoadRosterKeys(roster, UsersList(r.online));
    var online := Join(r, sock, addr, name).reg.online;
    assert b !in ToMap(online) by {
      if name !in Values(r.online) {
        assert b !in ToMap(r.online)[addr := name];
      }
    }
    assert b in ToMap(loaded);
  }

  /** A mirroring client still mirrors after it handles the `user-joined` that a
      successful join of another address broadcasts. */
  lemma MirrorFollowsJoin(r: Registry, sock: Sock, addr: Address, name: string, own: Address, v: ClientView)
    requires DistinctKeys(v.roster) && Mirrors(v.roster, r.online, own)
    requires addr != own && name !in Values(r.online)
    ensures var d := Deliver(v, UserJoined(name, addr.host, addr.port));
      d.Continue? && Mirrors(d.view.roster, Join(r, sock, addr, name).reg.online, own)
  {
    DeliverRoster(v, UserJoined(name, addr.host, addr.port));
    UpdateElsewhere(ToMap(r.online), own, addr, name);
  }

  /** Updating a key other than `own` commutes with dropping `own`. */
  lemma UpdateElsewhere(m: map<Address, string>, own: Address, a: Address, name: string)
    requires a != own
    ensures (m - {own})[a := name] == m[a := name] - {own}
  {
    var x, y := (m - {own})[a := name], m[a := name] - {own};
    forall b ensures b in x <==> b in y {}
    MapsEqual(x, y);
  }

  /** Likewise for the `user-left` of another address's leave, which never makes a
      mirroring client close its socket. */
  lemma MirrorFollowsLeave(r: Registry, sock: Sock, addr: Address, own: Address, v: ClientView)
    requires DistinctKeys(v.roster) && DistinctKeys(r.online) && Mirrors(v.roster, r.online, own)
    requires addr in Keys(r.online) && addr != own
    ensures var d := Deliver(v, UserLeft(Get(r.online, addr).value, addr.host, addr.port));
      d.Continue? && Mirrors(d.view.roster, Leave(r, sock, addr).reg.online, own)
  {
    var left := UserLeft(Get(r.online, addr).value, addr.host, addr.port);
    assert addr in ToMap(v.roster);
    DeliverRoster(v, left);
    LeaveRemoves(r, sock, addr);
    var m := ToMap(Deliver(v, left).view.roster);
    var m' := ToMap(Leave(r, sock, addr).reg.online) - {own};
    forall a ensures a in m <==> a in m' {}
    MapsEqual(m, m');
  }

  /** Logging in against the relay: whatever frame the relay writes to the
      requesting socket during a join is its `connection-response`. Read as the
      client's first frame, it makes the login succeed exactly when the name was
      free, and then the users list loaded is the relay's roster from before
      the join. */
  lemma LoginAgainstRelay(r: Registry, sock: Sock, addr: Address, name: string,
                          m: Message, p: seq<Byte>, rest: seq<Byte>, parse: seq<Byte> -> Parsed)
    requires Out(sock, m) in Join(r, sock, addr, name).out
    requires |p| < FRAME_LIMIT && parse(p) == Parsed(m)
    ensures LoginSucceeded(EncodeFrame(p) + rest, parse) <==> name !in Values(r.online)
    ensures LoginUsers(EncodeFrame(p) + rest, parse)
            == if name in Values(r.online) then None else Some(UsersList(r.online))
  {
    LoginFirstFrame(p, rest, parse);
    if name !in Values(r.online) {
      var rs := Recipients(r.connected, Join(r, sock, addr, name).reg.online, sock);
      assert sock !in rs;
      assert m == ConnectionResponse(true, Some(UsersList(r.online)), None);
    }
  }

  /** A public line typed by `own` reaches exactly the other joined connections,
      one frame each, and each of them shows it as `own: line`. */
  lemma PublicLineDisplayed(r: Registry, sock: Sock, own: string, roster: seq<(Address, string)>,
                            input: string, v: ClientView)
    requires input != "" && !HasPrivatePrefix(input)
    ensures Submit(input, own, roster).Send?
    ensures var m := Submit(input, own, roster).msg;
      var out := Chat(r, sock, m.isPrivate, m.sender, m.receiver, m.message);
      && (forall i :: 0 <= i < |r.connected| && r.connected[i].1 in Keys(r.online) && r.connected[i].0 != sock ==>
            exists o :: o in out && o.to == r.connected[i].0)
      && (forall o :: o in out ==>
            && o.to != sock
            && (exists i :: 0 <= i < |r.connected| && r.connected[i].0 == o.to && r.connected[i].1 in Keys(r.online))
            && Deliver(v, o.msg) == Continue(v.(transcript := v.transcript + [own + ": " + input + "\n\n"])))
      && (DistinctKeys(r.connected) ==> forall a, b :: 0 <= a < b < |out| ==> out[a].to != out[b].to)
  {
    var m := Submit(input, own, roster).msg;
    var out := Chat(r, sock, m.isPrivate, m.sender, m.receiver, m.message);
    var rs := Recipients(r.connected, r.online, sock);
    assert out == Fanout(rs, ChatMessage(false, own, Absent, input));
    forall i | 0 <= i < |r.connected| && r.connected[i].1 in Keys(r.online) && r.connected[i].0 != sock
      ensures exists o :: o in out && o.to == r.connected[i].0
    {
      assert Out(r.connected[i].0, ChatMessage(false, own, Absent, input)) in out;
    }
    if DistinctKeys(r.connected) {
      RecipientsDistinct(r.connected, r.online, sock);
      assert NoRepeats(rs);
      forall a, b | 0 <= a < b < |out| ensures out[a].to != out[b].to {
        assert out[a].to == rs[a] && out[b].to == rs[b];
      }
    }
  }

  /** A name on the roster of a mirroring client is joined on the relay, under
      an address other than the client's own. */
  lemma MirroredNameJoined(roster: seq<(Address, string)>, online: seq<(Address, string)>,
                           own: Address, receiver: string) returns (a: Address)
    requires DistinctKeys(roster) && Mirrors(roster, online, own) && receiver in Values(roster)
    ensures a != own && (a, receiver) in online
  {
    var i :| 0 <= i < |roster| && Values(roster)[i] == receiver;
    a := roster[i].0;
    IndexOfIs(roster, a, i);
    assert a in ToMap(roster) && ToMap(roster)[a] == receiver;
    assert a in ToMap(online) - {own};
    var j := IndexOf(online, a);
    assert online[j] == (a, receiver);
  }

  /** A private command that a mirroring client sends passes its checks against
      its own roster; the relay then knows the name, and the message reaches at
      most one connection, one of the address joined under that name, which is
      not the sender's own address when names are unique. It shows there as
      `own -> Você: body`. */
  lemma PrivateLineDisplayed(r: Registry, sock: Sock, own: string, ownAddr: Address,
                             roster: seq<(Address, string)>, receiver: string, body: string, v: ClientView)
    requires Addressable(receiver) && receiver != own && !Blank(body)
    requires DistinctKeys(roster) && Mirrors(roster, r.online, ownAddr) && receiver in Values(roster)
    ensures var a := Classify(PRIVATE_PREFIX + receiver + " " + body, own, roster);
      a.Send? && a.msg == ChatMessage(true, own, Value(receiver), body)
    ensures receiver in Values(r.online)
    ensures var out := Chat(r, sock, true, own, Value(receiver), body);
      && |out| <= 1
      && (forall o :: o in out ==>
            && (exists a :: (a, receiver) in r.online && (o.to, a) in r.connected)
            && Deliver(v, o.msg) == Continue(v.(transcript := v.transcript + [own + " -> Você: " + body + "\n\n"])))
    ensures DistinctValues(r.online) ==>
      forall o :: o in Chat(r, sock, true, own, Value(receiver), body) ==>
        exists a :: a != ownAddr && (a, receiver) in r.online && (o.to, a) in r.connected
  {
    PrivateCommandSent(receiver, body, own, roster);
    PrivateChatShown(r, sock, own, receiver, body, v);
    var b := MirroredNameJoined(roster, r.online, ownAddr, receiver);
    var j :| 0 <= j < |r.online| && r.online[j] == (b, receiver);
    assert Values(r.online)[j] == receiver;
    if DistinctValues(r.online) {
      PrivateReachesOther(r.online, r.connected, Chat(r, sock, true, own, Value(receiver), body), receiver, b, ownAddr);
    }
  }

  /** The relay's frame for a private message goes to a connection of an address
      joined under the receiver's name and shows there as `own -> Você: body`. */
  lemma PrivateChatShown(r: Registry, sock: Sock, own: string, receiver: string, body: string, v: ClientView)
    ensures var out := Chat(r, sock, true, own, Value(receiver), body);
      && |out| <= 1
      && (forall o :: o in out ==>
            && (exists a :: (a, receiver) in r.online && (o.to, a) in r.connected)
            && Deliver(v, o.msg) == Continue(v.(transcript := v.transcript + [own + " -> Você: " + body + "\n\n"])))
  {
  }

  /** With unique names, the one address a name is joined under is the address
      every frame for that name goes to a connection of. */
  lemma PrivateReachesOther(online: seq<(Address, string)>, connected: seq<(Sock, Address)>, out: seq<Out>,
                            receiver: string, b: Address, ownAddr: Address)
    requires DistinctValues(online) && b != ownAddr && (b, receiver) in online
    requires forall o :: o in out ==> exists a :: (a, receiver) in online && (o.to, a) in connected
    ensures forall o :: o in out ==> exists a :: a != ownAddr && (a, receiver) in online && (o.to, a) in connected
  {
    forall o | o in out
      ensures exists a :: a != ownAddr && (a, receiver) in online && (o.to, a) in connected
    {
      var a :| (a, receiver) in online && (o.to, a) in connected;
      var i :| 0 <= i < |online| && online[i] == (a, receiver);
      var j :| 0 <= j < |online| && online[j] == (b, receiver);
      assert i == j;
    }
  }
}
