/** The lobby server: clients with their packet queues, and the loops that
    accept, announce, kick and flush them. */
module Server {
  import opened CStrings
  import opened Protocol
  import L = Lobby
  import opened Orders

  datatype TLProtocol = UDP | TCP
  datatype ProtocolPhase = PROTO_NONE | PROTO_NEGOT | PROTO_LOBBY | PROTO_GAME

  function TeamCode(t: L.Team): (code: nat)
    ensures (t == L.Spy <==> code == 0) && (t == L.Merc <==> code == 1)
  {
    if t.Spy? then 0 else 1
  }

  /** The packet for a lobby message; player ids are 32-bit on the wire. */
  function Wire(m: L.Msg): (p: Message)
    ensures p.Valid()
  {
    match m
    case Join(id, team) => PlayerDidJoin(id % DWORD, TeamCode(team))
    case Leave(id) => PlayerDidLeave(id % DWORD)
    case Shutdown => ServerShutdown
  }

  /** The octets of each lobby packet: a spy's team is 0 and a mercenary's 1. */
  lemma WireOctets(m: L.Msg)
    ensures var s := Encode(Wire(m));
            match m
            case Join(id, team) =>
              |s| == 9 && s[0] == 3 && DwordAt(s, 1, id % 0x1_0000_0000) &&
                  DwordAt(s, 5, if team == L.Spy then 0 else 1)
            case Leave(id) => |s| == 5 && s[0] == 4 && DwordAt(s, 1, id % 0x1_0000_0000)
            case Shutdown => s == [5]
  {
    hide Encode, DwordAt;
    MessageOctets(Wire(m));
  }

  function WireAll(ms: seq<L.Msg>): (ps: seq<Message>)
    ensures |ps| == |ms| && forall m | m in ps :: m.Valid()
  {
    seq(|ms|, i requires 0 <= i < |ms| => Wire(ms[i]))
  }

  /** The bytes of a list of lobby packets. */
  function Bytes(ms: seq<L.Msg>): seq<byte> { EncodeAll(WireAll(ms)) }

  lemma {:induction false} EncodeAllConcat(a: seq<Message>, b: seq<Message>)
    requires (forall m | m in a :: m.Valid()) && (forall m | m in b :: m.Valid())
    ensures EncodeAll(a + b) == EncodeAll(a) + EncodeAll(b)
  {
    hide Encode;
    if a == [] {
      assert a + b == b;
    } else {
      EncodeAllConcat(a[1..], b);
      assert (a + b)[1..] == a[1..] + b;
    }
  }

  lemma BytesPush(ms: seq<L.Msg>, m: L.Msg)
    ensures Bytes(ms + [m]) == Bytes(ms) + Encode(Wire(m))
  {
    hide Encode;
    assert WireAll(ms + [m]) == WireAll(ms) + [Wire(m)];
    EncodeAllConcat(WireAll(ms), [Wire(m)]);
    assert [Wire(m)][1..] == [] && EncodeAll([]) == [];
    assert Encode(Wire(m)) + [] == Encode(Wire(m));
  }

  lemma BytesConcat(a: seq<L.Msg>, b: seq<L.Msg>)
    ensures Bytes(a + b) == Bytes(a) + Bytes(b)
  {
    assert WireAll(a + b) == WireAll(a) + WireAll(b);
    EncodeAllConcat(WireAll(a), WireAll(b));
  }

  lemma BytesEmpty(ms: seq<L.Msg>)
    ensures Bytes(ms) == [] <==> ms == []
  {
    if ms != [] {
      MessageRoundTrip(Wire(ms[0]), []);
    }
  }

  lemma BytesOf(ms: seq<L.Msg>)
    ensures Bytes(ms) == EncodeAll(WireAll(ms))
  {
  }

  // ----- Clients -----

  /** What a client's sockets answer: whether the connection is open, and whether sending works. */
  datatype Line = Line(open: bool, tcpSends: bool, udpSends: bool)

  /** What was given to a UDP socket to send, and what is queued for it. */
  datatype Datagrams = Datagrams(sent: seq<byte>, queued: seq<byte>)

  class Client {
    const playerID: nat
    const team: L.Team
    const udpPort: nat
    var tcpPktQueue: seq<byte>
    var udpPktQueue: seq<byte>
    /** Anything may happen to it from one pass over the clients to the next. */
    var line: Line
    /** The unbounded number of this player, of which playerID keeps 32 bits. */
    ghost const ticket: nat
    /** Every byte ever given to the TCP socket to send. */
    ghost var handed: seq<byte>
    /** Every byte ever given to the UDP socket to send. */
    ghost var udpHanded: seq<byte>
    /** Every lobby packet ever put into the TCP queue, and how many of them were sent. */
    ghost var stream: seq<L.Msg>
    ghost var flushed: nat
    ghost var seen: set<nat>

    constructor (playerID: nat, team: L.Team, udpPort: nat, sends: bool, ghost ticket: nat)
      requires playerID == ticket % DWORD
      ensures IsNew() && View() == L.Player(ticket, team, [], 0, {})
      ensures this.playerID == playerID && this.team == team && this.udpPort == udpPort && this.ticket == ticket
      ensures line.tcpSends == sends && Udp() == Datagrams([], [])
    {
      this.playerID, this.team, this.udpPort, this.ticket := playerID, team, udpPort, ticket;
      tcpPktQueue, udpPktQueue := [], [];
      var open, udpSends := *, *;
      line := Line(open, sends, udpSends);
      handed, udpHanded, stream, flushed, seen := [], [], [], 0, {};
    }

    ghost function Udp(): Datagrams
      reads this`udpPktQueue, this`udpHanded
    {
      Datagrams(udpHanded, udpPktQueue)
    }

    ghost predicate IsNew()
      reads this`tcpPktQueue, this`stream, this`flushed, this`handed
    {
      playerID == ticket % DWORD && tcpPktQueue == handed == [] && stream == [] && flushed == 0
    }

    /** The answer to this player's join request. */
    function JoinAnswer(): Message {
      JoinResponse(true, playerID % DWORD, TeamCode(team))
    }

    /** The next player's answer is the reply that is due to whoever asks to join. */
    lemma AnswerIsReply(l: L.Lobby)
      requires ticket == l.issued + 1 && playerID == ticket % DWORD && team == L.TeamForNextPlayer(l.players)
      requires |l.players| < L.MAX_PLAYERS
      ensures forall socket | AsksToJoin(socket) :: Reply(l, socket) == Encode(JoinAnswer())
    {
      hide Encode, L.Count;
    }

    /** The TCP queue is a concatenation of whole packets: those not sent yet. Before them the socket
        was given the join answer and the packets sent. */
    ghost predicate Valid()
      reads this`tcpPktQueue, this`stream, this`flushed, this`handed
    {
      && playerID == ticket % DWORD
      && flushed <= |stream|
      && tcpPktQueue == Bytes(stream[flushed..])
      && handed == Encode(JoinAnswer()) + Bytes(stream[..flushed])
    }

    ghost function View(): L.Player
      reads this`stream, this`flushed, this`seen
    {
      L.Player(ticket, team, stream, flushed, seen)
    }

    lemma ViewQueue(p: L.Player)
      requires View() == p
      ensures flushed == p.flushed && stream == p.stream && ticket == p.id && team == p.team
    {
    }

    /** The queue decodes to exactly the packets that are queued. */
    lemma QueueDecodes()
      requires Valid()
      ensures DecodeAll(tcpPktQueue) == Some(WireAll(stream[flushed..]))
    {
      QueueRoundTrip(WireAll(stream[flushed..]));
    }

    /** What the socket was given and what is queued decode to the join answer and then the stream. */
    lemma StreamDecodes()
      requires Valid()
      ensures DecodeAll(handed + tcpPktQueue) == Some([JoinAnswer()] + WireAll(stream))
    {
      hide Encode, Bytes;
      BytesConcat(stream[..flushed], stream[flushed..]);
      assert stream[..flushed] + stream[flushed..] == stream;
      var all := [JoinAnswer()] + WireAll(stream);
      assert all[1..] == WireAll(stream) && all[0] == JoinAnswer();
      BytesOf(stream);
      assert EncodeAll(all) == Encode(JoinAnswer()) + Bytes(stream);
      assert handed + tcpPktQueue == EncodeAll(all);
      QueueRoundTrip(all);
    }

    method AddPacketToQueue(proto: TLProtocol, packet: Message, ghost note: L.Msg)
      requires Valid() && packet == Wire(note)
      modifies this`tcpPktQueue, this`udpPktQueue, this`stream
      ensures Valid()
      ensures View() == if proto.TCP? then old(View()).Push(note) else old(View())
      ensures udpPktQueue == old(udpPktQueue) + if proto.UDP? then Encode(packet) else []
    {
      hide Encode, Wire, Bytes;
      var buf := Encode(packet);
      ghost var tcp := tcpPktQueue;
      for i := 0 to |buf|
        invariant stream == old(stream)
        invariant proto.TCP? ==> tcpPktQueue == tcp + buf[..i]
        invariant proto.UDP? ==> tcpPktQueue == tcp
        invariant udpPktQueue == old(udpPktQueue) + if proto.UDP? then buf[..i] else []
      {
        if proto.UDP? {
          udpPktQueue := udpPktQueue + [buf[i]];
        } else {
          tcpPktQueue := tcpPktQueue + [buf[i]];
        }
      }
      assert buf[..|buf|] == buf;
      if proto.TCP? {
        BytesPush(stream[flushed..], note);
        stream := stream + [note];
        assert stream[flushed..] == old(stream)[flushed..] + [note] && stream[..flushed] == old(stream)[..flushed];
      }
    }

    /** Sends and clears a queue; sending may fail. */
    method SendPacketQueue(proto: TLProtocol) returns (ok: bool)
      requires Valid()
      modifies this`tcpPktQueue, this`udpPktQueue, this`flushed, this`handed, this`udpHanded
      ensures Valid()
      ensures View() == if proto.TCP? then L.Act(old(View()), L.Flush) else old(View())
      ensures handed == old(handed) + if proto.TCP? then old(tcpPktQueue) else []
      ensures udpPktQueue == if proto.UDP? then [] else old(udpPktQueue)
      ensures udpHanded == old(udpHanded) + if proto.UDP? then old(udpPktQueue) else []
      ensures proto.TCP? ==> (ok <==> line.tcpSends || old(flushed) == |stream|)
      ensures proto.UDP? ==> (ok <==> line.udpSends || old(udpPktQueue) == [])
    {
      hide Encode, Bytes;
      assert stream[|stream|..] == [] && stream[..|stream|] == stream == stream[..flushed] + stream[flushed..];
      BytesConcat(stream[..flushed], stream[flushed..]);
      BytesEmpty([]);
      BytesEmpty(stream[flushed..]);
      var queue := if proto.UDP? then udpPktQueue else tcpPktQueue;
      if |queue| == 0 {
        if proto.TCP? {
          flushed := |stream|;
        }
        return true;
      }
      ok := if proto.UDP? then line.udpSends else line.tcpSends;
      if proto.UDP? {
        udpHanded := udpHanded + queue;
        udpPktQueue := [];
      } else {
        handed := handed + queue;
        tcpPktQueue := [];
        flushed := |stream|;
      }
    }

    /** Answers the join request over the socket; sending may fail. */
    method SendJoinResponsePacket() returns (ok: bool, written: seq<byte>)
      requires IsNew()
      modifies this`handed
      ensures Valid() && handed == written == Encode(JoinAnswer()) && ok == line.tcpSends
    {
      BytesEmpty([]);
      written := Encode(JoinResponse(true, playerID, TeamCode(team)));
      handed := written;
      assert stream[..0] == stream[0..] == [];
      ok := line.tcpSends;
    }

    predicate IsConnected()
      reads this`line
    {
      line.open
    }
  }

  // ----- The server -----

  ghost predicate Coupled(cs: seq<Client>, ps: seq<L.Player>)
    reads cs`tcpPktQueue, cs`stream, cs`flushed, cs`handed, cs`seen
  {
    && |cs| == |ps|
    && (forall i, j | 0 <= i < j < |cs| :: cs[i] != cs[j])
    && (forall i | 0 <= i < |cs| :: cs[i].Valid() && cs[i].View() == ps[i])
  }

  /** A newly accepted connection: its first packet, if one arrives, and whether sending over it works. */
  datatype Socket = Socket(hasActivity: bool, packet: Option<Message>, sends: bool)

  /** The answer to a connection that is turned away. */
  const REFUSAL: Message := JoinResponse(false, 0, 0)

  predicate AsksToJoin(socket: Socket) {
    socket.hasActivity && socket.packet.Some? && socket.packet.value.JoinRequest?
  }

  /** What a connection that finds the lobby as it is must get to read. */
  function Reply(l: L.Lobby, socket: Socket): seq<byte> {
    if |l.players| >= 4 then Encode(JoinResponse(false, 0, 0))
    else if AsksToJoin(socket) then
      var team := if L.Count(l.players, L.Merc) > L.Count(l.players, L.Spy) then 0 else 1;
      Encode(JoinResponse(true, (l.issued + 1) % 0x1_0000_0000, team))
    else []
  }

  /** The octets of a reply: a refusal is all zeros after its type, and an acceptance carries the new player's
      32-bit id and team. */
  lemma ReplyOctets(l: L.Lobby, socket: Socket)
    ensures var s := Reply(l, socket);
            if |l.players| >= 4 then s == [2, 0, 0, 0, 0, 0, 0, 0, 0, 0]
            else if !AsksToJoin(socket) then s == []
            else |s| == 10 && s[0] == 2 && s[1] == 1 && DwordAt(s, 2, (l.issued + 1) % 0x1_0000_0000)
                 && DwordAt(s, 6, if L.Count(l.players, L.Merc) > L.Count(l.players, L.Spy) then 0 else 1)
  {
    hide Encode, L.Count;
    var team := if L.Count(l.players, L.Merc) > L.Count(l.players, L.Spy) then 0 else 1;
    MessageOctets(JoinResponse(true, (l.issued + 1) % DWORD, team));
    MessageOctets(JoinResponse(false, 0, 0));
  }

  /** Has player j sent everything that is in its stream when its turn comes? */
  predicate Quiet(ps: seq<L.Player>, vs: seq<bool>, j: nat)
    requires j <= |vs| <= |ps| && j < |ps|
  {
    ps[j].flushed == |ps[j].stream| + |L.Leaves(ps, vs, 0, j)|
  }

  /** Does the verdict of a pass on a client fit its sockets? In a broadcast the client passes iff it is connected;
      in a flush, iff sending whatever each queue holds works as well. */
  predicate Verdict(a: L.Action, line: Line, tcpEmpty: bool, udpEmpty: bool, passed: bool) {
    passed == (line.open && (a.Flush? ==> (line.tcpSends || tcpEmpty) && (line.udpSends || udpEmpty)))
  }

  ghost function AllUdp(cs: seq<Client>): (r: seq<Datagrams>)
    reads cs`udpPktQueue, cs`udpHanded
    decreases |cs|
    ensures |r| == |cs| && forall i | 0 <= i < |cs| :: r[i] == cs[i].Udp()
  {
    if cs == [] then [] else AllUdp(cs[..|cs| - 1]) + [cs[|cs| - 1].Udp()]
  }

  /** A client's datagrams once it has passed: a flush sends what is queued, a broadcast queues more. */
  function AfterTurn(a: L.Action, d: Datagrams, added: seq<byte>): Datagrams {
    if a.Flush? then Datagrams(d.sent + d.queued, []) else Datagrams(d.sent, d.queued + added)
  }

  /** The bytes that a broadcast adds to a client's UDP queue. */
  function Datagram(proto: TLProtocol, packet: Message): seq<byte>
    requires packet.Valid()
  {
    if proto.UDP? then Encode(packet) else []
  }

  class Server {
    var clients: seq<Client>
    var nextPlayerId: nat
    var protoPhase: ProtocolPhase
    var newConnections: seq<Socket>
    ghost var lobby: L.Lobby
    /** Everything that happened since the server started, which led to the lobby. */
    ghost var events: seq<L.Event>
    /** Every client whose turn came in a pass, and whether it passed. */
    ghost var visits: seq<(Client, bool)>

    constructor ()
      ensures Valid() && events == [] && protoPhase == PROTO_LOBBY && newConnections == []
    {
      clients, nextPlayerId, protoPhase, newConnections, lobby := [], 1, PROTO_LOBBY, [], L.EMPTY;
      visits, events := [], [];
      L.RunNone(L.EMPTY);
    }

    ghost predicate Valid()
      reads this`clients, this`nextPlayerId, this`lobby, this`events, clients
    {
      && Coupled(clients, lobby.players)
      && nextPlayerId == (lobby.issued + 1) % DWORD
      && L.PossibleRun(L.EMPTY, events) && lobby == L.Run(L.EMPTY, events)
    }

    ghost predicate IsPlayer(x: nat)
      reads this`clients
    {
      exists i | 0 <= i < |clients| :: clients[i].ticket == x
    }

    /** What client i's stream says about player x, in every state of the server. */
    lemma ClientStreams(i: nat, x: nat)
      requires Valid() && i < |clients|
      ensures var c := clients[i]; var s := L.About(c.stream, x);
              && (IsPlayer(x) && x > c.ticket ==> x in lobby.teams && s == [L.Join(x, lobby.teams[x])])
              && (IsPlayer(x) && x <= c.ticket ==> s == [])
              && (!IsPlayer(x) && x in c.seen ==> s == [L.Leave(x)])
              && (!IsPlayer(x) && x > c.ticket && x in lobby.teams ==> s == [L.Join(x, lobby.teams[x]), L.Leave(x)])
              && (x !in c.seen && !(x > c.ticket && x in lobby.teams) ==> s == [])
    {
      hide L.PossibleRun, L.Run, L.About;
      L.StreamsNetOut(events, i, x);
      assert clients[i].View() == lobby.players[i];
      SamePlayers(x);
    }

    lemma SamePlayers(x: nat)
      requires Valid()
      ensures IsPlayer(x) <==> L.Present(lobby.players, x)
    {
      assert forall i | 0 <= i < |clients| :: clients[i].View().id == lobby.players[i].id;
    }

    /** In every state the tickets increase in vector order and the teams are as even as departures allow. */
    lemma ClientTeams()
      requires Valid()
      ensures |clients| <= 4 && forall i, j | 0 <= i < j < |clients| ::
          clients[i].ticket < clients[j].ticket
      ensures var m, s := L.Count(lobby.players, L.Merc), L.Count(lobby.players, L.Spy);
              && m + s == |clients| && -(lobby.departed + 1) <= m - s <= lobby.departed + 1
              && (lobby.departed == 0 ==> m == (|clients| + 1) / 2)
    {
      hide L.PossibleRun, L.Run, L.Count;
      L.TeamsEven(events);
      L.IdsDistinct(events, 0, 0);
      forall i | 0 <= i < |clients| ensures clients[i].ticket == lobby.players[i].id {
        assert clients[i].View() == lobby.players[i];
      }
    }

    /** Queues a leave packet for everyone but the client, which is at k if anywhere; where was it? */
    method TellOthers(client: Client, leave: Message, ghost ps: seq<L.Player>, ghost k: nat, ghost all: seq<Client>)
      returns (kickIndex: int)
      requires Coupled(clients, ps) && (forall c | c in clients :: c in all) && IsAt(client, k)
      requires leave == Wire(L.Leave(client.ticket))
      modifies all`tcpPktQueue, all`udpPktQueue, all`stream
      ensures kickIndex == if k < |clients| then k else -1
      ensures Told(clients, ps, k, client.ticket) && UdpSame(all)
    {
      hide Client.Valid, Client.View, Wire;
      kickIndex := -1;
      for i := 0 to |clients|
        invariant UdpSame(all)
        invariant kickIndex == if i <= k then -1 else k
        invariant forall j | 0 <= j < |clients| :: clients[j].Valid()
                    && clients[j].View() == if j < i && j != k then ps[j].Push(L.Leave(client.ticket)) else ps[j]
      {
        assert clients[i] in clients;
        if clients[i] == client {
          kickIndex := i;
        } else {
          assert clients[i] in all;
          clients[i].AddPacketToQueue(TCP, leave, L.Leave(client.ticket));
        }
      }
    }

    ghost predicate IsAt(client: Client, k: nat)
      reads this`clients
    {
      k <= |clients| && if k < |clients| then clients[k] == client else client !in clients
    }

    twostate predicate UdpSame(all: seq<Client>)
      reads all`udpPktQueue, all`udpHanded
    {
      forall i | 0 <= i < |all| :: all[i].Udp() == old(all[i].Udp())
    }

    method Erase(kickIndex: int, ghost ps: seq<L.Player>, ghost ticket: nat)
      requires 0 <= kickIndex < |clients| && Told(clients, ps, kickIndex, ticket) && clients[kickIndex].ticket == ticket
      modifies this`clients
      ensures clients == Drop(old(clients), kickIndex)
      ensures kickIndex < |ps| && Coupled(clients, L.Kick(ps, kickIndex))
    {
      hide L.Kick, Coupled, Told, Drop;
      CoupledErase(clients, kickIndex, ps, ticket);
      DropIs(clients, kickIndex);
      clients := clients[..kickIndex] + clients[kickIndex + 1..];
    }

    /** Tells everyone else that the client leaves, and removes it if it is there. */
    method KickClient(client: Client?, ghost ps: seq<L.Player>, ghost k: nat, ghost all: seq<Client>)
      requires Coupled(clients, ps) && forall c | c in clients :: c in all
      requires client != null ==> IsAt(client, k) && client.playerID == client.ticket % DWORD
      modifies this`clients, all`tcpPktQueue, all`udpPktQueue, all`stream
      ensures client == null ==> clients == old(clients) && Coupled(clients, ps)
      ensures client != null && k < |old(clients)| ==>
          clients == Drop(old(clients), k) && Coupled(clients, L.Kick(ps, k))
      ensures client != null && k == |old(clients)| ==>
          clients == old(clients) && Coupled(clients, L.Tell(ps, client.ticket))
      ensures UdpSame(all)
    {
      if client == null {
        return;
      }
      var leave := PlayerDidLeave(client.playerID);
      assert leave == Wire(L.Leave(client.ticket));
      hide Wire, L.Kick, L.Tell, Coupled, Told, Client.Valid, Client.View, Drop;
      var kickIndex := TellOthers(client, leave, ps, k, all);
      if kickIndex >= 0 {
        Erase(kickIndex, ps, client.ticket);
      } else {
        CoupledTold(clients, k, ps, client.ticket);
      }
    }

    /** A pass over the clients in all, who stood for ps: |vs| of them have had their turn, and
        the next one is at index i. */
    ghost predicate InPass(i: nat, vs: seq<bool>, ps: seq<L.Player>, a: L.Action, all: seq<Client>,
                           before: seq<(Client, bool)>, udp: seq<Datagrams>, added: seq<byte>)
      reads this`clients, this`visits, all, clients
    {
      && |vs| <= |all| == |ps|
      && Remaining(clients, i, all, vs)
      && i == L.Rank(vs, |vs|)
      && Coupled(clients, L.Sweep(ps, vs, a))
      && visits == Turned(before, all, vs)
      && |udp| == |all|
      && (forall j | 0 <= j < |vs| :: Verdict(a, all[j].line, Quiet(ps, vs, j), udp[j].queued == [], vs[j]))
      && (forall j | 0 <= j < |vs| && vs[j] :: all[j].Udp() == AfterTurn(a, udp[j], added))
      && (forall j | |vs| <= j < |all| :: all[j].Udp() == udp[j])
    }

    /** Once the client at index i has had its turn, the pass goes on. */
    lemma NextTurn(i: nat, passed: bool, vs: seq<bool>, ps: seq<L.Player>, a: L.Action, all: seq<Client>,
                   before: seq<(Client, bool)>, udp: seq<Datagrams>, added: seq<byte>)
      requires |vs| < |all| == |ps| == |udp| && i == L.Rank(vs, |vs|) && i < |L.Sweep(ps, vs, a)|
      requires Remaining(clients, if passed then i + 1 else i, all, vs + [passed])
      requires var now := L.Sweep(ps, vs, a);
               Coupled(clients, if passed then now[i := L.Act(now[i], a)] else L.Kick(now, i))
      requires visits == Turned(before, all, vs) + [(all[|vs|], passed)]
      requires forall j | 0 <= j < |vs| :: Verdict(a, all[j].line, Quiet(ps, vs, j), udp[j].queued == [], vs[j])
      requires Verdict(a, all[|vs|].line, Quiet(ps, vs, |vs|), udp[|vs|].queued == [], passed)
      requires forall j | 0 <= j < |vs| && vs[j] :: all[j].Udp() == AfterTurn(a, udp[j], added)
      requires passed ==> all[|vs|].Udp() == AfterTurn(a, udp[|vs|], added)
      requires forall j | |vs| < j < |all| :: all[j].Udp() == udp[j]
      ensures InPass(if passed then i + 1 else i, vs + [passed], ps, a, all, before, udp, added)
    {
      hide L.Kick, L.Sweep, L.Rank, L.Act, Turned, Remaining, Coupled, Quiet, Verdict;
      TurnedNext(before, all, vs, passed);
      L.SweepNext(ps, vs, passed, a);
      QuietKnown(ps, vs, passed);
    }

    /** One client's turn in a broadcast: it gets the packet, or is kicked when its connection is gone. */
    method BroadcastTurn(i: nat, proto: TLProtocol, packet: Message, ghost note: L.Msg,
                         ghost vs: seq<bool>, ghost ps: seq<L.Player>, ghost all: seq<Client>,
                         ghost before: seq<(Client, bool)>, ghost udp: seq<Datagrams>)
      returns (i': int, ghost vs': seq<bool>)
      requires packet == Wire(note) && i < |clients|
      requires InPass(i, vs, ps, PostBy(proto, note), all, before, udp, Datagram(proto, packet))
      modifies this`clients, this`visits, all`tcpPktQueue, all`udpPktQueue, all`stream
      ensures vs' == vs + [i' == i] && |vs'| <= |ps| && i' in {i, i - 1}
      ensures InPass(i' + 1, vs', ps, PostBy(proto, note), all, before, udp, Datagram(proto, packet))
    {
      hide Client.Valid, Client.View, Wire, L.Kick, L.Sweep, L.Rank, Turned, Drop, Remaining, Coupled, PostBy;
      hide Quiet, Bytes;
      ghost var now := L.Sweep(ps, vs, PostBy(proto, note));
      CoupledSize(clients, now);
      RemainingNext(clients, i, all, vs);
      var client := clients[i];
      i' := i;
      var open := client.IsConnected();
      if open {
        Queue(client, i, proto, packet, note, now);
      } else {
        KickClient(client, now, i, all);
        i' := i' - 1;
      }
      visits := visits + [(client, open)];
      PostIsNoFlush(proto, note);
      NextTurn(i, open, vs, ps, PostBy(proto, note), all, before, udp, Datagram(proto, packet));
      vs' := vs + [open];
      hide InPass;
    }

    method Queue(client: Client, ghost i: nat, proto: TLProtocol, packet: Message, ghost note: L.Msg,
        ghost ps: seq<L.Player>)
      requires Coupled(clients, ps) && i < |clients| && clients[i] == client && packet == Wire(note)
      modifies client`tcpPktQueue, client`udpPktQueue, client`stream
      ensures Coupled(clients, ps[i := L.Act(ps[i], PostBy(proto, note))])
      ensures client.Udp() == AfterTurn(PostBy(proto, note), old(client.Udp()), Datagram(proto, packet))
    {
      hide Client.Valid, Client.View, Wire;
      client.AddPacketToQueue(proto, packet, note);
    }

    /** Queues a packet for every client that is still connected and kicks the others;
        each client gets exactly one turn, in order. */
    method Broadcast(proto: TLProtocol, packet: Message, ghost note: L.Msg, ghost ps: seq<L.Player>)
      returns (ghost vs: seq<bool>)
      requires Coupled(clients, ps) && packet == Wire(note)
      modifies this`clients, this`visits, clients
      ensures |vs| == |ps| == |old(clients)| && visits == Turned(old(visits), old(clients), vs)
      ensures Coupled(clients, L.Sweep(ps, vs, PostBy(proto, note)))
      ensures forall j | 0 <= j < |vs| :: vs[j] <==> old(clients)[j].line.open
      ensures forall j | 0 <= j < |vs| && vs[j] ::
          old(clients)[j].Udp() == AfterTurn(PostBy(proto, note), old(clients[j].Udp()), Datagram(proto, packet))
      ensures clients == Kept(old(clients), vs) && forall c | c in clients :: c in old(clients)
    {
      hide Wire, InPass, L.Sweep, Kept, Turned, Coupled, PostBy;
      ghost var a, all := PostBy(proto, note), clients;
      var i := 0;
      vs := [];
      PollSockets(ps);
      ghost var udp := AllUdp(clients);
      StartPass(ps, a);
      while i < |clients|
        invariant 0 <= i && |vs| <= |ps| && InPass(i, vs, ps, a, all, old(visits), udp, Datagram(proto, packet))
        decreases |ps| - |vs|
      {
        var turned;
        turned, vs := BroadcastTurn(i, proto, packet, note, vs, ps, all, old(visits), udp);
        i := turned + 1;
      }
      EndPass(i, vs, ps, a, all, old(visits), udp, Datagram(proto, packet));
      PostIsNoFlush(proto, note);
    }

    /** Before a pass, anything may have happened to the connections. */
    method PollSockets(ghost ps: seq<L.Player>)
      requires Coupled(clients, ps)
      modifies clients`line
      ensures Coupled(clients, ps)
    {
      hide Client.Valid, Client.View;
      for i := 0 to |clients|
        invariant Coupled(clients, ps)
      {
        clients[i].line := *;
      }
    }

    lemma StartPass(ps: seq<L.Player>, a: L.Action)
      requires Coupled(clients, ps)
      ensures forall added :: InPass(0, [], ps, a, clients, visits, AllUdp(clients), added)
    {
      hide Client.Valid, Client.View;
      L.SweepNone(ps, a);
      RemainingStart(clients, ps);
    }

    lemma EndPass(i: nat, vs: seq<bool>, ps: seq<L.Player>, a: L.Action, all: seq<Client>,
        before: seq<(Client, bool)>, udp: seq<Datagrams>, added: seq<byte>)
      requires InPass(i, vs, ps, a, all, before, udp, added) && i >= |clients|
      ensures |vs| == |ps| == |all| && visits == Turned(before, all, vs)
      ensures Coupled(clients, L.Sweep(ps, vs, a))
      ensures |udp| == |all| && forall j | 0 <= j < |vs| ::
          Verdict(a, all[j].line, Quiet(ps, vs, j), udp[j].queued == [], vs[j])
      ensures forall j | 0 <= j < |vs| && vs[j] :: all[j].Udp() == AfterTurn(a, udp[j], added)
      ensures clients == Kept(all, vs) && forall c | c in clients :: c in all
    {
      RemainingEnd(clients, i, all, vs);
    }

    /** One client's turn in a flush: both queues are sent, which clears them even when sending
        fails, and the client is kicked when it is gone or cannot be reached. */
    method FlushTurn(i: nat, ghost vs: seq<bool>, ghost ps: seq<L.Player>, ghost all: seq<Client>,
                     ghost before: seq<(Client, bool)>, ghost udp: seq<Datagrams>)
      returns (i': int, ghost vs': seq<bool>)
      requires InPass(i, vs, ps, L.Flush, all, before, udp, []) && i < |clients|
      modifies this`clients, this`visits, all`tcpPktQueue, all`udpPktQueue, all`stream, all`flushed, all`handed,
          all`udpHanded
      ensures vs' == vs + [i' == i] && |vs'| <= |ps| && i' in {i, i - 1}
      ensures InPass(i' + 1, vs', ps, L.Flush, all, before, udp, [])
    {
      hide Client.Valid, Client.View, L.Kick, L.Sweep, L.Rank, L.Act, Turned, Drop, Remaining, Coupled, Quiet, Verdict;
      ghost var now := L.Sweep(ps, vs, L.Flush);
      CoupledSize(clients, now);
      RemainingNext(clients, i, all, vs);
      TurnPlayer(ps, vs);
      var client := clients[i];
      i' := ServeClient(client, i, now, all);
      ghost var passed := i' == i;
      visits := visits + [(client, passed)];
      NextTurn(i, passed, vs, ps, L.Flush, all, before, udp, []);
      vs' := vs + [passed];
      hide InPass;
    }

    /** Sends a client's queues, or kicks it. */
    method ServeClient(client: Client, i: nat, ghost ps: seq<L.Player>, ghost all: seq<Client>) returns (i': int)
      requires Coupled(clients, ps) && (forall c | c in clients :: c in all) && i < |clients| && clients[i] == client
      modifies this`clients, all`tcpPktQueue, all`udpPktQueue, all`stream, all`flushed, all`handed, all`udpHanded
      ensures i' in {i, i - 1}
      ensures |ps| == |old(clients)|
      ensures if i' == i then clients == old(clients) && Coupled(clients, ps[i := L.Act(ps[i], L.Flush)])
              else clients == Drop(old(clients), i) && Coupled(clients, L.Kick(ps, i))
      ensures i < |ps| &&
          Verdict(L.Flush, client.line, ps[i].flushed == |ps[i].stream|, old(client.udpPktQueue) == [], i' == i)
      ensures i' == i ==> client.Udp() == AfterTurn(L.Flush, old(client.Udp()), [])
      ensures forall j | 0 <= j < |all| && all[j] != client :: all[j].Udp() == old(all[j].Udp())
    {
      hide Client.Valid, Client.View, L.Kick, L.Act, Drop, Coupled;
      CoupledSize(clients, ps);
      assert clients[i] in all;
      i' := i;
      var open := client.IsConnected();
      if !open {
        KickClient(client, ps, i, all);
        i' := i' - 1;
      } else {
        var sent := SendQueues(client, i, ps);
        if !sent {
          L.ActSame(ps[i], L.Flush);
          L.KickSame(ps, i, L.Act(ps[i], L.Flush));
          KickClient(client, ps[i := L.Act(ps[i], L.Flush)], i, all);
          i' := i' - 1;
        }
      }
    }

    /** Sends both queues of a client, the second only when the first could be sent. */
    method SendQueues(client: Client, ghost i: nat, ghost ps: seq<L.Player>) returns (sent: bool)
      requires Coupled(clients, ps) && i < |clients| && clients[i] == client
      modifies client`tcpPktQueue, client`udpPktQueue, client`flushed, client`handed, client`udpHanded
      ensures Coupled(clients, ps[i := L.Act(ps[i], L.Flush)])
      ensures sent <==>
          (client.line.tcpSends || ps[i].flushed == |ps[i].stream|) &&
              (client.line.udpSends || old(client.udpPktQueue) == [])
      ensures sent ==> client.Udp() == AfterTurn(L.Flush, old(client.Udp()), [])
    {
      hide Client.Valid, Client.View, L.Act;
      client.ViewQueue(ps[i]);
      sent := client.SendPacketQueue(TCP);
      if sent {
        sent := client.SendPacketQueue(UDP);
      }
    }

    /** Sends every client's queues and kicks the clients that are gone or cannot be
        reached; each client gets exactly one turn, in order. */
    method FlushClientPacketQueues(ghost ps: seq<L.Player>) returns (ghost vs: seq<bool>)
      requires Coupled(clients, ps)
      modifies this`clients, this`visits, clients
      ensures |vs| == |ps| == |old(clients)| && visits == Turned(old(visits), old(clients), vs)
      ensures forall j | 0 <= j < |vs| ::
          Verdict(L.Flush, old(clients)[j].line, Quiet(ps, vs, j), old(clients[j].Udp()).queued == [], vs[j])
      ensures clients == Kept(old(clients), vs) && forall c | c in clients :: c in old(clients)
      ensures forall j | 0 <= j < |vs| && vs[j] ::
          old(clients)[j].Udp() == AfterTurn(L.Flush, old(clients[j].Udp()), [])
      ensures forall j | 0 <= j < |vs| && vs[j] :: old(clients)[j].tcpPktQueue == Bytes(L.Leaves(ps, vs, j + 1, |vs|))
      ensures Coupled(clients, L.Sweep(ps, vs, L.Flush))
    {
      hide InPass, L.Sweep, Kept, Turned, Verdict, Coupled, Quiet, L.Leaves, L.Rank, Bytes, Client.Valid, Client.View;
      hide AfterTurn, Client.Udp;
      ghost var all := clients;
      var i := 0;
      vs := [];
      PollSockets(ps);
      ghost var udp := AllUdp(clients);
      StartPass(ps, L.Flush);
      while i < |clients|
        invariant 0 <= i && |vs| <= |ps| && InPass(i, vs, ps, L.Flush, all, old(visits), udp, [])
        decreases |ps| - |vs|
      {
        var turned;
        turned, vs := FlushTurn(i, vs, ps, all, old(visits), udp);
        i := turned + 1;
      }
      EndPass(i, vs, ps, L.Flush, all, old(visits), udp, []);
      forall j | 0 <= j < |vs| && vs[j] ensures all[j].tcpPktQueue == Bytes(L.Leaves(ps, vs, j + 1, |vs|)) {
        LeavesQueued(ps, vs, all, j);
      }
    }

    /** After a flush, a survivor has queued the leave packets of the clients kicked after its turn. */
    lemma LeavesQueued(ps: seq<L.Player>, vs: seq<bool>, all: seq<Client>, j: nat)
      requires |vs| == |ps| == |all| && j < |vs| && vs[j]
      requires clients == Kept(all, vs) && Coupled(clients, L.Sweep(ps, vs, L.Flush))
      ensures all[j].tcpPktQueue == Bytes(L.Leaves(ps, vs, j + 1, |vs|))
    {
      hide L.Sweep, Bytes, L.Leaves, Kept;
      KeptAt(all, vs, j);
      L.FlushLeavesQueued(ps, vs, j);
      assert clients[L.Rank(vs, j)].View() == L.Sweep(ps, vs, L.Flush)[L.Place(vs, j)];
    }

    method TeamCounts() returns (mercCount: nat, spyCount: nat)
      requires Coupled(clients, lobby.players)
      ensures mercCount == L.Count(lobby.players, L.Merc) && spyCount == L.Count(lobby.players, L.Spy)
    {
      hide Client.Valid;
      mercCount, spyCount := 0, 0;
      ghost var ps := lobby.players;
      for i := 0 to |clients|
        invariant mercCount == L.Count(ps[..i], L.Merc) && spyCount == L.Count(ps[..i], L.Spy)
      {
        assert ps[..i + 1][..i] == ps[..i] && clients[i].View() == ps[i];
        if clients[i].team == L.Spy {
          spyCount := spyCount + 1;
        } else if clients[i].team == L.Merc {
          mercCount := mercCount + 1;
        }
      }
      assert ps[..|clients|] == ps;
    }

    method GetTeamForNextPlayer() returns (team: L.Team)
      requires Coupled(clients, lobby.players)
      ensures team == L.TeamForNextPlayer(lobby.players)
    {
      var m, s := TeamCounts();
      if m > s {
        return L.Spy;
      } else {
        return L.Merc;
      }
    }

    /** The counter is a 32-bit unsigned integer. */
    method GetNextPlayerID() returns (id: nat)
      modifies this`nextPlayerId
      ensures id == old(nextPlayerId) && nextPlayerId == (id + 1) % DWORD
    {
      id := nextPlayerId;
      nextPlayerId := (nextPlayerId + 1) % DWORD;
    }

    predicate IsServerFull()
      reads this`clients
    {
      |clients| >= L.MAX_PLAYERS
    }

    /** Announces a new player to the others and adds it. */
    method AddPlayer(client: Client, ghost ticket: nat) returns (ghost vs: seq<bool>)
      requires Coupled(clients, lobby.players) && client !in clients && client.Valid()
      requires client.View() == L.Player(ticket, client.team, [], 0, {})
      modifies this`clients, this`visits, clients, client`seen
      ensures |vs| == |lobby.players|
      ensures var told := L.Sweep(lobby.players, vs, L.Post(L.Join(ticket, client.team)));
              Coupled(clients, told + [L.Player(ticket, client.team, [], 0, L.Ids(told))])
      ensures |vs| == |old(clients)| && clients == Kept(old(clients), vs) + [client]
      ensures forall j | 0 <= j < |vs| :: vs[j] <==> old(clients)[j].line.open
    {
      assert client.playerID == ticket % DWORD;
      hide L.Sweep, Turned, Kept, Bytes, Client.Valid, Coupled;
      vs := Broadcast(TCP, PlayerDidJoin(client.playerID, TeamCode(client.team)), L.Join(ticket, client.team),
          lobby.players);
      Enlist(client, L.Sweep(lobby.players, vs, L.Post(L.Join(ticket, client.team))));
    }

    /** Puts a player who has seen the others at the end. */
    method Enlist(client: Client, ghost told: seq<L.Player>)
      requires Coupled(clients, told) && client !in clients && client.Valid()
      modifies this`clients, client`seen
      ensures Coupled(clients, told + [old(client.View()).(seen := L.Ids(told))]) && clients == old(clients) + [client]
    {
      hide Client.Valid, L.Ids, Coupled;
      client.seen := L.Ids(told);
      CoupledAdd(clients, client, told);
      clients := clients + [client];
    }

    /** Answers a join request, and adds the player unless the answer could not be sent. */
    method Answer(client: Client) returns (written: seq<byte>, ghost e: L.Event)
      requires Coupled(clients, lobby.players) && client !in clients && client.IsNew() &&
          |lobby.players| < L.MAX_PLAYERS
      requires client.View() == L.Player(lobby.issued + 1, L.TeamForNextPlayer(lobby.players), [], 0, {})
      modifies this`clients, this`visits, clients, client`seen, client`handed
      ensures L.Possible(lobby, e) && Coupled(clients, L.Step(lobby, e).players) &&
          L.Step(lobby, e).issued == lobby.issued + 1
      ensures e.NewConnection? && e.c.asksToJoin && e.c.answerSent == client.line.tcpSends
      ensures written == Encode(client.JoinAnswer())
      ensures Joined(old(clients), e, client)
    {
      hide L.Sweep, L.Step, L.Possible, L.Ids, L.TeamForNextPlayer, Client.Valid, Encode, Kept, Bytes;
      assert client.team == L.TeamForNextPlayer(lobby.players);
      hide Coupled;
      CoupledSize(clients, lobby.players);
      var answered;
      answered, written := client.SendJoinResponsePacket();
      if !answered {
        L.RefusedStep(lobby);
        e := L.NewConnection(L.Connection(true, false, []));
        return;
      }
      ghost var vs := AddPlayer(client, lobby.issued + 1);
      L.JoinStep(lobby, vs);
      e := L.NewConnection(L.Connection(true, true, vs));
    }

    /** The new player gets the next id and the smaller team. */
    method NewClient(udpPort: nat, sends: bool) returns (client: Client)
      requires Coupled(clients, lobby.players) && nextPlayerId == (lobby.issued + 1) % DWORD
      modifies this`nextPlayerId
      ensures nextPlayerId == (lobby.issued + 2) % DWORD
      ensures fresh(client) && client.IsNew() && client.udpPort == udpPort && client.line.tcpSends == sends
      ensures client.playerID == client.ticket % DWORD
      ensures client.ticket == lobby.issued + 1 && client.team == L.TeamForNextPlayer(lobby.players)
      ensures client.View() == L.Player(lobby.issued + 1, L.TeamForNextPlayer(lobby.players), [], 0, {})
    {
      hide L.TeamForNextPlayer, Coupled, Bytes;
      NextId(lobby.issued + 1);
      var id := GetNextPlayerID();
      var team := GetTeamForNextPlayer();
      client := new Client(id, team, udpPort, sends, lobby.issued + 1);
    }

    /** Takes note of an event that has changed the clients as a step of the lobby does. */
    ghost method Record(e: L.Event)
      requires L.PossibleRun(L.EMPTY, events) && lobby == L.Run(L.EMPTY, events) && L.Possible(lobby, e)
      requires Coupled(clients, L.Step(lobby, e).players) && nextPlayerId == (L.Step(lobby, e).issued + 1) % DWORD
      modifies this`lobby, this`events
      ensures Valid() && lobby == L.Step(old(lobby), e) && events == old(events) + [e]
    {
      hide L.PossibleRun, L.Run, L.Possible, L.Step, Coupled;
      L.RunAppend(L.EMPTY, events, e);
      lobby := L.Step(lobby, e);
      events := events + [e];
    }

    /** A connection whose answer was sent adds the client behind those that are still connected. */
    ghost predicate Joined(were: seq<Client>, e: L.Event, client: Client)
      reads this`clients, were`line
    {
      && e.NewConnection?
      && if e.c.answerSent
         then |e.c.reached| == |were| && clients == Kept(were, e.c.reached) + [client]
              && forall j | 0 <= j < |were| :: e.c.reached[j] <==> were[j].line.open
         else clients == were
    }

    /** Handles a join request. */
    method Admit(udpPort: nat, sends: bool) returns (written: seq<byte>, ghost e: L.Event, ghost client: Client)
      requires Valid() && |lobby.players| < L.MAX_PLAYERS
      modifies this`clients, this`visits, this`nextPlayerId, this`lobby, this`events, clients
      ensures Valid() && L.Possible(old(lobby), e) && lobby == L.Step(old(lobby), e) && events == old(events) + [e]
      ensures e.NewConnection? && e.c.asksToJoin && e.c.answerSent == sends && Joined(old(clients), e, client)
      ensures fresh(client) && client.ticket == old(lobby).issued + 1 && client.udpPort == udpPort
      ensures forall socket | AsksToJoin(socket) :: written == Reply(old(lobby), socket)
    {
      hide L.Sweep, Coupled, Client.View, Client.Valid, Client.IsNew, L.Step, L.Possible, L.PossibleRun, L.Run;
      hide L.TeamForNextPlayer;
      var newcomer := NewClient(udpPort, sends);
      newcomer.AnswerIsReply(lobby);
      written, e := Answer(newcomer);
      Record(e);
      client := newcomer;
    }

    /** Reads the first packet of a new connection and makes it a player when it asks to join. */
    method AcceptNewClient(socket: Socket) returns (written: seq<byte>, ghost e: L.Event)
      requires Valid() && !IsServerFull()
      modifies this`clients, this`visits, this`nextPlayerId, this`lobby, this`events, clients
      ensures Valid() && L.Possible(old(lobby), e) && lobby == L.Step(old(lobby), e) && events == old(events) + [e]
      ensures Answers(old(lobby), socket, e) && written == Reply(old(lobby), socket)
      ensures if e.c.answerSent
              then clients != [] && var c := clients[|clients| - 1];
                   && fresh(c) && c.ticket == old(lobby).issued + 1 && c.udpPort == socket.packet.value.port
                   && Joined(old(clients), e, c)
              else clients == old(clients)
    {
      hide L.PossibleRun, L.Run, L.Possible, L.Step, L.Count, Encode, Kept;
      CoupledSize(clients, lobby.players);
      hide Coupled;
      if socket.hasActivity && socket.packet.Some? && socket.packet.value.JoinRequest? {
        ghost var client;
        written, e, client := Admit(socket.packet.value.port, socket.sends);
      } else {
        L.RefusedStep(lobby);
        written, e := [], L.NewConnection(L.Connection(false, false, []));
        Record(e);
      }
    }

    /** Accepts, or turns away, every pending connection in turn; returns what it writes to each socket. */
    method HandleNewTCPConnections() returns (written: seq<seq<byte>>, ghost es: seq<L.Event>)
      requires Valid()
      modifies this`clients, this`visits, this`nextPlayerId, this`lobby, this`events, this`newConnections, clients
      ensures Valid() && newConnections == [] && events == old(events) + es
      ensures L.PossibleRun(old(lobby), es) && lobby == L.Run(old(lobby), es) && |written| == |old(newConnections)|
      ensures if protoPhase.PROTO_LOBBY? then Served(old(lobby), old(newConnections), es, written)
              else es == [] && clients == old(clients) && forall w | w in written ::
                  w == Encode(JoinResponse(false, 0, 0))
      ensures forall i | 0 <= i < |clients| :: clients[i] in old(clients) || fresh(clients[i])
    {
      hide Valid, L.Run, L.PossibleRun, L.Step, L.Possible, Served, Answers, Reply, Encode;
      ghost var sockets := newConnections;
      written, es := [], [];
      L.RunNone(lobby);
      NothingServed(lobby);
      while newConnections != []
        invariant Valid() && forall i | 0 <= i < |clients| :: clients[i] in old(clients) || fresh(clients[i])
        invariant L.PossibleRun(old(lobby), es) && lobby == L.Run(old(lobby), es) && events == old(events) + es
        invariant |newConnections| <= |sockets| && newConnections == sockets[|sockets| - |newConnections|..]
        invariant |written| == |sockets| - |newConnections|
        invariant if protoPhase.PROTO_LOBBY? then Served(old(lobby), sockets[..|written|], es, written)
                  else es == [] && clients == old(clients) && forall w | w in written :: w == Encode(REFUSAL)
        decreases |newConnections|
      {
        ghost var n := |written|;
        var socket := newConnections[0];
        newConnections := newConnections[1..];
        var reply, e := HandleConnection(socket);
        written := written + [reply];
        if protoPhase == PROTO_LOBBY {
          ServedAppend(old(lobby), sockets[..n], es, written[..n], socket, e, reply);
          L.RunAppend(old(lobby), es, e);
          assert sockets[..n + 1] == sockets[..n] + [socket] && written[..n] + [reply] == written;
          es := es + [e];
        }
      }
      assert sockets[..|sockets|] == sockets;
    }

    /** Accepts one connection, or turns it away; the event is none of the lobby's outside the lobby phase. */
    method HandleConnection(socket: Socket) returns (written: seq<byte>, ghost e: L.Event)
      requires Valid()
      modifies this`clients, this`visits, this`nextPlayerId, this`lobby, this`events, clients
      ensures Valid()
      ensures if protoPhase.PROTO_LOBBY?
              then L.Possible(old(lobby), e) && lobby == L.Step(old(lobby), e) && events == old(events) + [e]
                   && Answers(old(lobby), socket, e) && written == Reply(old(lobby), socket)
              else lobby == old(lobby) && events == old(events) && clients == old(clients) && written == Encode(REFUSAL)
      ensures forall i | 0 <= i < |clients| :: clients[i] in old(clients) || fresh(clients[i])
    {
      hide L.Run, L.PossibleRun, L.Step, L.Possible, Encode;
      CoupledSize(clients, lobby.players);
      hide Coupled;
      if protoPhase == PROTO_LOBBY && !IsServerFull() {
        ghost var were := clients;
        written, e := AcceptNewClient(socket);
        if e.c.answerSent {
          KeptSize(were, e.c.reached);
        }
      } else {
        written := Encode(REFUSAL);
        e := L.NewConnection(L.Connection(AsksToJoin(socket), false, []));
        if protoPhase == PROTO_LOBBY {
          L.FullStep(lobby, e);
          Record(e);
        }
      }
    }

    /** One round of the server loop: without a phase, the shutdown is announced and the loop ends. Returns what
        the new connections were given. */
    method ServerRound() returns (running: bool, written: seq<seq<byte>>, ghost es: seq<L.Event>)
      requires Valid()
      modifies this`clients, this`visits, this`nextPlayerId, this`lobby, this`events, this`newConnections, clients
      ensures Valid() && running == !protoPhase.PROTO_NONE? && events == old(events) + es && es != []
      ensures if running then es[|es| - 1].FlushQueues? && newConnections == []
              else |es| == 1 && es[0].AnnounceShutdown? && newConnections == old(newConnections)
      ensures protoPhase.PROTO_LOBBY? ==> Served(old(lobby), old(newConnections), es[..|es| - 1], written)
      ensures running && !protoPhase.PROTO_LOBBY? ==>
                |es| == 1 && |written| == |old(newConnections)|
                && forall w | w in written :: w == Encode(JoinResponse(false, 0, 0))
    {
      hide Valid, L.Run, L.PossibleRun, L.Step, L.Possible, Served;
      written, es := [], [];
      ghost var e;
      if protoPhase == PROTO_NONE {
        e := AnnounceShutdown();
      } else {
        written, es := HandleNewTCPConnections();
        e := Flush();
      }
      running := protoPhase != PROTO_NONE;
      es := es + [e];
    }

    method AnnounceShutdown() returns (ghost e: L.Event)
      requires Valid()
      modifies this`clients, this`visits, this`lobby, this`events, clients
      ensures Valid() && events == old(events) + [e] && e.AnnounceShutdown?
      ensures |e.vs| == |old(clients)| && clients == Kept(old(clients), e.vs)
      ensures forall j | 0 <= j < |e.vs| :: e.vs[j] <==> old(clients)[j].line.open
      ensures forall c | c in clients :: c in old(clients)
    {
      hide L.PossibleRun, L.Run, L.Step, L.Possible, L.Sweep, Coupled, Kept, Turned;
      ghost var vs := Broadcast(TCP, ServerShutdown, L.Shutdown, lobby.players);
      e := L.AnnounceShutdown(vs);
      L.PassStep(lobby, vs);
      Record(e);
    }

    method Flush() returns (ghost e: L.Event)
      requires Valid()
      modifies this`clients, this`visits, this`lobby, this`events, clients
      ensures Valid() && events == old(events) + [e] && e.FlushQueues?
      ensures forall c | c in clients :: c in old(clients)
    {
      hide L.PossibleRun, L.Run, L.Step, L.Possible, L.Sweep, L.Leaves, Coupled, Kept, Turned, Verdict, Quiet, Bytes;
      ghost var vs := FlushClientPacketQueues(lobby.players);
      e := L.FlushQueues(vs);
      L.PassStep(lobby, vs);
      Record(e);
    }
  }

  /** The event of a connection says whether it asked to join, and whether it was sent an answer. */
  ghost predicate Answers(l: L.Lobby, socket: Socket, e: L.Event) {
    && e.NewConnection? && e.c.asksToJoin == AsksToJoin(socket)
    && (e.c.answerSent <==> |l.players| < 4 && AsksToJoin(socket) && socket.sends)
  }

  /** From the lobby l on, each socket in turn has its event and the reply that is due to it. */
  ghost predicate Served(l: L.Lobby, sockets: seq<Socket>, es: seq<L.Event>, written: seq<seq<byte>>)
    decreases |es|
  {
    && |es| == |sockets| == |written|
    && (es != [] ==>
          && Answers(l, sockets[0], es[0]) && written[0] == Reply(l, sockets[0])
          && L.Possible(l, es[0]) && Served(L.Step(l, es[0]), sockets[1..], es[1..], written[1..]))
  }

  lemma {:induction false} ServedAppend(l: L.Lobby, sockets: seq<Socket>, es: seq<L.Event>, written: seq<seq<byte>>,
                                        socket: Socket, e: L.Event, w: seq<byte>)
    requires L.PossibleRun(l, es) && L.Possible(L.Run(l, es), e) && Served(l, sockets, es, written)
    requires Answers(L.Run(l, es), socket, e) && w == Reply(L.Run(l, es), socket)
    ensures Served(l, sockets + [socket], es + [e], written + [w])
    decreases |es|
  {
    hide Answers, Reply, L.Possible, L.Step;
    var ss, all, ws := sockets + [socket], es + [e], written + [w];
    if es == [] {
      assert ss[1..] == [] && all[1..] == [] && ws[1..] == [];
    } else {
      ServedAppend(L.Step(l, es[0]), sockets[1..], es[1..], written[1..], socket, e, w);
      assert ss[1..] == sockets[1..] + [socket] && all[1..] == es[1..] + [e] && ws[1..] == written[1..] + [w];
    }
  }

  lemma NothingServed(l: L.Lobby)
    ensures Served(l, [], [], [])
  {
  }

  lemma PostIsNoFlush(proto: TLProtocol, note: L.Msg)
    ensures !PostBy(proto, note).Flush?
  {
  }

  /** One more verdict does not change who was quiet at the earlier turns. */
  lemma QuietKnown(ps: seq<L.Player>, vs: seq<bool>, v: bool)
    requires |vs| < |ps|
    ensures forall j | 0 <= j <= |vs| :: Quiet(ps, vs + [v], j) == Quiet(ps, vs, j)
  {
    L.LeavesKnown(ps, vs, v);
  }

  /** At its turn a player's TCP queue is empty iff it is quiet. */
  lemma TurnPlayer(ps: seq<L.Player>, vs: seq<bool>)
    requires |vs| < |ps|
    ensures var r, i := L.Sweep(ps, vs, L.Flush), L.Rank(vs, |vs|);
            i < |r| && (r[i].flushed == |r[i].stream| <==> Quiet(ps, vs, |vs|))
  {
    L.SweepSurvivor(ps, vs, L.Flush, |vs|);
  }

  /** The 32-bit counter follows the unbounded one. */
  lemma NextId(n: nat)
    ensures (n % DWORD + 1) % DWORD == (n + 1) % DWORD
  {
  }

  lemma CoupledAdd(cs: seq<Client>, client: Client, ps: seq<L.Player>)
    requires Coupled(cs, ps) && client.Valid() && client !in cs
    ensures Coupled(cs + [client], ps + [client.View()])
  {
  }

  /** The visits so far, and then one for each verdict on the first |vs| clients. */
  ghost function Turned(before: seq<(Client, bool)>, cs: seq<Client>, vs: seq<bool>): seq<(Client, bool)>
    requires |vs| <= |cs|
  {
    before + seq(|vs|, i requires 0 <= i < |vs| => (cs[i], vs[i]))
  }

  lemma TurnedNext(before: seq<(Client, bool)>, cs: seq<Client>, vs: seq<bool>, v: bool)
    requires |vs| < |cs|
    ensures Turned(before, cs, vs + [v]) == Turned(before, cs, vs) + [(cs[|vs|], v)]
  {
  }

  /** Everyone but the client at k, if there is one, has been told that a player leaves. */
  ghost predicate Told(cs: seq<Client>, ps: seq<L.Player>, k: nat, ticket: nat)
    reads cs`tcpPktQueue, cs`stream, cs`flushed, cs`handed, cs`seen
  {
    && |cs| == |ps| && (forall i, j | 0 <= i < j < |cs| :: cs[i] != cs[j])
    && (forall i | 0 <= i < |cs| :: cs[i].Valid()
          && cs[i].View() == if i == k then ps[i] else ps[i].Push(L.Leave(ticket)))
  }

  lemma CoupledTold(cs: seq<Client>, k: nat, ps: seq<L.Player>, ticket: nat)
    requires Told(cs, ps, k, ticket) && k >= |cs|
    ensures Coupled(cs, L.Tell(ps, ticket))
  {
  }

  lemma CoupledErase(cs: seq<Client>, k: nat, ps: seq<L.Player>, ticket: nat)
    requires Told(cs, ps, k, ticket) && k < |cs| && cs[k].ticket == ticket
    ensures |cs| == |ps| && Coupled(Drop(cs, k), L.Kick(ps, k))
  {
    hide Client.Valid, Client.View, L.Kick, Drop, Told, Distinct, Coupled;
    ToldDistinct(cs, k, ps, ticket);
    DropDistinct(cs, k);
    var rest := Drop(cs, k);
    forall j | 0 <= j < |rest| ensures rest[j].Valid() && rest[j].View() == L.Kick(ps, k)[j] {
      StaysCoupled(cs, k, ps, ticket, if j < k then j else j + 1);
    }
    CoupledIs(rest, L.Kick(ps, k));
  }

  lemma CoupledIs(cs: seq<Client>, ps: seq<L.Player>)
    requires |cs| == |ps| && Distinct(cs) && forall i | 0 <= i < |cs| :: cs[i].Valid() && cs[i].View() == ps[i]
    ensures Coupled(cs, ps)
  {
    hide Client.Valid, Client.View;
  }

  lemma ToldDistinct(cs: seq<Client>, k: nat, ps: seq<L.Player>, ticket: nat)
    requires Told(cs, ps, k, ticket)
    ensures |cs| == |ps| && Distinct(cs)
  {
    hide Client.Valid, Client.View;
  }

  /** Whoever is told stands for the player that was told. */
  lemma StaysCoupled(cs: seq<Client>, k: nat, ps: seq<L.Player>, ticket: nat, i: nat)
    requires Told(cs, ps, k, ticket) && k < |cs| && cs[k].ticket == ticket && i < |cs| && i != k
    ensures var j := if i < k then i else i - 1;
            && |cs| == |ps| && Drop(cs, k)[j] == cs[i]
            && cs[i].Valid() && cs[i].View() == L.Kick(ps, k)[j]
  {
    hide Client.Valid, Client.View, L.Kick, Drop, Told;
    ToldAt(cs, k, ps, ticket, i);
    ToldAt(cs, k, ps, ticket, k);
    cs[k].ViewQueue(ps[k]);
    DropAt(cs, k);
    L.KickAt(ps, k, i);
  }

  lemma ToldAt(cs: seq<Client>, k: nat, ps: seq<L.Player>, ticket: nat, i: nat)
    requires Told(cs, ps, k, ticket) && i < |cs|
    ensures |cs| == |ps| && cs[i].Valid()
    ensures cs[i].View() == if i == k then ps[i] else ps[i].Push(L.Leave(ticket))
  {
  }

  lemma CoupledSize(cs: seq<Client>, ps: seq<L.Player>)
    requires Coupled(cs, ps)
    ensures |cs| == |ps| && forall i | 0 <= i < |cs| :: cs[i].playerID == cs[i].ticket % DWORD
  {
  }

  function PostBy(proto: TLProtocol, note: L.Msg): L.Action {
    if proto.TCP? then L.Post(note) else L.Skip
  }

  /** The elements that passed, in order. */
  function Kept<T>(s: seq<T>, vs: seq<bool>): seq<T>
    requires |vs| <= |s|
    decreases |vs|
  {
    if vs == [] then []
    else Kept(s, vs[..|vs| - 1]) + if vs[|vs| - 1] then [s[|vs| - 1]] else []
  }

  lemma {:induction false} KeptAt<T>(s: seq<T>, vs: seq<bool>, j: nat)
    requires j < |vs| <= |s| && vs[j]
    ensures L.Rank(vs, j) < |Kept(s, vs)| && Kept(s, vs)[L.Rank(vs, j)] == s[j]
    decreases |vs|
  {
    var n := |vs| - 1;
    L.RankPrefix(vs, n, j);
    KeptSize(s, vs[..n]);
    if j >= n {
    } else {
      KeptAt(s, vs[..n], j);
    }
  }

  lemma {:induction false} KeptSize<T>(s: seq<T>, vs: seq<bool>)
    requires |vs| <= |s|
    ensures |Kept(s, vs)| == L.Rank(vs, |vs|) && forall c | c in Kept(s, vs) :: c in s
    decreases |vs|
  {
    if vs == [] {
    } else {
      var n := |vs| - 1;
      KeptSize(s, vs[..n]);
      L.RankPrefix(vs, n, n);
    }
  }

  /** Of the clients at the start, those that passed are before index i, and those that still
      await their turn are from index i on. */
  ghost predicate Remaining(cs: seq<Client>, i: nat, all: seq<Client>, vs: seq<bool>)
    requires |vs| <= |all|
  {
    && (forall j, k | 0 <= j < k < |all| :: all[j] != all[k])
    && i == |Kept(all, vs)| && cs == Kept(all, vs) + all[|vs|..]
  }

  lemma RemainingStart(all: seq<Client>, ps: seq<L.Player>)
    requires Coupled(all, ps)
    ensures |all| == |ps| && Remaining(all, 0, all, [])
    ensures forall before: seq<(Client, bool)> :: Turned(before, all, []) == before
  {
  }

  lemma RemainingEnd(cs: seq<Client>, i: nat, all: seq<Client>, vs: seq<bool>)
    requires |vs| <= |all| && Remaining(cs, i, all, vs) && i >= |cs|
    ensures |vs| == |all| && cs == Kept(all, vs) && forall c | c in cs :: c in all
  {
    KeptSize(all, vs);
  }

  lemma RemainingNext(cs: seq<Client>, i: nat, all: seq<Client>, vs: seq<bool>)
    requires |vs| <= |all| && Remaining(cs, i, all, vs) && i < |cs|
    ensures |vs| < |all| && cs[i] == all[|vs|] && forall c | c in cs :: c in all
    ensures Remaining(cs, i + 1, all, vs + [true])
    ensures Remaining(Drop(cs, i), i, all, vs + [false])
  {
    var kept, n := Kept(all, vs), |vs|;
    KeptSize(all, vs);
    assert (vs + [true])[..n] == vs && (vs + [false])[..n] == vs;
    assert cs == kept + [all[n]] + all[n + 1..];
    assert Drop(cs, i) == kept + all[n + 1..];
  }
}
