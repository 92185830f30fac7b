/** The server of Server/Server.cpp and Server/Server.h: its registry of clients, its games and its send queue. */
module Server {
  import opened Bytes
  import opened Wire
  import opened Datagrams
  import opened UdpBuffers
  import opened Packages
  import opened Observers
  import opened Players
  import opened RegistryRules
  import opened GameRules
  import opened Game
  import opened Variants

  /** The sets of Server/Server.h: clients by address, the players with and without a name, and the names taken. */
  class ClientRegistry {
    var connectedClients: map<Address, ClientData>
    var connectedPlayers: set<Player>
    var connectedUnnames: set<Player>
    var playerNames: set<Name>

    ghost function Owned(): set<Player>
      reads this`connectedClients
    {
      PlayersOf(connectedClients)
    }

    /** Every client owns one connected player, which is in exactly one of the two sets; they hold no others. */
    ghost predicate Valid()
      reads this`connectedClients, this`connectedPlayers, this`connectedUnnames
      reads Owned()`connected, Owned()`client
    {
      && Linked(connectedClients)
      && connectedPlayers == NamedAmong(Owned()) && connectedUnnames == UnnamedAmong(Owned())
    }

    ghost function View(): Registry
      reads this`connectedClients, this`playerNames
      reads connectedClients.Values`lastHeartbeatRoundNo, Owned()`turnDirection, Owned()`ready
    {
      Registry(ViewsOf(connectedClients), playerNames)
    }

    constructor ()
      ensures Valid() && View() == NOBODY
    {
      connectedClients, connectedPlayers, connectedUnnames, playerNames := map[], {}, {}, {};
    }

    /** std::set::find and insert compare the addresses of the players' clients, so each must have one. */
    method FindPlayer(players: set<Player>, a: Address) returns (found: Player?)
      requires forall p <- players :: p.client != null
      ensures found != null ==> found in players && found.client.address == a
      ensures found == null ==> forall p <- players :: p.client.address != a
    {
      var rest := players;
      while rest != {}
        invariant rest <= players
        invariant forall p <- players - rest :: p.client.address != a
        decreases rest
      {
        var p :| p in rest;
        if p.client.address == a {
          return p;
        }
        rest := rest - {p};
      }
      found := null;
    }

    /** An equal element already there is kept. */
    method InsertPlayer(players: set<Player>, p: Player) returns (r: set<Player>)
      requires p.client != null && forall q <- players :: q.client != null
      ensures r == if exists q <- players :: q.client.address == p.client.address then players else players + {p}
    {
      var q := FindPlayer(players, p.client.address);
      r := if q == null then players + {p} else players;
    }

    /** The branch of connect_client on whether the player is an observer. */
    method Enlist(player: Player)
      requires player.client != null
      requires forall p <- connectedPlayers + connectedUnnames :: p.client != null
      requires forall p <- connectedPlayers + connectedUnnames :: p.client.address != player.client.address
      modifies this`connectedPlayers, this`connectedUnnames, this`playerNames
      ensures connectedPlayers == old(connectedPlayers) + NamedAmong({player})
      ensures connectedUnnames == old(connectedUnnames) + UnnamedAmong({player})
      ensures playerNames == old(playerNames) + Named(player.playerName)
    {
      if player.IsObserver() {
        connectedUnnames := InsertPlayer(connectedUnnames, player);
      } else {
        connectedPlayers := InsertPlayer(connectedPlayers, player);
        playerNames := playerNames + {player.playerName};
      }
    }

    method ConnectClient(addr: Address, h: Heartbeat, roundNo: nat) returns (player: Player)
      requires Valid() && addr !in connectedClients
      modifies this`connectedClients, this`connectedPlayers, this`connectedUnnames, this`playerNames
      ensures Valid() && fresh(player) && Reachable(player) && fresh(player.client) && AddressOf(player) == addr
      ensures player.playerName == h.name && connectedClients == old(connectedClients)[addr := player.client]
      ensures Owned() == old(Owned()) + {player}
      ensures View() == Connected(old(View()), addr, Newcomer(h, roundNo))
    {
      ghost var r := View();
      player := new Player(h.name, h.direction);
      var client := new ClientData(addr, h.session, roundNo, player);
      player.AttachToClient(client);
      assert View() == r && ViewOf(client) == Newcomer(h, roundNo);
      Register(addr, client);
      assert View() == Connected(r, addr, Newcomer(h, roundNo));
    }

    /** The client goes into the set of clients and its player into one of the others. */
    method Register(addr: Address, client: ClientData)
      requires Valid() && addr !in connectedClients
      requires client.address == addr && client.player.connected && client.player.client == client
      modifies this`connectedClients, this`connectedPlayers, this`connectedUnnames, this`playerNames
      ensures Valid() && connectedClients == old(connectedClients)[addr := client]
      ensures Owned() == old(Owned()) + {client.player}
      ensures View() == Connected(old(View()), addr, ViewOf(client))
    {
      ghost var views, view, more := ViewsOf(connectedClients), ViewOf(client), connectedClients[addr := client];
      PlayersOfMore(connectedClients, addr, client);
      LinkedMore(connectedClients, addr, client);
      ViewsOfMore(connectedClients, addr, client);
      AmongMore(Owned(), client.player);
      Enlist(client.player);
      assert ViewsOf(more) == views[addr := view];
      connectedClients := connectedClients[addr := client];
    }

    /** The branch of disconnect_client on whether the player is an observer. */
    method Delist(player: Player)
      requires player in NamedAmong(connectedPlayers) + UnnamedAmong(connectedUnnames)
      requires player.connected && player.client != null
      requires forall p <- connectedPlayers + connectedUnnames :: p.client != null
      requires forall p <- connectedPlayers + connectedUnnames ::
                 p.client.address == player.client.address ==> p == player
      modifies this`connectedPlayers, this`connectedUnnames, this`playerNames, player`connected, player`client
      ensures connectedPlayers == old(connectedPlayers) - NamedAmong({player})
      ensures connectedUnnames == old(connectedUnnames) - UnnamedAmong({player})
      ensures playerNames == old(playerNames) - Named(player.playerName)
      ensures !player.connected
    {
      if player.IsObserver() {
        var it := FindPlayer(connectedUnnames, player.client.address);
        connectedUnnames := connectedUnnames - {it};
        it.Disconnect();
      } else {
        playerNames := playerNames - {player.playerName};
        var it := FindPlayer(connectedPlayers, player.client.address);
        connectedPlayers := connectedPlayers - {it};
        it.Disconnect();
      }
    }

    method DisconnectClient(addr: Address)
      requires Valid() && addr in connectedClients
      modifies this`connectedClients, this`connectedPlayers, this`connectedUnnames, this`playerNames
      modifies connectedClients[addr].player`connected, connectedClients[addr].player`client
      ensures Valid() && connectedClients == old(connectedClients) - {addr}
      ensures Owned() == old(Owned()) - {old(connectedClients[addr].player)}
      ensures !old(connectedClients[addr].player).connected
      ensures View() == Disconnected(old(View()), addr)
    {
      var client := connectedClients[addr];
      ghost var views := ViewsOf(connectedClients);
      AllUnique(connectedClients, addr);
      PlayersOfFewer(connectedClients, addr);
      ViewsOfFewer(connectedClients, addr);
      AmongFewer(Owned(), client.player);
      Delist(client.player);
      assert ViewsOf(connectedClients - {addr}) == views - {addr};
      connectedClients := connectedClients - {addr};
    }

    /** A known client's heartbeat: the round is noted, and the direction. */
    method Touch(addr: Address, roundNo: nat)
      requires Valid() && addr in connectedClients
      modifies {connectedClients[addr]}`lastHeartbeatRoundNo
      ensures Valid() && addr in old(View()).clients
      ensures View() == Replaced(old(View()), addr, old(View()).clients[addr].(last := roundNo))
    {
      var client := connectedClients[addr];
      ghost var views := ViewsOf(connectedClients);
      assert Apart(connectedClients, addr);
      client.HeartHasBeaten(roundNo);
      assert ViewsOf(connectedClients) == views[addr := ViewOf(client)];
    }

    method Turn(addr: Address, direction: byte)
      requires Valid() && addr in connectedClients
      modifies connectedClients[addr].player`turnDirection
      ensures Valid() && addr in old(View()).clients
      ensures View() == Replaced(old(View()), addr, old(View()).clients[addr].(direction := direction))
    {
      var client := connectedClients[addr];
      ghost var views := ViewsOf(connectedClients);
      assert Apart(connectedClients, addr);
      client.player.turnDirection := direction;
      assert ViewsOf(connectedClients) == views[addr := ViewOf(client)];
    }

    method Refresh(addr: Address, roundNo: nat, direction: byte)
      requires Valid() && addr in connectedClients
      modifies {connectedClients[addr]}`lastHeartbeatRoundNo, connectedClients[addr].player`turnDirection
      ensures Valid() && addr in old(View()).clients
      ensures View() == Replaced(old(View()), addr, old(View()).clients[addr].(last := roundNo, direction := direction))
    {
      ghost var r := View();
      Touch(addr, roundNo);
      Turn(addr, direction);
      ReplacedTwice(r, addr, r.clients[addr].(last := roundNo), View().clients[addr]);
    }

    method GotReady(addr: Address)
      requires Valid() && addr in connectedClients
      modifies connectedClients[addr].player`ready
      ensures Valid() && addr in old(View()).clients
      ensures View() == Replaced(old(View()), addr, old(View()).clients[addr].(ready := true))
    {
      var client := connectedClients[addr];
      ghost var views := ViewsOf(connectedClients);
      assert Apart(connectedClients, addr);
      client.player.GotReady();
      assert ViewsOf(connectedClients) == views[addr := ViewOf(client)];
    }

    /** At least two players, and all of them ready. */
    predicate CanStart()
      reads this, connectedPlayers`ready
    {
      |connectedPlayers| >= 2 && forall p <- connectedPlayers :: p.ready
    }

    /** It is the same seen from the clients. */
    lemma CanStartView()
      requires Valid()
      ensures CanStart() <==> CanBegin(View())
    {
      var named := RegistryRules.Players(View());
      NamedPlayers(connectedClients, named);
      assert connectedPlayers == set a <- named :: connectedClients[a].player;
    }

    /** The first loop of disconnect_idles. */
    method FindIdles(roundNo: nat, duration: nat) returns (toDisconnect: seq<Address>)
      requires Valid()
      ensures ToSet(toDisconnect) == Idlers(View(), roundNo, duration)
      ensures Distinct(toDisconnect)
    {
      toDisconnect := [];
      var rest := connectedClients.Keys;
      while rest != {}
        invariant rest <= connectedClients.Keys
        invariant ToSet(toDisconnect)
                  == set a <- View().clients | a !in rest && Idle(View().clients[a], roundNo, duration)
        invariant Distinct(toDisconnect)
        decreases rest
      {
        var a :| a in rest;
        rest := rest - {a};
        var c := connectedClients[a];
        assert View().clients[a] == ViewOf(c);
        if (roundNo - c.lastHeartbeatRoundNo) * duration >= DISCONNECT_THRESHOLD {
          assert a !in ToSet(toDisconnect);
          ToSetMore(toDisconnect, a);
          toDisconnect := toDisconnect + [a];
        }
      }
    }

    method DisconnectIdles(roundNo: nat, duration: nat)
      requires Valid()
      modifies this`connectedClients, this`connectedPlayers, this`connectedUnnames, this`playerNames
      modifies Owned()`connected, Owned()`client
      ensures Valid() && View() == Swept(old(View()), Idlers(old(View()), roundNo, duration))
      ensures Owned() <= old(Owned()) && forall p <- old(Owned()) :: p.connected ==> p in Owned()
      ensures forall p <- Owned() :: p.client == old(p.client)
    {
      var toDisconnect := FindIdles(roundNo, duration);
      DropAll(toDisconnect, View());
    }

    /** The second loop. */
    method DropAll(toDisconnect: seq<Address>, ghost r: Registry)
      requires Valid() && View() == r && ToSet(toDisconnect) <= r.clients.Keys && Distinct(toDisconnect)
      modifies this`connectedClients, this`connectedPlayers, this`connectedUnnames, this`playerNames
      modifies Owned()`connected, Owned()`client
      ensures Valid() && View() == Swept(r, ToSet(toDisconnect))
      ensures Owned() <= old(Owned()) && forall p <- old(Owned()) :: p.connected ==> p in Owned()
      ensures forall p <- Owned() :: p.client == old(p.client)
    {
      ghost var owned, gone := Owned(), {};
      SweptNone(r);
      for i := 0 to |toDisconnect|
        invariant Valid() && gone == ToSet(toDisconnect[..i]) <= r.clients.Keys && View() == Swept(r, gone)
        invariant Owned() <= owned
        invariant forall p <- owned :: if p in Owned() then p.client == old(p.client) else !p.connected
      {
        ToSetPrefix(toDisconnect, i);
        DropIdle(toDisconnect[i], r, gone);
        gone := gone + {toDisconnect[i]};
      }
      assert toDisconnect[..|toDisconnect|] == toDisconnect;
    }

    /** The body of the second loop. */
    method DropIdle(a: Address, ghost r: Registry, ghost gone: set<Address>)
      requires Valid() && gone <= r.clients.Keys && a in r.clients && a !in gone && View() == Swept(r, gone)
      modifies this`connectedClients, this`connectedPlayers, this`connectedUnnames, this`playerNames
      modifies Owned()`connected, Owned()`client
      ensures Valid() && View() == Swept(r, gone + {a})
      ensures Owned() <= old(Owned())
      ensures forall p <- old(Owned()) :: if p in Owned() then p.client == old(p.client) else !p.connected
    {
      SweptOne(r, gone, a);
      assert a in View().clients;
      DisconnectClient(a);
    }
  }

  /** Different clients have different players. */
  lemma {:induction false} NamedPlayers(clients: map<Address, ClientData>, some: set<Address>)
    requires Linked(clients) && some <= clients.Keys
    ensures |set a <- some :: clients[a].player| == |some|
    decreases some
  {
    if some != {} {
      var a :| a in some;
      var rest := some - {a};
      NamedPlayers(clients, rest);
      AllUnique(clients, a);
      assert (set b <- some :: clients[b].player) == (set b <- rest :: clients[b].player) + {clients[a].player};
    }
  }

  function ToSet(s: seq<Address>): set<Address> {
    set a | a in s
  }

  lemma ToSetPrefix(s: seq<Address>, i: nat)
    requires i < |s| && Distinct(s)
    ensures s[i] in ToSet(s) && s[i] !in ToSet(s[..i]) && ToSet(s[..i + 1]) == ToSet(s[..i]) + {s[i]}
  {
    assert s[..i + 1] == s[..i] + [s[i]];
    ToSetMore(s[..i], s[i]);
  }

  lemma SweptNone(r: Registry)
    ensures Swept(r, {}) == r
  {}

  lemma ToSetMore(s: seq<Address>, a: Address)
    ensures ToSet(s + [a]) == ToSet(s) + {a}
  {}

  function Replaced(r: Registry, a: Address, c: Peer): Registry {
    r.(clients := r.clients[a := c])
  }

  /** The registry after a datagram. running and runs: whether a game went on before, and does now. */
  function Heard(r: Registry, roundNo: nat, running: bool, runs: bool, sender: Address, heartbeat: Option<Heartbeat>)
    : Registry
  {
    match heartbeat
    case None => r
    case Some(h) => StartedIf(!running && runs, Beat(AsWritten, r, roundNo, running, sender, h))
  }

  /** The ways with a client that is connected. */
  lemma HeardSame(r: Registry, roundNo: nat, running: bool, runs: bool, sender: Address, h: Heartbeat)
    requires sender in r.clients && NameOk(h.name) && r.clients[sender].session == h.session
    ensures Heard(r, roundNo, running, runs, sender, Some(h))
            == StartedIf(!running && runs, Replaced(r, sender, Beaten(r.clients[sender], h, roundNo, running)))
  {}

  lemma HeardOther(r: Registry, roundNo: nat, running: bool, sender: Address, h: Heartbeat)
    requires sender in r.clients && NameOk(h.name) && r.clients[sender].session != h.session
    ensures Heard(r, roundNo, running, running, sender, Some(h))
            == if r.clients[sender].session > h.session then
                 Connected(Disconnected(r, sender), sender, Newcomer(h, roundNo))
               else r
  {}

  /** The key that makes the last one ready. */
  predicate SteerOpens(r: Registry, running: bool, a: Address, direction: byte) {
    && !running && Turns(direction) && a in r.clients
    && CanBegin(Replaced(r, a, Steered(r.clients[a], direction, running)))
  }

  lemma SteerOpensBeat(r: Registry, roundNo: nat, running: bool, a: Address, h: Heartbeat, m: Registry)
    requires a in r.clients && NameOk(h.name) && r.clients[a].session == h.session
    requires m == Replaced(r, a, r.clients[a].(last := roundNo, direction := h.direction))
    ensures SteerOpens(m, running, a, h.direction) <==> Opens(r, roundNo, running, a, h)
  {
    SteeredIsBeaten(r, a, h, roundNo, running, m);
    assert Beat(AsWritten, r, roundNo, running, a, h) == Replaced(r, a, Beaten(r.clients[a], h, roundNo, running));
  }

  lemma OpensNeeds(r: Registry, roundNo: nat, running: bool, a: Address, h: Heartbeat)
    ensures Opens(r, roundNo, running, a, h) ==>
              !running && NameOk(h.name) && a in r.clients && r.clients[a].session == h.session
  {}

  /** Whether a datagram lets a game begin. */
  predicate HeardOpens(r: Registry, roundNo: nat, running: bool, sender: Address, heartbeat: Option<Heartbeat>) {
    heartbeat.Some? && Opens(r, roundNo, running, sender, heartbeat.value)
  }

  predicate Knows(clients: map<Address, ClientData>, sender: Address, h: Heartbeat) {
    NameOk(h.name) && sender in clients && clients[sender].sessionId == h.session
  }

  lemma SteeredIsBeaten(r: Registry, a: Address, h: Heartbeat, roundNo: nat, running: bool, m: Registry)
    requires a in r.clients && m == Replaced(r, a, r.clients[a].(last := roundNo, direction := h.direction))
    ensures a in m.clients
    ensures Replaced(m, a, Steered(m.clients[a], h.direction, running))
            == Replaced(r, a, Beaten(r.clients[a], h, roundNo, running))
  {}

  lemma ReplacedSame(r: Registry, a: Address)
    requires a in r.clients
    ensures Replaced(r, a, r.clients[a]) == r
  {}

  lemma ReplacedTwice(r: Registry, a: Address, c: Peer, d: Peer)
    ensures Replaced(Replaced(r, a, c), a, d) == Replaced(r, a, d)
  {}

  // ---------- games ----------

  /** A game between rounds, not finished, with at least two players alive, whose events fit their datagrams. */
  predicate StateOk(s: State) {
    !s.finished && Between(s) && Lively(s) && Listable(NamesOf(s.worms)) && AllPackable(s.events)
  }

  predicate AllNamed(players: seq<Player>) {
    forall i :: 0 <= i < |players| ==> players[i].playerName != []
  }

  predicate NoneOf(some: seq<Player>, others: seq<Player>) {
    forall i :: 0 <= i < |some| ==> some[i] !in others
  }

  lemma StillNone(some: seq<Player>, fewer: seq<Player>, others: seq<Player>)
    requires forall x :: x in fewer ==> x in some
    ensures NoneOf(some, others) ==> NoneOf(fewer, others)
  {
    if NoneOf(some, others) {
      forall i | 0 <= i < |fewer| ensures fewer[i] !in others {
        assert fewer[i] in fewer;
        var j :| 0 <= j < |some| && some[j] == fewer[i];
      }
    }
  }

  /** Whoever plays and is connected is registered. */
  ghost predicate Tied(owned: set<Player>, players: seq<Player>)
    reads players`connected
  {
    forall i :: 0 <= i < |players| && players[i].connected ==> players[i] in owned
  }

  lemma BeginStateOk(width: uint32, height: uint32, worms: seq<Worm>, cells: seq<Cell>)
    requires Newcomers(worms) && |worms| == |cells| >= 2 && Listable(NamesOf(worms))
    ensures StateOk(Begin(AsWritten, width, height, worms, cells))
  {
    BeginPlays(AsWritten, width, height, worms, cells);
    PlacedNames(AsWritten, Opening(width, height, worms), 0, cells);
    BetweenPackable(Begin(AsWritten, width, height, worms, cells));
  }

  /** What a round makes of the game's state. */
  lemma RoundStateOk(s: State, to: seq<Cell>)
    requires StateOk(s) && |to| == |s.worms|
    ensures var t := Round(s, to);
            && |t.worms| == |s.worms| && AllPackable(t.events) && s.events <= t.events
            && (t.finished || StateOk(t))
  {
    RoundKeeps(s, to);
    RoundSizes(s, 0, to);
    TurnsNames(s, 0, to);
    BetweenPackable(Round(s, to));
  }

  function Members(s: seq<Player>): set<Player> {
    set p <- s
  }

  lemma InMembers(s: seq<Player>)
    ensures forall i :: 0 <= i < |s| ==> s[i] in Members(s)
  {}

  lemma SameMembersSame(a: seq<Player>, b: seq<Player>)
    requires SameMembers(a, b)
    ensures Members(a) == Members(b)
  {}

  /** What the socket does with what is sent: it takes so many datagrams; then the next one would block or, if it is
      broken, fails and ends the server. */
  datatype Socket = Socket(takes: nat, broken: bool)

  predicate Breaks(socket: Socket, queued: nat) {
    socket.broken && socket.takes < queued
  }

  /** The state of a game of n players just set up. cells: where the random numbers place them. */
  ghost predicate SetUpWith(s: State, width: uint32, height: uint32, n: nat, cells: nat -> Cell) {
    exists worms: seq<Worm> ::
      |worms| == n && Newcomers(worms) && s == Begin(AsWritten, width, height, worms, seq(n, cells))
  }

  lemma SetUpIs(s: State, width: uint32, height: uint32, n: nat, cells: nat -> Cell, worms: seq<Worm>)
    requires |worms| == n && Newcomers(worms) && s == Begin(AsWritten, width, height, worms, seq(n, cells))
    ensures SetUpWith(s, width, height, n, cells)
  {}

  method ListOf(players: set<Player>) returns (s: seq<Player>)
    ensures Distinct(s) && |s| == |players| && Members(s) == players
    ensures forall p <- players :: p in s
  {
    s := [];
    var rest := players;
    while rest != {}
      invariant rest <= players && Distinct(s) && |s| + |rest| == |players|
      invariant forall i :: 0 <= i < |s| ==> s[i] in players && s[i] !in rest
      invariant forall p <- players :: p in rest || p in s
      decreases rest
    {
      var p :| p in rest;
      rest := rest - {p};
      s := s + [p];
    }
  }

  class Server {
    const registry: ClientRegistry
    const width: uint32
    const height: uint32
    const roundDuration: nat
    const receiveBuff: UDPReceiveBuffer
    var roundNo: nat
    var currentGame: Game?
    var previousGame: Game?
    var sendQueue: seq<Packet>
    ghost var sent: seq<Packet>

    ghost var state: State          // of the current game
    ghost var history: seq<Event>   // of the previous game

    ghost function Current(): set<Game>
      reads this`currentGame
    {
      if currentGame == null then {} else {currentGame}
    }

    ghost function InGame(): seq<Player>
      reads this`currentGame
    {
      if currentGame == null then [] else currentGame.players
    }

    /** Nobody observes who plays or played last. */
    ghost predicate Valid()
      reads this`currentGame, this`previousGame, this`state, this`history
      reads registry`connectedClients, registry`connectedPlayers, registry`connectedUnnames
      reads registry.Owned()`connected, registry.Owned()`client
      reads Current()`events, Current()`alivePlayersNum, Current()`finished, Current()`observers
      reads Current()`nextDisseminatedEventNo
      reads if currentGame == null then {} else {currentGame.board.eaten}
      reads InGame()`alive, InGame()`position, InGame()`connected
      reads (if previousGame == null then {} else {previousGame})`events
    {
      && registry.Valid()
      && (currentGame != null ==>
            && currentGame.Valid() && currentGame.View() == state && StateOk(state)
            && currentGame.nextDisseminatedEventNo <= |state.events|
            && AllNamed(currentGame.players) && Tied(registry.Owned(), currentGame.players)
            && NoneOf(currentGame.observers, currentGame.players))
      && (previousGame != null ==>
            && previousGame != currentGame && previousGame.events == history && AllPackable(history)
            && AllNamed(previousGame.players))
      && (currentGame != null && previousGame != null ==> NoneOf(currentGame.observers, previousGame.players))
    }

    /** The options leave no number 0. */
    constructor (width: uint32, height: uint32, roundsPerSec: uint32)
      requires roundsPerSec > 0
      ensures Valid() && registry.View() == NOBODY && currentGame == null && previousGame == null
      ensures sent == sendQueue == [] && roundNo == 0 && roundDuration == 1_000_000_000 / roundsPerSec
      ensures receiveBuff.Valid() && receiveBuff.Exhausted() && fresh(receiveBuff) && fresh(receiveBuff.buff)
    {
      this.width, this.height, roundDuration := width, height, NS_IN_SEC / roundsPerSec;
      receiveBuff := new UDPReceiveBuffer();
      registry := new ClientRegistry();
      roundNo, currentGame, previousGame, sendQueue, sent := 0, null, null, [], [];
      history := [];
      state := Unopened(0, 0, []);
    }

    /** empty: nothing is left to send; broken: a send failed, which ends the server. */
    method DrainQueue(socket: Socket) returns (empty: bool, broken: bool)
      modifies this`sendQueue, this`sent
      ensures sent + sendQueue == old(sent) + old(sendQueue)
      ensures |sent| == |old(sent)| + Min(socket.takes, |old(sendQueue)|)
      ensures empty <==> sendQueue == []
      ensures broken <==> Breaks(socket, |old(sendQueue)|)
    {
      var left := socket.takes;
      while sendQueue != []
        invariant sent + sendQueue == old(sent) + old(sendQueue)
        invariant |sent| == |old(sent)| + (socket.takes - left) && 0 <= left <= socket.takes
        decreases |sendQueue|
      {
        if left == 0 {
          assert |sent| + |sendQueue| == |old(sent)| + |old(sendQueue)|;
          return false, socket.broken;
        }
        left := left - 1;
        sent := sent + [sendQueue[0]];
        sendQueue := sendQueue[1..];
      }
      assert |sent| + |sendQueue| == |old(sent)| + |old(sendQueue)|;
      empty, broken := true, false;
    }

    /** A weak pointer has expired when no set of the server and no game holds the player. */
    predicate Expired(o: Player)
      reads this`currentGame, this`previousGame, registry`connectedPlayers, registry`connectedUnnames
    {
      && o !in registry.connectedPlayers && o !in registry.connectedUnnames
      && (currentGame != null ==> o !in currentGame.players)
      && (previousGame != null ==> o !in previousGame.players)
    }

    function ExpiredObservers(): set<Player>
      requires currentGame != null
      reads this`currentGame, this`previousGame, registry`connectedPlayers, registry`connectedUnnames
      reads currentGame`observers
    {
      set o | o in currentGame.observers && Expired(o)
    }

    /** The observers that the erasing leaves, if it comes to an end. */
    ghost function ObserversLeft(): Option<seq<Player>>
      requires currentGame != null
      reads this`currentGame, this`previousGame, registry`connectedPlayers, registry`connectedUnnames
      reads currentGame`observers
    {
      EraseForward(currentGame.observers,
                   ExpiredAt(currentGame.observers, ExpiredObservers(), |currentGame.observers|))
    }

    /** What Valid() says of the observers. */
    ghost predicate ObserversApart()
      requires currentGame != null
      reads this`currentGame, this`previousGame, currentGame`observers
    {
      && NoneOf(currentGame.observers, currentGame.players)
      && (previousGame != null ==> NoneOf(currentGame.observers, previousGame.players))
    }

    /** Whoever disseminate_new_events writes to. */
    ghost function Audience(): seq<Address>
      requires currentGame != null
      reads this`currentGame, this`previousGame, registry`connectedPlayers, registry`connectedUnnames
      reads currentGame`observers, currentGame.players`connected, currentGame.players`client
      reads currentGame.observers`client
    {
      currentGame.Recipients(ExpiredObservers())
    }

    ghost function NextNews(): nat
      requires currentGame != null
      reads this`currentGame, currentGame`nextDisseminatedEventNo
    {
      currentGame.nextDisseminatedEventNo
    }

    /** Whoever disseminate_new_events calls client() on. */
    ghost predicate AudienceReachable()
      requires currentGame != null
      reads this`currentGame, this`previousGame, registry`connectedPlayers, registry`connectedUnnames
      reads currentGame`observers, currentGame.players`connected, currentGame.players`client
      reads currentGame.observers`connected, currentGame.observers`client
    {
      && (forall i :: 0 <= i < |currentGame.players| && currentGame.players[i].connected ==>
            Reachable(currentGame.players[i]))
      && (forall i :: 0 <= i < |currentGame.observers| && currentGame.observers[i] !in ExpiredObservers() ==>
            Reachable(currentGame.observers[i]))
    }

    /** What Valid() says besides the state of the current game and its observers. */
    ghost predicate Settled()
      requires currentGame != null
      reads this`currentGame, this`previousGame, this`history
      reads registry`connectedClients, registry`connectedPlayers, registry`connectedUnnames
      reads registry.Owned()`connected, registry.Owned()`client, currentGame.players`connected
      reads (if previousGame == null then {} else {previousGame})`events
    {
      && registry.Valid() && currentGame.Valid()
      && AllNamed(currentGame.players) && Tied(registry.Owned(), currentGame.players)
      && (previousGame != null ==>
            && previousGame != currentGame && previousGame.events == history && AllPackable(history)
            && AllNamed(previousGame.players))
    }

    /** Everyone the server writes to is connected: client() is never called on anybody else. */
    lemma AllReachable()
      requires registry.Valid() && currentGame != null && Tied(registry.Owned(), currentGame.players)
      requires ObserversApart()
      ensures AudienceReachable()
    {
      forall p | p in registry.Owned() ensures Reachable(p) {
        var a :| a in registry.connectedClients && registry.connectedClients[a].player == p;
      }
    }

    /** disseminate_new_events; failed: erasing observers ran past their end. */
    method TellNews() returns (failed: bool)
      requires currentGame != null && Settled() && AudienceReachable() && ObserversApart()
      requires AllPackable(currentGame.events)
      modifies this`sendQueue, currentGame`observers, currentGame`nextDisseminatedEventNo
      ensures sendQueue
              == old(sendQueue)
                 + Bulletin(CRC32(), currentGame.gameId, currentGame.events, old(NextNews()), old(Audience()))
      ensures failed <==> old(ObserversLeft()).None?
      ensures !failed ==> Some(currentGame.observers) == old(ObserversLeft())
      ensures !failed ==> ObserversApart() && currentGame.nextDisseminatedEventNo == |currentGame.events|
      ensures Settled() && currentGame.View() == old(currentGame.View())
    {
      var expired := ExpiredObservers();
      ErasedFrom(currentGame.observers, ExpiredAt(currentGame.observers, expired, |currentGame.observers|));
      ghost var before := currentGame.observers;
      sendQueue, failed := currentGame.DisseminateNewEvents(sendQueue, expired);
      if !failed {
        StillNone(before, currentGame.observers, currentGame.players);
        if previousGame != null {
          StillNone(before, currentGame.observers, previousGame.players);
        }
      }
    }

    /** Whom the news go to depends on who is connected, not on the game. */
    twostate lemma AudienceStays()
      requires old(currentGame) != null && unchanged(`currentGame, `previousGame)
      requires unchanged(registry`connectedPlayers, registry`connectedUnnames, currentGame`observers)
      requires unchanged(currentGame.players`connected, currentGame.players`client, currentGame.observers`client)
      ensures Audience() == old(Audience())
    {}

    /** Playing changes nothing about who is connected. */
    method Play(to: seq<Cell>)
      requires currentGame != null && Settled() && |to| == |currentGame.players|
      requires AudienceReachable() && ObserversApart()
      modifies currentGame`events, currentGame`alivePlayersNum, currentGame`finished
      modifies currentGame.board.eaten, currentGame.players`position, currentGame.players`alive
      ensures Settled() && currentGame.View() == Round(old(currentGame.View()), to)
      ensures AudienceReachable() && ObserversApart() && Audience() == old(Audience())
      ensures NextNews() == old(NextNews()) && ObserversLeft() == old(ObserversLeft())
    {
      currentGame.PlayRound(to);
      AudienceStays();
    }

    method PlayRound(to: seq<Cell>)
      requires currentGame != null && Settled() && currentGame.View() == state && StateOk(state)
      requires |to| == |currentGame.players| && AudienceReachable() && ObserversApart()
      modifies this`state, currentGame`events, currentGame`alivePlayersNum, currentGame`finished
      modifies currentGame.board.eaten, currentGame.players`position, currentGame.players`alive
      ensures Settled() && state == Round(old(state), to) && currentGame.View() == state
      ensures AllPackable(state.events) && old(state.events) <= state.events && (state.finished || StateOk(state))
      ensures AudienceReachable() && ObserversApart() && Audience() == old(Audience())
      ensures NextNews() == old(NextNews()) && ObserversLeft() == old(ObserversLeft())
    {
      Play(to);
      Note(to);
    }

    method PlayThenTell(to: seq<Cell>) returns (failed: bool)
      requires currentGame != null && Settled() && currentGame.View() == state && StateOk(state)
      requires |to| == |currentGame.players| && AudienceReachable() && ObserversApart()
      modifies this`state, this`sendQueue, currentGame, currentGame.board.eaten
      modifies currentGame.players`position, currentGame.players`alive
      ensures state == Round(old(state), to) && currentGame.View() == state
      ensures AllPackable(state.events) && old(state.events) <= state.events && (state.finished || StateOk(state))
      ensures Settled() && (!failed ==> ObserversApart() && NextNews() == |state.events|)
      ensures failed <==> old(ObserversLeft()).None?
      ensures !failed ==> Some(currentGame.observers) == old(ObserversLeft())
      ensures sendQueue
              == old(sendQueue)
                 + Bulletin(CRC32(), currentGame.gameId, state.events, old(NextNews()), old(Audience()))
    {
      PlayRound(to);
      failed := TellNews();
    }

    method PlayAndTell(to: seq<Cell>) returns (failed: bool)
      requires Valid() && currentGame != null && |to| == |currentGame.players|
      modifies this`state, this`sendQueue, currentGame, currentGame.board.eaten
      modifies currentGame.players`position, currentGame.players`alive
      ensures state == Round(old(state), to) && currentGame.View() == state
      ensures AllPackable(state.events) && old(state.events) <= state.events && (state.finished || StateOk(state))
      ensures Settled() && (!failed ==> ObserversApart() && NextNews() == |state.events|)
      ensures failed <==> old(ObserversLeft()).None?
      ensures !failed ==> Some(currentGame.observers) == old(ObserversLeft())
      ensures sendQueue
              == old(sendQueue)
                 + Bulletin(CRC32(), currentGame.gameId, state.events, old(NextNews()), old(Audience()))
    {
      AllReachable();
      failed := PlayThenTell(to);
    }

    ghost method Note(to: seq<Cell>)
      requires currentGame != null && Settled() && StateOk(state) && |to| == |state.worms|
      requires AudienceReachable() && ObserversApart()
      modifies this`state
      ensures Settled() && state == Round(old(state), to)
      ensures AllPackable(state.events) && old(state.events) <= state.events && (state.finished || StateOk(state))
      ensures AudienceReachable() && ObserversApart() && Audience() == old(Audience())
      ensures NextNews() == old(NextNews()) && ObserversLeft() == old(ObserversLeft())
    {
      RoundStateOk(state, to);
      state := Round(state, to);
    }

    method GameRound(to: seq<Cell>) returns (failed: bool)
      requires Valid() && currentGame != null && |to| == |currentGame.players|
      modifies this`currentGame, this`previousGame, this`state, this`history, this`sendQueue
      modifies currentGame, currentGame.board.eaten, currentGame.players`position, currentGame.players`alive
      ensures !failed ==> Valid()
      ensures state == Round(old(state), to) && old(currentGame).events == state.events
      ensures old(state.events) <= state.events
      ensures failed <==> old(ObserversLeft()).None?
      ensures !failed ==> Some(old(currentGame).observers) == old(ObserversLeft())
      ensures !failed ==> old(currentGame).nextDisseminatedEventNo == |state.events|
      ensures !failed ==>
                if state.finished then currentGame == null && previousGame == old(currentGame)
                else currentGame == old(currentGame) && previousGame == old(previousGame)
      ensures sendQueue
              == old(sendQueue)
                 + Bulletin(CRC32(), old(currentGame).gameId, state.events, old(NextNews()), old(Audience()))
    {
      failed := PlayAndTell(to);
      if !failed {
        Retire();
      }
    }

    /** The end of a round. */
    method EndRound(socket: Socket) returns (broken: bool)
      requires Valid()
      modifies this`roundNo, this`sendQueue, this`sent
      ensures Valid() && roundNo == old(roundNo) + 1
      ensures sent + sendQueue == old(sent) + old(sendQueue)
      ensures broken <==> Breaks(socket, |old(sendQueue)|)
    {
      roundNo := roundNo + 1;
      var empty;
      empty, broken := DrainQueue(socket);
    }

    /** round_routine while a game goes on; failed: the erasing of observers ran past their end, or a send failed. */
    method BusyRound(to: seq<Cell>, socket: Socket) returns (failed: bool)
      requires Valid() && currentGame != null && |to| == |currentGame.players|
      modifies this, currentGame, currentGame.board.eaten, currentGame.players`position, currentGame.players`alive
      ensures !failed ==> Valid() && roundNo == old(roundNo) + 1
      ensures state == Round(old(state), to) && old(currentGame).events == state.events
      ensures old(state.events) <= state.events
      ensures failed <==>
                || old(ObserversLeft()).None?
                || Breaks(socket, |old(sendQueue)
                                   + Bulletin(CRC32(), old(currentGame).gameId, state.events, old(NextNews()),
                                              old(Audience()))|)
      ensures !failed ==> Some(old(currentGame).observers) == old(ObserversLeft())
      ensures !failed ==> old(currentGame).nextDisseminatedEventNo == |state.events|
      ensures !failed ==>
                if state.finished then currentGame == null && previousGame == old(currentGame)
                else currentGame == old(currentGame) && previousGame == old(previousGame)
      ensures !failed ==>
                sent + sendQueue
                == old(sent) + (old(sendQueue)
                                + Bulletin(CRC32(), old(currentGame).gameId, state.events, old(NextNews()),
                                           old(Audience())))
    {
      failed := GameRound(to);
      if !failed {
        failed := EndRound(socket);
      }
    }

    /** to: where the players' movement leads. */
    method RoundRoutine(to: seq<Cell>, socket: Socket) returns (failed: bool)
      requires Valid() && (currentGame != null ==> |to| == |currentGame.players|)
      modifies this, Current(), (if currentGame == null then {} else {currentGame.board.eaten})
      modifies InGame()`position, InGame()`alive
      ensures !failed ==> Valid() && roundNo == old(roundNo) + 1
      ensures !failed && old(currentGame) != null ==>
                && state == Round(old(state), to) && old(state.events) <= state.events
                && old(currentGame).events == state.events
                && old(currentGame).nextDisseminatedEventNo == |state.events|
                && Some(old(currentGame).observers) == old(ObserversLeft())
                && if state.finished then currentGame == null && previousGame == old(currentGame)
                   else currentGame == old(currentGame) && previousGame == old(previousGame)
      ensures !failed && old(currentGame) != null ==>
                sent + sendQueue
                == old(sent) + (old(sendQueue)
                                + Bulletin(CRC32(), old(currentGame).gameId, state.events, old(NextNews()),
                                           old(Audience())))
      ensures old(currentGame) != null ==>
                (failed <==>
                   || old(ObserversLeft()).None?
                   || Breaks(socket, |old(sendQueue)
                                      + Bulletin(CRC32(), old(currentGame).gameId, state.events, old(NextNews()),
                                                 old(Audience()))|))
      ensures old(currentGame) == null ==>
                && currentGame == null && previousGame == old(previousGame)
                && sent + sendQueue == old(sent) + old(sendQueue)
                && (failed <==> Breaks(socket, |old(sendQueue)|))
    {
      if currentGame != null {
        failed := BusyRound(to, socket);
      } else {
        failed := EndRound(socket);
      }
    }

    /** A finished game becomes the previous one. */
    method Retire()
      requires currentGame != null && Settled() && ObserversApart() && NextNews() <= |state.events|
      requires currentGame.View() == state && (state.finished || StateOk(state)) && AllPackable(state.events)
      modifies this`currentGame, this`previousGame, this`history
      ensures Valid()
      ensures if state.finished then currentGame == null && previousGame == old(currentGame)
              else currentGame == old(currentGame) && previousGame == old(previousGame)
    {
      if currentGame.finished {
        previousGame := currentGame;
        history := currentGame.events;
        currentGame := null;
      }
    }

    /** The constructor of the new game, called with everybody who is connected. */
    method MakeGame(gameId: uint32) returns (g: Game)
      requires registry.CanStart()
      modifies registry.connectedPlayers`ready, registry.connectedPlayers`alive
      ensures fresh(g) && fresh(g.board) && fresh(g.board.eaten)
      ensures g.Valid() && g.gameId == gameId && g.nextDisseminatedEventNo == 0
      ensures g.board.width == width && g.board.height == height
      ensures g.View() == Unopened(width, height, WormsOf(g.players)) && Newcomers(WormsOf(g.players))
      ensures |g.players| == |registry.connectedPlayers|
      ensures Members(g.players) == registry.connectedPlayers && Members(g.observers) == registry.connectedUnnames
      ensures Distinct(g.observers)
      ensures forall p <- registry.connectedPlayers :: !p.ready
    {
      var readyPlayers := ListOf(registry.connectedPlayers);
      var observers := ListOf(registry.connectedUnnames);
      g := new Game(width, height, gameId, readyPlayers, observers);
      SortedDistinct(readyPlayers);
      SameMembersSame(g.players, readyPlayers);
    }

    /** The registry when everybody with a name has stopped being ready. */
    twostate lemma ReadyNoMore()
      requires old(registry.Valid()) && unchanged(registry)
      requires forall p <- registry.Owned() ::
                 && p.turnDirection == old(p.turnDirection)
                 && p.ready == if p.playerName == [] then old(p.ready) else false
      requires forall a <- registry.connectedClients ::
                 registry.connectedClients[a].lastHeartbeatRoundNo
                 == old(registry.connectedClients[a].lastHeartbeatRoundNo)
      ensures registry.View() == Started(old(registry.View()))
    {
      forall a <- registry.connectedClients
        ensures ViewOf(registry.connectedClients[a]) == Started(old(registry.View())).clients[a]
      {
        assert registry.connectedClients[a].player in registry.Owned();
      }
    }

    /** The game logs its opening; failed: its NEW_GAME fits no datagram, which ends the server when it is first
        packed. */
    method Open(g: Game, cells: nat -> Cell) returns (failed: bool)
      requires g.Valid() && g.View() == Unopened(g.board.width, g.board.height, WormsOf(g.players))
      requires Newcomers(WormsOf(g.players)) && |g.players| >= 2
      modifies g`events, g.board.eaten, g.players`position
      ensures failed <==> !Listable(g.Names())
      ensures !failed ==> StateOk(g.View())
      ensures g.View() == Begin(AsWritten, g.board.width, g.board.height, old(WormsOf(g.players)),
                                seq(|g.players|, cells))
      ensures SetUpWith(g.View(), g.board.width, g.board.height, |g.players|, cells)
    {
      ghost var worms := WormsOf(g.players);
      g.NamesAreNames();
      failed := !Listable(g.Names());
      var at := seq(|g.players|, cells);
      g.SetUp(at);
      SetUpIs(g.View(), g.board.width, g.board.height, |g.players|, cells, worms);
      if !failed {
        BeginStateOk(g.board.width, g.board.height, worms, at);
      }
    }

    method StartGame(gameId: uint32, cells: nat -> Cell) returns (g: Game, failed: bool)
      requires registry.CanStart()
      modifies registry.connectedPlayers`ready, registry.connectedPlayers`alive, registry.connectedPlayers`position
      ensures fresh(g) && fresh(g.board) && fresh(g.board.eaten) && g.Valid()
      ensures Members(g.players) == registry.connectedPlayers && Members(g.observers) == registry.connectedUnnames
      ensures g.gameId == gameId && g.nextDisseminatedEventNo == 0 && Distinct(g.observers)
      ensures failed <==> !Listable(g.Names())
      ensures !failed ==> StateOk(g.View())
      ensures SetUpWith(g.View(), width, height, |g.players|, cells)
      ensures forall p <- registry.connectedPlayers :: !p.ready
    {
      g := MakeGame(gameId);
      failed := Open(g, cells);
    }

    /** What Valid() asks of the lists of a game of all who are connected. */
    lemma ListsOfNew(g: Game)
      requires registry.Valid()
      requires Members(g.players) == registry.connectedPlayers && Members(g.observers) == registry.connectedUnnames
      ensures AllNamed(g.players) && Tied(registry.Owned(), g.players)
      ensures forall others: seq<Player> :: AllNamed(others) ==> NoneOf(g.observers, others)
    {
      InMembers(g.players);
      InMembers(g.observers);
    }

    /** All who are connected play or observe, each once, and nothing has been disseminated. */
    ghost predicate JustBegun()
      reads this`currentGame, registry`connectedPlayers, registry`connectedUnnames
      reads Current()`observers, Current()`nextDisseminatedEventNo
    {
      && currentGame != null && currentGame.nextDisseminatedEventNo == 0 && Distinct(currentGame.observers)
      && Members(currentGame.players) == registry.connectedPlayers
      && Members(currentGame.observers) == registry.connectedUnnames
    }

    /** Moreover, the game has been set up and nothing has happened in it yet. */
    ghost predicate BegunWith(gameId: uint32, cells: nat -> Cell)
      reads this`currentGame, this`state, registry`connectedPlayers, registry`connectedUnnames
      reads Current()`observers, Current()`nextDisseminatedEventNo
    {
      JustBegun() && currentGame.gameId == gameId && SetUpWith(state, width, height, |currentGame.players|, cells)
    }

    /** Whether a game has begun, and how. before: the game that went on; opens: whether one was to begin. */
    ghost predicate Starts(before: Game?, failed: bool, opens: bool, gameId: uint32, cells: nat -> Cell)
      reads this`currentGame, this`state, registry`connectedPlayers, registry`connectedUnnames
      reads Current()`observers, Current()`nextDisseminatedEventNo
    {
      && (failed ==> opens) && (opens ==> before == null)
      && (!failed && before == null ==> (currentGame != null <==> opens))
      && (!failed && opens ==> BegunWith(gameId, cells))
    }

    method SetCurrent(g: Game)
      requires g.board.Valid()
      modifies this`currentGame, this`state
      ensures currentGame == g && state == g.View()
    {
      currentGame := g;
      state := g.View();
    }

    /** The new game becomes the current one. */
    method Adopt(g: Game)
      requires Valid() && currentGame == null && g != previousGame && g.Valid() && StateOk(g.View())
      requires g.nextDisseminatedEventNo == 0
      requires Members(g.players) == registry.connectedPlayers && Members(g.observers) == registry.connectedUnnames
      modifies this`currentGame, this`state
      ensures Valid() && currentGame == g && state == g.View()
    {
      ListsOfNew(g);
      SetCurrent(g);
    }

    method Install(g: Game, ghost gameId: uint32, ghost cells: nat -> Cell)
      requires Valid() && currentGame == null && g != previousGame && g.Valid() && StateOk(g.View())
      requires g.gameId == gameId && g.nextDisseminatedEventNo == 0 && Distinct(g.observers)
      requires SetUpWith(g.View(), width, height, |g.players|, cells)
      requires Members(g.players) == registry.connectedPlayers && Members(g.observers) == registry.connectedUnnames
      modifies this`currentGame, this`state
      ensures Valid() && currentGame == g && registry.View() == old(registry.View())
      ensures BegunWith(gameId, cells)
    {
      Adopt(g);
    }

    method BeginGame(gameId: uint32, cells: nat -> Cell) returns (failed: bool)
      requires Valid() && currentGame == null && registry.CanStart()
      modifies this`currentGame, this`state
      modifies registry.connectedPlayers`ready, registry.connectedPlayers`alive, registry.connectedPlayers`position
      ensures !failed ==> Valid() && currentGame != null && registry.View() == Started(old(registry.View()))
      ensures !failed ==> BegunWith(gameId, cells)
    {
      var g;
      g, failed := StartGame(gameId, cells);
      if !failed {
        ReadyNoMore();
        Install(g, gameId, cells);
      }
    }

    method Drain(socket: Socket) returns (broken: bool)
      requires Valid()
      modifies this`sendQueue, this`sent
      ensures Valid() && registry.View() == old(registry.View())
      ensures sent + sendQueue == old(sent) + old(sendQueue)
      ensures broken <==> Breaks(socket, |old(sendQueue)|)
    {
      var empty;
      empty, broken := DrainQueue(socket);
    }

    /** failed: NEW_GAME fits no datagram, or a send failed. */
    method TryStartGame(gameId: uint32, cells: nat -> Cell, socket: Socket) returns (failed: bool)
      requires Valid() && currentGame == null
      modifies this`currentGame, this`state, this`sendQueue, this`sent
      modifies registry.connectedPlayers`ready, registry.connectedPlayers`alive, registry.connectedPlayers`position
      ensures !failed ==> Valid() && (currentGame != null <==> CanBegin(old(registry.View())))
      ensures failed ==> CanBegin(old(registry.View()))
      ensures !failed && currentGame != null ==> BegunWith(gameId, cells)
      ensures sent + sendQueue == old(sent) + old(sendQueue)
      ensures !failed ==>
                registry.View() == StartedIf(currentGame != null, old(registry.View()))
    {
      failed := false;
      registry.CanStartView();
      if registry.CanStart() {
        failed := BeginGame(gameId, cells);
        if !failed {
          failed := Drain(socket);
        }
      }
    }

    /** Who watches the game that goes on: as before, or one more, at that address and of that name. */
    ghost predicate Watched(before: seq<Player>, joins: bool, a: Address, name: Name)
      reads this`currentGame, Current()`observers
      reads Watching()`connected, Watching()`client
    {
      if joins then
        Watching() != [] && Watching()[..|Watching()| - 1] == before
        && var p := Watching()[|Watching()| - 1]; Reachable(p) && AddressOf(p) == a && p.playerName == name
      else Watching() == before
    }

    ghost function Watching(): seq<Player>
      reads this`currentGame, Current()`observers
    {
      if currentGame == null then [] else currentGame.observers
    }

    method ConnectClient(addr: Address, h: Heartbeat) returns (player: Player)
      requires Valid() && addr !in registry.connectedClients
      modifies registry`connectedClients, registry`connectedPlayers, registry`connectedUnnames, registry`playerNames
      modifies Current()`observers
      ensures Valid() && registry.View() == Connected(old(registry.View()), addr, Newcomer(h, roundNo))
      ensures fresh(player) && player.playerName == h.name && Reachable(player) && AddressOf(player) == addr
      ensures registry.Owned() == old(registry.Owned()) + {player}
      ensures currentGame != null ==> currentGame.observers == old(currentGame.observers) + [player]
      ensures currentGame != null ==> Watched(old(Watching()), true, addr, h.name)
    {
      player := Enrol(addr, h);
      if currentGame != null {
        Observe(player);
      }
    }

    method Enrol(addr: Address, h: Heartbeat) returns (player: Player)
      requires Valid() && addr !in registry.connectedClients
      modifies registry`connectedClients, registry`connectedPlayers, registry`connectedUnnames, registry`playerNames
      ensures Valid() && fresh(player)
      ensures player.playerName == h.name && Reachable(player) && AddressOf(player) == addr
      ensures registry.Owned() == old(registry.Owned()) + {player}
      ensures registry.View() == Connected(old(registry.View()), addr, Newcomer(h, roundNo))
    {
      player := registry.ConnectClient(addr, h, roundNo);
    }

    method Observe(player: Player)
      requires Valid() && currentGame != null && player !in currentGame.players
      requires previousGame != null ==> player !in previousGame.players
      modifies currentGame`observers
      ensures Valid() && currentGame.observers == old(currentGame.observers) + [player]
      ensures registry.View() == old(registry.View()) && registry.Owned() == old(registry.Owned())
    {
      currentGame.AddObserver(player);
    }

    method DisconnectClient(addr: Address)
      requires Valid() && addr in registry.connectedClients
      modifies registry`connectedClients, registry`connectedPlayers, registry`connectedUnnames, registry`playerNames
      modifies registry.connectedClients[addr].player`connected, registry.connectedClients[addr].player`client
      ensures Valid() && registry.View() == Disconnected(old(registry.View()), addr)
      ensures registry.connectedClients == old(registry.connectedClients) - {addr} && Watching() == old(Watching())
      ensures registry.Owned() == old(registry.Owned()) - {old(registry.connectedClients[addr].player)}
    {
      registry.DisconnectClient(addr);
    }

    method DisconnectIdles()
      requires Valid()
      modifies registry`connectedClients, registry`connectedPlayers, registry`connectedUnnames, registry`playerNames
      modifies registry.Owned()`connected, registry.Owned()`client
      ensures Valid()
      ensures registry.View() == Swept(old(registry.View()), Idlers(old(registry.View()), roundNo, roundDuration))
      ensures registry.Owned() <= old(registry.Owned())
      ensures forall p <- registry.Owned() :: p.client == old(p.client)
    {
      registry.DisconnectIdles(roundNo, roundDuration);
    }

    // ---------- heartbeats ----------

    ghost function Reply(to: Address, next: nat): seq<Packet>
      reads this`currentGame, this`previousGame, Current()`events
      reads (if previousGame == null then {} else {previousGame})`events
    {
      if currentGame != null then Package(News(CRC32(), currentGame.gameId, currentGame.events, next), to)
      else if previousGame != null then Package(News(CRC32(), previousGame.gameId, previousGame.events, next), to)
      else []
    }

    method Respond(sender: Address, next: nat)
      requires Valid()
      modifies this`sendQueue
      ensures Valid() && registry.View() == old(registry.View())
      ensures sendQueue == old(sendQueue) + Reply(sender, next)
    {
      var queue := Replies(sender, next);
      Queue(queue);
    }

    /** The queue with the reply. */
    method Replies(sender: Address, next: nat) returns (queue: seq<Packet>)
      requires Valid()
      ensures queue == sendQueue + Reply(sender, next)
    {
      queue := sendQueue;
      if currentGame != null {
        queue := currentGame.RespondWithEvents(queue, sender, next);
      } else if previousGame != null {
        queue := previousGame.RespondWithEvents(queue, sender, next);
      }
    }

    method Queue(queue: seq<Packet>)
      requires Valid()
      modifies this`sendQueue
      ensures Valid() && registry.View() == old(registry.View()) && sendQueue == queue
    {
      sendQueue := queue;
    }

    method Refresh(sender: Address, direction: byte)
      requires Valid() && sender in registry.connectedClients
      modifies {registry.connectedClients[sender]}`lastHeartbeatRoundNo
      modifies registry.connectedClients[sender].player`turnDirection
      ensures Valid() && sender in old(registry.View()).clients
      ensures registry.View()
              == Replaced(old(registry.View()), sender,
                          old(registry.View()).clients[sender].(last := roundNo, direction := direction))
    {
      registry.Refresh(sender, roundNo, direction);
    }

    method Answer(sender: Address, h: Heartbeat)
      requires Valid() && sender in registry.connectedClients
      modifies this`sendQueue, {registry.connectedClients[sender]}`lastHeartbeatRoundNo
      modifies registry.connectedClients[sender].player`turnDirection
      ensures Valid() && sender in old(registry.View()).clients
      ensures registry.View()
              == Replaced(old(registry.View()), sender,
                          old(registry.View()).clients[sender].(last := roundNo, direction := h.direction))
      ensures sendQueue == old(sendQueue) + old(Reply(sender, h.next))
    {
      Refresh(sender, h.direction);
      Respond(sender, h.next);
    }

    method GotReady(sender: Address)
      requires Valid() && sender in registry.connectedClients
      modifies registry.connectedClients[sender].player`ready
      ensures Valid() && sender in old(registry.View()).clients
      ensures registry.View()
              == Replaced(old(registry.View()), sender, old(registry.View()).clients[sender].(ready := true))
    {
      registry.GotReady(sender);
    }

    /** A heartbeat of the session that is connected from this address. */
    method SameSession(sender: Address, h: Heartbeat, gameId: uint32, cells: nat -> Cell, socket: Socket)
      returns (failed: bool)
      requires Valid() && sender in registry.connectedClients && NameOk(h.name)
      requires registry.connectedClients[sender].sessionId == h.session
      modifies this`currentGame, this`state, this`sendQueue, this`sent
      modifies {registry.connectedClients[sender]}`lastHeartbeatRoundNo
      modifies registry.Owned()`turnDirection, registry.Owned()`ready, registry.Owned()`alive, registry.Owned()`position
      ensures !failed ==>
                var r, running := old(registry.View()), old(currentGame) != null;
                && Valid() && sender in r.clients
                && var t := Replaced(r, sender, Beaten(r.clients[sender], h, roundNo, running));
                   registry.View() == StartedIf(!running && currentGame != null, t)
      ensures old(currentGame) != null ==> currentGame == old(currentGame)
      ensures Starts(old(currentGame), failed,
                     Opens(old(registry.View()), roundNo, old(currentGame) != null, sender, h), gameId, cells)
      ensures !failed ==> sent + sendQueue == old(sent) + (old(sendQueue) + old(Reply(sender, h.next)))
    {
      failed := false;
      ghost var r := registry.View();
      assert r.clients[sender].session == registry.connectedClients[sender].sessionId;
      Answer(sender, h);
      ghost var m, running := registry.View(), currentGame != null;
      SteeredIsBeaten(r, sender, h, roundNo, running, m);
      SteerOpensBeat(r, roundNo, running, sender, h, m);
      failed := Steer(sender, h.direction, gameId, cells, socket);
    }

    /** A key pressed while no game goes on makes ready. */
    method Steer(sender: Address, direction: byte, gameId: uint32, cells: nat -> Cell, socket: Socket)
      returns (failed: bool)
      requires Valid() && sender in registry.connectedClients
      modifies this`currentGame, this`state, this`sendQueue, this`sent
      modifies registry.Owned()`ready, registry.Owned()`alive, registry.Owned()`position
      ensures !failed ==>
                var r, running := old(registry.View()), old(currentGame) != null;
                && Valid() && sender in r.clients
                && var t := Replaced(r, sender, Steered(r.clients[sender], direction, running));
                   registry.View() == StartedIf(!running && currentGame != null, t)
      ensures Starts(old(currentGame), failed,
                     SteerOpens(old(registry.View()), old(currentGame) != null, sender, direction), gameId, cells)
      ensures old(currentGame) != null ==> currentGame == old(currentGame)
      ensures sent + sendQueue == old(sent) + old(sendQueue)
    {
      failed := false;
      ghost var r := registry.View();
      ReplacedSame(r, sender);
      if currentGame == null && Turns(direction) {
        GotReady(sender);
        failed := TryStartGame(gameId, cells, socket);
      }
    }

    /** The client at this address comes with an older session than before. */
    method ReplaceSession(sender: Address, h: Heartbeat)
      requires Valid() && sender in registry.connectedClients
      modifies registry`connectedClients, registry`connectedPlayers, registry`connectedUnnames, registry`playerNames
      modifies registry.connectedClients[sender].player`connected, registry.connectedClients[sender].player`client
      modifies Current()`observers
      ensures Valid() && sender in old(registry.View()).clients
      ensures registry.View() == Connected(Disconnected(old(registry.View()), sender), sender, Newcomer(h, roundNo))
      ensures currentGame != null ==> Watched(old(Watching()), true, sender, h.name)
    {
      ghost var before := Watching();
      DisconnectClient(sender);
      assert Watching() == before;
      var _ := ConnectClient(sender, h);
    }

    /** The checks at the top of handle_heartbeat. */
    method Acceptable(name: Name) returns (ok: bool)
      ensures ok <==> NameOk(name)
    {
      if |name| > 20 {
        return false;
      }
      for i := 0 to |name|
        invariant forall j :: 0 <= j < i ==> 33 <= name[j] <= 126
      {
        if !(33 <= name[i] <= 126) {
          return false;
        }
      }
      ok := true;
    }

    /** What is queued for a heartbeat: the reply, if it comes from a session that is connected. */
    ghost function ReplyTo(sender: Address, heartbeat: Option<Heartbeat>): seq<Packet>
      requires registry.Valid()
      reads this`currentGame, this`previousGame, Current()`events
      reads (if previousGame == null then {} else {previousGame})`events
      reads registry`connectedClients, registry`connectedPlayers, registry`connectedUnnames
      reads registry.Owned()`connected, registry.Owned()`client
    {
      if heartbeat.Some? && Knows(registry.connectedClients, sender, heartbeat.value)
      then Reply(sender, heartbeat.value.next) else []
    }

    ghost function Answered(sender: Address, datagram: seq<byte>): seq<Packet>
      requires registry.Valid()
      reads this`currentGame, this`previousGame, Current()`events
      reads (if previousGame == null then {} else {previousGame})`events
      reads registry`connectedClients, registry`connectedPlayers, registry`connectedUnnames
      reads registry.Owned()`connected, registry.Owned()`client
    {
      ReplyTo(sender, HeartbeatIn(datagram))
    }

    /** gameId, cells: the random numbers, if a game begins. failed: the new game cannot be announced, or a send
        failed. */
    method HandleHeartbeat(sender: Address, datagram: seq<byte>, gameId: uint32, cells: nat -> Cell, socket: Socket)
      returns (failed: bool)
      requires Valid() && receiveBuff.Valid() && receiveBuff.Exhausted()
      modifies receiveBuff`size, receiveBuff`pos, receiveBuff.buff
      modifies this`currentGame, this`state, this`sendQueue, this`sent, Current()`observers
      modifies registry`connectedClients, registry`connectedPlayers, registry`connectedUnnames, registry`playerNames
      modifies registry.connectedClients.Values`lastHeartbeatRoundNo
      modifies registry.Owned()`turnDirection, registry.Owned()`ready, registry.Owned()`alive, registry.Owned()`position
      modifies registry.Owned()`connected, registry.Owned()`client
      ensures receiveBuff.Valid() && receiveBuff.Exhausted()
      ensures !failed ==> Valid()
      ensures !failed && old(currentGame) != null ==> currentGame == old(currentGame)
      ensures !failed && old(currentGame) != null && HeartbeatIn(datagram).Some? ==>
                var h := HeartbeatIn(datagram).value;
                Watched(old(Watching()), Admits(old(registry.View()), sender, h), sender, h.name)
      ensures !failed && old(currentGame) != null && HeartbeatIn(datagram).None? ==> Watching() == old(Watching())
      ensures Starts(old(currentGame), failed,
                     HeardOpens(old(registry.View()), roundNo, old(currentGame) != null, sender, HeartbeatIn(datagram)),
                     gameId, cells)
      ensures !failed ==>
                && registry.View()
                   == Heard(old(registry.View()), roundNo, old(currentGame) != null, currentGame != null, sender,
                            HeartbeatIn(datagram))
                && sent + sendQueue == old(sent) + (old(sendQueue) + old(Answered(sender, datagram)))
    {
      var heartbeat := Receive(sender, datagram);
      failed := false;
      if heartbeat.Some? {
        failed := TakeHeartbeat(sender, heartbeat.value, gameId, cells, socket);
      }
    }

    method Receive(sender: Address, datagram: seq<byte>) returns (heartbeat: Option<Heartbeat>)
      requires Valid() && receiveBuff.Valid() && receiveBuff.Exhausted()
      modifies receiveBuff`size, receiveBuff`pos, receiveBuff.buff
      ensures receiveBuff.Valid() && receiveBuff.Exhausted()
      ensures heartbeat == HeartbeatIn(datagram)
      ensures Valid() && registry.View() == old(registry.View())
      ensures ReplyTo(sender, heartbeat) == old(Answered(sender, datagram))
    {
      heartbeat := receiveBuff.ReceiveHeartbeat(datagram);
    }

    method TakeHeartbeat(sender: Address, h: Heartbeat, gameId: uint32, cells: nat -> Cell, socket: Socket)
      returns (failed: bool)
      requires Valid()
      modifies this`currentGame, this`state, this`sendQueue, this`sent, Current()`observers
      modifies registry`connectedClients, registry`connectedPlayers, registry`connectedUnnames, registry`playerNames
      modifies registry.connectedClients.Values`lastHeartbeatRoundNo
      modifies registry.Owned()`turnDirection, registry.Owned()`ready, registry.Owned()`alive, registry.Owned()`position
      modifies registry.Owned()`connected, registry.Owned()`client
      ensures !failed ==> Valid()
      ensures !failed && old(currentGame) != null ==> currentGame == old(currentGame)
      ensures !failed && old(currentGame) != null ==>
                Watched(old(Watching()), Admits(old(registry.View()), sender, h), sender, h.name)
      ensures Starts(old(currentGame), failed,
                     Opens(old(registry.View()), roundNo, old(currentGame) != null, sender, h), gameId, cells)
      ensures !failed ==>
                && registry.View()
                   == Heard(old(registry.View()), roundNo, old(currentGame) != null, currentGame != null, sender,
                            Some(h))
                && sent + sendQueue == old(sent) + (old(sendQueue) + old(ReplyTo(sender, Some(h))))
    {
      failed := false;
      var ok := Acceptable(h.name);
      if ok {
        if sender in registry.connectedClients {
          failed := KnownClient(sender, h, gameId, cells, socket);
        } else {
          Meet(sender, h);
        }
      }
    }

    /** A heartbeat from an address that no client has. */
    method Meet(sender: Address, h: Heartbeat)
      requires Valid() && sender !in registry.connectedClients && NameOk(h.name)
      modifies Current()`observers
      modifies registry`connectedClients, registry`connectedPlayers, registry`connectedUnnames, registry`playerNames
      ensures Valid() && !Opens(old(registry.View()), roundNo, currentGame != null, sender, h)
      ensures registry.View() == Beat(AsWritten, old(registry.View()), roundNo, currentGame != null, sender, h)
      ensures currentGame != null ==> Watched(old(Watching()), Admits(old(registry.View()), sender, h), sender, h.name)
    {
      OpensNeeds(registry.View(), roundNo, currentGame != null, sender, h);
      if h.name !in registry.playerNames {
        var _ := ConnectClient(sender, h);
      }
    }

    method KnownClient(sender: Address, h: Heartbeat, gameId: uint32, cells: nat -> Cell, socket: Socket)
      returns (failed: bool)
      requires Valid() && sender in registry.connectedClients && NameOk(h.name)
      modifies this`currentGame, this`state, this`sendQueue, this`sent, Current()`observers
      modifies registry`connectedClients, registry`connectedPlayers, registry`connectedUnnames, registry`playerNames
      modifies registry.connectedClients.Values`lastHeartbeatRoundNo
      modifies registry.Owned()`turnDirection, registry.Owned()`ready, registry.Owned()`alive, registry.Owned()`position
      modifies registry.Owned()`connected, registry.Owned()`client
      ensures !failed ==> Valid()
      ensures old(currentGame) != null ==> currentGame == old(currentGame)
      ensures !failed && old(currentGame) != null ==>
                Watched(old(Watching()), Admits(old(registry.View()), sender, h), sender, h.name)
      ensures Starts(old(currentGame), failed,
                     Opens(old(registry.View()), roundNo, old(currentGame) != null, sender, h), gameId, cells)
      ensures !failed ==>
                && registry.View()
                   == Heard(old(registry.View()), roundNo, old(currentGame) != null, currentGame != null, sender,
                            Some(h))
                && sent + sendQueue == old(sent) + (old(sendQueue) + old(ReplyTo(sender, Some(h))))
    {
      failed := false;
      var client := registry.connectedClients[sender];
      if client.sessionId == h.session {
        failed := SessionHeard(sender, h, gameId, cells, socket);
      } else {
        OtherSession(sender, h);
      }
    }

    method SessionHeard(sender: Address, h: Heartbeat, gameId: uint32, cells: nat -> Cell, socket: Socket)
      returns (failed: bool)
      requires Valid() && sender in registry.connectedClients && NameOk(h.name)
      requires registry.connectedClients[sender].sessionId == h.session
      modifies this`currentGame, this`state, this`sendQueue, this`sent
      modifies {registry.connectedClients[sender]}`lastHeartbeatRoundNo
      modifies registry.Owned()`turnDirection, registry.Owned()`ready, registry.Owned()`alive, registry.Owned()`position
      ensures !failed ==> Valid()
      ensures old(currentGame) != null ==> currentGame == old(currentGame)
      ensures !failed && old(currentGame) != null ==>
                Watched(old(Watching()), Admits(old(registry.View()), sender, h), sender, h.name)
      ensures Starts(old(currentGame), failed,
                     Opens(old(registry.View()), roundNo, old(currentGame) != null, sender, h), gameId, cells)
      ensures !failed ==>
                && registry.View()
                   == Heard(old(registry.View()), roundNo, old(currentGame) != null, currentGame != null, sender,
                            Some(h))
                && sent + sendQueue == old(sent) + (old(sendQueue) + old(ReplyTo(sender, Some(h))))
    {
      ghost var r, running := registry.View(), currentGame != null;
      assert r.clients[sender].session == registry.connectedClients[sender].sessionId;
      failed := SameSession(sender, h, gameId, cells, socket);
      HeardSame(r, roundNo, running, currentGame != null, sender, h);
    }

    method OtherSession(sender: Address, h: Heartbeat)
      requires Valid() && sender in registry.connectedClients && NameOk(h.name)
      requires registry.connectedClients[sender].sessionId != h.session
      modifies Current()`observers
      modifies registry`connectedClients, registry`connectedPlayers, registry`connectedUnnames, registry`playerNames
      modifies registry.connectedClients[sender].player`connected, registry.connectedClients[sender].player`client
      ensures old(ReplyTo(sender, Some(h))) == []
      ensures Valid() && !Opens(old(registry.View()), roundNo, currentGame != null, sender, h)
      ensures registry.View()
              == Heard(old(registry.View()), roundNo, currentGame != null, currentGame != null, sender, Some(h))
      ensures currentGame != null ==> Watched(old(Watching()), Admits(old(registry.View()), sender, h), sender, h.name)
    {
      ghost var r := registry.View();
      OpensNeeds(r, roundNo, currentGame != null, sender, h);
      HeardOther(r, roundNo, currentGame != null, sender, h);
      assert r.clients[sender].session == registry.connectedClients[sender].sessionId;
      if registry.connectedClients[sender].sessionId > h.session {
        ReplaceSession(sender, h);
      }
    }
  }

  ghost function NamedAmong(players: set<Player>): set<Player> {
    set p <- players | p.playerName != []
  }

  ghost function UnnamedAmong(players: set<Player>): set<Player> {
    set p <- players | p.playerName == []
  }

  lemma AmongMore(players: set<Player>, p: Player)
    ensures NamedAmong(players + {p}) == NamedAmong(players) + NamedAmong({p})
    ensures UnnamedAmong(players + {p}) == UnnamedAmong(players) + UnnamedAmong({p})
  {}

  lemma AmongFewer(players: set<Player>, p: Player)
    ensures NamedAmong(players - {p}) == NamedAmong(players) - NamedAmong({p})
    ensures UnnamedAmong(players - {p}) == UnnamedAmong(players) - UnnamedAmong({p})
  {}

  ghost function PlayersOf(clients: map<Address, ClientData>): set<Player> {
    set a <- clients :: clients[a].player
  }

  /** Each client and its player point at each other. */
  ghost predicate Linked(clients: map<Address, ClientData>)
    reads PlayersOf(clients)`connected, PlayersOf(clients)`client
  {
    forall a <- clients ::
      var c := clients[a];
      c.player in PlayersOf(clients) && c.address == a && c.player.connected && c.player.client == c
  }

  predicate Apart(clients: map<Address, ClientData>, a: Address)
    requires a in clients
  {
    forall b <- clients :: b != a ==> clients[b] != clients[a] && clients[b].player != clients[a].player
  }

  lemma LinkedMore(clients: map<Address, ClientData>, a: Address, c: ClientData)
    requires Linked(clients) && a !in clients
    requires c.address == a && c.player.connected && c.player.client == c
    ensures Linked(clients[a := c])
  {
    PlayersOfMore(clients, a, c);
  }

  /** Addresses are unique, and so are players. */
  lemma LinkedUnique(clients: map<Address, ClientData>, a: Address, p: Player)
    requires Linked(clients) && a in clients && p in PlayersOf(clients)
    ensures p.client != null && p.client.address in clients && clients[p.client.address] == p.client
    ensures p.client.player == p && (p.client.address == a ==> p == clients[a].player)
  {}

  lemma AllUnique(clients: map<Address, ClientData>, a: Address)
    requires Linked(clients) && a in clients
    ensures forall p <- PlayersOf(clients) :: p.client != null && (p.client.address == a ==> p == clients[a].player)
  {
    forall p <- PlayersOf(clients) ensures p.client != null && (p.client.address == a ==> p == clients[a].player) {
      LinkedUnique(clients, a, p);
    }
  }

  lemma PlayersOfMore(clients: map<Address, ClientData>, a: Address, c: ClientData)
    requires a !in clients
    ensures PlayersOf(clients[a := c]) == PlayersOf(clients) + {c.player}
  {
    var more := clients[a := c];
    forall p | p in PlayersOf(clients) ensures p in PlayersOf(more) {
      var b :| b in clients && clients[b].player == p;
      assert b in more && more[b].player == p;
    }
    assert a in more && more[a].player == c.player;
  }

  lemma PlayersOfFewer(clients: map<Address, ClientData>, a: Address)
    requires a in clients && forall b <- clients :: b != a ==> clients[b].player != clients[a].player
    ensures PlayersOf(clients - {a}) == PlayersOf(clients) - {clients[a].player}
  {
    var fewer := clients - {a};
    forall p | p in PlayersOf(clients) && p != clients[a].player ensures p in PlayersOf(fewer) {
      var b :| b in clients && clients[b].player == p;
      assert b in fewer && fewer[b].player == p;
    }
  }

  ghost function ViewOf(c: ClientData): Peer
    reads c`lastHeartbeatRoundNo, c.player`turnDirection, c.player`ready
  {
    Peer(c.sessionId, c.lastHeartbeatRoundNo, c.player.playerName, c.player.turnDirection, c.player.ready)
  }

  ghost function ViewsOf(clients: map<Address, ClientData>): map<Address, Peer>
    reads clients.Values`lastHeartbeatRoundNo, PlayersOf(clients)`turnDirection, PlayersOf(clients)`ready
  {
    map a <- clients :: assert clients[a].player in PlayersOf(clients); ViewOf(clients[a])
  }

  lemma ViewsOfMore(clients: map<Address, ClientData>, a: Address, c: ClientData)
    requires a !in clients
    ensures ViewsOf(clients[a := c]) == ViewsOf(clients)[a := ViewOf(c)]
  {}

  lemma ViewsOfFewer(clients: map<Address, ClientData>, a: Address)
    ensures ViewsOf(clients - {a}) == ViewsOf(clients) - {a}
  {}
}
