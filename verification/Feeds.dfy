/** The server together with the history of its current game's dissemination: what beginning a game, connecting,
    disconnecting and playing a round add to that history. */
module Feeds {
  import opened Bytes
  import opened Wire
  import opened Datagrams
  import opened Packages
  import opened Players
  import opened Dissemination
  import opened Game
  import opened GameRules
  import opened Server
  import opened Variants

  /** Whoever has joined is gone exactly if the registry holds it no more; everybody in the registry has joined, and is
      written to at its own address. */
  ghost predicate Seating(feed: Feed<Player>, owned: set<Player>)
    reads owned`client
  {
    && (forall r <- feed.seats :: r in feed.gone <==> r !in owned)
    && (forall r <- owned :: r in feed.seats && feed.seats[r].at == AddressOf(r))
  }

  /** feed is where the dissemination of the current game stands. */
  ghost predicate Tracks(s: Server, feed: Feed<Player>)
    reads s`currentGame, s.Current()`events, s.Current()`nextDisseminatedEventNo, s.Current()`observers
    reads s.registry`connectedClients, s.registry.Owned()`client
  {
    && s.currentGame != null
    && feed.log == s.currentGame.events && feed.next == s.currentGame.nextDisseminatedEventNo
    && feed.players == s.currentGame.players && feed.observers == s.currentGame.observers
    && Seating(feed, s.registry.Owned())
  }

  ghost function Last<T>(run: seq<T>): T
    requires run != []
  {
    run[|run| - 1]
  }

  /** run is its history since the game began. */
  ghost predicate History(s: Server, run: seq<Feed<Player>>)
    reads s`currentGame, s.Current()`events, s.Current()`nextDisseminatedEventNo, s.Current()`observers
    reads s.registry`connectedClients, s.registry.Owned()`client
  {
    s.currentGame != null && Run(AsWritten, CRC32(), s.currentGame.gameId, run) && Tracks(s, Last(run))
  }

  lemma RunMore(game: uint32, run: seq<Feed<Player>>, next: Feed<Player>)
    requires Run(AsWritten, CRC32(), game, run) && Step(AsWritten, CRC32(), game, Last(run), next)
    ensures Run(AsWritten, CRC32(), game, run + [next]) && Last(run + [next]) == next
  {
    var more := run + [next];
    forall i | 0 < i < |more| ensures Step(AsWritten, CRC32(), game, more[i - 1], more[i]) {
      assert i < |run| ==> Step(AsWritten, CRC32(), game, run[i - 1], run[i]);
    }
  }

  // ---------- a game begins ----------

  ghost function FirstFeed(s: Server): Feed<Player>
    requires s.currentGame != null
    reads s`currentGame, s.Current()`events, s.Current()`observers
    reads s.registry`connectedClients, s.registry.Owned()`client
  {
    Feed(s.currentGame.events, 0, s.currentGame.players, s.currentGame.observers, {}, [],
         map p <- s.registry.Owned() :: Seat(AddressOf(p), 0, 0, 0))
  }

  lemma OwnedApart(s: Server, p: Player, q: Player)
    requires s.registry.Valid() && p in s.registry.Owned() && q in s.registry.Owned() && p != q
    ensures AddressOf(p) != AddressOf(q)
  {
    AllUnique(s.registry.connectedClients, AddressOf(p));
    var a :| a in s.registry.connectedClients && s.registry.connectedClients[a].player == p;
    assert AddressOf(p) == a;
  }

  lemma ListsDistinct(players: seq<Player>, observers: seq<Player>)
    requires Distinct(players) && Distinct(observers) && NoneOf(observers, players)
    ensures Distinct(players + observers)
  {
    PartsDistinct(players, observers);
  }

  /** Everybody connected is in one of the lists of a game that has just begun, and nobody else is. */
  lemma ListsAreOwned(s: Server)
    requires s.registry.Valid() && s.JustBegun()
    ensures Everyone(FirstFeed(s)) == s.registry.Owned()
  {
    var players, observers := s.currentGame.players, s.currentGame.observers;
    assert NamedAmong(s.registry.Owned()) == Members(players);
    assert UnnamedAmong(s.registry.Owned()) == Members(observers);
    forall p | p in s.registry.Owned() ensures p in players || p in observers {
      assert p in NamedAmong(s.registry.Owned()) || p in UnnamedAmong(s.registry.Owned());
    }
    forall p | p in players || p in observers ensures p in s.registry.Owned() {
      assert p in Members(players) || p in Members(observers);
    }
  }

  /** The history of a game that has just begun. */
  lemma BegunHistory(s: Server)
    requires s.Valid() && s.JustBegun()
    ensures Begins(FirstFeed(s)) && History(s, [FirstFeed(s)])
  {
    var feed := FirstFeed(s);
    ListsDistinct(s.currentGame.players, s.currentGame.observers);
    ListsAreOwned(s);
    forall p, q | p in feed.seats && q in feed.seats && p != q ensures feed.seats[p].at != feed.seats[q].at {
      OwnedApart(s, p, q);
    }
  }

  // ---------- somebody comes or goes ----------

  ghost function Joined(feed: Feed<Player>, player: Player, addr: Address): Feed<Player> {
    feed.(observers := feed.observers + [player],
          seats := feed.seats[player := Seat(addr, |feed.sent|, feed.next, feed.next)])
  }

  lemma JoinedRun(game: uint32, run: seq<Feed<Player>>, feed: Feed<Player>, player: Player, addr: Address)
    requires Run(AsWritten, CRC32(), game, run) && feed == Last(run)
    requires player !in feed.seats && player !in feed.gone
    requires forall q <- feed.seats :: q !in feed.gone ==> feed.seats[q].at != addr
    ensures var after := Joined(feed, player, addr);
            Joins(feed, after, player, addr) && Run(AsWritten, CRC32(), game, run + [after])
  {
    var after := Joined(feed, player, addr);
    assert LastJoins(feed, after, addr);
    RunMore(game, run, after);
  }

  lemma JoinedSeating(feed: Feed<Player>, player: Player, addr: Address, owned: set<Player>)
    requires player !in feed.seats && player !in feed.gone && AddressOf(player) == addr && Seating(feed, owned)
    ensures Seating(Joined(feed, player, addr), owned + {player})
  {}

  method Enter(s: Server, addr: Address, h: Heartbeat, ghost known: set<Player>) returns (player: Player)
    requires s.Valid() && addr !in s.registry.connectedClients && s.currentGame != null
    modifies s.registry`connectedClients, s.registry`connectedPlayers, s.registry`connectedUnnames
    modifies s.registry`playerNames, s.Current()`observers
    ensures s.Valid() && s.currentGame.observers == old(s.currentGame.observers) + [player]
    ensures player !in known && AddressOf(player) == addr && s.registry.Owned() == old(s.registry.Owned()) + {player}
  {
    player := s.ConnectClient(addr, h);
  }

  /** connect_client while a game goes on. */
  method Connect(s: Server, addr: Address, h: Heartbeat, ghost run: seq<Feed<Player>>)
    returns (player: Player, ghost more: seq<Feed<Player>>)
    requires s.Valid() && addr !in s.registry.connectedClients && History(s, run)
    modifies s.registry`connectedClients, s.registry`connectedPlayers, s.registry`connectedUnnames
    modifies s.registry`playerNames, s.Current()`observers
    ensures s.Valid() && s.currentGame == old(s.currentGame) && History(s, more)
    ensures |more| == |run| + 1 && more[..|run|] == run && Joins(Last(run), Last(more), player, addr)
  {
    ghost var feed := Last(run);
    ghost var owned := s.registry.Owned();
    NobodyThere(s, addr, feed);
    player := Enter(s, addr, h, feed.seats.Keys + feed.gone);
    JoinedSeating(feed, player, addr, owned);
    JoinedRun(s.currentGame.gameId, run, feed, player, addr);
    more := run + [Joined(feed, player, addr)];
  }

  lemma NobodyThere(s: Server, addr: Address, feed: Feed<Player>)
    requires s.registry.Valid() && addr !in s.registry.connectedClients && Seating(feed, s.registry.Owned())
    ensures forall q <- feed.seats :: q !in feed.gone ==> feed.seats[q].at != addr
  {
    forall q | q in feed.seats && q !in feed.gone ensures feed.seats[q].at != addr {
      var a :| a in s.registry.connectedClients && s.registry.connectedClients[a].player == q;
      assert AddressOf(q) == a;
    }
  }

  /** disconnect_client while a game goes on. */
  method Disconnect(s: Server, addr: Address, ghost run: seq<Feed<Player>>) returns (ghost more: seq<Feed<Player>>)
    requires s.Valid() && addr in s.registry.connectedClients && History(s, run)
    modifies s.registry`connectedClients, s.registry`connectedPlayers, s.registry`connectedUnnames
    modifies s.registry`playerNames
    modifies s.registry.connectedClients[addr].player`connected, s.registry.connectedClients[addr].player`client
    ensures s.Valid() && s.currentGame == old(s.currentGame) && History(s, more)
    ensures |more| == |run| + 1 && more[..|run|] == run
    ensures Leaves(Last(run), Last(more), old(s.registry.connectedClients[addr].player))
  {
    ghost var feed, gone := Last(run), s.registry.connectedClients[addr].player;
    s.DisconnectClient(addr);
    ghost var after := feed.(gone := feed.gone + {gone});
    assert gone in after.gone && Leaves(feed, after, gone);
    RunMore(s.currentGame.gameId, run, after);
    more := run + [after];
  }

  /** Several leave, one after the other. */
  lemma {:induction false} LeaveAll(game: uint32, run: seq<Feed<Player>>, some: set<Player>)
    returns (more: seq<Feed<Player>>)
    requires Run(AsWritten, CRC32(), game, run)
    ensures run <= more && Run(AsWritten, CRC32(), game, more)
    ensures Last(more) == Last(run).(gone := Last(run).gone + some)
    decreases some
  {
    more := run;
    if some == {} {
      assert Last(run).gone + some == Last(run).gone;
    } else {
      var p :| p in some;
      var after := Last(run).(gone := Last(run).gone + {p});
      assert p in after.gone && Leaves(Last(run), after, p);
      RunMore(game, run, after);
      more := LeaveAll(game, run + [after], some - {p});
      assert after.gone + (some - {p}) == Last(run).gone + some;
      assert run <= run + [after];
    }
  }

  /** disconnect_idles while a game goes on. */
  method DisconnectIdles(s: Server, ghost run: seq<Feed<Player>>) returns (ghost more: seq<Feed<Player>>)
    requires s.Valid() && History(s, run)
    modifies s.registry`connectedClients, s.registry`connectedPlayers, s.registry`connectedUnnames
    modifies s.registry`playerNames, s.registry.Owned()`connected, s.registry.Owned()`client
    ensures s.Valid() && s.currentGame == old(s.currentGame) && run <= more && History(s, more)
    ensures Last(more) == Last(run).(gone := Last(run).gone + (old(s.registry.Owned()) - s.registry.Owned()))
  {
    ghost var owned := s.registry.Owned();
    s.DisconnectIdles();
    more := LeaveAll(s.currentGame.gameId, run, owned - s.registry.Owned());
  }

  // ---------- a round ----------

  /** Those whom the history has as gone are those whom the server has as expired or not connected. */
  lemma GoneAreExpired(s: Server, feed: Feed<Player>)
    requires s.Valid() && Tracks(s, feed) && Inv(AsWritten, CRC32(), feed)
    ensures PlayersSeated(feed, s.currentGame.players)
    ensures ObserversSeated(feed, s.currentGame.observers, s.ExpiredObservers())
  {
    forall p <- s.registry.Owned() ensures p.connected {
      var a :| a in s.registry.connectedClients && s.registry.connectedClients[a].player == p;
    }
    forall i | 0 <= i < |s.currentGame.players|
      ensures s.currentGame.players[i] in feed.seats
    {
      assert s.currentGame.players[i] in feed.players;
    }
    forall i | 0 <= i < |s.currentGame.observers|
      ensures s.currentGame.observers[i] in feed.seats
      ensures s.Expired(s.currentGame.observers[i]) <==> s.currentGame.observers[i] !in s.registry.Owned()
    {
      assert s.currentGame.observers[i] in feed.observers;
      OwnedOrExpired(s, i);
    }
  }

  lemma OwnedOrExpired(s: Server, i: nat)
    requires s.Valid() && s.currentGame != null && i < |s.currentGame.observers|
    ensures s.Expired(s.currentGame.observers[i]) <==> s.currentGame.observers[i] !in s.registry.Owned()
  {
    var o := s.currentGame.observers[i];
    assert o in s.registry.Owned() <==> o in s.registry.connectedPlayers || o in s.registry.connectedUnnames;
  }

  /** One more round: something is logged, and it is disseminated to whoever the history has as present. */
  ghost predicate Rounded(game: uint32, run: seq<Feed<Player>>, more: seq<Feed<Player>>, log: seq<Event>)
    requires run != []
  {
    && |more| == |run| + 2 && more[..|run|] == run && Run(AsWritten, CRC32(), game, more)
    && Logs(Last(run), more[|run|], log) && Disseminates(AsWritten, CRC32(), game, more[|run|], Last(more))
  }

  /** From feed to after in a round. */
  predicate Follows(feed: Feed<Player>, after: Feed<Player>, log: seq<Event>, left: seq<Player>, news: seq<Packet>) {
    after == feed.(log := log, next := |log|, observers := left, sent := feed.sent + news, seats := after.seats)
  }

  lemma RoundAhead(s: Server, run: seq<Feed<Player>>)
    requires s.Valid() && History(s, run)
    ensures var feed := Last(run);
            && AllPackable(feed.log) && feed.next == s.NextNews()
            && Seated(feed, Present(feed)) && Addresses(feed, Present(feed)) == s.Audience()
            && Pruned(AsWritten, feed.observers, feed.gone) == s.ObserversLeft()
  {
    RunKeeps(AsWritten, CRC32(), s.currentGame.gameId, run, |run| - 1);
    GoneAreExpired(s, Last(run));
    s.currentGame.FeedRecipients(Last(run), s.ExpiredObservers());
  }

  /** The two steps of a round. */
  lemma RoundSteps(game: uint32, run: seq<Feed<Player>>, feed: Feed<Player>, log: seq<Event>, left: seq<Player>,
                   audience: seq<Address>, owned: set<Player>) returns (more: seq<Feed<Player>>)
    requires Run(AsWritten, CRC32(), game, run) && feed == Last(run) && feed.log <= log && AllPackable(log)
    requires Seated(feed, Present(feed)) && Addresses(feed, Present(feed)) == audience
    requires Pruned(AsWritten, feed.observers, feed.gone) == Some(left) && Seating(feed, owned)
    ensures Rounded(game, run, more, log) && Seating(Last(more), owned)
    ensures Follows(feed, Last(more), log, left, Bulletin(CRC32(), game, log, feed.next, audience))
  {
    var mid := feed.(log := log);
    assert Present(mid) == Present(feed) && Addresses(mid, Present(mid)) == audience;
    var after := Disseminated(CRC32(), game, mid, left);
    assert Logs(feed, mid, log);
    RunMore(game, run, mid);
    RunMore(game, run + [mid], after);
    more := run + [mid] + [after];
  }

  /** round_routine, and what it leaves alone. next, audience, left: what it finds. */
  method CallRound(s: Server, to: seq<Cell>, socket: Socket, ghost next: nat, ghost audience: seq<Address>,
                   ghost left: Option<seq<Player>>) returns (failed: bool)
    requires s.Valid() && s.currentGame != null && |to| == |s.currentGame.players|
    requires next == s.NextNews() && audience == s.Audience() && left == s.ObserversLeft()
    modifies s, s.currentGame, s.currentGame.board.eaten, s.currentGame.players`position, s.currentGame.players`alive
    ensures !failed ==> s.Valid() && left.Some?
    ensures s.registry.connectedClients == old(s.registry.connectedClients)
    ensures !failed ==> s.state == Round(old(s.state), to)
    ensures !failed ==>
              s.sent + s.sendQueue
              == old(s.sent) + (old(s.sendQueue)
                                + Bulletin(CRC32(), old(s.currentGame).gameId, s.state.events, next, audience))
    ensures !failed && s.currentGame != null ==>
              && s.currentGame == old(s.currentGame) && s.currentGame.events == s.state.events
              && s.currentGame.nextDisseminatedEventNo == |s.state.events| && Some(s.currentGame.observers) == left
  {
    failed := s.RoundRoutine(to, socket);
  }

  /** round_routine while a game goes on. news: what it queues. */
  method PlayRound(s: Server, to: seq<Cell>, socket: Socket, ghost run: seq<Feed<Player>>)
    returns (failed: bool, ghost more: seq<Feed<Player>>, ghost news: seq<Packet>)
    requires s.Valid() && History(s, run) && |to| == |s.currentGame.players|
    modifies s, s.currentGame, s.currentGame.board.eaten, s.currentGame.players`position, s.currentGame.players`alive
    ensures !failed ==> s.Valid() && Rounded(old(s.currentGame).gameId, run, more, s.state.events)
    ensures !failed ==> Last(more).sent == Last(run).sent + news
    ensures !failed ==> s.sent + s.sendQueue == old(s.sent) + (old(s.sendQueue) + news)
    ensures !failed && s.currentGame != null ==> s.currentGame == old(s.currentGame) && History(s, more)
  {
    ghost var feed, game, owned := Last(run), s.currentGame.gameId, s.registry.Owned();
    ghost var audience, left, next := s.Audience(), s.ObserversLeft(), s.NextNews();
    RoundAhead(s, run);
    RoundStateOk(s.state, to);
    failed := CallRound(s, to, socket, next, audience, left);
    more, news := run, Bulletin(CRC32(), game, s.state.events, next, audience);
    if !failed {
      more := RoundSteps(game, run, feed, s.state.events, left.value, audience, owned);
    }
  }
}
