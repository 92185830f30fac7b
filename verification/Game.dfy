/** The objects of Server/Board.h, Server/Game.h and Server/Game.cpp: a running game and what it sends. */
module Game {
  import opened Bytes
  import opened Wire
  import opened Datagrams
  import opened UdpBuffers
  import opened GameRules
  import opened Packages
  import opened Observers
  import opened Players
  import opened Dissemination
  import opened Variants

  /** client() asserts that the player is connected. */
  predicate Reachable(p: Player)
    reads p`connected, p`client
  {
    p.connected && p.client != null
  }

  ghost function AddressOf(p: Player): Address
    reads p`client
  {
    if p.client == null then [] else p.client.address
  }

  /** Where the connected among the first n are. */
  ghost function PresentAddresses(players: seq<Player>, n: nat): seq<Address>
    requires n <= |players|
    reads players`connected, players`client
  {
    if n == 0 then []
    else if players[n - 1].connected then PresentAddresses(players, n - 1) + [AddressOf(players[n - 1])]
    else PresentAddresses(players, n - 1)
  }

  /** Where the not expired among the first n are. */
  ghost function LiveAddresses(observers: seq<Player>, expired: set<Player>, n: nat): seq<Address>
    requires n <= |observers|
    reads observers`client
  {
    if n == 0 then [] else if observers[n - 1] in expired then LiveAddresses(observers, expired, n - 1)
    else LiveAddresses(observers, expired, n - 1) + [AddressOf(observers[n - 1])]
  }

  // ---------- the lists and the feed ----------

  ghost predicate PlayersSeated(feed: Feed<Player>, players: seq<Player>)
    reads players`connected, players`client
  {
    forall i :: 0 <= i < |players| ==>
      && players[i] in feed.seats && (players[i] in feed.gone <==> !players[i].connected)
      && (players[i].connected ==> feed.seats[players[i]].at == AddressOf(players[i]))
  }

  ghost predicate ObserversSeated(feed: Feed<Player>, observers: seq<Player>, expired: set<Player>)
    reads observers`client
  {
    forall i :: 0 <= i < |observers| ==>
      && observers[i] in feed.seats && (observers[i] in feed.gone <==> observers[i] in expired)
      && (observers[i] !in expired ==> feed.seats[observers[i]].at == AddressOf(observers[i]))
  }

  lemma AddressesNext(feed: Feed<Player>, who: seq<Player>, p: Player)
    requires Seated(feed, who) && p in feed.seats
    ensures Seated(feed, who + [p])
    ensures Addresses(feed, who + [p]) == Addresses(feed, who) + [feed.seats[p].at]
  {}

  lemma {:induction false} PresentSeats(feed: Feed<Player>, players: seq<Player>, n: nat)
    requires PlayersSeated(feed, players) && n <= |players|
    ensures Seated(feed, Live(players, feed.gone, n))
    ensures Addresses(feed, Live(players, feed.gone, n)) == PresentAddresses(players, n)
  {
    if n > 0 {
      PresentSeats(feed, players, n - 1);
      AddressesNext(feed, Live(players, feed.gone, n - 1), players[n - 1]);
    }
  }

  lemma {:induction false} LiveSeats(feed: Feed<Player>, observers: seq<Player>, expired: set<Player>, n: nat)
    requires ObserversSeated(feed, observers, expired) && n <= |observers|
    ensures Seated(feed, Live(observers, feed.gone, n))
    ensures Addresses(feed, Live(observers, feed.gone, n)) == LiveAddresses(observers, expired, n)
    ensures ExpiredAt(observers, feed.gone, n) == ExpiredAt(observers, expired, n)
  {
    if n > 0 {
      LiveSeats(feed, observers, expired, n - 1);
      AddressesNext(feed, Live(observers, feed.gone, n - 1), observers[n - 1]);
    }
  }

  /** The first i observers, sorted into positions to erase and addresses to write to. */
  ghost predicate Sifted(observers: seq<Player>, expired: set<Player>, i: nat, disconnected: seq<nat>,
                         live: seq<Address>)
    requires i <= |observers|
    reads observers`client
  {
    disconnected == ExpiredAt(observers, expired, i) && live == LiveAddresses(observers, expired, i)
  }

  lemma SiftedNext(observers: seq<Player>, expired: set<Player>, i: nat, disconnected: seq<nat>, live: seq<Address>)
    requires i < |observers| && Sifted(observers, expired, i, disconnected, live)
    ensures if observers[i] in expired then Sifted(observers, expired, i + 1, disconnected + [i], live)
            else Sifted(observers, expired, i + 1, disconnected, live + [AddressOf(observers[i])])
  {}

  // ---------- the board ----------

  class Board {
    const width: uint32
    const height: uint32
    const eaten: array2<bool>

    ghost predicate Valid() {
      eaten.Length0 == width && eaten.Length1 == height
    }

    ghost function Eaten(): set<Cell>
      requires Valid()
      reads eaten
    {
      set x, y | 0 <= x < eaten.Length0 && 0 <= y < eaten.Length1 && eaten[x, y] :: Cell(x, y)
    }

    constructor (width: uint32, height: uint32)
      ensures Valid() && this.width == width && this.height == height && fresh(eaten) && Eaten() == {}
    {
      this.width, this.height := width, height;
      eaten := new bool[width, height]((_, _) => false);
    }

    predicate Contains(c: Cell) {
      c.x < width && c.y < height
    }

    predicate IsEaten(c: Cell)
      requires Valid() && Contains(c)
      reads eaten
      ensures IsEaten(c) <==> c in Eaten()
    {
      eaten[c.x, c.y]
    }

    method Eat(c: Cell)
      requires Valid() && Contains(c) && !IsEaten(c)
      modifies eaten
      ensures Eaten() == old(Eaten()) + {c}
    {
      eaten[c.x, c.y] := true;
    }
  }

  // ---------- the game ----------

  ghost function WormsOf(players: seq<Player>): (w: seq<Worm>)
    reads players`alive, players`position
    ensures |w| == |players|
    ensures forall i :: 0 <= i < |w| ==> w[i] == Worm(players[i].playerName, players[i].alive, players[i].position)
  {
    if players == [] then []
    else
      var n := |players| - 1;
      WormsOf(players[..n]) + [Worm(players[n].playerName, players[n].alive, players[n].position)]
  }

  lemma SortedDistinct(players: seq<Player>)
    requires Distinct(players)
    ensures Distinct(SortByName(players)) && SameMembers(SortByName(players), players)
  {
    SortMembers(players);
    SameMultiset(players, SortByName(players));
  }

  method StartAll(players: seq<Player>)
    modifies players`ready, players`alive
    ensures forall p <- players :: p.alive && !p.ready
  {
    for i := 0 to |players|
      invariant forall j :: 0 <= j < i ==> players[j].alive && !players[j].ready
    {
      players[i].NewGame();
    }
  }

  /** The players of a new game. */
  method Prepare(readyPlayers: seq<Player>) returns (sorted: seq<Player>)
    requires Distinct(readyPlayers)
    modifies readyPlayers`ready, readyPlayers`alive
    ensures sorted == SortByName(readyPlayers) && Newcomers(WormsOf(sorted))
    ensures forall p <- readyPlayers :: !p.ready
  {
    StartAll(readyPlayers);
    sorted := SortByName(readyPlayers);
    SortedDistinct(readyPlayers);
  }

  class Game {
    const gameId: uint32
    const board: Board
    const players: seq<Player>
    var events: seq<Event>
    var nextDisseminatedEventNo: nat
    var alivePlayersNum: int
    var observers: seq<Player>  // weak pointers: being listed here keeps nobody alive
    var finished: bool

    ghost predicate Valid() {
      board.Valid() && Distinct(players)
    }

    ghost function View(): State
      requires board.Valid()
      reads this`events, this`alivePlayersNum, this`finished, board.eaten, players`alive, players`position
    {
      State(board.width, board.height, WormsOf(players), board.Eaten(), events, alivePlayersNum, finished)
    }

    /** The constructor up to the first event; SetUp is the rest of it. readyPlayers stand in the order of their
        addresses. */
    constructor (width: uint32, height: uint32, gameId: uint32, readyPlayers: seq<Player>, observers: seq<Player>)
      requires Distinct(readyPlayers)
      modifies readyPlayers`ready, readyPlayers`alive
      ensures Valid() && fresh(board) && fresh(board.eaten)
      ensures this.gameId == gameId && this.observers == observers && nextDisseminatedEventNo == 0
      ensures players == SortByName(readyPlayers)
      ensures View() == Unopened(width, height, WormsOf(players)) && Newcomers(WormsOf(players))
      ensures forall p <- readyPlayers :: !p.ready
    {
      var b := new Board(width, height);
      var sorted := Prepare(readyPlayers);
      this.gameId, this.board, this.observers := gameId, b, observers;
      alivePlayersNum, finished, nextDisseminatedEventNo, events := |readyPlayers|, false, 0, [];
      players := sorted;
      new;
      SortedDistinct(readyPlayers);
    }

    function Names(): (names: seq<Name>) {
      seq(|players|, i requires 0 <= i < |players| => players[i].playerName)
    }

    lemma NamesAreNames()
      requires board.Valid()
      ensures NamesOf(View().worms) == Names()
    {}

    /** NEW_GAME and the placements; cells: where the random numbers place the players. */
    method SetUp(cells: seq<Cell>)
      requires Valid() && |cells| == |players|
      requires View() == Unopened(board.width, board.height, WormsOf(players))
      modifies this`events, board.eaten, players`position
      ensures View() == Begin(AsWritten, board.width, board.height, old(WormsOf(players)), cells)
    {
      NamesAreNames();
      GenerateEvent(NewGame(board.width, board.height, Names()));
      PlaceAll(cells);
    }

    method PlaceAll(cells: seq<Cell>)
      requires Valid() && |cells| == |players|
      modifies this`events, board.eaten, players`position
      ensures View() == PlaceFrom(AsWritten, old(View()), 0, cells)
    {
      ghost var goal := PlaceFrom(AsWritten, View(), 0, cells);
      for i := 0 to |players|
        invariant PlacingTo(View(), i, cells, goal)
      {
        PlaceNext(i, cells, goal);
      }
      PlaceStep(AsWritten, View(), |players|, cells);
    }

    /** The body of that loop. */
    method PlaceNext(i: nat, cells: seq<Cell>, ghost goal: State)
      requires Valid() && i < |cells| && PlacingTo(View(), i, cells, goal)
      modifies this`events, board.eaten, players`position
      ensures PlacingTo(View(), i + 1, cells, goal)
    {
      PlaceStep(AsWritten, View(), i, cells);
      PlacePlayer(i, cells[i]);
    }

    method GenerateEvent(data: EventData)
      modifies this`events
      ensures events == Append(old(events), data)
    {
      var eventNo := |events| % WRAP;
      events := events + [MakeEvent(eventNo, data)];
    }

    method MoveTo(i: nat, to: Cell)
      requires Valid() && i < |players|
      modifies players`position
      ensures View() == GameRules.At(old(View()), i, to) && players[i].position == to
    {
      ghost var w := WormsOf(players);
      players[i].position := to;
      assert WormsOf(players) == w[i := w[i].(at := to)];
    }

    method EatPixel(i: nat, c: Cell)
      requires Valid() && i < |players| && !Blocked(View(), c)
      modifies this`events, board.eaten
      ensures View() == Ate(old(View()), i, c)
    {
      board.Eat(c);
      GenerateEvent(EventData.Pixel(i % 256, c.x, c.y));
    }

    method Lose(i: nat)
      requires Valid() && i < |players|
      modifies this`events, this`alivePlayersNum, players`alive
      ensures View() == Lost(old(View()), i)
    {
      ghost var w := WormsOf(players);
      players[i].Lose();
      assert WormsOf(players) == w[i := w[i].(alive := false)];
      alivePlayersNum := alivePlayersNum - 1;
      GenerateEvent(Eliminated(i % 256));
    }

    /** One player set down at a random place. */
    method PlacePlayer(i: nat, cell: Cell)
      requires Valid() && i < |players|
      modifies this`events, board.eaten, players`position
      ensures View() == Place(AsWritten, old(View()), i, cell)
    {
      MoveTo(i, cell);
      var playerPixel := players[i].position;
      if !board.Contains(playerPixel) || board.IsEaten(playerPixel) {
        GenerateEvent(Eliminated(i % 256));
      } else {
        EatPixel(i, playerPixel);
      }
    }

    method AddObserver(observer: Player)
      modifies this`observers
      ensures observers == old(observers) + [observer]
    {
      observers := observers + [observer];
    }

    // ---------- a round ----------

    /** The body of the loop of play_round; to is where the movement leads. */
    method TakeTurn(i: nat, to: Cell)
      requires Valid() && i < |players|
      modifies this`events, this`alivePlayersNum, this`finished, board.eaten, players`position, players`alive
      ensures View() == Turn(old(View()), i, to)
    {
      ghost var s := View();
      TurnCases(s, i, to, GameRules.At(s, i, to));
      if !players[i].alive {
        return;
      }
      var before := players[i].position;
      MoveTo(i, to);
      var after := players[i].position;
      if before == after {
        return;
      }
      if !board.Contains(after) || board.IsEaten(after) {
        Lose(i);
        if alivePlayersNum <= 1 {
          finished := true;
        }
      } else {
        EatPixel(i, after);
      }
    }

    method PlayRound(to: seq<Cell>)
      requires Valid() && |to| == |players|
      modifies this`events, this`alivePlayersNum, this`finished, board.eaten, players`position, players`alive
      ensures View() == Round(old(View()), to)
    {
      ghost var goal := TurnsFrom(View(), 0, to);
      for i := 0 to |players|
        invariant TurningTo(View(), i, to, goal)
      {
        TurnNext(i, to, goal);
      }
      TurnsStep(View(), |players|, to);
      if finished {
        GenerateEvent(GameOver);
      }
    }

    /** The body of that loop. */
    method TurnNext(i: nat, to: seq<Cell>, ghost goal: State)
      requires Valid() && i < |to| && TurningTo(View(), i, to, goal)
      modifies this`events, this`alivePlayersNum, this`finished, board.eaten, players`position, players`alive
      ensures TurningTo(View(), i + 1, to, goal)
    {
      TurnsStep(View(), i, to);
      TakeTurn(i, to[i]);
    }

    // ---------- sending ----------

    method EnqueueEventPackage(sendQueue: seq<Packet>, nextEvent: nat, receiver: Address) returns (queue: seq<Packet>)
      requires AllPackable(events)
      ensures queue == sendQueue + Package(News(CRC32(), gameId, events, nextEvent), receiver)
    {
      if nextEvent >= |events| {
        return sendQueue;
      }
      UnderwayStarts(sendQueue, News(CRC32(), gameId, events, nextEvent), receiver);
      queue := FillPackets(sendQueue, nextEvent, receiver);
    }

    method FillPackets(sendQueue: seq<Packet>, nextEvent: nat, receiver: Address) returns (queue: seq<Packet>)
      requires AllPackable(events) && nextEvent < |events|
      ensures queue == Underway(CRC32(), sendQueue, gameId, receiver, [], events[nextEvent..])
    {
      queue := sendQueue;
      ghost var crc, slice, rest: seq<Event> := CRC32(), [], events[nextEvent..];
      ghost var goal := Underway(crc, sendQueue, gameId, receiver, slice, rest);
      var b := OpenPacket();
      for i := nextEvent to |events|
        invariant b.Valid() && fresh(b) && fresh(b.buff)
        invariant b.Contents() == Datagram(crc, gameId, slice)
        invariant rest == events[i..] && Underway(crc, queue, gameId, receiver, slice, rest) == goal
      {
        ghost var all := rest;
        rest := events[i + 1..];
        queue, b, slice := PackNext(queue, receiver, b, events[i], slice, rest, all);
      }
      assert rest == [];
      UnderwayDone(crc, queue, gameId, receiver, slice);
      queue := queue + [Packet(receiver, b.buff[..b.size])];
    }

    /** The body of that loop. */
    method PackNext(sendQueue: seq<Packet>, receiver: Address, full: UDPSendBuffer, event: Event,
                    ghost before: seq<Event>, ghost rest: seq<Event>, ghost all: seq<Event>)
      returns (queue: seq<Packet>, b: UDPSendBuffer, ghost slice: seq<Event>)
      requires Packable(event) && all == [event] + rest
      requires full.Valid() && full.Contents() == Datagram(CRC32(), gameId, before)
      modifies full`size, full.buff
      ensures b.Valid() && (b == full || (fresh(b) && fresh(b.buff)))
      ensures b.Contents() == Datagram(CRC32(), gameId, slice)
      ensures Underway(CRC32(), queue, gameId, receiver, slice, rest)
              == Underway(CRC32(), sendQueue, gameId, receiver, before, all)
    {
      ghost var crc := CRC32();
      queue, b, slice := sendQueue, full, before;
      DatagramGrows(crc, gameId, before, event);
      if b.Remaining() < EventSize(event) {
        UnderwayFull(crc, queue, gameId, receiver, before, event, rest, all);
        queue := queue + [Packet(receiver, b.buff[..b.size])];
        b := OpenPacket();
        DatagramGrows(crc, gameId, [], event);
        slice := [event];
        assert [] + slice == slice;
      } else {
        UnderwayFits(crc, queue, gameId, receiver, before, event, rest, all);
        slice := before + [event];
      }
      PackEvent(event, b);
    }

    /** A new buffer that names the game. */
    method OpenPacket() returns (b: UDPSendBuffer)
      ensures fresh(b) && fresh(b.buff) && b.Valid() && b.Contents() == Datagram(CRC32(), gameId, [])
    {
      b := new UDPSendBuffer();
      b.Pack32(gameId);
    }

    /** What is yet to be disseminated. */
    ghost function Undisseminated(): Address -> seq<Packet>
      reads this`events, this`nextDisseminatedEventNo
    {
      Packer(News(CRC32(), gameId, events, nextDisseminatedEventNo))
    }

    /** base and told: what had been queued, and who has been told since. */
    method Tell(sendQueue: seq<Packet>, p: Player, ghost base: seq<Packet>, ghost told: seq<Address>)
      returns (queue: seq<Packet>)
      requires AllPackable(events) && Reachable(p)
      requires sendQueue == base + ToAll(Undisseminated(), told)
      ensures queue == base + ToAll(Undisseminated(), told + [AddressOf(p)])
    {
      queue := EnqueueEventPackage(sendQueue, nextDisseminatedEventNo, p.client.address);
      QueueOneMore(base, Undisseminated(), told, AddressOf(p), queue);
    }

    /** The first loop of disseminate_new_events. */
    method TellPlayers(sendQueue: seq<Packet>) returns (queue: seq<Packet>)
      requires AllPackable(events) && forall i :: 0 <= i < |players| && players[i].connected ==> Reachable(players[i])
      ensures queue == sendQueue + ToAll(Undisseminated(), PresentAddresses(players, |players|))
    {
      queue := sendQueue;
      ghost var told := [];
      for i := 0 to |players|
        invariant told == PresentAddresses(players, i)
        invariant queue == sendQueue + ToAll(Undisseminated(), told)
      {
        if players[i].connected {
          queue := Tell(queue, players[i], sendQueue, told);
          told := told + [AddressOf(players[i])];
        }
      }
    }

    /** The second loop; expired: the players to whom nobody holds a shared pointer any more. */
    method TellObservers(sendQueue: seq<Packet>, expired: set<Player>, ghost base: seq<Packet>,
                         ghost before: seq<Address>)
      returns (queue: seq<Packet>, disconnected: seq<nat>)
      requires AllPackable(events)
      requires forall i :: 0 <= i < |observers| && observers[i] !in expired ==> Reachable(observers[i])
      requires sendQueue == base + ToAll(Undisseminated(), before)
      ensures disconnected == ExpiredAt(observers, expired, |observers|)
      ensures queue
              == base + ToAll(Undisseminated(), before + LiveAddresses(observers, expired, |observers|))
    {
      queue, disconnected := sendQueue, [];
      ghost var n, told, live: seq<Address> := Undisseminated(), before, [];
      assert before + live == before;
      for i := 0 to |observers|
        invariant n == Undisseminated() && Sifted(observers, expired, i, disconnected, live) && told == before + live
        invariant queue == base + ToAll(n, told)
      {
        SiftedNext(observers, expired, i, disconnected, live);
        if observers[i] in expired {
          disconnected := disconnected + [i];
        } else {
          queue, told, live := TellObserver(queue, observers[i], base, before, told, live);
        }
      }
    }

    method TellObserver(sendQueue: seq<Packet>, p: Player, ghost base: seq<Packet>, ghost before: seq<Address>,
                        ghost told: seq<Address>, ghost live: seq<Address>)
      returns (queue: seq<Packet>, ghost toldNow: seq<Address>, ghost liveNow: seq<Address>)
      requires AllPackable(events) && Reachable(p) && told == before + live
      requires sendQueue == base + ToAll(Undisseminated(), told)
      ensures liveNow == live + [AddressOf(p)] && toldNow == before + liveNow
      ensures queue == base + ToAll(Undisseminated(), toldNow)
    {
      queue := Tell(sendQueue, p, base, told);
      Regroup(before, live, [AddressOf(p)]);
      toldNow, liveNow := told + [AddressOf(p)], live + [AddressOf(p)];
    }

    /** The third loop: the iterators stored before are erased one after the other. */
    method EraseObservers(disconnected: seq<nat>) returns (failed: bool)
      modifies this`observers
      ensures var r := EraseForward(old(observers), disconnected);
              failed == r.None? && (r.Some? ==> observers == r.value)
    {
      for k := 0 to |disconnected|
        invariant EraseForward(observers, disconnected[k..]) == EraseForward(old(observers), disconnected)
      {
        var position := disconnected[k];
        assert disconnected[k..][0] == position && disconnected[k..][1..] == disconnected[k + 1..];
        if position >= |observers| {
          return true;
        }
        observers := Without(observers, position);
      }
      failed := false;
    }

    /** failed: an iterator past the last observer was erased. */
    method DisseminateNewEvents(sendQueue: seq<Packet>, expired: set<Player>)
      returns (queue: seq<Packet>, failed: bool)
      requires AllPackable(events) && forall i :: 0 <= i < |players| && players[i].connected ==> Reachable(players[i])
      requires forall i :: 0 <= i < |observers| && observers[i] !in expired ==> Reachable(observers[i])
      modifies this`observers, this`nextDisseminatedEventNo
      ensures queue == sendQueue + ToAll(old(Undisseminated()), old(Recipients(expired)))
      ensures var r := EraseForward(old(observers), ExpiredAt(old(observers), expired, |old(observers)|));
              failed == r.None? && (r.Some? ==> observers == r.value)
      ensures !failed ==> nextDisseminatedEventNo == |events|
    {
      ghost var present := PresentAddresses(players, |players|);
      queue := TellPlayers(sendQueue);
      var disconnected;
      queue, disconnected := TellObservers(queue, expired, sendQueue, present);
      failed := EraseObservers(disconnected);
      if !failed {
        nextDisseminatedEventNo := |events|;
      }
    }

    /** The players still connected and the observers not expired. */
    ghost function Recipients(expired: set<Player>): seq<Address>
      reads this`observers, players`connected, players`client, observers`client
    {
      PresentAddresses(players, |players|) + LiveAddresses(observers, expired, |observers|)
    }

    /** feed is where the dissemination of this game stands. */
    ghost predicate Mirrors(feed: Feed<Player>, expired: set<Player>)
      reads this`events, this`nextDisseminatedEventNo, this`observers, players`connected, players`client
      reads observers`client
    {
      && feed.log == events && feed.next == nextDisseminatedEventNo
      && feed.players == players && feed.observers == observers
      && PlayersSeated(feed, players) && ObserversSeated(feed, observers, expired)
    }

    /** Whom the history has as present, and what erasing leaves. */
    lemma FeedRecipients(feed: Feed<Player>, expired: set<Player>)
      requires feed.players == players && feed.observers == observers
      requires PlayersSeated(feed, players) && ObserversSeated(feed, observers, expired)
      ensures Seated(feed, Present(feed)) && Addresses(feed, Present(feed)) == Recipients(expired)
      ensures Pruned(AsWritten, feed.observers, feed.gone)
              == EraseForward(observers, ExpiredAt(observers, expired, |observers|))
    {
      var a, b := Live(players, feed.gone, |players|), Live(observers, feed.gone, |observers|);
      PresentSeats(feed, players, |players|);
      LiveSeats(feed, observers, expired, |observers|);
      assert forall i :: 0 <= i < |a + b| ==> (a + b)[i] == if i < |a| then a[i] else b[i - |a|];
      assert Addresses(feed, a + b) == Addresses(feed, a) + Addresses(feed, b);
    }

    /** DisseminateNewEvents is a step of the dissemination: what it queues and which observers it leaves. */
    lemma DisseminatesFeed(feed: Feed<Player>, expired: set<Player>, left: seq<Player>)
      requires Mirrors(feed, expired)
      requires EraseForward(observers, ExpiredAt(observers, expired, |observers|)) == Some(left)
      ensures Seated(feed, Present(feed))
      ensures var next := Disseminated(CRC32(), gameId, feed, left);
              && Disseminates(AsWritten, CRC32(), gameId, feed, next)
              && next.sent == feed.sent + ToAll(Undisseminated(), Recipients(expired))
    {
      FeedRecipients(feed, expired);
    }

    method RespondWithEvents(sendQueue: seq<Packet>, addr: Address, nextEvent: nat) returns (queue: seq<Packet>)
      requires AllPackable(events)
      ensures queue == sendQueue + Package(News(CRC32(), gameId, events, nextEvent), addr)
    {
      queue := EnqueueEventPackage(sendQueue, nextEvent, addr);
    }
  }

  /** The rest of the placements, or of the turns, leads there. */
  predicate PlacingTo(s: State, i: nat, cells: seq<Cell>, goal: State) {
    i <= |s.worms| == |cells| && PlaceFrom(AsWritten, s, i, cells) == goal
  }

  predicate TurningTo(s: State, i: nat, to: seq<Cell>, goal: State) {
    i <= |s.worms| == |to| && TurnsFrom(s, i, to) == goal
  }

  predicate SameMembers<T(==)>(a: seq<T>, b: seq<T>) {
    (forall i :: 0 <= i < |a| ==> a[i] in b) && (forall i :: 0 <= i < |b| ==> b[i] in a)
  }

  lemma {:induction false} DistinctOnce<T>(s: seq<T>, x: T)
    requires Distinct(s)
    ensures multiset(s)[x] <= 1
    decreases |s|
  {
    if s != [] {
      assert s == [s[0]] + s[1..];
      DistinctOnce(s[1..], x);
      if x == s[0] {
        assert x !in s[1..];
        assert x !in multiset(s[1..]);
      }
    }
  }

  lemma Twice<T>(s: seq<T>, i: nat, j: nat)
    requires i < j < |s| && s[i] == s[j]
    ensures multiset(s)[s[i]] >= 2
  {
    var a, b := s[..j], s[j..];
    assert s == a + b;
    assert a[i] in multiset(a) && b[0] in multiset(b);
  }

  lemma SameMultiset<T>(a: seq<T>, b: seq<T>)
    requires multiset(a) == multiset(b) && Distinct(a)
    ensures Distinct(b) && SameMembers(b, a)
  {
    assert forall i :: 0 <= i < |a| ==> a[i] in multiset(a);
    assert forall i :: 0 <= i < |b| ==> b[i] in multiset(b);
    forall i, j | 0 <= i < j < |b| ensures b[i] != b[j] {
      if b[i] == b[j] {
        Twice(b, i, j);
        DistinctOnce(a, b[i]);
      }
    }
  }
}