/** The server together with the history of what it has heard: what a heartbeat, an idle sweep and a round add to it,
    when a game begins, and what a heartbeat is answered with. */
module Chronicle {
  import opened Bytes
  import opened Wire
  import opened Packages
  import opened Players
  import opened Game
  import opened GameRules
  import opened Server
  import opened UdpBuffers
  import opened Answers
  import opened Datagrams
  import opened EventLogs
  import opened Text
  import opened Reassembly
  import opened Protocol
  import opened ServerRuns
  import opened Variants
  import S = Sessions
  import C = Client
  import R = RegistryRules

  /** ops is what the server has heard and done, finished are the games that have been finished. */
  ghost predicate Follows(s: Server, ops: seq<S.Op>, finished: seq<Game>)
    reads s`currentGame, s`previousGame, s`roundNo
    reads s.registry`connectedClients, s.registry`playerNames
    reads s.registry.connectedClients.Values`lastHeartbeatRoundNo
    reads s.registry.Owned()`turnDirection, s.registry.Owned()`ready
  {
    Recorded(s.registry.View(), s.roundNo, s.currentGame, s.previousGame, ops, finished)
  }

  /** The same of what a server holds. */
  ghost predicate Recorded(r: R.Registry, roundNo: nat, current: Game?, previous: Game?, ops: seq<S.Op>,
                           finished: seq<Game>)
  {
    && S.At(ops, |ops|) == S.House(r, roundNo, current != null)
    && previous == (if finished == [] then null else finished[|finished| - 1])
  }

  lemma OneMore(ops: seq<S.Op>, op: S.Op)
    ensures S.At(ops + [op], |ops| + 1) == S.Next(S.At(ops, |ops|), op)
    ensures forall n :: 0 <= n <= |ops| ==> S.At(ops + [op], n) == S.At(ops, n)
  {
    forall n | 0 <= n <= |ops| ensures S.At(ops + [op], n) == S.At(ops, n) {
      Prefix(ops, op, n);
    }
  }

  lemma {:induction false} Prefix(ops: seq<S.Op>, op: S.Op, n: nat)
    requires n <= |ops|
    ensures S.At(ops + [op], n) == S.At(ops, n)
    decreases n
  {
    if n > 0 {
      Prefix(ops, op, n - 1);
    }
  }

  /** A new server has no history. */
  method Open(width: uint32, height: uint32, roundsPerSec: uint32) returns (s: Server)
    requires roundsPerSec > 0
    ensures s.Valid() && Follows(s, [], []) && s.roundDuration == 1_000_000_000 / roundsPerSec
  {
    s := new Server(width, height, roundsPerSec);
  }

  /** disconnect_idles. */
  method Sweep(s: Server, ghost ops: seq<S.Op>, ghost finished: seq<Game>) returns (ghost more: seq<S.Op>)
    requires s.Valid() && Follows(s, ops, finished)
    modifies s.registry`connectedClients, s.registry`connectedPlayers, s.registry`connectedUnnames
    modifies s.registry`playerNames, s.registry.Owned()`connected, s.registry.Owned()`client
    ensures s.Valid() && more == ops + [S.Idles(s.roundDuration)] && Follows(s, more, finished)
  {
    more := ops + [S.Idles(s.roundDuration)];
    OneMore(ops, S.Idles(s.roundDuration));
    s.DisconnectIdles();
  }

  /** Either the game that went on has become the previous one, or both are what they were. */
  predicate Finishes(current: Game?, previous: Game?, now: Game?, before: Game?) {
    if current != null && now == null then before == current else now == current && before == previous
  }

  /** round_routine while a game goes on, as far as it matters here. */
  method CallBusyRound(s: Server, to: seq<Cell>, socket: Socket) returns (failed: bool)
    requires s.Valid() && s.currentGame != null && |to| == |s.currentGame.players|
    modifies s, s.currentGame, s.currentGame.board.eaten, s.currentGame.players`position, s.currentGame.players`alive
    ensures !failed ==> s.Valid() && s.roundNo == old(s.roundNo) + 1
    ensures !failed ==> Finishes(old(s.currentGame), old(s.previousGame), s.currentGame, s.previousGame)
  {
    failed := s.RoundRoutine(to, socket);
  }

  /** Nobody comes or goes in a round. */
  method CallQuietRound(s: Server, to: seq<Cell>, socket: Socket) returns (failed: bool)
    requires s.Valid() && s.currentGame != null && |to| == |s.currentGame.players|
    modifies s, s.currentGame, s.currentGame.board.eaten, s.currentGame.players`position, s.currentGame.players`alive
    ensures !failed ==> s.Valid() && s.roundNo == old(s.roundNo) + 1
    ensures !failed ==> Finishes(old(s.currentGame), old(s.previousGame), s.currentGame, s.previousGame)
    ensures s.registry.View() == old(s.registry.View())
  {
    failed := CallBusyRound(s, to, socket);
  }

  method CallIdleRound(s: Server, socket: Socket) returns (failed: bool)
    requires s.Valid() && s.currentGame == null
    modifies s
    ensures !failed ==> s.Valid() && s.roundNo == old(s.roundNo) + 1
    ensures !failed ==> Finishes(null, old(s.previousGame), s.currentGame, s.previousGame)
    ensures s.registry.View() == old(s.registry.View())
  {
    failed := s.RoundRoutine([], socket);
  }

  method CallRound(s: Server, to: seq<Cell>, socket: Socket) returns (failed: bool)
    requires s.Valid() && (s.currentGame != null ==> |to| == |s.currentGame.players|)
    modifies s, s.Current(), (if s.currentGame == null then {} else {s.currentGame.board.eaten})
    modifies s.InGame()`position, s.InGame()`alive
    ensures !failed ==> s.Valid() && s.roundNo == old(s.roundNo) + 1
    ensures !failed ==> Finishes(old(s.currentGame), old(s.previousGame), s.currentGame, s.previousGame)
    ensures s.registry.View() == old(s.registry.View())
  {
    if s.currentGame != null {
      failed := CallQuietRound(s, to, socket);
    } else {
      failed := CallIdleRound(s, socket);
    }
  }

  ghost function FinishedBy(finished: seq<Game>, current: Game?, now: Game?): seq<Game> {
    if current != null && now == null then finished + [current] else finished
  }

  lemma RoundRecorded(r: R.Registry, roundNo: nat, current: Game?, previous: Game?, now: Game?, before: Game?,
                      ops: seq<S.Op>, finished: seq<Game>)
    requires Recorded(r, roundNo, current, previous, ops, finished) && Finishes(current, previous, now, before)
    ensures Recorded(r, roundNo + 1, now, before, ops + [S.Round(current != null && now == null)],
                     FinishedBy(finished, current, now))
  {
    OneMore(ops, S.Round(current != null && now == null));
  }

  /** round_routine. */
  method PlayRound(s: Server, to: seq<Cell>, socket: Socket, ghost ops: seq<S.Op>, ghost finished: seq<Game>)
    returns (failed: bool, ghost more: seq<S.Op>, ghost done: seq<Game>)
    requires s.Valid() && Follows(s, ops, finished)
    requires s.currentGame != null ==> |to| == |s.currentGame.players|
    modifies s, s.Current(), (if s.currentGame == null then {} else {s.currentGame.board.eaten})
    modifies s.InGame()`position, s.InGame()`alive
    ensures !failed ==> s.Valid() && Follows(s, more, done)
    ensures more == ops + [S.Round(old(s.currentGame) != null && s.currentGame == null)]
    ensures done == FinishedBy(finished, old(s.currentGame), s.currentGame)
  {
    ghost var r, roundNo, current, previous := s.registry.View(), s.roundNo, s.currentGame, s.previousGame;
    failed := CallRound(s, to, socket);
    more := ops + [S.Round(current != null && s.currentGame == null)];
    done := FinishedBy(finished, current, s.currentGame);
    if !failed {
      RoundRecorded(r, roundNo, current, previous, s.currentGame, s.previousGame, ops, finished);
    }
  }

  // ---------- heartbeats ----------

  /** The heartbeat is from the session that is connected from that address. */
  predicate Known(r: R.Registry, sender: Address, h: Heartbeat) {
    S.Fits(h.name) && sender in r.clients && r.clients[sender].session == h.session
  }

  /** The game that goes on, or else the one finished last. */
  ghost function GameToTell(current: Game?, finished: seq<Game>): Game? {
    if current != null then current else if finished == [] then null else finished[|finished| - 1]
  }

  ghost function LogOf(game: Game?): seq<Event>
    reads (if game == null then {} else {game})`events
  {
    if game == null then [] else game.events
  }

  /** What a heartbeat is answered with. known: whether it is from a session that is connected; log: the events of the
      game to tell about. */
  ghost predicate Told(answer: seq<Packet>, sender: Address, h: Heartbeat, known: bool, game: Game?, log: seq<Event>) {
    if known && game != null then
      && Answer(CRC32(), answer, sender, game.gameId, From(log, h.next))
      && answer == Package(News(CRC32(), game.gameId, log, h.next), sender)
    else answer == []
  }

  lemma ReplyTells(s: Server, sender: Address, h: Heartbeat, finished: seq<Game>)
    requires s.Valid() && s.previousGame == (if finished == [] then null else finished[|finished| - 1])
    ensures var game := GameToTell(s.currentGame, finished);
            Told(s.ReplyTo(sender, Some(h)), sender, h, Known(s.registry.View(), sender, h), game, LogOf(game))
  {
    var game := GameToTell(s.currentGame, finished);
    assert Known(s.registry.View(), sender, h) <==> Knows(s.registry.connectedClients, sender, h) by {
      assert sender in s.registry.connectedClients ==>
          s.registry.View().clients[sender].session == s.registry.connectedClients[sender].sessionId;
    }
    if game != null {
      PackageAnswers(News(CRC32(), game.gameId, game.events, h.next), sender);
    }
  }

  function WithHeard(ops: seq<S.Op>, sender: Address, heartbeat: Option<Heartbeat>): seq<S.Op> {
    if heartbeat.Some? then ops + [S.Hear(sender, heartbeat.value)] else ops
  }

  lemma HeartbeatRecorded(r: R.Registry, roundNo: nat, current: Game?, now: Game?, previous: Game?, ops: seq<S.Op>,
                          finished: seq<Game>, sender: Address, heartbeat: Option<Heartbeat>, t: R.Registry)
    requires Recorded(r, roundNo, current, previous, ops, finished)
    requires t == Heard(r, roundNo, current != null, now != null, sender, heartbeat)
    requires Runs(current, now, r, roundNo, sender, heartbeat)
    ensures Recorded(t, roundNo, now, previous, WithHeard(ops, sender, heartbeat), finished)
    ensures heartbeat.Some? && current == null ==>
              (now != null <==> S.Complete(ops + [S.Hear(sender, heartbeat.value)], |ops|))
  {
    if heartbeat.Some? {
      var op := S.Hear(sender, heartbeat.value);
      OneMore(ops, op);
      S.BeginsExactly(ops + [op], |ops|);
    }
  }

  /** handle_heartbeat, as far as it matters here. */
  method CallHeartbeat(s: Server, sender: Address, datagram: seq<byte>, gameId: uint32, cells: nat -> Cell,
                       socket: Socket)
    returns (failed: bool)
    requires s.Valid() && s.receiveBuff.Valid() && s.receiveBuff.Exhausted()
    modifies s.receiveBuff`size, s.receiveBuff`pos, s.receiveBuff.buff
    modifies s`currentGame, s`state, s`sendQueue, s`sent, s.Current()`observers
    modifies s.registry`connectedClients, s.registry`connectedPlayers, s.registry`connectedUnnames
    modifies s.registry`playerNames, s.registry.connectedClients.Values`lastHeartbeatRoundNo
    modifies s.registry.Owned()`turnDirection, s.registry.Owned()`ready, s.registry.Owned()`alive
    modifies s.registry.Owned()`position, s.registry.Owned()`connected, s.registry.Owned()`client
    ensures !failed ==> s.Valid()
    ensures !failed ==>
              Runs(old(s.currentGame), s.currentGame, old(s.registry.View()), s.roundNo, sender, HeartbeatIn(datagram))
    ensures !failed ==>
              && s.registry.View() == Heard(old(s.registry.View()), s.roundNo, old(s.currentGame) != null,
                                            s.currentGame != null, sender, HeartbeatIn(datagram))
              && s.sent + s.sendQueue == old(s.sent) + (old(s.sendQueue) + old(s.Answered(sender, datagram)))
  {
    failed := s.HandleHeartbeat(sender, datagram, gameId, cells, socket);
  }

  /** And what it is answered with. */
  method AnswerHeartbeat(s: Server, sender: Address, datagram: seq<byte>, gameId: uint32, cells: nat -> Cell,
                         socket: Socket, ghost finished: seq<Game>)
    returns (failed: bool, ghost answer: seq<Packet>)
    requires s.Valid() && s.receiveBuff.Valid() && s.receiveBuff.Exhausted()
    requires s.previousGame == (if finished == [] then null else finished[|finished| - 1])
    modifies s.receiveBuff`size, s.receiveBuff`pos, s.receiveBuff.buff
    modifies s`currentGame, s`state, s`sendQueue, s`sent, s.Current()`observers
    modifies s.registry`connectedClients, s.registry`connectedPlayers, s.registry`connectedUnnames
    modifies s.registry`playerNames, s.registry.connectedClients.Values`lastHeartbeatRoundNo
    modifies s.registry.Owned()`turnDirection, s.registry.Owned()`ready, s.registry.Owned()`alive
    modifies s.registry.Owned()`position, s.registry.Owned()`connected, s.registry.Owned()`client
    ensures !failed ==> s.Valid()
    ensures !failed ==>
              && Runs(old(s.currentGame), s.currentGame, old(s.registry.View()), s.roundNo, sender,
                      HeartbeatIn(datagram))
              && s.registry.View() == Heard(old(s.registry.View()), s.roundNo, old(s.currentGame) != null,
                                            s.currentGame != null, sender, HeartbeatIn(datagram))
    ensures ToldOf(answer, sender, HeartbeatIn(datagram), old(s.registry.View()),
                   GameToTell(old(s.currentGame), finished), old(LogOf(GameToTell(s.currentGame, finished))))
    ensures !failed ==> s.sent + s.sendQueue == old(s.sent) + (old(s.sendQueue) + answer)
  {
    answer := s.Answered(sender, datagram);
    if HeartbeatIn(datagram).Some? {
      ReplyTells(s, sender, HeartbeatIn(datagram).value, finished);
    }
    failed := CallHeartbeat(s, sender, datagram, gameId, cells, socket);
  }

  /** The game that goes on after a heartbeat. */
  predicate Runs(current: Game?, now: Game?, r: R.Registry, roundNo: nat, sender: Address,
                 heartbeat: Option<Heartbeat>)
  {
    if current != null then now == current else now != null <==> HeardOpens(r, roundNo, false, sender, heartbeat)
  }

  ghost predicate ToldOf(answer: seq<Packet>, sender: Address, heartbeat: Option<Heartbeat>, r: R.Registry, game: Game?,
                         log: seq<Event>)
  {
    if heartbeat.None? then answer == []
    else Told(answer, sender, heartbeat.value, Known(r, sender, heartbeat.value), game, log)
  }

  /** handle_heartbeat. answer: what it queues. */
  method Hear(s: Server, sender: Address, datagram: seq<byte>, gameId: uint32, cells: nat -> Cell, socket: Socket,
              ghost ops: seq<S.Op>, ghost finished: seq<Game>)
    returns (failed: bool, ghost more: seq<S.Op>, ghost answer: seq<Packet>)
    requires s.Valid() && s.receiveBuff.Valid() && s.receiveBuff.Exhausted() && Follows(s, ops, finished)
    modifies s.receiveBuff`size, s.receiveBuff`pos, s.receiveBuff.buff
    modifies s`currentGame, s`state, s`sendQueue, s`sent, s.Current()`observers
    modifies s.registry`connectedClients, s.registry`connectedPlayers, s.registry`connectedUnnames
    modifies s.registry`playerNames, s.registry.connectedClients.Values`lastHeartbeatRoundNo
    modifies s.registry.Owned()`turnDirection, s.registry.Owned()`ready, s.registry.Owned()`alive
    modifies s.registry.Owned()`position, s.registry.Owned()`connected, s.registry.Owned()`client
    ensures more == WithHeard(ops, sender, HeartbeatIn(datagram))
    ensures !failed ==> s.Valid() && Follows(s, more, finished)
    ensures !failed && old(s.currentGame) != null ==> s.currentGame == old(s.currentGame)
    ensures !failed && old(s.currentGame) == null && HeartbeatIn(datagram).Some? ==>
              (s.currentGame != null <==> S.Complete(ops + [S.Hear(sender, HeartbeatIn(datagram).value)], |ops|))
    ensures ToldOf(answer, sender, HeartbeatIn(datagram), old(s.registry.View()),
                   GameToTell(old(s.currentGame), finished), old(LogOf(GameToTell(s.currentGame, finished))))
    ensures !failed ==> s.sent + s.sendQueue == old(s.sent) + (old(s.sendQueue) + answer)
  {
    ghost var r, roundNo, current, previous := s.registry.View(), s.roundNo, s.currentGame, s.previousGame;
    ghost var heartbeat := HeartbeatIn(datagram);
    more := WithHeard(ops, sender, heartbeat);
    failed, answer := AnswerHeartbeat(s, sender, datagram, gameId, cells, socket, finished);
    if !failed {
      HeartbeatRecorded(r, roundNo, current, s.currentGame, previous, ops, finished, sender, heartbeat,
                        s.registry.View());
    }
  }

  // ---------- from client to server and back ----------

  lemma SmallHeartbeat(d: seq<byte>, h: Heartbeat)
    requires DecodeHeartbeat(d) == Some(h) && 13 + |h.name| <= 550
    ensures HeartbeatIn(d) == Some(h)
  {
    HeartbeatUnique(d);
    assert d[..|d|] == d;
  }

  /** What is queued for a session that is connected is a step of the protocol in which its game sends. */
  lemma AnswerSends(p: System, answer: seq<Packet>, sender: Address, h: Heartbeat, game: Game, log: seq<Event>)
    requires Told(answer, sender, h, true, game, log)
    requires game.gameId in p.logs && p.logs[game.gameId] == log && h.next <= |log|
    ensures Sends(CRC32(), p, WithPackets(p, answer), game.gameId, h.next)
  {
    PackageSends(CRC32(), p, game.gameId, h.next, sender);
  }

  /** Recovery, from the bytes the client sends to the bytes that come back: if the heartbeat that tells what it expects
      next reaches the server in the session that is connected, and every datagram of the answer comes back, in whatever
      order and however often, then the repaired client is in step with the game and has all that had been logged. */
  lemma Recovers(c: C.State, log: seq<Event>, base: seq<Line>, d: seq<byte>, h: Heartbeat, r: R.Registry,
                 sender: Address, game: Game, answer: seq<Packet>, ds: seq<seq<byte>>, slices: seq<seq<Event>>)
    requires GameLog(log) && InStep(c, log, base) && c.next <= |log| && game.gameId == c.game
    requires DecodeHeartbeat(d) == Some(h) && h.next == c.next && 13 + |h.name| <= 550
    requires Known(r, sender, h) && ToldOf(answer, sender, HeartbeatIn(d), r, game, log)
    requires |ds| == |slices| && forall i :: 0 <= i < |ds| ==> ds[i] == Datagram(CRC32(), c.game, slices[i])
    requires SlicesOf(log, slices) && forall i :: 0 <= i < |answer| ==> answer[i].bytes in ds
    ensures var after := TakeDatagrams(Repaired, CRC32(), c, ds);
            after.next >= |log| && InStep(after, log, base)
  {
    SmallHeartbeat(d, h);
    AnswerConverges(CRC32(), c, log, base, answer, sender, ds, slices);
  }
}
