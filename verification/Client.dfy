/** The receiving side of Client/Client.cpp: reassembly of a game's event log from its datagrams. */
module Client {
  import opened Bytes
  import opened Wire
  import opened Datagrams
  import opened EventLogs
  import opened Text
  import opened UdpBuffers
  import opened Variants

  // Three places of the code do not do what they are for. Repaired has them mended: the drain loop advances the
  // expected number, every game that is left is remembered, and a datagram of a game left behind is dropped.

  datatype State = State(
    failed: bool,  // the process has ended
    next: uint32,
    future: map<uint32, Event>,
    players: seq<Name>,
    width: uint32,
    height: uint32,
    game: uint32,
    joined: bool,  // whether a datagram has named the game; until then its id is a placeholder
    previous: set<uint32>,
    lines: seq<Line>)  // handed to the interface buffer so far

  const INITIAL := State(false, 0, map[], [], 0, 0, 0, false, {}, [])

  function Say(s: State, data: EventData): State {
    match Stringify(data, s.players)
    case None => s.(failed := true)
    case Some(line) => s.(lines := s.lines + [line])
  }

  /** The event that was expected next. */
  function TakeExpected(s: State, e: Event): State {
    var s1 := s.(next := (s.next + 1) % WRAP);
    match e.data
    case GameOver => s1
    case NewGame(maxx, maxy, names) => Say(s1.(players := names, width := maxx, height := maxy), e.data)
    case _ => if ValidData(e.data, s.players, s.width, s.height) then Say(s1, e.data) else s1.(failed := true)
  }

  function Keep(s: State, e: Event): State {
    if e.no in s.future then s else s.(future := s.future[e.no := e])
  }

  /** One kept event is printed and erased. As written, next stays. */
  function DrainOne(v: Variant, s: State): (r: State)
    requires s.next in s.future
    ensures r.future.Keys == s.future.Keys - {s.next}
  {
    var s1 := s.(future := s.future - {s.next});
    var s2 := if s.future[s.next].data.GameOver? then s1 else Say(s1, s.future[s.next].data);
    if v.Repaired? then s2.(next := (s.next + 1) % WRAP) else s2
  }

  function Drain(v: Variant, s: State): State
    decreases s.future.Keys
  {
    if s.failed || s.next !in s.future then s
    else
      assert s.next in s.future.Keys;
      Drain(v, DrainOne(v, s))
  }

  function TakeEvent(v: Variant, s: State, e: Event): State {
    if s.failed then s
    else if e.no == s.next then Drain(v, TakeExpected(s, e))
    else if e.no > s.next then Drain(v, Keep(s, e))
    else Drain(v, s)
  }

  function TakeAll(v: Variant, s: State, events: seq<Event>): State
    decreases events
  {
    if events == [] then s else TakeAll(v, TakeEvent(v, s, events[0]), events[1..])
  }

  predicate Stale(s: State, game: uint32) {
    game != s.game && game in s.previous
  }

  /** Whether the current game is remembered when it is left: as written, if one of its events was expected and
      came; repaired, if it is a game at all. */
  predicate Remembers(v: Variant, s: State) {
    if v.Repaired? then s.joined else s.next > 0
  }

  function Switch(v: Variant, s: State, game: uint32): State {
    if game == s.game then s.(joined := true)
    else if game in s.previous then s
    else
      s.(previous := if Remembers(v, s) then s.previous + {s.game} else s.previous,
         game := game, joined := true, future := map[], next := 0)
  }

  function TakeParsed(v: Variant, s: State, parsed: Parsed): State {
    var s1 := TakeAll(v, s, parsed.events);
    if parsed.ending.Fatal? then s1.(failed := true) else s1
  }

  function TakeDatagramOf(v: Variant, s: State, game: uint32, parsed: Parsed): State {
    if v.Repaired? && Stale(s, game) then s
    else TakeParsed(v, Switch(v, s, game), parsed)
  }

  /** One received datagram. One too short for a game id ends the process by an uncaught exception. */
  function TakeDatagram(v: Variant, crc: Checksum, s: State, d: seq<byte>): State {
    match Read32(d, 0)
    case None => s.(failed := true)
    case Some(game) => TakeDatagramOf(v, s, game, ParseEvents(crc, d, 4))
  }

  /** What is kept lies above what is expected. */
  predicate KeysAbove(s: State) {
    forall k <- s.future :: k > s.next
  }

  lemma LeastKey(keys: set<uint32>) returns (k: uint32)
    requires keys != {}
    ensures k in keys && forall j <- keys :: k <= j
  {
    var any :| any in keys;
    k := any;
    if keys - {any} != {} {
      var least := LeastKey(keys - {any});
      k := if least < any then least else any;
      forall j <- keys ensures k <= j {
        assert j == any || j in keys - {any};
      }
    } else {
      assert keys == {any};
    }
  }

  lemma TakeEventKeysAbove(v: Variant, s: State, e: Event)
    requires KeysAbove(s) || s.failed
    ensures KeysAbove(TakeEvent(v, s, e)) || TakeEvent(v, s, e).failed
  {
    if s.failed {
    } else if e.no == s.next {
      var s1 := TakeExpected(s, e);
      assert s1.future == s.future && (s1.next == s.next + 1 || s1.next == 0);
      DrainKeysAbove(v, s1);
    } else if e.no > s.next {
      DrainKeysAbove(v, Keep(s, e));
    } else {
      DrainKeysAbove(v, s);
    }
  }

  lemma {:induction false} DrainKeysAbove(v: Variant, s: State)
    requires s.failed || forall k <- s.future :: k >= s.next
    ensures Drain(v, s).failed || KeysAbove(Drain(v, s))
    decreases s.future.Keys
  {
    if !s.failed && s.next in s.future {
      DrainKeysAbove(v, DrainOne(v, s));
    }
  }

  class Client {
    const serverReceiveBuff: UDPReceiveBuffer
    var failed: bool
    var nextExpectedEventNo: uint32
    var futureEvents: map<uint32, Event>
    var players: seq<Name>
    var boardWidth: uint32
    var boardHeight: uint32
    var currentGameId: uint32
    var previousGameIds: set<uint32>
    var ifaceLines: seq<Line>

    ghost var joined: bool  // the code has no such flag

    ghost predicate Valid()
      reads this, serverReceiveBuff
    {
      serverReceiveBuff.Valid() && (failed || KeysAbove(View()))
    }

    ghost function View(): State
      reads this
    {
      State(failed, nextExpectedEventNo, futureEvents, players, boardWidth, boardHeight,
            currentGameId, joined, previousGameIds, ifaceLines)
    }

    constructor ()
      ensures Valid() && View() == INITIAL && serverReceiveBuff.Exhausted()
      ensures fresh(serverReceiveBuff) && fresh(serverReceiveBuff.buff)
    {
      serverReceiveBuff := new UDPReceiveBuffer();
      failed, nextExpectedEventNo, futureEvents := false, 0, map[];
      players, boardWidth, boardHeight := [], 0, 0;
      currentGameId, previousGameIds, ifaceLines, joined := 0, {}, [], false;
    }

    /** The datagram tells the server which event the client expects. result: what the socket makes of it. */
    method SendHeartbeat(b: UDPSendBuffer, sessionId: uint64, turnDirection: byte, playerName: Name, result: SendResult)
      returns (sent: bool, ghost datagram: seq<byte>)
      requires b.Valid() && 13 + |playerName| <= MAX_DATA_SIZE && !failed
      modifies b`size, b.buff, this`failed
      ensures b.Valid() && (sent <==> result == Accepted) && (failed <==> result == Broken)
      ensures b.Contents() == if sent then [] else datagram
      ensures DecodeHeartbeat(datagram) == Some(Heartbeat(sessionId, turnDirection, nextExpectedEventNo, playerName))
    {
      b.Clear();
      var h := Heartbeat(sessionId, turnDirection, nextExpectedEventNo, playerName);
      PackHeartbeat(h, b);
      datagram := b.Contents();
      HeartbeatRoundTrip(h);
      assert [] + EncodeHeartbeat(h) == EncodeHeartbeat(h);
      sent, failed := b.Flush(result);
    }

    method Print(data: EventData)
      modifies this`failed, this`ifaceLines
      ensures View() == Say(old(View()), data)
    {
      var line := Stringify(data, players);
      if line.None? {
        failed := true;
      } else {
        ifaceLines := ifaceLines + [line.value];
      }
    }

    /** The loop that prints kept events while the least of them is the expected one. */
    method DrainFuture()
      requires !failed && forall k <- futureEvents :: k >= nextExpectedEventNo
      modifies this`failed, this`ifaceLines, this`futureEvents
      ensures View() == Drain(AsWritten, old(View()))
      ensures failed || KeysAbove(View())
    {
      ghost var s := View();
      DrainKeysAbove(AsWritten, s);
      while futureEvents != map[] && !failed
        invariant failed || forall k <- futureEvents :: k >= nextExpectedEventNo
        invariant Drain(AsWritten, s) == Drain(AsWritten, View())
        invariant nextExpectedEventNo == s.next
        decreases futureEvents.Keys
      {
        ghost var least := LeastKey(futureEvents.Keys);
        var first :| first in futureEvents && forall k <- futureEvents :: first <= k;
        if first == nextExpectedEventNo {
          var e := futureEvents[first];
          futureEvents := futureEvents - {first};
          if !e.data.GameOver? {
            Print(e.data);
          }
        } else {
          break;
        }
      }
    }

    method TakeExpectedEvent(e: Event)
      requires !failed
      modifies this
      ensures View() == TakeExpected(old(View()), e)
      ensures e.data.Pixel? ==>
                (failed <==> e.data.x >= boardWidth || e.data.y >= boardHeight || e.data.player >= |players|)
      ensures e.data.Eliminated? ==> (failed <==> e.data.player >= |players|)
      ensures e.data.NewGame? ==>
                !failed && players == e.data.players && boardWidth == e.data.maxx && boardHeight == e.data.maxy
      ensures !e.data.NewGame? ==> unchanged(`players, `boardWidth, `boardHeight)
      ensures e.data.GameOver? ==> !failed && ifaceLines == old(ifaceLines)
    {
      nextExpectedEventNo := (nextExpectedEventNo + 1) % WRAP;
      if !e.data.GameOver? {
        if e.data.NewGame? {
          players, boardHeight, boardWidth := e.data.players, e.data.maxy, e.data.maxx;
        }
        if ValidData(e.data, players, boardWidth, boardHeight) {
          Print(e.data);
        } else {
          failed := true;
        }
      }
    }

    method HandleEvent(e: Event)
      requires Valid() && !failed
      modifies this
      ensures Valid() && View() == TakeEvent(AsWritten, old(View()), e)
    {
      if e.no == nextExpectedEventNo {
        TakeExpectedEvent(e);
      } else if e.no > nextExpectedEventNo {
        if e.no !in futureEvents {
          futureEvents := futureEvents[e.no := e];
        }
      }
      if !failed {
        DrainFuture();
      }
    }

    /** The game id of a datagram. */
    method SwitchTo(gameId: uint32)
      requires Valid() && !failed
      modifies this`currentGameId, this`joined, this`previousGameIds, this`futureEvents, this`nextExpectedEventNo
      ensures Valid() && View() == Switch(AsWritten, old(View()), gameId)
    {
      if gameId != currentGameId && gameId !in previousGameIds {
        if nextExpectedEventNo > 0 {
          previousGameIds := previousGameIds + {currentGameId};
        }
        currentGameId := gameId;
        futureEvents := map[];
        nextExpectedEventNo := 0;
      }
      joined := joined || currentGameId == gameId;
    }

    /** Of a longer datagram the first 550 bytes are received. */
    method HandleEvents(datagram: seq<byte>)
      requires Valid() && !failed && serverReceiveBuff.Exhausted()
      modifies this, serverReceiveBuff, serverReceiveBuff.buff
      ensures Valid() && (failed || serverReceiveBuff.Exhausted())
      ensures View() == TakeDatagram(AsWritten, CRC32(), old(View()), datagram[..Min(|datagram|, MAX_DATA_SIZE)])
      ensures |datagram| < 4 ==> failed
    {
      serverReceiveBuff.Populate(datagram);
      ghost var d := serverReceiveBuff.Received();
      var gameId := serverReceiveBuff.Unpack32();
      if gameId.None? {
        failed := true;
        return;
      }
      SwitchTo(gameId.value);
      HandleRest();
    }

    /** The loop over the events of a datagram, from the cursor on. */
    method HandleRest()
      requires Valid() && !failed
      modifies this, serverReceiveBuff`pos, serverReceiveBuff`size
      ensures Valid() && (failed || serverReceiveBuff.Exhausted())
      ensures View() == TakeParsed(AsWritten, old(View()),
                                   old(ParseEvents(CRC32(), serverReceiveBuff.Received(), serverReceiveBuff.pos)))
    {
      ghost var crc, d, start := CRC32(), serverReceiveBuff.Received(), View();
      ghost var parsed := ParseEvents(crc, d, serverReceiveBuff.pos);
      while !serverReceiveBuff.Exhausted() && !failed
        invariant Valid() && serverReceiveBuff.Received() == d
        invariant TakeParsed(AsWritten, start, parsed)
                  == TakeParsed(AsWritten, View(), ParseEvents(crc, d, serverReceiveBuff.pos))
        decreases serverReceiveBuff.size - serverReceiveBuff.pos
      {
        ghost var pos := serverReceiveBuff.pos;
        var attempt := serverReceiveBuff.Unpack();
        TakeStep(AsWritten, crc, d, pos, View(), attempt);
        match attempt
        case Got(event, _) =>
          HandleEvent(event);
        case UnknownType(_) =>
        case BadData =>
          failed := true;
          return;
        case CrcMismatch =>
          serverReceiveBuff.Discard();
          return;
      }
      if failed {
        TakeAllFailed(AsWritten, View(), ParseEvents(crc, d, serverReceiveBuff.pos).events);
      }
    }
  }

  /** One turn of the loop over the events of a datagram. */
  lemma TakeStep(v: Variant, crc: Checksum, d: seq<byte>, pos: nat, s: State, a: Attempt)
    requires pos < |d| && a == UnpackEvent(crc, d, pos)
    ensures TakeParsed(v, s, ParseEvents(crc, d, pos)) ==
            match a
            case Got(e, next) => TakeParsed(v, TakeEvent(v, s, e), ParseEvents(crc, d, next))
            case UnknownType(next) => TakeParsed(v, s, ParseEvents(crc, d, next))
            case CrcMismatch => s
            case BadData => s.(failed := true)
  {
    if a.Got? {
      var rest := ParseEvents(crc, d, a.pos);
      assert ParseEvents(crc, d, pos).events == [a.event] + rest.events;
      assert ([a.event] + rest.events)[1..] == rest.events;
    }
  }

  lemma {:induction false} TakeAllFailed(v: Variant, s: State, events: seq<Event>)
    requires s.failed
    ensures TakeAll(v, s, events) == s
  {
    if events != [] {
      TakeAllFailed(v, s, events[1..]);
    }
  }
}
