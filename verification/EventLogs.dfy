/** What the event log of a game guarantees to its readers, and the lines it makes for the interface. */
module EventLogs {
  import opened Bytes
  import opened Wire
  import opened Datagrams
  import opened Text

  /** check_validity. */
  predicate ValidData(data: EventData, players: seq<Name>, width: uint32, height: uint32) {
    match data
    case NewGame(_, _, _) => true
    case Pixel(player, x, y) => player < |players| && x < width && y < height
    case Eliminated(player) => player < |players|
    case GameOver => true
  }

  predicate LaterOk(first: EventData, data: EventData)
    requires first.NewGame?
  {
    !data.NewGame? && ValidData(data, first.players, first.maxx, first.maxy)
  }

  /** Numbers are indices, NEW_GAME comes first and only there, GAME_OVER at most at the end, and all else makes
      sense after the first event. */
  predicate LogOk(log: seq<Event>) {
    && 0 < |log| < WRAP
    && log[0].data.NewGame?
    && (forall i :: 0 <= i < |log| ==> log[i].no == i)
    && (forall i :: 0 < i < |log| ==> LaterOk(log[0].data, log[i].data))
    && (forall i :: 0 <= i < |log| - 1 ==> !log[i].data.GameOver?)
  }

  /** Moreover every event fits a datagram. */
  predicate GameLog(log: seq<Event>) {
    LogOk(log) && AllPackable(log)
  }

  function LineOf(log: seq<Event>, i: nat): seq<Line>
    requires LogOk(log) && i < |log|
  {
    if log[i].data.GameOver? then [] else [Stringify(log[i].data, log[0].data.players).value]
  }

  /** What the interface should have been told once the events below n are in. */
  function Lines(log: seq<Event>, n: nat): seq<Line>
    requires LogOk(log) && n <= |log|
  {
    if n == 0 then [] else Lines(log, n - 1) + LineOf(log, n - 1)
  }

  predicate FromLog(log: seq<Event>, e: Event)
    requires LogOk(log)
  {
    e.no < |log| && e == log[e.no]
  }

  predicate AllFromLog(log: seq<Event>, events: seq<Event>)
    requires LogOk(log)
  {
    forall i :: 0 <= i < |events| ==> FromLog(log, events[i])
  }

  lemma {:induction false} LinesPrefix(log: seq<Event>, more: seq<Event>, n: nat)
    requires LogOk(log) && LogOk(more) && log <= more && n <= |log|
    ensures Lines(log, n) == Lines(more, n)
  {
    if n > 0 {
      LinesPrefix(log, more, n - 1);
    }
  }

  lemma SliceFromLog(log: seq<Event>, from: nat, slice: seq<Event>)
    requires GameLog(log) && from + |slice| <= |log| && slice == log[from..from + |slice|]
    ensures AllFromLog(log, slice) && AllPackable(slice)
  {
    forall i | 0 <= i < |slice| ensures FromLog(log, slice[i]) && Packable(slice[i]) {
      assert slice[i] == log[from + i];
    }
  }

  lemma PartPackable(log: seq<Event>, from: nat, upTo: nat)
    requires AllPackable(log) && from <= upTo <= |log|
    ensures AllPackable(log[from..upTo])
  {
    forall k | 0 <= k < upTo - from ensures Packable(log[from..upTo][k]) {
      assert log[from..upTo][k] == log[from + k];
    }
  }
}
