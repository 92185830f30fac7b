/** The whole protocol: games that log events, a server that sends slices of the logs, a network that loses,
    repeats and reorders datagrams, and one client. */
module Protocol {
  import opened Bytes
  import opened Wire
  import opened Datagrams
  import opened EventLogs
  import opened Text
  import opened Client
  import opened Reassembly
  import opened StaleDatagrams
  import opened Variants

  type Logs = map<uint32, seq<Event>>

  /** A stretch of consecutive games of the client: which one, and how many of its events were taken in. */
  datatype Visit = Visit(game: uint32, upTo: nat)

  datatype System = System(
    logs: Logs,
    network: set<seq<byte>>,  // everything ever sent; any of it may arrive at any time, any number of times, or never
    client: State,
    done: seq<Visit>)  // history: the games the client has moved on from

  predicate GoodLogs(logs: Logs) {
    forall g <- logs :: GameLog(logs[g])
  }

  // ---------- steps ----------

  predicate Starts(s: System) {
    s == System(map[], {}, INITIAL, [])
  }

  /** A game begins or logs more events; nothing logged is ever changed. */
  predicate Grows(s: System, t: System, g: uint32, log: seq<Event>) {
    && GameLog(log) && (g in s.logs ==> s.logs[g] <= log)
    && t == s.(logs := s.logs[g := log])
  }

  /** A reply to a heartbeat or a dissemination: the datagrams of a log from one event on. */
  predicate Sends(crc: Checksum, s: System, t: System, g: uint32, from: nat) {
    && g in s.logs && from <= |s.logs[g]|
    && t == s.(network := s.network + (set slice <- Slices(s.logs[g][from..]) :: Datagram(crc, g, slice)))
  }

  /** What the client as written must be spared; nothing for the repaired one. Of a game left behind: events it has a
      use for. Of its own: events that print another one early. */
  predicate Harmless(v: Variant, c: State, g: uint32, events: seq<Event>) {
    v.Repaired? || if Stale(c, g) then NoUse(c, events) else g == c.game ==> !PrintsAhead(c, events)
  }

  /** A datagram reaches the client, unless its process has ended. */
  predicate Arrives(v: Variant, crc: Checksum, s: System, t: System, d: seq<byte>) {
    && d in s.network && Read32(d, 0).Some? && !s.client.failed
    && t == After(s, TakeDatagram(v, crc, s.client, d))
  }

  predicate Delivers(v: Variant, crc: Checksum, s: System, t: System, d: seq<byte>) {
    Arrives(v, crc, s, t, d) && Harmless(v, s.client, Read32(d, 0).value, ParseEvents(crc, d, 4).events)
  }

  /** The client has become c. */
  function After(s: System, c: State): System {
    s.(client := c, done := Moved(s, c))
  }

  /** What the client has before its first datagram is no game. */
  function Moved(s: System, c: State): seq<Visit> {
    if c.game == s.client.game || !s.client.joined then s.done else s.done + [Visit(s.client.game, s.client.next)]
  }

  ghost predicate Step(v: Variant, crc: Checksum, s: System, t: System) {
    || (exists g, log :: Grows(s, t, g, log))
    || (exists g, from :: Sends(crc, s, t, g, from))
    || (exists d :: Delivers(v, crc, s, t, d))
  }

  ghost predicate Run(v: Variant, crc: Checksum, run: seq<System>) {
    run != [] && Starts(run[0]) && forall i :: 0 < i < |run| ==> Step(v, crc, run[i - 1], run[i])
  }

  /** The same without Harmless: whatever arrives, arrives. */
  ghost predicate AnyStep(v: Variant, crc: Checksum, s: System, t: System) {
    || (exists g, log :: Grows(s, t, g, log))
    || (exists g, from :: Sends(crc, s, t, g, from))
    || (exists d :: Arrives(v, crc, s, t, d))
  }

  ghost predicate AnyRun(v: Variant, crc: Checksum, run: seq<System>) {
    run != [] && Starts(run[0]) && forall i :: 0 < i < |run| ==> AnyStep(v, crc, run[i - 1], run[i])
  }

  // ---------- what every run keeps ----------

  predicate Slice(logs: Logs, g: uint32, slice: seq<Event>, from: nat) {
    g in logs && from + |slice| <= |logs[g]| && slice == logs[g][from..from + |slice|]
  }

  ghost predicate Genuine(crc: Checksum, logs: Logs, d: seq<byte>) {
    exists g, slice, from :: Slice(logs, g, slice, from) && d == Datagram(crc, g, slice)
  }

  /** Whether the client remembers a game left so. */
  predicate Counts(v: Variant, visit: Visit) {
    v.Repaired? || visit.upTo > 0
  }

  predicate VisitOk(v: Variant, logs: Logs, previous: set<uint32>, visit: Visit) {
    && (visit.upTo > 0 ==> visit.game in logs && visit.upTo <= |logs[visit.game]|)
    && (Counts(v, visit) ==> visit.game in previous)
  }

  predicate Left(v: Variant, done: seq<Visit>, g: uint32) {
    exists i :: 0 <= i < |done| && done[i].game == g && Counts(v, done[i])
  }

  /** The lines of a series of visits. */
  function Told(logs: Logs, visits: seq<Visit>): seq<Line>
    requires GoodLogs(logs)
    requires forall i :: 0 <= i < |visits| && visits[i].upTo > 0 ==>
               visits[i].game in logs && visits[i].upTo <= |logs[visits[i].game]|
  {
    if visits == [] then []
    else
      var last := visits[|visits| - 1];
      Told(logs, visits[..|visits| - 1]) + if last.upTo == 0 then [] else Lines(logs[last.game], last.upTo)
  }

  /** The ids remembered are exactly those of the visits that count, which are to different games. */
  predicate Visits(v: Variant, s: System) {
    && (forall i :: 0 <= i < |s.done| ==> VisitOk(v, s.logs, s.client.previous, s.done[i]))
    && (forall g <- s.client.previous :: Left(v, s.done, g))
    && CountedOnce(v, s.done)
    && s.client.game !in s.client.previous
  }

  /** Safety: the interface has been told, for each game that was ever shown, exactly a prefix of its log without
      GAME_OVER, in order and each event once, game after game, the last being the current one up to the expected
      event. What is kept belongs to it and is still to come. */
  predicate Safe(v: Variant, s: System) {
    && GoodLogs(s.logs) && Visits(v, s)
    && if s.client.joined then
         s.client.game in s.logs && InStep(s.client, s.logs[s.client.game], Told(s.logs, s.done))
       else s.client == INITIAL && s.done == []
  }

  /** Everything in the network was sent by a game. */
  ghost predicate Sourced(crc: Checksum, s: System) {
    GoodLogs(s.logs) && forall d <- s.network :: Genuine(crc, s.logs, d)
  }

  ghost predicate Inv(v: Variant, crc: Checksum, s: System) {
    Safe(v, s) && Sourced(crc, s)
  }

  // ---------- logging ----------

  lemma {:induction false} ToldGrows(logs: Logs, g: uint32, log: seq<Event>, visits: seq<Visit>)
    requires GoodLogs(logs) && GameLog(log) && (g in logs ==> logs[g] <= log)
    requires forall i :: 0 <= i < |visits| && visits[i].upTo > 0 ==>
               visits[i].game in logs && visits[i].upTo <= |logs[visits[i].game]|
    ensures Told(logs, visits) == Told(logs[g := log], visits)
  {
    if visits != [] {
      var last := visits[|visits| - 1];
      ToldGrows(logs, g, log, visits[..|visits| - 1]);
      if last.upTo > 0 && last.game == g {
        LinesPrefix(logs[g], log, last.upTo);
      }
    }
  }

  lemma GenuineGrows(crc: Checksum, logs: Logs, g: uint32, log: seq<Event>, d: seq<byte>)
    requires g in logs ==> logs[g] <= log
    requires Genuine(crc, logs, d)
    ensures Genuine(crc, logs[g := log], d)
  {
    var h, slice, from :| Slice(logs, h, slice, from) && d == Datagram(crc, h, slice);
    assert Slice(logs[g := log], h, slice, from);
  }

  lemma InStepGrows(c: State, log: seq<Event>, more: seq<Event>, base: seq<Line>)
    requires LogOk(log) && LogOk(more) && log <= more && InStep(c, log, base)
    ensures InStep(c, more, base)
  {
    LinesPrefix(log, more, c.next);
  }

  lemma LoggingVisits(v: Variant, s: System, t: System, g: uint32, log: seq<Event>)
    requires Visits(v, s) && Grows(s, t, g, log)
    ensures Visits(v, t)
  {
    forall i | 0 <= i < |t.done| ensures VisitOk(v, t.logs, t.client.previous, t.done[i]) {
      assert VisitOk(v, s.logs, s.client.previous, s.done[i]);
    }
    forall h <- t.client.previous ensures Left(v, t.done, h) {
      assert Left(v, s.done, h);
    }
  }

  lemma LoggingSafe(v: Variant, s: System, t: System, g: uint32, log: seq<Event>)
    requires Safe(v, s) && Grows(s, t, g, log)
    ensures Safe(v, t)
  {
    LoggingVisits(v, s, t, g, log);
    VisitsInLogs(v, s);
    ToldGrows(s.logs, g, log, s.done);
    if g == s.client.game && s.client.joined {
      InStepGrows(s.client, s.logs[g], log, Told(s.logs, s.done));
    }
  }

  lemma VisitsInLogs(v: Variant, s: System)
    requires Visits(v, s)
    ensures forall i :: 0 <= i < |s.done| && s.done[i].upTo > 0 ==>
              s.done[i].game in s.logs && s.done[i].upTo <= |s.logs[s.done[i].game]|
  {
    forall i | 0 <= i < |s.done| && s.done[i].upTo > 0
      ensures s.done[i].game in s.logs && s.done[i].upTo <= |s.logs[s.done[i].game]|
    {
      assert VisitOk(v, s.logs, s.client.previous, s.done[i]);
    }
  }

  lemma LoggingKeeps(v: Variant, crc: Checksum, s: System, t: System, g: uint32, log: seq<Event>)
    requires Inv(v, crc, s) && Grows(s, t, g, log)
    ensures Inv(v, crc, t)
  {
    LoggingSafe(v, s, t, g, log);
    forall d <- t.network ensures Genuine(crc, t.logs, d) {
      GenuineGrows(crc, s.logs, g, log, d);
    }
  }

  // ---------- sending ----------

  lemma {:induction false} SliceOfFlatten(slices: seq<seq<Event>>, i: nat) returns (from: nat)
    requires i < |slices|
    ensures from + |slices[i]| <= |Flatten(slices)|
    ensures slices[i] == Flatten(slices)[from..from + |slices[i]|]
    decreases |slices|
  {
    var rest := Flatten(slices[1..]);
    assert Flatten(slices) == slices[0] + rest;
    if i == 0 {
      from := 0;
    } else {
      var k := SliceOfFlatten(slices[1..], i - 1);
      from := |slices[0]| + k;
      assert Flatten(slices)[from..from + |slices[i]|] == rest[k..k + |slices[i]|];
    }
  }

  lemma TailPackable(log: seq<Event>, from: nat)
    requires AllPackable(log) && from <= |log|
    ensures AllPackable(log[from..])
  {
    forall i | 0 <= i < |log[from..]| ensures Packable(log[from..][i]) {
      assert log[from..][i] == log[from + i];
    }
  }

  lemma PartOfTail<T>(log: seq<T>, from: nat, k: nat, slice: seq<T>)
    requires from <= |log| && k + |slice| <= |log[from..]| && slice == log[from..][k..k + |slice|]
    ensures from + k + |slice| <= |log| && slice == log[from + k..from + k + |slice|]
  {}

  lemma SentIsGenuine(crc: Checksum, logs: Logs, g: uint32, from: nat, slice: seq<Event>)
    requires g in logs && GameLog(logs[g]) && from <= |logs[g]| && slice in Slices(logs[g][from..])
    ensures Genuine(crc, logs, Datagram(crc, g, slice))
  {
    var tail := logs[g][from..];
    TailPackable(logs[g], from);
    SlicesAreGreedy(tail, Slices(tail));
    var i :| 0 <= i < |Slices(tail)| && Slices(tail)[i] == slice;
    var k := SliceOfFlatten(Slices(tail), i);
    PartOfTail(logs[g], from, k, slice);
    assert Slice(logs, g, slice, from + k);
  }

  lemma SendingKeeps(v: Variant, crc: Checksum, s: System, t: System, g: uint32, from: nat)
    requires Inv(v, crc, s) && Sends(crc, s, t, g, from)
    ensures Inv(v, crc, t)
  {
    SentGenuine(crc, s, t, g, from);
  }

  lemma SentGenuine(crc: Checksum, s: System, t: System, g: uint32, from: nat)
    requires Sourced(crc, s) && Sends(crc, s, t, g, from)
    ensures Sourced(crc, t)
  {
    forall d <- t.network ensures Genuine(crc, t.logs, d) {
      if d !in s.network {
        var slice :| slice in Slices(s.logs[g][from..]) && d == Datagram(crc, g, slice);
        SentIsGenuine(crc, s.logs, g, from, slice);
      }
    }
  }

  // ---------- delivering ----------

  predicate SameGame(s: State, t: State) {
    s.game == t.game && s.joined == t.joined && s.previous == t.previous
  }

  lemma {:induction false} DrainKeepsGame(v: Variant, s: State)
    ensures SameGame(Drain(v, s), s)
    decreases s.future.Keys
  {
    if !s.failed && s.next in s.future {
      DrainKeepsGame(v, DrainOne(v, s));
    }
  }

  lemma {:induction false} TakeAllKeepsGame(v: Variant, s: State, events: seq<Event>)
    ensures SameGame(TakeAll(v, s, events), s)
    decreases events
  {
    if events != [] {
      var e := events[0];
      DrainKeepsGame(v, if e.no == s.next then TakeExpected(s, e) else if e.no > s.next then Keep(s, e) else s);
      TakeAllKeepsGame(v, TakeEvent(v, s, e), events[1..]);
    }
  }

  lemma ToldNext(logs: Logs, visits: seq<Visit>, last: Visit)
    requires GoodLogs(logs)
    requires forall i :: 0 <= i < |visits| && visits[i].upTo > 0 ==>
               visits[i].game in logs && visits[i].upTo <= |logs[visits[i].game]|
    requires last.upTo > 0 ==> last.game in logs && last.upTo <= |logs[last.game]|
    ensures Told(logs, visits + [last])
            == Told(logs, visits) + if last.upTo == 0 then [] else Lines(logs[last.game], last.upTo)
  {
    var all := visits + [last];
    assert all[..|all| - 1] == visits;
  }

  lemma LeftNext(v: Variant, done: seq<Visit>, last: Visit, g: uint32)
    ensures Left(v, done + [last], g) <==> Left(v, done, g) || (g == last.game && Counts(v, last))
  {
    var all := done + [last];
    assert all[|done|] == last;
    if i :| 0 <= i < |done| && done[i].game == g && Counts(v, done[i]) {
      assert all[i] == done[i];
    }
  }

  /** One more visit. */
  lemma NextVisitsOk(v: Variant, logs: Logs, done: seq<Visit>, previous: set<uint32>, last: Visit, now: set<uint32>)
    requires forall i :: 0 <= i < |done| ==> VisitOk(v, logs, previous, done[i])
    requires previous <= now && VisitOk(v, logs, now, last)
    ensures forall i :: 0 <= i < |done + [last]| ==> VisitOk(v, logs, now, (done + [last])[i])
  {
    var all := done + [last];
    forall i | 0 <= i < |all| ensures VisitOk(v, logs, now, all[i]) {
      if i < |done| {
        assert VisitOk(v, logs, previous, done[i]);
      }
    }
  }

  predicate CountedOnce(v: Variant, done: seq<Visit>) {
    forall i, j :: 0 <= i < j < |done| && Counts(v, done[i]) && Counts(v, done[j]) ==> done[i].game != done[j].game
  }

  lemma NextCountedOnce(v: Variant, logs: Logs, done: seq<Visit>, previous: set<uint32>, last: Visit)
    requires forall i :: 0 <= i < |done| ==> VisitOk(v, logs, previous, done[i])
    requires CountedOnce(v, done) && last.game !in previous
    ensures CountedOnce(v, done + [last])
  {
    var all := done + [last];
    forall i, j | 0 <= i < j < |all| && Counts(v, all[i]) && Counts(v, all[j]) ensures all[i].game != all[j].game {
      assert VisitOk(v, logs, previous, done[i]);
    }
  }

  lemma SwitchVisits(v: Variant, s: System, g: uint32, c: State)
    requires Safe(v, s) && !Stale(s.client, g) && g != s.client.game && s.client.joined
    requires c == Switch(v, s.client, g)
    ensures Visits(v, After(s, c))
  {
    var last := Visit(s.client.game, s.client.next);
    NextVisitsOk(v, s.logs, s.done, s.client.previous, last, c.previous);
    NextCountedOnce(v, s.logs, s.done, s.client.previous, last);
    forall h <- c.previous ensures Left(v, s.done + [last], h) {
      LeftNext(v, s.done, last, h);
    }
  }

  lemma SwitchMoves(v: Variant, s: System, g: uint32, c: State)
    requires Safe(v, s) && g in s.logs && !Stale(s.client, g) && c == Switch(v, s.client, g)
    requires g != s.client.game && s.client.joined
    ensures Safe(v, After(s, c))
  {
    SwitchVisits(v, s, g, c);
    SwitchedInStep(v, s, g, c, After(s, c).done);
  }

  lemma SwitchedInStep(v: Variant, s: System, g: uint32, c: State, done: seq<Visit>)
    requires Safe(v, s) && g in s.logs && !Stale(s.client, g) && c == Switch(v, s.client, g)
    requires g != s.client.game && s.client.joined && done == s.done + [Visit(s.client.game, s.client.next)]
    ensures (forall i :: 0 <= i < |done| && done[i].upTo > 0 ==>
               done[i].game in s.logs && done[i].upTo <= |s.logs[done[i].game]|)
            && InStep(c, s.logs[g], Told(s.logs, done))
  {
    VisitsInLogs(v, s);
    ToldNext(s.logs, s.done, Visit(s.client.game, s.client.next));
    assert c.lines == Told(s.logs, done) + Lines(s.logs[g], 0);
  }

  lemma VisitsNone(v: Variant, s: System)
    requires s.done == [] && s.client.previous == {}
    ensures Visits(v, s)
  {}

  /** The switch of games, without the events that cause it. */
  lemma SwitchKeeps(v: Variant, s: System, g: uint32, c: State)
    requires Safe(v, s) && g in s.logs && !Stale(s.client, g) && c == Switch(v, s.client, g)
    ensures Safe(v, After(s, c)) && c.game == g && c.joined
  {
    if !s.client.joined {
      VisitsNone(v, After(s, c));
    } else if g != s.client.game {
      SwitchMoves(v, s, g, c);
    } else {
      assert c == s.client && After(s, c) == s;
    }
  }

  lemma VisitsSame(v: Variant, s: System, c: State)
    requires Visits(v, s) && SameGame(c, s.client)
    ensures Visits(v, s.(client := c))
  {
    forall i | 0 <= i < |s.done| ensures VisitOk(v, s.logs, c.previous, s.done[i]) {
      assert VisitOk(v, s.logs, s.client.previous, s.done[i]);
    }
  }

  lemma EventsKeep(v: Variant, s: System, events: seq<Event>)
    requires Safe(v, s) && s.client.joined && AllFromLog(s.logs[s.client.game], events)
    requires v.Repaired? || EarlyPrints(s.client, events) == 0
    ensures Safe(v, s.(client := TakeAll(v, s.client, events)))
  {
    var log, base := s.logs[s.client.game], Told(s.logs, s.done);
    TakeAllKeepsGame(v, s.client, events);
    VisitsSame(v, s, TakeAll(v, s.client, events));
    if v.Repaired? {
      assert Reassembled(s.client, s.client.next, s.client.future.Keys);
      ReassemblyExact(s.client, log, base, s.client.next, s.client.future.Keys, events);
    } else {
      AsWrittenKeepsStep(s.client, log, base, events);
    }
  }

  /** A slice of a log is read as what it is. */
  lemma SliceRead(v: Variant, crc: Checksum, s: System, g: uint32, slice: seq<Event>, from: nat)
    requires GoodLogs(s.logs) && Slice(s.logs, g, slice, from)
    ensures AllFromLog(s.logs[g], slice) && LogLike(slice, from)
    ensures Read32(Datagram(crc, g, slice), 0) == Some(g)
    ensures ParseEvents(crc, Datagram(crc, g, slice), 4) == Parsed(slice, Exhausted)
    ensures TakeDatagram(v, crc, s.client, Datagram(crc, g, slice))
            == if v.Repaired? && Stale(s.client, g) then s.client else TakeAll(v, Switch(v, s.client, g), slice)
  {
    SliceFromLog(s.logs[g], from, slice);
    DatagramRoundTrip(crc, g, slice);
    SliceLogLike(s.logs[g], slice, from);
  }

  lemma SliceLogLike(log: seq<Event>, slice: seq<Event>, from: nat)
    requires LogOk(log) && from + |slice| <= |log| && slice == log[from..from + |slice|]
    ensures LogLike(slice, from)
  {
    forall i | 0 <= i < |slice|
      ensures slice[i].no == from + i && (slice[i].data.NewGame? <==> slice[i].no == 0)
    {
      assert slice[i] == log[from + i];
      assert from + i > 0 ==> LaterOk(log[0].data, log[from + i].data);
    }
    forall i | 0 <= i < |slice| - 1 ensures !slice[i].data.GameOver? {
      assert slice[i] == log[from + i];
    }
  }

  /** A datagram of the current or a new game. */
  lemma FreshKeeps(v: Variant, s: System, g: uint32, slice: seq<Event>, from: nat)
    requires Safe(v, s) && Slice(s.logs, g, slice, from) && !Stale(s.client, g)
    requires AllFromLog(s.logs[g], slice) && LogLike(slice, from)
    requires v.Repaired? || (g == s.client.game ==> !PrintsAhead(s.client, slice))
    ensures Safe(v, After(s, TakeAll(v, Switch(v, s.client, g), slice)))
  {
    var c := Switch(v, s.client, g);
    var u := After(s, c);
    SwitchKeeps(v, s, g, c);
    TakeAllKeepsGame(v, c, slice);
    if v.AsWritten? {
      assert !PrintsAhead(c, slice);
      AsWrittenSliceExact(c, s.logs[g], Told(s.logs, u.done), from, slice);
      AsWrittenRunExact(c, s.logs[g], Told(s.logs, u.done), slice);
    }
    EventsKeep(v, u, slice);
  }

  lemma DeliveryKeeps(v: Variant, crc: Checksum, s: System, t: System, d: seq<byte>)
    requires Inv(v, crc, s) && Delivers(v, crc, s, t, d)
    ensures Inv(v, crc, t)
  {
    assert Genuine(crc, s.logs, d);
    var g, slice, from :| Slice(s.logs, g, slice, from) && d == Datagram(crc, g, slice);
    SliceRead(v, crc, s, g, slice, from);
    if Stale(s.client, g) {
      if v.AsWritten? {
        NoUseLeaves(s.client, slice);
      }
    } else {
      FreshKeeps(v, s, g, slice, from);
    }
  }

  lemma StepKeeps(v: Variant, crc: Checksum, s: System, t: System)
    requires Inv(v, crc, s) && Step(v, crc, s, t)
    ensures Inv(v, crc, t)
  {
    if g, log :| Grows(s, t, g, log) {
      LoggingKeeps(v, crc, s, t, g, log);
    } else if g, from :| Sends(crc, s, t, g, from) {
      SendingKeeps(v, crc, s, t, g, from);
    } else {
      var d :| Delivers(v, crc, s, t, d);
      DeliveryKeeps(v, crc, s, t, d);
    }
  }

  /** Every state of every run is safe: of the repaired client without exception, of the client as written
      as long as no datagram prints a line early and no late one is of use. */
  lemma {:induction false} RunsAreSafe(v: Variant, crc: Checksum, run: seq<System>, i: nat)
    requires Run(v, crc, run) && i < |run|
    ensures Inv(v, crc, run[i])
  {
    if i > 0 {
      RunsAreSafe(v, crc, run, i - 1);
      StepKeeps(v, crc, run[i - 1], run[i]);
    }
  }

  // ---------- one delivery to the client as written ----------

  /** Unless the datagram is of a game left behind, everything stays safe if and only if it does not make the client
      print ahead. */
  lemma AsWrittenDeliveryExact(crc: Checksum, s: System, t: System, g: uint32, slice: seq<Event>, from: nat)
    requires Safe(AsWritten, s) && Slice(s.logs, g, slice, from) && !Stale(s.client, g)
    requires t == After(s, TakeDatagram(AsWritten, crc, s.client, Datagram(crc, g, slice)))
    ensures Safe(AsWritten, t) <==> !(g == s.client.game && PrintsAhead(s.client, slice))
  {
    SliceRead(AsWritten, crc, s, g, slice, from);
    if g == s.client.game && PrintsAhead(s.client, slice) {
      var c := Switch(AsWritten, s.client, g);
      SwitchKeeps(AsWritten, s, g, c);
      TakeAllKeepsGame(AsWritten, c, slice);
      AsWrittenSliceExact(c, s.logs[g], Told(s.logs, s.done), from, slice);
    } else {
      FreshKeeps(AsWritten, s, g, slice, from);
    }
  }

  /** A datagram of a game left behind: everything stays safe if and only if the current game tolerates its events. */
  lemma StaleDeliveryExact(crc: Checksum, s: System, t: System, g: uint32, slice: seq<Event>, from: nat)
    requires Safe(AsWritten, s) && Slice(s.logs, g, slice, from) && Stale(s.client, g)
    requires t == After(s, TakeDatagram(AsWritten, crc, s.client, Datagram(crc, g, slice)))
    ensures Safe(AsWritten, t) <==> Tolerates(s.client, s.logs[s.client.game], slice)
    ensures NoUse(s.client, slice) ==> t == s
  {
    SliceRead(AsWritten, crc, s, g, slice, from);
    MisreadExactly(s.client, s.logs[s.client.game], Told(s.logs, s.done), from, slice);
    TakeAllKeepsGame(AsWritten, s.client, slice);
    VisitsSame(AsWritten, s, t.client);
    if NoUse(s.client, slice) {
      NoUseLeaves(s.client, slice);
    }
  }

  // ---------- whole runs of the client as written, whatever arrives ----------

  /** What a datagram may hold without the lines going wrong: told from the client's state and the log it is at, before
      the datagram is taken. */
  predicate Bears(s: System, g: uint32, slice: seq<Event>)
    requires GoodLogs(s.logs)
  {
    if Stale(s.client, g) then s.client.game in s.logs && Tolerates(s.client, s.logs[s.client.game], slice)
    else !(g == s.client.game && PrintsAhead(s.client, slice))
  }

  ghost predicate Borne(crc: Checksum, s: System, t: System) {
    || (exists g, log :: Grows(s, t, g, log))
    || (exists g, from :: Sends(crc, s, t, g, from))
    || (exists g, slice, from :: BorneArrival(crc, s, t, g, slice, from))
  }

  ghost predicate BorneArrival(crc: Checksum, s: System, t: System, g: uint32, slice: seq<Event>, from: nat) {
    GoodLogs(s.logs) && Slice(s.logs, g, slice, from) && Bears(s, g, slice)
    && Arrives(AsWritten, crc, s, t, Datagram(crc, g, slice))
  }

  lemma SourcedKept(v: Variant, crc: Checksum, s: System, t: System)
    requires Sourced(crc, s) && AnyStep(v, crc, s, t)
    ensures Sourced(crc, t)
  {
    if g, log :| Grows(s, t, g, log) {
      forall d <- t.network ensures Genuine(crc, t.logs, d) {
        GenuineGrows(crc, s.logs, g, log, d);
      }
    } else if g, from :| Sends(crc, s, t, g, from) {
      SentGenuine(crc, s, t, g, from);
    }
  }

  lemma DeliveryBorneExactly(crc: Checksum, s: System, t: System, g: uint32, slice: seq<Event>, from: nat)
    requires Safe(AsWritten, s) && Slice(s.logs, g, slice, from)
    requires t == After(s, TakeDatagram(AsWritten, crc, s.client, Datagram(crc, g, slice)))
    ensures Safe(AsWritten, t) <==> Bears(s, g, slice)
  {
    if Stale(s.client, g) {
      StaleDeliveryExact(crc, s, t, g, slice, from);
    } else {
      AsWrittenDeliveryExact(crc, s, t, g, slice, from);
    }
  }

  lemma StepBorneExactly(crc: Checksum, s: System, t: System)
    requires Safe(AsWritten, s) && Sourced(crc, s) && AnyStep(AsWritten, crc, s, t)
    ensures Safe(AsWritten, t) <==> Borne(crc, s, t)
  {
    if g, log :| Grows(s, t, g, log) {
      LoggingSafe(AsWritten, s, t, g, log);
    } else if g, from :| Sends(crc, s, t, g, from) {
      assert t.client == s.client && t.logs == s.logs && t.done == s.done;
    } else {
      ArrivalBorneExactly(crc, s, t);
    }
  }

  lemma ArrivalBorneExactly(crc: Checksum, s: System, t: System)
    requires Safe(AsWritten, s) && Sourced(crc, s) && exists d :: Arrives(AsWritten, crc, s, t, d)
    requires !(exists g, log :: Grows(s, t, g, log)) && !(exists g, from :: Sends(crc, s, t, g, from))
    ensures Safe(AsWritten, t) <==> Borne(crc, s, t)
  {
    if Borne(crc, s, t) {
      var g, slice, from :| BorneArrival(crc, s, t, g, slice, from);
      DeliveryBorneExactly(crc, s, t, g, slice, from);
    }
    if Safe(AsWritten, t) {
      var d :| Arrives(AsWritten, crc, s, t, d);
      assert Genuine(crc, s.logs, d);
      var g, slice, from :| Slice(s.logs, g, slice, from) && d == Datagram(crc, g, slice);
      DeliveryBorneExactly(crc, s, t, g, slice, from);
      assert BorneArrival(crc, s, t, g, slice, from);
    }
  }

  lemma {:induction false} RunsSourced(v: Variant, crc: Checksum, run: seq<System>, i: nat)
    requires AnyRun(v, crc, run) && i < |run|
    ensures Sourced(crc, run[i])
  {
    if i > 0 {
      RunsSourced(v, crc, run, i - 1);
      SourcedKept(v, crc, run[i - 1], run[i]);
    }
  }

  ghost predicate AllSafe(run: seq<System>, i: nat)
    requires i < |run|
  {
    forall j :: 0 <= j <= i ==> Safe(AsWritten, run[j])
  }

  ghost predicate AllBorne(crc: Checksum, run: seq<System>, i: nat)
    requires i < |run|
  {
    forall j :: 0 < j <= i ==> Borne(crc, run[j - 1], run[j])
  }

  lemma AllSafeNext(run: seq<System>, i: nat)
    requires 0 < i < |run|
    ensures AllSafe(run, i) <==> AllSafe(run, i - 1) && Safe(AsWritten, run[i])
    ensures AllSafe(run, i - 1) ==> Safe(AsWritten, run[i - 1])
  {}

  lemma AllBorneNext(crc: Checksum, run: seq<System>, i: nat)
    requires 0 < i < |run|
    ensures AllBorne(crc, run, i) <==> AllBorne(crc, run, i - 1) && Borne(crc, run[i - 1], run[i])
  {}

  lemma StartsSafe(s: System)
    requires Starts(s)
    ensures Safe(AsWritten, s)
  {}

  /** Over every run of the client as written, whatever arrives: nothing has ever gone wrong if and only if every
      datagram that arrived was borne. */
  lemma {:induction false} RunsSafeExactly(crc: Checksum, run: seq<System>, i: nat)
    requires AnyRun(AsWritten, crc, run) && i < |run|
    ensures AllSafe(run, i) <==> AllBorne(crc, run, i)
  {
    if i == 0 {
      StartsSafe(run[0]);
    } else {
      RunsSafeExactly(crc, run, i - 1);
      RunsSourced(AsWritten, crc, run, i - 1);
      AllSafeNext(run, i);
      AllBorneNext(crc, run, i);
      if AllSafe(run, i - 1) {
        StepBorneExactly(crc, run[i - 1], run[i]);
      }
    }
  }

  // ---------- recovery ----------

  function TakeDatagrams(v: Variant, crc: Checksum, c: State, ds: seq<seq<byte>>): State
    decreases ds
  {
    if ds == [] then c else TakeDatagrams(v, crc, TakeDatagram(v, crc, c, ds[0]), ds[1..])
  }

  lemma {:induction false} TakeAllAppend(v: Variant, c: State, a: seq<Event>, b: seq<Event>)
    ensures TakeAll(v, c, a + b) == TakeAll(v, TakeAll(v, c, a), b)
    decreases a
  {
    if a == [] {
      assert a + b == b;
    } else {
      assert (a + b)[1..] == a[1..] + b;
      TakeAllAppend(v, TakeEvent(v, c, a[0]), a[1..], b);
    }
  }

  lemma OneDatagram(v: Variant, crc: Checksum, c: State, slice: seq<Event>)
    requires AllPackable(slice)
    ensures TakeDatagram(v, crc, c, Datagram(crc, c.game, slice)) == TakeAll(v, c.(joined := true), slice)
  {
    DatagramRoundTrip(crc, c.game, slice);
  }

  /** Datagrams of the current game are read as the concatenation of their events. */
  lemma {:induction false} DatagramsAreEvents(v: Variant, crc: Checksum, c: State, ds: seq<seq<byte>>,
                                              slices: seq<seq<Event>>)
    requires |ds| == |slices| && forall i :: 0 <= i < |ds| ==> ds[i] == Datagram(crc, c.game, slices[i])
    requires forall i :: 0 <= i < |slices| ==> AllPackable(slices[i])
    requires c.joined
    ensures TakeDatagrams(v, crc, c, ds) == TakeAll(v, c, Flatten(slices))
    decreases |ds|
  {
    if ds != [] {
      var first, rest := slices[0], Flatten(slices[1..]);
      OneDatagram(v, crc, c, first);
      TakeAllKeepsGame(v, c, first);
      DatagramsAreEvents(v, crc, TakeAll(v, c, first), ds[1..], slices[1..]);
      TakeAllAppend(v, c, first, rest);
    }
  }

  /** The client need not have heard of the game before. */
  lemma DatagramsJoin(v: Variant, crc: Checksum, c: State, ds: seq<seq<byte>>, slices: seq<seq<Event>>)
    requires |ds| == |slices| && forall i :: 0 <= i < |ds| ==> ds[i] == Datagram(crc, c.game, slices[i])
    requires forall i :: 0 <= i < |slices| ==> AllPackable(slices[i])
    ensures TakeDatagrams(v, crc, c, ds)
            == TakeAll(v, if ds == [] then c else c.(joined := true), Flatten(slices))
  {
    if ds != [] {
      var j := c.(joined := true);
      OneDatagram(v, crc, c, slices[0]);
      OneDatagram(v, crc, j, slices[0]);
      DatagramsAreEvents(v, crc, j, ds, slices);
    }
  }

  lemma {:induction false} FlattenAll(log: seq<Event>, slices: seq<seq<Event>>)
    requires LogOk(log) && forall i :: 0 <= i < |slices| ==> AllFromLog(log, slices[i])
    ensures AllFromLog(log, Flatten(slices))
    ensures forall i, k :: 0 <= i < |slices| && 0 <= k < |slices[i]| ==> slices[i][k].no in Numbers(Flatten(slices))
    decreases |slices|
  {
    if slices != [] {
      FlattenAll(log, slices[1..]);
      var rest, all := Flatten(slices[1..]), Flatten(slices);
      assert all == slices[0] + rest;
      forall i, k | 0 <= i < |slices| && 0 <= k < |slices[i]| ensures slices[i][k].no in Numbers(all) {
        if i == 0 {
          assert all[k] == slices[0][k];
        } else {
          assert slices[i] == slices[1..][i - 1] && slices[i][k].no in Numbers(rest);
          var m :| 0 <= m < |rest| && rest[m].no == slices[i][k].no;
          assert all[|slices[0]| + m] == rest[m];
        }
      }
    }
  }

  lemma {:induction false} SliceWith(slices: seq<seq<Event>>, n: nat) returns (i: nat, k: nat)
    requires n < |Flatten(slices)|
    ensures i < |slices| && k < |slices[i]| && slices[i][k] == Flatten(slices)[n]
    decreases |slices|
  {
    assert Flatten(slices) == slices[0] + Flatten(slices[1..]);
    if n < |slices[0]| {
      i, k := 0, n;
    } else {
      i, k := SliceWith(slices[1..], n - |slices[0]|);
      i := i + 1;
    }
  }

  predicate SlicesOf(log: seq<Event>, slices: seq<seq<Event>>)
    requires LogOk(log)
  {
    forall i :: 0 <= i < |slices| ==> AllFromLog(log, slices[i])
  }

  lemma SlicesArePackable(log: seq<Event>, slices: seq<seq<Event>>)
    requires GameLog(log) && SlicesOf(log, slices)
    ensures forall i :: 0 <= i < |slices| ==> AllPackable(slices[i])
  {
    forall i | 0 <= i < |slices| ensures AllPackable(slices[i]) {
      forall k | 0 <= k < |slices[i]| ensures Packable(slices[i][k]) {
        assert FromLog(log, slices[i][k]);
      }
    }
  }

  /** Every event of a reply is in some datagram of the reply. */
  lemma ReplyCovers(log: seq<Event>, reply: seq<Event>, n: nat, slices: seq<seq<Event>>)
    requires LogOk(log) && SlicesOf(log, slices) && AllPackable(reply) && n < |reply|
    requires forall slice <- Slices(reply) :: slice in slices
    ensures reply[n].no in Numbers(Flatten(slices))
  {
    SlicesAreGreedy(reply, Slices(reply));
    var i, k := SliceWith(Slices(reply), n);
    var slice := Slices(reply)[i];
    assert slice in Slices(reply);
    var j :| 0 <= j < |slices| && slices[j] == slice;
    FlattenAll(log, slices);
    assert slices[j][k].no in Numbers(Flatten(slices));
  }

  lemma ReplyNumbers(log: seq<Event>, from: nat, upTo: nat, slices: seq<seq<Event>>)
    requires GameLog(log) && SlicesOf(log, slices) && from <= upTo <= |log|
    requires forall slice <- Slices(log[from..upTo]) :: slice in slices
    ensures AllFromLog(log, Flatten(slices))
    ensures forall n: uint32 :: from <= n < upTo ==> n in Numbers(Flatten(slices))
  {
    var reply := log[from..upTo];
    PartPackable(log, from, upTo);
    FlattenAll(log, slices);
    forall n: uint32 | from <= n < upTo ensures n in Numbers(Flatten(slices)) {
      ReplyCovers(log, reply, n - from, slices);
      assert reply[n - from] == log[n];
    }
  }

  /** Recovery: the datagrams of one reply to a heartbeat, in whatever order they arrive, with repetitions and with
      any other datagrams of the game among them, bring the repaired client at least up to the length the log had
      when the reply was sent. */
  lemma ReplyConverges(crc: Checksum, c: State, log: seq<Event>, base: seq<Line>, upTo: nat,
                       ds: seq<seq<byte>>, slices: seq<seq<Event>>)
    requires GameLog(log) && InStep(c, log, base) && c.next <= upTo <= |log|
    requires |ds| == |slices| && forall i :: 0 <= i < |ds| ==> ds[i] == Datagram(crc, c.game, slices[i])
    requires SlicesOf(log, slices)
    requires forall slice <- Slices(log[c.next..upTo]) :: slice in slices
    ensures TakeDatagrams(Repaired, crc, c, ds).next >= upTo
    ensures InStep(TakeDatagrams(Repaired, crc, c, ds), log, base)
  {
    SlicesArePackable(log, slices);
    DatagramsJoin(Repaired, crc, c, ds, slices);
    ReplyNumbers(log, c.next, upTo, slices);
    RepairedConverges(if ds == [] then c else c.(joined := true), log, base, upTo, Flatten(slices));
  }
}
