/** Which games the client shows one after the other, over whole runs, and when it comes back to one it has left. */
module GameVisits {
  import opened Bytes
  import opened Wire
  import opened Datagrams
  import opened EventLogs
  import opened Client
  import opened Reassembly
  import opened StaleDatagrams
  import opened Protocol
  import opened Variants

  /** The games visited so far, the current one last. */
  function Games(s: System): seq<uint32> {
    seq(|s.done|, i requires 0 <= i < |s.done| => s.done[i].game) + if s.client.joined then [s.client.game] else []
  }

  // ---------- what is remembered ----------

  /** The ids remembered are exactly those of the visits that count, and the current one is not among them. Nothing is
      said of lines or kept events, so this holds whatever arrives. */
  predicate Remembered(v: Variant, s: System) {
    && (forall i :: 0 <= i < |s.done| && Counts(v, s.done[i]) ==> s.done[i].game in s.client.previous)
    && (forall g <- s.client.previous :: Left(v, s.done, g))
    && s.client.game !in s.client.previous
    && (!s.client.joined ==> s.client == INITIAL && s.done == [])
  }

  lemma GameTaken(v: Variant, crc: Checksum, s: State, d: seq<byte>, g: uint32)
    requires Read32(d, 0) == Some(g)
    ensures var c := TakeDatagram(v, crc, s, d);
            if v.Repaired? && Stale(s, g) then c == s else SameGame(c, Switch(v, s, g))
  {
    if !(v.Repaired? && Stale(s, g)) {
      TakeAllKeepsGame(v, Switch(v, s, g), ParseEvents(crc, d, 4).events);
    }
  }

  lemma MovedRemembered(v: Variant, s: System, g: uint32, c: State)
    requires Remembered(v, s) && s.client.joined && g != s.client.game && g !in s.client.previous
    requires SameGame(c, Switch(v, s.client, g))
    ensures Remembered(v, After(s, c))
  {
    var last := Visit(s.client.game, s.client.next);
    var t := After(s, c);
    forall i | 0 <= i < |t.done| && Counts(v, t.done[i]) ensures t.done[i].game in t.client.previous {
      if i < |s.done| {
        assert t.done[i] == s.done[i];
      }
    }
    forall h <- t.client.previous ensures Left(v, t.done, h) {
      LeftNext(v, s.done, last, h);
    }
  }

  lemma ArrivalRemembered(v: Variant, crc: Checksum, s: System, t: System, d: seq<byte>)
    requires Remembered(v, s) && Arrives(v, crc, s, t, d)
    ensures Remembered(v, t)
  {
    var g := Read32(d, 0).value;
    GameTaken(v, crc, s.client, d, g);
    if s.client.joined && g != s.client.game && g !in s.client.previous {
      MovedRemembered(v, s, g, t.client);
    }
  }

  lemma StepRemembered(v: Variant, crc: Checksum, s: System, t: System)
    requires Remembered(v, s) && AnyStep(v, crc, s, t)
    ensures Remembered(v, t)
  {
    if d :| Arrives(v, crc, s, t, d) {
      ArrivalRemembered(v, crc, s, t, d);
    } else {
      StaysRemembered(v, s, t);
    }
  }

  lemma StaysRemembered(v: Variant, s: System, t: System)
    requires Remembered(v, s) && t.client == s.client && t.done == s.done
    ensures Remembered(v, t)
  {}

  lemma StartsRemembered(v: Variant, s: System)
    requires Starts(s)
    ensures Remembered(v, s)
  {}

  /** Over every run, whatever arrives. */
  lemma {:induction false} RunsRemember(v: Variant, crc: Checksum, run: seq<System>, i: nat)
    requires AnyRun(v, crc, run) && i < |run|
    ensures Remembered(v, run[i])
  {
    if i == 0 {
      StartsRemembered(v, run[0]);
    } else {
      RunsRemember(v, crc, run, i - 1);
      StepRemembered(v, crc, run[i - 1], run[i]);
    }
  }

  // ---------- repaired ----------

  /** Over every run the repaired client visits each game once, the current one included, and no datagram of a game it
      has left, whatever it holds, changes anything. */
  lemma RepairedVisitsOnce(crc: Checksum, run: seq<System>, i: nat, g: uint32, parsed: Parsed)
    requires Run(Repaired, crc, run) && i < |run|
    ensures Distinct(Games(run[i]))
    ensures g in Games(run[i]) && g != run[i].client.game ==>
              TakeDatagramOf(Repaired, run[i].client, g, parsed) == run[i].client
  {
    RunsAreSafe(Repaired, crc, run, i);
    var s := run[i];
    forall k | 0 <= k < |s.done| ensures s.done[k].game in s.client.previous {
      assert VisitOk(Repaired, s.logs, s.client.previous, s.done[k]);
    }
  }

  // ---------- as written ----------

  /** g was visited before, and each time it was left with nothing of it taken in. */
  predicate LeftUntouched(done: seq<Visit>, g: uint32) {
    (exists k :: 0 <= k < |done| && done[k].game == g) &&
    forall k :: 0 <= k < |done| && done[k].game == g ==> done[k].upTo == 0
  }

  predicate Returns(s: System, g: uint32) {
    g != s.client.game && LeftUntouched(s.done, g)
  }

  ghost predicate ReturnsBetween(crc: Checksum, s: System, t: System) {
    exists d :: Arrives(AsWritten, crc, s, t, d) && Returns(s, Read32(d, 0).value)
  }

  lemma MovesThere(s: System, g: uint32)
    requires Remembered(AsWritten, s) && g != s.client.game
    ensures Switch(AsWritten, s.client, g).game == g
            <==> forall k :: 0 <= k < |s.done| && s.done[k].game == g ==> s.done[k].upTo == 0
  {
    if g in s.client.previous {
      assert Left(AsWritten, s.done, g);
    }
  }

  /** In any state of any run, whatever has arrived before, a datagram of another game, whatever it holds, moves the
      client there if and only if every earlier visit of that game ended with nothing taken in. */
  lemma MovesExactly(crc: Checksum, run: seq<System>, i: nat, d: seq<byte>, g: uint32)
    requires AnyRun(AsWritten, crc, run) && i < |run| && Read32(d, 0) == Some(g) && g != run[i].client.game
    ensures TakeDatagram(AsWritten, crc, run[i].client, d).game == g
            <==> forall k :: 0 <= k < |run[i].done| && run[i].done[k].game == g ==> run[i].done[k].upTo == 0
  {
    RunsRemember(AsWritten, crc, run, i);
    MovesThere(run[i], g);
    GameTaken(AsWritten, crc, run[i].client, d, g);
  }

  lemma DistinctNext<T>(s: seq<T>, x: T)
    ensures Distinct(s + [x]) <==> Distinct(s) && x !in s
  {
    var all := s + [x];
    if Distinct(all) {
      forall i, j | 0 <= i < j < |s| ensures s[i] != s[j] {
        assert all[i] != all[j];
      }
      forall i | 0 <= i < |s| ensures s[i] != x {
        assert all[i] != all[|s|];
      }
    }
  }

  lemma InGames(s: System, g: uint32)
    requires s.client.joined && g != s.client.game
    ensures g in Games(s) <==> exists k :: 0 <= k < |s.done| && s.done[k].game == g
  {
    if k :| 0 <= k < |s.done| && s.done[k].game == g {
      assert Games(s)[k] == g;
    }
    if g in Games(s) {
      var k :| 0 <= k < |Games(s)| && Games(s)[k] == g;
      assert s.done[k].game == g;
    }
  }

  /** The client moves from one game to another. */
  lemma MovedGames(s: System, c: State, g: uint32)
    requires Remembered(AsWritten, s) && s.client.joined && g != s.client.game && g !in s.client.previous
    requires c.game == g && c.joined
    ensures Distinct(Games(After(s, c))) <==> Distinct(Games(s)) && !Returns(s, g)
  {
    assert Games(After(s, c)) == Games(s) + [g];
    DistinctNext(Games(s), g);
    InGames(s, g);
    MovesThere(s, g);
  }

  lemma DeliveryGames(crc: Checksum, s: System, t: System, d: seq<byte>)
    requires Remembered(AsWritten, s) && Arrives(AsWritten, crc, s, t, d)
    ensures Distinct(Games(t)) <==> Distinct(Games(s)) && !Returns(s, Read32(d, 0).value)
    ensures Returns(s, Read32(d, 0).value) ==> t.client.game != s.client.game
  {
    var g := Read32(d, 0).value;
    GameTaken(AsWritten, crc, s.client, d, g);
    if g != s.client.game {
      MovesThere(s, g);
      if s.client.joined && g !in s.client.previous {
        MovedGames(s, t.client, g);
      } else if s.client.joined {
        assert Games(t) == Games(s);
      } else {
        assert Games(s) == [] && Games(t) == [g];
      }
    } else if s.client.joined {
      assert Games(t) == Games(s);
    } else {
      assert Games(s) == [] && Games(t) == [g];
    }
  }

  lemma StepGames(crc: Checksum, s: System, t: System)
    requires Remembered(AsWritten, s) && AnyStep(AsWritten, crc, s, t)
    ensures Distinct(Games(t)) <==> Distinct(Games(s)) && !ReturnsBetween(crc, s, t)
  {
    if d :| Arrives(AsWritten, crc, s, t, d) && Returns(s, Read32(d, 0).value) {
      DeliveryGames(crc, s, t, d);
    } else if d :| Arrives(AsWritten, crc, s, t, d) {
      DeliveryGames(crc, s, t, d);
    } else {
      assert t.client == s.client && t.done == s.done;
      assert Games(t) == Games(s);
    }
  }

  ghost predicate NeverReturns(crc: Checksum, run: seq<System>, i: nat)
    requires i < |run|
  {
    forall j :: 0 < j <= i ==> !ReturnsBetween(crc, run[j - 1], run[j])
  }

  lemma NeverReturnsNext(crc: Checksum, run: seq<System>, i: nat)
    requires 0 < i < |run|
    ensures NeverReturns(crc, run, i) <==> NeverReturns(crc, run, i - 1) && !ReturnsBetween(crc, run[i - 1], run[i])
  {}

  /** Over every run of the client as written, whatever arrives: it has never come back to a game if and only if no
      datagram ever was of a game that had been visited before and left each time with nothing taken in. */
  lemma {:induction false} ReturnsExactly(crc: Checksum, run: seq<System>, i: nat)
    requires AnyRun(AsWritten, crc, run) && i < |run|
    ensures Distinct(Games(run[i])) <==> NeverReturns(crc, run, i)
  {
    if i > 0 {
      var s, t := run[i - 1], run[i];
      ReturnsExactly(crc, run, i - 1);
      RunsRemember(AsWritten, crc, run, i - 1);
      assert AnyStep(AsWritten, crc, s, t);
      StepGames(crc, s, t);
      NeverReturnsNext(crc, run, i);
    }
  }

  // ---------- two failures ----------

  /** A log of two events, of which another game logs the first as well. */
  predicate TwoEvents(first: Event, second: Event) {
    GameLog([first, second]) && !second.data.GameOver?
  }

  lemma TwoEventsExist()
    ensures TwoEvents(MakeEvent(0, NewGame(1, 1, [[65], [66]])), MakeEvent(1, EventData.Pixel(0, 0, 0)))
  {
    var names: seq<Name> := [[65], [66]];
    assert names[1..] == [[66]] && names[1..][1..] == [];
    assert NamesSize(names) == 4;
  }

  lemma TwoFacts(first: Event, second: Event)
    requires TwoEvents(first, second)
    ensures first.no == 0 && second.no == 1 && first.data.NewGame? && !second.data.NewGame?
    ensures Packable(first) && Packable(second) && GameLog([first])
    ensures ValidData(second.data, first.data.players, first.data.maxx, first.data.maxy)
    ensures [first, second][1..] == [second] && [first][0..] == [first]
  {
    var log := [first, second];
    assert log[0] == first && log[1] == second && LaterOk(log[0].data, log[1].data);
    assert [first][0] == log[0];
  }

  lemma OneSlice(e: Event)
    requires Packable(e)
    ensures Slices([e]) == [[e]]
  {
    assert [e][1..] == [] && [] + [e] == [e];
    assert SlicesFrom([e], []) == [[e]];
  }

  lemma Sent(crc: Checksum, s: System, g: uint32, from: nat, e: Event)
    requires g in s.logs && from <= |s.logs[g]| && s.logs[g][from..] == [e] && Packable(e)
    ensures Sends(crc, s, s.(network := s.network + {Datagram(crc, g, [e])}), g, from)
  {
    OneSlice(e);
  }

  /** A datagram of one event of another game. */
  lemma OneArrives(crc: Checksum, s: System, g: uint32, e: Event, d: seq<byte>) returns (t: System)
    requires d in s.network && d == Datagram(crc, g, [e]) && Packable(e)
    requires !s.client.failed && !Stale(s.client, g) && (g == s.client.game ==> s.client.future == map[])
    ensures t == After(s, TakeEvent(AsWritten, Switch(AsWritten, s.client, g), e))
    ensures Step(AsWritten, crc, s, t)
  {
    DatagramRoundTrip(crc, g, [e]);
    t := After(s, TakeDatagram(AsWritten, crc, s.client, d));
    var c := Switch(AsWritten, s.client, g);
    assert [e][1..] == [];
    assert TakeAll(AsWritten, c, [e]) == TakeAll(AsWritten, TakeEvent(AsWritten, c, e), []);
    assert Delivers(AsWritten, crc, s, t, d);
  }

  /** Two games log and send: of a only its second event. */
  lemma TwoGames(crc: Checksum, a: uint32, b: uint32, first: Event, second: Event) returns (run: seq<System>)
    requires a != b && TwoEvents(first, second)
    ensures Run(AsWritten, crc, run)
    ensures var s := run[|run| - 1];
            && s.client == INITIAL && s.done == []
            && s.network == {Datagram(crc, a, [second]), Datagram(crc, b, [first])}
  {
    TwoFacts(first, second);
    var da, db := Datagram(crc, a, [second]), Datagram(crc, b, [first]);
    var s0 := System(map[], {}, INITIAL, []);
    var s1 := s0.(logs := map[a := [first, second]]);
    var s2 := s1.(logs := map[a := [first, second], b := [first]]);
    var s3 := s2.(network := {da});
    var s4 := s2.(network := {da, db});
    assert Grows(s0, s1, a, [first, second]) && Grows(s1, s2, b, [first]);
    Sent(crc, s2, a, 1, second);
    Sent(crc, s3, b, 0, first);
    assert s2.network + {da} == {da} && s3.network + {db} == {da, db};
    run := [s0, s1, s2, s3, s4];
  }

  lemma RunsOn(v: Variant, crc: Checksum, run: seq<System>, t: System)
    requires Run(v, crc, run) && Step(v, crc, run[|run| - 1], t)
    ensures Run(v, crc, run + [t])
  {
    var more := run + [t];
    forall i | 0 < i < |more| ensures Step(v, crc, more[i - 1], more[i]) {
      assert i < |run| ==> Step(v, crc, run[i - 1], run[i]);
    }
  }

  lemma SecondKept(c: State, second: Event)
    requires !c.failed && c.next == 0 && c.future == map[] && second.no == 1
    ensures TakeEvent(AsWritten, c, second) == c.(future := map[1 := second])
  {
    TakesOther(c, second);
  }

  /** A client with nothing kept reads a whole log. */
  lemma ReadsLog(c: State, log: seq<Event>)
    requires LogOk(log) && !c.failed && c.next == 0 && c.future == map[]
    ensures var r := TakeAll(AsWritten, c, log);
            && InStep(r, log, c.lines) && r.next == |log| && SameGame(r, c)
  {
    assert log[0..0 + |log|] == log;
    SliceLogLike(log, log, 0);
    forall i | 0 <= i < |log| ensures FromLog(log, log[i]) {}
    assert Lines(log, 0) == [];
    AsWrittenSliceExact(c, log, c.lines, 0, log);
    TakenCount(c, log, TakeAll(AsWritten, c, log));
    TakeAllKeepsGame(AsWritten, c, log);
  }

  lemma ReadsOne(c: State, first: Event)
    requires LogOk([first]) && !c.failed && c.next == 0 && c.future == map[]
    ensures var r := TakeEvent(AsWritten, c, first);
            !r.failed && r.next == 1 && r.future == map[] && SameGame(r, c)
  {
    ReadsLog(c, [first]);
    TakeAllFirst(c, [first], TakeEvent(AsWritten, c, first));
    assert [first][1..] == [];
    var r := TakeAll(AsWritten, c, [first]);
    assert forall k :: k in r.future ==> 1 < k < 1;
    assert r.future == map[];
  }

  /** The client joins g and sees nothing of it but its second event. */
  lemma JoinsUntaken(crc: Checksum, s: System, g: uint32, second: Event, d: seq<byte>) returns (t: System)
    requires d in s.network && d == Datagram(crc, g, [second]) && Packable(second) && second.no == 1
    requires !s.client.failed && g !in s.client.previous && (g == s.client.game ==> s.client == INITIAL)
    ensures Step(AsWritten, crc, s, t) && t == After(s, t.client)
    ensures t.client == Switch(AsWritten, s.client, g).(future := map[1 := second])
  {
    t := OneArrives(crc, s, g, second, d);
    SecondKept(Switch(AsWritten, s.client, g), second);
  }

  lemma MovesOn(crc: Checksum, s: System, g: uint32, first: Event, d: seq<byte>) returns (t: System)
    requires d in s.network && d == Datagram(crc, g, [first]) && GameLog([first])
    requires !s.client.failed && g !in s.client.previous && g != s.client.game
    ensures Step(AsWritten, crc, s, t) && t == After(s, t.client)
    ensures !t.client.failed && t.client.next == 1 && SameGame(t.client, Switch(AsWritten, s.client, g))
  {
    assert [first][0] == first;
    t := OneArrives(crc, s, g, first, d);
    ReadsOne(Switch(AsWritten, s.client, g), first);
  }

  lemma ThreeGames(s: System, t: System, u: System, w: System, a: uint32, b: uint32)
    requires s.done == [] && !s.client.joined && a != b
    requires t == After(s, t.client) && t.client.game == a && t.client.joined
    requires u == After(t, u.client) && u.client.game == b && u.client.joined
    requires w == After(u, w.client) && w.client.game == a && w.client.joined
    ensures Games(w) == [a, b, a]
  {}

  /** The client joins a and sees nothing of it but its second event, moves to b, and comes back to a with the same
      datagram. */
  lemma GameReentered(crc: Checksum, a: uint32, b: uint32, first: Event, second: Event) returns (run: seq<System>)
    requires a != b && TwoEvents(first, second)
    ensures Run(AsWritten, crc, run) && Games(run[|run| - 1]) == [a, b, a]
  {
    TwoFacts(first, second);
    run := TwoGames(crc, a, b, first, second);
    var s := run[|run| - 1];
    var da, db := Datagram(crc, a, [second]), Datagram(crc, b, [first]);
    var t := JoinsUntaken(crc, s, a, second, da);
    var u := MovesOn(crc, t, b, first, db);
    var w := JoinsUntaken(crc, u, a, second, da);
    ThreeGames(s, t, u, w, a, b);
    RunsOn(AsWritten, crc, run, t);
    RunsOn(AsWritten, crc, run + [t], u);
    RunsOn(AsWritten, crc, run + [t] + [u], w);
    run := run + [t] + [u] + [w];
  }

  /** A datagram of a game left behind, repeated by the network: its second event is printed under the next game, of
      which no second event was ever logged. */
  lemma OldGamePrinted(crc: Checksum, a: uint32, b: uint32, first: Event, second: Event, da: seq<byte>, db: seq<byte>)
    returns (c1: State, c2: State, c3: State)
    requires a != b && TwoEvents(first, second)
    requires da == Datagram(crc, a, [first, second]) && db == Datagram(crc, b, [first])
    ensures c1 == TakeDatagram(AsWritten, crc, INITIAL, da) && c2 == TakeDatagram(AsWritten, crc, c1, db)
    ensures c3 == TakeDatagram(AsWritten, crc, c2, da) && LogOk([first])
    ensures c3.game == b && c3.next == 2
    ensures c3.lines == Lines([first, second], 2) + Lines([first], 1) + LineOf([first, second], 1)
  {
    TwoFacts(first, second);
    c1 := ReadsGame(crc, INITIAL, a, [first, second], da);
    assert c1.lines == Lines([first, second], 2);
    c2 := ReadsGame(crc, c1, b, [first], db);
    c3 := ReadsStale(crc, c2, a, first, second, da);
  }

  lemma ReadsStale(crc: Checksum, c: State, g: uint32, first: Event, second: Event, d: seq<byte>) returns (r: State)
    requires TwoEvents(first, second) && LogOk([first]) && Following(c, [first]) && c.next == 1 && Stale(c, g)
    requires d == Datagram(crc, g, [first, second])
    ensures r == TakeDatagram(AsWritten, crc, c, d)
    ensures r.next == 2 && r.lines == c.lines + LineOf([first, second], 1) && r.game == c.game
  {
    DatagramRoundTrip(crc, g, [first, second]);
    r := TakeAll(AsWritten, c, [first, second]);
    ReadsAgain(c, first, second);
  }

  lemma ReadsGame(crc: Checksum, c: State, g: uint32, log: seq<Event>, d: seq<byte>) returns (r: State)
    requires d == Datagram(crc, g, log) && GameLog(log) && !c.failed && g !in c.previous
    requires g == c.game ==> c.next == 0 && c.future == map[]
    ensures r == TakeDatagram(AsWritten, crc, c, d)
    ensures Following(r, log) && r.next == |log| && SameGame(r, Switch(AsWritten, c, g))
    ensures r.lines == c.lines + Lines(log, |log|)
  {
    DatagramRoundTrip(crc, g, log);
    r := TakeDatagram(AsWritten, crc, c, d);
    ReadsLog(Switch(AsWritten, c, g), log);
  }

  lemma ReadsAgain(c: State, first: Event, second: Event)
    requires TwoEvents(first, second) && LogOk([first]) && Following(c, [first]) && c.next == 1
    ensures var r := TakeAll(AsWritten, c, [first, second]);
            r.next == 2 && r.lines == c.lines + LineOf([first, second], 1) && SameGame(r, c)
  {
    var events := [first, second];
    TwoFacts(first, second);
    TakesOther(c, first);
    TakeAllFirst(c, events, c);
    assert c.future == map[] by {
      assert forall k :: k in c.future ==> 1 < k < 1;
    }
    var r := TakeEvent(AsWritten, c, second);
    DrainsOnce(TakeExpected(c, second));
    TakesExpected(c, second, 2, r);
    TakeAllFirst(c, [second], r);
    assert [second][1..] == [];
    TakeAllKeepsGame(AsWritten, c, events);
  }
}
