/** What reassembly achieves within one game, for any order, loss and duplication of that game's events:
    exactly, for the code as it is written, and in full for the repaired drain loop. */
module Reassembly {
  import opened Bytes
  import opened Wire
  import opened Datagrams
  import opened EventLogs
  import opened Text
  import opened Client
  import opened Variants

  // ---------- the reader ----------

  /** The reader is in the game of log; all it keeps is genuine and still to come. */
  predicate Following(s: State, log: seq<Event>)
    requires LogOk(log)
  {
    && !s.failed && s.next <= |log|
    && (s.next > 0 ==> s.players == log[0].data.players && s.width == log[0].data.maxx && s.height == log[0].data.maxy)
    && (forall k <- s.future :: s.next < k < |log| && s.future[k] == log[k])
  }

  /** Moreover, after what was printed before (base), exactly the events below next have been printed,
      in order, each once. */
  predicate InStep(s: State, log: seq<Event>, base: seq<Line>)
    requires LogOk(log)
  {
    Following(s, log) && s.lines == base + Lines(log, s.next)
  }

  /** The same while kept events may be due. */
  predicate Draining(s: State, log: seq<Event>, base: seq<Line>)
    requires LogOk(log)
  {
    && !s.failed && 0 < s.next <= |log|
    && s.players == log[0].data.players && s.width == log[0].data.maxx && s.height == log[0].data.maxy
    && (forall k <- s.future :: s.next <= k < |log| && s.future[k] == log[k])
    && s.lines == base + Lines(log, s.next)
  }

  lemma NextLines(base: seq<Line>, log: seq<Event>, n: nat)
    requires LogOk(log) && n < |log|
    ensures base + Lines(log, n) + LineOf(log, n) == base + Lines(log, n + 1)
  {}

  /** The expected event of the log is taken in without complaint and told to the interface. */
  lemma ExpectedLogged(s: State, log: seq<Event>, n: nat)
    requires LogOk(log) && Following(s, log) && n == s.next < |log|
    ensures TakeExpected(s, log[n]) == s.(next := n + 1, players := log[0].data.players, width := log[0].data.maxx,
                                          height := log[0].data.maxy, lines := s.lines + LineOf(log, n))
  {
    if n > 0 {
      assert LaterOk(log[0].data, log[n].data);
    }
  }

  lemma ExpectedDraining(s: State, log: seq<Event>, base: seq<Line>, n: nat)
    requires LogOk(log) && InStep(s, log, base) && n == s.next < |log|
    ensures Draining(TakeExpected(s, log[n]), log, base)
    ensures TakeExpected(s, log[n]).next == n + 1
    ensures TakeExpected(s, log[n]).future == s.future
  {
    ExpectedLogged(s, log, n);
    NextLines(base, log, n);
  }

  // ---------- the repaired reader ----------

  lemma DrainOneDraining(s: State, log: seq<Event>, base: seq<Line>)
    requires LogOk(log) && Draining(s, log, base) && s.next in s.future
    ensures Draining(DrainOne(Repaired, s), log, base)
    ensures DrainOne(Repaired, s).next == s.next + 1
    ensures DrainOne(Repaired, s).future == s.future - {s.next}
  {
    var r := DrainOne(Repaired, s);
    assert s.future[s.next] == log[s.next];
    assert r.lines == s.lines + LineOf(log, s.next);
    NextLines(base, log, s.next);
  }

  /** received: the numbers that have arrived since next was start, and those kept at that time.
      The reader has exactly the least missing number as next, and keeps exactly what lies beyond. */
  ghost predicate Reassembled(s: State, start: nat, received: set<uint32>) {
    && start <= s.next && s.next !in received
    && (forall n: uint32 :: start <= n < s.next ==> n in received)
    && (forall k :: k in s.future <==> k in received && k > s.next)
  }

  ghost predicate AlmostReassembled(s: State, start: nat, received: set<uint32>) {
    && start <= s.next
    && (forall n: uint32 :: start <= n < s.next ==> n in received)
    && (forall k :: k in s.future <==> k in received && k >= s.next)
  }

  lemma {:induction false} DrainReassembles(s: State, log: seq<Event>, base: seq<Line>, start: nat,
                                            received: set<uint32>)
    requires LogOk(log) && Draining(s, log, base) && AlmostReassembled(s, start, received)
    ensures InStep(Drain(Repaired, s), log, base)
    ensures Reassembled(Drain(Repaired, s), start, received)
    decreases s.future.Keys
  {
    if s.next in s.future {
      DrainOneDraining(s, log, base);
      var r := DrainOne(Repaired, s);
      DrainReassembles(r, log, base, start, received);
    }
  }

  lemma TakeEventReassembles(s: State, log: seq<Event>, base: seq<Line>, start: nat, received: set<uint32>, e: Event)
    requires LogOk(log) && InStep(s, log, base) && Reassembled(s, start, received) && FromLog(log, e)
    ensures InStep(TakeEvent(Repaired, s, e), log, base)
    ensures Reassembled(TakeEvent(Repaired, s, e), start, received + {e.no})
  {
    if e.no == s.next {
      ExpectedDraining(s, log, base, e.no);
      DrainReassembles(TakeExpected(s, e), log, base, start, received + {e.no});
    } else if e.no > s.next {
      var kept := Keep(s, e);
      assert kept.next !in kept.future && Drain(Repaired, kept) == kept;
    } else {
      assert Drain(Repaired, s) == s;
    }
  }

  ghost function Numbers(events: seq<Event>): set<uint32> {
    set i | 0 <= i < |events| :: events[i].no
  }

  /** Any events of the game, in any order, any number of times: afterwards the expected number is the least
      one that has not arrived, what is kept is exactly what has arrived beyond it, and the interface has been
      told exactly the events below it, in order, each once. */
  lemma {:induction false} ReassemblyExact(s: State, log: seq<Event>, base: seq<Line>, start: nat,
                                           received: set<uint32>, events: seq<Event>)
    requires LogOk(log) && InStep(s, log, base) && Reassembled(s, start, received) && AllFromLog(log, events)
    ensures InStep(TakeAll(Repaired, s, events), log, base)
    ensures Reassembled(TakeAll(Repaired, s, events), start, received + Numbers(events))
    decreases events
  {
    if events == [] {
      assert received + Numbers(events) == received;
    } else {
      TakeEventReassembles(s, log, base, start, received, events[0]);
      ReassemblyExact(TakeEvent(Repaired, s, events[0]), log, base, start, received + {events[0].no}, events[1..]);
      NumbersCons(events);
      assert received + {events[0].no} + Numbers(events[1..]) == received + Numbers(events);
    }
  }

  lemma NumbersCons(events: seq<Event>)
    requires events != []
    ensures Numbers(events) == {events[0].no} + Numbers(events[1..])
  {
    forall n <- Numbers(events) ensures n in {events[0].no} + Numbers(events[1..]) {
      var i :| 0 <= i < |events| && events[i].no == n;
      assert i > 0 ==> events[1..][i - 1].no == n;
    }
    forall n <- Numbers(events[1..]) ensures n in Numbers(events) {
      var i :| 0 <= i < |events[1..]| && events[1..][i].no == n;
      assert events[i + 1].no == n;
    }
  }

  /** Recovery: whatever arrives besides, once every event from the expected one up to the length the log had
      when the server answered has arrived, in any order, the client has caught up with that length. */
  lemma RepairedConverges(s: State, log: seq<Event>, base: seq<Line>, upTo: nat, events: seq<Event>)
    requires LogOk(log) && InStep(s, log, base) && AllFromLog(log, events) && upTo <= |log|
    requires forall n: uint32 :: s.next <= n < upTo ==> n in Numbers(events)
    ensures TakeAll(Repaired, s, events).next >= upTo
    ensures InStep(TakeAll(Repaired, s, events), log, base)
  {
    var kept := s.future.Keys;
    assert Reassembled(s, s.next, kept);
    ReassemblyExact(s, log, base, s.next, kept, events);
  }

  // ---------- the reader as written ----------

  /** The branch that goes wrong: the expected event arrives, the one after it is already kept and has a line. */
  predicate PrintsEarly(s: State, e: Event) {
    !s.failed && e.no == s.next && e.no + 1 in s.future && !s.future[e.no + 1].data.GameOver?
  }

  /** How many lines are printed through that branch. */
  function EarlyPrints(s: State, events: seq<Event>): nat
    decreases events
  {
    if events == [] then 0
    else (if PrintsEarly(s, events[0]) then 1 else 0) + EarlyPrints(TakeEvent(AsWritten, s, events[0]), events[1..])
  }

  /** The reader follows the log, but has printed extra lines too many. */
  predicate Ahead(s: State, log: seq<Event>, base: seq<Line>, extra: nat)
    requires LogOk(log)
  {
    Following(s, log) && |s.lines| == |base| + |Lines(log, s.next)| + extra
  }

  lemma AsWrittenExpected(s: State, log: seq<Event>, n: nat)
    requires LogOk(log) && Following(s, log) && n == s.next < |log|
    ensures var r := TakeEvent(AsWritten, s, log[n]);
            && Following(r, log)
            && r.next == n + 1
            && r.lines == s.lines + LineOf(log, n) + if PrintsEarly(s, log[n]) then LineOf(log, n + 1) else []
  {
    var s1 := TakeExpected(s, log[n]);
    ExpectedLogged(s, log, n);
    if s1.next in s1.future {
      assert s1.future[s1.next] == log[n + 1];
      var r := DrainOne(AsWritten, s1);
      assert r.next !in r.future && Drain(AsWritten, r) == r;
    }
  }

  lemma AheadExpected(s: State, log: seq<Event>, base: seq<Line>, extra: nat, n: nat)
    requires LogOk(log) && Ahead(s, log, base, extra) && n == s.next < |log|
    ensures Ahead(TakeEvent(AsWritten, s, log[n]), log, base, extra + if PrintsEarly(s, log[n]) then 1 else 0)
  {
    AsWrittenExpected(s, log, n);
    assert Lines(log, n + 1) == Lines(log, n) + LineOf(log, n);
    if PrintsEarly(s, log[n]) {
      assert s.future[n + 1] == log[n + 1];
    }
  }

  lemma AsWrittenOther(s: State, log: seq<Event>, e: Event)
    requires LogOk(log) && Following(s, log) && FromLog(log, e) && e.no != s.next
    ensures Following(TakeEvent(AsWritten, s, e), log)
    ensures TakeEvent(AsWritten, s, e).next == s.next && TakeEvent(AsWritten, s, e).lines == s.lines
  {
    var kept := if e.no > s.next then Keep(s, e) else s;
    assert kept.next !in kept.future && Drain(AsWritten, kept) == kept;
  }

  /** One event, exactly: the code as written stays in step if and only if it does not take that branch. */
  lemma AsWrittenStepExact(s: State, log: seq<Event>, base: seq<Line>, e: Event)
    requires LogOk(log) && InStep(s, log, base) && FromLog(log, e)
    ensures InStep(TakeEvent(AsWritten, s, e), log, base) <==> !PrintsEarly(s, e)
  {
    if e.no == s.next {
      AsWrittenExpected(s, log, e.no);
      NextLines(base, log, e.no);
      if PrintsEarly(s, e) {
        AheadExpected(s, log, base, 0, e.no);
      }
    } else {
      AsWrittenOther(s, log, e);
    }
  }

  lemma {:induction false} AsWrittenCounts(s: State, log: seq<Event>, base: seq<Line>, extra: nat, events: seq<Event>)
    requires LogOk(log) && Ahead(s, log, base, extra) && AllFromLog(log, events)
    ensures Ahead(TakeAll(AsWritten, s, events), log, base, extra + EarlyPrints(s, events))
    decreases events
  {
    if events != [] {
      var e := events[0];
      if e.no == s.next {
        AheadExpected(s, log, base, extra, e.no);
      } else {
        AsWrittenOther(s, log, e);
      }
      AsWrittenCounts(TakeEvent(AsWritten, s, e), log, base, extra + if PrintsEarly(s, e) then 1 else 0, events[1..]);
    }
  }

  lemma {:induction false} AsWrittenKeepsStep(s: State, log: seq<Event>, base: seq<Line>, events: seq<Event>)
    requires LogOk(log) && InStep(s, log, base) && AllFromLog(log, events)
    requires EarlyPrints(s, events) == 0
    ensures InStep(TakeAll(AsWritten, s, events), log, base)
    decreases events
  {
    if events != [] {
      AsWrittenStepExact(s, log, base, events[0]);
      AsWrittenKeepsStep(TakeEvent(AsWritten, s, events[0]), log, base, events[1..]);
    }
  }

  /** A whole run, exactly: the code as written ends in step if and only if it never took that branch;
      a line printed twice is never made up for. */
  lemma AsWrittenRunExact(s: State, log: seq<Event>, base: seq<Line>, events: seq<Event>)
    requires LogOk(log) && InStep(s, log, base) && AllFromLog(log, events)
    ensures InStep(TakeAll(AsWritten, s, events), log, base) <==> EarlyPrints(s, events) == 0
  {
    AsWrittenCounts(s, log, base, 0, events);
    if EarlyPrints(s, events) == 0 {
      AsWrittenKeepsStep(s, log, base, events);
    }
  }

  // ---------- consecutive events, as a datagram carries them ----------

  predicate Consecutive(events: seq<Event>, from: nat) {
    && from + |events| < WRAP
    && forall i :: 0 <= i < |events| ==> events[i].no == from + i
  }

  /** The expected event is among them, and some event up to the one behind them is kept and has a line. */
  predicate PrintsAhead(s: State, events: seq<Event>) {
    && events != [] && events[0].no <= s.next < events[0].no + |events|
    && exists k :: k in s.future && k <= events[0].no + |events| && !s.future[k].data.GameOver?
  }

  /** The line of one event. */
  function Spoken(data: EventData, players: seq<Name>): seq<Line> {
    if data.GameOver? || Stringify(data, players).None? then [] else [Stringify(data, players).value]
  }

  /** As written, the loop prints one kept event at most: the expected number stays. */
  lemma DrainsOnce(s: State)
    requires !s.failed
    ensures Drain(AsWritten, s) == if s.next in s.future then DrainOne(AsWritten, s) else s
  {
    if s.next in s.future {
      var r := DrainOne(AsWritten, s);
      assert Drain(AsWritten, r) == r;
    }
  }

  /** The expected event, whatever it is, is taken in without complaint. */
  lemma ExpectedTaken(s: State, e: Event, n: uint32, r: State)
    requires !s.failed && e.no == s.next && n == s.next + 1
    requires r == TakeExpected(s, e) && !r.failed
    ensures r.next == n && r.future == s.future && r.lines == s.lines + Spoken(e.data, r.players)
    ensures if e.data.NewGame? then r.players == e.data.players && r.width == e.data.maxx && r.height == e.data.maxy
            else r.players == s.players && r.width == s.width && r.height == s.height
                 && ValidData(e.data, s.players, s.width, s.height)
    ensures e.data.GameOver? || Stringify(e.data, r.players).Some?
  {}

  /** So is a kept event that is printed. */
  lemma KeptTaken(s: State, r: State, data: EventData)
    requires !s.failed && s.next in s.future && data == s.future[s.next].data
    requires r == DrainOne(AsWritten, s) && !r.failed
    ensures r == s.(future := s.future - {s.next}, lines := s.lines + Spoken(data, s.players))
    ensures data.GameOver? || Stringify(data, s.players).Some?
  {}

  /** From s to r by the expected event e. n is the number behind it, whose kept event is printed too. */
  predicate Takes(s: State, e: Event, n: uint32, r: State) {
    && !r.failed && r.next == n && r.future == s.future - {n} && KeysAbove(r)
    && r.lines == s.lines + Spoken(e.data, r.players)
                  + (if n in s.future then Spoken(s.future[n].data, r.players) else [])
    && (if e.data.NewGame? then r.players == e.data.players && r.width == e.data.maxx && r.height == e.data.maxy
        else r.players == s.players && r.width == s.width && r.height == s.height
             && ValidData(e.data, s.players, s.width, s.height))
    && (e.data.GameOver? || Stringify(e.data, r.players).Some?)
    && (n in s.future && !s.future[n].data.GameOver? ==> Stringify(s.future[n].data, r.players).Some?)
  }

  lemma TakesExpected(s: State, e: Event, n: uint32, r: State)
    requires !s.failed && KeysAbove(s) && e.no == s.next && n == s.next + 1
    requires r == TakeEvent(AsWritten, s, e) && !r.failed
    ensures Takes(s, e, n, r)
  {
    var s1 := TakeExpected(s, e);
    if !s1.failed {
      ExpectedTaken(s, e, n, s1);
      DrainsOnce(s1);
      if n in s1.future {
        KeptTaken(s1, r, s.future[n].data);
      } else {
        assert s.future - {n} == s.future;
      }
    }
  }

  /** Any other event prints nothing. */
  lemma TakesOther(s: State, e: Event)
    requires !s.failed && KeysAbove(s) && e.no != s.next
    ensures TakeEvent(AsWritten, s, e) == if e.no > s.next then Keep(s, e) else s
    ensures KeysAbove(TakeEvent(AsWritten, s, e)) && !PrintsEarly(s, e)
  {
    var kept := if e.no > s.next then Keep(s, e) else s;
    assert kept.next !in kept.future && Drain(AsWritten, kept) == kept;
  }

  lemma TakeAllFirst(s: State, events: seq<Event>, s1: State)
    requires events != [] && s1 == TakeEvent(AsWritten, s, events[0])
    ensures TakeAll(AsWritten, s, events) == TakeAll(AsWritten, s1, events[1..])
    ensures !TakeAll(AsWritten, s, events).failed ==> !s1.failed
    ensures EarlyPrints(s, events) == (if PrintsEarly(s, events[0]) then 1 else 0) + EarlyPrints(s1, events[1..])
  {
    if s1.failed {
      TakeAllFailed(AsWritten, s1, events[1..]);
    }
  }

  lemma ConsecutiveRest(events: seq<Event>, from: nat)
    requires events != [] && Consecutive(events, from)
    ensures Consecutive(events[1..], from + 1) && events[0].no == from
    ensures |events| > 1 ==> events[1..][0].no == from + 1
  {}

  /** PrintsAhead of a state that goes on from the expected event. */
  lemma AheadExpected1(s: State, events: seq<Event>, n: uint32, r: State)
    requires events != [] && Consecutive(events, s.next) && KeysAbove(s) && n == s.next + 1
    requires r.next == n && r.future == s.future - {n}
    ensures PrintsAhead(s, events) <==>
            (n in s.future && !s.future[n].data.GameOver?) || PrintsAhead(r, events[1..])
  {
    ConsecutiveRest(events, s.next);
    if PrintsAhead(s, events) {
      var k :| k in s.future && k <= s.next + |events| && !s.future[k].data.GameOver?;
      assert k == n || k in r.future;
    }
    if PrintsAhead(r, events[1..]) {
      var k :| k in r.future && k <= r.next + |events[1..]| && !r.future[k].data.GameOver?;
      assert k in s.future && s.future[k] == r.future[k];
    }
  }

  /** Whether consecutive events print anything early can be told beforehand. */
  lemma {:induction false} EarlyPrintsExactly(s: State, from: nat, events: seq<Event>)
    requires !s.failed && KeysAbove(s) && Consecutive(events, from) && !TakeAll(AsWritten, s, events).failed
    ensures EarlyPrints(s, events) == 0 <==> !PrintsAhead(s, events)
    decreases |events|
  {
    if events != [] {
      var e := events[0];
      var s1 := TakeEvent(AsWritten, s, e);
      TakeAllFirst(s, events, s1);
      ConsecutiveRest(events, from);
      if e.no == s.next {
        TakesExpected(s, e, s.next + 1, s1);
        AheadExpected1(s, events, s.next + 1, s1);
      } else {
        TakesOther(s, e);
      }
      EarlyPrintsExactly(s1, from + 1, events[1..]);
    }
  }

  /** A slice of the log read by its follower, exactly: it ends in step if and only if nothing is printed ahead. */
  lemma AsWrittenSliceExact(s: State, log: seq<Event>, base: seq<Line>, from: nat, slice: seq<Event>)
    requires LogOk(log) && InStep(s, log, base) && AllFromLog(log, slice) && Consecutive(slice, from)
    ensures InStep(TakeAll(AsWritten, s, slice), log, base) <==> !PrintsAhead(s, slice)
  {
    AsWrittenRunExact(s, log, base, slice);
    AsWrittenCounts(s, log, base, 0, slice);
    EarlyPrintsExactly(s, from, slice);
  }

  /** The expected number as written: it moves only when the events arrive in their order. */
  function Greedy(next: nat, events: seq<Event>): nat
    decreases events
  {
    if events == [] then next else Greedy(if events[0].no == next then next + 1 else next, events[1..])
  }

  lemma {:induction false} AsWrittenNext(s: State, log: seq<Event>, events: seq<Event>)
    requires LogOk(log) && Following(s, log) && AllFromLog(log, events)
    ensures TakeAll(AsWritten, s, events).next == Greedy(s.next, events)
    decreases events
  {
    if events != [] {
      var e := events[0];
      if e.no == s.next {
        AsWrittenExpected(s, log, e.no);
      } else {
        AsWrittenOther(s, log, e);
      }
      AsWrittenNext(TakeEvent(AsWritten, s, e), log, events[1..]);
    }
  }

  /** at gives the places, in increasing order, where events carries the numbers from, from + 1, ... upTo - 1. */
  ghost predicate Embedding(at: seq<nat>, from: nat, upTo: nat, events: seq<Event>) {
    && from + |at| == upTo
    && (forall i :: 0 <= i < |at| ==> at[i] < |events| && events[at[i]].no == from + i)
    && (forall i, j :: 0 <= i < j < |at| ==> at[i] < at[j])
  }

  function Earlier(at: seq<nat>): seq<nat>
    requires forall i :: 0 <= i < |at| ==> at[i] > 0
  {
    seq(|at|, i requires 0 <= i < |at| => at[i] - 1)
  }

  function Later(at: seq<nat>): seq<nat> {
    seq(|at|, i requires 0 <= i < |at| => at[i] + 1)
  }

  /** An embedding without the first event. */
  lemma EmbeddingTail(at: seq<nat>, from: nat, upTo: nat, events: seq<Event>, rest: seq<nat>)
    requires Embedding(at, from, upTo, events) && at != [] && events != []
    requires rest == if events[0].no == from then at[1..] else at
    ensures forall i :: 0 <= i < |rest| ==> rest[i] > 0
    ensures Embedding(Earlier(rest), if events[0].no == from then from + 1 else from, upTo, events[1..])
  {
    assert events[at[0]].no == from;
    forall i | 0 <= i < |rest| ensures rest[i] > 0 {
      if events[0].no == from {
        assert at[0] < at[i + 1];
      } else {
        assert i > 0 ==> at[0] < at[i];
      }
    }
    EmbeddingEarlier(rest, if events[0].no == from then from + 1 else from, upTo, events);
  }

  lemma EmbeddingEarlier(at: seq<nat>, from: nat, upTo: nat, events: seq<Event>)
    requires events != [] && Embedding(at, from, upTo, events) && forall i :: 0 <= i < |at| ==> at[i] > 0
    ensures Embedding(Earlier(at), from, upTo, events[1..])
  {
    forall i | 0 <= i < |at| ensures Earlier(at)[i] < |events[1..]| && events[1..][Earlier(at)[i]].no == from + i {
      assert events[at[i]].no == from + i;
    }
  }

  lemma {:induction false} GreedyFromEmbedding(at: seq<nat>, from: nat, upTo: nat, events: seq<Event>)
    requires Embedding(at, from, upTo, events)
    ensures Greedy(from, events) >= upTo
    decreases events
  {
    if at == [] {
      GreedyGrows(from, events);
    } else {
      assert at[0] < |events|;
      var rest := if events[0].no == from then at[1..] else at;
      EmbeddingTail(at, from, upTo, events, rest);
      GreedyFromEmbedding(Earlier(rest), if events[0].no == from then from + 1 else from, upTo, events[1..]);
    }
  }

  lemma {:induction false} GreedyGrows(from: nat, events: seq<Event>)
    ensures Greedy(from, events) >= from
    decreases events
  {
    if events != [] {
      GreedyGrows(if events[0].no == from then from + 1 else from, events[1..]);
    }
  }

  lemma LaterEmbedding(at: seq<nat>, from: nat, upTo: nat, events: seq<Event>)
    requires events != [] && Embedding(at, from, upTo, events[1..])
    ensures Embedding(Later(at), from, upTo, events)
  {
    forall i | 0 <= i < |at| ensures Later(at)[i] < |events| && events[Later(at)[i]].no == from + i {
      assert events[1..][at[i]] == events[at[i] + 1];
    }
  }

  lemma FirstEmbedding(at: seq<nat>, from: nat, upTo: nat, events: seq<Event>)
    requires events != [] && events[0].no == from
    requires Embedding(at, from + 1, upTo, events) && (at != [] ==> at[0] > 0)
    ensures Embedding([0] + at, from, upTo, events)
  {
    var all := [0] + at;
    forall i | 0 <= i < |all| ensures all[i] < |events| && events[all[i]].no == from + i {
      assert i > 0 ==> all[i] == at[i - 1];
    }
    forall i, j | 0 <= i < j < |all| ensures all[i] < all[j] {
      assert all[j] == at[j - 1] && (j > 1 ==> at[0] < at[j - 1]);
      assert i > 0 ==> all[i] == at[i - 1];
    }
  }

  lemma {:induction false} EmbeddingFromGreedy(from: nat, upTo: nat, events: seq<Event>) returns (at: seq<nat>)
    requires from <= upTo <= Greedy(from, events)
    ensures Embedding(at, from, upTo, events)
    decreases events
  {
    if from == upTo {
      at := [];
    } else if events[0].no == from {
      var rest := EmbeddingFromGreedy(from + 1, upTo, events[1..]);
      LaterEmbedding(rest, from + 1, upTo, events);
      FirstEmbedding(Later(rest), from, upTo, events);
      at := [0] + Later(rest);
    } else {
      var rest := EmbeddingFromGreedy(from, upTo, events[1..]);
      LaterEmbedding(rest, from, upTo, events);
      at := Later(rest);
    }
  }

  /** Recovery as written, exactly: the client catches up with a log of length upTo if and only if the missing
      events arrive in their order, whatever else arrives between them. */
  lemma AsWrittenConvergesExactly(s: State, log: seq<Event>, upTo: nat, events: seq<Event>)
    requires LogOk(log) && Following(s, log) && AllFromLog(log, events) && s.next <= upTo
    ensures TakeAll(AsWritten, s, events).next >= upTo <==> exists at :: Embedding(at, s.next, upTo, events)
  {
    AsWrittenNext(s, log, events);
    if Greedy(s.next, events) >= upTo {
      var at := EmbeddingFromGreedy(s.next, upTo, events);
    } else if at :| Embedding(at, s.next, upTo, events) {
      GreedyFromEmbedding(at, s.next, upTo, events);
    }
  }

  /** The smallest failure: two events arrive in the wrong order and the second again. Its line is printed twice,
      and in between the client expects an event it has already printed. */
  lemma AsWrittenPrintsTwice(log: seq<Event>, s: State)
    requires LogOk(log) && |log| >= 2 && !log[1].data.GameOver?
    requires InStep(s, log, []) && s.next == 0 && s.future == map[]
    ensures TakeAll(AsWritten, s, [log[1], log[0]]).next == 1
    ensures TakeAll(AsWritten, s, [log[1], log[0], log[1]]).lines
            == LineOf(log, 0) + LineOf(log, 1) + LineOf(log, 1)
  {
    var s1 := Keep(s, log[1]);
    assert s1.next !in s1.future && TakeEvent(AsWritten, s, log[1]) == s1;
    AsWrittenOther(s, log, log[1]);
    AsWrittenExpected(s1, log, 0);
    var s2 := TakeEvent(AsWritten, s1, log[0]);
    AsWrittenExpected(s2, log, 1);
    EarlyKeyGone(s1, log);
    ThreeEvents(s, log[1], log[0], log[1]);
  }

  lemma EarlyKeyGone(s: State, log: seq<Event>)
    requires LogOk(log) && |log| >= 2 && Following(s, log) && s.next == 0 && s.future == map[1 := log[1]]
    ensures TakeEvent(AsWritten, s, log[0]).future == map[]
  {
    ExpectedLogged(s, log, 0);
    var s1 := TakeExpected(s, log[0]);
    var r := DrainOne(AsWritten, s1);
    assert Drain(AsWritten, r) == r;
  }

  lemma ThreeEvents(s: State, a: Event, b: Event, c: Event)
    ensures TakeAll(AsWritten, s, [a, b]) == TakeEvent(AsWritten, TakeEvent(AsWritten, s, a), b)
    ensures TakeAll(AsWritten, s, [a, b, c])
            == TakeEvent(AsWritten, TakeEvent(AsWritten, TakeEvent(AsWritten, s, a), b), c)
  {
    var s1 := TakeEvent(AsWritten, s, a);
    var s2 := TakeEvent(AsWritten, s1, b);
    TakeFirst(s, a, [b]);
    TakeFirst(s1, b, []);
    TakeFirst(s, a, [b, c]);
    TakeFirst(s1, b, [c]);
    TakeFirst(s2, c, []);
    assert [a] + [b] == [a, b] && [b] + [] == [b] && [a] + [b, c] == [a, b, c];
    assert [b] + [c] == [b, c] && [c] + [] == [c];
  }

  lemma TakeFirst(s: State, a: Event, rest: seq<Event>)
    ensures TakeAll(AsWritten, s, [a] + rest) == TakeAll(AsWritten, TakeEvent(AsWritten, s, a), rest)
  {
    assert ([a] + rest)[1..] == rest;
  }
}
