/** Datagrams of a game the client has left: the code reads their events as events of the current game. What that
    does to the lines printed, exactly. */
module StaleDatagrams {
  import opened Bytes
  import opened Wire
  import opened Datagrams
  import opened EventLogs
  import opened Text
  import opened Client
  import opened Reassembly
  import opened Variants

  // ---------- when the client is left alone ----------

  /** Later in a reading: further on, or keeping no less. */
  predicate Grown(s: State, r: State) {
    r.failed || r.next > s.next || (r.next == s.next && s.future.Keys <= r.future.Keys)
  }

  lemma TakeEventGrows(s: State, e: Event)
    requires !s.failed && KeysAbove(s) && s.next + 1 < WRAP
    ensures Grown(s, TakeEvent(AsWritten, s, e))
    ensures !TakeEvent(AsWritten, s, e).failed ==> TakeEvent(AsWritten, s, e).next <= s.next + 1
    ensures TakeEvent(AsWritten, s, e) == s <==> e.no < s.next || e.no in s.future
    ensures TakeEvent(AsWritten, s, e) != s ==> !Grown(TakeEvent(AsWritten, s, e), s)
  {
    if e.no == s.next {
      DrainStays(TakeExpected(s, e));
    } else {
      var kept := if e.no > s.next then Keep(s, e) else s;
      assert kept.next !in kept.future && Drain(AsWritten, kept) == kept;
    }
  }

  lemma {:induction false} DrainStays(s: State)
    ensures Drain(AsWritten, s).next == s.next
    decreases s.future.Keys
  {
    if !s.failed && s.next in s.future {
      DrainStays(DrainOne(AsWritten, s));
    }
  }

  lemma {:induction false} TakeAllGrows(s: State, events: seq<Event>)
    requires s.failed || (KeysAbove(s) && s.next + |events| < WRAP)
    ensures Grown(s, TakeAll(AsWritten, s, events))
    decreases events
  {
    if s.failed {
      TakeAllFailed(AsWritten, s, events);
    } else if events != [] {
      TakeEventGrows(s, events[0]);
      TakeEventKeysAbove(AsWritten, s, events[0]);
      var s1 := TakeEvent(AsWritten, s, events[0]);
      TakeAllGrows(s1, events[1..]);
      if s1.failed {
        TakeAllFailed(AsWritten, s1, events[1..]);
      }
    }
  }

  predicate NoUse(s: State, events: seq<Event>) {
    forall i :: 0 <= i < |events| ==> events[i].no < s.next || events[i].no in s.future
  }

  lemma NoUseCons(s: State, events: seq<Event>)
    requires events != []
    ensures NoUse(s, events) <==> (events[0].no < s.next || events[0].no in s.future) && NoUse(s, events[1..])
  {
    if NoUse(s, events[1..]) && (events[0].no < s.next || events[0].no in s.future) {
      forall i | 0 <= i < |events| ensures events[i].no < s.next || events[i].no in s.future {
        assert i > 0 ==> events[i] == events[1..][i - 1];
      }
    }
  }

  lemma {:induction false} NoUseLeaves(s: State, events: seq<Event>)
    requires !s.failed && KeysAbove(s) && NoUse(s, events)
    ensures TakeAll(AsWritten, s, events) == s
    decreases events
  {
    if events != [] {
      NoUseCons(s, events);
      TakesOther(s, events[0]);
      NoUseLeaves(s, events[1..]);
    }
  }

  lemma {:induction false} TakeAllHarmless(s: State, events: seq<Event>)
    requires !s.failed && KeysAbove(s) && s.next + |events| < WRAP
    ensures TakeAll(AsWritten, s, events) == s <==> NoUse(s, events)
    decreases events
  {
    if events != [] {
      var s1 := TakeEvent(AsWritten, s, events[0]);
      NoUseCons(s, events);
      TakeEventGrows(s, events[0]);
      if s1 == s {
        TakeAllHarmless(s, events[1..]);
      } else {
        TakeEventKeysAbove(AsWritten, s, events[0]);
        TakeAllGrows(s1, events[1..]);
      }
    }
  }

  /** A stale datagram, exactly: read as events of the current game, as the code does, it leaves the client alone
      if and only if the client has no use for any of its event numbers. */
  lemma StaleHarmlessExactly(s: State, game: uint32, events: seq<Event>)
    requires !s.failed && KeysAbove(s) && s.next + |events| < WRAP && Stale(s, game)
    ensures TakeDatagramOf(AsWritten, s, game, Parsed(events, Exhausted)) == s <==> NoUse(s, events)
  {
    TakeAllHarmless(s, events);
  }

  // ---------- when the lines stay right ----------

  /** Read as the expected event, e does what the log's own event of that number does. */
  predicate Passes(log: seq<Event>, e: Event)
    requires LogOk(log)
  {
    && e.no < |log|
    && (if e.no == 0 then e.data == log[0].data else !e.data.NewGame?)
    && ValidData(e.data, log[0].data.players, log[0].data.maxx, log[0].data.maxy)
    && Spoken(e.data, log[0].data.players) == LineOf(log, e.no)
  }

  /** If the expected number is among them, the events from it on are all taken in; if they begin behind it, the new
      ones are kept. */
  predicate Blends(s: State, log: seq<Event>, slice: seq<Event>)
    requires LogOk(log)
  {
    if slice != [] && slice[0].no <= s.next then
      forall i :: 0 <= i < |slice| && slice[i].no >= s.next ==> Passes(log, slice[i])
    else
      forall i :: 0 <= i < |slice| ==> slice[i].no in s.future || FromLog(log, slice[i])
  }

  /** Consecutive events of some log. */
  predicate LogLike(slice: seq<Event>, from: nat) {
    && Consecutive(slice, from)
    && (forall i :: 0 <= i < |slice| ==> (slice[i].data.NewGame? <==> slice[i].no == 0))
    && (forall i :: 0 <= i < |slice| - 1 ==> !slice[i].data.GameOver?)
  }

  predicate EndsGame(slice: seq<Event>) {
    slice != [] && slice[|slice| - 1].data.GameOver?
  }

  lemma LogLikeRest(slice: seq<Event>, from: nat)
    requires slice != [] && LogLike(slice, from)
    ensures LogLike(slice[1..], from + 1) && slice[0].no == from
    ensures |slice| > 1 ==> !slice[0].data.GameOver? && (EndsGame(slice[1..]) <==> EndsGame(slice))
    ensures |slice| > 1 ==> slice[1..][0].no == from + 1
  {
    ConsecutiveRest(slice, from);
  }

  /** From s to r by keeping what is new among slice. */
  predicate KeepsNew(s: State, slice: seq<Event>, r: State) {
    && r == s.(future := r.future)
    && (forall k :: k in s.future ==> k in r.future && r.future[k] == s.future[k])
    && (forall k :: k in r.future && k !in s.future ==> r.future[k] in slice && r.future[k].no == k)
    && (forall e :: e in slice ==> e.no in r.future)
  }

  lemma KeepsNewCons(s: State, e: Event, s1: State, rest: seq<Event>, r: State)
    requires s1 == Keep(s, e) && KeepsNew(s1, rest, r)
    ensures KeepsNew(s, [e] + rest, r)
  {
    var slice := [e] + rest;
    forall k | k in r.future && k !in s.future ensures r.future[k] in slice && r.future[k].no == k {
      if k == e.no {
        assert r.future[k] == s1.future[k] == e && slice[0] == e;
      } else {
        assert r.future[k] in rest;
      }
    }
  }

  lemma {:induction false} KeptAll(s: State, from: nat, slice: seq<Event>)
    requires !s.failed && KeysAbove(s) && Consecutive(slice, from) && from > s.next
    ensures KeepsNew(s, slice, TakeAll(AsWritten, s, slice))
    decreases |slice|
  {
    if slice != [] {
      var e := slice[0];
      ConsecutiveRest(slice, from);
      TakesOther(s, e);
      var s1 := TakeEvent(AsWritten, s, e);
      TakeAllFirst(s, slice, s1);
      KeptAll(s1, from + 1, slice[1..]);
      KeepsNewCons(s, e, s1, slice[1..], TakeAll(AsWritten, s, slice));
      assert slice == [e] + slice[1..];
    }
  }

  lemma {:induction false} ConsecutiveOnce(slice: seq<Event>, from: nat, e: Event, k: nat)
    requires Consecutive(slice, from) && e in slice && k < |slice| && e.no == slice[k].no
    ensures e == slice[k]
  {
    var i :| 0 <= i < |slice| && slice[i] == e;
    assert slice[i].no == from + i && slice[k].no == from + k;
  }

  /** What is new in an event behind the expected one, when all that is kept is genuine. */
  lemma NewKept(s: State, log: seq<Event>, base: seq<Line>, from: nat, slice: seq<Event>, r: State, i: nat)
    requires LogOk(log) && InStep(r, log, base) && KeepsNew(s, slice, r) && Consecutive(slice, from) && i < |slice|
    ensures slice[i].no in s.future || FromLog(log, slice[i])
  {
    var e := slice[i];
    assert e in slice;
    if e.no !in s.future {
      ConsecutiveOnce(slice, from, r.future[e.no], i);
    }
  }

  lemma KeptExact(s: State, log: seq<Event>, base: seq<Line>, from: nat, slice: seq<Event>)
    requires LogOk(log) && InStep(s, log, base) && Consecutive(slice, from) && from > s.next
    ensures InStep(TakeAll(AsWritten, s, slice), log, base)
            <==> forall i :: 0 <= i < |slice| ==> slice[i].no in s.future || FromLog(log, slice[i])
  {
    KeptAll(s, from, slice);
    var r := TakeAll(AsWritten, s, slice);
    if InStep(r, log, base) {
      forall i | 0 <= i < |slice| ensures slice[i].no in s.future || FromLog(log, slice[i]) {
        NewKept(s, log, base, from, slice, r, i);
      }
    } else if forall i :: 0 <= i < |slice| ==> slice[i].no in s.future || FromLog(log, slice[i]) {
      KeptGenuine(s, log, base, from, slice, r);
    }
  }

  lemma KeptGenuine(s: State, log: seq<Event>, base: seq<Line>, from: nat, slice: seq<Event>, r: State)
    requires LogOk(log) && InStep(s, log, base) && Consecutive(slice, from) && from > s.next && KeepsNew(s, slice, r)
    requires forall i :: 0 <= i < |slice| ==> slice[i].no in s.future || FromLog(log, slice[i])
    ensures InStep(r, log, base)
  {
    forall k <- r.future ensures r.next < k < |log| && r.future[k] == log[k] {
      if k !in s.future {
        var i :| 0 <= i < |slice| && slice[i] == r.future[k];
        assert slice[i].no == k == from + i;
      }
    }
  }

  // ---------- events taken in ----------

  lemma PassesWell(s: State, log: seq<Event>, base: seq<Line>, e: Event, n: uint32)
    requires LogOk(log) && InStep(s, log, base) && e.no == s.next && n == s.next + 1
    requires Passes(log, e) && !PrintsEarly(s, e)
    ensures !TakeEvent(AsWritten, s, e).failed
  {
    DrainsOnce(TakeExpected(s, e));
  }

  predicate PlayersOf(s: State, log: seq<Event>)
    requires LogOk(log)
  {
    s.players == log[0].data.players && s.width == log[0].data.maxx && s.height == log[0].data.maxy
  }

  /** An event taken in with the line its number should have. */
  lemma TakenInStep(s: State, log: seq<Event>, base: seq<Line>, e: Event, n: uint32, s1: State)
    requires LogOk(log) && InStep(s, log, base) && e.no == s.next && n == s.next + 1 <= |log| && Takes(s, e, n, s1)
    requires !PrintsEarly(s, e) && PlayersOf(s1, log) && Spoken(e.data, s1.players) == LineOf(log, e.no)
    ensures InStep(s1, log, base)
  {
    NextLines(base, log, s.next);
    assert n in s.future ==> Spoken(s.future[n].data, s1.players) == [];
  }

  lemma PassesStep(s: State, log: seq<Event>, base: seq<Line>, e: Event, n: uint32)
    requires LogOk(log) && InStep(s, log, base) && e.no == s.next && n == s.next + 1
    requires Passes(log, e) && !PrintsEarly(s, e)
    ensures InStep(TakeEvent(AsWritten, s, e), log, base) && TakeEvent(AsWritten, s, e).next == n
    ensures TakeEvent(AsWritten, s, e).future == s.future - {n}
  {
    var s1 := TakeEvent(AsWritten, s, e);
    PassesWell(s, log, base, e, n);
    TakesExpected(s, e, n, s1);
    TakenInStep(s, log, base, e, n, s1);
  }

  lemma EarlyIsAhead(s: State, slice: seq<Event>, n: uint32)
    requires slice != [] && slice[0].no == s.next && n == s.next + 1
    ensures PrintsEarly(s, slice[0]) ==> PrintsAhead(s, slice)
  {
    assert n <= slice[0].no + |slice|;
  }

  lemma {:induction false} PassingKeeps(s: State, log: seq<Event>, base: seq<Line>, slice: seq<Event>)
    requires LogOk(log) && InStep(s, log, base) && LogLike(slice, s.next) && !PrintsAhead(s, slice)
    requires AllPassing(log, slice)
    ensures InStep(TakeAll(AsWritten, s, slice), log, base)
    decreases |slice|
  {
    if slice != [] {
      var e := slice[0];
      var s1 := TakeEvent(AsWritten, s, e);
      LogLikeRest(slice, s.next);
      EarlyIsAhead(s, slice, s.next + 1);
      PassesStep(s, log, base, e, s.next + 1);
      AheadExpected1(s, slice, s.next + 1, s1);
      TakeAllFirst(s, slice, s1);
      PassingKeeps(s1, log, base, slice[1..]);
    }
  }

  /** How many lines consecutive events have. */
  function Told(slice: seq<Event>): nat {
    if EndsGame(slice) then |slice| - 1 else |slice|
  }

  lemma {:induction false} TakenCount(s: State, slice: seq<Event>, r: State)
    requires !s.failed && KeysAbove(s) && LogLike(slice, s.next)
    requires r == TakeAll(AsWritten, s, slice) && !r.failed
    ensures r.next == s.next + |slice| && s.lines <= r.lines
    ensures |r.lines| == |s.lines| + Told(slice) + EarlyPrints(s, slice)
    ensures s.next > 0 ==> r.players == s.players && r.width == s.width && r.height == s.height
    decreases |slice|
  {
    if slice != [] {
      var e := slice[0];
      var s1 := TakeEvent(AsWritten, s, e);
      LogLikeRest(slice, s.next);
      TakeAllFirst(s, slice, s1);
      TakesExpected(s, e, s.next + 1, s1);
      TakenCount(s1, slice[1..], r);
    }
  }

  lemma {:induction false} LinesCount(log: seq<Event>, n: nat, hi: nat)
    requires LogOk(log) && n <= hi <= |log|
    ensures Lines(log, n) <= Lines(log, hi)
    ensures |Lines(log, hi)| == |Lines(log, n)| + if hi > n && log[hi - 1].data.GameOver? then hi - n - 1 else hi - n
    decreases hi
  {
    if n < hi {
      LinesCount(log, n, hi - 1);
    }
  }

  lemma SamePrefix<T>(a: seq<T>, b: seq<T>, c: seq<T>)
    requires a <= c && b <= c && |a| == |b|
    ensures a == b
  {}

  /** The first of some events that together leave the client in step, none printed early. */
  lemma FirstPasses(s: State, log: seq<Event>, base: seq<Line>, e: Event, rest: seq<Event>, n: uint32, s1: State,
                    r: State)
    requires LogOk(log) && InStep(s, log, base) && e.no == s.next && n == s.next + 1 && LogLike(rest, n)
    requires Takes(s, e, n, s1) && !PrintsEarly(s, e) && (e.data.NewGame? <==> e.no == 0)
    requires r == TakeAll(AsWritten, s1, rest) && InStep(r, log, base)
    requires n <= |log| && (e.data.GameOver? <==> log[n - 1].data.GameOver?)
    ensures Passes(log, e) && InStep(s1, log, base)
  {
    TakenCount(s1, rest, r);
    LinesCount(log, n, r.next);
    FirstLine(s, log, base, e, n, s1, r);
  }

  lemma FirstLine(s: State, log: seq<Event>, base: seq<Line>, e: Event, n: uint32, s1: State, r: State)
    requires LogOk(log) && InStep(s, log, base) && e.no == s.next && n == s.next + 1 && Takes(s, e, n, s1)
    requires !PrintsEarly(s, e) && (e.data.NewGame? <==> e.no == 0) && InStep(r, log, base)
    requires n <= r.next && s1.lines <= r.lines && Lines(log, n) <= Lines(log, r.next)
    requires n <= |log| && (e.data.GameOver? <==> log[n - 1].data.GameOver?)
    requires r.players == s1.players && r.width == s1.width && r.height == s1.height
    ensures Passes(log, e) && InStep(s1, log, base)
  {
    NextLines(base, log, s.next);
    assert n in s.future ==> Spoken(s.future[n].data, s1.players) == [];
    SamePrefix(s1.lines, base + Lines(log, n), r.lines);
    SameRest(s.lines, Spoken(e.data, s1.players), LineOf(log, s.next));
    TakenInStep(s, log, base, e, n, s1);
  }

  lemma SameRest<T>(a: seq<T>, b: seq<T>, c: seq<T>)
    requires a + b == a + c
    ensures b == c
  {
    assert b == (a + b)[|a|..] == (a + c)[|a|..] == c;
  }

  lemma {:induction false} AllPass(s: State, log: seq<Event>, base: seq<Line>, slice: seq<Event>, r: State)
    requires LogOk(log) && InStep(s, log, base) && LogLike(slice, s.next)
    requires r == TakeAll(AsWritten, s, slice) && InStep(r, log, base)
    requires EarlyPrints(s, slice) == 0 && r.next == s.next + |slice|
    requires slice != [] ==> (EndsGame(slice) <==> log[r.next - 1].data.GameOver?)
    ensures AllPassing(log, slice)
    decreases |slice|
  {
    if slice != [] {
      var e, rest, n: uint32 := slice[0], slice[1..], s.next + 1;
      var s1 := TakeEvent(AsWritten, s, e);
      LogLikeRest(slice, s.next);
      TakeAllFirst(s, slice, s1);
      TakesExpected(s, e, n, s1);
      FirstPasses(s, log, base, e, rest, n, s1, r);
      AllPass(s1, log, base, rest, r);
      forall i | 0 <= i < |slice| ensures Passes(log, slice[i]) {
        assert i > 0 ==> slice[i] == slice[1..][i - 1];
      }
    }
  }

  predicate AllPassing(log: seq<Event>, slice: seq<Event>)
    requires LogOk(log)
  {
    forall i :: 0 <= i < |slice| ==> Passes(log, slice[i])
  }

  lemma LinesInStep(s: State, log: seq<Event>, base: seq<Line>)
    requires LogOk(log) && InStep(s, log, base)
    ensures s.next <= |log| && |s.lines| == |base| + |Lines(log, s.next)|
  {}

  /** k events that leave the client in step have as many lines as the log has for their numbers, early ones
      counted. */
  lemma LineBalance(s: State, log: seq<Event>, base: seq<Line>, k: nat, told: nat, early: nat, r: State)
    requires LogOk(log) && InStep(s, log, base) && InStep(r, log, base) && k > 0 && r.next == s.next + k
    requires |r.lines| == |s.lines| + told + early
    ensures r.next <= |log| && told + early == if log[r.next - 1].data.GameOver? then k - 1 else k
  {
    LinesInStep(s, log, base);
    LinesInStep(r, log, base);
    LinesCount(log, s.next, r.next);
  }

  /** If they leave the client in step, no line was printed early. */
  lemma NoneEarly(s: State, log: seq<Event>, base: seq<Line>, slice: seq<Event>, r: State)
    requires LogOk(log) && InStep(s, log, base) && slice != [] && LogLike(slice, s.next)
    requires EarlyPrints(s, slice) == 0 || !EndsGame(slice)
    requires r == TakeAll(AsWritten, s, slice) && InStep(r, log, base)
    ensures EarlyPrints(s, slice) == 0 && r.next == s.next + |slice|
    ensures EndsGame(slice) <==> log[r.next - 1].data.GameOver?
  {
    TakenCount(s, slice, r);
    LineBalance(s, log, base, |slice|, Told(slice), EarlyPrints(s, slice), r);
  }

  lemma TakenExact(s: State, log: seq<Event>, base: seq<Line>, slice: seq<Event>)
    requires LogOk(log) && InStep(s, log, base) && slice != [] && LogLike(slice, s.next)
    requires !PrintsAhead(s, slice) || !EndsGame(slice)
    ensures InStep(TakeAll(AsWritten, s, slice), log, base)
            <==> !PrintsAhead(s, slice) && AllPassing(log, slice)
  {
    var r := TakeAll(AsWritten, s, slice);
    if InStep(r, log, base) {
      EarlyPrintsExactly(s, s.next, slice);
      NoneEarly(s, log, base, slice, r);
      AllPass(s, log, base, slice, r);
    } else if !PrintsAhead(s, slice) && AllPassing(log, slice) {
      PassingKeeps(s, log, base, slice);
    }
  }

  // ---------- one line early, and GAME_OVER without one ----------

  /** Read as the expected event, e has the line of the number behind it. */
  predicate PassesNext(log: seq<Event>, e: Event)
    requires LogOk(log)
  {
    && e.no + 1 < |log| && !e.data.NewGame?
    && ValidData(e.data, log[0].data.players, log[0].data.maxx, log[0].data.maxy)
    && Spoken(e.data, log[0].data.players) == LineOf(log, e.no + 1)
  }

  /** The kept event k is the only one up to the number behind the slice that has a line. */
  predicate EarlyAt(s: State, slice: seq<Event>, k: uint32) {
    && slice != [] && k in s.future && k <= slice[0].no + |slice| && !s.future[k].data.GameOver?
    && forall j :: j in s.future && j <= slice[0].no + |slice| && !s.future[j].data.GameOver? ==> j == k
  }

  /** Up to k the events taken in have the lines of their numbers, from k on those of the next ones, and the last has
      none while the log has one there. */
  predicate Shifted(log: seq<Event>, slice: seq<Event>, k: uint32, next: uint32)
    requires LogOk(log)
  {
    && slice != [] && var hi := slice[0].no + |slice|;
       && hi <= |log| && !log[hi - 1].data.GameOver?
       && (k == hi ==> 0 < k < |log| && LineOf(log, k) == LineOf(log, k - 1))
       && (forall i :: 0 <= i < |slice| - 1 && next <= slice[i].no < k ==> Passes(log, slice[i]))
       && (forall i :: 0 <= i < |slice| - 1 && k <= slice[i].no ==> PassesNext(log, slice[i]))
  }

  /** The early line makes up for the one that GAME_OVER lacks. */
  predicate MadeUp(s: State, log: seq<Event>, slice: seq<Event>)
    requires LogOk(log)
  {
    exists k :: EarlyAt(s, slice, k) && Shifted(log, slice, k, s.next)
  }

  /** The line of the expected event has been printed already. */
  predicate OneAhead(s: State, log: seq<Event>, base: seq<Line>)
    requires LogOk(log)
  {
    Following(s, log) && 0 < s.next < |log| && s.lines == base + Lines(log, s.next + 1)
  }

  predicate AllPassNext(log: seq<Event>, slice: seq<Event>)
    requires LogOk(log)
  {
    forall i :: 0 <= i < |slice| - 1 ==> PassesNext(log, slice[i])
  }

  lemma AllPassNextCons(log: seq<Event>, e: Event, rest: seq<Event>, slice: seq<Event>)
    requires LogOk(log) && slice == [e] + rest && rest != []
    ensures AllPassNext(log, slice) <==> PassesNext(log, e) && AllPassNext(log, rest)
  {
    if PassesNext(log, e) && AllPassNext(log, rest) {
      forall i | 0 <= i < |slice| - 1 ensures PassesNext(log, slice[i]) {
        assert i > 0 ==> slice[i] == rest[i - 1];
      }
    }
    if AllPassNext(log, slice) {
      assert slice[0] == e;
      forall i | 0 <= i < |rest| - 1 ensures PassesNext(log, rest[i]) {
        assert rest[i] == slice[i + 1];
      }
    }
  }

  lemma AheadTaken(s: State, log: seq<Event>, base: seq<Line>, e: Event, n: uint32, s1: State)
    requires LogOk(log) && OneAhead(s, log, base) && e.no == s.next && n == s.next + 1 && Takes(s, e, n, s1)
    requires !PrintsEarly(s, e) && !e.data.NewGame? && n < |log| && Spoken(e.data, s1.players) == LineOf(log, n)
    ensures OneAhead(s1, log, base)
  {
    NextLines(base, log, n);
    assert n in s.future ==> Spoken(s.future[n].data, s1.players) == [];
  }

  lemma PassesNextWell(s: State, log: seq<Event>, e: Event, n: uint32)
    requires LogOk(log) && Following(s, log) && s.next > 0 && e.no == s.next && n == s.next + 1
    requires PassesNext(log, e) && !PrintsEarly(s, e)
    ensures !TakeEvent(AsWritten, s, e).failed
  {
    DrainsOnce(TakeExpected(s, e));
  }

  /** GAME_OVER brings a client that is one line ahead back in step. */
  lemma OverTaken(s: State, log: seq<Event>, base: seq<Line>, e: Event, n: uint32)
    requires LogOk(log) && OneAhead(s, log, base) && e.no == s.next && n == s.next + 1
    requires e.data.GameOver? && !PrintsEarly(s, e)
    ensures InStep(TakeEvent(AsWritten, s, e), log, base)
  {
    var s1 := TakeExpected(s, e);
    DrainsOnce(s1);
    TakesExpected(s, e, n, TakeEvent(AsWritten, s, e));
    assert n in s.future ==> Spoken(s.future[n].data, s.players) == [];
  }

  /** An event taken one line ahead, of some that end in step. */
  lemma AheadFirst(s: State, log: seq<Event>, base: seq<Line>, e: Event, rest: seq<Event>, n: uint32, s1: State,
                   r: State)
    requires LogOk(log) && OneAhead(s, log, base) && e.no == s.next && n == s.next + 1 && LogLike(rest, n)
    requires Takes(s, e, n, s1) && !PrintsEarly(s, e) && !e.data.NewGame? && !e.data.GameOver? && rest != []
    requires r == TakeAll(AsWritten, s1, rest) && InStep(r, log, base)
    ensures PassesNext(log, e) && OneAhead(s1, log, base)
  {
    assert n in s.future ==> Spoken(s.future[n].data, s1.players) == [];
    assert s1.lines == s.lines + Spoken(e.data, s1.players);
    TakenCount(s1, rest, r);
    LinesCount(log, n, r.next);
    LinesCount(log, n, n + 1);
    LinesCount(log, n + 1, r.next);
    assert |s1.lines| == |base| + |Lines(log, n)| + 1;
    SamePrefix(s1.lines, base + Lines(log, n + 1), r.lines);
    NextLines(base, log, n);
    SameRest(s.lines, Spoken(e.data, s1.players), LineOf(log, n));
  }

  /** The rest of the old game's events, once a line is ahead and none more will be. */
  lemma {:induction false} RestNeeds(s: State, log: seq<Event>, base: seq<Line>, slice: seq<Event>, r: State)
    requires LogOk(log) && OneAhead(s, log, base) && LogLike(slice, s.next) && EndsGame(slice)
    requires EarlyPrints(s, slice) == 0 && r == TakeAll(AsWritten, s, slice) && InStep(r, log, base)
    ensures AllPassNext(log, slice)
    decreases |slice|
  {
    if |slice| > 1 {
      var e, rest, n: uint32 := slice[0], slice[1..], s.next + 1;
      var s1 := TakeEvent(AsWritten, s, e);
      LogLikeRest(slice, s.next);
      TakeAllFirst(s, slice, s1);
      TakesExpected(s, e, n, s1);
      AheadFirst(s, log, base, e, rest, n, s1, r);
      RestNeeds(s1, log, base, rest, r);
      assert slice == [e] + rest;
      AllPassNextCons(log, e, rest, slice);
    }
  }

  lemma AheadStep(s: State, log: seq<Event>, base: seq<Line>, e: Event, n: uint32, s1: State)
    requires LogOk(log) && OneAhead(s, log, base) && e.no == s.next && n == s.next + 1
    requires PassesNext(log, e) && !PrintsEarly(s, e) && s1 == TakeEvent(AsWritten, s, e)
    ensures OneAhead(s1, log, base) && s1.next == n && s1.future == s.future - {n}
  {
    PassesNextWell(s, log, e, n);
    TakesExpected(s, e, n, s1);
    AheadTaken(s, log, base, e, n, s1);
  }

  lemma {:induction false} RestSuffices(s: State, log: seq<Event>, base: seq<Line>, slice: seq<Event>)
    requires LogOk(log) && OneAhead(s, log, base) && LogLike(slice, s.next) && EndsGame(slice)
    requires !PrintsAhead(s, slice) && AllPassNext(log, slice)
    ensures InStep(TakeAll(AsWritten, s, slice), log, base)
    decreases |slice|
  {
    var e, rest, n: uint32 := slice[0], slice[1..], s.next + 1;
    var s1 := TakeEvent(AsWritten, s, e);
    LogLikeRest(slice, s.next);
    TakeAllFirst(s, slice, s1);
    EarlyIsAhead(s, slice, n);
    if rest == [] {
      OverTaken(s, log, base, e, n);
    } else {
      assert slice == [e] + rest;
      AllPassNextCons(log, e, rest, slice);
      AheadStep(s, log, base, e, n, s1);
      AheadExpected1(s, slice, n, s1);
      RestSuffices(s1, log, base, rest);
    }
  }

  // The first of several events, with its successor kept: it is k, and whether it is the only one decides.

  lemma EarlyAtFirst(s: State, slice: seq<Event>, n: uint32, s1: State)
    requires |slice| > 1 && Consecutive(slice, s.next) && KeysAbove(s) && n == s.next + 1
    requires s1.next == n && s1.future == s.future - {n} && n in s.future && !s.future[n].data.GameOver?
    ensures EarlyAt(s, slice, n) <==> !PrintsAhead(s1, slice[1..])
    ensures forall k :: EarlyAt(s, slice, k) ==> k == n
  {
    ConsecutiveRest(slice, s.next);
    var hi := slice[0].no + |slice|;
    assert slice[1..][0].no + |slice[1..]| == hi && n <= hi;
    if PrintsAhead(s1, slice[1..]) {
      var j :| j in s1.future && j <= hi && !s1.future[j].data.GameOver?;
      assert j in s.future && j != n;
    } else {
      forall j | j in s.future && j <= hi && !s.future[j].data.GameOver? ensures j == n {
        assert j != n ==> j in s1.future;
      }
    }
  }

  /** Otherwise it is that of the events behind the first. */
  lemma EarlyAtRest(s: State, slice: seq<Event>, n: uint32, s1: State, k: uint32)
    requires |slice| > 1 && Consecutive(slice, s.next) && KeysAbove(s) && n == s.next + 1
    requires s1.next == n && s1.future == s.future - {n} && (n in s.future ==> s.future[n].data.GameOver?)
    ensures EarlyAt(s, slice, k) <==> EarlyAt(s1, slice[1..], k)
    ensures EarlyAt(s, slice, k) ==> k > n
  {
    ConsecutiveRest(slice, s.next);
    var hi := slice[0].no + |slice|;
    assert slice[1..][0].no + |slice[1..]| == hi;
    forall j ensures j in s.future && !s.future[j].data.GameOver? <==> j in s1.future && !s1.future[j].data.GameOver? {
      assert j in s1.future <==> j in s.future && j != n;
    }
    if EarlyAt(s1, slice[1..], k) {
      forall j | j in s.future && j <= hi && !s.future[j].data.GameOver? ensures j == k {
        assert j in s1.future;
      }
    }
    if EarlyAt(s, slice, k) {
      forall j | j in s1.future && j <= hi && !s1.future[j].data.GameOver? ensures j == k {
        assert j in s.future;
      }
    }
  }

  lemma ShiftedRest(log: seq<Event>, slice: seq<Event>, k: uint32, n: uint32)
    requires LogOk(log) && |slice| > 1 && 0 < n && Consecutive(slice, n - 1) && k > n
    ensures Shifted(log, slice, k, n - 1) <==> Passes(log, slice[0]) && Shifted(log, slice[1..], k, n)
  {
    var rest := slice[1..];
    ConsecutiveRest(slice, n - 1);
    assert rest[0].no + |rest| == slice[0].no + |slice|;
    if Passes(log, slice[0]) && Shifted(log, rest, k, n) {
      forall i | 0 <= i < |slice| - 1 && n - 1 <= slice[i].no < k ensures Passes(log, slice[i]) {
        assert i > 0 ==> slice[i] == rest[i - 1];
      }
      forall i | 0 <= i < |slice| - 1 && k <= slice[i].no ensures PassesNext(log, slice[i]) {
        assert slice[i] == rest[i - 1];
      }
    }
    if Shifted(log, slice, k, n - 1) {
      forall i | 0 <= i < |rest| - 1 && n <= rest[i].no < k ensures Passes(log, rest[i]) {
        assert rest[i] == slice[i + 1];
      }
      forall i | 0 <= i < |rest| - 1 && k <= rest[i].no ensures PassesNext(log, rest[i]) {
        assert rest[i] == slice[i + 1];
      }
    }
  }

  lemma ShiftedFirst(log: seq<Event>, slice: seq<Event>, n: uint32)
    requires LogOk(log) && |slice| > 1 && 0 < n && Consecutive(slice, n - 1)
    ensures Shifted(log, slice, n, n - 1)
            <==> Passes(log, slice[0]) && AllPassNext(log, slice[1..])
                 && n - 1 + |slice| <= |log| && !log[n - 2 + |slice|].data.GameOver?
  {
    var rest := slice[1..];
    ConsecutiveRest(slice, n - 1);
    if Passes(log, slice[0]) && AllPassNext(log, rest) {
      forall i | 0 <= i < |slice| - 1 && n <= slice[i].no ensures PassesNext(log, slice[i]) {
        assert slice[i] == rest[i - 1];
      }
    }
    if Shifted(log, slice, n, n - 1) {
      assert slice[0].no == n - 1;
      forall i | 0 <= i < |rest| - 1 ensures PassesNext(log, rest[i]) {
        assert rest[i] == slice[i + 1] && slice[i + 1].no == n + i;
      }
    }
  }

  /** If they leave the client in step although something was printed early, it was one line. */
  lemma OneEarly(s: State, log: seq<Event>, base: seq<Line>, slice: seq<Event>, r: State)
    requires LogOk(log) && InStep(s, log, base) && LogLike(slice, s.next) && EndsGame(slice)
    requires EarlyPrints(s, slice) != 0 && r == TakeAll(AsWritten, s, slice) && InStep(r, log, base)
    ensures EarlyPrints(s, slice) == 1 && r.next == s.next + |slice| && !log[r.next - 1].data.GameOver?
  {
    TakenCount(s, slice, r);
    LineBalance(s, log, base, |slice|, Told(slice), EarlyPrints(s, slice), r);
  }

  /** GAME_OVER alone, with the next event kept and printed. */
  lemma LastEarly(s: State, log: seq<Event>, base: seq<Line>, e: Event, n: uint32, r: State)
    requires LogOk(log) && InStep(s, log, base) && e.no == s.next && n == s.next + 1 && e.data.GameOver?
    requires PrintsEarly(s, e) && Takes(s, e, n, r) && s.next > 0
    ensures InStep(r, log, base) <==> LineOf(log, n) == LineOf(log, n - 1)
  {
    assert s.future[n] == log[n];
    NextLines(base, log, n - 1);
    if InStep(r, log, base) {
      SameRest(s.lines, LineOf(log, n), LineOf(log, n - 1));
    }
  }

  lemma LastWell(s: State, log: seq<Event>, e: Event, n: uint32)
    requires LogOk(log) && Following(s, log) && e.no == s.next && n == s.next + 1 && e.data.GameOver?
    requires PrintsEarly(s, e) && s.next > 0
    ensures !TakeEvent(AsWritten, s, e).failed
  {
    DrainsOnce(TakeExpected(s, e));
    assert LaterOk(log[0].data, log[n].data);
  }

  lemma OneOfTwo<T>(x: seq<T>, y: seq<T>, z: seq<T>)
    requires x + z == y + z
    ensures x == y
  {
    assert |x| == |y|;
    assert x == (x + z)[..|x|] == (y + z)[..|x|] == y;
  }

  /** Two lines for the first of several events: its own and the next one. */
  lemma FirstAhead(s: State, log: seq<Event>, base: seq<Line>, e: Event, rest: seq<Event>, n: uint32, s1: State,
                   r: State)
    requires LogOk(log) && InStep(s, log, base) && e.no == s.next && n == s.next + 1 && LogLike(rest, n)
    requires Takes(s, e, n, s1) && PrintsEarly(s, e) && (e.data.NewGame? <==> e.no == 0)
    requires !e.data.GameOver? && rest != [] && r == TakeAll(AsWritten, s1, rest) && InStep(r, log, base)
    ensures Passes(log, e) && OneAhead(s1, log, base)
  {
    TakenCount(s1, rest, r);
    LinesCount(log, n - 1, n + 1);
    LinesCount(log, n + 1, r.next);
    FirstTwo(s, log, base, e, n, s1, r);
    OwnLine(s, log, base, e, n, s1);
    OwnPasses(log, e, s1);
  }

  lemma FirstTwo(s: State, log: seq<Event>, base: seq<Line>, e: Event, n: uint32, s1: State, r: State)
    requires LogOk(log) && InStep(s, log, base) && e.no == s.next && n == s.next + 1 && Takes(s, e, n, s1)
    requires PrintsEarly(s, e) && !e.data.GameOver? && InStep(r, log, base) && n < r.next && s1.lines <= r.lines
    requires r.players == s1.players && r.width == s1.width && r.height == s1.height
    requires Lines(log, n + 1) <= Lines(log, r.next) && |Lines(log, n + 1)| == |Lines(log, n - 1)| + 2
    ensures OneAhead(s1, log, base) && PlayersOf(s1, log)
  {
    SamePrefix(s1.lines, base + Lines(log, n + 1), r.lines);
  }

  lemma OwnLine(s: State, log: seq<Event>, base: seq<Line>, e: Event, n: uint32, s1: State)
    requires LogOk(log) && InStep(s, log, base) && n == s.next + 1 < |log| && Takes(s, e, n, s1) && n in s.future
    requires s1.players == log[0].data.players && s1.lines == base + Lines(log, n + 1)
    ensures Spoken(e.data, s1.players) == LineOf(log, n - 1)
  {
    assert Spoken(s.future[n].data, s1.players) == LineOf(log, n);
    assert s1.lines == s.lines + LineOf(log, n - 1) + LineOf(log, n) by {
      NextLines(base, log, n - 1);
      NextLines(base, log, n);
    }
    TwoLines(s.lines, Spoken(e.data, s1.players), LineOf(log, n - 1), LineOf(log, n), s1.lines);
  }

  lemma OwnPasses(log: seq<Event>, e: Event, s1: State)
    requires LogOk(log) && e.no < |log| && Spoken(e.data, s1.players) == LineOf(log, e.no) && PlayersOf(s1, log)
    requires e.data.NewGame? <==> e.no == 0
    requires if e.data.NewGame? then s1.players == e.data.players && s1.width == e.data.maxx && s1.height == e.data.maxy
             else ValidData(e.data, s1.players, s1.width, s1.height)
    ensures Passes(log, e)
  {
    assert e.data.NewGame? ==> e.data == log[0].data;
  }

  lemma TwoLines<T>(a: seq<T>, own: seq<T>, mine: seq<T>, next: seq<T>, all: seq<T>)
    requires all == a + own + next && all == a + mine + next
    ensures own == mine
  {
    Regroup(a, own, next);
    Regroup(a, mine, next);
    SameRest(a, own + next, mine + next);
    OneOfTwo(own, mine, next);
  }

  /** slice takes the client from s to r, its first event from s to s1, early times ahead. */
  predicate TakesFirst(s: State, slice: seq<Event>, n: uint32, s1: State, r: State, early: nat) {
    && slice != [] && n == s.next + 1 && LogLike(slice, s.next) && Takes(s, slice[0], n, s1)
    && r == TakeAll(AsWritten, s1, slice[1..])
    && early == (if PrintsEarly(s, slice[0]) then 1 else 0) + EarlyPrints(s1, slice[1..])
  }

  lemma TakingFirst(s: State, slice: seq<Event>, n: uint32, s1: State, r: State)
    requires !s.failed && KeysAbove(s) && slice != [] && LogLike(slice, s.next) && n == s.next + 1
    requires s1 == TakeEvent(AsWritten, s, slice[0]) && r == TakeAll(AsWritten, s, slice) && !r.failed
    ensures TakesFirst(s, slice, n, s1, r, EarlyPrints(s, slice))
  {
    TakeAllFirst(s, slice, s1);
    TakesExpected(s, slice[0], n, s1);
  }

  /** slice ends the old game, leaves the client in step and has one line printed early. */
  predicate EndsInStep(s: State, log: seq<Event>, base: seq<Line>, slice: seq<Event>, r: State)
    requires LogOk(log)
  {
    && InStep(s, log, base) && LogLike(slice, s.next) && EndsGame(slice) && EarlyPrints(s, slice) == 1
    && r == TakeAll(AsWritten, s, slice) && InStep(r, log, base)
    && s.next + |slice| <= |log| && !log[s.next + |slice| - 1].data.GameOver?
  }

  lemma NeededAlone(s: State, log: seq<Event>, base: seq<Line>, slice: seq<Event>, n: uint32, s1: State, r: State)
    requires LogOk(log) && EndsInStep(s, log, base, slice, r) && TakesFirst(s, slice, n, s1, r, 1) && |slice| == 1
    ensures MadeUp(s, log, slice)
  {
    LogLikeRest(slice, s.next);
    LastEarly(s, log, base, slice[0], n, r);
    assert s.future[n] == log[n];
    assert EarlyAt(s, slice, n) && Shifted(log, slice, n, s.next);
  }

  lemma NeededEarly(s: State, slice: seq<Event>, n: uint32, s1: State, r: State)
    requires !r.failed && KeysAbove(s) && TakesFirst(s, slice, n, s1, r, 1) && |slice| > 1 && PrintsEarly(s, slice[0])
    ensures EarlyAt(s, slice, n)
  {
    LogLikeRest(slice, s.next);
    EarlyPrintsExactly(s1, n, slice[1..]);
    EarlyAtFirst(s, slice, n, s1);
  }

  lemma FirstMadeUp(s: State, log: seq<Event>, slice: seq<Event>, n: uint32)
    requires LogOk(log) && |slice| > 1 && n == s.next + 1 && Consecutive(slice, s.next) && EarlyAt(s, slice, n)
    requires Passes(log, slice[0]) && AllPassNext(log, slice[1..])
    requires n - 1 + |slice| <= |log| && !log[n - 2 + |slice|].data.GameOver?
    ensures MadeUp(s, log, slice)
  {
    ShiftedFirst(log, slice, n);
  }

  lemma NeededAhead(s: State, log: seq<Event>, base: seq<Line>, slice: seq<Event>, n: uint32, s1: State, r: State)
    requires LogOk(log) && EndsInStep(s, log, base, slice, r) && TakesFirst(s, slice, n, s1, r, 1) && |slice| > 1
    requires PrintsEarly(s, slice[0])
    ensures Passes(log, slice[0]) && AllPassNext(log, slice[1..])
  {
    LogLikeRest(slice, s.next);
    FirstAhead(s, log, base, slice[0], slice[1..], n, s1, r);
    RestNeeds(s1, log, base, slice[1..], r);
  }

  lemma NeededNow(s: State, log: seq<Event>, base: seq<Line>, slice: seq<Event>, n: uint32, s1: State, r: State)
    requires LogOk(log) && EndsInStep(s, log, base, slice, r) && TakesFirst(s, slice, n, s1, r, 1) && |slice| > 1
    requires PrintsEarly(s, slice[0])
    ensures MadeUp(s, log, slice)
  {
    NeededEarly(s, slice, n, s1, r);
    NeededAhead(s, log, base, slice, n, s1, r);
    FirstMadeUp(s, log, slice, n);
  }

  lemma LaterEnds(s: State, log: seq<Event>, base: seq<Line>, slice: seq<Event>, n: uint32, s1: State, r: State)
    requires LogOk(log) && EndsInStep(s, log, base, slice, r) && TakesFirst(s, slice, n, s1, r, 1) && |slice| > 1
    requires !PrintsEarly(s, slice[0])
    ensures Passes(log, slice[0]) && EndsInStep(s1, log, base, slice[1..], r)
  {
    LogLikeRest(slice, s.next);
    FirstPasses(s, log, base, slice[0], slice[1..], n, s1, r);
  }

  lemma NeededLater(s: State, log: seq<Event>, slice: seq<Event>, n: uint32, s1: State, r: State)
    requires LogOk(log) && KeysAbove(s) && !s.failed && TakesFirst(s, slice, n, s1, r, 1) && |slice| > 1
    requires !PrintsEarly(s, slice[0]) && Passes(log, slice[0]) && MadeUp(s1, log, slice[1..])
    ensures MadeUp(s, log, slice)
  {
    LogLikeRest(slice, s.next);
    var k :| EarlyAt(s1, slice[1..], k) && Shifted(log, slice[1..], k, n);
    EarlyAtRest(s, slice, n, s1, k);
    ShiftedRest(log, slice, k, n);
  }

  /** The events of an old game that ends with them, if the client ends in step although a line was printed early. */
  lemma {:induction false} MadeUpNeeded(s: State, log: seq<Event>, base: seq<Line>, slice: seq<Event>, r: State)
    requires LogOk(log) && EndsInStep(s, log, base, slice, r)
    ensures MadeUp(s, log, slice)
    decreases |slice|
  {
    var n: uint32, s1 := s.next + 1, TakeEvent(AsWritten, s, slice[0]);
    TakingFirst(s, slice, n, s1, r);
    if |slice| == 1 {
      NeededAlone(s, log, base, slice, n, s1, r);
    } else if PrintsEarly(s, slice[0]) {
      NeededNow(s, log, base, slice, n, s1, r);
    } else {
      LaterEnds(s, log, base, slice, n, s1, r);
      MadeUpNeeded(s1, log, base, slice[1..], r);
      NeededLater(s, log, slice, n, s1, r);
    }
  }

  lemma FirstWell(s: State, log: seq<Event>, base: seq<Line>, e: Event, n: uint32)
    requires LogOk(log) && InStep(s, log, base) && e.no == s.next && n == s.next + 1
    requires Passes(log, e) && PrintsEarly(s, e)
    ensures !TakeEvent(AsWritten, s, e).failed
  {
    DrainsOnce(TakeExpected(s, e));
    assert s.future[n] == log[n] && LaterOk(log[0].data, log[n].data);
  }

  lemma PassedPlayers(s: State, log: seq<Event>, e: Event, n: uint32, s1: State)
    requires LogOk(log) && Following(s, log) && e.no == s.next && n == s.next + 1
    requires Passes(log, e) && Takes(s, e, n, s1)
    ensures PlayersOf(s1, log)
  {}

  /** The first of several events, of which the next line is printed too. */
  lemma FirstAheadTaken(s: State, log: seq<Event>, base: seq<Line>, e: Event, n: uint32, s1: State)
    requires LogOk(log) && InStep(s, log, base) && e.no == s.next && n == s.next + 1
    requires Passes(log, e) && PrintsEarly(s, e) && s1 == TakeEvent(AsWritten, s, e)
    ensures OneAhead(s1, log, base) && s1.next == n && s1.future == s.future - {n}
  {
    FirstWell(s, log, base, e, n);
    TakesExpected(s, e, n, s1);
    PassedPlayers(s, log, e, n, s1);
    assert s.future[n] == log[n];
    NextLines(base, log, n - 1);
    NextLines(base, log, n);
  }

  /** slice ends the old game and its one early line, of event k, is made up for. */
  predicate EndsMadeUp(s: State, log: seq<Event>, base: seq<Line>, slice: seq<Event>, k: uint32)
    requires LogOk(log)
  {
    && InStep(s, log, base) && LogLike(slice, s.next) && EndsGame(slice)
    && EarlyAt(s, slice, k) && Shifted(log, slice, k, s.next)
  }

  lemma SufficesAlone(s: State, log: seq<Event>, base: seq<Line>, slice: seq<Event>, n: uint32, k: uint32)
    requires LogOk(log) && EndsMadeUp(s, log, base, slice, k) && |slice| == 1 && n == s.next + 1
    ensures InStep(TakeEvent(AsWritten, s, slice[0]), log, base)
  {
    LogLikeRest(slice, s.next);
    assert k == n;
    var r := TakeEvent(AsWritten, s, slice[0]);
    LastWell(s, log, slice[0], n);
    TakesExpected(s, slice[0], n, r);
    LastEarly(s, log, base, slice[0], n, r);
  }

  lemma SufficesNow(s: State, log: seq<Event>, base: seq<Line>, slice: seq<Event>, n: uint32, s1: State, k: uint32)
    requires LogOk(log) && EndsMadeUp(s, log, base, slice, k) && |slice| > 1 && n == s.next + 1
    requires PrintsEarly(s, slice[0]) && s1 == TakeEvent(AsWritten, s, slice[0])
    ensures InStep(TakeAll(AsWritten, s1, slice[1..]), log, base)
  {
    LogLikeRest(slice, s.next);
    assert k == n;
    ShiftedFirst(log, slice, n);
    FirstAheadTaken(s, log, base, slice[0], n, s1);
    EarlyAtFirst(s, slice, n, s1);
    RestSuffices(s1, log, base, slice[1..]);
  }

  lemma SufficesLater(s: State, log: seq<Event>, base: seq<Line>, slice: seq<Event>, n: uint32, s1: State, k: uint32)
    requires LogOk(log) && EndsMadeUp(s, log, base, slice, k) && |slice| > 1 && n == s.next + 1
    requires !PrintsEarly(s, slice[0]) && s1 == TakeEvent(AsWritten, s, slice[0])
    ensures EndsMadeUp(s1, log, base, slice[1..], k)
  {
    LogLikeRest(slice, s.next);
    LaterK(s, slice, n, k);
    ShiftedRest(log, slice, k, n);
    PassesStep(s, log, base, slice[0], n);
    EarlyAtRest(s, slice, n, s1, k);
  }

  lemma {:induction false} MadeUpSuffices(s: State, log: seq<Event>, base: seq<Line>, slice: seq<Event>, k: uint32)
    requires LogOk(log) && EndsMadeUp(s, log, base, slice, k)
    ensures InStep(TakeAll(AsWritten, s, slice), log, base)
    decreases |slice|
  {
    var n: uint32, s1 := s.next + 1, TakeEvent(AsWritten, s, slice[0]);
    TakeAllFirst(s, slice, s1);
    if |slice| == 1 {
      SufficesAlone(s, log, base, slice, n, k);
    } else if PrintsEarly(s, slice[0]) {
      SufficesNow(s, log, base, slice, n, s1, k);
    } else {
      SufficesLater(s, log, base, slice, n, s1, k);
      MadeUpSuffices(s1, log, base, slice[1..], k);
    }
  }

  lemma LaterK(s: State, slice: seq<Event>, n: uint32, k: uint32)
    requires !s.failed && KeysAbove(s) && slice != [] && slice[0].no == s.next && n == s.next + 1
    requires !PrintsEarly(s, slice[0]) && EarlyAt(s, slice, k)
    ensures k > n && (n in s.future ==> s.future[n].data.GameOver?)
  {}

  lemma EarlyAtAhead(s: State, slice: seq<Event>, k: uint32)
    requires slice != [] && slice[0].no == s.next && EarlyAt(s, slice, k)
    ensures PrintsAhead(s, slice)
  {}

  lemma MadeUpExactly(s: State, log: seq<Event>, base: seq<Line>, slice: seq<Event>)
    requires LogOk(log) && InStep(s, log, base) && LogLike(slice, s.next) && EndsGame(slice) && PrintsAhead(s, slice)
    ensures InStep(TakeAll(AsWritten, s, slice), log, base) <==> MadeUp(s, log, slice)
  {
    var r := TakeAll(AsWritten, s, slice);
    if InStep(r, log, base) {
      EarlyPrintsExactly(s, s.next, slice);
      OneEarly(s, log, base, slice, r);
      MadeUpNeeded(s, log, base, slice, r);
    } else if k :| EarlyAt(s, slice, k) && Shifted(log, slice, k, s.next) {
      MadeUpSuffices(s, log, base, slice, k);
    }
  }

  /** Events before the expected one change nothing. */
  lemma ShiftedPast(log: seq<Event>, slice: seq<Event>, k: uint32, from: nat, next: uint32)
    requires LogOk(log) && |slice| > 1 && Consecutive(slice, from) && from < next < k
    ensures Shifted(log, slice, k, next) <==> Shifted(log, slice[1..], k, next)
  {
    var rest := slice[1..];
    ConsecutiveRest(slice, from);
    assert rest[0].no + |rest| == slice[0].no + |slice|;
    if Shifted(log, rest, k, next) {
      forall i | 0 <= i < |slice| - 1 && next <= slice[i].no < k ensures Passes(log, slice[i]) {
        assert slice[i] == rest[i - 1];
      }
      forall i | 0 <= i < |slice| - 1 && k <= slice[i].no ensures PassesNext(log, slice[i]) {
        assert slice[i] == rest[i - 1];
      }
    }
    if Shifted(log, slice, k, next) {
      forall i | 0 <= i < |rest| - 1 && next <= rest[i].no < k ensures Passes(log, rest[i]) {
        assert rest[i] == slice[i + 1];
      }
      forall i | 0 <= i < |rest| - 1 && k <= rest[i].no ensures PassesNext(log, rest[i]) {
        assert rest[i] == slice[i + 1];
      }
    }
  }

  lemma MadeUpPast(s: State, log: seq<Event>, from: nat, slice: seq<Event>)
    requires LogOk(log) && Consecutive(slice, from) && |slice| > 1 && from < s.next && KeysAbove(s)
    ensures MadeUp(s, log, slice) <==> MadeUp(s, log, slice[1..])
  {
    ConsecutiveRest(slice, from);
    assert slice[1..][0].no + |slice[1..]| == slice[0].no + |slice|;
    if k :| EarlyAt(s, slice, k) && Shifted(log, slice, k, s.next) {
      ShiftedPast(log, slice, k, from, s.next);
      assert EarlyAt(s, slice[1..], k);
    }
    if k :| EarlyAt(s, slice[1..], k) && Shifted(log, slice[1..], k, s.next) {
      ShiftedPast(log, slice, k, from, s.next);
      assert EarlyAt(s, slice, k);
    }
  }

  lemma AheadPast(s: State, from: nat, slice: seq<Event>)
    requires slice != [] && Consecutive(slice, from) && from < s.next && KeysAbove(s)
    ensures PrintsAhead(s, slice) <==> PrintsAhead(s, slice[1..])
  {
    ConsecutiveRest(slice, from);
    if |slice| > 1 {
      var hi := slice[0].no + |slice|;
      assert slice[1..][0].no + |slice[1..]| == hi;
      if k :| k in s.future && k <= hi && !s.future[k].data.GameOver? {
        assert PrintsAhead(s, slice) <==> s.next < hi;
        assert PrintsAhead(s, slice[1..]) <==> s.next < hi;
      }
    }
  }

  lemma BlendsPast(s: State, log: seq<Event>, from: nat, slice: seq<Event>)
    requires LogOk(log) && slice != [] && Consecutive(slice, from) && from < s.next
    ensures Blends(s, log, slice) <==> Blends(s, log, slice[1..])
  {
    ConsecutiveRest(slice, from);
    if Blends(s, log, slice[1..]) {
      forall i | 0 <= i < |slice| && slice[i].no >= s.next ensures Passes(log, slice[i]) {
        assert slice[i] == slice[1..][i - 1];
      }
    }
    if Blends(s, log, slice) {
      forall i | 0 <= i < |slice[1..]| && slice[1..][i].no >= s.next ensures Passes(log, slice[1..][i]) {
        assert slice[1..][i] == slice[i + 1];
      }
    }
  }

  /** What consecutive events of another game may be. */
  predicate Tolerates(s: State, log: seq<Event>, slice: seq<Event>)
    requires LogOk(log)
  {
    if !PrintsAhead(s, slice) then Blends(s, log, slice) else EndsGame(slice) && MadeUp(s, log, slice)
  }

  /** Consecutive events of another game, exactly. If they print nothing ahead, the client stays in step with its own
      game if and only if what it takes in does the same as its own game's events and what it keeps is its own game's.
      If they do, then if and only if they end the other game, and the one early line makes up for the one that
      GAME_OVER lacks. */
  lemma {:induction false} MisreadExactly(s: State, log: seq<Event>, base: seq<Line>, from: nat, slice: seq<Event>)
    requires LogOk(log) && InStep(s, log, base) && LogLike(slice, from)
    ensures InStep(TakeAll(AsWritten, s, slice), log, base) <==> Tolerates(s, log, slice)
    decreases |slice|
  {
    if slice == [] {
    } else if from > s.next {
      KeptExact(s, log, base, from, slice);
    } else if from == s.next {
      if PrintsAhead(s, slice) && EndsGame(slice) {
        MadeUpExactly(s, log, base, slice);
      } else {
        TakenExact(s, log, base, slice);
      }
    } else {
      TakesOther(s, slice[0]);
      TakeAllFirst(s, slice, s);
      LogLikeRest(slice, from);
      AheadPast(s, from, slice);
      BlendsPast(s, log, from, slice);
      MisreadExactly(s, log, base, from + 1, slice[1..]);
      if |slice| > 1 {
        MadeUpPast(s, log, from, slice);
      }
    }
  }
}
