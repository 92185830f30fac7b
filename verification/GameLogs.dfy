/** What a game logs, told from its log alone: which cells are free is read from NEW_GAME and the PIXELs logged so
    far. */
module GameLogs {
  import opened Bytes
  import opened Wire
  import opened EventLogs
  import opened GameRules
  import opened Variants

  /** On the board that NEW_GAME announced, and in no PIXEL yet. */
  predicate Free(events: seq<Event>, c: Cell) {
    && events != [] && events[0].data.NewGame? && c.x < events[0].data.maxx && c.y < events[0].data.maxy
    && forall k :: 0 <= k < |events| && events[k].data.Pixel? ==> events[k].data.x != c.x || events[k].data.y != c.y
  }

  /** What is logged about player i when his worm comes to c. */
  function Verdict(events: seq<Event>, i: nat, c: Cell): EventData {
    if Free(events, c) then EventData.Pixel(i % 256, c.x, c.y) else Eliminated(i % 256)
  }

  lemma FreeExactly(s: State, c: Cell, placed: nat)
    requires Sound(s, placed)
    ensures Free(s.events, c) <==> !Blocked(s, c)
  {
    if c in s.eaten {
      assert Reported(s.events, c);
      var k :| 0 <= k < |s.events| && Paints(s.events[k], c);
      assert s.events[k].data.Pixel?;
    }
  }

  // ---------- one worm ----------

  /** One more event, with that data. */
  predicate Adds(before: seq<Event>, after: seq<Event>, data: EventData) {
    after == before + [MakeEvent(|before| % WRAP, data)]
  }

  /** A living worm that comes to another pixel is logged there if the pixel is free, and is eliminated otherwise;
      any other logs nothing. */
  lemma TurnLogs(s: State, i: nat, to: Cell)
    requires Playing(s) && i < |s.worms|
    ensures var t, w := Turn(s, i, to), s.worms[i];
            if w.alive && w.at != to then
              && Adds(s.events, t.events, Verdict(s.events, i, to))
              && t.worms == s.worms[i := Worm(w.name, Free(s.events, to), to)]
            else t.events == s.events && t.worms == s.worms
  {
    if s.worms[i].alive {
      var a := GameRules.At(s, i, to);
      AtKeeps(s, i, to, |s.worms|);
      FreeExactly(a, to, |s.worms|);
      TurnCases(s, i, to, a);
    }
  }

  /** A worm is placed on a free cell, or reported eliminated; the code lets it live in both cases. */
  lemma PlaceLogs(s: State, i: nat, c: Cell)
    requires Placing(s, i) && i < |s.worms|
    ensures var t, w := Place(AsWritten, s, i, c), s.worms[i];
            && Adds(s.events, t.events, Verdict(s.events, i, c))
            && t.worms == s.worms[i := Worm(w.name, true, c)]
  {
    AtKeeps(s, i, c, i);
    FreeExactly(GameRules.At(s, i, c), c, i);
  }

  // ---------- the opening ----------

  /** The worms from i on have been logged one by one. */
  predicate LoggedFrom(before: seq<Event>, after: seq<Event>, i: nat, cells: seq<Cell>) {
    && i <= |cells| && |after| == |before| + |cells| - i && before <= after
    && forall k :: i <= k < |cells| ==>
         var n := |before| + k - i;
         after[n].data == Verdict(after[..n], k, cells[k])
  }

  predicate SetDown(before: seq<Worm>, after: seq<Worm>, i: nat, cells: seq<Cell>) {
    && |cells| == |before| == |after|
    && forall k :: 0 <= k < |cells| ==>
         after[k] == if k < i then before[k] else Worm(before[k].name, true, cells[k])
  }

  lemma LoggedMore(s: seq<Event>, t: seq<Event>, u: seq<Event>, i: nat, cells: seq<Cell>)
    requires i < |cells| && LoggedFrom(t, u, i + 1, cells) && Adds(s, t, Verdict(s, i, cells[i]))
    ensures LoggedFrom(s, u, i, cells)
  {
    var n := |s|;
    assert u[..n + 1] == t;
    assert u[..n] == s && u[n] == t[n];
    forall k | i <= k < |cells| ensures u[n + k - i].data == Verdict(u[..n + k - i], k, cells[k]) {
      if k > i {
        assert |t| + k - (i + 1) == n + k - i;
      }
    }
  }

  predicate Laid(s: State, u: State, i: nat, cells: seq<Cell>) {
    LoggedFrom(s.events, u.events, i, cells) && SetDown(s.worms, u.worms, i, cells)
  }

  lemma LaidMore(s: State, t: State, u: State, i: nat, cells: seq<Cell>)
    requires i < |cells| == |s.worms| && Laid(t, u, i + 1, cells)
    requires Adds(s.events, t.events, Verdict(s.events, i, cells[i]))
    requires t.worms == s.worms[i := Worm(s.worms[i].name, true, cells[i])]
    ensures Laid(s, u, i, cells)
  {
    LoggedMore(s.events, t.events, u.events, i, cells);
  }

  lemma PlaceNext(s: State, i: nat, cells: seq<Cell>, t: State)
    requires Placing(s, i) && i < |cells| == |s.worms| && t == Place(AsWritten, s, i, cells[i])
    ensures Placing(t, i + 1) && |t.worms| == |s.worms|
    ensures PlaceFrom(AsWritten, s, i, cells) == PlaceFrom(AsWritten, t, i + 1, cells)
    ensures Adds(s.events, t.events, Verdict(s.events, i, cells[i]))
    ensures t.worms == s.worms[i := Worm(s.worms[i].name, true, cells[i])]
  {
    PlaceLogs(s, i, cells[i]);
    PlaceKeeps(AsWritten, s, i, cells[i]);
  }

  lemma {:induction false} PlacingLogs(s: State, i: nat, cells: seq<Cell>)
    requires Placing(s, i) && |cells| == |s.worms|
    ensures Laid(s, PlaceFrom(AsWritten, s, i, cells), i, cells)
    decreases |cells| - i
  {
    if i < |cells| {
      var t := Place(AsWritten, s, i, cells[i]);
      PlaceNext(s, i, cells, t);
      PlacingLogs(t, i + 1, cells);
      LaidMore(s, t, PlaceFrom(AsWritten, t, i + 1, cells), i, cells);
    }
  }

  /** A new game logs NEW_GAME with its board and names, and then for each player, in order, PIXEL with his number and
      cell if that cell is on the board and in no PIXEL before, and PLAYER_ELIMINATED otherwise. */
  lemma BeginLogs(width: uint32, height: uint32, worms: seq<Worm>, cells: seq<Cell>)
    requires |cells| == |worms| && Newcomers(worms)
    ensures var t := Begin(AsWritten, width, height, worms, cells);
            && |t.events| == 1 + |worms| == 1 + |t.worms|
            && t.events[0].data == NewGame(width, height, NamesOf(worms))
            && forall i :: 0 <= i < |worms| ==>
                 && t.events[1 + i].data == Verdict(t.events[..1 + i], i, cells[i])
                 && t.worms[i] == Worm(worms[i].name, true, cells[i])
  {
    var s := Opening(width, height, worms);
    OpeningSound(width, height, worms);
    PlacingLogs(s, 0, cells);
    var t := Begin(AsWritten, width, height, worms, cells);
    assert t.events[0] == s.events[0];
    forall i | 0 <= i < |worms| ensures t.events[1 + i].data == Verdict(t.events[..1 + i], i, cells[i]) {
      assert |s.events| + i - 0 == 1 + i;
    }
  }

  // ---------- a round ----------

  /** The living, from i on, who come to another pixel. */
  function Movers(worms: seq<Worm>, to: seq<Cell>, i: nat): seq<nat>
    requires i <= |worms| == |to|
    decreases |worms| - i
  {
    if i == |worms| then []
    else (if worms[i].alive && worms[i].at != to[i] then [i] else []) + Movers(worms, to, i + 1)
  }

  lemma {:induction false} MoversMatter(worms: seq<Worm>, others: seq<Worm>, to: seq<Cell>, i: nat)
    requires i <= |worms| == |others| == |to| && worms[i..] == others[i..]
    ensures Movers(worms, to, i) == Movers(others, to, i)
    ensures forall k :: 0 <= k < |Movers(worms, to, i)| ==> i <= Movers(worms, to, i)[k] < |worms|
    decreases |worms| - i
  {
    if i < |worms| {
      assert worms[i..][0] == worms[i] && others[i..][0] == others[i];
      assert worms[i..][1..] == worms[i + 1..] && others[i..][1..] == others[i + 1..];
      MoversMatter(worms, others, to, i + 1);
    }
  }

  /** Each of the movers has been logged, in their order. */
  predicate Moved(before: seq<Event>, after: seq<Event>, movers: seq<nat>, to: seq<Cell>) {
    && before <= after && |after| == |before| + |movers|
    && forall k :: 0 <= k < |movers| ==>
         movers[k] < |to|
         && after[|before| + k].data == Verdict(after[..|before| + k], movers[k], to[movers[k]])
  }

  lemma MovedMore(s: seq<Event>, t: seq<Event>, u: seq<Event>, i: nat, movers: seq<nat>, to: seq<Cell>)
    requires i < |to| && Adds(s, t, Verdict(s, i, to[i])) && Moved(t, u, movers, to)
    ensures Moved(s, u, [i] + movers, to)
  {
    assert u[..|s| + 1] == t;
    assert u[..|s|] == s && u[|s|] == t[|s|];
    forall k | 0 <= k < |movers| + 1
      ensures ([i] + movers)[k] < |to|
      ensures u[|s| + k].data == Verdict(u[..|s| + k], ([i] + movers)[k], to[([i] + movers)[k]])
    {
      if k > 0 {
        assert ([i] + movers)[k] == movers[k - 1] && |s| + k == |t| + (k - 1);
      }
    }
  }

  /** Whoever has been logged is where he moved, and lives exactly if that was a PIXEL; the others are as before. */
  predicate Fates(before: seq<Worm>, after: seq<Worm>, events: seq<Event>, n: nat, movers: seq<nat>, to: seq<Cell>) {
    && |before| == |after| == |to| && n + |movers| <= |events|
    && (forall k :: 0 <= k < |movers| ==>
          && movers[k] < |before|
          && after[movers[k]] == Worm(before[movers[k]].name, events[n + k].data.Pixel?, to[movers[k]]))
    && forall j :: 0 <= j < |before| && j !in movers ==> after[j] == before[j]
  }

  lemma FatesMore(s: seq<Worm>, t: seq<Worm>, u: seq<Worm>, events: seq<Event>, n: nat, i: nat, movers: seq<nat>,
                  to: seq<Cell>)
    requires i < |s| == |t| && Fates(t, u, events, n + 1, movers, to) && n < |events|
    requires t == s[i := Worm(s[i].name, events[n].data.Pixel?, to[i])]
    requires forall k :: 0 <= k < |movers| ==> movers[k] > i
    ensures Fates(s, u, events, n, [i] + movers, to)
  {
    assert i !in movers;
    forall k | 0 <= k < |movers| + 1
      ensures ([i] + movers)[k] < |s|
      ensures u[([i] + movers)[k]] == Worm(s[([i] + movers)[k]].name, events[n + k].data.Pixel?, to[([i] + movers)[k]])
    {
      if k > 0 {
        assert ([i] + movers)[k] == movers[k - 1] && n + 1 + (k - 1) == n + k;
      }
    }
    forall j | 0 <= j < |s| && j !in [i] + movers ensures u[j] == s[j] {
      assert j in [i] + movers <==> j == i || j in movers;
    }
  }

  /** Who moves in what is left of the round. */
  lemma MoversNext(worms: seq<Worm>, i: nat, w: Worm, to: seq<Cell>, rest: seq<nat>)
    requires i < |worms| == |to| && rest == Movers(worms[i := w], to, i + 1)
    ensures Movers(worms, to, i) == if worms[i].alive && worms[i].at != to[i] then [i] + rest else rest
    ensures forall k :: 0 <= k < |rest| ==> i < rest[k]
  {
    assert worms[i := w][i + 1..] == worms[i + 1..];
    MoversMatter(worms, worms[i := w], to, i + 1);
  }

  predicate Played(s: State, u: State, movers: seq<nat>, to: seq<Cell>) {
    Moved(s.events, u.events, movers, to) && Fates(s.worms, u.worms, u.events, |s.events|, movers, to)
  }

  lemma PlayedMore(s: State, t: State, u: State, i: nat, movers: seq<nat>, to: seq<Cell>)
    requires i < |s.worms| == |to| && Played(t, u, movers, to) && forall k :: 0 <= k < |movers| ==> movers[k] > i
    requires Adds(s.events, t.events, Verdict(s.events, i, to[i]))
    requires t.worms == s.worms[i := Worm(s.worms[i].name, Free(s.events, to[i]), to[i])]
    ensures Played(s, u, [i] + movers, to)
  {
    MovedMore(s.events, t.events, u.events, i, movers, to);
    assert u.events[|s.events|] == t.events[|s.events|];
    FatesMore(s.worms, t.worms, u.worms, u.events, |s.events|, i, movers, to);
  }

  lemma {:induction false} TurnsLog(s: State, i: nat, to: seq<Cell>)
    requires Playing(s) && i <= |s.worms| == |to|
    ensures Played(s, TurnsFrom(s, i, to), Movers(s.worms, to, i), to)
    decreases |to| - i
  {
    if i < |to| {
      var t := Turn(s, i, to[i]);
      TurnKeeps(s, i, to[i]);
      TurnLogs(s, i, to[i]);
      assert t.worms == s.worms[i := t.worms[i]];
      MoversNext(s.worms, i, t.worms[i], to, Movers(t.worms, to, i + 1));
      TurnsLog(t, i + 1, to);
      if s.worms[i].alive && s.worms[i].at != to[i] {
        PlayedMore(s, t, TurnsFrom(t, i + 1, to), i, Movers(t.worms, to, i + 1), to);
      }
    }
  }

  predicate TwoLive(worms: seq<Worm>) {
    exists i, j :: 0 <= i < j < |worms| && worms[i].alive && worms[j].alive
  }

  lemma {:induction false} OneLives(worms: seq<Worm>)
    ensures AliveCount(worms) >= 1 <==> exists i :: 0 <= i < |worms| && worms[i].alive
    decreases |worms|
  {
    if worms != [] {
      OneLives(worms[1..]);
      if AliveCount(worms[1..]) >= 1 {
        var i :| 0 <= i < |worms[1..]| && worms[1..][i].alive;
        assert worms[i + 1].alive;
      }
      forall i | 0 < i < |worms| && worms[i].alive ensures AliveCount(worms[1..]) >= 1 {
        assert worms[1..][i - 1].alive;
      }
    }
  }

  lemma {:induction false} TwoLiveExactly(worms: seq<Worm>)
    ensures AliveCount(worms) >= 2 <==> TwoLive(worms)
    decreases |worms|
  {
    if worms != [] {
      var rest := worms[1..];
      TwoLiveExactly(rest);
      OneLives(rest);
      if TwoLive(rest) {
        var i, j :| 0 <= i < j < |rest| && rest[i].alive && rest[j].alive;
        assert worms[i + 1].alive && worms[j + 1].alive;
      }
      if worms[0].alive && AliveCount(rest) >= 1 {
        var i :| 0 <= i < |rest| && rest[i].alive;
        assert worms[0].alive && worms[i + 1].alive;
      }
      forall i, j | 0 <= i < j < |worms| && worms[i].alive && worms[j].alive ensures AliveCount(worms) >= 2 {
        assert rest[j - 1].alive;
        assert i > 0 ==> rest[i - 1].alive;
      }
    }
  }

  /** A round logs, in the order of the players, one event for each living worm that comes to another pixel: PIXEL if
      that is on the board and in no PIXEL before, PLAYER_ELIMINATED otherwise. Whoever is eliminated is dead, all
      others live on; and if then no two are alive the game is finished and GAME_OVER is the last event. */
  lemma RoundLogs(s: State, to: seq<Cell>, movers: seq<nat>, n: nat)
    requires Between(s) && !s.finished && Lively(s) && |to| == |s.worms|
    requires movers == Movers(s.worms, to, 0) && n == |s.events| + |movers|
    ensures var t := Round(s, to);
            && n <= |t.events| && Moved(s.events, t.events[..n], movers, to)
            && Fates(s.worms, t.worms, t.events, |s.events|, movers, to)
            && (t.finished <==> !TwoLive(t.worms))
            && |t.events| == (if TwoLive(t.worms) then n else n + 1)
            && (!TwoLive(t.worms) ==> t.events[n].data == GameOver)
  {
    var u := TurnsFrom(s, 0, to);
    TurnsLog(s, 0, to);
    TurnsKeep(s, 0, to);
    TwoLiveExactly(u.worms);
    assert Round(s, to).events[..n] == u.events;
  }
}
