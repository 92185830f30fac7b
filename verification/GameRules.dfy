/** The rules of one game as Server/Game.cpp plays it: who moves where is arbitrary, all else is determined. */
module GameRules {
  import opened Bytes
  import opened Wire
  import opened Datagrams
  import opened EventLogs
  import opened Variants

  // A worm that cannot be placed is reported eliminated but goes on playing. Repaired takes it out of the game.

  datatype Cell = Cell(x: uint32, y: uint32)

  datatype Worm = Worm(name: Name, alive: bool, at: Cell)

  datatype State = State(
    width: uint32,
    height: uint32,
    worms: seq<Worm>,
    eaten: set<Cell>,
    events: seq<Event>,
    alive: int,
    finished: bool)

  predicate OnBoard(s: State, c: Cell) {
    c.x < s.width && c.y < s.height
  }

  predicate Blocked(s: State, c: Cell) {
    !OnBoard(s, c) || c in s.eaten
  }

  /** A player's number in the events is a single byte. */
  function Number(i: nat): byte {
    i % 256
  }

  function NamesOf(worms: seq<Worm>): (names: seq<Name>)
    ensures |names| == |worms|
  {
    seq(|worms|, i requires 0 <= i < |worms| => worms[i].name)
  }

  // ---------- steps ----------

  /** generate_event: the event's number is the length of the log, narrowed to 32 bits. */
  function Append(events: seq<Event>, data: EventData): seq<Event> {
    events + [MakeEvent(|events| % WRAP, data)]
  }

  function Logged(s: State, data: EventData): State {
    s.(events := Append(s.events, data))
  }

  function At(s: State, i: nat, c: Cell): State
    requires i < |s.worms|
  {
    s.(worms := s.worms[i := s.worms[i].(at := c)])
  }

  function Ate(s: State, i: nat, c: Cell): State {
    Logged(s.(eaten := s.eaten + {c}), Pixel(Number(i), c.x, c.y))
  }

  function Dead(s: State, i: nat): State
    requires i < |s.worms|
  {
    s.(worms := s.worms[i := s.worms[i].(alive := false)], alive := s.alive - 1)
  }

  function Lost(s: State, i: nat): State
    requires i < |s.worms|
  {
    Logged(Dead(s, i), Eliminated(Number(i)))
  }

  function Place(v: Variant, s: State, i: nat, c: Cell): State
    requires i < |s.worms|
  {
    var s := At(s, i, c);
    if !Blocked(s, c) then Ate(s, i, c)
    else if v.AsWritten? then Logged(s, Eliminated(Number(i)))
    else Lost(s, i)
  }

  /** The cells are taken up in order, from player i on. */
  function PlaceFrom(v: Variant, s: State, i: nat, cells: seq<Cell>): State
    requires i <= |s.worms| == |cells|
    decreases |s.worms| - i
  {
    if i == |s.worms| then s else PlaceFrom(v, Place(v, s, i, cells[i]), i + 1, cells)
  }

  /** worms: the players of the new game, all alive, wherever they were before. */
  function Unopened(width: uint32, height: uint32, worms: seq<Worm>): State {
    State(width, height, worms, {}, [], |worms|, false)
  }

  function Opening(width: uint32, height: uint32, worms: seq<Worm>): State {
    Logged(Unopened(width, height, worms), NewGame(width, height, NamesOf(worms)))
  }

  function Begin(v: Variant, width: uint32, height: uint32, worms: seq<Worm>, cells: seq<Cell>): State
    requires |cells| == |worms|
  {
    PlaceFrom(v, Opening(width, height, worms), 0, cells)
  }

  /** One player's part of a round; to is where the movement ends. */
  function Turn(s: State, i: nat, to: Cell): State
    requires i < |s.worms|
  {
    if !s.worms[i].alive then s
    else
      var before := s.worms[i].at;
      var s := At(s, i, to);
      if before == to then s
      else if Blocked(s, to) then Judged(Lost(s, i))
      else Ate(s, i, to)
  }

  function Judged(s: State): State {
    if s.alive <= 1 then s.(finished := true) else s
  }

  /** The four ways a turn can go. */
  lemma TurnCases(s: State, i: nat, to: Cell, a: State)
    requires i < |s.worms| && a == At(s, i, to)
    ensures var t := Turn(s, i, to);
            if !s.worms[i].alive then t == s
            else if s.worms[i].at == to then t == a
            else if Blocked(a, to) then t == Judged(Lost(a, i))
            else t == Ate(a, i, to)
  {}

  function TurnsFrom(s: State, i: nat, to: seq<Cell>): State
    requires i <= |s.worms| == |to|
    decreases |s.worms| - i
  {
    if i == |s.worms| then s else TurnsFrom(Turn(s, i, to[i]), i + 1, to)
  }

  function Closed(s: State): State {
    if s.finished then Logged(s, GameOver) else s
  }

  function Round(s: State, to: seq<Cell>): State
    requires |s.worms| == |to|
  {
    Closed(TurnsFrom(s, 0, to))
  }

  // ---------- what holds of every game ----------

  function AliveCount(worms: seq<Worm>): nat {
    if worms == [] then 0 else (if worms[0].alive then 1 else 0) + AliveCount(worms[1..])
  }

  /** Numbers are log indices. */
  predicate Numbered(events: seq<Event>) {
    forall k :: 0 <= k < |events| ==> events[k] == MakeEvent(k % WRAP, events[k].data)
  }

  /** The first event is the only NEW_GAME, and every other one makes sense after it. */
  predicate Opened(events: seq<Event>, width: uint32, height: uint32, names: seq<Name>) {
    && events != []
    && events[0].data == NewGame(width, height, names)
    && forall k :: 0 < k < |events| ==> LaterOk(events[0].data, events[k].data)
  }

  predicate Paints(e: Event, c: Cell) {
    e.data.Pixel? && e.data.x == c.x && e.data.y == c.y
  }

  predicate Reported(events: seq<Event>, c: Cell) {
    exists k :: 0 <= k < |events| && Paints(events[k], c)
  }

  /** Every eaten cell was reported, every reported cell was eaten, and none was reported twice. */
  predicate Drawn(events: seq<Event>, eaten: set<Cell>) {
    && (forall c <- eaten :: Reported(events, c))
    && (forall k :: 0 <= k < |events| && events[k].data.Pixel? ==> Cell(events[k].data.x, events[k].data.y) in eaten)
    && (forall j, k :: 0 <= j < k < |events| && events[j].data.Pixel? && events[k].data.Pixel? ==>
          events[j].data.x != events[k].data.x || events[j].data.y != events[k].data.y)
  }

  predicate Within(eaten: set<Cell>, width: uint32, height: uint32) {
    forall c <- eaten :: c.x < width && c.y < height
  }

  /** Whose event it is, if it is a player's. */
  function Whose(data: EventData): int {
    match data
    case Pixel(player, _, _) => player
    case Eliminated(player) => player
    case _ => -1
  }

  /** Event 1 + i says how player i was placed. */
  predicate Placed(events: seq<Event>, n: nat, placed: nat) {
    && placed <= n && 1 + placed <= |events| && (placed < n ==> |events| == 1 + placed)
    && (forall i :: 0 <= i < placed ==> Whose(events[1 + i].data) == Number(i))
  }

  /** An elimination in a round is the last word about a player, who then is not alive. */
  predicate LastWords(events: seq<Event>, worms: seq<Worm>) {
    && (forall k :: |worms| < k < |events| && events[k].data.Eliminated? ==>
          events[k].data.player < |worms| && !worms[events[k].data.player].alive)
    && (forall j, k :: |worms| < k < j < |events| && events[k].data.Eliminated? ==>
          Whose(events[j].data) != events[k].data.player)
  }

  predicate NotOver(events: seq<Event>) {
    forall k :: 0 <= k < |events| ==> !events[k].data.GameOver?
  }

  predicate Sound(s: State, placed: nat) {
    && Numbered(s.events) && NotOver(s.events)
    && Opened(s.events, s.width, s.height, NamesOf(s.worms))
    && Drawn(s.events, s.eaten) && Within(s.eaten, s.width, s.height)
    && s.alive == AliveCount(s.worms)
    && Placed(s.events, |s.worms|, placed)
    // each event after the first took a cell, placed a player, or took a life
    && |s.events| <= 1 + |s.eaten| + placed + (|s.worms| - s.alive)
    && (|s.worms| <= 256 ==> LastWords(s.events, s.worms))
  }

  /** Before the end of a round. */
  predicate Playing(s: State) {
    Sound(s, |s.worms|) && (s.finished ==> s.alive <= 1)
  }

  /** Between rounds: GAME_OVER was logged once, as the last event, exactly if the game is finished. */
  predicate Between(s: State) {
    if s.finished then s.events != [] && Playing(Reopened(s)) && s.events == Append(Reopened(s).events, GameOver)
    else Playing(s)
  }

  /** Without the last event. */
  function Reopened(s: State): State
    requires s.events != []
  {
    s.(events := s.events[..|s.events| - 1])
  }

  // ---------- logging keeps ----------

  lemma {:induction false} AliveCountUpdate(worms: seq<Worm>, i: nat, w: Worm)
    requires i < |worms|
    ensures AliveCount(worms[i := w])
            == AliveCount(worms) - (if worms[i].alive then 1 else 0) + (if w.alive then 1 else 0)
    decreases |worms|
  {
    if i == 0 {
      assert worms[i := w][1..] == worms[1..];
    } else {
      assert worms[i := w][1..] == worms[1..][i - 1 := w];
      AliveCountUpdate(worms[1..], i - 1, w);
    }
  }

  lemma SameNames(worms: seq<Worm>, i: nat, w: Worm)
    requires i < |worms| && w.name == worms[i].name
    ensures NamesOf(worms[i := w]) == NamesOf(worms)
  {}

  lemma LastWordsUpdate(events: seq<Event>, worms: seq<Worm>, i: nat, w: Worm)
    requires LastWords(events, worms) && i < |worms| && (w.alive ==> worms[i].alive)
    ensures LastWords(events, worms[i := w])
  {}

  lemma AtKeeps(s: State, i: nat, c: Cell, placed: nat)
    requires i < |s.worms| && Sound(s, placed)
    ensures Sound(At(s, i, c), placed)
  {
    var w := s.worms[i].(at := c);
    AliveCountUpdate(s.worms, i, w);
    SameNames(s.worms, i, w);
    if |s.worms| <= 256 {
      LastWordsUpdate(s.events, s.worms, i, w);
    }
  }

  lemma ReportedAppend(events: seq<Event>, data: EventData, c: Cell)
    requires Reported(events, c)
    ensures Reported(Append(events, data), c)
  {
    var k :| 0 <= k < |events| && Paints(events[k], c);
    assert Paints(Append(events, data)[k], c);
  }

  lemma DrawnAte(events: seq<Event>, eaten: set<Cell>, i: nat, c: Cell)
    requires Drawn(events, eaten) && c !in eaten
    ensures Drawn(Append(events, Pixel(Number(i), c.x, c.y)), eaten + {c})
  {
    var data := EventData.Pixel(Number(i), c.x, c.y);
    var t := Append(events, data);
    assert Paints(t[|events|], c);
    forall d <- eaten ensures Reported(t, d) {
      ReportedAppend(events, data, d);
    }
  }

  lemma DrawnAppend(events: seq<Event>, eaten: set<Cell>, data: EventData)
    requires Drawn(events, eaten) && !data.Pixel?
    ensures Drawn(Append(events, data), eaten)
  {
    forall d <- eaten ensures Reported(Append(events, data), d) {
      ReportedAppend(events, data, d);
    }
  }

  lemma OpenedAppend(events: seq<Event>, width: uint32, height: uint32, names: seq<Name>, data: EventData)
    requires Opened(events, width, height, names) && LaterOk(events[0].data, data)
    ensures Opened(Append(events, data), width, height, names)
  {
    var t := Append(events, data);
    forall k | 0 < k < |t| ensures LaterOk(t[0].data, t[k].data) {
      if k < |events| {
        assert t[k] == events[k];
      }
    }
  }

  lemma PlacedAppend(events: seq<Event>, n: nat, placed: nat, data: EventData)
    requires Placed(events, n, placed)
    ensures placed < n && Whose(data) == Number(placed) ==> Placed(Append(events, data), n, placed + 1)
    ensures placed == n ==> Placed(Append(events, data), n, placed)
  {}

  /** Only the living are spoken of, and only the dead are declared dead. */
  lemma LastWordsAppend(events: seq<Event>, worms: seq<Worm>, data: EventData, now: seq<Worm>)
    requires LastWords(events, worms) && |now| == |worms|
    requires forall i :: 0 <= i < |worms| && now[i].alive ==> worms[i].alive
    requires |events| > |worms| ==>
               var p := Whose(data);
               && (0 <= p < |worms| ==> worms[p].alive)
               && (data.Eliminated? ==> p < |worms| && !now[p].alive)
    ensures LastWords(Append(events, data), now)
  {}

  lemma NumberedAppend(events: seq<Event>, data: EventData)
    ensures Numbered(events) ==> Numbered(Append(events, data))
    ensures NotOver(events) && !data.GameOver? ==> NotOver(Append(events, data))
  {}

  // ---------- one step keeps ----------

  function Next(s: State, placed: nat): nat {
    if placed < |s.worms| then placed + 1 else placed
  }

  /** Player i is the one to be placed, or all are placed and i is alive. */
  predicate Moves(s: State, i: nat, placed: nat) {
    i < |s.worms| && s.worms[i].alive && (placed < |s.worms| ==> i == placed)
  }

  lemma NumberFits(i: nat, n: nat)
    requires i < n
    ensures Number(i) < n && (n <= 256 ==> Number(i) == i)
  {}

  lemma AteKeeps(s: State, i: nat, c: Cell, placed: nat)
    requires Sound(s, placed) && Moves(s, i, placed) && !Blocked(s, c)
    ensures Sound(Ate(s, i, c), Next(s, placed))
  {
    var data := EventData.Pixel(Number(i), c.x, c.y);
    NumberFits(i, |s.worms|);
    NumberedAppend(s.events, data);
    DrawnAte(s.events, s.eaten, i, c);
    OpenedAppend(s.events, s.width, s.height, NamesOf(s.worms), data);
    PlacedAppend(s.events, |s.worms|, placed, data);
    if |s.worms| <= 256 {
      LastWordsAppend(s.events, s.worms, data, s.worms);
    }
  }

  lemma LostKeeps(s: State, i: nat, placed: nat)
    requires Sound(s, placed) && Moves(s, i, placed)
    ensures Sound(Lost(s, i), Next(s, placed))
  {
    var data := EventData.Eliminated(Number(i));
    NumberFits(i, |s.worms|);
    var w := s.worms[i].(alive := false);
    var now := s.worms[i := w];
    AliveCountUpdate(s.worms, i, w);
    SameNames(s.worms, i, w);
    NumberedAppend(s.events, data);
    DrawnAppend(s.events, s.eaten, data);
    OpenedAppend(s.events, s.width, s.height, NamesOf(now), data);
    PlacedAppend(s.events, |s.worms|, placed, data);
    if |s.worms| <= 256 {
      LastWordsAppend(s.events, s.worms, data, now);
    }
  }

  lemma MisplacedKeeps(s: State, i: nat, placed: nat)
    requires Sound(s, placed) && Moves(s, i, placed) && placed < |s.worms|
    ensures Sound(Logged(s, Eliminated(Number(i))), placed + 1)
  {
    var data := EventData.Eliminated(Number(i));
    NumberFits(i, |s.worms|);
    NumberedAppend(s.events, data);
    DrawnAppend(s.events, s.eaten, data);
    OpenedAppend(s.events, s.width, s.height, NamesOf(s.worms), data);
    PlacedAppend(s.events, |s.worms|, placed, data);
    if |s.worms| <= 256 {
      LastWordsAppend(s.events, s.worms, data, s.worms);
    }
  }

  // ---------- the opening ----------

  lemma {:induction false} AllAlive(worms: seq<Worm>)
    requires forall i :: 0 <= i < |worms| ==> worms[i].alive
    ensures AliveCount(worms) == |worms|
  {
    if worms != [] {
      AllAlive(worms[1..]);
    }
  }

  predicate Newcomers(worms: seq<Worm>) {
    forall i :: 0 <= i < |worms| ==> worms[i].alive
  }

  lemma OpeningSound(width: uint32, height: uint32, worms: seq<Worm>)
    requires Newcomers(worms)
    ensures Placing(Opening(width, height, worms), 0)
  {
    AllAlive(worms);
  }

  /** The players before i have been placed, the others are to be. */
  predicate Placing(s: State, i: nat) {
    i <= |s.worms| && Sound(s, i) && !s.finished && forall j :: i <= j < |s.worms| ==> s.worms[j].alive
  }

  lemma PlaceKeeps(v: Variant, s: State, i: nat, c: Cell)
    requires i < |s.worms| && Placing(s, i)
    ensures Placing(Place(v, s, i, c), i + 1) && (v.AsWritten? ==> Place(v, s, i, c).alive == s.alive)
  {
    var a := At(s, i, c);
    AtKeeps(s, i, c, i);
    if !Blocked(a, c) {
      AteKeeps(a, i, c, i);
    } else if v.AsWritten? {
      MisplacedKeeps(a, i, i);
    } else {
      LostKeeps(a, i, i);
    }
  }

  lemma {:induction false} PlaceFromKeeps(v: Variant, s: State, i: nat, cells: seq<Cell>)
    requires i <= |s.worms| == |cells| && Placing(s, i)
    ensures var t := PlaceFrom(v, s, i, cells); Placing(t, |s.worms|) && (v.AsWritten? ==> t.alive == s.alive)
    decreases |s.worms| - i
  {
    if i < |s.worms| {
      PlaceKeeps(v, s, i, cells[i]);
      PlaceFromKeeps(v, Place(v, s, i, cells[i]), i + 1, cells);
    }
  }

  lemma BeginPlays(v: Variant, width: uint32, height: uint32, worms: seq<Worm>, cells: seq<Cell>)
    requires |cells| == |worms| && Newcomers(worms)
    ensures var t := Begin(v, width, height, worms, cells);
            && Playing(t) && !t.finished && (v.AsWritten? ==> t.alive == |worms|)
            && t.width == width && t.height == height && |t.worms| == |worms|
  {
    OpeningSound(width, height, worms);
    PlaceFromKeeps(v, Opening(width, height, worms), 0, cells);
    PlaceSizes(v, Opening(width, height, worms), 0, cells);
  }

  // ---------- rounds ----------

  /** Unless the game is finished, at least two are in it. */
  predicate Lively(s: State) {
    s.finished || s.alive >= 2
  }

  lemma TurnKeeps(s: State, i: nat, to: Cell)
    requires Playing(s) && i < |s.worms|
    ensures Playing(Turn(s, i, to)) && |Turn(s, i, to).worms| == |s.worms|
    ensures Lively(s) ==> Lively(Turn(s, i, to))
  {
    if s.worms[i].alive {
      var a := At(s, i, to);
      AtKeeps(s, i, to, |s.worms|);
      if s.worms[i].at == to {
      } else if Blocked(a, to) {
        LostKeeps(a, i, |s.worms|);
      } else {
        AteKeeps(a, i, to, |s.worms|);
      }
    }
  }

  lemma {:induction false} TurnsKeep(s: State, i: nat, to: seq<Cell>)
    requires Playing(s) && i <= |s.worms| == |to|
    ensures var t := TurnsFrom(s, i, to); Playing(t) && |t.worms| == |s.worms| && (Lively(s) ==> Lively(t))
    decreases |s.worms| - i
  {
    if i < |s.worms| {
      TurnKeeps(s, i, to[i]);
      TurnsKeep(Turn(s, i, to[i]), i + 1, to);
    }
  }

  lemma ClosedBetween(s: State)
    requires Playing(s)
    ensures Between(Closed(s))
  {
    if s.finished {
      assert Closed(s).events[..|s.events|] == s.events;
      assert Reopened(Closed(s)) == s;
    }
  }

  lemma RoundKeeps(s: State, to: seq<Cell>)
    requires Between(s) && !s.finished && |to| == |s.worms|
    ensures Between(Round(s, to)) && |Round(s, to).worms| == |s.worms| && (Lively(s) ==> Lively(Round(s, to)))
  {
    TurnsKeep(s, 0, to);
    ClosedBetween(TurnsFrom(s, 0, to));
  }

  // ---------- whole games ----------

  predicate Movement(s: State, rounds: seq<seq<Cell>>) {
    forall r :: 0 <= r < |rounds| ==> |rounds[r]| == |s.worms|
  }

  /** Rounds are played until the game is finished. */
  function Play(s: State, rounds: seq<seq<Cell>>): State
    requires Movement(s, rounds) && Between(s)
    decreases |rounds|
  {
    if rounds == [] || s.finished then s
    else
      RoundKeeps(s, rounds[0]);
      Play(Round(s, rounds[0]), rounds[1..])
  }

  lemma {:induction false} PlayKeeps(s: State, rounds: seq<seq<Cell>>)
    requires Movement(s, rounds) && Between(s)
    ensures var t := Play(s, rounds);
            && Between(t) && |t.worms| == |s.worms| && t.width == s.width && t.height == s.height
            && (Lively(s) ==> Lively(t))
    decreases |rounds|
  {
    if rounds != [] && !s.finished {
      RoundKeeps(s, rounds[0]);
      RoundSizes(s, 0, rounds[0]);
      PlayKeeps(Round(s, rounds[0]), rounds[1..]);
    }
  }

  lemma {:induction false} RoundSizes(s: State, i: nat, to: seq<Cell>)
    requires i <= |s.worms| == |to|
    ensures var t := TurnsFrom(s, i, to);
            && t.width == s.width && t.height == s.height
            && |t.worms| == |s.worms| && s.events <= t.events
            && (forall j :: 0 <= j < |s.worms| && t.worms[j].alive ==> s.worms[j].alive)
    decreases |s.worms| - i
  {
    if i < |s.worms| {
      RoundSizes(Turn(s, i, to[i]), i + 1, to);
    }
  }

  // ---------- how long a log can be ----------

  lemma {:induction false} ColumnBound(cells: set<Cell>, x: uint32, height: nat)
    requires forall c <- cells :: c.x == x && c.y < height
    ensures |cells| <= height
    decreases height
  {
    if height == 0 {
      assert cells == {};
    } else {
      var low := set c <- cells | c.y < height - 1;
      ColumnBound(low, x, height - 1);
      assert cells <= low + (if height <= 0x1_0000_0000 then {Cell(x, height - 1)} else {});
      SubsetSize(cells, low + (if height <= 0x1_0000_0000 then {Cell(x, height - 1)} else {}));
    }
  }

  lemma {:induction false} SubsetSize<T>(a: set<T>, b: set<T>)
    requires a <= b
    ensures |a| <= |b|
    decreases a
  {
    if a != {} {
      var x :| x in a;
      SubsetSize(a - {x}, b - {x});
    }
  }

  lemma ColumnsApart(cells: set<Cell>, x: nat, left: set<Cell>, column: set<Cell>)
    requires forall c <- cells :: c.x <= x
    requires left == set c <- cells | c.x < x
    requires column == set c <- cells | c.x == x
    ensures |cells| == |left| + |column|
  {
    assert cells == left + column && left !! column;
  }

  lemma OneMoreColumn(width: nat, height: nat)
    ensures (width + 1) * height == width * height + height
  {}

  lemma {:induction false} GridBound(cells: set<Cell>, width: nat, height: nat)
    requires forall c <- cells :: c.x < width && c.y < height
    ensures |cells| <= width * height
    decreases width
  {
    if width == 0 {
      assert cells == {};
    } else {
      var x := width - 1;
      var left, column := set c <- cells | c.x < x, set c <- cells | c.x == x;
      ColumnsApart(cells, x, left, column);
      GridBound(left, x, height);
      if column != {} {
        var c :| c in column;
        ColumnBound(column, c.x, height);
      }
      OneMoreColumn(x, height);
    }
  }

  lemma PlayingBound(s: State)
    requires Playing(s)
    ensures |s.events| <= 1 + s.width * s.height + 2 * |s.worms|
  {
    GridBound(s.eaten, s.width, s.height);
  }

  /** Every game of at least two, over any rounds with any movement: the log is sound, at least two are alive
      until the game is finished, and however long it lasts the log is bounded. */
  lemma GamesAreSound(width: uint32, height: uint32, worms: seq<Worm>, cells: seq<Cell>, rounds: seq<seq<Cell>>)
    requires |worms| == |cells| >= 2 && Newcomers(worms)
    requires forall r :: 0 <= r < |rounds| ==> |rounds[r]| == |worms|
    ensures var s := Begin(AsWritten, width, height, worms, cells);
            && Between(s) && Movement(s, rounds)
            && var t := Play(s, rounds);
            && Between(t) && (if t.finished then t.alive <= 1 else t.alive >= 2)
            && |t.events| <= 2 + width * height + 2 * |worms|
  {
    BeginPlays(AsWritten, width, height, worms, cells);
    var s := Begin(AsWritten, width, height, worms, cells);
    PlayKeeps(s, rounds);
    var t := Play(s, rounds);
    if t.finished {
      PlayingBound(Reopened(t));
    } else {
      PlayingBound(t);
    }
  }

  lemma {:induction false} PlaceSizes(v: Variant, s: State, i: nat, cells: seq<Cell>)
    requires i <= |s.worms| == |cells|
    ensures var t := PlaceFrom(v, s, i, cells);
            t.width == s.width && t.height == s.height && |t.worms| == |s.worms| && s.events <= t.events
    decreases |s.worms| - i
  {
    if i < |s.worms| {
      PlaceSizes(v, Place(v, s, i, cells[i]), i + 1, cells);
    }
  }

  // ---------- the log as the clients need it ----------

  /** Names that one datagram can hold. */
  predicate Listable(names: seq<Name>) {
    Packable(MakeEvent(0, NewGame(0, 0, names)))
  }

  lemma SoundPackable(s: State, placed: nat)
    requires Sound(s, placed) && Listable(NamesOf(s.worms))
    ensures AllPackable(s.events)
  {
    forall k | 0 <= k < |s.events| ensures Packable(s.events[k]) {
      assert s.events[k] == MakeEvent(k % WRAP, s.events[k].data);
      if k > 0 {
        assert LaterOk(s.events[0].data, s.events[k].data);
      }
    }
  }

  /** Between rounds every event fits a datagram. */
  lemma BetweenPackable(s: State)
    requires Between(s) && Listable(NamesOf(s.worms))
    ensures AllPackable(s.events)
  {
    if s.finished {
      SoundPackable(Reopened(s), |s.worms|);
    } else {
      SoundPackable(s, |s.worms|);
    }
  }

  lemma SoundLog(s: State, placed: nat)
    requires Sound(s, placed) && |s.events| < WRAP
    ensures LogOk(s.events)
  {
    forall k | 0 <= k < |s.events| ensures s.events[k].no == k {
      assert s.events[k] == MakeEvent(k % WRAP, s.events[k].data);
    }
  }

  lemma BetweenLog(s: State)
    requires Between(s) && |s.events| < WRAP && Listable(NamesOf(s.worms))
    ensures GameLog(s.events)
  {
    BetweenPackable(s);
    if s.finished {
      SoundLog(Reopened(s), |s.worms|);
      LogClosed(Reopened(s).events);
    } else {
      SoundLog(s, |s.worms|);
    }
  }

  /** GAME_OVER ends a log. */
  lemma LogClosed(log: seq<Event>)
    requires LogOk(log) && NotOver(log) && |log| + 1 < WRAP
    ensures LogOk(Append(log, GameOver))
  {
    var t := Append(log, GameOver);
    forall k | 0 < k < |t| ensures LaterOk(t[0].data, t[k].data) {
      if k < |log| {
        assert t[k] == log[k];
      }
    }
  }

  lemma {:induction false} TurnsNames(s: State, i: nat, to: seq<Cell>)
    requires i <= |s.worms| == |to|
    ensures NamesOf(TurnsFrom(s, i, to).worms) == NamesOf(s.worms)
    decreases |s.worms| - i
  {
    if i < |s.worms| {
      assert NamesOf(Turn(s, i, to[i]).worms) == NamesOf(s.worms);
      TurnsNames(Turn(s, i, to[i]), i + 1, to);
    }
  }

  lemma {:induction false} PlacedNames(v: Variant, s: State, i: nat, cells: seq<Cell>)
    requires i <= |s.worms| == |cells|
    ensures NamesOf(PlaceFrom(v, s, i, cells).worms) == NamesOf(s.worms)
    decreases |s.worms| - i
  {
    if i < |s.worms| {
      assert NamesOf(Place(v, s, i, cells[i]).worms) == NamesOf(s.worms);
      PlacedNames(v, Place(v, s, i, cells[i]), i + 1, cells);
    }
  }

  /** A new game opens with a good log. */
  lemma BeginLog(v: Variant, width: uint32, height: uint32, worms: seq<Worm>, cells: seq<Cell>)
    requires |cells| == |worms| && Newcomers(worms) && Listable(NamesOf(worms))
    requires |Begin(v, width, height, worms, cells).events| < WRAP
    ensures GameLog(Begin(v, width, height, worms, cells).events)
    ensures NamesOf(Begin(v, width, height, worms, cells).worms) == NamesOf(worms)
  {
    BeginPlays(v, width, height, worms, cells);
    PlacedNames(v, Opening(width, height, worms), 0, cells);
    BetweenLog(Begin(v, width, height, worms, cells));
  }

  /** What the protocol asks of a server, and a game does: a round leaves a good log, and only adds to it. */
  lemma RoundsLog(s: State, to: seq<Cell>)
    requires Between(s) && !s.finished && |to| == |s.worms|
    requires Listable(NamesOf(s.worms)) && |Round(s, to).events| < WRAP
    ensures s.events <= Round(s, to).events && GameLog(Round(s, to).events)
    ensures Listable(NamesOf(Round(s, to).worms))
  {
    RoundKeeps(s, to);
    RoundSizes(s, 0, to);
    TurnsNames(s, 0, to);
    BetweenLog(Round(s, to));
  }

  // ---------- eliminated at placement ----------

  /** Nothing is said of a player after an elimination. */
  predicate Silent(events: seq<Event>) {
    forall j, k :: 0 <= j < k < |events| && events[j].data.Eliminated? ==>
      Whose(events[k].data) != events[j].data.player
  }

  predicate Misplaced(s: State, i: nat)
    requires i + 1 < |s.events|
  {
    s.events[i + 1].data.Eliminated?
  }

  /** Player i speaks up in this round although eliminated at placement. */
  predicate Returns(s: State, i: nat, to: Cell)
    requires i < |s.worms| < |s.events|
  {
    Misplaced(s, i) && s.worms[i].alive && to != s.worms[i].at
  }

  predicate Declared(events: seq<Event>, player: int) {
    exists j :: 0 <= j < |events| && events[j].data.Eliminated? && events[j].data.player == player
  }

  lemma SilentAppend(events: seq<Event>, data: EventData)
    ensures Silent(Append(events, data)) <==> Silent(events) && !Declared(events, Whose(data))
  {
    var t, n := Append(events, data), |events|;
    assert t[n].data == data;
    if Silent(t) {
      forall j | 0 <= j < n && events[j].data.Eliminated? ensures Whose(data) != events[j].data.player {
        assert t[j] == events[j];
      }
      forall j, k | 0 <= j < k < n && events[j].data.Eliminated?
        ensures Whose(events[k].data) != events[j].data.player
      {
        assert t[j] == events[j] && t[k] == events[k];
      }
    }
  }

  /** The living have been declared eliminated only if they were misplaced. */
  lemma DeclaredAtPlacement(s: State, i: nat, j: nat)
    requires Playing(s) && |s.worms| <= 256 && i < |s.worms| && s.worms[i].alive
    requires j < |s.events| && s.events[j].data.Eliminated? && s.events[j].data.player == i
    ensures j == i + 1 && Misplaced(s, i)
  {
    if 0 < j <= |s.worms| {
      assert Whose(s.events[1 + (j - 1)].data) == Number(j - 1);
    }
  }

  /** An event about the living player i follows an elimination of his if and only if he was misplaced. */
  lemma SpokenOf(s: State, i: nat)
    requires Playing(s) && i < |s.worms| <= 256 && s.worms[i].alive
    ensures Declared(s.events, i) <==> Misplaced(s, i)
  {
    if Misplaced(s, i) {
      assert Whose(s.events[1 + i].data) == Number(i);
    }
    forall j | 0 <= j < |s.events| && s.events[j].data.Eliminated? && s.events[j].data.player == i
      ensures Misplaced(s, i)
    {
      DeclaredAtPlacement(s, i, j);
    }
  }

  lemma TurnSays(s: State, i: nat, to: Cell) returns (data: EventData)
    requires i < |s.worms| && s.worms[i].alive && s.worms[i].at != to
    ensures Turn(s, i, to).events == Append(s.events, data) && Whose(data) == Number(i)
  {
    data := if Blocked(s, to) then EventData.Eliminated(Number(i)) else EventData.Pixel(Number(i), to.x, to.y);
  }

  lemma TurnSilentIf(s: State, i: nat, to: Cell)
    requires i < |s.worms| < |s.events| && i < 256
    requires s.worms[i].alive ==> (Declared(s.events, i) <==> Misplaced(s, i))
    ensures Silent(Turn(s, i, to).events) <==> Silent(s.events) && !Returns(s, i, to)
  {
    if s.worms[i].alive && s.worms[i].at != to {
      var data := TurnSays(s, i, to);
      SilentAppend(s.events, data);
    }
  }

  lemma TurnSilentExactly(s: State, i: nat, to: Cell)
    requires Playing(s) && i < |s.worms| <= 256
    ensures Silent(Turn(s, i, to).events) <==> Silent(s.events) && !Returns(s, i, to)
  {
    if s.worms[i].alive {
      SpokenOf(s, i);
    }
    TurnSilentIf(s, i, to);
  }

  lemma TurnElsewhere(s: State, i: nat, to: Cell, j: nat)
    requires Playing(s) && i < |s.worms| && j < |s.worms| && j != i
    ensures var t := Turn(s, i, to);
            && t.worms[j] == s.worms[j] && |t.worms| == |s.worms| <= |t.events| - 1
            && Misplaced(t, j) == Misplaced(s, j)
  {}

  lemma {:induction false} TurnsSilentExactly(s: State, i: nat, to: seq<Cell>)
    requires Playing(s) && i <= |s.worms| == |to| && |s.worms| <= 256
    ensures Silent(TurnsFrom(s, i, to).events) <==>
            Silent(s.events) && forall j :: i <= j < |s.worms| ==> !Returns(s, j, to[j])
    decreases |s.worms| - i
  {
    if i < |s.worms| {
      var t := Turn(s, i, to[i]);
      TurnKeeps(s, i, to[i]);
      TurnSilentExactly(s, i, to[i]);
      TurnsSilentExactly(t, i + 1, to);
      forall j | i < j < |s.worms| ensures Returns(t, j, to[j]) == Returns(s, j, to[j]) {
        TurnElsewhere(s, i, to[i], j);
      }
    }
  }

  /** A round says nothing of eliminated players if and only if nobody who was eliminated at placement and is still
      counted alive moves to another pixel in it. */
  lemma RoundSilentExactly(s: State, to: seq<Cell>)
    requires Between(s) && !s.finished && |to| == |s.worms| <= 256 && Silent(s.events)
    ensures Silent(Round(s, to).events) <==> forall i :: 0 <= i < |s.worms| ==> !Returns(s, i, to[i])
  {
    TurnsSilentExactly(s, 0, to);
    SilentAppend(TurnsFrom(s, 0, to).events, GameOver);
  }

  lemma TurnsStep(s: State, i: nat, to: seq<Cell>)
    requires i <= |s.worms| == |to|
    ensures TurnsFrom(s, i, to) == if i == |to| then s else TurnsFrom(Turn(s, i, to[i]), i + 1, to)
  {}

  lemma PlaceStep(v: Variant, s: State, i: nat, cells: seq<Cell>)
    requires i <= |s.worms| == |cells|
    ensures PlaceFrom(v, s, i, cells)
            == if i == |cells| then s else PlaceFrom(v, Place(v, s, i, cells[i]), i + 1, cells)
  {}

  /** Two worms drawn on the same cell: the second is reported eliminated, moves on, and eats. */
  lemma EliminatedWormEats(worms: seq<Worm>, s: State, t: State)
    requires worms == [Worm([97], true, Cell(0, 0)), Worm([98], true, Cell(0, 0))]
    requires s == Begin(AsWritten, 2, 2, worms, [Cell(0, 0), Cell(0, 0)]) && |s.worms| == 2
    requires t == Round(s, [Cell(0, 0), Cell(1, 0)])
    ensures |t.events| == 4 && t.events[2].data == Eliminated(1) && t.events[3].data == EventData.Pixel(1, 1, 0)
    ensures !Silent(t.events)
  {
    var o := Opening(2, 2, worms);
    var a := Place(AsWritten, o, 0, Cell(0, 0));
    var cells := [Cell(0, 0), Cell(0, 0)];
    PlaceStep(AsWritten, o, 0, cells);
    PlaceStep(AsWritten, a, 1, cells);
    PlaceStep(AsWritten, s, 2, cells);
    assert a.eaten == {Cell(0, 0)} && |a.events| == 2;
    assert s.eaten == {Cell(0, 0)} && s.events == Append(a.events, Eliminated(1));
    assert s.worms == worms;
    var to := [Cell(0, 0), Cell(1, 0)];
    assert At(s, 0, to[0]).worms == s.worms;
    assert Turn(s, 0, to[0]) == s;
    assert !Blocked(At(s, 1, to[1]), to[1]) && !s.finished;
    var u := Turn(s, 1, to[1]);
    assert u.events == Append(s.events, EventData.Pixel(1, 1, 0)) && !u.finished;
    TurnsStep(s, 0, to);
    TurnsStep(s, 1, to);
    TurnsStep(u, 2, to);
    assert t.events[2].data.Eliminated? && Whose(t.events[3].data) == t.events[2].data.player;
  }

  /** Whoever of the first placed players was misplaced is dead. */
  predicate Buried(s: State, placed: nat)
    requires placed <= |s.worms| && placed < |s.events|
  {
    forall i :: 0 <= i < placed && Misplaced(s, i) ==> !s.worms[i].alive
  }

  lemma NewcomerUndeclared(s: State, i: nat)
    requires Placing(s, i) && i < |s.worms| <= 256
    ensures !Declared(s.events, i)
  {
    forall j | 0 <= j < |s.events| && s.events[j].data.Eliminated? ensures s.events[j].data.player != i {
      if j > 0 {
        assert Whose(s.events[1 + (j - 1)].data) == Number(j - 1);
      }
    }
  }

  lemma PlaceSays(v: Variant, s: State, i: nat, c: Cell) returns (data: EventData)
    requires i < |s.worms|
    ensures Place(v, s, i, c).events == Append(s.events, data) && Whose(data) == Number(i)
    ensures v.Repaired? && data.Eliminated? ==> !Place(v, s, i, c).worms[i].alive
    ensures forall j :: 0 <= j < |s.worms| && j != i ==> Place(v, s, i, c).worms[j] == s.worms[j]
  {
    data := if Blocked(s, c) then EventData.Eliminated(Number(i)) else EventData.Pixel(Number(i), c.x, c.y);
  }

  lemma BuriedAppend(s: State, i: nat, t: State, data: EventData)
    requires i < |s.worms| == |t.worms| && i + 1 == |s.events| && Buried(s, i)
    requires t.events == Append(s.events, data) && (data.Eliminated? ==> !t.worms[i].alive)
    requires forall j :: 0 <= j < |s.worms| && j != i ==> t.worms[j] == s.worms[j]
    ensures Buried(t, i + 1)
  {
    assert forall j :: 0 <= j < i ==> Misplaced(t, j) == Misplaced(s, j);
  }

  lemma RepairedPlaceSilent(s: State, i: nat, c: Cell)
    requires i < |s.worms| <= 256 && i + 1 == |s.events|
    requires Silent(s.events) && Buried(s, i) && !Declared(s.events, i)
    ensures var t := Place(Repaired, s, i, c);
            |t.worms| == |s.worms| && |t.events| == i + 2 && Silent(t.events) && Buried(t, i + 1)
  {
    var data := PlaceSays(Repaired, s, i, c);
    SilentAppend(s.events, data);
    BuriedAppend(s, i, Place(Repaired, s, i, c), data);
  }

  lemma {:induction false} RepairedPlacing(s: State, i: nat, cells: seq<Cell>)
    requires Placing(s, i) && |s.worms| == |cells| <= 256 && Silent(s.events) && Buried(s, i)
    ensures var t := PlaceFrom(Repaired, s, i, cells);
            |t.worms| == |s.worms| < |t.events| && Silent(t.events) && Buried(t, |s.worms|)
    decreases |s.worms| - i
  {
    if i < |s.worms| {
      NewcomerUndeclared(s, i);
      RepairedPlaceSilent(s, i, cells[i]);
      PlaceKeeps(Repaired, s, i, cells[i]);
      RepairedPlacing(Place(Repaired, s, i, cells[i]), i + 1, cells);
    }
  }

  lemma RoundBuries(s: State, to: seq<Cell>)
    requires |s.worms| == |to| && |s.worms| < |s.events| && Buried(s, |s.worms|)
    ensures var t := Round(s, to); |t.worms| == |s.worms| < |t.events| && Buried(t, |s.worms|)
  {
    RoundSizes(s, 0, to);
    var t := Round(s, to);
    assert forall j :: 0 <= j < |s.worms| ==> Misplaced(t, j) == Misplaced(s, j);
  }

  lemma {:induction false} BuriedStaySilent(s: State, rounds: seq<seq<Cell>>)
    requires Movement(s, rounds) && Between(s) && |s.worms| <= 256
    requires |s.worms| < |s.events| && Silent(s.events) && Buried(s, |s.worms|)
    ensures Silent(Play(s, rounds).events)
    decreases |rounds|
  {
    if rounds != [] && !s.finished {
      RoundKeeps(s, rounds[0]);
      RoundSilentExactly(s, rounds[0]);
      RoundBuries(s, rounds[0]);
      BuriedStaySilent(Round(s, rounds[0]), rounds[1..]);
    }
  }

  /** With the placement repaired, nothing is ever said of a player after his elimination. */
  lemma RepairedGamesSilent(width: uint32, height: uint32, worms: seq<Worm>, cells: seq<Cell>, rounds: seq<seq<Cell>>)
    requires |worms| == |cells| <= 256 && Newcomers(worms)
    requires forall r :: 0 <= r < |rounds| ==> |rounds[r]| == |worms|
    ensures var s := Begin(Repaired, width, height, worms, cells);
            Between(s) && Movement(s, rounds) && Silent(Play(s, rounds).events)
  {
    OpeningSound(width, height, worms);
    BeginPlays(Repaired, width, height, worms, cells);
    RepairedPlacing(Opening(width, height, worms), 0, cells);
    BuriedStaySilent(Begin(Repaired, width, height, worms, cells), rounds);
  }
}
