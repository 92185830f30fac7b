/** TCPReceiveBuffer of Common/Buffer.cpp: key lines recognised in a stream that arrives in arbitrary pieces. */
module TcpReceive {
  import opened Bytes
  import opened Wire
  import opened Text

  const TCP_BUFF_SIZE := 256
  const MAX_LINE_LEN := 15
  const MIN_LINE_LEN := 12

  function RightKeyDown(): seq<byte> {
    Ascii("RIGHT_KEY_DOWN\n")
  }

  function RightKeyUp(): seq<byte> {
    Ascii("RIGHT_KEY_UP\n")
  }

  function LeftKeyDown(): seq<byte> {
    Ascii("LEFT_KEY_DOWN\n")
  }

  function LeftKeyUp(): seq<byte> {
    Ascii("LEFT_KEY_UP\n")
  }

  // ---------- what a stream says, read line by line ----------

  /** What one line says, its newline included; most lines say nothing. */
  function Meaning(line: seq<byte>): seq<Direction> {
    if line == RightKeyDown() then [RIGHT]
    else if line == LeftKeyDown() then [LEFT]
    else if line == RightKeyUp() || line == LeftKeyUp() then [STRAIGHT]
    else []
  }

  function Directions(s: seq<byte>): seq<Direction>
    decreases |s|
  {
    var k := Newline(s);
    if k == |s| then [] else Meaning(s[..k + 1]) + Directions(s[k + 1..])
  }

  /** The stream after its first newline. */
  function AfterLine(s: seq<byte>): seq<byte> {
    if Newline(s) == |s| then [] else s[Newline(s) + 1..]
  }

  // ---------- what the buffer does ----------

  /** The bytes not yet looked at, and whether the line they continue was found too long. */
  datatype Scan = Scan(unread: seq<byte>, skipping: bool)

  function Start(): Scan {
    Scan([], false)
  }

  datatype Fetched = Fetched(direction: Option<Direction>, scan: Scan)

  /** Where skipping to the end of the line leads. */
  function Skipped(u: seq<byte>): (s: Scan)
    ensures u != [] ==> |s.unread| < |u|
  {
    if Newline(u) == |u| then Scan([], true) else Scan(u[Newline(u) + 1..], false)
  }

  /** The bytes searched for a newline. */
  function Window(u: seq<byte>): (w: seq<byte>)
    ensures |w| == Min(|u|, MAX_LINE_LEN) && w <= u
  {
    u[..Min(|u|, MAX_LINE_LEN)]
  }

  function Fetch(s: Scan): (f: Fetched)
    ensures |f.scan.unread| <= |s.unread|
    ensures f.direction.Some? ==> |f.scan.unread| < |s.unread|
    decreases |s.unread|, !s.skipping
  {
    if |s.unread| < MIN_LINE_LEN then Fetched(None, s)
    else if s.skipping then Fetch(Skipped(s.unread))
    else
      var window := Window(s.unread);
      var k := Newline(window);
      if k < |window| then
        var line, rest := s.unread[..k + 1], Scan(s.unread[k + 1..], false);
        if Meaning(line) != [] then Fetched(Some(Meaning(line)[0]), rest) else Fetch(rest)
      else if |s.unread| >= MAX_LINE_LEN then Fetch(s.(skipping := true))
      else Fetched(None, s)
  }

  datatype Drained = Drained(directions: seq<Direction>, scan: Scan)

  /** Fetching until nothing comes. */
  function Drain(s: Scan): Drained
    decreases |s.unread|
  {
    var f := Fetch(s);
    if f.direction.None? then Drained([], f.scan)
    else
      var rest := Drain(f.scan);
      Drained([f.direction.value] + rest.directions, rest.scan)
  }

  function Fill(s: Scan, chunk: seq<byte>): Scan {
    s.(unread := s.unread + chunk)
  }

  /** Reads deliver the chunks in turn, and the buffer is drained after each. */
  function Read(chunks: seq<seq<byte>>): Drained
    decreases |chunks|
  {
    if chunks == [] then Drained([], Start())
    else
      var n := |chunks| - 1;
      var before := Read(chunks[..n]);
      var now := Drain(Fill(before.scan, chunks[n]));
      Drained(before.directions + now.directions, now.scan)
  }

  function Joined(chunks: seq<seq<byte>>): seq<byte>
    decreases |chunks|
  {
    if chunks == [] then [] else Joined(chunks[..|chunks| - 1]) + chunks[|chunks| - 1]
  }

  // ---------- the two agree ----------

  /** What a scan still has to say, were its unread bytes all there is. */
  function Remaining(s: Scan): seq<Direction> {
    Directions(if s.skipping then AfterLine(s.unread) else s.unread)
  }

  lemma NewlineIs(s: seq<byte>, k: nat)
    requires k <= |s| && (k < |s| ==> s[k] == NEWLINE)
    requires forall i :: 0 <= i < k ==> s[i] != NEWLINE
    ensures Newline(s) == k
  {}

  /** More bytes behind a complete line do not change where it ends. */
  lemma LineStays(s: seq<byte>, more: seq<byte>, k: nat)
    requires k < |s| && s[k] == NEWLINE && forall i :: 0 <= i < k ==> s[i] != NEWLINE
    ensures Newline(s + more) == k && (s + more)[..k + 1] == s[..k + 1] && (s + more)[k + 1..] == s[k + 1..] + more
  {
    NewlineIs(s + more, k);
  }

  /** Bytes without a newline only lengthen the line they belong to. */
  lemma AfterNoNewline(s: seq<byte>, more: seq<byte>)
    requires forall i :: 0 <= i < |s| ==> s[i] != NEWLINE
    ensures AfterLine(s + more) == AfterLine(more)
  {
    NewlineIs(s + more, |s| + Newline(more));
  }

  lemma MeaningIsOne(line: seq<byte>)
    ensures Meaning(line) != [] ==> Meaning(line) == [Meaning(line)[0]] && MIN_LINE_LEN <= |line| <= MAX_LINE_LEN
  {}

  lemma FirstLine(s: seq<byte>, k: nat, line: seq<byte>, rest: seq<byte>)
    requires k == Newline(s) < |s| && line == s[..k + 1] && rest == s[k + 1..]
    ensures Directions(s) == Meaning(line) + Directions(rest) && AfterLine(s) == rest
  {}

  lemma NoLine(s: seq<byte>)
    requires Newline(s) == |s|
    ensures Directions(s) == [] && AfterLine(s) == [] && Directions([]) == []
  {}

  /** An over-long line says nothing, so skipping to its end loses nothing. */
  lemma LongLineSaysNothing(s: seq<byte>, k: nat)
    requires k == Newline(s) >= MAX_LINE_LEN
    ensures Directions(s) == Directions(AfterLine(s))
  {
    if k < |s| {
      MeaninglessFirst(s, k, s[..k + 1], s[k + 1..]);
    } else {
      NoLine(s);
    }
  }

  lemma MeaninglessFirst(s: seq<byte>, k: nat, line: seq<byte>, rest: seq<byte>)
    requires k == Newline(s) < |s| && k >= MAX_LINE_LEN && line == s[..k + 1] && rest == s[k + 1..]
    ensures Directions(s) == Directions(rest)
  {
    MeaningIsOne(line);
    FirstLine(s, k, line, rest);
    assert [] + Directions(rest) == Directions(rest);
  }

  lemma {:induction false} ShortSaysNothing(s: seq<byte>)
    requires |s| < MIN_LINE_LEN
    ensures Directions(s) == []
    decreases |s|
  {
    var k := Newline(s);
    if k < |s| {
      MeaningIsOne(s[..k + 1]);
      ShortSaysNothing(s[k + 1..]);
    }
  }

  lemma SkipExact(u: seq<byte>, more: seq<byte>)
    ensures Remaining(Scan(u + more, true)) == Remaining(Fill(Skipped(u), more))
  {
    var k := Newline(u);
    if k == |u| {
      AfterNoNewline(u, more);
      assert Fill(Skipped(u), more) == Scan(more, true) by {
        assert [] + more == more;
      }
    } else {
      LineStays(u, more, k);
      assert AfterLine(u + more) == u[k + 1..] + more;
    }
  }

  lemma LineExact(u: seq<byte>, more: seq<byte>, k: nat)
    requires k == Newline(u) < |u|
    ensures Remaining(Scan(u + more, false)) == Meaning(u[..k + 1]) + Remaining(Fill(Scan(u[k + 1..], false), more))
  {
    LineStays(u, more, k);
    FirstLine(u + more, k, u[..k + 1], u[k + 1..] + more);
  }

  lemma LongExact(u: seq<byte>, more: seq<byte>)
    requires |u| >= MAX_LINE_LEN && Newline(Window(u)) == MAX_LINE_LEN
    ensures Remaining(Scan(u + more, false)) == Remaining(Scan(u + more, true))
  {
    var s := u + more;
    assert s[..MAX_LINE_LEN] == Window(u);
    NewlineFar(s, MAX_LINE_LEN);
    LongLineSaysNothing(s, Newline(s));
  }

  lemma NewlineFar(s: seq<byte>, n: nat)
    requires n <= |s| && Newline(s[..n]) == n
    ensures Newline(s) >= n
  {
    assert forall i :: 0 <= i < n ==> s[i] == s[..n][i];
  }

  lemma WindowNewline(u: seq<byte>, w: seq<byte>, k: nat)
    requires w <= u && k == Newline(w) < |w|
    ensures Newline(u) == k
  {
    assert forall i :: 0 <= i < k ==> u[i] == w[i];
    NewlineIs(u, k);
  }

  function Asked(line: seq<byte>): Option<Direction> {
    if Meaning(line) != [] then Some(Meaning(line)[0]) else None
  }

  lemma FetchSkips(u: seq<byte>)
    requires |u| >= MIN_LINE_LEN
    ensures Fetch(Scan(u, true)) == Fetch(Skipped(u))
  {}

  lemma FetchLine(u: seq<byte>, k: nat)
    requires |u| >= MIN_LINE_LEN && k == Newline(Window(u)) < |Window(u)|
    ensures var d, rest := Asked(u[..k + 1]), Scan(u[k + 1..], false);
            Fetch(Scan(u, false)) == if d.Some? then Fetched(d, rest) else Fetch(rest)
  {}

  lemma FetchLong(u: seq<byte>)
    requires |u| >= MAX_LINE_LEN && Newline(Window(u)) == MAX_LINE_LEN
    ensures Fetch(Scan(u, false)) == Fetch(Scan(u, true))
  {}

  lemma FetchWaits(u: seq<byte>)
    requires |u| < MAX_LINE_LEN && Newline(Window(u)) == |Window(u)|
    ensures Fetch(Scan(u, false)) == Fetched(None, Scan(u, false))
  {}

  function Said(d: Option<Direction>): seq<Direction> {
    if d.Some? then [d.value] else []
  }

  /** The direction fetched is the next one that the stream says, whatever the stream goes on with. */
  predicate TakesNext(s: Scan, more: seq<byte>, f: Fetched) {
    Remaining(Fill(s, more)) == Said(f.direction) + Remaining(Fill(f.scan, more))
  }

  lemma LineTakesNext(u: seq<byte>, more: seq<byte>, k: nat, f: Fetched)
    requires k == Newline(u) < |u|
    requires var d, rest := Asked(u[..k + 1]), Scan(u[k + 1..], false);
             if d.Some? then f == Fetched(d, rest) else TakesNext(rest, more, f)
    ensures TakesNext(Scan(u, false), more, f)
  {
    LineExact(u, more, k);
    MeaningIsOne(u[..k + 1]);
  }

  lemma {:induction false} FetchExact(u: seq<byte>, skipping: bool, more: seq<byte>)
    ensures TakesNext(Scan(u, skipping), more, Fetch(Scan(u, skipping)))
    decreases |u|, !skipping
  {
    if |u| < MIN_LINE_LEN {
    } else if skipping {
      SkipExact(u, more);
      FetchSkips(u);
      FetchExact(Skipped(u).unread, Skipped(u).skipping, more);
    } else {
      var k := Newline(Window(u));
      if k < |Window(u)| {
        LineCase(u, more, k);
      } else if |u| >= MAX_LINE_LEN {
        LongExact(u, more);
        FetchLong(u);
        FetchExact(u, true, more);
      } else {
        FetchWaits(u);
      }
    }
  }

  lemma {:induction false} LineCase(u: seq<byte>, more: seq<byte>, k: nat)
    requires |u| >= MIN_LINE_LEN && k == Newline(Window(u)) < |Window(u)|
    ensures TakesNext(Scan(u, false), more, Fetch(Scan(u, false)))
    decreases |u|, true, 0
  {
    WindowNewline(u, Window(u), k);
    FetchLine(u, k);
    FetchExact(u[k + 1..], false, more);
    LineTakesNext(u, more, k, Fetch(Scan(u, false)));
  }

  /** When a fetch finds nothing, no complete key line is held back and at most 14 bytes are. */
  lemma {:induction false} FetchHoldsNothing(s: Scan)
    requires Fetch(s).direction.None?
    ensures |Fetch(s).scan.unread| < 15 && Remaining(Fetch(s).scan) == []
    decreases |s.unread|, !s.skipping
  {
    var u := s.unread;
    if |u| < MIN_LINE_LEN {
      ShortSaysNothing(u);
      ShortSaysNothing(AfterLine(u));
    } else if s.skipping {
      FetchHoldsNothing(Skipped(u));
    } else {
      var window := Window(u);
      var k := Newline(window);
      if k < |window| {
        FetchHoldsNothing(Scan(u[k + 1..], false));
      } else if |u| >= MAX_LINE_LEN {
        FetchHoldsNothing(s.(skipping := true));
      } else {
        assert window == u;
      }
    }
  }

  lemma {:induction false} DrainExact(s: Scan, more: seq<byte>)
    ensures var d := Drain(s);
            && Remaining(Fill(s, more)) == d.directions + Remaining(Fill(d.scan, more))
            && |d.scan.unread| < MAX_LINE_LEN && Remaining(d.scan) == []
    decreases |s.unread|
  {
    FetchExact(s.unread, s.skipping, more);
    var f := Fetch(s);
    if f.direction.None? {
      FetchHoldsNothing(s);
    } else {
      DrainExact(f.scan, more);
      var d := Drain(f.scan);
      Regroup(Said(f.direction), d.directions, Remaining(Fill(d.scan, more)));
    }
  }

  lemma {:induction false} ReadExact(chunks: seq<seq<byte>>, more: seq<byte>)
    ensures Directions(Joined(chunks) + more) == Read(chunks).directions + Remaining(Fill(Read(chunks).scan, more))
    ensures |Read(chunks).scan.unread| < MAX_LINE_LEN && Remaining(Read(chunks).scan) == []
    decreases |chunks|
  {
    if chunks == [] {
      assert [] + more == more;
    } else {
      var n := |chunks| - 1;
      var before, c := Read(chunks[..n]), chunks[n];
      ReadExact(chunks[..n], c + more);
      Regroup(Joined(chunks[..n]), c, more);
      Regroup(before.scan.unread, c, more);
      DrainExact(Fill(before.scan, c), more);
      var now := Drain(Fill(before.scan, c));
      Regroup(before.directions, now.directions, Remaining(Fill(now.scan, more)));
    }
  }

  /** However the stream is cut into reads, the directions fetched are those its complete lines say, all of them
      as soon as they are there; and fewer than 15 bytes stay behind, as much as populate has room to move. */
  lemma ChunksDoNotMatter(chunks: seq<seq<byte>>)
    ensures Read(chunks).directions == Directions(Joined(chunks))
    ensures |Read(chunks).scan.unread| < 15
  {
    ReadExact(chunks, []);
    assert Joined(chunks) + [] == Joined(chunks);
    assert Fill(Read(chunks).scan, []) == Read(chunks).scan;
  }

  /** The last thing said, or what held before. */
  function Latest(before: Direction, said: seq<Direction>): Direction {
    if said == [] then before else said[|said| - 1]
  }

  // ---------- the class ----------

  class TCPReceiveBuffer {
    const buff: array<byte>
    var beg: nat
    var end: nat
    var parsingInvalidMessage: bool

    ghost predicate Valid()
      reads this
    {
      buff.Length == TCP_BUFF_SIZE && beg <= end <= TCP_BUFF_SIZE
    }

    ghost function View(): Scan
      requires Valid()
      reads this, buff
    {
      Scan(buff[beg..end], parsingInvalidMessage)
    }

    constructor ()
      ensures Valid() && fresh(buff) && View() == Start() && buff.Length == 256
    {
      buff := new byte[TCP_BUFF_SIZE](_ => 0);
      beg, end, parsingInvalidMessage := 0, 0, false;
    }

    /** The first loop of fetch_direction, run while a line is being skipped. */
    method Skip()
      requires Valid() && beg < end && parsingInvalidMessage
      modifies this`beg, this`parsingInvalidMessage
      ensures Valid() && beg > old(beg)
      ensures var u := old(View()).unread;
              View() == Skipped(u)
    {
      ghost var start, u := beg, buff[beg..end];
      while beg < end
        invariant Valid() && parsingInvalidMessage && start <= beg && end == old(end)
        invariant forall i :: 0 <= i < beg - start ==> u[i] != NEWLINE
        decreases end - beg
      {
        beg := beg + 1;
        if buff[beg - 1] == NEWLINE {
          parsingInvalidMessage := false;
          break;
        }
      }
      if parsingInvalidMessage {
        NewlineIs(u, |u|);
      } else {
        NewlineIs(u, beg - start - 1);
      }
    }

    /** The second loop: a newline among the next 15 bytes. */
    method FindNewline() returns (newline: Option<nat>)
      requires Valid()
      ensures var window := Window(View().unread);
              newline == if Newline(window) < |window| then Some(Newline(window)) else None
      ensures newline.Some? ==> newline.value < end - beg
    {
      ghost var window := Window(View().unread);
      for i := 0 to Min(end - beg, MAX_LINE_LEN)
        invariant forall j :: 0 <= j < i ==> window[j] != NEWLINE
      {
        if buff[beg + i] == NEWLINE {
          NewlineIs(window, i);
          return Some(i);
        }
      }
      NewlineIs(window, |window|);
      newline := None;
    }

    /** The switch on the position of the newline. */
    method Recognise(newline: nat) returns (direction: Option<Direction>)
      requires Valid() && beg + newline < end
      ensures direction == Asked(View().unread[..newline + 1])
    {
      assert View().unread[..newline + 1] == buff[beg..beg + newline + 1];
      direction := None;
      if newline == 14 {
        if buff[beg..beg + 15] == RightKeyDown() {
          direction := Some(RIGHT);
        }
      } else if newline == 12 {
        if buff[beg..beg + 13] == RightKeyUp() {
          direction := Some(STRAIGHT);
        }
      } else if newline == 13 {
        if buff[beg..beg + 14] == LeftKeyDown() {
          direction := Some(LEFT);
        }
      } else if newline == 11 {
        if buff[beg..beg + 12] == LeftKeyUp() {
          direction := Some(STRAIGHT);
        }
      }
    }

    method Advance(n: nat)
      requires Valid() && beg + n <= end
      modifies this`beg
      ensures Valid() && beg == old(beg) + n && View().unread == old(View()).unread[n..]
    {
      beg := beg + n;
    }

    /** The branch of the loop below that is taken outside an over-long line. */
    method TakeLine() returns (direction: Option<Direction>, waits: bool)
      requires Valid() && !parsingInvalidMessage && end - beg >= MIN_LINE_LEN
      modifies this`beg, this`parsingInvalidMessage
      ensures Valid() && beg >= old(beg)
      ensures var f := Fetch(old(View()));
              if direction.Some? || waits then f == Fetched(direction, View())
              else f == Fetch(View()) && (beg > old(beg) || parsingInvalidMessage)
    {
      ghost var u := View().unread;
      direction, waits := None, false;
      var newline := FindNewline();
      if newline.Some? {
        FetchLine(u, newline.value);
        direction := Recognise(newline.value);
        Advance(newline.value + 1);
      } else if end - beg >= MAX_LINE_LEN {
        FetchLong(u);
        parsingInvalidMessage := true;
      } else {
        FetchWaits(u);
        waits := true;
      }
    }

    method FetchDirection() returns (direction: Option<Direction>)
      requires Valid()
      modifies this`beg, this`parsingInvalidMessage
      ensures Valid() && beg >= old(beg)
      ensures Fetched(direction, View()) == Fetch(old(View()))
    {
      ghost var v := View();
      ghost var goal := Fetch(v);
      while end - beg >= MIN_LINE_LEN
        invariant Valid() && beg >= old(beg) && v == View()
        invariant Fetch(v) == goal
        decreases end - beg, !parsingInvalidMessage
      {
        if parsingInvalidMessage {
          FetchSkips(v.unread);
          Skip();
        } else {
          var waits;
          direction, waits := TakeLine();
          if direction.Some? {
            return;
          }
          if waits {
            break;
          }
        }
        v := View();
      }
      direction := None;
    }

    /** received: what read delivered, None if it failed. A failed read and a closed connection end the process. */
    method Populate(received: Option<seq<byte>>) returns (exited: bool)
      requires Valid() && end - beg <= MAX_LINE_LEN
      requires received.Some? ==> |received.value| <= TCP_BUFF_SIZE - (end - beg)
      modifies this, buff
      ensures Valid() && (exited <==> received.None? || received.value == [])
      ensures !exited ==> View() == Fill(old(View()), received.value)
    {
      ghost var u := View().unread;
      if beg != end {
        var tmp := new byte[MAX_LINE_LEN];
        forall i | 0 <= i < end - beg {
          tmp[i] := buff[beg + i];
        }
        forall i | 0 <= i < end - beg {
          buff[i] := tmp[i];
        }
        end := end - beg;
        beg := 0;
      } else {
        beg, end := 0, 0;
      }
      assert buff[..end] == u;
      if received.None? || received.value == [] {
        return true;
      }
      var bytes := received.value;
      forall i | 0 <= i < |bytes| {
        buff[end + i] := bytes[i];
      }
      end := end + |bytes|;
      assert buff[..end] == u + bytes;
      exited := false;
    }
  }

  /** The part of the client that listens to its interface. */
  class Listener {
    const ifaceReceiveBuff: TCPReceiveBuffer
    var turnDirection: Direction
    ghost var chunks: seq<seq<byte>>

    ghost predicate Valid()
      reads this, ifaceReceiveBuff, ifaceReceiveBuff.buff
    {
      && ifaceReceiveBuff.Valid()
      && Heard(ifaceReceiveBuff.View(), turnDirection, chunks)
    }

    constructor ()
      ensures Valid() && chunks == [] && fresh(ifaceReceiveBuff) && fresh(ifaceReceiveBuff.buff)
    {
      ifaceReceiveBuff := new TCPReceiveBuffer();
      turnDirection := STRAIGHT;
      chunks := [];
    }

    /** The loop of handle_iface_msg. */
    method DrainBuffer()
      requires ifaceReceiveBuff.Valid()
      modifies this`turnDirection, ifaceReceiveBuff`beg, ifaceReceiveBuff`parsingInvalidMessage
      ensures ifaceReceiveBuff.Valid()
      ensures var d := Drain(old(ifaceReceiveBuff.View()));
              ifaceReceiveBuff.View() == d.scan && turnDirection == Latest(old(turnDirection), d.directions)
    {
      ghost var goal := Drain(ifaceReceiveBuff.View());
      var direction := ifaceReceiveBuff.FetchDirection();
      ghost var v := ifaceReceiveBuff.View();
      while direction.Some?
        invariant ifaceReceiveBuff.Valid() && v == ifaceReceiveBuff.View()
        invariant Onward(direction, v).scan == goal.scan
        invariant Latest(turnDirection, Onward(direction, v).directions) == Latest(old(turnDirection), goal.directions)
        decreases |v.unread| + |Said(direction)|
      {
        OnwardStep(direction.value, v, turnDirection);
        turnDirection := direction.value;
        direction := ifaceReceiveBuff.FetchDirection();
        v := ifaceReceiveBuff.View();
      }
    }

    method Take(received: Option<seq<byte>>) returns (exited: bool)
      requires ifaceReceiveBuff.Valid() && ifaceReceiveBuff.end - ifaceReceiveBuff.beg <= MAX_LINE_LEN
      requires received.Some? ==>
                 |received.value| <= TCP_BUFF_SIZE - (ifaceReceiveBuff.end - ifaceReceiveBuff.beg)
      modifies this`turnDirection, ifaceReceiveBuff, ifaceReceiveBuff.buff
      ensures ifaceReceiveBuff.Valid() && (exited <==> received.None? || received.value == [])
      ensures !exited ==>
                var d := Drain(Fill(old(ifaceReceiveBuff.View()), received.value));
                ifaceReceiveBuff.View() == d.scan && turnDirection == Latest(old(turnDirection), d.directions)
    {
      exited := ifaceReceiveBuff.Populate(received);
      if !exited {
        DrainBuffer();
      }
    }

    /** The direction held is the last one that any complete line received so far has asked for. */
    method HandleIfaceMessage(received: Option<seq<byte>>) returns (exited: bool)
      requires Valid()
      requires received.Some? ==>
                 |received.value| <= TCP_BUFF_SIZE - (ifaceReceiveBuff.end - ifaceReceiveBuff.beg)
      modifies this, ifaceReceiveBuff, ifaceReceiveBuff.buff
      ensures exited <==> received.None? || received.value == []
      ensures !exited ==> Valid() && chunks == old(chunks) + [received.value]
    {
      ghost var scan, turn := ifaceReceiveBuff.View(), turnDirection;
      exited := Take(received);
      if !exited {
        HeardMore(scan, turn, chunks, received.value, Drain(Fill(scan, received.value)));
        chunks := chunks + [received.value];
      }
    }
  }

  /** What was asked for last in all that was received. */
  function Turn(chunks: seq<seq<byte>>): Direction {
    Latest(STRAIGHT, Directions(Joined(chunks)))
  }

  /** How the listener stands after these reads. */
  predicate Heard(scan: Scan, turn: Direction, chunks: seq<seq<byte>>) {
    scan == Read(chunks).scan && |scan.unread| < MAX_LINE_LEN && turn == Turn(chunks)
  }

  lemma HeardMore(scan: Scan, turn: Direction, chunks: seq<seq<byte>>, chunk: seq<byte>, d: Drained)
    requires Heard(scan, turn, chunks) && d == Drain(Fill(scan, chunk))
    ensures Heard(d.scan, Latest(turn, d.directions), chunks + [chunk])
  {
    ReadNext(chunks, chunk);
    ChunksDoNotMatter(chunks);
    ChunksDoNotMatter(chunks + [chunk]);
    LatestAppend(STRAIGHT, Directions(Joined(chunks)), d.directions);
  }

  lemma ReadNext(chunks: seq<seq<byte>>, chunk: seq<byte>)
    ensures var d := Drain(Fill(Read(chunks).scan, chunk));
            Read(chunks + [chunk]) == Drained(Read(chunks).directions + d.directions, d.scan)
  {
    assert (chunks + [chunk])[..|chunks|] == chunks;
  }

  lemma LatestAppend(before: Direction, a: seq<Direction>, b: seq<Direction>)
    ensures Latest(before, a + b) == Latest(Latest(before, a), b)
  {}

  /** The rest of a drain whose last fetch gave this direction. */
  function Onward(direction: Option<Direction>, s: Scan): Drained {
    if direction.None? then Drained([], s)
    else Drained([direction.value] + Drain(s).directions, Drain(s).scan)
  }

  lemma OnwardStep(d: Direction, s: Scan, turn: Direction)
    ensures var f := Fetch(s);
            && Onward(Some(d), s).scan == Onward(f.direction, f.scan).scan
            && Latest(turn, Onward(Some(d), s).directions) == Latest(d, Onward(f.direction, f.scan).directions)
  {}
}
