/** From the logs of the server to the picture on the screen: the client's lines as bytes, read and obeyed again. */
module Display {
  import opened Bytes
  import opened Wire
  import opened Datagrams
  import opened EventLogs
  import opened Text
  import opened Gui
  import opened Reading
  import opened Variants
  import Protocol

  /** What has become visible on the board that was set up last, in order. None: something undefined has happened. */
  datatype Picture = Picture(screen: Screen, drawn: seq<Effect>)

  /** The interface before its first line. */
  const BLANK := Picture(Screen(20, 20, []), [])

  function Drawn(p: Picture, o: Outcome): Option<Picture> {
    match o
    case Undefined => None
    case Rejected(s) => Some(p.(screen := s))
    case Obeyed(s, e) =>
      Some(if e.Board? then Picture(s, []) else if e.Nothing? then p.(screen := s) else Picture(s, p.drawn + [e]))
  }

  predicate Sayable(lines: seq<Line>) {
    forall i :: 0 <= i < |lines| ==> lines[i] != []
  }

  function Obey(p: Picture, lines: seq<Line>): Option<Picture>
    requires Sayable(lines)
    decreases |lines|
  {
    if lines == [] then Some(p)
    else
      match Obey(p, lines[..|lines| - 1])
      case None => None
      case Some(q) => Drawn(q, Show(q.screen, lines[|lines| - 1]))
  }

  lemma {:induction false} ObeyMore(p: Picture, a: seq<Line>, b: seq<Line>)
    requires Sayable(a) && Sayable(b)
    ensures Sayable(a + b)
    ensures Obey(p, a + b) == match Obey(p, a) case None => None case Some(q) => Obey(q, b)
    decreases |b|
  {
    if b == [] {
      assert a + b == a;
    } else {
      ObeyMore(p, a, b[..|b| - 1]);
      assert (a + b)[..|a + b| - 1] == a + b[..|b| - 1];
    }
  }

  lemma ObeyLast(p: Picture, lines: seq<Line>, line: Line)
    requires Sayable(lines) && line != []
    ensures Obey(p, lines + [line])
            == match Obey(p, lines) case None => None case Some(q) => Drawn(q, Show(q.screen, line))
  {
    assert (lines + [line])[..|lines|] == lines;
  }

  // ---------- the picture of one log ----------

  /** What the interface can show whole: two to twenty names it can tell apart, and sizes it can read. */
  predicate Showable(log: seq<Event>) {
    && LogOk(log) && GoodNames(log[0].data.players) && 2 <= |log[0].data.players| <= MAX_PLAYER
    && log[0].data.maxx < INT_LIMIT && log[0].data.maxy < INT_LIMIT
  }

  function Marks(data: EventData): seq<Effect> {
    match data
    case Pixel(player, x, y) => [Dot(x, y, player)]
    case Eliminated(player) => [Cross(player)]
    case _ => []
  }

  /** The dots and crosses of the events below n. */
  function AllMarks(log: seq<Event>, n: nat): seq<Effect>
    requires n <= |log|
  {
    if n == 0 then [] else AllMarks(log, n - 1) + Marks(log[n - 1].data)
  }

  function PictureOf(log: seq<Event>, n: nat): Picture
    requires LogOk(log) && n <= |log|
  {
    Picture(Screen(log[0].data.maxx, log[0].data.maxy, log[0].data.players), AllMarks(log, n))
  }

  lemma {:induction false} LinesSayable(log: seq<Event>, n: nat)
    requires LogOk(log) && n <= |log|
    ensures Sayable(Lines(log, n))
  {
    if n > 0 {
      LinesSayable(log, n - 1);
    }
  }

  lemma OpeningDrawn(p: Picture, log: seq<Event>, line: Line, maxx: uint32, maxy: uint32, names: seq<Name>)
    requires Showable(log) && log[0].data == NewGame(maxx, maxy, names)
    requires Stringify(NewGame(maxx, maxy, names), []) == Some(line)
    ensures line != [] && Drawn(p, Show(p.screen, line)) == Some(PictureOf(log, 1))
  {
    NewGameShown(p.screen, maxx, maxy, names);
    assert names[..Min(|names|, MAX_PLAYER)] == names;
    assert AllMarks(log, 0) == [] && AllMarks(log, 1) == [];
  }

  lemma OpeningLine(log: seq<Event>, line: Line)
    requires LogOk(log) && Stringify(log[0].data, log[0].data.players) == Some(line)
    ensures Lines(log, 1) == [line]
  {
    assert Lines(log, 0) == [];
  }

  lemma OpeningObeyed(p: Picture, log: seq<Event>)
    requires Showable(log)
    ensures Sayable(Lines(log, 1)) && Obey(p, Lines(log, 1)) == Some(PictureOf(log, 1))
  {
    var data := log[0].data;
    var line := Stringify(data, data.players).value;
    OpeningDrawn(p, log, line, data.maxx, data.maxy, data.players);
    OpeningLine(log, line);
    ObeyLast(p, [], line);
    assert [] + [line] == [line];
  }

  lemma EventObeyed(p: Picture, log: seq<Event>, n: nat)
    requires Showable(log) && 0 < n < |log| && p == PictureOf(log, n) && !log[n].data.GameOver?
    ensures var line := Stringify(log[n].data, log[0].data.players).value;
            line != [] && Drawn(p, Show(p.screen, line)) == Some(PictureOf(log, n + 1))
  {
    var names := log[0].data.players;
    assert names[..Min(|names|, MAX_PLAYER)] == names;
    assert LaterOk(log[0].data, log[n].data);
    match log[n].data
    case Pixel(player, x, y) => PixelShown(p.screen, names, player, x, y);
    case Eliminated(player) => EliminatedShown(p.screen, names, player);
  }

  /** The lines of the events below n draw exactly the dots and crosses of these events on the game's board. */
  lemma {:induction false} LogObeyed(p: Picture, log: seq<Event>, n: nat)
    requires Showable(log) && 0 < n <= |log|
    ensures Sayable(Lines(log, n)) && Obey(p, Lines(log, n)) == Some(PictureOf(log, n))
  {
    if n == 1 {
      OpeningObeyed(p, log);
    } else {
      LogObeyed(p, log, n - 1);
      LinesSayable(log, n);
      var lines := Lines(log, n - 1);
      if log[n - 1].data.GameOver? {
        assert Lines(log, n) == lines && AllMarks(log, n) == AllMarks(log, n - 1);
      } else {
        EventObeyed(PictureOf(log, n - 1), log, n - 1);
        var line := Stringify(log[n - 1].data, log[0].data.players).value;
        ObeyLast(p, lines, line);
        assert Lines(log, n) == lines + [line];
      }
    }
  }

  // ---------- game after game ----------

  ghost predicate AllShowable(logs: Protocol.Logs) {
    forall g <- logs :: Showable(logs[g])
  }

  predicate Grounded(logs: Protocol.Logs, visits: seq<Protocol.Visit>) {
    forall i :: 0 <= i < |visits| && visits[i].upTo > 0 ==>
      visits[i].game in logs && visits[i].upTo <= |logs[visits[i].game]|
  }

  /** The picture after a series of visits: that of the last one of which anything was told. */
  ghost function PictureAfter(p: Picture, logs: Protocol.Logs, visits: seq<Protocol.Visit>): Picture
    requires Protocol.GoodLogs(logs) && Grounded(logs, visits)
    decreases |visits|
  {
    if visits == [] then p
    else
      var last := visits[|visits| - 1];
      if last.upTo == 0 then PictureAfter(p, logs, visits[..|visits| - 1])
      else PictureOf(logs[last.game], last.upTo)
  }

  lemma {:induction false} VisitsObeyed(p: Picture, logs: Protocol.Logs, visits: seq<Protocol.Visit>)
    requires Protocol.GoodLogs(logs) && AllShowable(logs) && Grounded(logs, visits)
    ensures Sayable(Protocol.Told(logs, visits))
    ensures Obey(p, Protocol.Told(logs, visits)) == Some(PictureAfter(p, logs, visits))
    decreases |visits|
  {
    if visits != [] {
      var last, front := visits[|visits| - 1], visits[..|visits| - 1];
      VisitsObeyed(p, logs, front);
      var told := Protocol.Told(logs, front);
      if last.upTo == 0 {
        assert told + [] == told;
      } else {
        var q := PictureAfter(p, logs, front);
        LogObeyed(q, logs[last.game], last.upTo);
        ObeyMore(p, told, Lines(logs[last.game], last.upTo));
      }
    }
  }

  // ---------- bytes ----------

  /** The messages one after the other, as the interface reads them. */
  function Messages(lines: seq<Line>): seq<byte> {
    if lines == [] then [] else (if lines[0] == [] then [] else LineBytes(lines[0])) + Messages(lines[1..])
  }

  /** One line after the other is split into words and obeyed. */
  function ObeyRaw(p: Picture, raw: seq<seq<byte>>): Option<Picture>
    decreases |raw|
  {
    if raw == [] then Some(p)
    else
      var tokens := NonEmpty(Split(Kept(raw[0])));
      match Drawn(p, if |tokens| > MAX_TOKENS then Undefined else Process(p.screen, tokens))
      case None => None
      case Some(q) => ObeyRaw(q, raw[1..])
  }

  /** As much of a stream as is whole lines: what follows the last newline is not a line yet. */
  function ObeyStream(p: Picture, s: seq<byte>): Option<Picture> {
    ObeyRaw(p, RawLines(s))
  }

  /** The stream in the chunks between which the socket runs dry. */
  function ObeyChunks(p: Picture, chunks: seq<seq<byte>>): Option<Picture> {
    ObeyRaw(p, Received(chunks))
  }

  /** Its words come out of the splitting in one piece each, and the buffer holds it. */
  predicate PlainLine(line: Line) {
    line != [] && (forall i :: 0 <= i < |line| ==> Plain(line[i])) && |LineBytes(line)| < BUFFER_SIZE
  }

  predicate PlainLines(lines: seq<Line>) {
    forall i :: 0 <= i < |lines| ==> PlainLine(lines[i])
  }

  /** A message ends at its only newline. */
  lemma {:induction false} OneNewline(line: Line)
    requires line != [] && forall i :: 0 <= i < |line| ==> Plain(line[i])
    ensures var b := LineBytes(line);
            b != [] && b[|b| - 1] == NEWLINE && forall i :: 0 <= i < |b| - 1 ==> b[i] != NEWLINE
    decreases |line|
  {
    var w := line[0];
    if |line| > 1 {
      var rest := LineBytes(line[1..]);
      OneNewline(line[1..]);
      assert LineBytes(line) == (w + [SPACE]) + rest;
    } else {
      assert LineBytes(line) == w + [NEWLINE];
    }
  }

  /** One message at the front of a stream. */
  lemma MessageRead(line: Line, rest: seq<byte>)
    requires PlainLine(line)
    ensures RawLines(LineBytes(line) + rest) == [LineBytes(line)] + RawLines(rest)
    ensures Kept(LineBytes(line)) == LineBytes(line)
  {
    var b := LineBytes(line);
    var s := b + rest;
    OneNewline(line);
    FirstNewline(s, |b| - 1);
    assert s[..|b|] == b && s[|b|..] == rest;
  }

  lemma MessageObeyed(p: Picture, line: Line, rest: seq<byte>)
    requires PlainLine(line)
    ensures ObeyStream(p, LineBytes(line) + rest)
            == match Drawn(p, Show(p.screen, line)) case None => None case Some(q) => ObeyStream(q, rest)
  {
    MessageRead(line, rest);
    assert ([LineBytes(line)] + RawLines(rest))[1..] == RawLines(rest);
  }

  lemma ObeyFirst(p: Picture, lines: seq<Line>)
    requires Sayable(lines) && lines != []
    ensures Sayable(lines[1..])
    ensures Obey(p, lines)
            == match Drawn(p, Show(p.screen, lines[0])) case None => None case Some(q) => Obey(q, lines[1..])
  {
    ObeyLast(p, [], lines[0]);
    assert [] + [lines[0]] == [lines[0]];
    ObeyMore(p, [lines[0]], lines[1..]);
    assert lines == [lines[0]] + lines[1..];
  }

  /** Reading messages off a stream and obeying them is obeying the messages; part of another message is not obeyed. */
  lemma {:induction false} StreamObeyed(p: Picture, lines: seq<Line>, tail: seq<byte>)
    requires PlainLines(lines) && NEWLINE !in tail
    ensures Sayable(lines) && ObeyStream(p, Messages(lines) + tail) == Obey(p, lines)
    decreases |lines|
  {
    if lines == [] {
      assert Messages(lines) + tail == tail;
    } else {
      var rest := Messages(lines[1..]) + tail;
      Regroup(LineBytes(lines[0]), Messages(lines[1..]), tail);
      MessageObeyed(p, lines[0], rest);
      ObeyFirst(p, lines);
      var o := Drawn(p, Show(p.screen, lines[0]));
      if o.Some? {
        StreamObeyed(o.value, lines[1..], tail);
      }
    }
  }

  // ---------- end to end ----------

  lemma {:induction false} LineLength(line: Line, width: nat)
    requires line != [] && forall i :: 0 <= i < |line| ==> |line[i]| < width
    ensures |LineBytes(line)| <= |line| * width
    decreases |line|
  {
    if |line| > 1 {
      LineLength(line[1..], width);
      assert (|line| - 1) * width + width == |line| * width;
    }
  }

  predicate ShortWord(w: Word) {
    Plain(w) && |w| < NAME_LENGTH
  }

  lemma NumberShort(n: uint32)
    ensures ShortWord(Decimal(n))
  {
    PlainDecimal(n);
    assert Pow10(5) == 100000;
    assert Pow10(10) == 10000000000;
    DecimalLength(n, 10);
  }

  /** A line of the log fits the interface's buffer and comes out of the splitting as it was packed. */
  lemma LinePlain(log: seq<Event>, i: nat, line: Line)
    requires Showable(log) && i < |log| && Stringify(log[i].data, log[0].data.players) == Some(line)
    requires !log[i].data.GameOver?
    ensures PlainLine(line)
  {
    WordsShort(log, i, line);
    LineLength(line, NAME_LENGTH);
  }

  lemma WordsShort(log: seq<Event>, i: nat, line: Line)
    requires Showable(log) && i < |log| && Stringify(log[i].data, log[0].data.players) == Some(line)
    requires !log[i].data.GameOver?
    ensures 0 < |line| <= 23 && forall k :: 0 <= k < |line| ==> ShortWord(line[k])
  {
    assert i > 0 ==> LaterOk(log[0].data, log[i].data);
    match log[i].data
    case NewGame(maxx, maxy, names) =>
      NumberShort(maxx);
      NumberShort(maxy);
      forall k | 0 <= k < |line| ensures ShortWord(line[k]) {
        if k >= 3 {
          assert line[k] == names[k - 3];
        }
      }
    case Pixel(_, x, y) =>
      NumberShort(x);
      NumberShort(y);
    case Eliminated(_) =>
  }

  lemma {:induction false} LinesPlain(log: seq<Event>, n: nat)
    requires Showable(log) && n <= |log|
    ensures PlainLines(Lines(log, n))
  {
    if n > 0 {
      LinesPlain(log, n - 1);
      if !log[n - 1].data.GameOver? {
        assert n > 1 ==> LaterOk(log[0].data, log[n - 1].data);
        LinePlain(log, n - 1, Stringify(log[n - 1].data, log[0].data.players).value);
      }
    }
  }

  lemma {:induction false} ToldPlain(logs: Protocol.Logs, visits: seq<Protocol.Visit>)
    requires Protocol.GoodLogs(logs) && AllShowable(logs) && Grounded(logs, visits)
    ensures PlainLines(Protocol.Told(logs, visits))
    decreases |visits|
  {
    if visits != [] {
      var last := visits[|visits| - 1];
      ToldPlain(logs, visits[..|visits| - 1]);
      if last.upTo > 0 {
        LinesPlain(logs[last.game], last.upTo);
      }
    }
  }

  /** The games visited so far, with the current one. */
  function Visited(s: Protocol.System): seq<Protocol.Visit> {
    s.done + if s.client.joined then [Protocol.Visit(s.client.game, s.client.next)] else []
  }

  /** What a safe client has told the interface. */
  lemma SafeTold(v: Variant, s: Protocol.System)
    requires Protocol.Safe(v, s)
    ensures Grounded(s.logs, Visited(s)) && s.client.lines == Protocol.Told(s.logs, Visited(s))
  {
    Protocol.VisitsInLogs(v, s);
    if s.client.joined {
      Protocol.ToldNext(s.logs, s.done, Protocol.Visit(s.client.game, s.client.next));
    } else {
      assert Visited(s) == [];
    }
  }

  /** What a safe client has told the interface, sent as bytes and obeyed: the game that was told last, with exactly the
      dots and crosses of the events below the expected one. */
  lemma SafeShown(v: Variant, s: Protocol.System)
    requires Protocol.Safe(v, s) && AllShowable(s.logs)
    ensures PlainLines(s.client.lines) && Grounded(s.logs, Visited(s))
    ensures ObeyStream(BLANK, Messages(s.client.lines)) == Some(PictureAfter(BLANK, s.logs, Visited(s)))
    ensures Sayable(s.client.lines) && Obey(BLANK, s.client.lines) != None
  {
    SafeTold(v, s);
    ToldPlain(s.logs, Visited(s));
    VisitsObeyed(BLANK, s.logs, Visited(s));
    StreamObeyed(BLANK, s.client.lines, []);
    assert Messages(s.client.lines) + [] == Messages(s.client.lines);
  }

  /** What of a series of messages has arrived: some of them whole, and perhaps the beginning of another. */
  lemma {:induction false} Arrived(lines: seq<Line>, s: seq<byte>) returns (m: nat, tail: seq<byte>)
    requires PlainLines(lines) && s <= Messages(lines)
    ensures m <= |lines| && s == Messages(lines[..m]) + tail && NEWLINE !in tail
    decreases |lines|
  {
    m, tail := 0, s;
    if lines != [] {
      var b, more := LineBytes(lines[0]), Messages(lines[1..]);
      OneNewline(lines[0]);
      assert Messages(lines) == b + more;
      if |b| <= |s| {
        assert s[..|b|] == b && s[|b|..] <= more;
        m, tail := Arrived(lines[1..], s[|b|..]);
        m := m + 1;
        assert lines[..m][1..] == lines[1..][..m - 1];
        Regroup(b, Messages(lines[1..][..m - 1]), tail);
      }
    }
  }

  lemma ObeyedSoFar(p: Picture, lines: seq<Line>, sent: seq<byte>) returns (m: nat)
    requires PlainLines(lines) && Sayable(lines) && sent <= Messages(lines) && Obey(p, lines) != None
    ensures m <= |lines| && Sayable(lines[..m]) && ObeyStream(p, sent) == Obey(p, lines[..m]) != None
  {
    var tail;
    m, tail := Arrived(lines, sent);
    StreamObeyed(p, lines[..m], tail);
    assert lines[..m] + lines[m..] == lines;
    ObeyMore(p, lines[..m], lines[m..]);
  }

  // ---------- chunks ----------

  lemma ObeyedInChunks(p: Picture, chunks: seq<seq<byte>>)
    requires Aligned(chunks)
    ensures ObeyChunks(p, chunks) == ObeyStream(p, Joined(chunks))
  {
    AlignedReceived(chunks);
  }

  lemma PixelWords(names: seq<Name>, player: byte, x: uint32, y: uint32, line: Line, rest: Line)
    requires GoodNames(names) && player < |names| && Stringify(EventData.Pixel(player, x, y), names) == Some(line)
    requires rest == [Decimal(x), Decimal(y), names[player]]
    ensures PlainLine(line) && PlainLine(rest) && LineBytes(line) == Ascii("PIXEL") + [SPACE] + LineBytes(rest)
  {
    NumberShort(x);
    NumberShort(y);
    assert line == [Ascii("PIXEL")] + rest && line[1..] == rest;
    LineLength(line, NAME_LENGTH);
  }

  /** The rest of a line whose first word is lost. */
  lemma NumberIsNoCommand(s: Screen, n: nat, more: seq<Word>)
    ensures Process(s, [Decimal(n)] + more) == Rejected(s)
  {
    NumberOfDecimal(n);
    assert Ascii("NEW_GAME")[0] == 78 && Ascii("PIXEL")[0] == 80 && Ascii("PLAYER_ELIMINATED")[0] == 80;
    assert IsDigit(Decimal(n)[0]);
  }

  lemma RestRejected(p: Picture, x: nat, more: Line, rest: Line)
    requires rest == [Decimal(x)] + more && |more| < MAX_TOKENS && PlainLine(rest)
    ensures ObeyStream(p, LineBytes(rest)) == Some(p)
  {
    MessageObeyed(p, rest, []);
    assert LineBytes(rest) + [] == LineBytes(rest);
    WordsOfLine(rest);
    NumberIsNoCommand(p.screen, x, more);
  }

  /** The socket runs dry behind the first word of a PIXEL: the word is lost, the rest is no command, and the dot never
      appears. */
  lemma CutLosesDot(p: Picture, names: seq<Name>, player: byte, x: uint32, y: uint32, line: Line, a: seq<byte>,
                    b: seq<byte>)
    requires GoodNames(names) && Shows(p.screen, names) && player < Min(|names|, MAX_PLAYER)
    requires x < INT_LIMIT && y < INT_LIMIT && Stringify(EventData.Pixel(player, x, y), names) == Some(line)
    requires a == Ascii("PIXEL") + [SPACE] && LineBytes(line) == a + b
    ensures ObeyStream(p, a + b) == Some(p.(drawn := p.drawn + [Dot(x, y, player)]))
    ensures ObeyChunks(p, [a, b]) == Some(p)
  {
    var rest: Line := [Decimal(x), Decimal(y), names[player]];
    PixelWords(names, player, x, y, line, rest);
    assert b == (a + b)[|a|..] == LineBytes(rest);
    WholeDrawsDot(p, names, player, x, y, line);
    RestRejected(p, x, [Decimal(y), names[player]], rest);
    CutRead(a, b);
  }

  lemma WholeDrawsDot(p: Picture, names: seq<Name>, player: byte, x: uint32, y: uint32, line: Line)
    requires GoodNames(names) && Shows(p.screen, names) && player < Min(|names|, MAX_PLAYER)
    requires x < INT_LIMIT && y < INT_LIMIT && Stringify(EventData.Pixel(player, x, y), names) == Some(line)
    requires PlainLine(line)
    ensures ObeyStream(p, LineBytes(line)) == Some(p.(drawn := p.drawn + [Dot(x, y, player)]))
  {
    PixelShown(p.screen, names, player, x, y);
    MessageObeyed(p, line, []);
    assert LineBytes(line) + [] == LineBytes(line);
  }

  lemma {:induction false} NoNewline(s: seq<byte>)
    requires forall i :: 0 <= i < |s| ==> s[i] != NEWLINE
    ensures Newline(s) == |s|
  {
    if s != [] {
      NoNewline(s[1..]);
    }
  }

  lemma CutRead(a: seq<byte>, b: seq<byte>)
    requires NEWLINE !in a
    ensures Received([a, b]) == RawLines(b)
  {
    NoNewline(a);
    assert [a, b][1..] == [b] && [b][1..] == [];
    assert RawLines(a) == [] && Received([b]) == RawLines(b) + [];
  }
}
