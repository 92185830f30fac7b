/** The bytes on the wire and the text for the interface, position by position. */
module Layout {
  import opened Bytes
  import opened Wire
  import opened Datagrams
  import opened Text

  // ---------- numbers ----------

  /** The number that four bytes from i on stand for, the highest first. */
  function Number32(d: seq<byte>, i: nat): nat
    requires i + 4 <= |d|
  {
    d[i] as nat * 0x100_0000 + d[i + 1] as nat * 0x1_0000 + d[i + 2] as nat * 0x100 + d[i + 3]
  }

  function Number64(d: seq<byte>, i: nat): nat
    requires i + 8 <= |d|
  {
    Number32(d, i) * 0x1_0000_0000 + Number32(d, i + 4)
  }

  predicate Reads32(d: seq<byte>, i: nat, x: uint32) {
    i + 4 <= |d| && Number32(d, i) == x
  }

  lemma Be32Number(x: uint32)
    ensures Number32(Be32(x), 0) == x
  {
    var h, l := x / 0x1_0000, x % 0x1_0000;
    assert Be32(x) == [h / 256, h % 256, l / 256, l % 256];
  }

  lemma NumberAt(d: seq<byte>, i: nat, x: uint32)
    requires i + 4 <= |d| && d[i..i + 4] == Be32(x)
    ensures Number32(d, i) == x
  {
    var s := d[i..i + 4];
    assert s[0] == d[i] && s[1] == d[i + 1] && s[2] == d[i + 2] && s[3] == d[i + 3];
    Be32Number(x);
  }

  lemma Number64At(d: seq<byte>, i: nat, x: uint64)
    requires i + 8 <= |d| && d[i..i + 8] == Be64(x)
    ensures Number64(d, i) == x
  {
    assert d[i..i + 4] == d[i..i + 8][..4] == Be32(x / WRAP);
    assert d[i + 4..i + 8] == d[i..i + 8][4..] == Be32(x % WRAP);
    NumberAt(d, i, x / WRAP);
    NumberAt(d, i + 4, x % WRAP);
  }

  // ---------- heartbeats, events and datagrams ----------

  /** Session, direction, expected number, name. */
  lemma HeartbeatLayout(h: Heartbeat)
    ensures var d := EncodeHeartbeat(h);
            && |d| == 13 + |h.name| && Number64(d, 0) == h.session && d[8] == h.direction && Number32(d, 9) == h.next
            && d[13..] == h.name
  {
    var d := EncodeHeartbeat(h);
    assert d[0..8] == Be64(h.session) && d[9..13] == Be32(h.next);
    Number64At(d, 0, h.session);
    NumberAt(d, 9, h.next);
  }

  /** What follows the number: a type, and data of that type. */
  predicate DataLaidOut(d: seq<byte>, data: EventData)
    requires |d| >= 13
  {
    match data
    case NewGame(maxx, maxy, names) =>
      |d| >= 21 && d[8] == 0 && Reads32(d, 9, maxx) && Reads32(d, 13, maxy) && d[17..|d| - 4] == Terminated(names)
    case Pixel(player, x, y) => |d| == 22 && d[8] == 1 && d[9] == player && Reads32(d, 10, x) && Reads32(d, 14, y)
    case Eliminated(player) => |d| == 14 && d[8] == 2 && d[9] == player
    case GameOver => |d| == 13 && d[8] == 3
  }

  /** Each name with a zero byte behind it. */
  function Terminated(names: seq<Name>): seq<byte> {
    if names == [] then [] else names[0] + [0] + Terminated(names[1..])
  }

  lemma {:induction false} NamesTerminated(names: seq<Name>)
    ensures EncodeNames(names) == Terminated(names)
  {
    if names != [] {
      NamesTerminated(names[1..]);
    }
  }

  lemma Inner(d: seq<byte>, i: nat, j: nat, k: nat, l: nat)
    requires i <= j <= |d| && k <= l <= j - i
    ensures d[i + k..i + l] == d[i..j][k..l]
  {
    forall n | 0 <= n < l - k ensures d[i + k..i + l][n] == d[i..j][k..l][n] {
      assert d[i..j][k + n] == d[i + k + n];
    }
  }

  lemma SizesLayout(d: seq<byte>, maxx: uint32, maxy: uint32, names: seq<Name>)
    requires |d| >= 21 && d[9..|d| - 4] == EncodeData(NewGame(maxx, maxy, names))
    ensures Reads32(d, 9, maxx) && Reads32(d, 13, maxy) && d[17..|d| - 4] == Terminated(names)
  {
    var data := d[9..|d| - 4];
    NamesTerminated(names);
    Inner(d, 9, |d| - 4, 0, 4);
    Inner(d, 9, |d| - 4, 4, 8);
    Inner(d, 9, |d| - 4, 8, |d| - 13);
    assert data[0..4] == Be32(maxx) && data[4..8] == Be32(maxy) && data[8..|d| - 13] == EncodeNames(names);
    NumberAt(d, 9, maxx);
    NumberAt(d, 13, maxy);
  }

  lemma PixelLayout(d: seq<byte>, player: byte, x: uint32, y: uint32)
    requires |d| == 22 && d[9..18] == EncodeData(EventData.Pixel(player, x, y))
    ensures d[9] == player && Reads32(d, 10, x) && Reads32(d, 14, y)
  {
    var data := d[9..18];
    Inner(d, 9, 18, 1, 5);
    Inner(d, 9, 18, 5, 9);
    assert data[0] == d[9] && data[1..5] == Be32(x) && data[5..9] == Be32(y);
    NumberAt(d, 10, x);
    NumberAt(d, 14, y);
  }

  lemma DataLayout(crc: Checksum, e: Event, d: seq<byte>)
    requires d == EncodeEvent(crc, e)
    ensures |d| >= 13 && DataLaidOut(d, e.data)
  {
    assert d[9..|d| - 4] == EncodeData(e.data);
    assert d[8] == TypeNumber(e.data);
    match e.data
    case NewGame(maxx, maxy, names) => SizesLayout(d, maxx, maxy, names);
    case Pixel(player, x, y) => PixelLayout(d, player, x, y);
    case Eliminated(player) => assert d[9] == d[9..|d| - 4][0];
    case GameOver =>
  }

  /** Length, number, type, data, and last the checksum of all before it. The length counts neither itself nor the
      checksum. */
  lemma EventLayout(crc: Checksum, e: Event)
    requires Packable(e)
    ensures var d, n := EncodeEvent(crc, e), EventSize(e);
            && |d| == n >= 13 && Number32(d, 0) == n - 8 && Number32(d, 4) == e.no && DataLaidOut(d, e.data)
            && Number32(d, n - 4) == crc.sum(d[..n - 4])
  {
    var d, n := EncodeEvent(crc, e), EventSize(e);
    var body := EncodeBody(e);
    assert d[..n - 4] == body && d[n - 4..n] == Be32(crc.sum(body));
    assert d[0..4] == Be32(e.len) && d[4..8] == Be32(e.no);
    NumberAt(d, 0, e.len);
    NumberAt(d, 4, e.no);
    NumberAt(d, n - 4, crc.sum(body));
    DataLayout(crc, e, d);
  }

  /** Of what passes the checksum, exactly the types above 3 are unknown. */
  lemma UnknownExactly(crc: Checksum, d: seq<byte>, pos: nat, len: uint32)
    requires pos + 9 <= |d| && Read32(d, pos) == Some(len) && pos + 4 + len + 4 <= |d| && CrcMatches(crc, d, pos, len)
    ensures UnpackEvent(crc, d, pos).UnknownType? <==> d[pos + 8] > 3
  {}

  /** The id of the game, and then its events one behind the other. */
  lemma DatagramLayout(crc: Checksum, game: uint32, first: Event, rest: seq<Event>)
    requires Packable(first)
    ensures var d, n := Datagram(crc, game, [first] + rest), EventSize(first);
            && |d| >= 4 + n && Number32(d, 0) == game && d[4..4 + n] == EncodeEvent(crc, first)
            && d[4 + n..] == Datagram(crc, game, rest)[4..]
  {
    var d, n := Datagram(crc, game, [first] + rest), EventSize(first);
    assert ([first] + rest)[1..] == rest;
    assert d == Be32(game) + (EncodeEvent(crc, first) + EncodeAll(crc, rest));
    assert d[0..4] == Be32(game);
    NumberAt(d, 0, game);
  }

  // ---------- lines ----------

  /** What digits stand for. */
  function Reads(w: Word): nat
    requires forall i :: 0 <= i < |w| ==> 48 <= w[i] <= 57
  {
    if w == [] then 0 else 10 * Reads(w[..|w| - 1]) + (w[|w| - 1] - 48)
  }

  /** A number is printed as digits that stand for it, with no zero in front. */
  lemma {:induction false} DecimalReads(n: nat)
    ensures forall i :: 0 <= i < |Decimal(n)| ==> 48 <= Decimal(n)[i] <= 57
    ensures Reads(Decimal(n)) == n && (n > 0 ==> Decimal(n)[0] != 48)
    decreases n
  {
    var w := Decimal(n);
    if n < 10 {
      assert w[..0] == [];
    } else {
      DecimalReads(n / 10);
      assert w[..|w| - 1] == Decimal(n / 10);
    }
  }

  /** Each name with a space before it. */
  function Preceded(names: seq<Name>): seq<byte> {
    if names == [] then [] else [32] + names[0] + Preceded(names[1..])
  }

  lemma {:induction false} LineOfWords(first: Word, rest: Line)
    ensures LineBytes([first] + rest) == first + Preceded(rest) + [10]
    decreases |rest|
  {
    var words: Line := [first] + rest;
    if rest == [] {
      assert first + [] == first;
    } else {
      var second, more := rest[0], rest[1..];
      assert words[1..] == rest == [second] + more;
      LineOfWords(second, more);
      LineGrows(first, second, Preceded(more));
    }
  }

  lemma LineGrows(first: Word, second: Word, more: seq<byte>)
    ensures first + [32] + (second + more + [10]) == first + ([32] + second + more) + [10]
  {}

  lemma OneArgument(head: Word, spaced: seq<byte>, a: Word)
    requires spaced == head + [32]
    ensures LineBytes([head, a]) == spaced + a + [10]
  {
    LineOfWords(head, [a]);
    assert [a][1..] == [] && Preceded([a]) == [32] + a + [];
    assert head + ([32] + a) + [10] == spaced + a + [10];
  }

  lemma TwoArguments(head: Word, spaced: seq<byte>, a: Word, b: Word, more: seq<Name>)
    requires spaced == head + [32]
    ensures LineBytes([head, a, b] + more) == spaced + a + [32] + b + Preceded(more) + [10]
  {
    var rest: Line := [a, b] + more;
    LineOfWords(head, rest);
    assert [head, a, b] + more == [head] + rest;
    assert rest[1..] == [b] + more && ([b] + more)[1..] == more;
    assert Preceded([b] + more) == [32] + b + Preceded(more);
    assert Preceded(rest) == [32] + a + Preceded([b] + more);
    assert head + ([32] + a + ([32] + b + Preceded(more))) + [10] == spaced + a + [32] + b + Preceded(more) + [10];
  }

  lemma ThreeArguments(head: Word, spaced: seq<byte>, a: Word, b: Word, c: Word)
    requires spaced == head + [32]
    ensures LineBytes([head, a, b, c]) == spaced + a + [32] + b + [32] + c + [10]
  {
    TwoArguments(head, spaced, a, b, [c]);
    assert [head, a, b] + [c] == [head, a, b, c];
    assert [c][1..] == [] && Preceded([c]) == [32] + c + [];
    assert spaced + a + [32] + b + ([32] + c) + [10] == spaced + a + [32] + b + [32] + c + [10];
  }

  lemma Spaces()
    ensures Ascii("NEW_GAME ") == Ascii("NEW_GAME") + [32] && Ascii("PIXEL ") == Ascii("PIXEL") + [32]
    ensures Ascii("PLAYER_ELIMINATED ") == Ascii("PLAYER_ELIMINATED") + [32]
  {}

  /** The line of an event, byte by byte; name is that of the player it is about. */
  lemma LineLayout(data: EventData, players: seq<Name>, name: Name)
    requires !data.GameOver? && Stringify(data, players).Some?
    requires data.Pixel? || data.Eliminated? ==> data.player < |players| && name == players[data.player]
    ensures var line := Stringify(data, players).value;
            line != [] &&
            LineBytes(line) ==
            match data
            case NewGame(maxx, maxy, names) =>
              Ascii("NEW_GAME ") + Decimal(maxx) + [32] + Decimal(maxy) + Preceded(names) + [10]
            case Pixel(_, x, y) => Ascii("PIXEL ") + Decimal(x) + [32] + Decimal(y) + [32] + name + [10]
            case Eliminated(_) => Ascii("PLAYER_ELIMINATED ") + name + [10]
            case GameOver => []
  {
    Spaces();
    match data
    case NewGame(maxx, maxy, names) =>
      TwoArguments(Ascii("NEW_GAME"), Ascii("NEW_GAME "), Decimal(maxx), Decimal(maxy), names);
    case Pixel(_, x, y) => ThreeArguments(Ascii("PIXEL"), Ascii("PIXEL "), Decimal(x), Decimal(y), name);
    case Eliminated(_) => OneArgument(Ascii("PLAYER_ELIMINATED"), Ascii("PLAYER_ELIMINATED "), name);
  }
}
