/** The wire format of Common/Event.h, Common/Buffer.h and Common/ClientHeartbeat.h, on byte strings. */
module Wire {
  import opened Bytes
  import Crc32

  const MAX_DATA_SIZE: nat := 550
  const WRAP: nat := 0x1_0000_0000

  /** The bytes of a socket address, compared as memory. */
  type Address = seq<byte>

  datatype Option<+T> = None | Some(value: T)

  /** The proofs here hold for any checksum; the programs use CRC32. */
  datatype Checksum = Checksum(sum: seq<byte> -> uint32)

  ghost function CRC32(): Checksum {
    Checksum(Crc32.Crc)
  }

  // ---------- fields ----------

  function Be16(x: uint16): (s: seq<byte>)
    ensures |s| == 2
  {
    [x / 256, x % 256]
  }

  function FromBe16(s: seq<byte>): uint16
    requires |s| == 2
  {
    (s[0] as int) * 256 + s[1] as int
  }

  function Be32(x: uint32): (s: seq<byte>)
    ensures |s| == 4
  {
    Be16(x / 0x1_0000) + Be16(x % 0x1_0000)
  }

  function FromBe32(s: seq<byte>): uint32
    requires |s| == 4
  {
    (FromBe16(s[..2]) as int) * 0x1_0000 + FromBe16(s[2..]) as int
  }

  function Be64(x: uint64): (s: seq<byte>)
    ensures |s| == 8
  {
    Be32(x / WRAP) + Be32(x % WRAP)
  }

  function FromBe64(s: seq<byte>): uint64
    requires |s| == 8
  {
    (FromBe32(s[..4]) as int) * WRAP + FromBe32(s[4..]) as int
  }

  lemma Be32RoundTrip(x: uint32)
    ensures FromBe32(Be32(x)) == x
  {
    assert Be32(x)[..2] == Be16(x / 0x1_0000) && Be32(x)[2..] == Be16(x % 0x1_0000);
  }

  lemma Be16Inverse(s: seq<byte>)
    requires |s| == 2
    ensures Be16(FromBe16(s)) == s
  {}

  lemma Be32Inverse(s: seq<byte>)
    requires |s| == 4
    ensures Be32(FromBe32(s)) == s
  {
    var h: uint16, l: uint16 := FromBe16(s[..2]), FromBe16(s[2..]);
    assert FromBe32(s) / 0x1_0000 == h && FromBe32(s) % 0x1_0000 == l;
    Be16Inverse(s[..2]);
    Be16Inverse(s[2..]);
    assert s == s[..2] + s[2..];
  }

  lemma Be64RoundTrip(x: uint64)
    ensures FromBe64(Be64(x)) == x
  {
    assert Be64(x)[..4] == Be32(x / WRAP) && Be64(x)[4..] == Be32(x % WRAP);
    Be32RoundTrip(x / WRAP);
    Be32RoundTrip(x % WRAP);
  }

  // ---------- events ----------

  type Name = seq<byte>

  datatype EventData =
    | NewGame(maxx: uint32, maxy: uint32, players: seq<Name>)
    | Pixel(player: byte, x: uint32, y: uint32)
    | Eliminated(player: byte)
    | GameOver

  datatype Event = Event(len: uint32, no: uint32, data: EventData)

  function TypeNumber(data: EventData): byte {
    match data
    case NewGame(_, _, _) => 0
    case Pixel(_, _, _) => 1
    case Eliminated(_) => 2
    case GameOver => 3
  }

  function NamesSize(names: seq<Name>): nat {
    if names == [] then 0 else |names[0]| + 1 + NamesSize(names[1..])
  }

  function DataSize(data: EventData): nat {
    match data
    case NewGame(_, _, players) => 8 + NamesSize(players)
    case Pixel(_, _, _) => 9
    case Eliminated(_) => 1
    case GameOver => 0
  }

  /** The length of the event on the wire: length field, number, type, data and checksum. */
  function EventSize(e: Event): nat {
    4 + 4 + 1 + DataSize(e.data) + 4
  }

  /** An event as the server constructs it: the length field is narrowed to 32 bits. */
  function MakeEvent(no: uint32, data: EventData): Event {
    Event((5 + DataSize(data)) % WRAP, no, data)
  }

  function EncodeNames(names: seq<Name>): (s: seq<byte>)
    ensures |s| == NamesSize(names)
  {
    if names == [] then [] else names[0] + [0] + EncodeNames(names[1..])
  }

  function EncodeData(data: EventData): (s: seq<byte>)
    ensures |s| == DataSize(data)
  {
    match data
    case NewGame(maxx, maxy, players) => Be32(maxx) + Be32(maxy) + EncodeNames(players)
    case Pixel(player, x, y) => [player] + Be32(x) + Be32(y)
    case Eliminated(player) => [player]
    case GameOver => []
  }

  /** Everything the checksum covers, when the length field is that of the data. */
  function EncodeBody(e: Event): (s: seq<byte>)
    ensures |s| == 9 + DataSize(e.data)
  {
    Be32(e.len) + Be32(e.no) + [TypeNumber(e.data)] + EncodeData(e.data)
  }

  function EncodeEvent(crc: Checksum, e: Event): (s: seq<byte>)
    ensures |s| == EventSize(e)
  {
    EncodeBody(e) + Be32(crc.sum(EncodeBody(e)))
  }

  predicate NoNul(name: Name) {
    0 !in name
  }

  /** What the server makes and a datagram can hold. */
  predicate Packable(e: Event) {
    && e.len == 5 + DataSize(e.data)
    && 4 + EventSize(e) <= MAX_DATA_SIZE
    && (e.data.NewGame? ==> forall name <- e.data.players :: NoNul(name))
  }

  // ---------- parsing ----------

  /** Subtraction of uint32_t. */
  function Minus32(a: uint32, b: nat): uint32 {
    if b <= a then a - b else (a - b) % WRAP
  }

  lemma Minus32Wraps(a: uint32, b: nat)
    ensures Minus32(a, b) == (a - b) % WRAP
    ensures a < b <= WRAP ==> Minus32(a, b) == WRAP + a - b
  {}

  function ReadByte(d: seq<byte>, pos: nat): Option<byte>
    requires pos <= |d|
  {
    if |d| - pos < 1 then None else Some(d[pos])
  }

  function Read32(d: seq<byte>, pos: nat): Option<uint32>
    requires pos <= |d|
  {
    if |d| - pos < 4 then None else Some(FromBe32(d[pos..pos + 4]))
  }

  function Read64(d: seq<byte>, pos: nat): Option<uint64>
    requires pos <= |d|
  {
    if |d| - pos < 8 then None else Some(FromBe64(d[pos..pos + 8]))
  }

  /** A name runs up to a NUL, which is consumed and not kept. */
  function ReadName(d: seq<byte>, pos: nat): (r: Option<Name>)
    requires pos <= |d|
    ensures r.Some? ==> pos + |r.value| + 1 <= |d|
    decreases |d| - pos
  {
    if pos == |d| then None
    else if d[pos] == 0 then Some([])
    else
      match ReadName(d, pos + 1)
      case None => None
      case Some(rest) => Some([d[pos]] + rest)
  }

  datatype Names = Names(names: seq<Name>, pos: nat, left: uint32)

  /** The name loop of NEW_GAME: left counts the bytes still declared, and wraps when a name overruns them. */
  function ReadNames(d: seq<byte>, pos: nat, left: uint32): (r: Option<Names>)
    requires pos <= |d|
    ensures r.Some? ==> pos <= r.value.pos <= |d|
    decreases |d| - pos
  {
    if !(0 < left < MAX_DATA_SIZE) then Some(Names([], pos, left))
    else
      match ReadName(d, pos)
      case None => None
      case Some(name) =>
        match ReadNames(d, pos + |name| + 1, Minus32(left, |name| + 1))
        case None => None
        case Some(rest) => Some(rest.(names := [name] + rest.names))
  }

  datatype Data = Data(data: EventData, pos: nat)

  function ReadNewGame(d: seq<byte>, pos: nat, len: uint32): (r: Option<Data>)
    requires pos <= |d|
    ensures r.Some? ==> pos <= r.value.pos <= |d|
  {
    match Read32(d, pos)
    case None => None
    case Some(maxx) =>
      match Read32(d, pos + 4)
      case None => None
      case Some(maxy) =>
        match ReadNames(d, pos + 8, Minus32(len, 8))
        case None => None
        case Some(r) => Some(Data(NewGame(maxx, maxy, r.names), r.pos))
  }

  function ReadPixel(d: seq<byte>, pos: nat): (r: Option<Data>)
    requires pos <= |d|
    ensures r.Some? ==> pos <= r.value.pos <= |d|
  {
    match ReadByte(d, pos)
    case None => None
    case Some(player) =>
      match Read32(d, pos + 1)
      case None => None
      case Some(x) =>
        match Read32(d, pos + 5)
        case None => None
        case Some(y) => Some(Data(Pixel(player, x, y), pos + 9))
  }

  function ReadEliminated(d: seq<byte>, pos: nat): (r: Option<Data>)
    requires pos <= |d|
    ensures r.Some? ==> pos <= r.value.pos <= |d|
  {
    match ReadByte(d, pos)
    case None => None
    case Some(player) => Some(Data(Eliminated(player), pos + 1))
  }

  predicate KnownType(t: byte) {
    t <= 3
  }

  /** len is what the event's length field leaves for the data; only NEW_GAME looks at it. */
  function ReadData(d: seq<byte>, pos: nat, t: byte, len: uint32): (r: Option<Data>)
    requires pos <= |d| && KnownType(t)
    ensures r.Some? ==> pos <= r.value.pos <= |d|
  {
    match t
    case 0 => ReadNewGame(d, pos, len)
    case 1 => ReadPixel(d, pos)
    case 2 => ReadEliminated(d, pos)
    case _ => Some(Data(GameOver, pos))
  }

  /** What one attempt to unpack an event comes to. The last two are exceptions that carry no position. */
  datatype Attempt =
    | Got(event: Event, pos: nat)
    | UnknownType(pos: nat)
    | CrcMismatch
    | BadData

  /** The checksum covers the length field and as many bytes after it as the field says. */
  predicate CrcMatches(crc: Checksum, d: seq<byte>, pos: nat, len: uint32)
    requires pos + 4 + len + 4 <= |d|
  {
    crc.sum(d[pos..pos + 4 + len]) == FromBe32(d[pos + 4 + len..pos + 4 + len + 4])
  }

  function UnpackChecked(d: seq<byte>, pos: nat, len: uint32): (r: Attempt)
    requires pos <= |d|
    ensures r.Got? ==> pos < r.pos <= |d|
    ensures r.UnknownType? ==> pos < r.pos <= |d|
    ensures !r.CrcMismatch?
  {
    match Read32(d, pos)
    case None => BadData
    case Some(no) =>
      match ReadByte(d, pos + 4)
      case None => BadData
      case Some(t) =>
        if !KnownType(t) then UnknownType(pos + 5)
        else
          match ReadData(d, pos + 5, t, Minus32(len, 5))
          case None => BadData
          case Some(r) =>
            match Read32(d, r.pos)
            case None => BadData
            case Some(crc) => Got(Event(len, no, r.data), r.pos + 4)
  }

  function UnpackEvent(crc: Checksum, d: seq<byte>, pos: nat): (r: Attempt)
    requires pos <= |d|
    ensures r.Got? ==> pos < r.pos <= |d|
    ensures r.UnknownType? ==> pos < r.pos <= |d|
  {
    match Read32(d, pos)
    case None => BadData
    case Some(len) =>
      if pos + 4 + len + 4 > |d| then BadData
      else if !CrcMatches(crc, d, pos, len) then CrcMismatch
      else UnpackChecked(d, pos + 4, len)
  }

  // ---------- the name counter ----------

  lemma ReadNamesCons(d: seq<byte>, pos: nat, left: uint32) returns (name: Name, rest: Names)
    requires pos <= |d| && |d| <= MAX_DATA_SIZE && 0 < left < MAX_DATA_SIZE
    requires ReadNames(d, pos, left).Some?
    ensures ReadName(d, pos) == Some(name) && pos + |name| + 1 <= |d|
    ensures ReadNames(d, pos, left) == Some(Names([name] + rest.names, rest.pos, rest.left))
    ensures |name| + 1 <= left ==> ReadNames(d, pos + |name| + 1, left - |name| - 1) == Some(rest)
    ensures |name| + 1 > left ==> rest == Names([], pos + |name| + 1, WRAP + left - |name| - 1)
  {
    name := ReadName(d, pos).value;
    Minus32Wraps(left, |name| + 1);
    rest := ReadNames(d, pos + |name| + 1, Minus32(left, |name| + 1)).value;
  }

  /** The 32-bit counter comes out as zero exactly when the names tile the declared length;
      names that overrun it leave a counter far above the loop bound. */
  lemma {:induction false} NameCounter(d: seq<byte>, pos: nat, left: uint32)
    requires pos <= |d| && |d| <= MAX_DATA_SIZE && left < MAX_DATA_SIZE
    requires ReadNames(d, pos, left).Some?
    ensures var r := ReadNames(d, pos, left).value;
            && r.pos - pos == NamesSize(r.names)
            && (r.left == 0 <==> NamesSize(r.names) == left)
            && (r.left != 0 ==> NamesSize(r.names) > left && r.left == WRAP + left - NamesSize(r.names) > MAX_DATA_SIZE)
    decreases |d| - pos
  {
    if 0 < left {
      var name, rest := ReadNamesCons(d, pos, left);
      assert ([name] + rest.names)[1..] == rest.names;
      if |name| + 1 <= left {
        NameCounter(d, pos + |name| + 1, left - |name| - 1);
      }
    }
  }

  // ---------- round trips ----------

  /** s stands in d at pos. */
  predicate At(d: seq<byte>, pos: nat, s: seq<byte>) {
    pos + |s| <= |d| && d[pos..pos + |s|] == s
  }

  lemma AtSplit(d: seq<byte>, pos: nat, a: seq<byte>, b: seq<byte>)
    requires At(d, pos, a + b)
    ensures At(d, pos, a) && At(d, pos + |a|, b)
  {
    var s := d[pos..pos + |a + b|];
    assert d[pos..pos + |a|] == s[..|a|] == a;
    assert d[pos + |a|..pos + |a| + |b|] == s[|a|..] == b;
  }

  lemma Read32At(d: seq<byte>, pos: nat, x: uint32)
    requires At(d, pos, Be32(x))
    ensures Read32(d, pos) == Some(x)
  {
    Be32RoundTrip(x);
  }

  lemma ReadByteAt(d: seq<byte>, pos: nat, b: byte)
    requires At(d, pos, [b])
    ensures ReadByte(d, pos) == Some(b)
  {
    assert d[pos] == d[pos..pos + 1][0];
  }

  lemma {:induction false} ReadNameAt(d: seq<byte>, pos: nat, name: Name)
    requires At(d, pos, name + [0]) && NoNul(name)
    ensures ReadName(d, pos) == Some(name)
    decreases |name|
  {
    if name == [] {
      assert name + [0] == [0];
      ReadByteAt(d, pos, 0);
    } else {
      assert name + [0] == [name[0]] + (name[1..] + [0]);
      AtSplit(d, pos, [name[0]], name[1..] + [0]);
      ReadByteAt(d, pos, name[0]);
      assert name[0] in name && name == [name[0]] + name[1..];
      ReadNameAt(d, pos + 1, name[1..]);
    }
  }

  /** The state of the name loop once the declared bytes are used up. */
  function AllRead(names: seq<Name>, pos: nat): Names {
    Names(names, pos, 0)
  }

  lemma ReadNamesStep(d: seq<byte>, pos: nat, left: uint32, name: Name, rest: Names)
    requires pos <= |d| && 0 < left < MAX_DATA_SIZE && |name| + 1 <= left
    requires ReadName(d, pos) == Some(name)
    requires ReadNames(d, pos + |name| + 1, left - |name| - 1) == Some(rest)
    ensures ReadNames(d, pos, left) == Some(rest.(names := [name] + rest.names))
  {
  }

  /** The first of some names, and where the others stand. */
  lemma FirstNameAt(d: seq<byte>, pos: nat, name: Name, more: seq<Name>, left: nat)
    requires At(d, pos, EncodeNames([name] + more)) && NamesSize([name] + more) == left && NoNul(name)
    ensures ReadName(d, pos) == Some(name)
    ensures NamesSize(more) == left - |name| - 1 && At(d, pos + |name| + 1, EncodeNames(more))
  {
    assert ([name] + more)[1..] == more;
    AtSplit(d, pos, name + [0], EncodeNames(more));
    ReadNameAt(d, pos, name);
  }

  /** The names can be read one behind the other. */
  predicate NamesFollow(d: seq<byte>, pos: nat, names: seq<Name>)
    decreases |names|
  {
    names == [] ||
    (pos <= |d| && ReadName(d, pos) == Some(names[0]) && NamesFollow(d, pos + |names[0]| + 1, names[1..]))
  }

  lemma {:induction false} EncodedNamesFollow(d: seq<byte>, pos: nat, names: seq<Name>)
    requires At(d, pos, EncodeNames(names)) && forall name <- names :: NoNul(name)
    ensures NamesFollow(d, pos, names)
    decreases |names|
  {
    if names != [] {
      assert names == [names[0]] + names[1..];
      FirstNameAt(d, pos, names[0], names[1..], NamesSize(names));
      EncodedNamesFollow(d, pos + |names[0]| + 1, names[1..]);
    }
  }

  lemma {:induction false} ReadNamesFollow(d: seq<byte>, pos: nat, names: seq<Name>, left: uint32, r: Names)
    requires pos + left <= |d| && NamesFollow(d, pos, names) && NamesSize(names) == left < MAX_DATA_SIZE
    requires r == AllRead(names, pos + left)
    ensures ReadNames(d, pos, left) == Some(r)
    decreases |names|
  {
    if names != [] {
      var name, more := names[0], names[1..];
      var rest := AllRead(more, pos + left);
      ReadNamesFollow(d, pos + |name| + 1, more, left - |name| - 1, rest);
      ReadNamesStep(d, pos, left, name, rest);
      assert names == [name] + more;
    }
  }

  lemma ReadNamesAt(d: seq<byte>, pos: nat, names: seq<Name>, left: uint32)
    requires At(d, pos, EncodeNames(names)) && NamesSize(names) == left < MAX_DATA_SIZE
    requires forall name <- names :: NoNul(name)
    ensures ReadNames(d, pos, left) == Some(AllRead(names, pos + left))
  {
    EncodedNamesFollow(d, pos, names);
    ReadNamesFollow(d, pos, names, left, AllRead(names, pos + left));
  }

  lemma NewGameSplit(d: seq<byte>, pos: nat, x: seq<byte>, y: seq<byte>, names: seq<byte>)
    requires |x| == |y| == 4 && At(d, pos, x + y + names)
    ensures At(d, pos, x) && At(d, pos + 4, y) && At(d, pos + 8, names)
  {
    AtSplit(d, pos, x + y, names);
    AtSplit(d, pos, x, y);
  }

  lemma ReadNewGameAt(d: seq<byte>, pos: nat, maxx: uint32, maxy: uint32, players: seq<Name>, n: nat)
    requires n == NamesSize(players) && 8 + n < MAX_DATA_SIZE
    requires pos + 8 <= |d| && Read32(d, pos) == Some(maxx) && Read32(d, pos + 4) == Some(maxy)
    requires At(d, pos + 8, EncodeNames(players)) && forall name <- players :: NoNul(name)
    ensures ReadNewGame(d, pos, 8 + n) == Some(Data(NewGame(maxx, maxy, players), pos + 8 + n))
  {
    ReadNamesAt(d, pos + 8, players, n);
  }

  lemma ReadPixelAt(d: seq<byte>, pos: nat, player: byte, x: uint32, y: uint32)
    requires At(d, pos, EncodeData(Pixel(player, x, y)))
    ensures ReadPixel(d, pos) == Some(Data(Pixel(player, x, y), pos + 9))
  {
    AtSplit(d, pos, [player] + Be32(x), Be32(y));
    AtSplit(d, pos, [player], Be32(x));
    ReadByteAt(d, pos, player);
    Read32At(d, pos + 1, x);
    Read32At(d, pos + 5, y);
  }

  lemma ReadDataAt(d: seq<byte>, pos: nat, data: EventData)
    requires At(d, pos, EncodeData(data)) && DataSize(data) < MAX_DATA_SIZE
    requires data.NewGame? ==> forall name <- data.players :: NoNul(name)
    ensures ReadData(d, pos, TypeNumber(data), DataSize(data)) == Some(Data(data, pos + DataSize(data)))
  {
    match data
    case NewGame(maxx, maxy, players) =>
      NewGameSplit(d, pos, Be32(maxx), Be32(maxy), EncodeNames(players));
      Read32At(d, pos, maxx);
      Read32At(d, pos + 4, maxy);
      ReadNewGameAt(d, pos, maxx, maxy, players, NamesSize(players));
    case Pixel(player, x, y) => ReadPixelAt(d, pos, player, x, y);
    case Eliminated(player) => ReadByteAt(d, pos, player);
    case GameOver =>
  }

  lemma ChecksumAt(crc: Checksum, d: seq<byte>, pos: nat, body: seq<byte>, len: uint32)
    requires |body| == 4 + len && At(d, pos, body + Be32(crc.sum(body)))
    ensures CrcMatches(crc, d, pos, len)
  {
    AtSplit(d, pos, body, Be32(crc.sum(body)));
    Be32RoundTrip(crc.sum(body));
  }

  lemma CheckedRoundTrip(d: seq<byte>, pos: nat, e: Event, sum: uint32)
    requires Packable(e)
    requires At(d, pos, Be32(e.no)) && At(d, pos + 4, [TypeNumber(e.data)])
    requires At(d, pos + 5, EncodeData(e.data)) && At(d, pos + 5 + DataSize(e.data), Be32(sum))
    ensures UnpackChecked(d, pos, e.len) == Got(e, pos + 5 + DataSize(e.data) + 4)
  {
    Read32At(d, pos, e.no);
    ReadByteAt(d, pos + 4, TypeNumber(e.data));
    ReadDataAt(d, pos + 5, e.data);
    Read32At(d, pos + 5 + DataSize(e.data), sum);
  }

  lemma FieldsSplit(d: seq<byte>, pos: nat, e: Event, sum: uint32)
    requires At(d, pos, Be32(e.no) + [TypeNumber(e.data)] + EncodeData(e.data) + Be32(sum))
    ensures At(d, pos, Be32(e.no)) && At(d, pos + 4, [TypeNumber(e.data)])
    ensures At(d, pos + 5, EncodeData(e.data)) && At(d, pos + 5 + DataSize(e.data), Be32(sum))
  {
    AtSplit(d, pos, Be32(e.no) + [TypeNumber(e.data)] + EncodeData(e.data), Be32(sum));
    AtSplit(d, pos, Be32(e.no) + [TypeNumber(e.data)], EncodeData(e.data));
    AtSplit(d, pos, Be32(e.no), [TypeNumber(e.data)]);
  }

  lemma EncodeEventFields(crc: Checksum, e: Event)
    ensures EncodeEvent(crc, e) == Be32(e.len) + (Be32(e.no) + [TypeNumber(e.data)] + EncodeData(e.data)
                                             + Be32(crc.sum(EncodeBody(e))))
  {}

  /** Where the fields of a packed event stand. */
  lemma EventFieldsAt(crc: Checksum, d: seq<byte>, pos: nat, e: Event)
    requires Packable(e) && At(d, pos, EncodeEvent(crc, e))
    ensures Read32(d, pos) == Some(e.len)
    ensures CrcMatches(crc, d, pos, e.len)
    ensures At(d, pos + 4, Be32(e.no) + [TypeNumber(e.data)] + EncodeData(e.data) + Be32(crc.sum(EncodeBody(e))))
  {
    ChecksumAt(crc, d, pos, EncodeBody(e), e.len);
    EncodeEventFields(crc, e);
    AtSplit(d, pos, Be32(e.len), Be32(e.no) + [TypeNumber(e.data)] + EncodeData(e.data)
                                 + Be32(crc.sum(EncodeBody(e))));
    Read32At(d, pos, e.len);
  }

  lemma BodyRead(d: seq<byte>, pos: nat, e: Event, sum: uint32)
    requires Packable(e) && At(d, pos, Be32(e.no) + [TypeNumber(e.data)] + EncodeData(e.data) + Be32(sum))
    ensures UnpackChecked(d, pos, e.len) == Got(e, pos + 5 + DataSize(e.data) + 4)
  {
    FieldsSplit(d, pos, e, sum);
    CheckedRoundTrip(d, pos, e, sum);
  }

  /** An event anywhere in a datagram is read back exactly as the server packed it. */
  lemma EventRoundTrip(crc: Checksum, d: seq<byte>, pos: nat, e: Event)
    requires Packable(e) && At(d, pos, EncodeEvent(crc, e))
    ensures UnpackEvent(crc, d, pos) == Got(e, pos + EventSize(e))
  {
    EventFieldsAt(crc, d, pos, e);
    BodyRead(d, pos + 4, e, crc.sum(EncodeBody(e)));
  }

  lemma DamageMismatch(d: seq<byte>, damaged: seq<byte>, pos: nat, len: uint32, from: nat)
    requires |damaged| == |d| && pos + 4 + len + 4 <= |d| && CrcMatches(CRC32(), d, pos, len)
    requires damaged[pos + 4 + len..pos + 4 + len + 4] == d[pos + 4 + len..pos + 4 + len + 4]
    requires Crc32.DifferInBurst(d[pos..pos + 4 + len], damaged[pos..pos + 4 + len], from)
    ensures !CrcMatches(CRC32(), damaged, pos, len)
  {
    Crc32.BurstDetected(d[pos..pos + 4 + len], damaged[pos..pos + 4 + len], from);
  }

  lemma MismatchRejects(crc: Checksum, d: seq<byte>, damaged: seq<byte>, pos: nat, len: uint32)
    requires |damaged| == |d| && pos + 4 + len + 4 <= |d|
    requires Read32(d, pos) == Some(len) && damaged[pos..pos + 4] == d[pos..pos + 4]
    requires !CrcMatches(crc, damaged, pos, len)
    ensures UnpackEvent(crc, damaged, pos) == CrcMismatch
  {}

  /** Damage of up to 32 consecutive bits between the length field and an intact checksum never yields an event: the
      datagram is dropped from there on. */
  lemma DamageRejected(d: seq<byte>, damaged: seq<byte>, pos: nat, e: Event, from: nat, covered: nat)
    requires Packable(e) && At(d, pos, EncodeEvent(CRC32(), e)) && |damaged| == |d| && covered == pos + 4 + e.len
    requires damaged[pos..pos + 4] == d[pos..pos + 4]
    requires damaged[covered..covered + 4] == d[covered..covered + 4]
    requires Crc32.DifferInBurst(d[pos..covered], damaged[pos..covered], from)
    ensures UnpackEvent(CRC32(), damaged, pos) == CrcMismatch
  {
    EventFieldsAt(CRC32(), d, pos, e);
    DamageMismatch(d, damaged, pos, e.len, from);
    MismatchRejects(CRC32(), d, damaged, pos, e.len);
  }

  // ---------- heartbeats ----------

  type Direction = byte

  const STRAIGHT: Direction := 0
  const RIGHT: Direction := 1
  const LEFT: Direction := 2

  datatype Heartbeat = Heartbeat(session: uint64, direction: byte, next: uint32, name: Name)

  function EncodeHeartbeat(h: Heartbeat): (s: seq<byte>)
    ensures |s| == 13 + |h.name|
  {
    Be64(h.session) + [h.direction] + Be32(h.next) + h.name
  }

  function DecodeHeartbeat(d: seq<byte>): Option<Heartbeat> {
    match Read64(d, 0)
    case None => None
    case Some(session) =>
      match ReadByte(d, 8)
      case None => None
      case Some(direction) =>
        match Read32(d, 9)
        case None => None
        case Some(next) => Some(Heartbeat(session, direction, next, d[13..]))
  }

  /** Heartbeats are read back as packed; anything of 13 bytes or more reads as exactly one heartbeat. */
  lemma HeartbeatRoundTrip(h: Heartbeat)
    ensures DecodeHeartbeat(EncodeHeartbeat(h)) == Some(h)
  {
    var d := EncodeHeartbeat(h);
    assert d[0..0 + |d|] == d;
    AtSplit(d, 0, Be64(h.session) + [h.direction] + Be32(h.next), h.name);
    AtSplit(d, 0, Be64(h.session) + [h.direction], Be32(h.next));
    AtSplit(d, 0, Be64(h.session), [h.direction]);
    Be64RoundTrip(h.session);
    ReadByteAt(d, 8, h.direction);
    Read32At(d, 9, h.next);
  }

  lemma Be64Inverse(s: seq<byte>)
    requires |s| == 8
    ensures Be64(FromBe64(s)) == s
  {
    var h: uint32, l: uint32 := FromBe32(s[..4]), FromBe32(s[4..]);
    assert FromBe64(s) / WRAP == h && FromBe64(s) % WRAP == l;
    Be32Inverse(s[..4]);
    Be32Inverse(s[4..]);
    assert s == s[..4] + s[4..];
  }

  lemma HeartbeatUnique(d: seq<byte>)
    ensures DecodeHeartbeat(d).Some? <==> |d| >= 13
    ensures |d| >= 13 ==> EncodeHeartbeat(DecodeHeartbeat(d).value) == d
  {
    if |d| >= 13 {
      Be64Inverse(d[0..8]);
      Be32Inverse(d[9..13]);
      assert d == d[0..8] + [d[8]] + d[9..13] + d[13..];
    }
  }
}
