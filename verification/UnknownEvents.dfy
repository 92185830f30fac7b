/** Events of types the client does not know: Common/Event.h throws them away, Client/Client.cpp goes on reading. */
module UnknownEvents {
  import opened Bytes
  import opened Wire
  import opened Datagrams

  // ---------- the reading as it is meant ----------

  /** Where the event at pos ends, by its length field. */
  function EventEnd(d: seq<byte>, pos: nat): nat
    requires pos <= |d| && Read32(d, pos).Some?
  {
    pos + 4 + Read32(d, pos).value + 4
  }

  lemma EndInside(crc: Checksum, d: seq<byte>, pos: nat)
    requires pos <= |d| && UnpackEvent(crc, d, pos).UnknownType?
    ensures Read32(d, pos).Some? && pos < EventEnd(d, pos) <= |d|
  {}

  /** ParseEvents with that line repaired: the rest of an event of an unknown type is skipped. */
  function ParseSkipping(crc: Checksum, d: seq<byte>, pos: nat): Parsed
    requires pos <= |d|
    decreases |d| - pos
  {
    if pos == |d| then Parsed([], Exhausted)
    else
      match UnpackEvent(crc, d, pos)
      case Got(e, next) => var rest := ParseSkipping(crc, d, next); rest.(events := [e] + rest.events)
      case UnknownType(_) =>
        EndInside(crc, d, pos);
        ParseSkipping(crc, d, EventEnd(d, pos))
      case CrcMismatch => Parsed([], Discarded)
      case BadData => Parsed([], Fatal)
  }

  /** What a server of a later version might put into a datagram. */
  datatype Item = Known(event: Event) | Unknown(no: uint32, kind: byte, data: seq<byte>)

  predicate ItemOk(item: Item) {
    match item
    case Known(e) => Packable(e)
    case Unknown(_, kind, data) => !KnownType(kind) && 5 + |data| < WRAP
  }

  function UnknownBody(no: uint32, kind: byte, data: seq<byte>): seq<byte>
    requires 5 + |data| < WRAP
  {
    Be32(5 + |data|) + (Be32(no) + [kind] + data)
  }

  function EncodeItem(crc: Checksum, item: Item): (s: seq<byte>)
    requires ItemOk(item)
    ensures s != []
  {
    match item
    case Known(e) => EncodeEvent(crc, e)
    case Unknown(no, kind, data) =>
      var body := UnknownBody(no, kind, data);
      body + Be32(crc.sum(body))
  }

  predicate ItemsOk(items: seq<Item>) {
    forall i :: 0 <= i < |items| ==> ItemOk(items[i])
  }

  function EncodeItems(crc: Checksum, items: seq<Item>): seq<byte>
    requires ItemsOk(items)
  {
    if items == [] then [] else EncodeItem(crc, items[0]) + EncodeItems(crc, items[1..])
  }

  function KnownOf(items: seq<Item>): seq<Event> {
    if items == [] then []
    else (if items[0].Known? then [items[0].event] else []) + KnownOf(items[1..])
  }

  lemma UnknownFieldsAt(crc: Checksum, d: seq<byte>, pos: nat, no: uint32, kind: byte, data: seq<byte>)
    requires 5 + |data| < WRAP
    requires var body := UnknownBody(no, kind, data); At(d, pos, body + Be32(crc.sum(body)))
    ensures Read32(d, pos) == Some(5 + |data|) && CrcMatches(crc, d, pos, 5 + |data|)
    ensures Read32(d, pos + 4) == Some(no) && ReadByte(d, pos + 8) == Some(kind)
  {
    var body := UnknownBody(no, kind, data);
    ChecksumAt(crc, d, pos, body, 5 + |data|);
    AtSplit(d, pos, body, Be32(crc.sum(body)));
    AtSplit(d, pos, Be32(5 + |data|), Be32(no) + [kind] + data);
    AtSplit(d, pos + 4, Be32(no) + [kind], data);
    AtSplit(d, pos + 4, Be32(no), [kind]);
    Read32At(d, pos, 5 + |data|);
    Read32At(d, pos + 4, no);
    ReadByteAt(d, pos + 8, kind);
  }

  lemma UnknownAt(crc: Checksum, d: seq<byte>, pos: nat, item: Item, next: nat)
    requires item.Unknown? && ItemOk(item) && At(d, pos, EncodeItem(crc, item))
    requires next == pos + |EncodeItem(crc, item)|
    ensures UnpackEvent(crc, d, pos) == UnknownType(pos + 9) && EventEnd(d, pos) == next
  {
    UnknownFieldsAt(crc, d, pos, item.no, item.kind, item.data);
  }

  lemma {:induction false} SkippingAt(crc: Checksum, d: seq<byte>, pos: nat, items: seq<Item>)
    requires ItemsOk(items) && pos + |EncodeItems(crc, items)| == |d| && At(d, pos, EncodeItems(crc, items))
    ensures ParseSkipping(crc, d, pos) == Parsed(KnownOf(items), Exhausted)
    decreases |items|
  {
    if items != [] {
      var item, rest := items[0], items[1..];
      var first := EncodeItem(crc, item);
      var next := pos + |first|;
      AtSplit(d, pos, first, EncodeItems(crc, rest));
      SkippingAt(crc, d, next, rest);
      match item
      case Known(e) => GotAt(crc, d, pos, e, next);
      case Unknown(_, _, _) => UnknownAt(crc, d, pos, item, next);
    }
  }

  /** With the repair, events of unknown types may stand anywhere in a datagram: exactly the others are read. */
  lemma SkippingRoundTrip(crc: Checksum, gameId: uint32, items: seq<Item>)
    requires ItemsOk(items)
    ensures ParseSkipping(crc, Be32(gameId) + EncodeItems(crc, items), 4) == Parsed(KnownOf(items), Exhausted)
  {
    var d := Be32(gameId) + EncodeItems(crc, items);
    assert d[0..0 + |d|] == d;
    AtSplit(d, 0, Be32(gameId), EncodeItems(crc, items));
    SkippingAt(crc, d, 4, items);
  }

  /** And where all types are known, the repair changes nothing. */
  lemma {:induction false} SkippingSame(crc: Checksum, gameId: uint32, events: seq<Event>)
    requires AllPackable(events)
    ensures var d := Datagram(crc, gameId, events); ParseSkipping(crc, d, 4) == ParseEvents(crc, d, 4)
  {
    var items := seq(|events|, i requires 0 <= i < |events| => Known(events[i]));
    KnownItems(crc, events, items);
    SkippingRoundTrip(crc, gameId, items);
    DatagramRoundTrip(crc, gameId, events);
  }

  lemma {:induction false} KnownItems(crc: Checksum, events: seq<Event>, items: seq<Item>)
    requires AllPackable(events) && |items| == |events|
    requires forall i :: 0 <= i < |items| ==> items[i] == Known(events[i])
    ensures EncodeItems(crc, items) == EncodeAll(crc, events) && KnownOf(items) == events
    decreases |events|
  {
    if events != [] {
      KnownItems(crc, events[1..], items[1..]);
      assert events == [events[0]] + events[1..];
    }
  }

  // ---------- the code, exactly ----------

  /** From pos to end the code finds nothing but heads of nine bytes that pass for events of unknown types. */
  predicate Nines(crc: Checksum, d: seq<byte>, pos: nat, end: nat)
    requires end <= |d|
    decreases end - pos
  {
    pos == end || (pos + 9 <= end && UnpackEvent(crc, d, pos).UnknownType? && Nines(crc, d, pos + 9, end))
  }

  lemma UnknownTakesNine(crc: Checksum, d: seq<byte>, pos: nat)
    requires pos <= |d| && UnpackEvent(crc, d, pos).UnknownType?
    ensures UnpackEvent(crc, d, pos) == UnknownType(pos + 9)
  {}

  lemma {:induction false} NinesPassed(crc: Checksum, d: seq<byte>, pos: nat, end: nat)
    requires end <= |d| && pos <= end && Nines(crc, d, pos, end)
    ensures ParseEvents(crc, d, pos) == ParseEvents(crc, d, end)
    decreases end - pos
  {
    if pos < end {
      UnknownTakesNine(crc, d, pos);
      NinesPassed(crc, d, pos + 9, end);
    }
  }

  /** An event takes as many bytes as it would be packed in. */
  lemma GotSize(crc: Checksum, d: seq<byte>, pos: nat)
    requires pos <= |d| <= MAX_DATA_SIZE && UnpackEvent(crc, d, pos).Got?
    ensures var a := UnpackEvent(crc, d, pos); a.pos == pos + EventSize(a.event)
  {
    var a := UnpackEvent(crc, d, pos);
    var len := Read32(d, pos).value;
    var t := ReadByte(d, pos + 8).value;
    if t == 0 {
      var r := ReadNewGame(d, pos + 9, Minus32(len, 5)).value;
      NamesTake(d, pos + 17, Minus32(Minus32(len, 5), 8));
    }
  }

  lemma NamesTake(d: seq<byte>, pos: nat, left: uint32)
    requires pos <= |d| <= MAX_DATA_SIZE && ReadNames(d, pos, left).Some?
    ensures var r := ReadNames(d, pos, left).value; r.pos == pos + NamesSize(r.names)
  {
    if left < MAX_DATA_SIZE {
      NameCounter(d, pos, left);
    }
  }

  function NinesTo(n: nat): nat {
    9 * n
  }

  /** Whatever is read to the end of a datagram, the bytes that make no event are a multiple of nine. */
  lemma {:induction false} RestInNines(crc: Checksum, d: seq<byte>, pos: nat) returns (n: nat)
    requires pos <= |d| <= MAX_DATA_SIZE && ParseEvents(crc, d, pos).ending.Exhausted?
    ensures |d| - pos == SizeAll(ParseEvents(crc, d, pos).events) + NinesTo(n)
    decreases |d| - pos
  {
    if pos == |d| {
      n := 0;
    } else {
      var a := UnpackEvent(crc, d, pos);
      if a.Got? {
        GotSize(crc, d, pos);
        n := RestInNines(crc, d, a.pos);
        ParsedCons(crc, d, pos, a.event, a.pos);
      } else {
        UnknownTakesNine(crc, d, pos);
        n := RestInNines(crc, d, pos + 9);
        n := n + 1;
      }
    }
  }

  lemma ParsedCons(crc: Checksum, d: seq<byte>, pos: nat, e: Event, next: nat)
    requires pos < next <= |d| && UnpackEvent(crc, d, pos) == Got(e, next)
    ensures ParseEvents(crc, d, pos).events == [e] + ParseEvents(crc, d, next).events
    ensures SizeAll(ParseEvents(crc, d, pos).events) == EventSize(e) + SizeAll(ParseEvents(crc, d, next).events)
  {
    var rest := ParseEvents(crc, d, next).events;
    assert ([e] + rest)[1..] == rest;
  }

  /** With no events in it, all of it is such heads. */
  lemma {:induction false} EmptyIsNines(crc: Checksum, d: seq<byte>, pos: nat)
    requires pos <= |d| && ParseEvents(crc, d, pos) == Parsed([], Exhausted)
    ensures Nines(crc, d, pos, |d|)
    decreases |d| - pos
  {
    if pos < |d| {
      UnknownTakesNine(crc, d, pos);
      EmptyIsNines(crc, d, pos + 9);
    }
  }

  lemma FourParts(d: seq<byte>, a: seq<byte>, b: seq<byte>, c: seq<byte>, e: seq<byte>, pos: nat, end: nat)
    requires d == a + b + c + e && pos == |a| + |b| && end == pos + |c|
    ensures At(d, |a|, b) && At(d, pos, c) && At(d, end, e) && |d| == end + |e|
  {
    assert d[|a|..pos] == b && d[pos..end] == c && d[end..] == e;
  }

  /** Where the unknown item of a datagram begins and ends. */
  lemma ItemPlace(crc: Checksum, d: seq<byte>, gameId: uint32, front: seq<Event>, item: Item, rest: seq<Event>,
                  pos: nat, end: nat)
    requires AllPackable(front) && ItemOk(item)
    requires d == Be32(gameId) + EncodeAll(crc, front) + EncodeItem(crc, item) + EncodeAll(crc, rest)
    requires pos == 4 + SizeAll(front) && end == pos + |EncodeItem(crc, item)|
    ensures At(d, 4, EncodeAll(crc, front)) && At(d, pos, EncodeItem(crc, item)) && At(d, end, EncodeAll(crc, rest))
    ensures |d| == end + SizeAll(rest)
  {
    FourParts(d, Be32(gameId), EncodeAll(crc, front), EncodeItem(crc, item), EncodeAll(crc, rest), pos, end);
  }

  function Behind(front: seq<Event>, parsed: Parsed): Parsed {
    parsed.(events := front + parsed.events)
  }

  lemma BehindTwo(e: Event, rest: seq<Event>, events: seq<Event>, parsed: Parsed)
    requires events == [e] + rest
    ensures Behind([e], Behind(rest, parsed)) == Behind(events, parsed)
  {
    Regroup([e], rest, parsed.events);
  }

  lemma ParsedOne(crc: Checksum, d: seq<byte>, pos: nat, e: Event, next: nat)
    requires pos < next <= |d| && UnpackEvent(crc, d, pos) == Got(e, next)
    ensures ParseEvents(crc, d, pos) == Behind([e], ParseEvents(crc, d, next))
  {}

  /** Known events before some place are read first. */
  lemma {:induction false} ReadUpTo(crc: Checksum, d: seq<byte>, pos: nat, events: seq<Event>, end: nat)
    requires AllPackable(events) && At(d, pos, EncodeAll(crc, events)) && end == pos + SizeAll(events)
    ensures end <= |d|
    ensures ParseEvents(crc, d, pos) == Behind(events, ParseEvents(crc, d, end))
    decreases |events|
  {
    if events == [] {
      assert [] + ParseEvents(crc, d, end).events == ParseEvents(crc, d, end).events;
    } else {
      var e, rest, next := events[0], events[1..], pos + EventSize(events[0]);
      assert events == [e] + rest;
      FirstEventAt(crc, d, pos, e, rest, next);
      ReadUpTo(crc, d, next, rest, end);
      ParsedOne(crc, d, pos, e, next);
      BehindTwo(e, rest, events, ParseEvents(crc, d, end));
    }
  }

  /** How the datagram is read as written, and how it should be. */
  lemma UnknownRead(crc: Checksum, d: seq<byte>, gameId: uint32, front: seq<Event>, item: Item, rest: seq<Event>,
                    pos: nat, end: nat)
    requires AllPackable(front) && AllPackable(rest) && item.Unknown? && ItemOk(item)
    requires d == Be32(gameId) + EncodeAll(crc, front) + EncodeItem(crc, item) + EncodeAll(crc, rest)
    requires pos == 4 + SizeAll(front) && end == pos + |EncodeItem(crc, item)|
    ensures pos + 9 <= end && |d| == end + SizeAll(rest)
    ensures ParseEvents(crc, d, 4) == Behind(front, ParseEvents(crc, d, pos + 9))
    ensures ParseEvents(crc, d, end) == Parsed(rest, Exhausted)
  {
    ItemPlace(crc, d, gameId, front, item, rest, pos, end);
    ReadUpTo(crc, d, 4, front, pos);
    UnknownAt(crc, d, pos, item, end);
    ParseEventsAt(crc, d, end, rest);
  }

  lemma FrontCancels(front: seq<Event>, r: Parsed, rest: seq<Event>)
    ensures Behind(front, r) == Parsed(front + rest, Exhausted) <==> r == Parsed(rest, Exhausted)
  {
    if front + r.events == front + rest {
      assert r.events == (front + r.events)[|front|..] == (front + rest)[|front|..] == rest;
    }
  }

  lemma Nine(n: nat, left: nat, size: nat)
    requires left == size + NinesTo(n)
    ensures size <= left && (left - size) % 9 == 0
  {}

  lemma PassedInNines(crc: Checksum, d: seq<byte>, pos: nat, parsed: Parsed, size: nat)
    requires pos <= |d| <= MAX_DATA_SIZE && parsed == ParseEvents(crc, d, pos) && parsed.ending.Exhausted?
    requires size == SizeAll(parsed.events)
    ensures size <= |d| - pos && (|d| - pos - size) % 9 == 0
  {
    var n := RestInNines(crc, d, pos);
    Nine(n, |d| - pos, size);
  }

  // The same, about what is read from behind the head of the unknown event on.

  lemma NinesSuffice(crc: Checksum, d: seq<byte>, from: nat, end: nat, parsed: Parsed, rest: Parsed)
    requires from <= end <= |d| && parsed == ParseEvents(crc, d, from) && rest == ParseEvents(crc, d, end)
    ensures Nines(crc, d, from, end) ==> parsed == rest
  {
    if Nines(crc, d, from, end) {
      NinesPassed(crc, d, from, end);
    }
  }

  lemma NinesNeeded(crc: Checksum, d: seq<byte>, from: nat, end: nat, parsed: Parsed, rest: Parsed)
    requires from <= end <= |d| <= MAX_DATA_SIZE && parsed == ParseEvents(crc, d, from)
    requires rest.ending.Exhausted? && |d| == end + SizeAll(rest.events)
    ensures parsed == rest ==> (end - from) % 9 == 0
  {
    if parsed == rest {
      PassedInNines(crc, d, from, parsed, SizeAll(rest.events));
    }
  }

  lemma LastNeedsNines(crc: Checksum, d: seq<byte>, from: nat, parsed: Parsed)
    requires from <= |d| && parsed == ParseEvents(crc, d, from)
    ensures parsed == Parsed([], Exhausted) ==> Nines(crc, d, from, |d|)
  {
    if parsed == Parsed([], Exhausted) {
      EmptyIsNines(crc, d, from);
    }
  }

  /** A datagram with one event of an unknown type among known ones. As written the right events are read from it, to
      its end, only if the length of its data and checksum is a multiple of nine; they are if it falls into heads that
      each pass for an event of an unknown type; and when it comes last, exactly then. */
  lemma UnknownPassedExactly(crc: Checksum, d: seq<byte>, gameId: uint32, front: seq<Event>, item: Item,
                             rest: seq<Event>, pos: nat, end: nat)
    requires AllPackable(front) && AllPackable(rest) && item.Unknown? && ItemOk(item) && |d| <= MAX_DATA_SIZE
    requires d == Be32(gameId) + EncodeAll(crc, front) + EncodeItem(crc, item) + EncodeAll(crc, rest)
    requires pos == 4 + SizeAll(front) && end == pos + |EncodeItem(crc, item)| <= |d|
    ensures Nines(crc, d, pos + 9, end) ==> ParseEvents(crc, d, 4) == Parsed(front + rest, Exhausted)
    ensures ParseEvents(crc, d, 4) == Parsed(front + rest, Exhausted) ==> (|item.data| + 4) % 9 == 0
    ensures rest == [] ==>
              (ParseEvents(crc, d, 4) == Parsed(front + rest, Exhausted) <==> Nines(crc, d, pos + 9, end))
  {
    var next := pos + 9;
    UnknownRead(crc, d, gameId, front, item, rest, pos, end);
    FrontCancels(front, ParseEvents(crc, d, next), rest);
    RestNines(crc, d, next, end, rest, ParseEvents(crc, d, next));
    assert end - next == |item.data| + 4;
  }

  /** What is left of the event, and the events behind it. */
  lemma RestNines(crc: Checksum, d: seq<byte>, next: nat, end: nat, rest: seq<Event>, parsed: Parsed)
    requires next <= end <= |d| <= MAX_DATA_SIZE && |d| == end + SizeAll(rest)
    requires parsed == ParseEvents(crc, d, next) && ParseEvents(crc, d, end) == Parsed(rest, Exhausted)
    ensures Nines(crc, d, next, end) ==> parsed == Parsed(rest, Exhausted)
    ensures parsed == Parsed(rest, Exhausted) ==> (end - next) % 9 == 0
    ensures rest == [] ==> (parsed == Parsed(rest, Exhausted) <==> Nines(crc, d, next, end))
  {
    NinesSuffice(crc, d, next, end, parsed, Parsed(rest, Exhausted));
    NinesNeeded(crc, d, next, end, parsed, Parsed(rest, Exhausted));
    LastNeedsNines(crc, d, next, parsed);
  }

  /** When such an event ends a datagram and its data is shorter than a length field, what is left of it always reads
      as nonsense and ends the client. */
  lemma UnknownEventIsFatal(crc: Checksum, d: seq<byte>, pos: nat, len: uint32)
    requires 5 <= len < 9 && pos + 4 + len + 4 == |d|
    requires Read32(d, pos) == Some(len) && CrcMatches(crc, d, pos, len) && !KnownType(d[pos + 8])
    ensures ParseEvents(crc, d, pos) == Parsed([], Fatal)
  {
    var next := pos + 9;
    assert UnpackEvent(crc, d, pos) == UnknownType(next);
    assert UnpackEvent(crc, d, next) == BadData;
  }
}
