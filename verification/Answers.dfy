/** Answers to heartbeats, read from the bytes that are sent, and what they do for the client that asked. */
module Answers {
  import opened Bytes
  import opened Wire
  import opened Datagrams
  import opened EventLogs
  import opened Text
  import opened Packages
  import opened Dissemination
  import opened Reassembly
  import opened Protocol
  import opened Variants
  import C = Client
  import L = Layout

  /** A packet to that address, of at most 550 bytes, that names the game and is read to its end. */
  predicate Good(crc: Checksum, p: Packet, to: Address, game: uint32) {
    && p.to == to && 12 < |p.bytes| <= 550 && L.Number32(p.bytes, 0) == game
    && ParseEvents(crc, p.bytes, 4).ending == Exhausted
  }

  /** The first event of a packet, told by its length field, had no room in the packet before. */
  predicate Full(before: Packet, p: Packet) {
    |p.bytes| > 12 && |before.bytes| + 4 + L.Number32(p.bytes, 4) + 4 > 550
  }

  /** All packets are of that kind, each but the last is full, and together and in order they hold exactly these
      events. */
  predicate Answer(crc: Checksum, packets: seq<Packet>, to: Address, game: uint32, events: seq<Event>) {
    && (forall i :: 0 <= i < |packets| ==> Good(crc, packets[i], to, game))
    && (forall i :: 0 < i < |packets| ==> Full(packets[i - 1], packets[i]))
    && EventsTo(crc, packets, to) == events
  }

  /** What is left of a log from a number on, which may lie behind its end. */
  function From(log: seq<Event>, next: nat): seq<Event> {
    if next <= |log| then log[next..] else []
  }

  lemma SliceLayout(crc: Checksum, game: uint32, slice: seq<Event>, d: seq<byte>)
    requires slice != [] && AllPackable(slice) && d == Datagram(crc, game, slice)
    ensures |d| == 4 + SizeAll(slice) > 12 && L.Number32(d, 0) == game
    ensures 4 + L.Number32(d, 4) + 4 == EventSize(slice[0])
  {
    var first := slice[0];
    assert slice == [first] + slice[1..];
    DatagramGrows(crc, game, slice, first);
    L.DatagramLayout(crc, game, first, slice[1..]);
    L.EventLayout(crc, first);
    var e := EncodeEvent(crc, first);
    assert e[0] == d[4] && e[1] == d[5] && e[2] == d[6] && e[3] == d[7];
  }

  /** Slices that fit a datagram each. */
  predicate Sliced(slices: seq<seq<Event>>) {
    forall i :: 0 <= i < |slices| ==> Fits(slices[i]) && AllPackable(slices[i])
  }

  predicate NoneShort(slices: seq<seq<Event>>) {
    forall i :: 0 < i < |slices| ==> FullBefore(slices[i - 1], slices[i])
  }

  lemma SlicesAreSliced(events: seq<Event>, slices: seq<seq<Event>>)
    requires AllPackable(events) && slices == Slices(events)
    ensures Sliced(slices) && NoneShort(slices)
  {
    SlicesAreGreedy(events, slices);
    forall i | 0 <= i < |slices| ensures Fits(slices[i]) && AllPackable(slices[i]) {
      SlicesPackable(slices, i);
    }
  }

  lemma PacketGood(crc: Checksum, game: uint32, p: Packet, slice: seq<Event>)
    requires Fits(slice) && AllPackable(slice) && p.bytes == Datagram(crc, game, slice)
    ensures Good(crc, p, p.to, game)
  {
    DatagramRoundTrip(crc, game, slice);
    SliceLayout(crc, game, slice, p.bytes);
  }

  lemma PacketFull(crc: Checksum, game: uint32, p: Packet, q: Packet, a: seq<Event>, b: seq<Event>)
    requires p.bytes == Datagram(crc, game, a) && q.bytes == Datagram(crc, game, b)
    requires a != [] && b != [] && AllPackable(a) && AllPackable(b) && FullBefore(a, b)
    ensures Full(p, q)
  {
    SliceLayout(crc, game, a, p.bytes);
    SliceLayout(crc, game, b, q.bytes);
  }

  lemma PacketsGoodAndFull(crc: Checksum, game: uint32, to: Address, slices: seq<seq<Event>>, packets: seq<Packet>)
    requires Sliced(slices) && NoneShort(slices) && packets == Packets(crc, game, to, slices)
    ensures forall i :: 0 <= i < |packets| ==> Good(crc, packets[i], to, game)
    ensures forall i :: 0 < i < |packets| ==> Full(packets[i - 1], packets[i])
  {
    PacketsAre(crc, game, to, slices);
    forall i | 0 <= i < |packets| ensures Good(crc, packets[i], to, game) {
      PacketGood(crc, game, packets[i], slices[i]);
    }
    forall i | 0 < i < |packets| ensures Full(packets[i - 1], packets[i]) {
      PacketFull(crc, game, packets[i - 1], packets[i], slices[i - 1], slices[i]);
    }
  }

  lemma PackageAnswers(n: News, to: Address)
    requires AllPackable(n.events)
    ensures Answer(n.crc, Package(n, to), to, n.game, From(n.events, n.next))
  {
    if n.next <= |n.events| {
      var tail := n.events[n.next..];
      PackageTo(n, to, to);
      TailPackable(n.events, n.next);
      SlicesAreSliced(tail, Slices(tail));
      PackageIs(n, to, Slices(tail));
      PacketsGoodAndFull(n.crc, n.game, to, Slices(tail), Package(n, to));
    }
  }

  // ---------- what comes of an answer ----------

  /** All events that a datagram holds have numbers among these. */
  predicate Within(crc: Checksum, d: seq<byte>, numbers: set<uint32>) {
    forall n :: 0 <= n < |Carried(crc, d)| ==> Carried(crc, d)[n].no in numbers
  }

  lemma {:induction false} AllWithin(crc: Checksum, packets: seq<Packet>, to: Address, numbers: set<uint32>, n: nat)
    requires forall i :: 0 <= i < |packets| ==> Within(crc, packets[i].bytes, numbers)
    requires n < |EventsTo(crc, packets, to)|
    ensures EventsTo(crc, packets, to)[n].no in numbers
    decreases |packets|
  {
    var first := if packets[0].to == to then Carried(crc, packets[0].bytes) else [];
    assert EventsTo(crc, packets, to) == first + EventsTo(crc, packets[1..], to);
    if n >= |first| {
      AllWithin(crc, packets[1..], to, numbers, n - |first|);
    }
  }

  lemma ArrivedWithin(crc: Checksum, d: seq<byte>, game: uint32, ds: seq<seq<byte>>, slices: seq<seq<Event>>,
                      log: seq<Event>)
    requires LogOk(log) && SlicesOf(log, slices) && forall i :: 0 <= i < |slices| ==> AllPackable(slices[i])
    requires |ds| == |slices| && forall i :: 0 <= i < |ds| ==> ds[i] == Datagram(crc, game, slices[i])
    requires d in ds
    ensures Within(crc, d, Numbers(Flatten(slices)))
  {
    var j :| 0 <= j < |ds| && ds[j] == d;
    CarriedByDatagram(crc, game, slices[j]);
    FlattenAll(log, slices);
  }

  lemma AnswerCovers(crc: Checksum, answer: seq<Packet>, to: Address, log: seq<Event>, next: nat, numbers: set<uint32>)
    requires LogOk(log) && next <= |log| && EventsTo(crc, answer, to) == log[next..]
    requires forall i :: 0 <= i < |answer| ==> Within(crc, answer[i].bytes, numbers)
    ensures forall n: uint32 :: next <= n < |log| ==> n in numbers
  {
    forall n: uint32 | next <= n < |log| ensures n in numbers {
      AllWithin(crc, answer, to, numbers, n - next);
      assert log[next..][n - next] == log[n];
    }
  }

  /** What arrives when all of an answer does, in whatever order. */
  lemma ArrivalCovers(crc: Checksum, answer: seq<Packet>, to: Address, game: uint32, log: seq<Event>, next: nat,
                      ds: seq<seq<byte>>, slices: seq<seq<Event>>)
    requires LogOk(log) && next <= |log| && EventsTo(crc, answer, to) == log[next..]
    requires SlicesOf(log, slices) && forall i :: 0 <= i < |slices| ==> AllPackable(slices[i])
    requires |ds| == |slices| && forall i :: 0 <= i < |ds| ==> ds[i] == Datagram(crc, game, slices[i])
    requires forall i :: 0 <= i < |answer| ==> answer[i].bytes in ds
    ensures forall n: uint32 :: next <= n < |log| ==> n in Numbers(Flatten(slices))
  {
    forall i | 0 <= i < |answer| ensures Within(crc, answer[i].bytes, Numbers(Flatten(slices))) {
      ArrivedWithin(crc, answer[i].bytes, game, ds, slices, log);
    }
    AnswerCovers(crc, answer, to, log, next, Numbers(Flatten(slices)));
  }

  lemma JoinedInStep(c: C.State, log: seq<Event>, base: seq<Line>)
    requires LogOk(log) && InStep(c, log, base)
    ensures InStep(c.(joined := true), log, base)
  {}

  /** A client that has asked for what it expects next, and to which every datagram of the answer comes, in whatever
      order and however often, with any other datagrams of the game among them: repaired, it is in step with the game
      and at least at the end of the answer. */
  lemma AnswerConverges(crc: Checksum, c: C.State, log: seq<Event>, base: seq<Line>, answer: seq<Packet>, to: Address,
                        ds: seq<seq<byte>>, slices: seq<seq<Event>>)
    requires GameLog(log) && InStep(c, log, base) && c.next <= |log|
    requires Answer(crc, answer, to, c.game, log[c.next..])
    requires |ds| == |slices| && forall i :: 0 <= i < |ds| ==> ds[i] == Datagram(crc, c.game, slices[i])
    requires SlicesOf(log, slices) && forall i :: 0 <= i < |answer| ==> answer[i].bytes in ds
    ensures var after := TakeDatagrams(Repaired, crc, c, ds);
            after.next >= |log| && InStep(after, log, base)
  {
    var joined := if ds == [] then c else c.(joined := true);
    SlicesArePackable(log, slices);
    DatagramsJoin(Repaired, crc, c, ds, slices);
    FlattenAll(log, slices);
    ArrivalCovers(crc, answer, to, c.game, log, c.next, ds, slices);
    JoinedInStep(c, log, base);
    RepairedConverges(joined, log, base, |log|, Flatten(slices));
  }
}
