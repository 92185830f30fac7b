/** The datagrams a server queues for one receiver or for many (Server/Game.cpp). */
module Packages {
  import opened Bytes
  import opened Wire
  import opened Datagrams

  /** A filled UDPSendBuffer in the send queue. */
  datatype Packet = Packet(to: Address, bytes: seq<byte>)

  function Packets(crc: Checksum, game: uint32, to: Address, slices: seq<seq<Event>>): seq<Packet> {
    if slices == [] then []
    else [Packet(to, Datagram(crc, game, slices[0]))] + Packets(crc, game, to, slices[1..])
  }

  /** The events of a game from next on. */
  datatype News = News(crc: Checksum, game: uint32, events: seq<Event>, next: nat)

  function Package(n: News, to: Address): seq<Packet> {
    if n.next >= |n.events| then [] else Packets(n.crc, n.game, to, Slices(n.events[n.next..]))
  }

  /** The same for whoever it is sent to. */
  ghost function Packer(n: News): Address -> seq<Packet> {
    to => Package(n, to)
  }

  function ToAll(package: Address -> seq<Packet>, to: seq<Address>): seq<Packet>
    decreases |to|
  {
    if to == [] then [] else ToAll(package, to[..|to| - 1]) + package(to[|to| - 1])
  }

  lemma {:induction false} PacketsAre(crc: Checksum, game: uint32, to: Address, slices: seq<seq<Event>>)
    ensures var packets := Packets(crc, game, to, slices);
            && |packets| == |slices|
            && forall i :: 0 <= i < |slices| ==> packets[i] == Packet(to, Datagram(crc, game, slices[i]))
  {
    if slices != [] {
      PacketsAre(crc, game, to, slices[1..]);
    }
  }

  lemma PacketsBytes(crc: Checksum, game: uint32, to: Address, slices: seq<seq<Event>>, packets: seq<Packet>)
    requires packets == Packets(crc, game, to, slices)
    ensures (set packet <- packets :: packet.bytes) == set slice <- slices :: Datagram(crc, game, slice)
    ensures forall i :: 0 <= i < |packets| ==> packets[i].to == to
  {
    PacketsAre(crc, game, to, slices);
    forall i | 0 <= i < |slices| ensures Datagram(crc, game, slices[i]) in set packet <- packets :: packet.bytes {
      assert packets[i] in packets && packets[i].bytes == Datagram(crc, game, slices[i]);
    }
    forall i | 0 <= i < |packets| ensures packets[i].bytes in set slice <- slices :: Datagram(crc, game, slice) {
      assert slices[i] in slices;
    }
  }

  lemma PackageIs(n: News, to: Address, slices: seq<seq<Event>>)
    requires n.next <= |n.events| && slices == Slices(n.events[n.next..])
    ensures Package(n, to) == Packets(n.crc, n.game, to, slices)
  {
    if n.next == |n.events| {
      assert n.events[n.next..] == [];
    }
  }

  lemma EncodeOne(crc: Checksum, e: Event)
    ensures EncodeAll(crc, [e]) == EncodeEvent(crc, e)
  {
    assert [e][1..] == [];
    assert EncodeAll(crc, [e]) == EncodeEvent(crc, e) + [];
  }

  /** One more event in the datagram being filled. */
  lemma DatagramGrows(crc: Checksum, game: uint32, slice: seq<Event>, e: Event)
    ensures |Datagram(crc, game, slice)| == 4 + SizeAll(slice)
    ensures Datagram(crc, game, slice + [e]) == Datagram(crc, game, slice) + EncodeEvent(crc, e)
  {
    EncodeAllAppend(crc, slice, [e]);
    EncodeOne(crc, e);
    Regroup(Be32(game), EncodeAll(crc, slice), EncodeEvent(crc, e));
  }

  /** What is queued and still to be queued, with slice in the datagram being filled. */
  function Underway(crc: Checksum, queue: seq<Packet>, game: uint32, to: Address, slice: seq<Event>, rest: seq<Event>)
    : seq<Packet>
  {
    queue + Packets(crc, game, to, SlicesFrom(slice, rest))
  }

  lemma UnderwayStarts(queue: seq<Packet>, n: News, to: Address)
    requires n.next < |n.events|
    ensures Underway(n.crc, queue, n.game, to, [], n.events[n.next..]) == queue + Package(n, to)
  {}

  lemma UnderwayFits(crc: Checksum, queue: seq<Packet>, game: uint32, to: Address, slice: seq<Event>, e: Event,
                     rest: seq<Event>, events: seq<Event>)
    requires 4 + SizeAll(slice) + EventSize(e) <= MAX_DATA_SIZE && events == [e] + rest
    ensures Underway(crc, queue, game, to, slice, events) == Underway(crc, queue, game, to, slice + [e], rest)
  {
    assert events[1..] == rest;
  }

  lemma UnderwayFull(crc: Checksum, queue: seq<Packet>, game: uint32, to: Address, slice: seq<Event>, e: Event,
                     rest: seq<Event>, events: seq<Event>)
    requires 4 + SizeAll(slice) + EventSize(e) > MAX_DATA_SIZE && events == [e] + rest
    ensures Underway(crc, queue, game, to, slice, events)
            == Underway(crc, queue + [Packet(to, Datagram(crc, game, slice))], game, to, [e], rest)
  {
    assert events[1..] == rest;
    var tail := SlicesFrom([e], rest);
    assert ([slice] + tail)[1..] == tail;
    var p := [Packet(to, Datagram(crc, game, slice))];
    assert Packets(crc, game, to, [slice] + tail) == p + Packets(crc, game, to, tail);
    Regroup(queue, p, Packets(crc, game, to, tail));
  }

  lemma UnderwayDone(crc: Checksum, queue: seq<Packet>, game: uint32, to: Address, slice: seq<Event>)
    ensures Underway(crc, queue, game, to, slice, []) == queue + [Packet(to, Datagram(crc, game, slice))]
  {
    assert [slice][1..] == [];
    assert SlicesFrom(slice, []) == [slice];
    assert Packets(crc, game, to, [slice]) == [Packet(to, Datagram(crc, game, slice))] + [];
  }

  lemma ToOneMore(package: Address -> seq<Packet>, to: seq<Address>, a: Address)
    ensures ToAll(package, to + [a]) == ToAll(package, to) + package(a)
  {
    assert (to + [a])[..|to|] == to;
  }

  lemma QueueOneMore(base: seq<Packet>, package: Address -> seq<Packet>, told: seq<Address>, a: Address,
                     queue: seq<Packet>)
    requires queue == base + ToAll(package, told) + package(a)
    ensures queue == base + ToAll(package, told + [a])
  {
    ToOneMore(package, told, a);
    Regroup(base, ToAll(package, told), package(a));
  }

  /** The datagrams with the events from next on, for everybody in the audience. */
  ghost function Bulletin(crc: Checksum, game: uint32, events: seq<Event>, next: nat, audience: seq<Address>)
    : seq<Packet>
  {
    ToAll(Packer(News(crc, game, events, next)), audience)
  }
}
