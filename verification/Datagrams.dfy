/** Datagrams of events: how Server/Game.cpp slices a log into them and what Client/Client.cpp reads out of them. */
module Datagrams {
  import opened Bytes
  import opened Wire

  function SizeAll(events: seq<Event>): nat {
    if events == [] then 0 else EventSize(events[0]) + SizeAll(events[1..])
  }

  function EncodeAll(crc: Checksum, events: seq<Event>): (s: seq<byte>)
    ensures |s| == SizeAll(events)
  {
    if events == [] then [] else EncodeEvent(crc, events[0]) + EncodeAll(crc, events[1..])
  }

  function Datagram(crc: Checksum, gameId: uint32, events: seq<Event>): seq<byte> {
    Be32(gameId) + EncodeAll(crc, events)
  }

  predicate AllPackable(events: seq<Event>) {
    forall i :: 0 <= i < |events| ==> Packable(events[i])
  }

  lemma {:induction false} SizeAllAppend(a: seq<Event>, b: seq<Event>)
    ensures SizeAll(a + b) == SizeAll(a) + SizeAll(b)
  {
    if a == [] {
      assert a + b == b;
    } else {
      assert (a + b)[1..] == a[1..] + b;
      SizeAllAppend(a[1..], b);
    }
  }

  lemma {:induction false} EncodeAllAppend(crc: Checksum, a: seq<Event>, b: seq<Event>)
    ensures EncodeAll(crc, a + b) == EncodeAll(crc, a) + EncodeAll(crc, b)
  {
    if a == [] {
      assert a + b == b;
    } else {
      assert (a + b)[1..] == a[1..] + b;
      EncodeAllAppend(crc, a[1..], b);
      assert EncodeEvent(crc, a[0]) + (EncodeAll(crc, a[1..]) + EncodeAll(crc, b))
             == EncodeAll(crc, a) + EncodeAll(crc, b);
    }
  }

  // ---------- reading ----------

  /** How the reading of a datagram ends: at its end, at a bad checksum that discards the rest,
      or at nonsense that ends the client. */
  datatype Ending = Exhausted | Discarded | Fatal

  datatype Parsed = Parsed(events: seq<Event>, ending: Ending)

  /** The events the client's loop gets from d, starting at pos. Events of unknown types are passed over. */
  function ParseEvents(crc: Checksum, d: seq<byte>, pos: nat): Parsed
    requires pos <= |d|
    decreases |d| - pos
  {
    if pos == |d| then Parsed([], Exhausted)
    else
      match UnpackEvent(crc, d, pos)
      case Got(e, next) => var rest := ParseEvents(crc, d, next); rest.(events := [e] + rest.events)
      case UnknownType(next) => ParseEvents(crc, d, next)
      case CrcMismatch => Parsed([], Discarded)
      case BadData => Parsed([], Fatal)
  }

  lemma ParseGot(crc: Checksum, d: seq<byte>, pos: nat, e: Event, next: nat, rest: seq<Event>)
    requires pos < next <= |d| && UnpackEvent(crc, d, pos) == Got(e, next)
    requires ParseEvents(crc, d, next) == Parsed(rest, Exhausted)
    ensures ParseEvents(crc, d, pos) == Parsed([e] + rest, Exhausted)
  {}

  lemma GotAt(crc: Checksum, d: seq<byte>, pos: nat, e: Event, next: nat)
    requires Packable(e) && At(d, pos, EncodeEvent(crc, e)) && next == pos + EventSize(e)
    ensures pos < next <= |d| && UnpackEvent(crc, d, pos) == Got(e, next)
  {
    EventRoundTrip(crc, d, pos, e);
  }

  /** The first of some events, and where the others stand. */
  lemma FirstEventAt(crc: Checksum, d: seq<byte>, pos: nat, e: Event, rest: seq<Event>, next: nat)
    requires Packable(e) && At(d, pos, EncodeAll(crc, [e] + rest)) && next == pos + EventSize(e)
    ensures pos < next <= |d| && UnpackEvent(crc, d, pos) == Got(e, next) && At(d, next, EncodeAll(crc, rest))
  {
    EncodeAllCons(crc, e, rest);
    AtSplit(d, pos, EncodeEvent(crc, e), EncodeAll(crc, rest));
    GotAt(crc, d, pos, e, next);
  }

  lemma EncodeAllCons(crc: Checksum, e: Event, rest: seq<Event>)
    ensures EncodeAll(crc, [e] + rest) == EncodeEvent(crc, e) + EncodeAll(crc, rest)
  {
    assert ([e] + rest)[1..] == rest;
  }

  lemma {:induction false} ParseEventsAt(crc: Checksum, d: seq<byte>, pos: nat, events: seq<Event>)
    requires pos <= |d| && pos + SizeAll(events) == |d|
    requires AllPackable(events) && At(d, pos, EncodeAll(crc, events))
    ensures ParseEvents(crc, d, pos) == Parsed(events, Exhausted)
    decreases |events|
  {
    if events != [] {
      var e, rest, next := events[0], events[1..], pos + EventSize(events[0]);
      assert events == [e] + rest;
      FirstEventAt(crc, d, pos, e, rest, next);
      ParseEventsAt(crc, d, next, rest);
      ParseGot(crc, d, pos, e, next, rest);
    }
  }

  /** What is packed is what is read: the game, every event, in order, and nothing left over. */
  lemma DatagramRoundTrip(crc: Checksum, gameId: uint32, events: seq<Event>)
    requires AllPackable(events)
    ensures Read32(Datagram(crc, gameId, events), 0) == Some(gameId)
    ensures ParseEvents(crc, Datagram(crc, gameId, events), 4) == Parsed(events, Exhausted)
  {
    var d := Datagram(crc, gameId, events);
    assert d[0..0 + |d|] == d;
    AtSplit(d, 0, Be32(gameId), EncodeAll(crc, events));
    Read32At(d, 0, gameId);
    ParseEventsAt(crc, d, 4, events);
  }

  // ---------- slicing ----------

  /** slice is what the datagram being filled holds; a new one is begun when the next event does not fit. */
  function SlicesFrom(slice: seq<Event>, events: seq<Event>): (r: seq<seq<Event>>)
    ensures |r| >= 1
    decreases |events|
  {
    if events == [] then [slice]
    else if MAX_DATA_SIZE - (4 + SizeAll(slice)) < EventSize(events[0]) then
      [slice] + SlicesFrom([events[0]], events[1..])
    else
      SlicesFrom(slice + [events[0]], events[1..])
  }

  /** The events of each datagram of one package. */
  function Slices(events: seq<Event>): seq<seq<Event>> {
    if events == [] then [] else SlicesFrom([], events)
  }

  function Flatten(slices: seq<seq<Event>>): seq<Event> {
    if slices == [] then [] else slices[0] + Flatten(slices[1..])
  }

  predicate Fits(slice: seq<Event>) {
    slice != [] && 4 + SizeAll(slice) <= MAX_DATA_SIZE
  }

  predicate FullBefore(slice: seq<Event>, next: seq<Event>) {
    next != [] && 4 + SizeAll(slice) + EventSize(next[0]) > MAX_DATA_SIZE
  }

  /** The package without its algorithm: consecutive nonempty slices that fit a datagram,
      none of which could have held one event more. */
  predicate GreedyPartition(slices: seq<seq<Event>>, events: seq<Event>) {
    && Flatten(slices) == events
    && (forall i :: 0 <= i < |slices| ==> Fits(slices[i]))
    && (forall i :: 0 < i < |slices| ==> FullBefore(slices[i - 1], slices[i]))
  }

  lemma {:induction false} SlicesFromGreedy(slice: seq<Event>, events: seq<Event>)
    requires AllPackable(events)
    requires 4 + SizeAll(slice) <= MAX_DATA_SIZE && (slice != [] || events != [])
    ensures GreedyPartition(SlicesFrom(slice, events), slice + events)
    ensures slice <= SlicesFrom(slice, events)[0]
    decreases |events|
  {
    if events == [] {
      assert [slice][1..] == [] && slice + events == slice;
      assert Flatten([slice]) == slice + Flatten([]);
    } else {
      var e, rest := events[0], events[1..];
      assert events == [e] + rest && Packable(e);
      assert SizeAll([e]) == EventSize(e) + SizeAll([e][1..]) == EventSize(e);
      if MAX_DATA_SIZE - (4 + SizeAll(slice)) < EventSize(e) {
        SlicesFromGreedy([e], rest);
        var tail := SlicesFrom([e], rest);
        assert ([slice] + tail)[1..] == tail;
        assert tail[0][0] == e;
      } else {
        SizeAllAppend(slice, [e]);
        SlicesFromGreedy(slice + [e], rest);
        assert slice + [e] + rest == slice + events;
      }
    }
  }

  /** Two greedy partitions of the same events are the same partition. */
  lemma {:induction false} GreedyUnique(a: seq<seq<Event>>, b: seq<seq<Event>>, events: seq<Event>)
    requires GreedyPartition(a, events) && GreedyPartition(b, events)
    ensures a == b
    decreases |a|
  {
    if a == [] || b == [] {
      assert a == [] <==> events == [];
      assert b == [] <==> events == [];
    } else {
      assert events == a[0] + Flatten(a[1..]) == b[0] + Flatten(b[1..]);
      FirstSliceLongest(a, b, events);
      FirstSliceLongest(b, a, events);
      assert a[0] == events[..|a[0]|] == b[0];
      TailGreedy(a, events);
      TailGreedy(b, events);
      GreedyUnique(a[1..], b[1..], events[|a[0]|..]);
    }
  }

  lemma TailGreedy(a: seq<seq<Event>>, events: seq<Event>)
    requires GreedyPartition(a, events) && a != []
    ensures GreedyPartition(a[1..], events[|a[0]|..])
  {
    assert events[|a[0]|..] == Flatten(a[1..]);
    forall i | 0 < i < |a[1..]| ensures FullBefore(a[1..][i - 1], a[1..][i]) {
      assert FullBefore(a[i + 1 - 1], a[i + 1]);
    }
  }

  lemma PrefixSize(a: seq<Event>, b: seq<Event>)
    requires |a| < |b| && a == b[..|a|]
    ensures SizeAll(a) + EventSize(b[|a|]) <= SizeAll(b)
  {
    var tail := b[|a|..];
    assert b == a + tail && tail[0] == b[|a|];
    SizeAllAppend(a, tail);
  }

  /** No greedy partition begins with a shorter slice than another. */
  lemma FirstSliceLongest(a: seq<seq<Event>>, b: seq<seq<Event>>, events: seq<Event>)
    requires GreedyPartition(a, events) && GreedyPartition(b, events)
    requires a != [] && b != []
    ensures |a[0]| >= |b[0]|
  {
    var n := |a[0]|;
    assert events == a[0] + Flatten(a[1..]) == b[0] + Flatten(b[1..]);
    if n < |b[0]| {
      assert a[0] == events[..n] == b[0][..n];
      if |a| > 1 {
        assert Flatten(a[1..]) == a[1] + Flatten(a[1..][1..]);
        assert FullBefore(a[1 - 1], a[1]);
        assert a[1][0] == events[n] == b[0][n];
        assert Fits(b[0]);
        PrefixSize(a[0], b[0]);
      }
    }
  }

  /** The algorithm computes the greedy partition, which is the only one. */
  lemma SlicesAreGreedy(events: seq<Event>, slices: seq<seq<Event>>)
    requires AllPackable(events)
    ensures GreedyPartition(slices, events) <==> slices == Slices(events)
  {
    if events == [] {
      assert GreedyPartition([], []);
    } else {
      SlicesFromGreedy([], events);
      assert [] + events == events;
    }
    if GreedyPartition(slices, events) {
      GreedyUnique(slices, Slices(events), events);
    }
  }

  lemma {:induction false} SlicesPackable(slices: seq<seq<Event>>, i: nat)
    requires i < |slices| && AllPackable(Flatten(slices))
    ensures AllPackable(slices[i])
    decreases |slices|
  {
    var all, rest := Flatten(slices), Flatten(slices[1..]);
    assert all == slices[0] + rest;
    if i == 0 {
      forall k | 0 <= k < |slices[0]| ensures Packable(slices[0][k]) {
        assert slices[0][k] == all[k];
      }
    } else {
      forall k | 0 <= k < |rest| ensures Packable(rest[k]) {
        assert rest[k] == all[|slices[0]| + k];
      }
      SlicesPackable(slices[1..], i - 1);
    }
  }

  /** A whole package: every datagram fits, names the game, and is read to its end; together, in order,
      the datagrams carry exactly the given events. */
  lemma PackageRoundTrip(crc: Checksum, gameId: uint32, events: seq<Event>, i: nat)
    requires AllPackable(events) && i < |Slices(events)|
    ensures var slice := Slices(events)[i]; var d := Datagram(crc, gameId, slice);
            && slice != [] && |d| <= MAX_DATA_SIZE
            && Read32(d, 0) == Some(gameId)
            && ParseEvents(crc, d, 4) == Parsed(slice, Exhausted)
    ensures Flatten(Slices(events)) == events
  {
    SlicesAreGreedy(events, Slices(events));
    assert Fits(Slices(events)[i]);
    SlicesPackable(Slices(events), i);
    DatagramRoundTrip(crc, gameId, Slices(events)[i]);
  }

  // ---------- which events fit ----------

  lemma {:induction false} NamesSizeBound(names: seq<Name>, max: nat)
    requires forall name <- names :: |name| <= max
    ensures NamesSize(names) <= |names| * (max + 1)
    ensures (forall name <- names :: |name| == max) ==> NamesSize(names) == |names| * (max + 1)
  {
    if names != [] {
      assert names[0] in names;
      NamesSizeBound(names[1..], max);
      assert |names| * (max + 1) == (max + 1) + |names[1..]| * (max + 1);
    }
  }

  /** NEW_GAME fits a datagram with up to 25 players whose names have at most 20 characters,
      and with names of exactly 20 it fits for no more. */
  lemma NewGameFits(no: uint32, maxx: uint32, maxy: uint32, names: seq<Name>)
    requires forall name <- names :: |name| <= 20 && NoNul(name)
    ensures |names| <= 25 ==> Packable(MakeEvent(no, NewGame(maxx, maxy, names)))
    ensures (forall name <- names :: |name| == 20) && |names| < 0x800_0000 ==>
              (Packable(MakeEvent(no, NewGame(maxx, maxy, names))) <==> |names| <= 25)
  {
    NamesSizeBound(names, 20);
  }
}
