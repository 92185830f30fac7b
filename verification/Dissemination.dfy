/** Everything a game disseminates over its whole life: who is told which events, whoever comes and goes. */
module Dissemination {
  import opened Bytes
  import opened Wire
  import opened Datagrams
  import opened Packages
  import opened Observers
  import opened Variants

  // Observers are erased by iterators that earlier erasures have moved. Repaired erases exactly those that are gone.

  /** History of a recipient: where it is, how many packets were queued and which event was next when it joined, and
      which was next after the last dissemination it was listed for. */
  datatype Seat = Seat(at: Address, packets: nat, event: nat, upTo: nat)

  datatype Feed<!T(==)> = Feed(
    log: seq<Event>,
    next: nat,              // next_disseminated_event_no
    players: seq<T>,
    observers: seq<T>,
    gone: set<T>,           // players disconnected, observers expired
    sent: seq<Packet>,      // all that dissemination has queued
    seats: map<T, Seat>)    // history: everybody who ever joined

  predicate Listed<T(==)>(s: Feed<T>, r: T) {
    r in s.players || r in s.observers
  }

  /** Everybody listed. */
  ghost function Everyone<T>(s: Feed<T>): set<T> {
    (set r <- s.players) + (set r <- s.observers)
  }

  /** Whoever is written to. */
  ghost function Present<T>(s: Feed<T>): seq<T> {
    Live(s.players, s.gone, |s.players|) + Live(s.observers, s.gone, |s.observers|)
  }

  predicate Seated<T(==)>(s: Feed<T>, who: seq<T>) {
    forall i :: 0 <= i < |who| ==> who[i] in s.seats
  }

  function Addresses<T(==)>(s: Feed<T>, who: seq<T>): (a: seq<Address>)
    requires Seated(s, who)
    ensures |a| == |who|
  {
    seq(|who|, i requires 0 <= i < |who| => s.seats[who[i]].at)
  }

  // ---------- steps ----------

  /** A new game: everybody is listed once, no two at one address, and nothing is sent yet. */
  ghost predicate Begins<T>(s: Feed<T>) {
    && AllPackable(s.log) && s.next == 0 && s.gone == {} && s.sent == [] && Distinct(s.players + s.observers)
    && s.seats.Keys == Everyone(s)
    && (forall r <- s.seats :: s.seats[r] == Seat(s.seats[r].at, 0, 0, 0))
    && Apart(s)
  }

  /** No two who are present are at one address. */
  ghost predicate Apart<T>(s: Feed<T>) {
    forall p, q :: p in s.seats && q in s.seats && p != q && p !in s.gone && q !in s.gone ==>
      s.seats[p].at != s.seats[q].at
  }

  predicate Logs<T(==)>(s: Feed<T>, t: Feed<T>, log: seq<Event>) {
    s.log <= log && AllPackable(log) && t == s.(log := log)
  }

  /** add_observer, with somebody new at an address that nobody present has. */
  ghost predicate Joins<T>(s: Feed<T>, t: Feed<T>, r: T, a: Address) {
    && r !in s.seats && r !in s.gone && (forall q <- s.seats :: q !in s.gone ==> s.seats[q].at != a)
    && t == s.(observers := s.observers + [r], seats := s.seats[r := Seat(a, |s.sent|, s.next, s.next)])
  }

  ghost predicate LastJoins<T>(s: Feed<T>, t: Feed<T>, a: Address) {
    t.observers != [] && Joins(s, t, t.observers[|t.observers| - 1], a)
  }

  predicate Leaves<T(==)>(s: Feed<T>, t: Feed<T>, r: T) {
    t == s.(gone := s.gone + {r})
  }

  /** The observers left. */
  function Pruned<T(==)>(v: Variant, observers: seq<T>, gone: set<T>): Option<seq<T>> {
    if v.Repaired? then Some(Live(observers, gone, |observers|))
    else EraseForward(observers, ExpiredAt(observers, gone, |observers|))
  }

  ghost function Noted<T>(s: Feed<T>): map<T, Seat> {
    map r <- s.seats :: if Listed(s, r) then s.seats[r].(upTo := |s.log|) else s.seats[r]
  }

  ghost function Disseminated<T>(crc: Checksum, game: uint32, s: Feed<T>, left: seq<T>): Feed<T>
    requires Seated(s, Present(s))
  {
    s.(sent := s.sent + Bulletin(crc, game, s.log, s.next, Addresses(s, Present(s))),
       observers := left, next := |s.log|, seats := Noted(s))
  }

  ghost predicate Disseminates<T>(v: Variant, crc: Checksum, game: uint32, s: Feed<T>, t: Feed<T>) {
    && Seated(s, Present(s)) && Pruned(v, s.observers, s.gone) == Some(t.observers)
    && t == Disseminated(crc, game, s, t.observers)
  }

  ghost predicate Step<T>(v: Variant, crc: Checksum, game: uint32, s: Feed<T>, t: Feed<T>) {
    || (exists log :: Logs(s, t, log))
    || (exists a :: LastJoins(s, t, a))
    || (exists r <- t.gone :: Leaves(s, t, r))
    || Disseminates(v, crc, game, s, t)
  }

  ghost predicate Run<T>(v: Variant, crc: Checksum, game: uint32, run: seq<Feed<T>>) {
    run != [] && Begins(run[0]) && forall i :: 0 < i < |run| ==> Step(v, crc, game, run[i - 1], run[i])
  }

  // ---------- what is read ----------

  function Carried(crc: Checksum, d: seq<byte>): seq<Event> {
    if |d| < 4 then [] else ParseEvents(crc, d, 4).events
  }

  /** The events in the packets to one address. */
  function EventsTo(crc: Checksum, sent: seq<Packet>, a: Address): seq<Event> {
    if sent == [] then []
    else (if sent[0].to == a then Carried(crc, sent[0].bytes) else []) + EventsTo(crc, sent[1..], a)
  }

  /** The events in the packets a recipient was sent since it joined. */
  function Told<T(==)>(crc: Checksum, s: Feed<T>, r: T): seq<Event>
    requires r in s.seats && s.seats[r].packets <= |s.sent|
  {
    EventsTo(crc, s.sent[s.seats[r].packets..], s.seats[r].at)
  }

  lemma {:induction false} EventsToAppend(crc: Checksum, x: seq<Packet>, y: seq<Packet>, a: Address)
    ensures EventsTo(crc, x + y, a) == EventsTo(crc, x, a) + EventsTo(crc, y, a)
    decreases |x|
  {
    if x == [] {
      assert x + y == y;
    } else {
      assert (x + y)[1..] == x[1..] + y;
      EventsToAppend(crc, x[1..], y, a);
    }
  }

  lemma CarriedByDatagram(crc: Checksum, game: uint32, slice: seq<Event>)
    requires AllPackable(slice)
    ensures Carried(crc, Datagram(crc, game, slice)) == slice
  {
    DatagramRoundTrip(crc, game, slice);
  }

  lemma {:induction false} PacketsTo(crc: Checksum, game: uint32, to: Address, slices: seq<seq<Event>>, a: Address)
    requires forall i :: 0 <= i < |slices| ==> AllPackable(slices[i])
    ensures EventsTo(crc, Packets(crc, game, to, slices), a) == if to == a then Flatten(slices) else []
    decreases |slices|
  {
    if slices != [] {
      var rest := Packets(crc, game, to, slices[1..]);
      var packets := Packets(crc, game, to, slices);
      CarriedByDatagram(crc, game, slices[0]);
      PacketsTo(crc, game, to, slices[1..], a);
      assert packets[0] == Packet(to, Datagram(crc, game, slices[0])) && packets[1..] == rest;
    }
  }

  /** A package carries exactly the news, to its receiver only. */
  lemma PackageTo(n: News, to: Address, a: Address)
    requires AllPackable(n.events) && n.next <= |n.events|
    ensures EventsTo(n.crc, Package(n, to), a) == if to == a then n.events[n.next..] else []
  {
    var tail := n.events[n.next..];
    forall i | 0 <= i < |tail| ensures Packable(tail[i]) {
      assert tail[i] == n.events[n.next + i];
    }
    if tail != [] {
      SlicesAreGreedy(tail, Slices(tail));
      forall i | 0 <= i < |Slices(tail)| ensures AllPackable(Slices(tail)[i]) {
        SlicesPackable(Slices(tail), i);
      }
      PacketsTo(n.crc, n.game, to, Slices(tail), a);
    }
  }

  lemma LastApart<T>(all: seq<T>, front: seq<T>, last: T)
    requires all != [] && Distinct(all) && front == all[..|all| - 1] && last == all[|all| - 1]
    ensures Distinct(front) && last !in front && forall x :: x in all <==> x in front || x == last
  {
    assert all == front + [last];
  }

  /** A bulletin carries the news once to everybody in the audience. */
  lemma {:induction false} BulletinTo(n: News, audience: seq<Address>, a: Address)
    requires AllPackable(n.events) && n.next <= |n.events| && Distinct(audience)
    ensures EventsTo(n.crc, ToAll(Packer(n), audience), a) == if a in audience then n.events[n.next..] else []
    decreases |audience|
  {
    if audience != [] {
      var m := |audience| - 1;
      var front, last := audience[..m], audience[m];
      LastApart(audience, front, last);
      BulletinTo(n, front, a);
      PackageTo(n, last, a);
      EventsToAppend(n.crc, ToAll(Packer(n), front), Package(n, last), a);
    }
  }

  // ---------- what every run keeps ----------

  ghost predicate SeatOk<T>(crc: Checksum, s: Feed<T>, r: T)
    requires r in s.seats
  {
    var seat := s.seats[r];
    && seat.packets <= |s.sent| && seat.event <= seat.upTo <= s.next <= |s.log|
    && (r !in s.gone ==>
          && Told(crc, s, r) == s.log[seat.event..seat.upTo]
          && (Listed(s, r) ==> seat.upTo == s.next))
  }

  ghost predicate Inv<T>(v: Variant, crc: Checksum, s: Feed<T>) {
    && s.next <= |s.log| && AllPackable(s.log) && Distinct(s.players + s.observers) && Apart(s)
    && (forall r <- s.players :: r in s.seats) && (forall r <- s.observers :: r in s.seats)
    && (forall r <- s.seats :: SeatOk(crc, s, r))
    && (v.Repaired? ==> forall r <- s.seats :: r in s.gone || Listed(s, r))
  }

  lemma BeginsKeeps<T>(v: Variant, crc: Checksum, s: Feed<T>)
    requires Begins(s)
    ensures Inv(v, crc, s)
  {
    forall r <- s.seats ensures SeatOk(crc, s, r) {
      assert s.sent[0..] == [];
    }
  }

  lemma LogsKeeps<T>(v: Variant, crc: Checksum, s: Feed<T>, t: Feed<T>, log: seq<Event>)
    requires Inv(v, crc, s) && Logs(s, t, log)
    ensures Inv(v, crc, t)
  {
    forall r <- t.seats ensures SeatOk(crc, t, r) {
      assert SeatOk(crc, s, r);
      var seat := s.seats[r];
      assert s.log[seat.event..seat.upTo] == log[seat.event..seat.upTo];
    }
  }

  lemma DistinctAppend<T>(a: seq<T>, b: seq<T>, x: T)
    requires Distinct(a + b) && x !in a && x !in b
    ensures Distinct(a + (b + [x]))
  {
    assert a + (b + [x]) == (a + b) + [x];
    forall i | 0 <= i < |a + b| ensures (a + b)[i] != x {
      assert (a + b)[i] == if i < |a| then a[i] else b[i - |a|];
    }
  }

  lemma JoinsKeeps<T>(v: Variant, crc: Checksum, s: Feed<T>, t: Feed<T>, r: T, a: Address)
    requires Inv(v, crc, s) && Joins(s, t, r, a)
    ensures Inv(v, crc, t)
  {
    DistinctAppend(s.players, s.observers, r);
    forall q <- t.seats ensures SeatOk(crc, t, q) {
      if q == r {
        assert s.sent[|s.sent|..] == [];
      } else {
        assert SeatOk(crc, s, q);
      }
    }
  }

  lemma LeavesKeeps<T>(v: Variant, crc: Checksum, s: Feed<T>, t: Feed<T>, r: T)
    requires Inv(v, crc, s) && Leaves(s, t, r)
    ensures Inv(v, crc, t)
  {
    forall q <- t.seats ensures SeatOk(crc, t, q) {
      assert SeatOk(crc, s, q);
    }
  }

  // ---------- one dissemination ----------

  lemma PartsDistinct<T>(a: seq<T>, b: seq<T>)
    ensures Distinct(a + b) <==> Distinct(a) && Distinct(b) && forall x :: x in a ==> x !in b
  {
    var all := a + b;
    if Distinct(all) {
      forall i, j | 0 <= i < j < |b| ensures b[i] != b[j] {
        assert all[|a| + i] != all[|a| + j];
      }
      forall i, j | 0 <= i < |a| && 0 <= j < |b| ensures a[i] != b[j] {
        assert all[i] != all[|a| + j];
      }
      forall i, j | 0 <= i < j < |a| ensures a[i] != a[j] {
        assert all[i] != all[j];
      }
    } else if Distinct(a) && Distinct(b) && forall x :: x in a ==> x !in b {
      forall i, j | 0 <= i < j < |all| ensures all[i] != all[j] {
        if i < |a| <= j {
          assert a[i] in a && b[j - |a|] in b;
        }
      }
    }
  }

  lemma PresentOnce<T>(v: Variant, crc: Checksum, s: Feed<T>)
    requires Inv(v, crc, s)
    ensures Distinct(Present(s)) && Seated(s, Present(s))
    ensures forall x <- Present(s) :: Listed(s, x) && x !in s.gone
    ensures forall x <- s.seats :: Listed(s, x) && x !in s.gone ==> x in Present(s)
  {
    var a, b := Live(s.players, s.gone, |s.players|), Live(s.observers, s.gone, |s.observers|);
    PartsDistinct(s.players, s.observers);
    LiveDistinct(s.players, s.gone, |s.players|);
    LiveDistinct(s.observers, s.gone, |s.observers|);
    assert s.players[..|s.players|] == s.players && s.observers[..|s.observers|] == s.observers;
    PartsDistinct(a, b);
    forall i | 0 <= i < |Present(s)| ensures Present(s)[i] in s.seats {
      assert Present(s)[i] in Present(s) && Listed(s, Present(s)[i]);
    }
  }

  lemma AddressesApart<T>(s: Feed<T>, who: seq<T>)
    requires Apart(s) && Seated(s, who) && Distinct(who) && forall x :: x in who ==> x !in s.gone
    ensures Distinct(Addresses(s, who))
    ensures forall r :: r in s.seats && r !in s.gone ==> (s.seats[r].at in Addresses(s, who) <==> r in who)
  {
    forall r | r in s.seats && r !in s.gone ensures s.seats[r].at in Addresses(s, who) <==> r in who {
      if r in who {
        var i :| 0 <= i < |who| && who[i] == r;
        assert Addresses(s, who)[i] == s.seats[r].at;
      }
      if s.seats[r].at in Addresses(s, who) {
        var i :| 0 <= i < |who| && Addresses(s, who)[i] == s.seats[r].at;
        assert who[i] in who;
      }
    }
  }

  lemma AudienceOnce<T>(v: Variant, crc: Checksum, s: Feed<T>, r: T, audience: seq<Address>)
    requires Inv(v, crc, s) && r in s.seats && r !in s.gone
    requires Seated(s, Present(s)) && audience == Addresses(s, Present(s))
    ensures Distinct(audience) && (s.seats[r].at in audience <==> Listed(s, r))
  {
    PresentOnce(v, crc, s);
    AddressesApart(s, Present(s));
  }

  lemma DropFront<T>(a: seq<T>, b: seq<T>, from: nat)
    requires from <= |a|
    ensures (a + b)[from..] == a[from..] + b
  {}

  lemma BulletinAdds(n: News, audience: seq<Address>, sent: seq<Packet>, from: nat, a: Address, news: seq<Packet>)
    requires AllPackable(n.events) && n.next <= |n.events| && Distinct(audience) && from <= |sent|
    requires news == ToAll(Packer(n), audience)
    ensures EventsTo(n.crc, (sent + news)[from..], a)
            == EventsTo(n.crc, sent[from..], a) + if a in audience then n.events[n.next..] else []
  {
    BulletinTo(n, audience, a);
    DropFront(sent, news, from);
    EventsToAppend(n.crc, sent[from..], news, a);
  }

  /** What one dissemination tells one recipient. */
  lemma OneTold<T>(v: Variant, crc: Checksum, game: uint32, s: Feed<T>, t: Feed<T>, r: T, seat: Seat)
    requires Inv(v, crc, s) && Disseminates(v, crc, game, s, t) && r in s.seats && r !in s.gone && seat == s.seats[r]
    requires SeatOk(crc, s, r)
    ensures Told(crc, s, r) + (if Listed(s, r) then s.log[s.next..] else [])
            == EventsTo(crc, t.sent[seat.packets..], seat.at)
  {
    var audience := Addresses(s, Present(s));
    AudienceOnce(v, crc, s, r, audience);
    BulletinAdds(News(crc, game, s.log, s.next), audience, s.sent, seat.packets, seat.at,
                 Bulletin(crc, game, s.log, s.next, audience));
  }

  lemma Continued(log: seq<Event>, from: nat, to: nat)
    requires from <= to <= |log|
    ensures log[from..to] + log[to..] == log[from..|log|]
  {}

  lemma SeatKept<T>(v: Variant, crc: Checksum, game: uint32, s: Feed<T>, t: Feed<T>, r: T, seat: Seat)
    requires Inv(v, crc, s) && Disseminates(v, crc, game, s, t) && r in s.seats && seat == s.seats[r]
    requires forall x :: x in t.observers ==> x in s.observers
    ensures SeatOk(crc, t, r)
  {
    assert SeatOk(crc, s, r);
    assert t.seats[r] == if Listed(s, r) then seat.(upTo := |s.log|) else seat;
    assert Listed(t, r) ==> Listed(s, r);
    if r !in s.gone {
      OneTold(v, crc, game, s, t, r, seat);
      Continued(s.log, seat.event, seat.upTo);
    }
  }

  lemma PrunedPart<T>(v: Variant, observers: seq<T>, gone: set<T>)
    requires Distinct(observers) && Pruned(v, observers, gone).Some?
    ensures var left := Pruned(v, observers, gone).value;
            && Distinct(left) && (forall x :: x in left ==> x in observers)
            && (v.Repaired? ==> forall x <- observers :: x in left <==> x !in gone)
  {
    LiveDistinct(observers, gone, |observers|);
    assert observers[..|observers|] == observers;
    ExpiredIncrease(observers, gone);
    if v.AsWritten? && observers != [] {
      DroppedExactly(observers, ExpiredAt(observers, gone, |observers|), 0);
    }
  }

  lemma DisseminatesKeeps<T>(v: Variant, crc: Checksum, game: uint32, s: Feed<T>, t: Feed<T>)
    requires Inv(v, crc, s) && Disseminates(v, crc, game, s, t)
    ensures Inv(v, crc, t)
  {
    PartsDistinct(s.players, s.observers);
    PrunedPart(v, s.observers, s.gone);
    PartsDistinct(t.players, t.observers);
    assert t.seats.Keys == s.seats.Keys;
    forall r <- t.observers ensures r in t.seats {
      assert r in s.observers;
    }
    forall r <- t.seats ensures SeatOk(crc, t, r) {
      SeatKept(v, crc, game, s, t, r, s.seats[r]);
    }
  }

  lemma StepKeeps<T>(v: Variant, crc: Checksum, game: uint32, s: Feed<T>, t: Feed<T>)
    requires Inv(v, crc, s) && Step(v, crc, game, s, t)
    ensures Inv(v, crc, t)
  {
    if log :| Logs(s, t, log) {
      LogsKeeps(v, crc, s, t, log);
    } else if a :| LastJoins(s, t, a) {
      JoinsKeeps(v, crc, s, t, t.observers[|t.observers| - 1], a);
    } else if r :| r in t.gone && Leaves(s, t, r) {
      LeavesKeeps(v, crc, s, t, r);
    } else {
      DisseminatesKeeps(v, crc, game, s, t);
    }
  }

  lemma {:induction false} RunKeeps<T>(v: Variant, crc: Checksum, game: uint32, run: seq<Feed<T>>, i: nat)
    requires Run(v, crc, game, run) && i < |run|
    ensures Inv(v, crc, run[i])
  {
    if i == 0 {
      BeginsKeeps(v, crc, run[0]);
    } else {
      RunKeeps(v, crc, game, run, i - 1);
      StepKeeps(v, crc, game, run[i - 1], run[i]);
    }
  }

  // ---------- who is told what ----------

  /** Over every run with erasing repaired: whoever has joined and not left has been told exactly the log from the event
      that was next when it joined up to the counter, each event once and in order. */
  lemma EverybodyIsTold<T>(crc: Checksum, game: uint32, run: seq<Feed<T>>, i: nat, r: T)
    requires Run(Repaired, crc, game, run) && i < |run| && r in run[i].seats && r !in run[i].gone
    ensures var s := run[i]; var seat := s.seats[r];
            && seat.packets <= |s.sent| && seat.event <= s.next <= |s.log|
            && Told(crc, s, r) == s.log[seat.event..s.next]
  {
    RunKeeps(Repaired, crc, game, run, i);
    assert SeatOk(crc, run[i], r);
  }

  /** Over every run of the code as written: so has everybody up to the last dissemination that found it in the lists;
      that is the whole of it if and only if it still is in the lists, or nothing was logged since it was dropped. */
  lemma ListedAreTold<T>(crc: Checksum, game: uint32, run: seq<Feed<T>>, i: nat, r: T)
    requires Run(AsWritten, crc, game, run) && i < |run| && r in run[i].seats && r !in run[i].gone
    ensures var s := run[i]; var seat := s.seats[r];
            && seat.packets <= |s.sent| && seat.event <= seat.upTo <= s.next <= |s.log|
            && Told(crc, s, r) == s.log[seat.event..seat.upTo]
            && (Told(crc, s, r) == s.log[seat.event..s.next] <==> Listed(s, r) || seat.upTo == s.next)
  {
    RunKeeps(AsWritten, crc, game, run, i);
    assert SeatOk(crc, run[i], r);
    var s := run[i];
    assert |s.log[s.seats[r].event..s.next]| == s.next - s.seats[r].event;
  }

  /** And whom a dissemination drops can be told beforehand: a present observer keeps its place if and only if that is
      not the place of the i-th expired one plus i. */
  lemma DropsExactly<T>(crc: Checksum, game: uint32, s: Feed<T>, t: Feed<T>, k: nat)
    requires Inv(AsWritten, crc, s) && Disseminates(AsWritten, crc, game, s, t)
    requires k < |s.observers| && s.observers[k] !in s.gone
    ensures Listed(t, s.observers[k]) <==> !Hit(ExpiredAt(s.observers, s.gone, |s.observers|), k)
  {
    PartsDistinct(s.players, s.observers);
    ExpiredIncrease(s.observers, s.gone);
    DroppedExactly(s.observers, ExpiredAt(s.observers, s.gone, |s.observers|), k);
    assert s.observers[k] in s.observers;
  }
}
