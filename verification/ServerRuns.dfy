/** What the server does to its games and its send queue, as steps of the protocol. */
module ServerRuns {
  import opened Bytes
  import opened Wire
  import opened Datagrams
  import opened GameRules
  import opened Packages
  import opened Protocol
  import opened Variants
  import S = Server

  // ---------- games ----------

  /** A new game and a round of a game are steps in which a log appears or grows. */
  lemma BeginGrows(p: System, g: uint32, width: uint32, height: uint32, worms: seq<Worm>, cells: seq<Cell>)
    requires g !in p.logs && |cells| == |worms| && Newcomers(worms) && Listable(NamesOf(worms))
    requires |Begin(AsWritten, width, height, worms, cells).events| < WRAP
    ensures var log := Begin(AsWritten, width, height, worms, cells).events;
            Grows(p, p.(logs := p.logs[g := log]), g, log)
  {
    BeginLog(AsWritten, width, height, worms, cells);
  }

  /** So is the game that a heartbeat begins, as Server.HandleHeartbeat states it. */
  lemma BegunGrows(p: System, g: uint32, s: GameRules.State, width: uint32, height: uint32, n: nat, cells: nat -> Cell)
    requires g !in p.logs && S.SetUpWith(s, width, height, n, cells) && S.StateOk(s) && |s.events| < WRAP
    ensures Grows(p, p.(logs := p.logs[g := s.events]), g, s.events)
  {
    var worms :| |worms| == n && Newcomers(worms) && s == Begin(AsWritten, width, height, worms, seq(n, cells));
    PlacedNames(AsWritten, Opening(width, height, worms), 0, seq(n, cells));
    BeginGrows(p, g, width, height, worms, seq(n, cells));
  }

  lemma RoundGrows(p: System, g: uint32, s: GameRules.State, to: seq<Cell>)
    requires g in p.logs && p.logs[g] == s.events
    requires Between(s) && !s.finished && |to| == |s.worms|
    requires Listable(NamesOf(s.worms)) && |Round(s, to).events| < WRAP
    ensures var log := Round(s, to).events;
            Grows(p, p.(logs := p.logs[g := log]), g, log)
  {
    RoundsLog(s, to);
  }

  // ---------- packages ----------

  function Payloads(packets: seq<Packet>): set<seq<byte>> {
    set packet <- packets :: packet.bytes
  }

  function WithPackets(p: System, packets: seq<Packet>): System {
    p.(network := p.network + Payloads(packets))
  }

  /** A package is a step in which the server sends from its log. */
  lemma PackageSends(crc: Checksum, p: System, g: uint32, next: nat, to: Address)
    requires g in p.logs && next <= |p.logs[g]|
    ensures var packets := Package(News(crc, g, p.logs[g], next), to);
            && (forall i :: 0 <= i < |packets| ==> packets[i].to == to)
            && Sends(crc, p, WithPackets(p, packets), g, next)
  {
    var n := News(crc, g, p.logs[g], next);
    var slices := Slices(p.logs[g][next..]);
    PackageIs(n, to, slices);
    PacketsBytes(crc, g, to, slices, Package(n, to));
  }

  // ---------- runs ----------

  /** A stretch of a run from p to q. */
  ghost predicate Leads(v: Variant, crc: Checksum, p: System, q: System, run: seq<System>) {
    && run != [] && run[0] == p && run[|run| - 1] == q
    && forall i :: 0 < i < |run| ==> Step(v, crc, run[i - 1], run[i])
  }

  lemma LeadsOn(v: Variant, crc: Checksum, p: System, q: System, run: seq<System>, r: System)
    requires Leads(v, crc, p, q, run) && Step(v, crc, q, r)
    ensures Leads(v, crc, p, r, run + [r])
  {
    var more := run + [r];
    forall i | 0 < i < |more| ensures Step(v, crc, more[i - 1], more[i]) {
      assert i < |run| ==> Step(v, crc, run[i - 1], run[i]);
    }
  }

  lemma PayloadsMore(a: seq<Packet>, b: seq<Packet>)
    ensures Payloads(a + b) == Payloads(a) + Payloads(b)
  {
    forall packet | packet in a || packet in b ensures packet in a + b {}
  }

  /** A bulletin is a series of such steps, one for each of the audience. */
  lemma {:induction false} BulletinLeads(v: Variant, crc: Checksum, p: System, g: uint32, next: nat,
                                         audience: seq<Address>) returns (run: seq<System>)
    requires g in p.logs && next <= |p.logs[g]|
    ensures Leads(v, crc, p, WithPackets(p, Bulletin(crc, g, p.logs[g], next, audience)), run)
    decreases |audience|
  {
    if audience == [] {
      run := [p];
      assert WithPackets(p, []) == p;
    } else {
      var n := |audience| - 1;
      var front := Bulletin(crc, g, p.logs[g], next, audience[..n]);
      var last := Package(News(crc, g, p.logs[g], next), audience[n]);
      run := BulletinLeads(v, crc, p, g, next, audience[..n]);
      var q := WithPackets(p, front);
      PackageSends(crc, q, g, next, audience[n]);
      PayloadsMore(front, last);
      assert Bulletin(crc, g, p.logs[g], next, audience) == front + last;
      assert WithPackets(q, last) == WithPackets(p, front + last);
      LeadsOn(v, crc, p, q, run, WithPackets(q, last));
      run := run + [WithPackets(q, last)];
    }
  }

  /** So is the reply to a heartbeat, whatever number it asks for. */
  lemma ReplyLeads(v: Variant, crc: Checksum, p: System, g: uint32, next: nat, to: Address) returns (run: seq<System>)
    requires g in p.logs
    ensures Leads(v, crc, p, WithPackets(p, Package(News(crc, g, p.logs[g], next), to)), run)
  {
    if next <= |p.logs[g]| {
      PackageSends(crc, p, g, next, to);
      run := [p, WithPackets(p, Package(News(crc, g, p.logs[g], next), to))];
      assert Step(v, crc, run[0], run[1]);
    } else {
      run := [p];
      assert WithPackets(p, []) == p;
    }
  }

  /** A round of a game with everything it queues, as Server.RoundRoutine states it, is a stretch of a run. */
  lemma RoundLeads(v: Variant, crc: Checksum, p: System, g: uint32, s: GameRules.State, to: seq<Cell>, next: nat,
                   audience: seq<Address>) returns (run: seq<System>)
    requires g in p.logs && p.logs[g] == s.events && Between(s) && !s.finished && |to| == |s.worms|
    requires Listable(NamesOf(s.worms)) && |Round(s, to).events| < WRAP && next <= |s.events|
    ensures var q := p.(logs := p.logs[g := Round(s, to).events]);
            Leads(v, crc, p, WithPackets(q, Bulletin(crc, g, Round(s, to).events, next, audience)), run)
  {
    var log := Round(s, to).events;
    var q := p.(logs := p.logs[g := log]);
    RoundGrows(p, g, s, to);
    RoundsLog(s, to);
    var rest := BulletinLeads(v, crc, q, g, next, audience);
    run := [p] + rest;
    forall i | 0 < i < |run| ensures Step(v, crc, run[i - 1], run[i]) {
      if i == 1 {
        assert run[0] == p && run[1] == q && Grows(p, q, g, log);
      } else {
        assert Step(v, crc, rest[i - 2], rest[i - 1]);
      }
    }
  }
}
