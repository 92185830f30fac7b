/** Who is connected to Server/Server.cpp and under which names. */
module RegistryRules {
  import opened Bytes
  import opened Wire
  import opened Variants

  // A client that comes with another session may take a name that is in use. Repaired makes the check that newcomers
  // have to pass.

  datatype Peer = Peer(session: uint64, last: nat, name: Name, direction: byte, ready: bool)

  datatype Registry = Registry(clients: map<Address, Peer>, names: set<Name>)

  const NS_IN_SEC: nat := 1_000_000_000
  const DISCONNECT_THRESHOLD: nat := 2 * NS_IN_SEC

  predicate NameOk(name: Name) {
    |name| <= 20 && forall i :: 0 <= i < |name| ==> 33 <= name[i] <= 126
  }

  // ---------- operations ----------

  function Newcomer(h: Heartbeat, roundNo: nat): Peer {
    Peer(h.session, roundNo, h.name, h.direction, false)
  }

  function Named(name: Name): set<Name> {
    if name == [] then {} else {name}
  }

  function Connected(r: Registry, a: Address, c: Peer): Registry
    requires a !in r.clients
  {
    Registry(r.clients[a := c], r.names + Named(c.name))
  }

  function Disconnected(r: Registry, a: Address): Registry
    requires a in r.clients
  {
    Registry(r.clients - {a}, r.names - Named(r.clients[a].name))
  }

  predicate Idle(c: Peer, roundNo: nat, duration: nat) {
    (roundNo - c.last) * duration >= DISCONNECT_THRESHOLD
  }

  function Swept(r: Registry, gone: set<Address>): Registry
    requires gone <= r.clients.Keys
  {
    Registry(r.clients - gone, r.names - set a <- gone | r.clients[a].name != [] :: r.clients[a].name)
  }

  predicate Turns(direction: byte) {
    direction == LEFT || direction == RIGHT
  }

  function Steered(c: Peer, direction: byte, running: bool): Peer {
    c.(ready := c.ready || (!running && Turns(direction)))
  }

  function Beaten(c: Peer, h: Heartbeat, roundNo: nat, running: bool): Peer {
    Steered(c.(last := roundNo, direction := h.direction), h.direction, running)
  }

  /** A heartbeat from a; running: a game is going on. */
  function Beat(v: Variant, r: Registry, roundNo: nat, running: bool, a: Address, h: Heartbeat): Registry {
    if !NameOk(h.name) then r
    else if a !in r.clients then if h.name in r.names then r else Connected(r, a, Newcomer(h, roundNo))
    else if r.clients[a].session == h.session then
      r.(clients := r.clients[a := Beaten(r.clients[a], h, roundNo, running)])
    else if r.clients[a].session > h.session then
      if v.Repaired? && h.name in Disconnected(r, a).names then r
      else Connected(Disconnected(r, a), a, Newcomer(h, roundNo))
    else r
  }

  /** A game begins: nobody is ready any more. */
  function Started(r: Registry): Registry {
    r.(clients := map a <- r.clients :: if r.clients[a].name == [] then r.clients[a] else r.clients[a].(ready := false))
  }

  function StartedIf(starts: bool, r: Registry): Registry {
    if starts then Started(r) else r
  }

  /** The addresses of those who want to play. */
  function Players(r: Registry): set<Address> {
    set a <- r.clients | r.clients[a].name != []
  }

  /** At least two want to play, and all of them are ready. */
  predicate CanBegin(r: Registry) {
    |Players(r)| >= 2 && forall a <- Players(r) :: r.clients[a].ready
  }

  /** The heartbeat after which a game begins. */
  predicate Opens(r: Registry, roundNo: nat, running: bool, a: Address, h: Heartbeat) {
    && !running && NameOk(h.name) && Turns(h.direction) && a in r.clients && r.clients[a].session == h.session
    && CanBegin(Beat(AsWritten, r, roundNo, running, a, h))
  }

  /** Whether the sender is connected anew. */
  predicate Admits(r: Registry, a: Address, h: Heartbeat) {
    NameOk(h.name) && if a in r.clients then r.clients[a].session > h.session else h.name !in r.names
  }

  // ---------- what holds ----------

  function Used(r: Registry): set<Name> {
    set a <- r.clients | r.clients[a].name != [] :: r.clients[a].name
  }

  /** Only names in use are taken. */
  predicate Sound(r: Registry) {
    r.names <= Used(r)
  }

  predicate NamesDistinct(r: Registry) {
    forall a, b :: a in r.clients && b in r.clients && a != b && r.clients[a].name != [] ==>
      r.clients[a].name != r.clients[b].name
  }

  /** The taken names are exactly those in use, and no two clients use the same. */
  predicate Exact(r: Registry) {
    r.names == Used(r) && NamesDistinct(r)
  }

  lemma ConnectedUsed(r: Registry, a: Address, c: Peer)
    requires a !in r.clients
    ensures Used(Connected(r, a, c)) == Used(r) + Named(c.name)
  {
    var t := Connected(r, a, c);
    forall n | n in Used(r) ensures n in Used(t) {
      var b :| b in r.clients && r.clients[b].name != [] && r.clients[b].name == n;
      assert b in t.clients && t.clients[b].name == n;
    }
    assert a in t.clients && t.clients[a].name == c.name;
  }

  lemma DisconnectedUsed(r: Registry, a: Address)
    requires a in r.clients
    ensures Used(r) == Used(Disconnected(r, a)) + Named(r.clients[a].name)
  {
    var t := Disconnected(r, a);
    forall n | n in Used(r) ensures n in Used(t) + Named(r.clients[a].name) {
      var b :| b in r.clients && r.clients[b].name != [] && r.clients[b].name == n;
      assert b != a ==> b in t.clients && t.clients[b].name == n;
    }
    forall n | n in Used(t) ensures n in Used(r) {
      var b :| b in t.clients && t.clients[b].name != [] && t.clients[b].name == n;
      assert b in r.clients && r.clients[b].name == n;
    }
  }

  /** A newcomer keeps the names exact if and only if its name is not in use. */
  lemma ConnectExactly(r: Registry, a: Address, c: Peer)
    requires a !in r.clients && Exact(r)
    ensures Exact(Connected(r, a, c)) <==> c.name !in Used(r)
  {
    ConnectedUsed(r, a, c);
    var t := Connected(r, a, c);
    if c.name in Used(r) {
      var b :| b in r.clients && r.clients[b].name != [] && r.clients[b].name == c.name;
      assert a in t.clients && b in t.clients && a != b && t.clients[b].name == t.clients[a].name;
    } else {
      forall b | b in r.clients && r.clients[b].name != [] ensures r.clients[b].name != c.name {
        assert r.clients[b].name in Used(r);
      }
    }
  }

  lemma DisconnectExact(r: Registry, a: Address)
    requires a in r.clients && Exact(r)
    ensures Exact(Disconnected(r, a))
  {
    DisconnectedUsed(r, a);
    var t, n := Disconnected(r, a), r.clients[a].name;
    forall b | b in t.clients && n != [] ensures t.clients[b].name != n {
      assert b in r.clients && b != a && r.clients[b] == t.clients[b];
    }
  }

  lemma DisconnectSound(r: Registry, a: Address)
    requires a in r.clients && Sound(r)
    ensures Sound(Disconnected(r, a))
  {
    DisconnectedUsed(r, a);
  }

  lemma ConnectSound(r: Registry, a: Address, c: Peer)
    requires a !in r.clients && Sound(r)
    ensures Sound(Connected(r, a, c))
  {
    ConnectedUsed(r, a, c);
  }

  /** Clients changed in nothing that matters for names. */
  predicate SameNames(r: Registry, t: Registry) {
    && r.names == t.names && r.clients.Keys == t.clients.Keys
    && forall a <- r.clients :: r.clients[a].name == t.clients[a].name
  }

  lemma SameUsed(r: Registry, t: Registry)
    requires SameNames(r, t)
    ensures Used(r) == Used(t) && (Sound(r) ==> Sound(t)) && (Exact(r) ==> Exact(t))
  {
    forall n | n in Used(r) ensures n in Used(t) {
      var b :| b in r.clients && r.clients[b].name != [] && r.clients[b].name == n;
      assert b in t.clients && t.clients[b].name == n;
    }
    forall n | n in Used(t) ensures n in Used(r) {
      var b :| b in t.clients && t.clients[b].name != [] && t.clients[b].name == n;
      assert b in r.clients && r.clients[b].name == n;
    }
  }

  // ---------- sweeping is disconnecting one by one ----------

  lemma SweptOne(r: Registry, gone: set<Address>, a: Address)
    requires gone <= r.clients.Keys && a in r.clients && a !in gone
    ensures Swept(r, gone + {a}) == Disconnected(Swept(r, gone), a)
  {
    var l, t := Swept(r, gone + {a}), Disconnected(Swept(r, gone), a);
    assert l.clients == t.clients;
    var before := set b <- gone | r.clients[b].name != [] :: r.clients[b].name;
    var after := set b <- gone + {a} | r.clients[b].name != [] :: r.clients[b].name;
    assert after == before + Named(r.clients[a].name) by {
      forall n | n in before ensures n in after {
        var b :| b in gone && r.clients[b].name != [] && r.clients[b].name == n;
        assert b in gone + {a};
      }
      assert a in gone + {a};
    }
  }

  lemma {:induction false} SweptKeeps(r: Registry, gone: set<Address>)
    requires gone <= r.clients.Keys
    ensures Sound(r) ==> Sound(Swept(r, gone))
    ensures Exact(r) ==> Exact(Swept(r, gone))
    decreases gone
  {
    if gone == {} {
      assert Swept(r, {}) == r;
    } else {
      var a :| a in gone;
      var rest := gone - {a};
      SweptKeeps(r, rest);
      SweptOne(r, rest, a);
      assert rest + {a} == gone;
      if Sound(r) {
        DisconnectSound(Swept(r, rest), a);
      }
      if Exact(r) {
        DisconnectExact(Swept(r, rest), a);
      }
    }
  }

  // ---------- heartbeats ----------

  /** The client at a comes back with an older session and a name that another client uses. */
  predicate TakesName(r: Registry, a: Address, h: Heartbeat) {
    && NameOk(h.name) && a in r.clients && r.clients[a].session > h.session
    && h.name in Used(Disconnected(r, a))
  }

  lemma BeatSound(v: Variant, r: Registry, roundNo: nat, running: bool, a: Address, h: Heartbeat)
    requires Sound(r)
    ensures Sound(Beat(v, r, roundNo, running, a, h))
  {
    if a in r.clients {
      if r.clients[a].session == h.session {
        SameUsed(r, r.(clients := r.clients[a := Beaten(r.clients[a], h, roundNo, running)]));
      } else {
        DisconnectSound(r, a);
        ConnectSound(Disconnected(r, a), a, Newcomer(h, roundNo));
      }
    } else {
      ConnectSound(r, a, Newcomer(h, roundNo));
    }
  }

  /** A heartbeat keeps the names exact if and only if it does not take a name by replacing a session;
      with the check repaired, always. */
  lemma BeatExactly(v: Variant, r: Registry, roundNo: nat, running: bool, a: Address, h: Heartbeat)
    requires Exact(r)
    ensures Exact(Beat(v, r, roundNo, running, a, h)) <==> v.Repaired? || !TakesName(r, a, h)
  {
    if a in r.clients {
      if r.clients[a].session == h.session {
        SameUsed(r, r.(clients := r.clients[a := Beaten(r.clients[a], h, roundNo, running)]));
      } else {
        DisconnectExact(r, a);
        ConnectExactly(Disconnected(r, a), a, Newcomer(h, roundNo));
      }
    } else {
      ConnectExactly(r, a, Newcomer(h, roundNo));
    }
  }

  // ---------- whole runs ----------

  datatype Op =
    | Receive(roundNo: nat, running: bool, a: Address, h: Heartbeat)
    | Sweep(roundNo: nat, duration: nat)
    | Start

  function Idlers(r: Registry, roundNo: nat, duration: nat): set<Address> {
    set a <- r.clients | Idle(r.clients[a], roundNo, duration)
  }

  function Do(v: Variant, r: Registry, op: Op): Registry {
    match op
    case Receive(roundNo, running, a, h) => Beat(v, r, roundNo, running, a, h)
    case Sweep(roundNo, duration) => Swept(r, Idlers(r, roundNo, duration))
    case Start => Started(r)
  }

  function DoAll(v: Variant, r: Registry, ops: seq<Op>): Registry
    decreases |ops|
  {
    if ops == [] then r else DoAll(v, Do(v, r, ops[0]), ops[1..])
  }

  /** No heartbeat of the run takes a name from another client. */
  predicate TakesNone(v: Variant, r: Registry, ops: seq<Op>)
    decreases |ops|
  {
    ops == [] ||
    ((ops[0].Receive? ==> !TakesName(r, ops[0].a, ops[0].h)) && TakesNone(v, Do(v, r, ops[0]), ops[1..]))
  }

  const NOBODY := Registry(map[], {})

  /** Over every run of heartbeats, sweeps and games, only names in use are taken. */
  lemma {:induction false} RunsSound(v: Variant, r: Registry, ops: seq<Op>)
    requires Sound(r)
    ensures Sound(DoAll(v, r, ops))
    decreases |ops|
  {
    if ops != [] {
      match ops[0] {
        case Receive(roundNo, running, a, h) => BeatSound(v, r, roundNo, running, a, h);
        case Sweep(roundNo, duration) => SweptKeeps(r, Idlers(r, roundNo, duration));
        case Start => SameUsed(r, Started(r));
      }
      RunsSound(v, Do(v, r, ops[0]), ops[1..]);
    }
  }

  /** And while no name is taken by replacing a session, or that is checked, they are exactly the names in use,
      each used once. */
  lemma {:induction false} RunsExact(v: Variant, r: Registry, ops: seq<Op>)
    requires Exact(r) && (v.Repaired? || TakesNone(v, r, ops))
    ensures Exact(DoAll(v, r, ops))
    decreases |ops|
  {
    if ops != [] {
      match ops[0] {
        case Receive(roundNo, running, a, h) => BeatExactly(v, r, roundNo, running, a, h);
        case Sweep(roundNo, duration) => SweptKeeps(r, Idlers(r, roundNo, duration));
        case Start => SameUsed(r, Started(r));
      }
      RunsExact(v, Do(v, r, ops[0]), ops[1..]);
    }
  }

  /** What comes of it: two clients play under one name; when one of them leaves, the name of the other is free. */
  lemma TakenNameFreed(r: Registry, a: Address, b: Address, h: Heartbeat, c: Peer)
    requires a != b && r == Registry(map[a := c, b := c.(name := [])], {c.name})
    requires NameOk(c.name) && c.name != [] && h.name == c.name && h.session < c.session
    ensures Exact(r)
    ensures var t := Beat(AsWritten, r, 0, false, b, h);
            && a in t.clients && b in t.clients && t.clients[a].name == t.clients[b].name == c.name
            && var u := Disconnected(t, b); a in u.clients && u.clients[a].name == c.name && u.names == {}
  {
    assert r.clients[a].name == c.name;
    assert Used(r) == {c.name} by {
      assert a in r.clients;
    }
  }
}
