/** Who is connected, who is idle and when a game begins in Server/Server.cpp, told from the history of heartbeats, idle
    sweeps and rounds alone. */
module Sessions {
  import opened Bytes
  import opened Wire
  import opened Variants
  import opened RegistryRules

  // ---------- histories ----------

  datatype House = House(registry: Registry, roundNo: nat, running: bool)

  datatype Op =
    | Hear(a: Address, h: Heartbeat)
    | Idles(duration: nat)        // how long a round lasts, in nanoseconds
    | Round(finishes: bool)       // whether the game that goes on is finished in it

  function Next(s: House, op: Op): House {
    match op
    case Hear(a, h) =>
      var opens := Opens(s.registry, s.roundNo, s.running, a, h);
      House(StartedIf(opens, Beat(AsWritten, s.registry, s.roundNo, s.running, a, h)), s.roundNo, s.running || opens)
    case Idles(duration) => s.(registry := Swept(s.registry, Idlers(s.registry, s.roundNo, duration)))
    case Round(finishes) => s.(roundNo := s.roundNo + 1, running := s.running && !finishes)
  }

  /** After the first n of them, from an empty server. */
  function At(ops: seq<Op>, n: nat): House
    requires n <= |ops|
  {
    if n == 0 then House(NOBODY, 0, false) else Next(At(ops, n - 1), ops[n - 1])
  }

  function Clients(ops: seq<Op>, n: nat): map<Address, Peer>
    requires n <= |ops|
  {
    At(ops, n).registry.clients
  }

  // ---------- what happened in them ----------

  /** A name of at most twenty characters that can be seen. */
  predicate Fits(name: Name) {
    |name| <= 20 && forall i :: 0 <= i < |name| ==> 33 <= name[i] <= 126
  }

  /** The session is connected from a all the time between. */
  predicate Stays(ops: seq<Op>, m: nat, n: nat, a: Address, session: uint64)
    requires n <= |ops|
  {
    forall k :: m <= k <= n ==> a in Clients(ops, k) && Clients(ops, k)[a].session == session
  }

  predicate Begins(ops: seq<Op>, n: nat)
    requires n < |ops|
  {
    !At(ops, n).running && At(ops, n + 1).running
  }

  /** Operation m is a heartbeat of the session that is connected from a in state n, the one that connected it or a
      later one. */
  predicate Beats(ops: seq<Op>, m: nat, n: nat, a: Address)
    requires m < n <= |ops|
  {
    ops[m].Hear? && ops[m].a == a && Fits(ops[m].h.name) && Stays(ops, m + 1, n, a, ops[m].h.session)
  }

  /** Operation m is a heartbeat with a key held, while no game goes on, from the session that is connected from a by
      then and up to state n; and no game has begun since. */
  predicate Presses(ops: seq<Op>, m: nat, n: nat, a: Address)
    requires m <= n <= |ops| && m < |ops|
  {
    && ops[m].Hear? && ops[m].a == a && Fits(ops[m].h.name) && (ops[m].h.direction == 1 || ops[m].h.direction == 2)
    && !At(ops, m).running && Stays(ops, m, n, a, ops[m].h.session)
    && forall k :: m <= k < n ==> !Begins(ops, k)
  }

  predicate HasPressed(ops: seq<Op>, upTo: nat, n: nat, a: Address)
    requires upTo <= n + 1 && n <= |ops| && upTo <= |ops|
  {
    exists m :: 0 <= m < upTo && Presses(ops, m, n, a)
  }

  // ---------- ready ----------

  predicate ReadyOk(ops: seq<Op>, n: nat)
    requires n <= |ops|
  {
    forall a <- Clients(ops, n) :: Clients(ops, n)[a].name != [] ==>
      (Clients(ops, n)[a].ready <==> HasPressed(ops, n, n, a))
  }

  /** Whoever stays on has still pressed, unless a game has begun; and the last operation may be a key press. */
  lemma PressesNext(ops: seq<Op>, n: nat, m: nat, a: Address)
    requires m < n < |ops| && a in Clients(ops, n) && a in Clients(ops, n + 1)
    requires Clients(ops, n)[a].session == Clients(ops, n + 1)[a].session
    ensures Presses(ops, m, n + 1, a) <==> Presses(ops, m, n, a) && !Begins(ops, n)
  {
    if Presses(ops, m, n, a) {
      forall k | m <= k <= n + 1
        ensures a in Clients(ops, k) && Clients(ops, k)[a].session == ops[m].h.session
      {
        if k <= n {
          assert Stays(ops, m, n, a, ops[m].h.session);
        } else {
          assert a in Clients(ops, n) && Clients(ops, n)[a].session == ops[m].h.session;
        }
      }
    }
  }

  lemma HasPressedNext(ops: seq<Op>, n: nat, a: Address)
    requires n < |ops| && a in Clients(ops, n) && a in Clients(ops, n + 1)
    requires Clients(ops, n)[a].session == Clients(ops, n + 1)[a].session
    ensures HasPressed(ops, n + 1, n + 1, a)
            <==> !Begins(ops, n) && (HasPressed(ops, n, n, a) || Presses(ops, n, n, a))
  {
    if HasPressed(ops, n + 1, n + 1, a) {
      var m :| 0 <= m < n + 1 && Presses(ops, m, n + 1, a);
      if m < n {
        PressesNext(ops, n, m, a);
        assert HasPressed(ops, n, n, a);
      } else {
        PressesLast(ops, n, a);
      }
    }
    if !Begins(ops, n) {
      if HasPressed(ops, n, n, a) {
        var m :| 0 <= m < n && Presses(ops, m, n, a);
        PressesNext(ops, n, m, a);
      } else if Presses(ops, n, n, a) {
        PressesLast(ops, n, a);
      }
    }
  }

  lemma PressesLast(ops: seq<Op>, n: nat, a: Address)
    requires n < |ops| && a in Clients(ops, n) && a in Clients(ops, n + 1)
    requires Clients(ops, n)[a].session == Clients(ops, n + 1)[a].session
    ensures Presses(ops, n, n + 1, a) <==> Presses(ops, n, n, a) && !Begins(ops, n)
  {
    if Presses(ops, n, n, a) {
      forall k | n <= k <= n + 1
        ensures a in Clients(ops, k) && Clients(ops, k)[a].session == ops[n].h.session
      {
        assert a in Clients(ops, n) && Clients(ops, n)[a].session == ops[n].h.session;
      }
    }
  }

  /** The heartbeat of a session that is connected, with a key held, while no game goes on. */
  predicate Key(s: House, op: Op, a: Address) {
    && op.Hear? && op.a == a && Fits(op.h.name) && (op.h.direction == 1 || op.h.direction == 2)
    && !s.running && a in s.registry.clients && s.registry.clients[a].session == op.h.session
  }

  lemma KeyIsPress(ops: seq<Op>, n: nat, a: Address)
    requires n < |ops|
    ensures Presses(ops, n, n, a) <==> Key(At(ops, n), ops[n], a)
  {
    if Presses(ops, n, n, a) {
      assert a in Clients(ops, n) && Clients(ops, n)[a].session == ops[n].h.session;
    }
    if Key(At(ops, n), ops[n], a) {
      assert Stays(ops, n, n, a, ops[n].h.session);
    }
  }

  /** One operation, seen from one client: it is the same session as before, or a new one. */
  predicate Continues(s: House, t: House, op: Op, a: Address)
    requires a in t.registry.clients
  {
    var now := t.registry.clients[a];
    if a in s.registry.clients && s.registry.clients[a].session == now.session then
      var before := s.registry.clients[a];
      && now.name == before.name
      && (now.name != [] ==> (now.ready <==> (t.running ==> s.running) && (before.ready || Key(s, op, a))))
    else !now.ready
  }

  lemma HearContinues(s: House, op: Op, a: Address)
    requires op.Hear? && a in Next(s, op).registry.clients
    ensures Continues(s, Next(s, op), op, a)
  {
    var t := Beat(AsWritten, s.registry, s.roundNo, s.running, op.a, op.h);
    assert a in t.clients;
  }

  lemma NextContinues(s: House, op: Op, a: Address)
    requires a in Next(s, op).registry.clients
    ensures Continues(s, Next(s, op), op, a)
  {
    if op.Hear? {
      HearContinues(s, op, a);
    }
  }

  lemma NewcomerHasNot(ops: seq<Op>, n: nat, a: Address)
    requires n < |ops| && a in Clients(ops, n + 1)
    requires a in Clients(ops, n) ==> Clients(ops, n)[a].session != Clients(ops, n + 1)[a].session
    ensures !HasPressed(ops, n + 1, n + 1, a)
  {}

  /** Over every history: whoever has a name is ready exactly if it has pressed a key since it connected and since the
      last game began, while no game went on. */
  lemma {:induction false} ReadyExactly(ops: seq<Op>, n: nat)
    requires n <= |ops|
    ensures ReadyOk(ops, n)
  {
    if n > 0 {
      ReadyExactly(ops, n - 1);
      forall a <- Clients(ops, n) | Clients(ops, n)[a].name != []
        ensures Clients(ops, n)[a].ready <==> HasPressed(ops, n, n, a)
      {
        ReadyNext(ops, n - 1, a);
      }
    }
  }

  lemma ReadyNext(ops: seq<Op>, n: nat, a: Address)
    requires n < |ops| && ReadyOk(ops, n) && a in Clients(ops, n + 1) && Clients(ops, n + 1)[a].name != []
    ensures Clients(ops, n + 1)[a].ready <==> HasPressed(ops, n + 1, n + 1, a)
  {
    NextContinues(At(ops, n), ops[n], a);
    if a in Clients(ops, n) && Clients(ops, n)[a].session == Clients(ops, n + 1)[a].session {
      HasPressedNext(ops, n, a);
      KeyIsPress(ops, n, a);
    } else {
      NewcomerHasNot(ops, n, a);
    }
  }

  // ---------- when a game begins ----------

  predicate TwoNamed(clients: map<Address, Peer>) {
    exists a, b :: a in clients && b in clients && a != b && clients[a].name != [] && clients[b].name != []
  }

  /** The heartbeat that is operation n lets a game begin: told from what was heard. */
  predicate Complete(ops: seq<Op>, n: nat)
    requires n < |ops|
  {
    && ops[n].Hear? && Presses(ops, n, n, ops[n].a) && TwoNamed(Clients(ops, n))
    && forall a <- Clients(ops, n) :: Clients(ops, n)[a].name != [] ==> HasPressed(ops, n + 1, n, a)
  }

  lemma TwoPlayers(r: Registry)
    ensures |Players(r)| >= 2 <==> TwoNamed(r.clients)
  {
    var named := Players(r);
    if |named| >= 2 {
      var a :| a in named;
      var rest := named - {a};
      assert |rest| >= 1;
      var b :| b in rest;
    }
    if TwoNamed(r.clients) {
      var a, b :| a in r.clients && b in r.clients && a != b && r.clients[a].name != [] && r.clients[b].name != [];
      assert {a, b} <= named;
      Cardinality({a, b}, named);
    }
  }

  lemma {:induction false} Cardinality(a: set<Address>, b: set<Address>)
    requires a <= b
    ensures |a| <= |b|
    decreases a
  {
    if a != {} {
      var x :| x in a;
      Cardinality(a - {x}, b - {x});
    }
  }

  lemma BeginsKey(s: House, op: Op)
    ensures !s.running && Next(s, op).running <==>
            op.Hear? && Key(s, op, op.a) && TwoNamed(s.registry.clients)
            && forall a <- s.registry.clients :: s.registry.clients[a].name != [] ==>
                 s.registry.clients[a].ready || a == op.a
  {
    if op.Hear? && Key(s, op, op.a) {
      var r := Beat(AsWritten, s.registry, s.roundNo, s.running, op.a, op.h);
      assert r.clients.Keys == s.registry.clients.Keys;
      assert Players(r) == Players(s.registry);
      TwoPlayers(s.registry);
    }
  }

  /** Over every history a heartbeat lets a game begin exactly if none goes on, it comes with a key held from the
      session that is connected, at least two clients have a name, and each that has one has pressed a key since it
      connected and since the last game began, while no game went on. */
  lemma BeginsExactly(ops: seq<Op>, n: nat)
    requires n < |ops|
    ensures Begins(ops, n) <==> Complete(ops, n)
  {
    var s, op := At(ops, n), ops[n];
    BeginsKey(s, op);
    ReadyExactly(ops, n);
    if op.Hear? {
      KeyIsPress(ops, n, op.a);
    }
    forall a <- Clients(ops, n)
      ensures HasPressed(ops, n + 1, n, a) <==> HasPressed(ops, n, n, a) || Presses(ops, n, n, a)
    {
      if HasPressed(ops, n + 1, n, a) {
        var m :| 0 <= m < n + 1 && Presses(ops, m, n, a);
        assert m < n || m == n;
      }
    }
  }

  // ---------- the idle ----------

  /** The last heartbeat of the session that is connected from a. */
  predicate LastBeat(ops: seq<Op>, m: nat, n: nat, a: Address)
    requires m < n <= |ops|
  {
    Beats(ops, m, n, a) && forall k :: m < k < n ==> !Beats(ops, k, n, a)
  }

  predicate Noted(ops: seq<Op>, m: nat, n: nat, a: Address)
    requires m < n <= |ops| && a in Clients(ops, n)
  {
    && LastBeat(ops, m, n, a) && Clients(ops, n)[a].last == At(ops, m).roundNo
    && Clients(ops, n)[a].direction == ops[m].h.direction
  }

  /** One operation, seen from one client: it is heard, or it is silent. */
  predicate Hears(s: House, op: Op, a: Address, now: Peer) {
    op.Hear? && op.a == a && Fits(op.h.name) && now.session == op.h.session
  }

  lemma NextHears(s: House, op: Op, a: Address)
    requires a in Next(s, op).registry.clients
    ensures var now := Next(s, op).registry.clients[a];
            if Hears(s, op, a, now) then now.last == s.roundNo && now.direction == op.h.direction
            else a in s.registry.clients
                 && var before := s.registry.clients[a];
                    now.session == before.session && now.last == before.last && now.direction == before.direction
  {
    if op.Hear? {
      assert a in Beat(AsWritten, s.registry, s.roundNo, s.running, op.a, op.h).clients;
    }
  }

  lemma BeatsNext(ops: seq<Op>, m: nat, n: nat, a: Address)
    requires m < n < |ops| && a in Clients(ops, n) && a in Clients(ops, n + 1)
    requires Clients(ops, n)[a].session == Clients(ops, n + 1)[a].session
    ensures Beats(ops, m, n + 1, a) <==> Beats(ops, m, n, a)
  {
    if Beats(ops, m, n, a) {
      forall k | m + 1 <= k <= n + 1
        ensures a in Clients(ops, k) && Clients(ops, k)[a].session == ops[m].h.session
      {
        if k <= n {
          assert Stays(ops, m + 1, n, a, ops[m].h.session);
        } else {
          assert a in Clients(ops, n) && Clients(ops, n)[a].session == ops[m].h.session;
        }
      }
    }
  }

  /** Over every history: of each client the round and the direction of its last heartbeat are noted. */
  lemma {:induction false} LastIsNoted(ops: seq<Op>, n: nat, a: Address) returns (m: nat)
    requires n <= |ops| && a in Clients(ops, n)
    ensures m < n && Noted(ops, m, n, a)
    decreases n
  {
    var s, op := At(ops, n - 1), ops[n - 1];
    NextHears(s, op, a);
    if Hears(s, op, a, Clients(ops, n)[a]) {
      m := n - 1;
      assert Stays(ops, n, n, a, op.h.session);
    } else {
      m := LastIsNoted(ops, n - 1, a);
      BeatsNext(ops, m, n - 1, a);
      forall k | m < k < n ensures !Beats(ops, k, n, a) {
        if k < n - 1 {
          BeatsNext(ops, k, n - 1, a);
        }
      }
    }
  }

  lemma {:induction false} RoundsPass(ops: seq<Op>, m: nat, n: nat)
    requires m <= n <= |ops|
    ensures At(ops, m).roundNo <= At(ops, n).roundNo
    decreases n
  {
    if m < n {
      RoundsPass(ops, m, n - 1);
    }
  }

  /** The session connected from a has been heard in the last two seconds. */
  predicate HeardLately(ops: seq<Op>, n: nat, a: Address, duration: nat)
    requires n <= |ops|
  {
    exists m :: 0 <= m < n && Beats(ops, m, n, a)
                && (At(ops, n).roundNo - At(ops, m).roundNo) * duration < 2_000_000_000
  }

  lemma EarlierIsLonger(now: nat, last: nat, earlier: nat, duration: nat)
    requires earlier <= last <= now
    ensures (now - last) * duration <= (now - earlier) * duration
  {}

  /** Over every history a sweep leaves exactly those clients, as they are, of whom a heartbeat came in a round less
      than two seconds ago. */
  lemma SweepsExactly(ops: seq<Op>, n: nat, a: Address)
    requires n < |ops| && ops[n].Idles?
    ensures a in Clients(ops, n + 1) <==> a in Clients(ops, n) && HeardLately(ops, n, a, ops[n].duration)
    ensures a in Clients(ops, n + 1) ==> Clients(ops, n + 1)[a] == Clients(ops, n)[a]
  {
    if a in Clients(ops, n) {
      var last := LastIsNoted(ops, n, a);
      forall m | 0 <= m < n && Beats(ops, m, n, a) ensures m <= last {}
      forall m | 0 <= m < n && Beats(ops, m, n, a)
        ensures (At(ops, n).roundNo - At(ops, last).roundNo) * ops[n].duration
                <= (At(ops, n).roundNo - At(ops, m).roundNo) * ops[n].duration
      {
        RoundsPass(ops, m, last);
        RoundsPass(ops, last, n);
        EarlierIsLonger(At(ops, n).roundNo, At(ops, last).roundNo, At(ops, m).roundNo, ops[n].duration);
      }
    }
  }

  // ---------- who is connected ----------

  /** A heartbeat under an acceptable name: afterwards its session is connected from its address exactly if it is not
      newer than the one connected there or, with none there, nobody has its name; a session that was not connected then
      starts afresh, and nobody else is touched. Under any other name nothing happens. */
  lemma ConnectsExactly(r: Registry, roundNo: nat, running: bool, a: Address, h: Heartbeat)
    requires Exact(r)
    ensures var t := Beat(AsWritten, r, roundNo, running, a, h).clients;
            if Fits(h.name) then
              && (a in t && t[a].session == h.session <==>
                    if a in r.clients then h.session <= r.clients[a].session
                    else forall b <- r.clients :: r.clients[b].name == [] || r.clients[b].name != h.name)
              && (a in t && t[a].session == h.session && (a in r.clients ==> r.clients[a].session != h.session) ==>
                    t[a] == Peer(h.session, roundNo, h.name, h.direction, false))
              && t - {a} == r.clients - {a}
            else t == r.clients
  {
    if a !in r.clients {
      assert h.name in r.names <==> exists b <- r.clients :: r.clients[b].name != [] && r.clients[b].name == h.name;
    }
  }

  /** Over every history in which nobody takes a name that is in use, the names taken are those in use. */
  lemma {:induction false} HistoriesExact(ops: seq<Op>, n: nat)
    requires n <= |ops|
    requires forall k :: 0 <= k < n && ops[k].Hear? ==> !TakesName(At(ops, k).registry, ops[k].a, ops[k].h)
    ensures Exact(At(ops, n).registry)
  {
    if n > 0 {
      HistoriesExact(ops, n - 1);
      var s := At(ops, n - 1);
      match ops[n - 1] {
        case Hear(a, h) =>
          BeatExactly(AsWritten, s.registry, s.roundNo, s.running, a, h);
          var r := Beat(AsWritten, s.registry, s.roundNo, s.running, a, h);
          SameUsed(r, Started(r));
        case Idles(duration) => SweptKeeps(s.registry, Idlers(s.registry, s.roundNo, duration));
        case Round(_) =>
      }
    }
  }

  // ---------- two seconds in rounds ----------

  lemma Multiplied(v: nat, d: nat, rounds: nat)
    requires v * d <= 1_000_000_000
    ensures rounds < 2 * v ==> rounds * d < 2_000_000_000
    ensures 2 * v * d == 2 * (v * d)
  {
    if rounds < 2 * v && d > 0 {
      assert rounds * d < 2 * v * d;
    }
  }

  /** With so many rounds in a second, nobody is idle before two seconds' worth of rounds have passed; then they are if
      and only if a round lasts a whole number of nanoseconds; and with more than 10^9 of them nobody ever is. */
  lemma TwoSecondsExactly(roundsPerSec: uint32, rounds: nat, duration: nat)
    requires roundsPerSec > 0 && duration == 1_000_000_000 / roundsPerSec
    ensures rounds < 2 * roundsPerSec ==> rounds * duration < 2_000_000_000
    ensures 2 * roundsPerSec * duration >= 2_000_000_000 <==> 1_000_000_000 % roundsPerSec == 0
    ensures roundsPerSec > 1_000_000_000 ==> rounds * duration < 2_000_000_000
    ensures roundsPerSec <= 1_000_000_000 ==> 2_000_000_000 * duration >= 2_000_000_000
  {
    var v: nat, rest := roundsPerSec, 1_000_000_000 % roundsPerSec;
    assert v * duration + rest == 1_000_000_000;
    Multiplied(v, duration, rounds);
    if v > 1_000_000_000 {
      SmallQuotient(v);
    } else {
      PositiveQuotient(v);
    }
  }

  lemma SmallQuotient(v: nat)
    requires v > 1_000_000_000
    ensures 1_000_000_000 / v == 0
  {}

  lemma PositiveQuotient(v: nat)
    requires 0 < v <= 1_000_000_000
    ensures 1_000_000_000 / v >= 1
  {
    var q, r := 1_000_000_000 / v, 1_000_000_000 % v;
    assert v * q + r == 1_000_000_000;
    assert q == 0 ==> v * q == 0;
  }
}
