/** The shared objects of Server/Player.h and Server/ClientData.h, which point at each other while connected. */
module Players {
  import opened Bytes
  import opened Wire
  import opened GameRules

  class ClientData {
    const address: Address
    const sessionId: uint64
    const player: Player
    var lastHeartbeatRoundNo: nat

    constructor (address: Address, sessionId: uint64, lastHeartbeatRoundNo: nat, player: Player)
      ensures this.address == address && this.sessionId == sessionId && this.player == player
      ensures this.lastHeartbeatRoundNo == lastHeartbeatRoundNo
    {
      this.address, this.sessionId, this.player := address, sessionId, player;
      this.lastHeartbeatRoundNo := lastHeartbeatRoundNo;
    }

    method HeartHasBeaten(roundNo: nat)
      modifies this`lastHeartbeatRoundNo
      ensures lastHeartbeatRoundNo == roundNo
    {
      lastHeartbeatRoundNo := roundNo;
    }
  }

  class Player {
    const playerName: Name
    var client: ClientData?
    var ready: bool
    var connected: bool
    var alive: bool
    var turnDirection: byte
    var position: Cell  // the pixel the position lies in

    constructor (playerName: Name, turnDirection: byte)
      ensures this.playerName == playerName && this.turnDirection == turnDirection
      ensures client == null && !ready && !connected && alive
    {
      this.playerName, this.turnDirection := playerName, turnDirection;
      client, ready, connected, alive := null, false, false, true;
      position := Cell(0, 0);
    }

    method AttachToClient(client: ClientData)
      modifies this`connected, this`client
      ensures connected && this.client == client
    {
      connected, this.client := true, client;
    }

    predicate IsObserver() {
      playerName == []
    }

    method GotReady()
      modifies this`ready
      ensures ready
    {
      ready := true;
    }

    method NewGame()
      modifies this`ready, this`alive
      ensures !ready && alive
    {
      ready, alive := false, true;
    }

    method Lose()
      modifies this`alive
      ensures !alive
    {
      alive := false;
    }

    /** The code asserts that the player is connected. */
    method Disconnect()
      requires connected
      modifies this`connected, this`client
      ensures !connected && client == null
    {
      connected, client := false, null;
    }
  }

  // ---------- players by name ----------

  /** operator< of std::string. */
  predicate NameLess(a: Name, b: Name) {
    b != [] && (a == [] || a[0] < b[0] || (a[0] == b[0] && NameLess(a[1..], b[1..])))
  }

  lemma {:induction false} NameLessTotal(a: Name, b: Name)
    ensures NameLess(a, b) || NameLess(b, a) || a == b
    ensures !(NameLess(a, b) && NameLess(b, a))
    decreases |a|
  {
    if a != [] && b != [] && a[0] == b[0] {
      NameLessTotal(a[1..], b[1..]);
      assert a == [a[0]] + a[1..] && b == [b[0]] + b[1..];
    }
  }

  lemma {:induction false} NameLessTransitive(a: Name, b: Name, c: Name)
    requires !NameLess(b, a) && !NameLess(c, b)
    ensures !NameLess(c, a)
    decreases |a|
  {
    if a != [] && b != [] && c != [] && a[0] == b[0] == c[0] {
      NameLessTransitive(a[1..], b[1..], c[1..]);
    }
  }

  predicate ByName(players: seq<Player>) {
    forall i, j :: 0 <= i < j < |players| ==> !NameLess(players[j].playerName, players[i].playerName)
  }

  function InsertByName(p: Player, players: seq<Player>): (r: seq<Player>)
    ensures |r| == |players| + 1
  {
    if players == [] || !NameLess(players[0].playerName, p.playerName) then [p] + players
    else [players[0]] + InsertByName(p, players[1..])
  }

  /** std::sort, of which only the result matters. */
  function SortByName(players: seq<Player>): (r: seq<Player>)
    ensures |r| == |players|
  {
    if players == [] then []
    else InsertByName(players[|players| - 1], SortByName(players[..|players| - 1]))
  }

  lemma {:induction false} InsertMembers(p: Player, players: seq<Player>)
    ensures multiset(InsertByName(p, players)) == multiset(players) + multiset{p}
    decreases |players|
  {
    if players != [] && NameLess(players[0].playerName, p.playerName) {
      InsertMembers(p, players[1..]);
      assert players == [players[0]] + players[1..];
    }
  }

  lemma {:induction false} SortMembers(players: seq<Player>)
    ensures multiset(SortByName(players)) == multiset(players)
    decreases |players|
  {
    if players != [] {
      var n := |players| - 1;
      SortMembers(players[..n]);
      InsertMembers(players[n], SortByName(players[..n]));
      assert players == players[..n] + [players[n]];
    }
  }

  lemma {:induction false} InsertSorts(p: Player, players: seq<Player>)
    requires ByName(players)
    ensures ByName(InsertByName(p, players))
    decreases |players|
  {
    var r := InsertByName(p, players);
    if players == [] {
    } else if NameLess(players[0].playerName, p.playerName) {
      InsertSorts(p, players[1..]);
      InsertMembers(p, players[1..]);
      var rest := InsertByName(p, players[1..]);
      forall j | 0 <= j < |rest| ensures !NameLess(rest[j].playerName, players[0].playerName) {
        assert rest[j] in multiset(players[1..]) + multiset{p};
        NameLessTotal(players[0].playerName, p.playerName);
      }
    } else {
      forall j | 0 <= j < |players| ensures !NameLess(players[j].playerName, p.playerName) {
        if j > 0 {
          NameLessTransitive(p.playerName, players[0].playerName, players[j].playerName);
        }
      }
    }
  }

  /** The players of a game stand in the order of their names. */
  lemma {:induction false} SortSorts(players: seq<Player>)
    ensures ByName(SortByName(players))
    decreases |players|
  {
    if players != [] {
      var n := |players| - 1;
      SortSorts(players[..n]);
      InsertSorts(players[n], SortByName(players[..n]));
    }
  }

  /** At the first position where the names differ, a has ended or has the smaller byte. */
  predicate Precedes(a: Name, b: Name) {
    exists k :: 0 <= k <= |a| && k < |b| && a[..k] == b[..k] && (k < |a| ==> a[k] < b[k])
  }

  lemma {:induction false} NameLessExactly(a: Name, b: Name)
    ensures NameLess(a, b) <==> Precedes(a, b)
    decreases |a|
  {
    if a == [] || b == [] || a[0] != b[0] {
      if NameLess(a, b) {
        assert a[..0] == b[..0];
      }
    } else {
      NameLessExactly(a[1..], b[1..]);
      if Precedes(a[1..], b[1..]) {
        var k :| 0 <= k <= |a[1..]| && k < |b[1..]| && a[1..][..k] == b[1..][..k]
                 && (k < |a[1..]| ==> a[1..][k] < b[1..][k]);
        assert a[..k + 1] == [a[0]] + a[1..][..k] && b[..k + 1] == [b[0]] + b[1..][..k];
      }
      if Precedes(a, b) {
        var k :| 0 <= k <= |a| && k < |b| && a[..k] == b[..k] && (k < |a| ==> a[k] < b[k]);
        assert k > 0;
        assert a[1..][..k - 1] == a[..k][1..] && b[1..][..k - 1] == b[..k][1..];
      }
    }
  }

  /** Nobody stands behind a player whose name comes after his own. */
  lemma SortedByName(players: seq<Player>, i: nat, j: nat)
    requires i < j < |players|
    ensures !Precedes(SortByName(players)[j].playerName, SortByName(players)[i].playerName)
  {
    var r := SortByName(players);
    SortSorts(players);
    NameLessExactly(r[j].playerName, r[i].playerName);
  }
}
