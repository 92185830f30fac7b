/** The datagram buffers of Common/Buffer.h and Common/Buffer.cpp, and the packing and parsing code
    of Common/Event.h and Common/ClientHeartbeat.h that works on them in place. */
module UdpBuffers {
  import opened Bytes
  import opened Wire
  import Crc32

  /** What a call of send or sendto comes to. */
  datatype SendResult = Accepted | WouldBlock | Broken

  class UDPSendBuffer {
    const buff: array<byte>
    var size: nat

    ghost predicate Valid()
      reads this
    {
      buff.Length == MAX_DATA_SIZE && size <= MAX_DATA_SIZE
    }

    ghost function Contents(): seq<byte>
      requires Valid()
      reads this, buff
    {
      buff[..size]
    }

    constructor ()
      ensures Valid() && fresh(buff)
      ensures Contents() == []
    {
      buff := new byte[MAX_DATA_SIZE](_ => 0);
      size := 0;
    }

    function Remaining(): nat
      requires Valid()
      reads this
    {
      MAX_DATA_SIZE - size
    }

    method Clear()
      requires Valid()
      modifies this`size
      ensures Valid() && Contents() == []
    {
      size := 0;
    }

    /** What every pack_field and pack_string does with the bytes of its argument. */
    method Store(s: seq<byte>)
      requires Valid() && Remaining() >= |s|
      modifies this`size, buff
      ensures Valid() && Contents() == old(Contents()) + s
    {
      forall i | 0 <= i < |s| {
        buff[size + i] := s[i];
      }
      size := size + |s|;
    }

    method PackByte(x: byte)
      requires Valid() && Remaining() >= 1
      modifies this`size, buff
      ensures Valid() && Contents() == old(Contents()) + [x]
    {
      Store([x]);
    }

    method Pack32(x: uint32)
      requires Valid() && Remaining() >= 4
      modifies this`size, buff
      ensures Valid() && Contents() == old(Contents()) + Be32(x)
    {
      Store(Be32(x));
    }

    method Pack64(x: uint64)
      requires Valid() && Remaining() >= 8
      modifies this`size, buff
      ensures Valid() && Contents() == old(Contents()) + Be64(x)
    {
      Store(Be64(x));
    }

    /** Appends the checksum of the last len bytes. */
    method ComputeCrc(len: nat)
      requires Valid() && len <= size && Remaining() >= 4
      modifies this`size, buff
      ensures Valid()
      ensures Contents() == old(Contents()) + Be32(Crc32.Crc(old(Contents()[size - len..])))
    {
      var crc := Crc32.ComputeInBuffer(buff, size - len, len);
      assert buff[size - len..size - len + len] == Contents()[size - len..];
      Pack32(crc);
    }

    /** A send that fails otherwise than by blocking ends the process. */
    method Flush(result: SendResult) returns (sent: bool, failed: bool)
      requires Valid()
      modifies this`size
      ensures Valid() && (sent <==> result == Accepted) && (failed <==> result == Broken)
      ensures Contents() == if sent then [] else old(Contents())
    {
      failed := result == Broken;
      sent := result == Accepted;
      if sent {
        size := 0;
      }
    }
  }

  /** What the first 550 bytes of a datagram say. */
  function HeartbeatIn(datagram: seq<byte>): Option<Heartbeat> {
    DecodeHeartbeat(datagram[..Min(|datagram|, MAX_DATA_SIZE)])
  }

  method PackNames(players: seq<Name>, b: UDPSendBuffer)
    requires b.Valid() && b.Remaining() >= NamesSize(players)
    modifies b`size, b.buff
    ensures b.Valid() && b.Contents() == old(b.Contents()) + EncodeNames(players)
  {
    ghost var before := b.Contents();
    for i := 0 to |players|
      invariant b.Valid() && b.Remaining() >= NamesSize(players[i..])
      invariant b.Contents() + EncodeNames(players[i..]) == before + EncodeNames(players)
    {
      ghost var packed, rest := b.Contents(), EncodeNames(players[i + 1..]);
      assert players[i..][0] == players[i] && players[i..][1..] == players[i + 1..];
      b.Store(players[i]);
      b.PackByte(0);
      assert b.Contents() == packed + players[i] + [0];
      assert packed + (players[i] + [0] + rest) == packed + players[i] + [0] + rest;
    }
    assert EncodeNames(players[|players|..]) == [];
  }

  method PackNewGame(data: EventData, b: UDPSendBuffer)
    requires data.NewGame?
    requires b.Valid() && b.Remaining() >= DataSize(data)
    modifies b`size, b.buff
    ensures b.Valid() && b.Contents() == old(b.Contents()) + EncodeData(data)
  {
    b.Pack32(data.maxx);
    b.Pack32(data.maxy);
    PackNames(data.players, b);
  }

  method PackPixel(data: EventData, b: UDPSendBuffer)
    requires data.Pixel?
    requires b.Valid() && b.Remaining() >= DataSize(data)
    modifies b`size, b.buff
    ensures b.Valid() && b.Contents() == old(b.Contents()) + EncodeData(data)
  {
    b.PackByte(data.player);
    b.Pack32(data.x);
    b.Pack32(data.y);
  }

  method PackData(data: EventData, b: UDPSendBuffer)
    requires b.Valid() && b.Remaining() >= DataSize(data)
    modifies b`size, b.buff
    ensures b.Valid() && b.Contents() == old(b.Contents()) + EncodeData(data)
  {
    match data
    case NewGame(_, _, _) => PackNewGame(data, b);
    case Pixel(_, _, _) => PackPixel(data, b);
    case Eliminated(player) =>
      b.PackByte(player);
    case GameOver =>
  }

  method PackBody(e: Event, b: UDPSendBuffer)
    requires b.Valid() && b.Remaining() >= 9 + DataSize(e.data)
    modifies b`size, b.buff
    ensures b.Valid() && b.Contents() == old(b.Contents()) + EncodeBody(e)
  {
    b.Pack32(e.len);
    b.Pack32(e.no);
    b.PackByte(TypeNumber(e.data));
    PackData(e.data, b);
  }

  lemma LastOf(before: seq<byte>, body: seq<byte>)
    ensures (before + body)[|before|..] == body
  {}

  lemma Appended(before: seq<byte>, body: seq<byte>, e: Event)
    requires body == EncodeBody(e)
    ensures before + body + Be32(Crc32.Crc(body)) == before + EncodeEvent(CRC32(), e)
  {}

  method PackEvent(e: Event, b: UDPSendBuffer)
    requires e.len == 5 + DataSize(e.data)
    requires b.Valid() && b.Remaining() >= EventSize(e)
    modifies b`size, b.buff
    ensures b.Valid() && b.Contents() == old(b.Contents()) + EncodeEvent(CRC32(), e)
  {
    ghost var before := b.Contents();
    PackBody(e, b);
    LastOf(before, EncodeBody(e));
    b.ComputeCrc(e.len + 4);
    Appended(before, EncodeBody(e), e);
  }

  method PackHeartbeat(h: Heartbeat, b: UDPSendBuffer)
    requires b.Valid() && b.Remaining() >= 13 + |h.name|
    modifies b`size, b.buff
    ensures b.Valid() && b.Contents() == old(b.Contents()) + EncodeHeartbeat(h)
  {
    b.Pack64(h.session);
    b.PackByte(h.direction);
    b.Pack32(h.next);
    b.Store(h.name);
  }

  datatype CrcCheck = Match | Mismatch | TooShort

  class UDPReceiveBuffer {
    const buff: array<byte>
    var size: nat
    var pos: nat

    ghost predicate Valid()
      reads this
    {
      buff.Length == MAX_DATA_SIZE && pos <= size <= MAX_DATA_SIZE
    }

    ghost function Received(): seq<byte>
      requires Valid()
      reads this, buff
    {
      buff[..size]
    }

    constructor ()
      ensures Valid() && fresh(buff)
      ensures size == pos == 0
    {
      buff := new byte[MAX_DATA_SIZE](_ => 0);
      size, pos := 0, 0;
    }

    predicate Exhausted()
      reads this
    {
      pos == size
    }

    method Discard()
      modifies this`size, this`pos
      ensures size == pos == 0
    {
      size, pos := 0, 0;
    }

    /** recvfrom keeps at most MAX_DATA_SIZE bytes of a datagram. */
    method Populate(datagram: seq<byte>)
      requires Valid() && Exhausted()
      modifies this`size, this`pos, buff
      ensures Valid() && pos == 0
      ensures Received() == datagram[..Min(|datagram|, MAX_DATA_SIZE)]
    {
      size := Min(|datagram|, MAX_DATA_SIZE);
      pos := 0;
      forall i | 0 <= i < size {
        buff[i] := datagram[i];
      }
    }

    method UnpackByte() returns (r: Option<byte>)
      requires Valid()
      modifies this`pos
      ensures Valid() && r == ReadByte(Received(), old(pos))
      ensures pos == if r.Some? then old(pos) + 1 else old(pos)
    {
      if size - pos < 1 {
        return None;
      }
      r := Some(buff[pos]);
      pos := pos + 1;
    }

    method Unpack32() returns (r: Option<uint32>)
      requires Valid()
      modifies this`pos
      ensures Valid() && r == Read32(Received(), old(pos))
      ensures pos == if r.Some? then old(pos) + 4 else old(pos)
    {
      if size - pos < 4 {
        return None;
      }
      assert buff[pos..pos + 4] == Received()[pos..pos + 4];
      r := Some(FromBe32(buff[pos..pos + 4]));
      pos := pos + 4;
    }

    method Unpack64() returns (r: Option<uint64>)
      requires Valid()
      modifies this`pos
      ensures Valid() && r == Read64(Received(), old(pos))
      ensures pos == if r.Some? then old(pos) + 8 else old(pos)
    {
      if size - pos < 8 {
        return None;
      }
      assert buff[pos..pos + 8] == Received()[pos..pos + 8];
      r := Some(FromBe64(buff[pos..pos + 8]));
      pos := pos + 8;
    }

    method UnpackName() returns (r: Option<Name>)
      requires Valid()
      modifies this`pos
      ensures Valid() && r == ReadName(Received(), old(pos))
      ensures r.Some? ==> pos == old(pos) + |r.value| + 1
    {
      var s: Name := [];
      ghost var d, from := Received(), pos;
      NothingBefore(ReadName(d, from));
      while pos < size
        invariant Valid() && pos == from + |s|
        invariant ReadName(d, from) == After(s, ReadName(d, pos))
        decreases size - pos
      {
        assert buff[pos] == d[pos];
        if buff[pos] == 0 {
          assert s + [] == s;
          pos := pos + 1;
          return Some(s);
        }
        NameAfter(s, d[pos], ReadName(d, pos + 1));
        s := s + [buff[pos]];
        pos := pos + 1;
      }
      r := None;
    }

    method UnpackRemaining() returns (s: seq<byte>)
      requires Valid()
      modifies this`pos
      ensures Valid() && Exhausted()
      ensures s == Received()[old(pos)..]
    {
      s := [];
      ghost var from := pos;
      while pos < size
        invariant Valid() && from <= pos
        invariant s == Received()[from..pos]
        decreases size - pos
      {
        s := s + [buff[pos]];
        pos := pos + 1;
      }
    }

    lemma PartReceived(from: nat, to: nat)
      requires Valid() && from <= to <= size
      ensures buff[from..to] == Received()[from..to]
    {}

    method VerifyCrc32(lenBefore: nat, lenAfter: uint32) returns (r: CrcCheck)
      requires Valid() && lenBefore == 4 <= pos
      ensures pos + lenAfter + 4 > size <==> r.TooShort?
      ensures !r.TooShort? ==> (r.Match? <==> CrcMatches(CRC32(), Received(), pos - 4, lenAfter))
    {
      if pos + lenAfter + 4 > size {
        return TooShort;
      }
      var computed := Crc32.ComputeInBuffer(buff, pos - lenBefore, lenBefore + lenAfter);
      var received := FromBe32(buff[pos + lenAfter..pos + lenAfter + 4]);
      PartReceived(pos - 4, pos + lenAfter);
      PartReceived(pos + lenAfter, pos + lenAfter + 4);
      r := if computed != received then Mismatch else Match;
    }

    /** The name loop of the NEW_GAME constructor, which counts down in 32 bits. */
    method UnpackNames(len: uint32) returns (r: Option<seq<Name>>)
      requires Valid()
      modifies this`pos
      ensures Valid()
      ensures match ReadNames(Received(), old(pos), len)
              case None => r == None
              case Some(read) => r == Some(read.names) && pos == read.pos
    {
      ghost var d := Received();
      var left: uint32, players: seq<Name> := len, [];
      ghost var all := ReadNames(d, pos, left);
      NoneBefore(all);
      while 0 < left < MAX_DATA_SIZE
        invariant Valid() && Received() == d
        invariant all == AfterAll(players, ReadNames(d, pos, left))
        decreases size - pos
      {
        var name := UnpackName();
        if name.None? {
          return None;
        }
        left := Minus32(left, |name.value| + 1);
        NamesAfter(players, name.value, ReadNames(d, pos, left));
        players := players + [name.value];
      }
      AllBefore(players, pos, left);
      r := Some(players);
    }

    /** The NEW_GAME constructor. */
    method UnpackNewGame(len: uint32) returns (r: Option<EventData>)
      requires Valid()
      modifies this`pos
      ensures Valid()
      ensures match ReadNewGame(Received(), old(pos), len)
              case None => r == None
              case Some(read) => r == Some(read.data) && pos == read.pos
    {
      var maxx := Unpack32();
      if maxx.None? {
        return None;
      }
      var maxy := Unpack32();
      if maxy.None? {
        return None;
      }
      var players := UnpackNames(Minus32(len, 8));
      r := if players.None? then None else Some(NewGame(maxx.value, maxy.value, players.value));
    }

    method UnpackData(t: byte, len: uint32) returns (r: Option<EventData>)
      requires Valid() && KnownType(t)
      modifies this`pos
      ensures Valid()
      ensures match ReadData(Received(), old(pos), t, len)
              case None => r == None
              case Some(read) => r == Some(read.data) && pos == read.pos
    {
      match t
      case 0 =>
        r := UnpackNewGame(len);
      case 1 =>
        var player := UnpackByte();
        if player.None? {
          return None;
        }
        var x := Unpack32();
        if x.None? {
          return None;
        }
        var y := Unpack32();
        r := if y.None? then None else Some(Pixel(player.value, x.value, y.value));
      case 2 =>
        var player := UnpackByte();
        r := if player.None? then None else Some(Eliminated(player.value));
      case _ =>
        r := Some(GameOver);
    }

    /** The exceptions are outcomes; where they leave the cursor matters only for an unknown type. */
    method Unpack() returns (r: Attempt)
      requires Valid()
      modifies this`pos
      ensures Valid() && r == UnpackEvent(CRC32(), Received(), old(pos))
      ensures r.Got? || r.UnknownType? ==> pos == r.pos
    {
      ghost var d := Received();
      var len := Unpack32();
      if len.None? {
        return BadData;
      }
      var check := VerifyCrc32(4, len.value);
      if check.TooShort? {
        return BadData;
      }
      if check.Mismatch? {
        return CrcMismatch;
      }
      r := UnpackRest(len.value);
    }

    method UnpackRest(len: uint32) returns (r: Attempt)
      requires Valid()
      modifies this`pos
      ensures Valid() && r == UnpackChecked(Received(), old(pos), len)
      ensures r.Got? || r.UnknownType? ==> pos == r.pos
    {
      var no := Unpack32();
      if no.None? {
        return BadData;
      }
      var t := UnpackByte();
      if t.None? {
        return BadData;
      }
      if !KnownType(t.value) {
        return UnknownType(pos);
      }
      var data := UnpackData(t.value, Minus32(len, 5));
      if data.None? {
        return BadData;
      }
      var crc := Unpack32();
      if crc.None? {
        return BadData;
      }
      r := Got(Event(len, no.value, data.value), pos);
    }

    /** The heartbeat constructor; a datagram that is too short raises BadData. */
    method UnpackHeartbeat() returns (r: Option<Heartbeat>)
      requires Valid() && pos == 0
      modifies this`pos
      ensures Valid() && r == DecodeHeartbeat(Received())
      ensures r.Some? ==> Exhausted()
    {
      var session := Unpack64();
      if session.None? {
        return None;
      }
      var direction := UnpackByte();
      if direction.None? {
        return None;
      }
      var next := Unpack32();
      if next.None? {
        return None;
      }
      var name := UnpackRemaining();
      r := Some(Heartbeat(session.value, direction.value, next.value, name));
    }

    /** A datagram that should hold a heartbeat; if it does not, it is thrown away. */
    method ReceiveHeartbeat(datagram: seq<byte>) returns (r: Option<Heartbeat>)
      requires Valid() && Exhausted()
      modifies this`size, this`pos, buff
      ensures Valid() && Exhausted()
      ensures r == HeartbeatIn(datagram)
    {
      Populate(datagram);
      r := UnpackHeartbeat();
      if r.None? {
        Discard();
      }
    }
  }

  /** s has been read before the rest. */
  ghost function After(s: seq<byte>, rest: Option<Name>): Option<Name> {
    match rest
    case None => None
    case Some(name) => Some(s + name)
  }

  lemma NothingBefore(rest: Option<Name>)
    ensures After([], rest) == rest
  {
    assert rest.Some? ==> [] + rest.value == rest.value;
  }

  lemma NameAfter(s: seq<byte>, b: byte, rest: Option<Name>)
    ensures After(s, After([b], rest)) == After(s + [b], rest)
  {
    assert rest.Some? ==> s + ([b] + rest.value) == s + [b] + rest.value;
  }

  ghost function AfterAll(players: seq<Name>, rest: Option<Names>): Option<Names> {
    match rest
    case None => None
    case Some(read) => Some(read.(names := players + read.names))
  }

  lemma NoneBefore(rest: Option<Names>)
    ensures AfterAll([], rest) == rest
  {
    assert rest.Some? ==> [] + rest.value.names == rest.value.names;
  }

  lemma AllBefore(players: seq<Name>, pos: nat, left: uint32)
    ensures AfterAll(players, Some(Names([], pos, left))) == Some(Names(players, pos, left))
  {
    assert players + [] == players;
  }

  lemma NamesAfter(players: seq<Name>, name: Name, rest: Option<Names>)
    ensures AfterAll(players, AfterAll([name], rest)) == AfterAll(players + [name], rest)
  {
    assert rest.Some? ==> players + ([name] + rest.value.names) == players + [name] + rest.value.names;
  }
}
