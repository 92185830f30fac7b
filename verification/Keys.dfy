/** From the keys pressed at the interface to the byte that tells the server about them, line by line and without the
    notions of the buffer between them. */
module Keys {
  import opened Bytes
  import opened Wire
  import opened Text
  import opened Client
  import opened UdpBuffers
  import T = TcpReceive

  // ---------- lines ----------

  predicate AllLines(lines: seq<seq<byte>>) {
    forall k :: 0 <= k < |lines| ==> 10 !in lines[k]
  }

  /** Each line with its newline. */
  function Stream(lines: seq<seq<byte>>): seq<byte> {
    if lines == [] then [] else lines[0] + [10] + Stream(lines[1..])
  }

  /** Every stream consists of lines and of what comes behind the last newline. */
  lemma {:induction false} EveryStream(s: seq<byte>) returns (lines: seq<seq<byte>>, tail: seq<byte>)
    ensures AllLines(lines) && 10 !in tail && s == Stream(lines) + tail
    decreases |s|
  {
    var k := Newline(s);
    if k == |s| {
      lines, tail := [], s;
      assert [] + s == s;
    } else {
      var more;
      more, tail := EveryStream(s[k + 1..]);
      lines := [s[..k]] + more;
      assert lines[1..] == more;
      assert s == s[..k] + [10] + s[k + 1..];
      assert s[..k] + [10] + (Stream(more) + tail) == s[..k] + [10] + Stream(more) + tail;
    }
  }

  /** The direction to hold: 1 is right, 2 is left, 0 is straight ahead. */
  function Held(lines: seq<seq<byte>>): byte
    decreases |lines|
  {
    if lines == [] then 0
    else
      var last := lines[|lines| - 1];
      if last == Ascii("RIGHT_KEY_DOWN") then 1
      else if last == Ascii("LEFT_KEY_DOWN") then 2
      else if last == Ascii("RIGHT_KEY_UP") || last == Ascii("LEFT_KEY_UP") then 0
      else Held(lines[..|lines| - 1])
  }

  // ---------- what the buffer makes of them ----------

  lemma WithNewline(word: string, line: seq<byte>)
    requires IsAscii(word)
    ensures IsAscii(word + "\n")
    ensures line + [10] == Ascii(word + "\n") <==> line == Ascii(word)
  {
    assert Ascii(word + "\n") == Ascii(word) + [10];
    if line + [10] == Ascii(word) + [10] {
      assert (line + [10])[..|line|] == line && (Ascii(word) + [10])[..|word|] == Ascii(word);
    }
  }

  lemma MeaningOfLine(line: seq<byte>)
    ensures T.Meaning(line + [10])
            == if line == Ascii("RIGHT_KEY_DOWN") then [1]
               else if line == Ascii("LEFT_KEY_DOWN") then [2]
               else if line == Ascii("RIGHT_KEY_UP") || line == Ascii("LEFT_KEY_UP") then [0]
               else []
  {
    WithNewline("RIGHT_KEY_DOWN", line);
    WithNewline("LEFT_KEY_DOWN", line);
    WithNewline("RIGHT_KEY_UP", line);
    WithNewline("LEFT_KEY_UP", line);
    assert "RIGHT_KEY_DOWN" + "\n" == "RIGHT_KEY_DOWN\n" && "LEFT_KEY_DOWN" + "\n" == "LEFT_KEY_DOWN\n";
    assert "RIGHT_KEY_UP" + "\n" == "RIGHT_KEY_UP\n" && "LEFT_KEY_UP" + "\n" == "LEFT_KEY_UP\n";
  }

  lemma FirstOfStream(line: seq<byte>, rest: seq<byte>)
    requires 10 !in line
    ensures T.Directions(line + [10] + rest) == T.Meaning(line + [10]) + T.Directions(rest)
  {
    var s := line + [10] + rest;
    forall i | 0 <= i < |line| ensures s[i] != NEWLINE {
      assert line[i] in line;
    }
    T.NewlineIs(s, |line|);
    assert s[..|line| + 1] == line + [10] && s[|line| + 1..] == rest;
  }

  lemma NoFurther(tail: seq<byte>)
    requires 10 !in tail
    ensures T.Directions(tail) == []
  {
    forall i | 0 <= i < |tail| ensures tail[i] != NEWLINE {
      assert tail[i] in tail;
    }
    T.NewlineIs(tail, |tail|);
  }

  function Sayings(lines: seq<seq<byte>>): seq<Direction> {
    if lines == [] then [] else T.Meaning(lines[0] + [10]) + Sayings(lines[1..])
  }

  lemma {:induction false} StreamSays(lines: seq<seq<byte>>, tail: seq<byte>)
    requires AllLines(lines) && 10 !in tail
    ensures T.Directions(Stream(lines) + tail) == Sayings(lines)
    decreases |lines|
  {
    if lines == [] {
      assert [] + tail == tail;
      NoFurther(tail);
    } else {
      var rest := Stream(lines[1..]) + tail;
      StreamSays(lines[1..], tail);
      FirstOfStream(lines[0], rest);
      Regroup(lines[0] + [10], Stream(lines[1..]), tail);
    }
  }

  lemma {:induction false} SayingsAppend(a: seq<seq<byte>>, b: seq<seq<byte>>)
    ensures Sayings(a + b) == Sayings(a) + Sayings(b)
    decreases |a|
  {
    if a == [] {
      assert a + b == b;
    } else {
      assert (a + b)[1..] == a[1..] + b;
      SayingsAppend(a[1..], b);
      Regroup(T.Meaning(a[0] + [10]), Sayings(a[1..]), Sayings(b));
    }
  }

  lemma SayingsNext(front: seq<seq<byte>>, last: seq<byte>)
    ensures Sayings(front + [last]) == Sayings(front) + T.Meaning(last + [10])
  {
    SayingsAppend(front, [last]);
    assert [last][1..] == [];
    assert Sayings([last]) == T.Meaning(last + [10]) + [];
  }

  lemma {:induction false} LastSaying(lines: seq<seq<byte>>)
    ensures T.Latest(0, Sayings(lines)) == Held(lines)
    decreases |lines|
  {
    if lines != [] {
      var n := |lines| - 1;
      LastSaying(lines[..n]);
      assert lines == lines[..n] + [lines[n]];
      SayingsNext(lines[..n], lines[n]);
      MeaningOfLine(lines[n]);
      T.LatestAppend(0, Sayings(lines[..n]), T.Meaning(lines[n] + [10]));
    }
  }

  /** However the lines are cut into reads, and whatever has come of the next one: the direction the listener holds is
      that of the last key line. */
  lemma HoldsLast(l: T.Listener, lines: seq<seq<byte>>, tail: seq<byte>)
    requires l.Valid() && AllLines(lines) && 10 !in tail && T.Joined(l.chunks) == Stream(lines) + tail
    ensures l.turnDirection == Held(lines)
  {
    StreamSays(lines, tail);
    LastSaying(lines);
  }

  // ---------- on to the server ----------

  lemma DirectionByte(d: seq<byte>, h: Heartbeat)
    requires DecodeHeartbeat(d) == Some(h)
    ensures |d| >= 13 && d[8] == h.direction
  {}

  /** A heartbeat says, in its ninth byte, what the last key line said. */
  method ReportDirection(l: T.Listener, c: Client, b: UDPSendBuffer, session: uint64, name: Name, result: SendResult,
                         ghost lines: seq<seq<byte>>, ghost tail: seq<byte>)
    returns (sent: bool, ghost datagram: seq<byte>)
    requires l.Valid() && AllLines(lines) && 10 !in tail && T.Joined(l.chunks) == Stream(lines) + tail
    requires b.Valid() && 13 + |name| <= 550 && !c.failed
    modifies b`size, b.buff, c`failed
    ensures |datagram| == 13 + |name| && datagram[8] == Held(lines)
    ensures DecodeHeartbeat(datagram) == Some(Heartbeat(session, Held(lines), c.nextExpectedEventNo, name))
    ensures b.Valid() && b.Contents() == if sent then [] else datagram
  {
    HoldsLast(l, lines, tail);
    sent, datagram := c.SendHeartbeat(b, session, l.turnDirection, name, result);
    DirectionByte(datagram, DecodeHeartbeat(datagram).value);
  }
}
