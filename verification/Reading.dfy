/** How the interface takes lines off its socket (GUI/read_line.c, GUI/net.c:48): byte by byte, from a socket that does
    not block. What has been read of a line when the socket runs dry is lost. */
module Reading {
  import opened Bytes
  import opened Text
  import opened Wire

  const BUFFER_SIZE: nat := 2000

  /** What the buffer keeps of a line. */
  function Kept(line: seq<byte>): seq<byte> {
    line[..Min(|line|, BUFFER_SIZE - 1)]
  }

  /** s: what arrives until the socket runs dry. None: it does so before a newline, and nothing is left. */
  method ReadLine(s: seq<byte>) returns (line: Option<seq<byte>>, rest: seq<byte>)
    ensures line == if Newline(s) < |s| then Some(Kept(s[..Newline(s) + 1])) else None
    ensures line.Some? ==> line.value == s[..Min(Newline(s) + 1, 1999)]
    ensures rest == if Newline(s) < |s| then s[Newline(s) + 1..] else []
  {
    var totRead, buffer := 0, [];
    while totRead < |s|
      invariant totRead <= |s| && buffer == Kept(s[..totRead])
      invariant forall i :: 0 <= i < totRead ==> s[i] != NEWLINE
    {
      var ch := s[totRead];
      if |buffer| < BUFFER_SIZE - 1 {
        buffer := buffer + [ch];
      }
      totRead := totRead + 1;
      assert buffer == Kept(s[..totRead]);
      if ch == NEWLINE {
        FirstNewline(s, totRead - 1);
        return Some(buffer), s[totRead..];
      }
    }
    line, rest := None, [];
  }

  lemma FirstNewline(s: seq<byte>, k: nat)
    requires k < |s| && s[k] == NEWLINE && forall i :: 0 <= i < k ==> s[i] != NEWLINE
    ensures Newline(s) == k
  {}

  /** The whole lines at the front of s, each with its newline. */
  function RawLines(s: seq<byte>): seq<seq<byte>>
    decreases |s|
  {
    var k := Newline(s);
    if k == |s| then [] else [s[..k + 1]] + RawLines(s[k + 1..])
  }

  /** The lines read while the socket runs dry behind each of the chunks. */
  function Received(chunks: seq<seq<byte>>): seq<seq<byte>> {
    if chunks == [] then [] else RawLines(chunks[0]) + Received(chunks[1..])
  }

  predicate EndsLine(s: seq<byte>) {
    s == [] || s[|s| - 1] == NEWLINE
  }

  predicate Aligned(chunks: seq<seq<byte>>) {
    forall i :: 0 <= i < |chunks| ==> EndsLine(chunks[i])
  }

  lemma NewlineInFront(a: seq<byte>, b: seq<byte>)
    requires Newline(a) < |a|
    ensures Newline(a + b) == Newline(a)
  {
    FirstNewline(a + b, Newline(a));
  }

  lemma NewlineThere(a: seq<byte>)
    requires a != [] && a[|a| - 1] == NEWLINE
    ensures Newline(a) < |a|
  {}

  lemma FirstRawLine(a: seq<byte>, b: seq<byte>, k: nat)
    requires k == Newline(a) < |a|
    ensures RawLines(a + b) == [a[..k + 1]] + RawLines(a[k + 1..] + b)
  {
    NewlineInFront(a, b);
    assert (a + b)[..k + 1] == a[..k + 1] && (a + b)[k + 1..] == a[k + 1..] + b;
  }

  lemma RestEnds(a: seq<byte>, k: nat)
    requires EndsLine(a) && k < |a|
    ensures EndsLine(a[k + 1..])
  {
    assert k + 1 < |a| ==> a[k + 1..][|a| - k - 2] == a[|a| - 1];
  }

  lemma {:induction false} RawLinesAppend(a: seq<byte>, b: seq<byte>)
    requires EndsLine(a)
    ensures RawLines(a + b) == RawLines(a) + RawLines(b)
    decreases |a|
  {
    if a == [] {
      assert a + b == b;
    } else {
      var k := Newline(a);
      NewlineThere(a);
      FirstRawLine(a, b, k);
      RestEnds(a, k);
      RawLinesAppend(a[k + 1..], b);
      Regroup([a[..k + 1]], RawLines(a[k + 1..]), RawLines(b));
    }
  }

  /** How much of s its whole lines are. */
  lemma {:induction false} RawLinesLength(s: seq<byte>)
    ensures |Joined(RawLines(s))| <= |s|
    ensures |Joined(RawLines(s))| == |s| <==> EndsLine(s)
    decreases |s|
  {
    var k := Newline(s);
    if k < |s| {
      RawLinesLength(s[k + 1..]);
      LastOfRest(s, k);
      assert RawLines(s)[1..] == RawLines(s[k + 1..]);
    }
  }

  lemma LastOfRest(s: seq<byte>, k: nat)
    requires k < |s| && s[k] == NEWLINE
    ensures EndsLine(s[k + 1..]) <==> EndsLine(s)
  {
    assert k + 1 < |s| ==> s[k + 1..][|s| - k - 2] == s[|s| - 1];
  }

  lemma {:induction false} ReceivedLength(chunks: seq<seq<byte>>)
    ensures |Joined(Received(chunks))| <= |Joined(chunks)|
    ensures |Joined(Received(chunks))| == |Joined(chunks)| <==> Aligned(chunks)
  {
    if chunks != [] {
      RawLinesLength(chunks[0]);
      ReceivedLength(chunks[1..]);
      JoinedAppend(RawLines(chunks[0]), Received(chunks[1..]));
      assert Aligned(chunks) <==> EndsLine(chunks[0]) && Aligned(chunks[1..]) by {
        if EndsLine(chunks[0]) && Aligned(chunks[1..]) {
          forall i | 0 <= i < |chunks| ensures EndsLine(chunks[i]) {
            assert i > 0 ==> chunks[i] == chunks[1..][i - 1];
          }
        }
        if Aligned(chunks) {
          forall i | 0 <= i < |chunks[1..]| ensures EndsLine(chunks[1..][i]) {
            assert chunks[1..][i] == chunks[i + 1];
          }
        }
      }
    }
  }

  lemma {:induction false} AlignedReceived(chunks: seq<seq<byte>>)
    requires Aligned(chunks)
    ensures Received(chunks) == RawLines(Joined(chunks))
  {
    if chunks != [] {
      forall i | 0 <= i < |chunks[1..]| ensures EndsLine(chunks[1..][i]) {
        assert chunks[1..][i] == chunks[i + 1];
      }
      AlignedReceived(chunks[1..]);
      RawLinesAppend(chunks[0], Joined(chunks[1..]));
    }
  }

  /** Of a stream of whole lines, exactly its lines are read if and only if the socket never runs dry inside a line. */
  lemma ReceivedExactly(chunks: seq<seq<byte>>)
    requires EndsLine(Joined(chunks))
    ensures Received(chunks) == RawLines(Joined(chunks)) <==> Aligned(chunks)
  {
    ReceivedLength(chunks);
    RawLinesLength(Joined(chunks));
    if Aligned(chunks) {
      AlignedReceived(chunks);
    }
  }
}
