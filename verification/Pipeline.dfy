/** The client together with the buffer to its interface: what it says is packed, and sent whenever the socket takes
    it. From any run of both, what the interface shows. */
module Pipeline {
  import opened Bytes
  import opened Text
  import opened Wire
  import opened Datagrams
  import opened Variants
  import opened Gui
  import opened Reading
  import opened Display
  import opened TcpSend
  import opened Client
  import Protocol

  datatype Whole = Whole(system: Protocol.System, out: Stream)

  // ---------- saying lines ----------

  /** How one line is packed. more: what each growth found in the added memory; sends: the flushes before the next
      line. */
  datatype Talk = Talk(more: seq<seq<byte>>, sends: seq<Op>)

  predicate AllSends(ops: seq<Op>) {
    forall i :: 0 <= i < |ops| ==> ops[i].Send?
  }

  predicate Talks(lines: seq<Line>, talks: seq<Talk>) {
    && |talks| == |lines|
    && forall i :: 0 <= i < |lines| ==> |talks[i].more| == |lines[i]| && AllSends(talks[i].sends)
  }

  /** The calls for one line. */
  function TalkOps(line: Line, talk: Talk): seq<Op>
    requires |talk.more| == |line|
  {
    (if line == [] then [] else LineOps(line, talk.more)) + talk.sends
  }

  lemma TalksRest(lines: seq<Line>, talks: seq<Talk>)
    requires Talks(lines, talks) && lines != []
    ensures Talks(lines[1..], talks[1..])
  {
    forall i | 0 <= i < |lines[1..]|
      ensures |talks[1..][i].more| == |lines[1..][i]| && AllSends(talks[1..][i].sends)
    {
      assert talks[1..][i] == talks[i + 1] && lines[1..][i] == lines[i + 1];
    }
  }

  /** The calls for some lines, one after the other. */
  function AllTalkOps(lines: seq<Line>, talks: seq<Talk>): seq<Op>
    requires Talks(lines, talks)
    decreases |lines|
  {
    if lines == [] then []
    else
      TalksRest(lines, talks);
      TalkOps(lines[0], talks[0]) + AllTalkOps(lines[1..], talks[1..])
  }

  // ---------- what packing and sending adds up to ----------

  lemma {:induction false} SendsPackNothing(v: Variant, initial: nat, st: Stream, ops: seq<Op>)
    requires AllSends(ops) && Callable(v, initial, st, ops)
    ensures DoAll(v, initial, st, ops).packed == st.packed
    decreases |ops|
  {
    if ops != [] {
      var st1 := Do(v, initial, st, ops[0]);
      assert ops[0].Send? && st1.packed == st.packed;
      forall i | 0 <= i < |ops[1..]| ensures ops[1..][i].Send? {
        assert ops[1..][i] == ops[i + 1];
      }
      SendsPackNothing(v, initial, st1, ops[1..]);
    }
  }

  lemma TalkPacked(v: Variant, initial: nat, st: Stream, line: Line, talk: Talk)
    requires |talk.more| == |line| && AllSends(talk.sends) && Callable(v, initial, st, TalkOps(line, talk))
    ensures DoAll(v, initial, st, TalkOps(line, talk)).packed
            == st.packed + if line == [] then [] else LineBytes(line)
  {
    var ops := if line == [] then [] else LineOps(line, talk.more);
    CallableAppend(v, initial, st, ops, talk.sends);
    if line != [] {
      MessagePacked(v, initial, st, line, talk.more);
    }
    SendsPackNothing(v, initial, DoAll(v, initial, st, ops), talk.sends);
  }

  /** Whatever is sent in between, what is packed is the messages. */
  lemma {:induction false} TalksPacked(v: Variant, initial: nat, st: Stream, lines: seq<Line>, talks: seq<Talk>)
    requires Talks(lines, talks) && Callable(v, initial, st, AllTalkOps(lines, talks))
    ensures DoAll(v, initial, st, AllTalkOps(lines, talks)).packed == st.packed + Messages(lines)
    decreases |lines|
  {
    if lines != [] {
      TalksRest(lines, talks);
      var first, rest := TalkOps(lines[0], talks[0]), AllTalkOps(lines[1..], talks[1..]);
      CallableAppend(v, initial, st, first, rest);
      TalkPacked(v, initial, st, lines[0], talks[0]);
      TalksPacked(v, initial, DoAll(v, initial, st, first), lines[1..], talks[1..]);
      Regroup(st.packed, if lines[0] == [] then [] else LineBytes(lines[0]), Messages(lines[1..]));
    }
  }

  lemma {:induction false} MessagesAppend(a: seq<Line>, b: seq<Line>)
    ensures Messages(a + b) == Messages(a) + Messages(b)
    decreases |a|
  {
    if a == [] {
      assert a + b == b;
    } else {
      assert (a + b)[1..] == a[1..] + b;
      MessagesAppend(a[1..], b);
      Regroup(if a[0] == [] then [] else LineBytes(a[0]), Messages(a[1..]), Messages(b));
    }
  }

  // ---------- lines are only added ----------

  lemma {:induction false} DrainAdds(v: Variant, s: State)
    ensures s.lines <= Drain(v, s).lines
    decreases s.future.Keys
  {
    if !s.failed && s.next in s.future {
      DrainAdds(v, DrainOne(v, s));
    }
  }

  lemma {:induction false} TakeAllAdds(v: Variant, s: State, events: seq<Wire.Event>)
    ensures s.lines <= TakeAll(v, s, events).lines
    decreases |events|
  {
    if events != [] {
      TakeEventAdds(v, s, events[0]);
      TakeAllAdds(v, TakeEvent(v, s, events[0]), events[1..]);
    }
  }

  lemma TakeEventAdds(v: Variant, s: State, e: Wire.Event)
    ensures s.lines <= TakeEvent(v, s, e).lines
  {
    if !s.failed {
      DrainAdds(v, if e.no == s.next then TakeExpected(s, e) else if e.no > s.next then Keep(s, e) else s);
    }
  }

  /** No datagram takes a line back. */
  lemma LinesStay(v: Variant, crc: Checksum, s: State, d: seq<byte>)
    ensures s.lines <= TakeDatagram(v, crc, s, d).lines
  {
    if Read32(d, 0).Some? {
      TakeAllAdds(v, Switch(v, s, Read32(d, 0).value), ParseEvents(crc, d, 4).events);
    }
  }

  // ---------- steps of both ----------

  function Said(before: seq<Line>, after: seq<Line>): seq<Line> {
    if before <= after then after[|before|..] else []
  }

  /** A datagram arrives, and what the client says is packed; v is the client, w the buffer. */
  ghost predicate Speaks(v: Variant, w: Variant, crc: Checksum, initial: nat, a: Whole, b: Whole, d: seq<byte>,
                         talks: seq<Talk>)
  {
    var lines := Said(a.system.client.lines, b.system.client.lines);
    && Protocol.Arrives(v, crc, a.system, b.system, d)
    && Talks(lines, talks) && Orderly(w, initial, a.out, AllTalkOps(lines, talks))
    && b.out == DoAll(w, initial, a.out, AllTalkOps(lines, talks))
  }

  /** A game logs, or a datagram is sent. */
  ghost predicate Elsewhere(crc: Checksum, s: Protocol.System, t: Protocol.System) {
    (exists g, log :: Protocol.Grows(s, t, g, log)) || (exists g, from :: Protocol.Sends(crc, s, t, g, from))
  }

  /** The socket has become writable. */
  ghost predicate Flushes(w: Variant, initial: nat, st: Stream, t: Stream) {
    exists op: Op :: op.Send? && Enabled(st, op) && Spared(w, st, op) && t == Do(w, initial, st, op)
  }

  ghost predicate AnyStep(v: Variant, w: Variant, crc: Checksum, initial: nat, a: Whole, b: Whole) {
    || (Elsewhere(crc, a.system, b.system) && b.out == a.out)
    || (b.system == a.system && Flushes(w, initial, a.out, b.out))
    || (exists d, talks :: Speaks(v, w, crc, initial, a, b, d, talks))
  }

  /** The same, but what arrives spares the client. */
  ghost predicate Step(v: Variant, w: Variant, crc: Checksum, initial: nat, a: Whole, b: Whole) {
    || (Elsewhere(crc, a.system, b.system) && b.out == a.out)
    || (b.system == a.system && Flushes(w, initial, a.out, b.out))
    || (exists d, talks ::
          Speaks(v, w, crc, initial, a, b, d, talks) && Protocol.Delivers(v, crc, a.system, b.system, d))
  }

  predicate Begins(initial: nat, a: Whole) {
    Protocol.Starts(a.system) && Fresh(a.out, initial)
  }

  ghost predicate AnyRun(v: Variant, w: Variant, crc: Checksum, initial: nat, run: seq<Whole>) {
    && run != [] && Begins(initial, run[0])
    && forall i :: 0 < i < |run| ==> AnyStep(v, w, crc, initial, run[i - 1], run[i])
  }

  ghost predicate Run(v: Variant, w: Variant, crc: Checksum, initial: nat, run: seq<Whole>) {
    && run != [] && Begins(initial, run[0])
    && forall i :: 0 < i < |run| ==> Step(v, w, crc, initial, run[i - 1], run[i])
  }

  // ---------- what is said is sent ----------

  /** What the socket took and what is queued is what the client has said, as the interface reads it. */
  predicate Linked(a: Whole) {
    Fifo(a.out) && a.out.packed == Messages(a.system.client.lines)
  }

  lemma SpeakingLinks(v: Variant, w: Variant, crc: Checksum, initial: nat, a: Whole, b: Whole, d: seq<byte>,
                      talks: seq<Talk>)
    requires Linked(a) && initial > 0 && Speaks(v, w, crc, initial, a, b, d, talks)
    ensures Linked(b)
  {
    var before, after := a.system.client.lines, b.system.client.lines;
    var lines := Said(before, after);
    LinesStay(v, crc, a.system.client, d);
    assert before + lines == after;
    MessagesAppend(before, lines);
    TalksPacked(w, initial, a.out, lines, talks);
    RunFifo(w, initial, a.out, AllTalkOps(lines, talks));
  }

  lemma FlushingLinks(w: Variant, initial: nat, a: Whole, b: Whole)
    requires Linked(a) && initial > 0 && b.system == a.system && Flushes(w, initial, a.out, b.out)
    ensures Linked(b)
  {
    var op: Op :| op.Send? && Enabled(a.out, op) && Spared(w, a.out, op) && b.out == Do(w, initial, a.out, op);
    StepFifo(w, initial, a.out, op);
  }

  lemma StepLinks(v: Variant, w: Variant, crc: Checksum, initial: nat, a: Whole, b: Whole)
    requires Linked(a) && initial > 0 && AnyStep(v, w, crc, initial, a, b)
    ensures Linked(b)
  {
    if Elsewhere(crc, a.system, b.system) && b.out == a.out {
      assert b.system.client == a.system.client;
    } else if b.system == a.system && Flushes(w, initial, a.out, b.out) {
      FlushingLinks(w, initial, a, b);
    } else {
      var d, talks :| Speaks(v, w, crc, initial, a, b, d, talks);
      SpeakingLinks(v, w, crc, initial, a, b, d, talks);
    }
  }

  /** Over every run of client and buffer, whatever arrives and whatever the socket takes when: what was sent, with what
      is queued, is the lines of the client. */
  lemma {:induction false} SaidIsSent(v: Variant, w: Variant, crc: Checksum, initial: nat, run: seq<Whole>, i: nat)
    requires AnyRun(v, w, crc, initial, run) && initial > 0 && i < |run|
    ensures Linked(run[i])
  {
    if i == 0 {
      assert Queue(run[0].out.ring) == [];
    } else {
      SaidIsSent(v, w, crc, initial, run, i - 1);
      StepLinks(v, w, crc, initial, run[i - 1], run[i]);
    }
  }

  // ---------- what is shown ----------

  lemma StepSafe(v: Variant, w: Variant, crc: Checksum, initial: nat, a: Whole, b: Whole)
    requires Protocol.Inv(v, crc, a.system) && Step(v, w, crc, initial, a, b)
    ensures Protocol.Inv(v, crc, b.system)
  {
    if b.system != a.system {
      Protocol.StepKeeps(v, crc, a.system, b.system);
    }
  }

  lemma {:induction false} RunSafe(v: Variant, w: Variant, crc: Checksum, initial: nat, run: seq<Whole>, i: nat)
    requires Run(v, w, crc, initial, run) && initial > 0 && i < |run|
    ensures Protocol.Inv(v, crc, run[i].system) && Linked(run[i])
  {
    if i == 0 {
      assert Queue(run[0].out.ring) == [];
    } else {
      RunSafe(v, w, crc, initial, run, i - 1);
      StepSafe(v, w, crc, initial, run[i - 1], run[i]);
      StepLinks(v, w, crc, initial, run[i - 1], run[i]);
    }
  }

  /** End to end: at any moment of a run at which the buffer is empty, an interface that has obeyed all it was sent,
      in chunks that end with lines, shows the game that was told last, with exactly the dots and crosses of the events
      below the expected one. */
  lemma ShownExactly(v: Variant, w: Variant, crc: Checksum, initial: nat, run: seq<Whole>, i: nat,
                     chunks: seq<seq<byte>>)
    requires Run(v, w, crc, initial, run) && initial > 0 && i < |run| && AllShowable(run[i].system.logs)
    requires run[i].out.ring.size == 0 && Joined(chunks) == run[i].out.sent && Aligned(chunks)
    ensures Protocol.GoodLogs(run[i].system.logs) && Grounded(run[i].system.logs, Visited(run[i].system))
    ensures ObeyChunks(BLANK, chunks)
            == Some(PictureAfter(BLANK, run[i].system.logs, Visited(run[i].system)))
  {
    var a := run[i];
    RunSafe(v, w, crc, initial, run, i);
    SafeShown(v, a.system);
    assert a.out.sent + Queue(a.out.ring) == a.out.sent;
    ObeyedInChunks(BLANK, chunks);
  }

  /** And at any moment, whatever part of it has been sent, it has obeyed the first so many lines, and nothing undefined
      has happened. */
  lemma ShownOnTheWay(v: Variant, w: Variant, crc: Checksum, initial: nat, run: seq<Whole>, i: nat,
                      chunks: seq<seq<byte>>) returns (m: nat)
    requires Run(v, w, crc, initial, run) && initial > 0 && i < |run| && AllShowable(run[i].system.logs)
    requires Joined(chunks) <= run[i].out.sent && Aligned(chunks)
    ensures m <= |run[i].system.client.lines| && Sayable(run[i].system.client.lines[..m])
    ensures ObeyChunks(BLANK, chunks) == Obey(BLANK, run[i].system.client.lines[..m]) != None
  {
    var a := run[i];
    RunSafe(v, w, crc, initial, run, i);
    SafeShown(v, a.system);
    ObeyedInChunks(BLANK, chunks);
    m := ObeyedSoFar(BLANK, a.system.client.lines, Joined(chunks));
  }

  // ---------- nothing stops the client from speaking ----------

  predicate RoomFor(line: Line, n: nat) {
    forall i :: 0 <= i < |line| ==> |line[i]| < n
  }

  /** The repaired buffer, or one from which everything was taken so far. */
  predicate Ready(w: Variant, st: Stream, n: nat) {
    RingOk(st.ring) && |st.ring.buff| >= n > 0 && (w.Repaired? || st.ring.beg == 0)
  }

  /** A word is queued, and more can be. */
  predicate Spoken(w: Variant, st: Stream, n: nat) {
    Ready(w, st, n) && EndsWord(st.ring)
  }

  lemma WordPossible(w: Variant, initial: nat, st: Stream, s: Word, n: nat) returns (more: seq<byte>)
    requires Ready(w, st, n) && |s| < n
    ensures Enabled(st, Pack(s, more)) && Spared(w, st, Pack(s, more))
    ensures Spoken(w, Do(w, initial, st, Pack(s, more)), n)
  {
    more := seq(|st.ring.buff|, _ => 0);
    if NeedsRoom(st.ring, s) && w.AsWritten? {
      SafeGrowKeeps(st.ring, more);
    }
    PackWordAppends(w, st.ring, s, more);
  }

  lemma FirstWord(w: Variant, initial: nat, st: Stream, words: seq<Word>, m: seq<byte>, rest: seq<seq<byte>>,
                  more: seq<seq<byte>>)
    requires words != [] && |rest| == |words| - 1 && more == [m] + rest
    requires Enabled(st, Pack(words[0], m)) && Spared(w, st, Pack(words[0], m))
    requires Orderly(w, initial, Do(w, initial, st, Pack(words[0], m)), WordOps(words[1..], rest))
    ensures Orderly(w, initial, st, WordOps(words, more))
    ensures DoAll(w, initial, st, WordOps(words, more))
            == DoAll(w, initial, Do(w, initial, st, Pack(words[0], m)), WordOps(words[1..], rest))
  {
    assert WordOps(words, more)[1..] == WordOps(words[1..], rest);
  }

  lemma {:induction false} WordsPossible(w: Variant, initial: nat, st: Stream, words: seq<Word>, n: nat)
    returns (more: seq<seq<byte>>)
    requires Ready(w, st, n) && RoomFor(words, n)
    ensures |more| == |words| && Orderly(w, initial, st, WordOps(words, more))
    ensures words == [] ==> WordOps(words, more) == []
    ensures words != [] ==> Spoken(w, DoAll(w, initial, st, WordOps(words, more)), n)
    decreases |words|
  {
    more := [];
    if words != [] {
      var m := WordPossible(w, initial, st, words[0], n);
      var rest := WordsPossible(w, initial, Do(w, initial, st, Pack(words[0], m)), words[1..], n);
      more := [m] + rest;
      FirstWord(w, initial, st, words, m, rest, more);
    }
  }

  /** Whatever it has to say can be packed. */
  lemma {:induction false} SpeakingPossible(w: Variant, initial: nat, st: Stream, lines: seq<Line>, n: nat)
    returns (talks: seq<Talk>)
    requires Ready(w, st, n) && forall i :: 0 <= i < |lines| ==> RoomFor(lines[i], n)
    ensures Talks(lines, talks) && Orderly(w, initial, st, AllTalkOps(lines, talks))
    decreases |lines|
  {
    talks := [];
    if lines != [] {
      var talk := LinePossible(w, initial, st, lines[0], n);
      forall i | 0 <= i < |lines[1..]| ensures RoomFor(lines[1..][i], n) {
        assert lines[1..][i] == lines[i + 1];
      }
      var rest := SpeakingPossible(w, initial, DoAll(w, initial, st, TalkOps(lines[0], talk)), lines[1..], n);
      talks := [talk] + rest;
      forall i | 0 <= i < |lines| ensures |talks[i].more| == |lines[i]| && AllSends(talks[i].sends) {
        assert i > 0 ==> talks[i] == rest[i - 1] && lines[i] == lines[1..][i - 1];
      }
      assert talks[1..] == rest;
      OrderlyAppend(w, initial, st, TalkOps(lines[0], talk), AllTalkOps(lines[1..], rest));
    }
  }

  lemma LinePossible(w: Variant, initial: nat, st: Stream, line: Line, n: nat) returns (talk: Talk)
    requires Ready(w, st, n) && RoomFor(line, n)
    ensures |talk.more| == |line| && AllSends(talk.sends) && Orderly(w, initial, st, TalkOps(line, talk))
    ensures Ready(w, DoAll(w, initial, st, TalkOps(line, talk)), n)
  {
    var more := WordsPossible(w, initial, st, line, n);
    talk := Talk(more, []);
    if line == [] {
      assert TalkOps(line, talk) == [];
    } else {
      EndPossible(w, initial, st, line, more, n);
    }
  }

  lemma EndPossible(w: Variant, initial: nat, st: Stream, line: Line, more: seq<seq<byte>>, n: nat)
    requires line != [] && |more| == |line| && Orderly(w, initial, st, WordOps(line, more))
    requires Spoken(w, DoAll(w, initial, st, WordOps(line, more)), n)
    ensures Orderly(w, initial, st, TalkOps(line, Talk(more, [])))
    ensures Ready(w, DoAll(w, initial, st, TalkOps(line, Talk(more, []))), n)
  {
    var t := DoAll(w, initial, st, WordOps(line, more));
    EndMessageMarks(t.ring);
    assert [End][1..] == [];
    assert TalkOps(line, Talk(more, [])) == WordOps(line, more) + [End];
    assert Orderly(w, initial, t, [End]);
    assert DoAll(w, initial, t, [End]) == Do(w, initial, t, End);
    OrderlyAppend(w, initial, st, WordOps(line, more), [End]);
    CallableAppend(w, initial, st, WordOps(line, more), [End]);
  }
}
