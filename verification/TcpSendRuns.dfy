/** Runs of the send buffer as written that lose bytes, from an empty ring of any capacity divisible by four. */
module TcpSendRuns {
  import opened Bytes
  import opened Text
  import opened Wire
  import opened Variants
  import opened TcpSend

  function Zeros(n: nat): seq<byte> {
    seq(n, _ => 0)
  }

  /** What every growth would find in the added memory. */
  function NoMore(words: seq<Word>, capacity: nat): (more: seq<seq<byte>>)
    ensures |more| == |words|
  {
    seq(|words|, _ => Zeros(capacity))
  }

  function Packs(words: seq<Word>, capacity: nat): seq<Op> {
    WordOps(words, NoMore(words, capacity))
  }

  /** Nothing sent yet, and some words packed from the start of the buffer. */
  predicate Holds(st: Stream, q: seq<byte>, capacity: nat) {
    && RingOk(st.ring) && |st.ring.buff| == capacity && st.ring.beg == 0 && Queue(st.ring) == q
    && st.packed == q && st.sent == []
  }

  lemma HoldsNext(st: Stream, q: seq<byte>, w: Word, capacity: nat)
    requires Holds(st, q, capacity) && |q| + |w| + 1 <= capacity
    ensures Enabled(st, Pack(w, Zeros(capacity)))
    ensures Holds(Do(AsWritten, 1, st, Pack(w, Zeros(capacity))), q + w + [SPACE], capacity)
  {
    StoredAppends(st.ring, w);
  }

  lemma {:induction false} Filled(initial: nat, st: Stream, q: seq<byte>, words: seq<Word>, capacity: nat)
    requires Holds(st, q, capacity) && |q| + |Spaced(words)| <= capacity
    ensures Callable(AsWritten, initial, st, Packs(words, capacity))
    ensures Holds(DoAll(AsWritten, initial, st, Packs(words, capacity)), q + Spaced(words), capacity)
    decreases |words|
  {
    var ops := Packs(words, capacity);
    if words == [] {
      assert q + Spaced(words) == q;
    } else {
      HoldsNext(st, q, words[0], capacity);
      assert ops[1..] == Packs(words[1..], capacity);
      SpacedGroups(q, words[0], Spaced(words[1..]));
      Filled(initial, Do(AsWritten, initial, st, ops[0]), q + words[0] + [SPACE], words[1..], capacity);
    }
  }

  /** m words of one letter and m of another. */
  function Letters(m: nat): seq<Word> {
    seq(2 * m, i => if i < m then [65] else [66])
  }

  lemma {:induction false} SpacedLetters(words: seq<Word>, i: nat)
    requires i < |words| && forall k :: 0 <= k < |words| ==> |words[k]| == 1
    ensures |Spaced(words)| == 2 * |words| && Spaced(words)[2 * i] == words[i][0]
    decreases |words|
  {
    if |words| == 1 {
      assert words[1..] == [];
    } else {
      SpacedLetters(words[1..], if i > 0 then i - 1 else 0);
    }
  }

  lemma FromStart(r: Ring)
    requires RingOk(r) && r.beg == 0 && r.size == |r.buff|
    ensures r.buff == Queue(r)
  {
    forall i | 0 <= i < |r.buff| ensures r.buff[i] == Queue(r)[i] {
      assert Place(r, i) == i;
    }
  }

  /** A full buffer, nothing sent. */
  predicate Full(st: Stream, n: nat) {
    && Holds(st, st.packed, n) && |st.packed| == n > 2 && st.ring.buff == st.packed
    && st.packed[0] == 65 && st.packed[2] in {65, 66} && st.packed[n / 2] == 66
  }

  lemma LettersSpaced(words: seq<Word>, m: nat)
    requires m > 0 && words == Letters(m)
    ensures var s := Spaced(words);
            |s| == 4 * m && s[0] == 65 && s[2] in {65, 66} && s[2 * m] == 66
  {
    SpacedLetters(words, 0);
    SpacedLetters(words, 1);
    SpacedLetters(words, m);
  }

  lemma EmptyHolds(st: Stream, n: nat)
    requires Fresh(st, n)
    ensures Holds(st, [], n)
  {
    assert Queue(st.ring) == [];
  }

  lemma FullHolds(st: Stream, s: seq<byte>, n: nat)
    requires Holds(st, [] + s, n) && |s| == n > 2 && s[0] == 65 && s[2] in {65, 66} && s[n / 2] == 66
    ensures Full(st, n)
  {
    assert [] + s == s;
    FromStart(st.ring);
  }

  lemma LettersFill(initial: nat, st: Stream, m: nat, n: nat)
    requires m > 0 && n == 4 * m && Fresh(st, n)
    ensures Callable(AsWritten, initial, st, Packs(Letters(m), n))
    ensures Full(DoAll(AsWritten, initial, st, Packs(Letters(m), n)), n)
  {
    LettersSpaced(Letters(m), m);
    EmptyHolds(st, n);
    Filled(initial, st, [], Letters(m), n);
    FullHolds(DoAll(AsWritten, initial, st, Packs(Letters(m), n)), Spaced(Letters(m)), n);
  }

  lemma TwoMore(initial: nat, st: Stream, ops: seq<Op>, full: Stream, a: Op, b: Op)
    requires Callable(AsWritten, initial, st, ops) && full == DoAll(AsWritten, initial, st, ops)
    requires Enabled(full, a) && Enabled(Do(AsWritten, initial, full, a), b)
    ensures Callable(AsWritten, initial, st, ops + [a, b])
    ensures DoAll(AsWritten, initial, st, ops + [a, b]) == Do(AsWritten, initial, Do(AsWritten, initial, full, a), b)
  {
    var two, one := [a, b], Do(AsWritten, initial, full, a);
    assert two[1..] == [b] && [b][1..] == [];
    assert Callable(AsWritten, initial, one, [b]);
    assert DoAll(AsWritten, initial, one, [b]) == Do(AsWritten, initial, one, b);
    assert DoAll(AsWritten, initial, full, two) == DoAll(AsWritten, initial, one, two[1..]);
    CallableAppend(AsWritten, initial, st, ops, two);
  }

  // ---------- growing ----------

  /** The socket takes one byte, and the next word needs room. */
  function GrowingRun(m: nat, n: nat): seq<Op> {
    Packs(Letters(m), n) + [Send(1, 0, Zeros(n)), Pack([67], Zeros(n))]
  }

  /** A full ring less its first bytes. */
  lemma Sent(initial: nat, full: Stream, n: nat, k: nat)
    requires Full(full, n) && 0 < k < n
    ensures Enabled(full, Send(k, 0, Zeros(n)))
    ensures Do(AsWritten, initial, full, Send(k, 0, Zeros(n)))
            == Stream(Dropped(full.ring, k), full.packed, full.packed[..k])
  {
    var f := FlushResult(AsWritten, full.ring, initial, k, 0, Zeros(n));
    assert f.written == full.ring.buff[..k];
  }

  /** The byte in the middle of a ring of which one byte is sent, once the ring has grown. */
  lemma MiddleLost(full: Ring, r: Ring, more: seq<byte>, half: nat)
    requires half > 0 && |full.buff| == |more| == full.size == 2 * half && full.beg == 0 && RingOk(full)
    requires r == Dropped(full, 1)
    ensures RingOk(r) && RingOk(Grown(AsWritten, r, more))
    ensures Queue(Grown(AsWritten, r, more))[half - 1] == full.buff[0]
  {
    DroppedIsRest(full, 1);
    CopiedOver(r, more, half, half);
    GrownQueue(r, more, half - 1);
  }

  lemma DiffersBehind(sent: seq<byte>, q: seq<byte>, packed: seq<byte>, k: nat)
    requires |sent| == 1 && k < |q| && k + 1 < |packed| && q[k] != packed[k + 1]
    ensures sent + q != packed
  {
    assert (sent + q)[k + 1] == q[k];
  }

  /** Nor does the word stored then bring it back. */
  lemma LostBehind(full: Ring, r: Ring, more: seq<byte>, s: Word, half: nat, packed: Ring)
    requires half > 0 && |full.buff| == |more| == full.size == 2 * half && full.beg == 0 && RingOk(full)
    requires r == Dropped(full, 1) && RingOk(r) && 0 < |s| && Fits(r, s) && packed == Packed(AsWritten, r, s, more)
    ensures RingOk(packed) && half <= packed.size && Queue(packed)[half - 1] == full.buff[0]
  {
    MiddleLost(full, r, more, half);
    var g := Grown(AsWritten, r, more);
    StoredAppends(g, s);
    assert packed == Stored(g, s);
  }

  /** What was sent and what is queued is not what was packed. */
  predicate Loses(st: Stream) {
    RingOk(st.ring) && st.sent + Queue(st.ring) != st.packed
  }

  lemma LosesAt(st: Stream, r: Ring, packed: seq<byte>, half: nat, b: byte, lost: byte)
    requires RingOk(r) && 0 < half <= r.size && half < |packed| && Queue(r)[half - 1] == b != lost == packed[half]
    requires st.ring == r && |st.sent| == 1 && st.packed == packed + [67] + [SPACE]
    ensures Loses(st)
  {
    DiffersBehind(st.sent, Queue(r), st.packed, half - 1);
  }

  /** From a full ring, those two calls. */
  lemma GrowSteps(initial: nat, full: Stream, n: nat, half: nat, one: Stream, two: Stream)
    requires Full(full, n) && n == 2 * half && one == Do(AsWritten, initial, full, Send(1, 0, Zeros(n)))
    requires Enabled(one, Pack([67], Zeros(n))) && two == Do(AsWritten, initial, one, Pack([67], Zeros(n)))
    ensures Loses(two)
  {
    Sent(initial, full, n, 1);
    LostBehind(full.ring, one.ring, Zeros(n), [67], half, two.ring);
    assert n / 2 == half;
    LosesAt(two, two.ring, full.packed, half, 65, 66);
  }

  lemma SentEnables(initial: nat, full: Stream, n: nat, k: nat)
    requires Full(full, n) && 0 < k < n
    ensures Enabled(full, Send(k, 0, Zeros(n)))
    ensures Enabled(Do(AsWritten, initial, full, Send(k, 0, Zeros(n))), Pack([67], Zeros(n)))
  {
    Sent(initial, full, n, k);
    DroppedIsRest(full.ring, k);
  }

  /** Those two calls behind any that fill the ring. */
  lemma GrowsFrom(initial: nat, st: Stream, ops: seq<Op>, full: Stream, n: nat, half: nat)
    requires Callable(AsWritten, initial, st, ops) && full == DoAll(AsWritten, initial, st, ops)
    requires Full(full, n) && n == 2 * half
    ensures var run := ops + [Send(1, 0, Zeros(n)), Pack([67], Zeros(n))];
            Callable(AsWritten, initial, st, run) && Loses(DoAll(AsWritten, initial, st, run))
  {
    SentEnables(initial, full, n, 1);
    var one := Do(AsWritten, initial, full, Send(1, 0, Zeros(n)));
    GrowSteps(initial, full, n, half, one, Do(AsWritten, initial, one, Pack([67], Zeros(n))));
    TwoMore(initial, st, ops, full, Send(1, 0, Zeros(n)), Pack([67], Zeros(n)));
  }

  /** The ring grows, and a byte still to be sent is gone. */
  lemma GrowingLoses(initial: nat, st: Stream, m: nat, n: nat) returns (run: seq<Op>)
    requires m > 0 && n == 4 * m && initial > 0 && Fresh(st, n)
    ensures run == GrowingRun(m, n)
    ensures Callable(AsWritten, initial, st, run) && Loses(DoAll(AsWritten, initial, st, run))
  {
    var ops := Packs(Letters(m), n);
    LettersFill(initial, st, m, n);
    GrowsFrom(initial, st, ops, DoAll(AsWritten, initial, st, ops), n, 2 * m);
    run := GrowingRun(m, n);
  }

  // ---------- the second piece ----------

  /** The socket takes two bytes, another word is wrapped around, and then the socket takes everything. */
  function WrappingRun(m: nat, n: nat): seq<Op>
    requires n > 2
  {
    Packs(Letters(m), n) + [Send(2, 0, Zeros(n)), Pack([67], Zeros(n))] + [Send(n - 2, 2, Zeros(n))]
  }

  lemma ThreeMore(initial: nat, st: Stream, ops: seq<Op>, full: Stream, a: Op, b: Op, c: Op, two: Stream)
    requires Callable(AsWritten, initial, st, ops) && full == DoAll(AsWritten, initial, st, ops)
    requires Enabled(full, a) && Enabled(Do(AsWritten, initial, full, a), b)
    requires two == Do(AsWritten, initial, Do(AsWritten, initial, full, a), b) && Enabled(two, c)
    ensures Callable(AsWritten, initial, st, ops + [a, b] + [c])
    ensures DoAll(AsWritten, initial, st, ops + [a, b] + [c]) == Do(AsWritten, initial, two, c)
  {
    TwoMore(initial, st, ops, full, a, b);
    assert [c][1..] == [];
    assert DoAll(AsWritten, initial, two, [c]) == Do(AsWritten, initial, two, c);
    CallableAppend(AsWritten, initial, st, ops + [a, b], [c]);
  }

  /** The ring after the wrap: full again, its first two bytes new. */
  predicate Wrapped(full: Stream, two: Stream, n: nat) {
    && RingOk(two.ring) && |two.ring.buff| == |full.packed| == n > 2 && two.ring.size == n
    && two.ring.beg == two.ring.end == 2
    && (forall i :: 2 <= i < n ==> two.ring.buff[i] == full.packed[i])
    && two.packed == full.packed + [67] + [SPACE] && two.sent == full.packed[..2]
  }

  lemma WrapsAround(full: Stream, n: nat, one: Stream, two: Stream)
    requires Full(full, n) && one == Stream(Dropped(full.ring, 2), full.packed, full.packed[..2])
    requires two == Stream(Packed(AsWritten, one.ring, [67], Zeros(n)), full.packed + [67] + [SPACE], one.sent)
    ensures Wrapped(full, two, n)
  {
    DroppedIsRest(full.ring, 2);
    StoredAppends(one.ring, [67]);
  }

  /** As much was sent as was packed, but not the same. */
  predicate Corrupts(st: Stream) {
    |st.sent| == |st.packed| && st.sent != st.packed
  }

  lemma SecondPieceFirst(buff: seq<byte>, beyond: seq<byte>, n: nat)
    requires |buff| == |beyond| == n > 2
    ensures (buff[2..n] + (buff + beyond)[2..4])[n - 2] == buff[2]
  {
    var first, second := buff[2..n], (buff + beyond)[2..4];
    assert |first| == n - 2 && second[0] == (buff + beyond)[2] == buff[2];
  }

  lemma SecondSentWrong(initial: nat, full: Stream, two: Stream, n: nat)
    requires Full(full, n) && Wrapped(full, two, n) && initial > 0
    ensures Enabled(two, Send(n - 2, 2, Zeros(n)))
    ensures Corrupts(Do(AsWritten, initial, two, Send(n - 2, 2, Zeros(n))))
  {
    var end := Do(AsWritten, initial, two, Send(n - 2, 2, Zeros(n)));
    var f := FlushResult(AsWritten, two.ring, initial, n - 2, 2, Zeros(n));
    SecondPieceFirst(two.ring.buff, Zeros(n), n);
    assert f.written == two.ring.buff[2..n] + (two.ring.buff + Zeros(n))[2..4];
    assert two.ring.buff[2] == full.packed[2];
    assert end.sent == two.sent + f.written && |two.sent| == 2;
    assert (two.sent + f.written)[n] == f.written[n - 2];
    assert end.packed[n] == 67;
  }

  /** From a full ring, those three calls. */
  lemma WrapSteps(initial: nat, full: Stream, n: nat, one: Stream, two: Stream)
    requires Full(full, n) && initial > 0 && one == Do(AsWritten, initial, full, Send(2, 0, Zeros(n)))
    requires Enabled(one, Pack([67], Zeros(n))) && two == Do(AsWritten, initial, one, Pack([67], Zeros(n)))
    ensures Enabled(two, Send(n - 2, 2, Zeros(n))) && Corrupts(Do(AsWritten, initial, two, Send(n - 2, 2, Zeros(n))))
  {
    Sent(initial, full, n, 2);
    WrapsAround(full, n, one, two);
    SecondSentWrong(initial, full, two, n);
  }

  /** Everything is sent, but not what was packed. */
  lemma WrappingSendsWrong(initial: nat, st: Stream, m: nat, n: nat) returns (run: seq<Op>)
    requires m > 0 && n == 4 * m && initial > 0 && Fresh(st, n)
    ensures run == WrappingRun(m, n)
    ensures Callable(AsWritten, initial, st, run) && Corrupts(DoAll(AsWritten, initial, st, run))
  {
    LettersFill(initial, st, m, n);
    var ops := Packs(Letters(m), n);
    var full := DoAll(AsWritten, initial, st, ops);
    SentEnables(initial, full, n, 2);
    var one := Do(AsWritten, initial, full, Send(2, 0, Zeros(n)));
    var two := Do(AsWritten, initial, one, Pack([67], Zeros(n)));
    WrapSteps(initial, full, n, one, two);
    ThreeMore(initial, st, ops, full, Send(2, 0, Zeros(n)), Pack([67], Zeros(n)), Send(n - 2, 2, Zeros(n)), two);
    run := WrappingRun(m, n);
  }

  /** So neither line does what it is for, in a buffer of the capacity a client begins with. */
  lemma ClientBufferFails(st: Stream)
    requires Fresh(st, 256)
    ensures Fifo(st)
    ensures exists ops :: Callable(AsWritten, 256, st, ops)
                          && Loses(DoAll(AsWritten, 256, st, ops))
    ensures exists ops :: Callable(AsWritten, 256, st, ops)
                          && Corrupts(DoAll(AsWritten, 256, st, ops))
  {
    assert Queue(st.ring) == [];
    var run := GrowingLoses(256, st, 64, 256);
    run := WrappingSendsWrong(256, st, 64, 256);
  }
}
