/** TCPSendBuffer of Common/Buffer.cpp: a ring that grows and shrinks, written out in up to two pieces. */
module TcpSend {
  import opened Bytes
  import opened Text
  import opened Wire
  import opened Variants

  // Two lines of the code use the wrong address: where grow copies the wrapped part, and where flush takes its second
  // piece from. Repaired has both mended.

  datatype Ring = Ring(buff: seq<byte>, beg: nat, end: nat, size: nat)

  /** x % n for an index that has gone around at most once. */
  function Wrap(x: nat, n: nat): nat
    requires x < 2 * n
  {
    if x < n then x else x - n
  }

  lemma ModIsWrap(x: nat, n: nat)
    requires x < 2 * n
    ensures x % n == Wrap(x, n)
  {
    if x >= n {
      assert x == n + (x - n) && (n + (x - n)) / n == 1;
    }
  }

  predicate RingOk(r: Ring) {
    r.size <= |r.buff| && r.beg < |r.buff| && r.end == Wrap(r.beg + r.size, |r.buff|)
  }

  /** Where the i-th queued byte is stored. */
  function Place(r: Ring, i: nat): nat
    requires RingOk(r) && i < |r.buff|
  {
    Wrap(r.beg + i, |r.buff|)
  }

  function Queue(r: Ring): (q: seq<byte>)
    requires RingOk(r)
    ensures |q| == r.size
  {
    seq(r.size, i requires 0 <= i < r.size => r.buff[Place(r, i)])
  }

  // ---------- growing ----------

  /** The buffer after s was copied to position at. */
  function Overlaid(buff: seq<byte>, at: nat, s: seq<byte>): (r: seq<byte>)
    requires at + |s| <= |buff|
    ensures |r| == |buff|
    ensures forall k :: 0 <= k < |buff| ==> r[k] == if at <= k < at + |s| then s[k - at] else buff[k]
  {
    buff[..at] + s + buff[at + |s|..]
  }

  function CopyTarget(v: Variant, capacity: nat): nat {
    match v
    case AsWritten => capacity / 4
    case Repaired => capacity / 2
  }

  /** more: whatever the memory added by realloc holds. */
  function Grown(v: Variant, r: Ring, more: seq<byte>): Ring
    requires RingOk(r) && |more| == |r.buff|
  {
    var capacity := 2 * |r.buff|;
    var buff := Overlaid(r.buff + more, CopyTarget(v, capacity), r.buff[..r.beg]);
    Ring(buff, r.beg, Wrap(r.beg + r.size, capacity), r.size)
  }

  // ---------- packing ----------

  predicate NeedsRoom(r: Ring, s: Word) {
    |r.buff| - r.size < |s| + 1
  }

  /** The capacity is doubled once at most. */
  predicate Fits(r: Ring, s: Word) {
    |s| + 1 <= 2 * |r.buff| - r.size
  }

  /** s and a space are copied behind the queued bytes, in two portions if they reach the end of the buffer. */
  function Stored(r: Ring, s: Word): Ring
    requires RingOk(r) && r.size + |s| + 1 <= |r.buff|
  {
    var w := s + [SPACE];
    var n := |r.buff|;
    var buff := seq(n, k requires 0 <= k < n =>
      var i := if k >= r.end then k - r.end else k + n - r.end;
      if i < |w| then w[i] else r.buff[k]);
    Ring(buff, r.beg, Wrap(r.end + |w|, n), r.size + |w|)
  }

  function Packed(v: Variant, r: Ring, s: Word, more: seq<byte>): Ring
    requires RingOk(r) && Fits(r, s) && |more| == |r.buff|
  {
    Stored(if NeedsRoom(r, s) then Grown(v, r, more) else r, s)
  }

  /** The last queued byte is the space behind a word. */
  predicate EndsWord(r: Ring) {
    RingOk(r) && r.size > 0 && Queue(r)[r.size - 1] == SPACE
  }

  function LastPlace(r: Ring): nat
    requires RingOk(r)
  {
    if r.end == 0 then |r.buff| - 1 else r.end - 1
  }

  function Ended(r: Ring): Ring
    requires RingOk(r)
  {
    r.(buff := r.buff[LastPlace(r) := NEWLINE])
  }

  // ---------- flushing ----------

  datatype Flushed = Flushed(ring: Ring, written: seq<byte>, empty: bool)

  function Dropped(r: Ring, n: nat): Ring
    requires RingOk(r) && n <= r.size
  {
    r.(size := r.size - n, beg := Wrap(r.beg + n, |r.buff|))
  }

  function Emptied(r: Ring, initial: nat): Ring {
    Ring(if |r.buff| > initial then r.buff[..initial] else r.buff, 0, 0, 0)
  }

  function SecondPiece(v: Variant, r: Ring): nat {
    if v.AsWritten? then r.beg else 0
  }

  /** What the socket accepts of the one or two writes. */
  predicate Accepts(r: Ring, first: nat, second: nat) {
    if r.beg < r.end then first <= r.size && second == 0
    else first <= |r.buff| - r.beg && second <= if first == |r.buff| - r.beg then r.end else 0
  }

  /** beyond: whatever memory follows the buffer, which the code as written may read. */
  function FlushResult(v: Variant, r: Ring, initial: nat, first: nat, second: nat, beyond: seq<byte>): Flushed
    requires RingOk(r) && r.size > 0 && Accepts(r, first, second) && |beyond| == |r.buff|
  {
    var total := first + second;
    var base := SecondPiece(v, r);
    var written := r.buff[r.beg..r.beg + first] + (r.buff + beyond)[base..base + second];
    if total < r.size then Flushed(Dropped(r, total), written, false)
    else Flushed(Emptied(r, initial), written, true)
  }

  // ---------- the repaired ring is a queue ----------

  lemma GrowKeeps(r: Ring, more: seq<byte>)
    requires RingOk(r) && |more| == |r.buff|
    ensures RingOk(Grown(Repaired, r, more)) && Queue(Grown(Repaired, r, more)) == Queue(r)
  {
    var g := Grown(Repaired, r, more);
    forall i | 0 <= i < r.size ensures Queue(g)[i] == Queue(r)[i] {
      assert g.buff[Place(g, i)] == r.buff[Place(r, i)];
    }
  }

  lemma StoredAppends(r: Ring, s: Word)
    requires RingOk(r) && r.size + |s| + 1 <= |r.buff|
    ensures RingOk(Stored(r, s)) && Queue(Stored(r, s)) == Queue(r) + s + [SPACE]
  {
    var t, w := Stored(r, s), s + [SPACE];
    forall i | 0 <= i < t.size ensures Queue(t)[i] == (Queue(r) + w)[i] {
      var k := Place(t, i);
      if i < r.size {
        assert t.buff[k] == r.buff[Place(r, i)];
      } else {
        assert t.buff[k] == w[i - r.size];
      }
    }
    assert Queue(r) + w == Queue(r) + s + [SPACE];
  }

  lemma PackWordAppends(v: Variant, r: Ring, s: Word, more: seq<byte>)
    requires RingOk(r) && Fits(r, s) && |more| == |r.buff|
    requires v.Repaired? || !NeedsRoom(r, s) || Queue(Grown(v, r, more)) == Queue(r)
    ensures RingOk(Packed(v, r, s, more)) && Queue(Packed(v, r, s, more)) == Queue(r) + s + [SPACE]
  {
    if NeedsRoom(r, s) {
      if v.Repaired? {
        GrowKeeps(r, more);
      }
      StoredAppends(Grown(v, r, more), s);
    } else {
      StoredAppends(r, s);
    }
  }

  lemma EndMessageMarks(r: Ring)
    requires RingOk(r) && r.size > 0
    ensures RingOk(Ended(r)) && Queue(Ended(r)) == Queue(r)[..r.size - 1] + [NEWLINE]
  {
    var t := Ended(r);
    assert LastPlace(r) == Place(r, r.size - 1);
    forall i | 0 <= i < r.size ensures Queue(t)[i] == (Queue(r)[..r.size - 1] + [NEWLINE])[i] {
      assert i < r.size - 1 ==> Place(r, i) != Place(r, r.size - 1);
    }
  }

  lemma DroppedIsRest(r: Ring, n: nat)
    requires RingOk(r) && n < r.size
    ensures RingOk(Dropped(r, n)) && Queue(Dropped(r, n)) == Queue(r)[n..]
  {
    var t := Dropped(r, n);
    forall i | 0 <= i < t.size ensures Queue(t)[i] == Queue(r)[n + i] {
      assert Place(t, i) == Place(r, n + i);
    }
  }

  /** The bytes at the right places: the first piece from beg, the second from the start of the buffer. */
  lemma PiecesAreQueue(r: Ring, first: nat, second: nat)
    requires RingOk(r) && r.size > 0 && Accepts(r, first, second)
    ensures first + second <= r.size
    ensures r.buff[r.beg..r.beg + first] + r.buff[..second] == Queue(r)[..first + second]
  {
    var written := r.buff[r.beg..r.beg + first] + r.buff[..second];
    forall i | 0 <= i < first + second ensures written[i] == Queue(r)[i] {
      if i < first {
        assert Place(r, i) == r.beg + i;
      } else {
        assert Place(r, i) == i - first;
      }
    }
  }

  lemma SecondFromStart(v: Variant, r: Ring, second: nat, beyond: seq<byte>)
    requires RingOk(r) && second <= |r.buff| && |beyond| == |r.buff|
    requires v.Repaired? || second == 0
    ensures (r.buff + beyond)[SecondPiece(v, r)..SecondPiece(v, r) + second] == r.buff[..second]
  {}

  lemma EmptiedIsEmpty(r: Ring, initial: nat)
    requires RingOk(r) && initial > 0
    ensures RingOk(Emptied(r, initial)) && Queue(Emptied(r, initial)) == []
  {}

  lemma FlushWrites(v: Variant, r: Ring, initial: nat, first: nat, second: nat, beyond: seq<byte>)
    requires RingOk(r) && r.size > 0 && Accepts(r, first, second) && |beyond| == |r.buff|
    requires v.Repaired? || second == 0
    ensures first + second <= r.size
    ensures FlushResult(v, r, initial, first, second, beyond).written == Queue(r)[..first + second]
  {
    PiecesAreQueue(r, first, second);
    SecondFromStart(v, r, second, beyond);
  }

  lemma FlushLeaves(v: Variant, r: Ring, initial: nat, first: nat, second: nat, beyond: seq<byte>, total: nat)
    requires RingOk(r) && r.size > 0 && Accepts(r, first, second) && |beyond| == |r.buff| && initial > 0
    requires total == first + second <= r.size
    ensures var f := FlushResult(v, r, initial, first, second, beyond);
            && RingOk(f.ring) && Queue(f.ring) == Queue(r)[total..]
            && (f.empty <==> f.ring.size == 0)
  {
    if total < r.size {
      DroppedIsRest(r, total);
    } else {
      EmptiedIsEmpty(r, initial);
    }
  }

  /** A flush takes the written bytes off the front of the queue, whatever part of it the socket accepts. */
  lemma FlushSplits(v: Variant, r: Ring, initial: nat, first: nat, second: nat, beyond: seq<byte>)
    requires RingOk(r) && r.size > 0 && Accepts(r, first, second) && |beyond| == |r.buff| && initial > 0
    requires v.Repaired? || second == 0
    ensures var f := FlushResult(v, r, initial, first, second, beyond);
            RingOk(f.ring) && f.written + Queue(f.ring) == Queue(r) && (f.empty <==> f.ring.size == 0)
  {
    var total := first + second;
    FlushWrites(v, r, initial, first, second, beyond);
    FlushLeaves(v, r, initial, first, second, beyond, total);
    assert Queue(r) == Queue(r)[..total] + Queue(r)[total..];
  }

  // ---------- the ring as written, exactly ----------

  /** Growing copies over queued bytes unless nothing precedes them, nothing is queued, or all of it lies in the
      first half of the buffer. */
  predicate GrowsSafely(beg: nat, size: nat, capacity: nat) {
    beg == 0 || size == 0 || beg + size <= capacity / 2
  }

  function Marked(n: nat, at: nat): seq<byte> {
    seq(n, k => if k == at then 1 else 0)
  }

  lemma TargetAsWritten(capacity: nat)
    ensures CopyTarget(AsWritten, 2 * capacity) == capacity / 2
  {}

  /** A byte in the copied-over stretch becomes the one half a capacity before it. */
  lemma CopiedOver(r: Ring, more: seq<byte>, at: nat, half: nat)
    requires RingOk(r) && |more| == |r.buff| && half == |r.buff| / 2
    requires half <= at < half + r.beg && at < |r.buff|
    ensures Grown(AsWritten, r, more).buff[at] == r.buff[at - half]
  {
    TargetAsWritten(|r.buff|);
  }

  lemma GrownQueue(r: Ring, more: seq<byte>, i: nat)
    requires RingOk(r) && |more| == |r.buff| && i < r.size && r.beg + i < |r.buff|
    ensures RingOk(Grown(AsWritten, r, more))
    ensures Queue(Grown(AsWritten, r, more))[i] == Grown(AsWritten, r, more).buff[r.beg + i]
    ensures Queue(r)[i] == r.buff[r.beg + i]
  {
    var g := Grown(AsWritten, r, more);
    assert Place(g, i) == r.beg + i == Place(r, i);
  }

  lemma UnsafeGrowLoses(beg: nat, size: nat, capacity: nat) returns (r: Ring, more: seq<byte>)
    requires size <= capacity && beg < capacity && !GrowsSafely(beg, size, capacity)
    ensures RingOk(r) && |r.buff| == |more| == capacity && r.beg == beg && r.size == size
    ensures Queue(Grown(AsWritten, r, more)) != Queue(r)
  {
    var half := capacity / 2;
    var at := if beg >= half then beg else half;
    r := Ring(Marked(capacity, at), beg, Wrap(beg + size, capacity), size);
    more := Marked(capacity, capacity);
    CopiedOver(r, more, at, half);
    GrownQueue(r, more, at - beg);
    assert r.buff[at] == 1 && r.buff[at - half] == 0;
  }

  /** grow as written keeps every queue with these indices if and only if they grow safely. */
  lemma GrowExactly(beg: nat, size: nat, capacity: nat)
    requires size <= capacity && beg < capacity
    ensures GrowsSafely(beg, size, capacity) <==>
            forall r, more :: RingOk(r) && |r.buff| == |more| == capacity && r.beg == beg && r.size == size ==>
              Queue(Grown(AsWritten, r, more)) == Queue(r)
  {
    if GrowsSafely(beg, size, capacity) {
      forall r, more | RingOk(r) && |r.buff| == |more| == capacity && r.beg == beg && r.size == size
        ensures Queue(Grown(AsWritten, r, more)) == Queue(r)
      {
        SafeGrowKeeps(r, more);
      }
    } else {
      var r, more := UnsafeGrowLoses(beg, size, capacity);
    }
  }

  lemma SafeGrowKeeps(r: Ring, more: seq<byte>)
    requires RingOk(r) && |more| == |r.buff| && GrowsSafely(r.beg, r.size, |r.buff|)
    ensures RingOk(Grown(AsWritten, r, more)) && Queue(Grown(AsWritten, r, more)) == Queue(r)
  {
    var g := Grown(AsWritten, r, more);
    forall i | 0 <= i < r.size ensures Queue(g)[i] == Queue(r)[i] {
      assert Place(g, i) == Place(r, i) == r.beg + i;
      assert g.buff[Place(g, i)] == r.buff[Place(r, i)];
    }
  }

  /** With only the first byte of the buffer set, the second piece starts with it and the code sends another. */
  lemma SecondPieceWrong(r: Ring, beyond: seq<byte>, first: nat, second: nat)
    requires RingOk(r) && r.size > 0 && Accepts(r, first, second) && second > 0 && |beyond| == |r.buff|
    requires r.buff == Marked(|r.buff|, 0)
    ensures FlushResult(AsWritten, r, |r.buff|, first, second, beyond).written != Queue(r)[..first + second]
  {
    PiecesAreQueue(r, first, second);
    assert FlushResult(AsWritten, r, |r.buff|, first, second, beyond).written[first] == r.buff[r.beg] == 0;
    assert Queue(r)[..first + second][first] == r.buff[..second][0] == 1;
  }

  /** flush as written sends the right bytes from every buffer with these indices if and only if nothing is
      accepted of the second piece. */
  lemma FlushExactly(beg: nat, size: nat, capacity: nat, first: nat, second: nat)
    requires 0 < size <= capacity && beg < capacity
    requires Accepts(Ring(Marked(capacity, 0), beg, Wrap(beg + size, capacity), size), first, second)
    ensures second == 0 <==>
            forall r, beyond :: RingOk(r) && |r.buff| == |beyond| == capacity && r.beg == beg && r.size == size ==>
              FlushResult(AsWritten, r, capacity, first, second, beyond).written == Queue(r)[..first + second]
  {
    if second == 0 {
      forall r, beyond | RingOk(r) && |r.buff| == |beyond| == capacity && r.beg == beg && r.size == size
        ensures FlushResult(AsWritten, r, capacity, first, second, beyond).written == Queue(r)[..first + second]
      {
        PiecesAreQueue(r, first, second);
        SecondFromStart(AsWritten, r, second, beyond);
      }
    } else {
      SecondPieceWrong(Ring(Marked(capacity, 0), beg, Wrap(beg + size, capacity), size), Marked(capacity, capacity),
                       first, second);
    }
  }

  // ---------- whole runs ----------

  datatype Op =
    | Pack(s: Word, more: seq<byte>)
    | End
    | Send(first: nat, second: nat, beyond: seq<byte>)

  /** packed: all that was ever put in; sent: all that the socket ever took. */
  datatype Stream = Stream(ring: Ring, packed: seq<byte>, sent: seq<byte>)

  /** What the code demands before each call; end_message comes after a word. */
  predicate Enabled(st: Stream, op: Op) {
    RingOk(st.ring) &&
    match op
    case Pack(s, more) => Fits(st.ring, s) && |more| == |st.ring.buff|
    case End => EndsWord(st.ring)
    case Send(first, second, beyond) =>
      st.ring.size > 0 ==> Accepts(st.ring, first, second) && |beyond| == |st.ring.buff|
  }

  /** An empty buffer; what its memory holds is not known. */
  predicate Fresh(st: Stream, capacity: nat) {
    && |st.ring.buff| == capacity > 0 && st.ring.beg == st.ring.end == st.ring.size == 0
    && st.packed == [] && st.sent == []
  }

  function Marks(packed: seq<byte>): seq<byte> {
    if packed == [] then [] else packed[..|packed| - 1] + [NEWLINE]
  }

  function Do(v: Variant, initial: nat, st: Stream, op: Op): Stream
    requires Enabled(st, op)
  {
    match op
    case Pack(s, more) => st.(ring := Packed(v, st.ring, s, more), packed := st.packed + s + [SPACE])
    case End => st.(ring := Ended(st.ring), packed := Marks(st.packed))
    case Send(first, second, beyond) =>
      if st.ring.size == 0 then st
      else
        var f := FlushResult(v, st.ring, initial, first, second, beyond);
        st.(ring := f.ring, sent := st.sent + f.written)
  }

  /** What the buffer as written must be spared; nothing for the repaired one. */
  predicate Spared(v: Variant, st: Stream, op: Op) {
    v.Repaired? ||
    match op
    case Pack(s, _) => NeedsRoom(st.ring, s) ==> GrowsSafely(st.ring.beg, st.ring.size, |st.ring.buff|)
    case End => true
    case Send(_, second, _) => st.ring.size > 0 ==> second == 0
  }

  predicate Fifo(st: Stream) {
    RingOk(st.ring) && st.sent + Queue(st.ring) == st.packed
  }

  lemma PackFifo(v: Variant, st: Stream, s: Word, more: seq<byte>)
    requires Fifo(st) && Enabled(st, Pack(s, more)) && Spared(v, st, Pack(s, more))
    ensures Fifo(Do(v, 0, st, Pack(s, more)))
  {
    var q := Queue(st.ring);
    if v.AsWritten? && NeedsRoom(st.ring, s) {
      SafeGrowKeeps(st.ring, more);
    }
    PackWordAppends(v, st.ring, s, more);
    assert st.sent + (q + s + [SPACE]) == st.sent + q + s + [SPACE];
  }

  lemma EndFifo(v: Variant, st: Stream)
    requires Fifo(st) && Enabled(st, End)
    ensures Fifo(Do(v, 0, st, End))
  {
    var q := Queue(st.ring);
    EndMessageMarks(st.ring);
    assert st.sent + (q[..|q| - 1] + [NEWLINE]) == Marks(st.sent + q);
  }

  lemma SendFifo(v: Variant, initial: nat, st: Stream, first: nat, second: nat, beyond: seq<byte>)
    requires Fifo(st) && Enabled(st, Send(first, second, beyond)) && Spared(v, st, Send(first, second, beyond))
    requires initial > 0
    ensures Fifo(Do(v, initial, st, Send(first, second, beyond)))
  {
    if st.ring.size > 0 {
      FlushSplits(v, st.ring, initial, first, second, beyond);
      var f := FlushResult(v, st.ring, initial, first, second, beyond);
      Regroup(st.sent, f.written, Queue(f.ring));
      SentIs(v, initial, st, first, second, beyond, f);
    }
  }

  lemma SentIs(v: Variant, initial: nat, st: Stream, first: nat, second: nat, beyond: seq<byte>, f: Flushed)
    requires Enabled(st, Send(first, second, beyond)) && st.ring.size > 0
    requires f == FlushResult(v, st.ring, initial, first, second, beyond)
    ensures Do(v, initial, st, Send(first, second, beyond)) == st.(ring := f.ring, sent := st.sent + f.written)
  {}

  lemma StepFifo(v: Variant, initial: nat, st: Stream, op: Op)
    requires Fifo(st) && Enabled(st, op) && Spared(v, st, op) && initial > 0
    ensures Fifo(Do(v, initial, st, op))
  {
    match op
    case Pack(s, more) => PackFifo(v, st, s, more);
    case End => EndFifo(v, st);
    case Send(first, second, beyond) => SendFifo(v, initial, st, first, second, beyond);
  }

  /** Every operation is called as the code demands. */
  predicate Callable(v: Variant, initial: nat, st: Stream, ops: seq<Op>)
    decreases ops
  {
    ops == [] || (Enabled(st, ops[0]) && Callable(v, initial, Do(v, initial, st, ops[0]), ops[1..]))
  }

  /** Moreover, the buffer as written is spared its wrong lines. */
  predicate Orderly(v: Variant, initial: nat, st: Stream, ops: seq<Op>): (b: bool)
    ensures b ==> Callable(v, initial, st, ops)
    decreases ops
  {
    ops == [] ||
    (Enabled(st, ops[0]) && Spared(v, st, ops[0]) && Orderly(v, initial, Do(v, initial, st, ops[0]), ops[1..]))
  }

  function DoAll(v: Variant, initial: nat, st: Stream, ops: seq<Op>): Stream
    requires Callable(v, initial, st, ops)
    decreases ops
  {
    if ops == [] then st else DoAll(v, initial, Do(v, initial, st, ops[0]), ops[1..])
  }

  /** First in, first out, over any interleaving of packing and flushing with any partial writes at any place of
      the ring: what was sent, followed by what is queued, is everything that was packed. */
  lemma {:induction false} RunFifo(v: Variant, initial: nat, st: Stream, ops: seq<Op>)
    requires Fifo(st) && initial > 0 && Orderly(v, initial, st, ops)
    ensures Fifo(DoAll(v, initial, st, ops))
    decreases ops
  {
    if ops != [] {
      StepFifo(v, initial, st, ops[0]);
      RunFifo(v, initial, Do(v, initial, st, ops[0]), ops[1..]);
    }
  }

  /** While the socket takes all it is offered, the queue starts at the start of the buffer and the buffer as
      written is spared. */
  lemma WholeWriteSpares(initial: nat, st: Stream, op: Op)
    requires Enabled(st, op) && st.ring.beg == 0
    requires op.Send? && st.ring.size > 0 ==> op.first + op.second == st.ring.size
    ensures Spared(AsWritten, st, op) && Do(AsWritten, initial, st, op).ring.beg == 0
  {}

  predicate WholeWrites(initial: nat, st: Stream, ops: seq<Op>)
    requires Callable(AsWritten, initial, st, ops)
    decreases ops
  {
    ops == [] ||
    ((ops[0].Send? && st.ring.size > 0 ==> ops[0].first + ops[0].second == st.ring.size)
     && WholeWrites(initial, Do(AsWritten, initial, st, ops[0]), ops[1..]))
  }

  /** So it is over any run in which every flush is taken whole: the buffer as written works. */
  lemma {:induction false} WholeWritesFifo(initial: nat, st: Stream, ops: seq<Op>)
    requires Callable(AsWritten, initial, st, ops) && WholeWrites(initial, st, ops)
    requires Fifo(st) && st.ring.beg == 0 && initial > 0
    ensures Orderly(AsWritten, initial, st, ops) && Fifo(DoAll(AsWritten, initial, st, ops))
    decreases ops
  {
    if ops != [] {
      WholeWriteSpares(initial, st, ops[0]);
      StepFifo(AsWritten, initial, st, ops[0]);
      WholeWritesFifo(initial, Do(AsWritten, initial, st, ops[0]), ops[1..]);
    }
  }

  /** The calls that pack one message. more: what each growth would find in the added memory. */
  function WordOps(words: seq<Word>, more: seq<seq<byte>>): seq<Op>
    requires |more| == |words|
  {
    seq(|words|, i requires 0 <= i < |words| => Pack(words[i], more[i]))
  }

  lemma {:induction false} CallableAppend(v: Variant, initial: nat, st: Stream, a: seq<Op>, b: seq<Op>)
    ensures Callable(v, initial, st, a + b)
            <==> Callable(v, initial, st, a) && Callable(v, initial, DoAll(v, initial, st, a), b)
    ensures Callable(v, initial, st, a + b) ==>
              DoAll(v, initial, st, a + b) == DoAll(v, initial, DoAll(v, initial, st, a), b)
    decreases |a|
  {
    if a == [] {
      assert a + b == b;
    } else {
      assert (a + b)[1..] == a[1..] + b;
      if Enabled(st, a[0]) {
        CallableAppend(v, initial, Do(v, initial, st, a[0]), a[1..], b);
      }
    }
  }

  lemma {:induction false} OrderlyAppend(v: Variant, initial: nat, st: Stream, a: seq<Op>, b: seq<Op>)
    ensures Orderly(v, initial, st, a + b)
            <==> Orderly(v, initial, st, a) && Orderly(v, initial, DoAll(v, initial, st, a), b)
    decreases |a|
  {
    if a == [] {
      assert a + b == b;
    } else {
      assert (a + b)[1..] == a[1..] + b;
      if Enabled(st, a[0]) && Spared(v, st, a[0]) {
        OrderlyAppend(v, initial, Do(v, initial, st, a[0]), a[1..], b);
      }
    }
  }

  lemma {:induction false} WordsPackedInto(v: Variant, initial: nat, st: Stream, words: seq<Word>, more: seq<seq<byte>>)
    requires |more| == |words| && Callable(v, initial, st, WordOps(words, more))
    ensures DoAll(v, initial, st, WordOps(words, more)).packed == st.packed + Spaced(words)
    decreases |words|
  {
    var ops := WordOps(words, more);
    if words != [] {
      assert ops[1..] == WordOps(words[1..], more[1..]);
      WordsPackedInto(v, initial, Do(v, initial, st, ops[0]), words[1..], more[1..]);
      SpacedGroups(st.packed, words[0], Spaced(words[1..]));
    }
  }

  lemma SpacedGroups(a: seq<byte>, w: Word, rest: seq<byte>)
    ensures a + w + [SPACE] + rest == a + (w + [SPACE] + rest)
  {}

  /** The calls that pack one message and mark its end. */
  function LineOps(line: Line, more: seq<seq<byte>>): seq<Op>
    requires |more| == |line|
  {
    WordOps(line, more) + [End]
  }

  /** All words of a message and then its end pack the line the interface reads. */
  lemma MessagePacked(v: Variant, initial: nat, st: Stream, line: Line, more: seq<seq<byte>>)
    requires line != [] && |more| == |line| && Callable(v, initial, st, LineOps(line, more))
    ensures DoAll(v, initial, st, LineOps(line, more)).packed == st.packed + LineBytes(line)
  {
    var ops := WordOps(line, more);
    CallableAppend(v, initial, st, ops, [End]);
    WordsPackedInto(v, initial, st, line, more);
    LineBytesFromSpaced(line);
    var st1 := DoAll(v, initial, st, ops);
    assert [End][1..] == [];
    assert DoAll(v, initial, st1, [End]) == Do(v, initial, st1, End);
    MarkedLast(st.packed, Spaced(line), [NEWLINE]);
  }

  // ---------- the class as written ----------

  /** How a flush ends: the buffer is empty, the socket took only a part, or a write failed and ended the process. */
  datatype Progress = Done | Partial | Exited

  /** Possible results of the one or two writes. */
  predicate Returns(r: Ring, first: int, second: int) {
    if first < 0 then second == 0
    else if second < 0 then r.beg >= r.end && first == |r.buff| - r.beg
    else Accepts(r, first, second)
  }

  class TCPSendBuffer {
    const initialCapacity: nat
    var buff: array<byte>
    var beg: nat
    var end: nat
    var size: nat
    var capacity: nat

    ghost predicate Valid()
      reads this, buff
    {
      buff.Length == capacity && initialCapacity > 0 && RingOk(View())
    }

    ghost function View(): Ring
      reads this, buff
    {
      Ring(buff[..], beg, end, size)
    }

    constructor (capacity: nat)
      requires capacity > 0
      ensures Valid() && fresh(buff) && initialCapacity == this.capacity == capacity
      ensures beg == 0 && Queue(View()) == []
    {
      initialCapacity, this.capacity := capacity, capacity;
      buff := new byte[capacity];
      beg, end, size := 0, 0, 0;
    }

    /** realloc to twice the capacity; what the added memory holds is not known. */
    method Double() returns (ghost more: seq<byte>)
      requires buff.Length == capacity
      modifies this`buff, this`capacity
      ensures fresh(buff) && capacity == buff.Length == 2 * old(capacity)
      ensures |more| == old(capacity) && buff[..] == old(buff[..]) + more
    {
      capacity := 2 * capacity;
      var bigger := new byte[capacity];
      forall i | 0 <= i < buff.Length {
        bigger[i] := buff[i];
      }
      buff := bigger;
      more := buff[capacity / 2..];
    }

    method Copy(at: nat, s: seq<byte>)
      requires at + |s| <= buff.Length
      modifies buff
      ensures buff[..] == Overlaid(old(buff[..]), at, s)
    {
      forall i | 0 <= i < |s| {
        buff[at + i] := s[i];
      }
    }

    method Grow() returns (ghost more: seq<byte>)
      requires Valid()
      modifies this`buff, this`capacity, this`end
      ensures Valid() && fresh(buff) && capacity == 2 * old(capacity)
      ensures |more| == old(capacity) && View() == Grown(AsWritten, old(View()), more)
    {
      ghost var r := View();
      more := Double();
      ghost var b := buff[..];
      Copy(capacity / 4, buff[..beg]);
      ModIsWrap(beg + size, capacity);
      end := (beg + size) % capacity;
      GrownIs(r, more, b, buff[..], end);
    }

    method Shrink()
      requires capacity > initialCapacity && buff.Length == capacity
      modifies this`buff, this`capacity
      ensures capacity == buff.Length == initialCapacity && fresh(buff)
      ensures buff[..] == old(buff[..initialCapacity])
    {
      capacity := initialCapacity;
      var smaller := new byte[capacity];
      forall i | 0 <= i < capacity {
        smaller[i] := buff[i];
      }
      buff := smaller;
    }

    /** s goes behind the queued bytes, in two portions if it reaches the end of the buffer. */
    method CopyWord(s: Word)
      requires Valid() && size + |s| + 1 <= capacity
      modifies buff
      ensures buff[..][Wrap(end + |s|, capacity) := SPACE] == Stored(old(View()), s).buff
    {
      ghost var r := View();
      if capacity - end < |s| {
        var firstPortion := capacity - end;
        Copy(end, s[..firstPortion]);
        Copy(0, s[firstPortion..]);
        StoredInTwo(r, s, firstPortion);
      } else {
        Copy(end, s);
        StoredInOne(r, s);
      }
    }

    method Store(s: Word)
      requires Valid() && size + |s| + 1 <= capacity
      modifies this`end, this`size, buff
      ensures Valid() && View() == Stored(old(View()), s)
    {
      ghost var r := View();
      CopyWord(s);
      ghost var b := buff[..];
      ModIsWrap(end + |s|, capacity);
      end := (end + |s|) % capacity;
      buff[end] := SPACE;
      assert buff[..] == b[end := SPACE] == Stored(r, s).buff;
      ModIsWrap(end + 1, capacity);
      end := (end + 1) % capacity;
      size := size + |s| + 1;
      StoredAppends(r, s);
      assert View() == Stored(r, s);
    }

    /** overrun: the buffer is doubled once only, and the word is written past its end. */
    method PackWord(s: Word) returns (overrun: bool, ghost more: seq<byte>)
      requires Valid()
      modifies this, buff
      ensures Valid() && (buff == old(buff) || fresh(buff)) && |more| == old(capacity)
      ensures overrun <==> !Fits(old(View()), s)
      ensures overrun <==> 2 * old(capacity) - old(size) < |s| + 1
      ensures capacity == if old(capacity) - old(size) < |s| + 1 then 2 * old(capacity) else old(capacity)
      ensures !overrun ==> View() == Packed(AsWritten, old(View()), s, more)
      ensures !overrun && old(beg) == 0 ==> Queue(View()) == old(Queue(View())) + s + [SPACE]
    {
      ghost var r := View();
      more := buff[..];
      if capacity - size < |s| + 1 {
        more := Grow();
      }
      overrun := capacity - size < |s| + 1;
      if !overrun {
        Store(s);
        if beg == 0 {
          PackedAtStart(r, s, more);
        }
      }
    }

    method EndMessage()
      requires Valid() && EndsWord(View())
      modifies buff
      ensures Valid() && View() == Ended(old(View()))
    {
      var last := if end == 0 then capacity - 1 else end - 1;
      buff[last] := NEWLINE;
    }

    /** The words of a message. more: what each growth found in the added memory. */
    method PackWords(line: Line) returns (overrun: bool, ghost more: seq<seq<byte>>)
      requires Valid() && line != []
      modifies this, buff
      ensures Valid() && (buff == old(buff) || fresh(buff)) && |more| <= |line|
      ensures overrun <==> WordsPacked(old(View()), line, more).None?
      ensures !overrun ==> WordsPacked(old(View()), line, more) == Some(View())
      ensures !overrun ==> EndsWord(View())
      ensures (forall i :: 0 <= i < |line| ==> |line[i]| < old(capacity)) ==> !overrun
    {
      ghost var r := View();
      more, overrun := [], false;
      for i := 0 to |line|
        invariant Valid() && (buff == old(buff) || fresh(buff)) && |more| == i && capacity >= old(capacity)
        invariant !overrun && WordsPacked(r, line[..i], more) == Some(View())
        invariant i > 0 ==> EndsWord(View())
      {
        overrun, more := PackNext(line, i, r, more);
        if overrun {
          WordsStayNone(r, line, i + 1, more);
          return;
        }
      }
      assert line[..|line|] == line;
    }

    /** The body of that loop. */
    method PackNext(line: Line, i: nat, ghost r: Ring, ghost before: seq<seq<byte>>)
      returns (overrun: bool, ghost more: seq<seq<byte>>)
      requires Valid() && i < |line| && |before| == i && RingOk(r) && WordsPacked(r, line[..i], before) == Some(View())
      modifies this, buff
      ensures Valid() && (buff == old(buff) || fresh(buff)) && |more| == i + 1
      ensures !overrun ==> capacity >= old(capacity)
      ensures overrun <==> WordsPacked(r, line[..i + 1], more).None?
      ensures !overrun ==> WordsPacked(r, line[..i + 1], more) == Some(View())
      ensures !overrun ==> EndsWord(View())
      ensures |line[i]| < old(capacity) ==> !overrun
    {
      ghost var q, m := View(), [];
      overrun, m := PackWord(line[i]);
      NextPacked(r, line, i, before, m, q);
      more := before + [m];
    }

    /** EventImpl::stringify: all words of a message, then its end. While no growth takes the wrong line, the message is
        queued as it is meant to be read. */
    method PackLine(line: Line) returns (overrun: bool, ghost more: seq<seq<byte>>)
      requires Valid() && line != []
      modifies this, buff
      ensures Valid() && (buff == old(buff) || fresh(buff)) && |more| <= |line|
      ensures overrun <==> LinePacked(old(View()), line, more).None?
      ensures !overrun ==> LinePacked(old(View()), line, more) == Some(View())
      ensures !overrun && LineSpared(old(View()), line, more) ==>
                Queue(View()) == old(Queue(View())) + LineBytes(line)
      ensures (forall i :: 0 <= i < |line| ==> |line[i]| < old(capacity)) ==> !overrun
    {
      ghost var r := View();
      overrun, more := PackWords(line);
      if !overrun {
        ghost var q := View();
        EndMessageMarks(q);
        EndMessage();
        if LineSpared(r, line, more) {
          LineQueued(r, line, more, q);
        }
      }
    }

    /** The two lines after every partial write. */
    method Drop(totalWritten: nat)
      requires Valid() && totalWritten < size
      modifies this`beg, this`size
      ensures Valid() && View() == Dropped(old(View()), totalWritten)
    {
      size := size - totalWritten;
      ModIsWrap(beg + totalWritten, capacity);
      beg := (beg + totalWritten) % capacity;
    }

    method Reset()
      requires Valid()
      modifies this
      ensures Valid() && (buff == old(buff) || fresh(buff))
      ensures View() == Emptied(old(View()), initialCapacity)
    {
      beg, end, size := 0, 0, 0;
      if capacity > initialCapacity {
        Shrink();
      }
    }

    /** first and second are what the two calls of write return; -1 ends the process. */
    method Flush(first: int, second: int, ghost beyond: seq<byte>) returns (p: Progress, ghost written: seq<byte>)
      requires Valid() && |beyond| == capacity
      requires size > 0 ==> Returns(View(), first, second)
      modifies this
      ensures Valid() && (buff == old(buff) || fresh(buff))
      ensures old(size) == 0 ==> p == Done && written == [] && View() == old(View())
      ensures old(size) > 0 ==> (p == Exited <==> first < 0 || second < 0)
      ensures old(size) > 0 && p != Exited ==>
                var f := FlushResult(AsWritten, old(View()), initialCapacity, first, second, beyond);
                View() == f.ring && written == f.written && p == if f.empty then Done else Partial
    {
      if size == 0 {
        return Done, [];
      }
      if first < 0 {
        return Exited, [];
      }
      if second < 0 {
        return Exited, View().buff[beg..beg + first];
      }
      written := FlushResult(AsWritten, View(), initialCapacity, first, second, beyond).written;
      var totalWritten := 0;
      if beg < end {
        totalWritten := totalWritten + first;
        if first < size {
          Drop(totalWritten);
          return Partial, written;
        }
      } else {
        var firstPortion := capacity - beg;
        totalWritten := totalWritten + first;
        if first < firstPortion {
          Drop(totalWritten);
          return Partial, written;
        }
        var secondPortion := end;
        totalWritten := totalWritten + second;
        if second < secondPortion {
          Drop(totalWritten);
          return Partial, written;
        }
      }
      Reset();
      p := Done;
    }
  }

  lemma GrownIs(r: Ring, more: seq<byte>, b: seq<byte>, copied: seq<byte>, end: nat)
    requires RingOk(r) && |more| == |r.buff| && b == r.buff + more
    requires copied == Overlaid(b, |b| / 4, b[..r.beg]) && end == Wrap(r.beg + r.size, |b|)
    ensures Ring(copied, r.beg, end, r.size) == Grown(AsWritten, r, more)
    ensures RingOk(Ring(copied, r.beg, end, r.size))
  {}

  /** The ring after some words. None: one of them is written past the end of the buffer. Once that has happened
      nothing more is known, so more may be shorter than words. */
  function WordsPacked(r: Ring, words: seq<Word>, more: seq<seq<byte>>): (q: Option<Ring>)
    requires RingOk(r)
    ensures q.Some? ==> RingOk(q.value) && |q.value.buff| >= |r.buff|
    decreases |words|
  {
    if words == [] then Some(r)
    else
      var n := |words| - 1;
      match WordsPacked(r, words[..n], more)
      case None => None
      case Some(q) =>
        if n < |more| && Fits(q, words[n]) && |more[n]| == |q.buff| then
          StoredIsRing(q, words[n], more[n]);
          Some(Packed(AsWritten, q, words[n], more[n]))
        else None
  }

  lemma StoredIsRing(r: Ring, s: Word, more: seq<byte>)
    requires RingOk(r) && Fits(r, s) && |more| == |r.buff|
    ensures RingOk(Packed(AsWritten, r, s, more)) && |Packed(AsWritten, r, s, more).buff| >= |r.buff|
  {
    StoredAppends(if NeedsRoom(r, s) then Grown(AsWritten, r, more) else r, s);
  }

  lemma StoredLast(r: Ring, s: Word, more: seq<byte>)
    requires RingOk(r) && Fits(r, s) && |more| == |r.buff|
    ensures EndsWord(Packed(AsWritten, r, s, more))
  {
    StoredAppends(if NeedsRoom(r, s) then Grown(AsWritten, r, more) else r, s);
  }

  function LinePacked(r: Ring, line: Line, more: seq<seq<byte>>): Option<Ring>
    requires RingOk(r)
  {
    match WordsPacked(r, line, more)
    case None => None
    case Some(q) => Some(Ended(q))
  }

  /** No growth on the way takes the wrong line. */
  predicate LineSpared(r: Ring, words: seq<Word>, more: seq<seq<byte>>)
    requires RingOk(r)
    decreases |words|
  {
    words == [] ||
    var n := |words| - 1;
    LineSpared(r, words[..n], more) &&
    match WordsPacked(r, words[..n], more)
    case None => false
    case Some(q) => NeedsRoom(q, words[n]) ==> GrowsSafely(q.beg, q.size, |q.buff|)
  }

  lemma {:induction false} MoreBeyond(r: Ring, words: seq<Word>, more: seq<seq<byte>>, m: seq<byte>)
    requires RingOk(r) && |more| >= |words|
    ensures WordsPacked(r, words, more + [m]) == WordsPacked(r, words, more)
    decreases |words|
  {
    if words != [] {
      MoreBeyond(r, words[..|words| - 1], more, m);
    }
  }

  lemma WordsPackedNext(r: Ring, line: Line, i: nat, more: seq<seq<byte>>, m: seq<byte>, q: Ring)
    requires RingOk(r) && i < |line| && |more| == i && |m| == |q.buff|
    requires WordsPacked(r, line[..i], more) == Some(q)
    ensures WordsPacked(r, line[..i + 1], more + [m])
            == if Fits(q, line[i]) then Some(Packed(AsWritten, q, line[i], m)) else None
  {
    assert line[..i + 1][..i] == line[..i];
    MoreBeyond(r, line[..i], more, m);
  }

  /** All that packing the next word does. */
  lemma NextPacked(r: Ring, line: Line, i: nat, before: seq<seq<byte>>, m: seq<byte>, q: Ring)
    requires RingOk(r) && RingOk(q) && i < |line| && |before| == i && |m| == |q.buff|
    requires WordsPacked(r, line[..i], before) == Some(q)
    ensures WordsPacked(r, line[..i + 1], before + [m])
            == if Fits(q, line[i]) then Some(Packed(AsWritten, q, line[i], m)) else None
    ensures Fits(q, line[i]) ==>
              var t := Packed(AsWritten, q, line[i], m);
              EndsWord(t) && |t.buff| >= |q.buff|
    ensures |line[i]| < |q.buff| ==> Fits(q, line[i])
  {
    WordsPackedNext(r, line, i, before, m, q);
    if Fits(q, line[i]) {
      StoredLast(q, line[i], m);
      StoredIsRing(q, line[i], m);
    }
  }

  lemma {:induction false} WordsStayNone(r: Ring, line: Line, n: nat, more: seq<seq<byte>>)
    requires RingOk(r) && n <= |line| && WordsPacked(r, line[..n], more).None?
    ensures WordsPacked(r, line, more).None?
    decreases |line|
  {
    if n < |line| {
      assert line[..|line| - 1][..n] == line[..n];
      WordsStayNone(r, line[..|line| - 1], n, more);
    } else {
      assert line[..n] == line;
    }
  }

  lemma {:induction false} WordsQueued(r: Ring, words: seq<Word>, more: seq<seq<byte>>)
    requires RingOk(r) && WordsPacked(r, words, more).Some? && LineSpared(r, words, more)
    ensures Queue(WordsPacked(r, words, more).value) == Queue(r) + Spaced(words)
    decreases |words|
  {
    if words != [] {
      var n := |words| - 1;
      WordsQueued(r, words[..n], more);
      var q := WordsPacked(r, words[..n], more).value;
      if NeedsRoom(q, words[n]) {
        SafeGrowKeeps(q, more[n]);
      }
      PackWordAppends(AsWritten, q, words[n], more[n]);
      SpacedNext(words, n);
      assert words[..n + 1] == words;
      Appended(Queue(r), Spaced(words[..n]), words[n], Spaced(words));
    }
  }

  lemma LineQueued(r: Ring, line: Line, more: seq<seq<byte>>, q: Ring)
    requires RingOk(r) && line != [] && LineSpared(r, line, more) && WordsPacked(r, line, more) == Some(q)
    ensures q.size > 0 && RingOk(Ended(q)) && Queue(Ended(q)) == Queue(r) + LineBytes(line)
  {
    WordsQueued(r, line, more);
    LineBytesFromSpaced(line);
    EndMessageMarks(q);
    MarkedLast(Queue(r), Spaced(line), [NEWLINE]);
  }

  /** While nothing is left over from a partial write, every message is queued as it is meant to be read. */
  lemma {:induction false} StartSpares(r: Ring, words: seq<Word>, more: seq<seq<byte>>)
    requires RingOk(r) && r.beg == 0 && WordsPacked(r, words, more).Some?
    ensures LineSpared(r, words, more) && WordsPacked(r, words, more).value.beg == 0
    decreases |words|
  {
    if words != [] {
      StartSpares(r, words[..|words| - 1], more);
    }
  }

  lemma PackedAtStart(r: Ring, s: Word, more: seq<byte>)
    requires RingOk(r) && Fits(r, s) && |more| == |r.buff| && r.beg == 0
    ensures RingOk(Packed(AsWritten, r, s, more))
    ensures Queue(Packed(AsWritten, r, s, more)) == Queue(r) + s + [SPACE]
  {
    SafeGrowKeeps(r, more);
    PackWordAppends(AsWritten, r, s, more);
  }

  lemma Appended(q: seq<byte>, a: seq<byte>, w: Word, b: seq<byte>)
    requires b == a + w + [SPACE]
    ensures q + a + w + [SPACE] == q + b
  {}

  lemma MarkedLast(q: seq<byte>, s: seq<byte>, mark: seq<byte>)
    requires s != []
    ensures (q + s)[..|q| + |s| - 1] + mark == q + (s[..|s| - 1] + mark)
  {}

  lemma StoredInOne(r: Ring, s: Word)
    requires RingOk(r) && r.size + |s| + 1 <= |r.buff| && |r.buff| - r.end >= |s|
    ensures Overlaid(r.buff, r.end, s)[Wrap(r.end + |s|, |r.buff|) := SPACE] == Stored(r, s).buff
  {}

  lemma StoredInTwo(r: Ring, s: Word, n: nat)
    requires RingOk(r) && r.size + |s| + 1 <= |r.buff| && |r.buff| - r.end == n < |s|
    ensures Overlaid(Overlaid(r.buff, r.end, s[..n]), 0, s[n..])[Wrap(r.end + |s|, |r.buff|) := SPACE]
            == Stored(r, s).buff
  {}
}
