/** The bytes of a pipe (user/lib/pipe.c).  One reader and one writer share a page
    with two 32-bit positions and a buffer of 32 bytes.  Testing for room or data
    and moving a byte are separate steps, so the two sides interleave in between. */
module PipeRings {

  const PIPE_SIZE := 32
  const WRAP := 0x1_0000_0000            // positions are u_int

  type Byte = b: nat | b < 256

  datatype Ring = Ring(rpos: nat, wpos: nat, buf: seq<Byte>) {
    predicate Typed() { |buf| == PIPE_SIZE && rpos < WRAP && wpos < WRAP }

    predicate LooksEmpty() { rpos >= wpos }

    predicate LooksFull() { (wpos - rpos) % WRAP >= PIPE_SIZE }

    /** What the reader's transfer takes. */
    function Next(): Byte
      requires Typed()
    { buf[rpos % PIPE_SIZE] }

    function Taken(): Ring
      requires Typed()
    { this.(rpos := (rpos + 1) % WRAP) }

    function Put(b: Byte): Ring
      requires Typed()
    { this.(buf := buf[wpos % PIPE_SIZE := b], wpos := (wpos + 1) % WRAP) }

    /** The bytes in flight, read off the page. */
    function Held(): seq<Byte>
      requires Typed()
    { seq((wpos - rpos) % WRAP, j requires 0 <= j => buf[(rpos + j) % PIPE_SIZE]) }
  }

  /** Places in pipe_read: outside, the loop head, the emptiness test, the closed
      test, and between a successful test and the transfer. */
  datatype Place = Out | Head | Test | AskClosed | Move

  /** n: bytes asked for; rbuf: bytes received by the call so far. */
  datatype Reader = Reader(at: Place, n: nat, rbuf: seq<Byte>)

  /** wbuf: the caller's bytes; i: how many went in so far. */
  datatype Writer = Writer(at: Place, wbuf: seq<Byte>, i: nat)

  /** taken, written: everything ever moved; start, base: what was moved before the
      current calls of the reader and the writer. */
  datatype State = State(ring: Ring, reader: Reader, writer: Writer,
                         taken: seq<Byte>, written: seq<Byte>, start: nat, base: nat)

  datatype Op =
    | ReadCall(n: nat)
    | WriteCall(wbuf: seq<Byte>)
    | ReaderStep(closed: bool)         // closed: the answer of _pipe_is_closed, where asked
    | WriterStep(closed: bool)

  function ReaderMoves(s: State, closed: bool): State
    requires s.ring.Typed()
  {
    var r := s.reader;
    match r.at
    case Out => s
    case Head => s.(reader := r.(at := if |r.rbuf| >= r.n then Out else Test))
    case Test =>
      if s.ring.LooksEmpty() then s.(reader := r.(at := if |r.rbuf| > 0 then Out else AskClosed))
      else s.(reader := r.(at := Move))
    case AskClosed => s.(reader := r.(at := if closed then Out else Test))
    case Move =>
      s.(ring := s.ring.Taken(), taken := s.taken + [s.ring.Next()],
         reader := r.(at := Head, rbuf := r.rbuf + [s.ring.Next()]))
  }

  function WriterMoves(s: State, closed: bool): State
    requires s.ring.Typed() && (s.writer.at.Move? ==> s.writer.i < |s.writer.wbuf|)
  {
    var w := s.writer;
    match w.at
    case Out => s
    case Head => s.(writer := w.(at := if w.i >= |w.wbuf| then Out else Test))
    case Test => s.(writer := w.(at := if s.ring.LooksFull() then AskClosed else Move))
    case AskClosed => s.(writer := w.(at := if closed then Out else Test))
    case Move =>
      var b := w.wbuf[w.i];
      s.(ring := s.ring.Put(b), written := s.written + [b], writer := w.(at := Head, i := w.i + 1))
  }

  function Step(s: State, op: Op): State
    requires Inv(s)
  {
    match op
    case ReadCall(n) =>
      if s.reader.at.Out? then s.(reader := Reader(Head, n, []), start := |s.taken|) else s
    case WriteCall(wbuf) =>
      if s.writer.at.Out? then s.(writer := Writer(Head, wbuf, 0), base := |s.written|) else s
    case ReaderStep(closed) => ReaderMoves(s, closed)
    case WriterStep(closed) => WriterMoves(s, closed)
  }

  // ----- the invariant

  /** The page is the last bytes of what was written. */
  predicate Holds(g: Ring, taken: seq<Byte>, written: seq<Byte>) {
    && g.Typed() && taken <= written
    && |written| - |taken| <= PIPE_SIZE
    && g.rpos == |taken| % WRAP && g.wpos == |written| % WRAP
    && forall j | |taken| <= j < |written| :: g.buf[j % PIPE_SIZE] == written[j]
  }

  predicate Inv(s: State) {
    && Holds(s.ring, s.taken, s.written)
    && |s.taken| < WRAP
    && (s.reader.at.Move? ==> |s.taken| < |s.written| && |s.taken| + 1 < WRAP)
    && (s.reader.at.Move? || s.reader.at.Test? || s.reader.at.AskClosed? ==> |s.reader.rbuf| < s.reader.n)
    && (s.reader.at.AskClosed? ==> s.reader.rbuf == [])
    && |s.reader.rbuf| <= s.reader.n
    && (s.writer.at.Move? ==> |s.written| - |s.taken| < PIPE_SIZE)
    && (s.writer.at.Move? || s.writer.at.Test? || s.writer.at.AskClosed? ==> s.writer.i < |s.writer.wbuf|)
    && s.writer.i <= |s.writer.wbuf|
    && s.start <= |s.taken| && s.taken[s.start..] == s.reader.rbuf
    && s.base <= |s.written| && s.written[s.base..] == s.writer.wbuf[..s.writer.i]
  }

  /** A new pipe: syscall_mem_alloc hands out a zeroed page. */
  predicate Fresh(s: State) {
    && s.ring == Ring(0, 0, seq(PIPE_SIZE, j => 0))
    && s.taken == s.written == [] && s.start == s.base == 0
    && s.reader == Reader(Out, 0, []) && s.writer == Writer(Out, [], 0)
  }

  // ----- positions

  /** The positions tell how many bytes are in flight, whatever has wrapped. */
  lemma InFlight(g: Ring, taken: seq<Byte>, written: seq<Byte>)
    requires Holds(g, taken, written)
    ensures (g.wpos - g.rpos) % WRAP == |written| - |taken|
  {
    var d := |written| - |taken|;
    assert |written| == |written| / WRAP * WRAP + g.wpos && |taken| == |taken| / WRAP * WRAP + g.rpos;
    var e := |written| / WRAP - |taken| / WRAP;
    assert d == e * WRAP + (g.wpos - g.rpos);
    assert e == 0 || e == 1;
  }

  /** A position finds its byte although it wraps: 32 divides 2^32. */
  lemma SameCell(n: nat)
    ensures n % WRAP % PIPE_SIZE == n % PIPE_SIZE
  {
    assert n == n / WRAP * WRAP + n % WRAP;
    assert WRAP == 134217728 * PIPE_SIZE;
    var k := n / WRAP * 134217728;
    assert n == k * PIPE_SIZE + n % WRAP;
    Shift(n % WRAP, k);
  }

  lemma {:induction false} Shift(m: nat, k: nat)
    ensures (k * PIPE_SIZE + m) % PIPE_SIZE == m % PIPE_SIZE
  {
    var q := m / PIPE_SIZE;
    assert k * PIPE_SIZE + m == (k + q) * PIPE_SIZE + m % PIPE_SIZE;
  }

  /** Nothing is lost, invented or reordered: the bytes read, then the bytes on the
      page, are the bytes written, and never more than 32 are in flight. */
  lemma NothingLost(g: Ring, taken: seq<Byte>, written: seq<Byte>)
    requires Holds(g, taken, written)
    ensures taken + g.Held() == written && |g.Held()| <= PIPE_SIZE
  {
    InFlight(g, taken, written);
    forall j | |taken| <= j < |written| ensures g.Held()[j - |taken|] == written[j] {
      HeldAt(g, |taken|, j);
    }
  }

  lemma HeldAt(g: Ring, n: nat, j: nat)
    requires g.Typed() && g.rpos == n % WRAP && n <= j < n + (g.wpos - g.rpos) % WRAP
    ensures g.Held()[j - n] == g.buf[j % PIPE_SIZE]
  {
    SameCell(n);
    var m, d := n % WRAP, j - n;
    assert (m + d) % PIPE_SIZE == (n + d) % PIPE_SIZE by {
      SameSum(m, n, d);
    }
  }

  lemma SameSum(m: nat, n: nat, d: nat)
    requires m % PIPE_SIZE == n % PIPE_SIZE
    ensures (m + d) % PIPE_SIZE == (n + d) % PIPE_SIZE
  {
    Shift(m % PIPE_SIZE + d, m / PIPE_SIZE);
    Shift(n % PIPE_SIZE + d, n / PIPE_SIZE);
    assert m + d == m / PIPE_SIZE * PIPE_SIZE + (m % PIPE_SIZE + d);
    assert n + d == n / PIPE_SIZE * PIPE_SIZE + (n % PIPE_SIZE + d);
  }

  /** The writer's test is right at any time. */
  lemma FullTestIsRight(g: Ring, taken: seq<Byte>, written: seq<Byte>)
    requires Holds(g, taken, written)
    ensures g.LooksFull() <==> |written| - |taken| == PIPE_SIZE
  {
    InFlight(g, taken, written);
  }

  lemma Wraps(n: nat)
    requires n < 2 * WRAP
    ensures n % WRAP == if n < WRAP then n else n - WRAP
  {
    assert n / WRAP == if n < WRAP then 0 else 1;
  }

  /** The reader's test is right exactly as long as fewer than 2^32 bytes were written. */
  lemma EmptyTestIsRightIff(s: State)
    requires Inv(s)
    ensures (s.ring.LooksEmpty() <==> s.taken == s.written) <==> |s.written| < WRAP
  {
    var r, w := |s.taken|, |s.written|;
    Wraps(r);
    Wraps(w);
    assert s.ring.rpos == r && s.ring.wpos == (if w < WRAP then w else w - WRAP) && r <= w <= r + PIPE_SIZE;
    assert s.taken == s.written <==> r == w;
  }

  /** Below 2^32 bytes the positions are plain counts. */
  lemma PositionsAreCounts(s: State)
    requires Inv(s) && |s.written| < WRAP
    ensures s.ring.rpos == |s.taken| && s.ring.wpos == |s.written|
    ensures s.ring.rpos <= s.ring.wpos <= s.ring.rpos + PIPE_SIZE
  {
    Wraps(|s.taken|);
    Wraps(|s.written|);
  }

  // ----- every step keeps the invariant

  lemma TakeKeepsHolds(g: Ring, taken: seq<Byte>, written: seq<Byte>)
    requires Holds(g, taken, written) && |taken| < |written|
    ensures g.Next() == written[|taken|]
    ensures Holds(g.Taken(), taken + [g.Next()], written)
  {
    SameCell(|taken|);
    Successor(|taken|);
    assert written[..|taken| + 1] == taken + [written[|taken|]];
  }

  lemma Successor(n: nat)
    ensures (n % WRAP + 1) % WRAP == (n + 1) % WRAP
  {
    var q := n / WRAP;
    assert n + 1 == q * WRAP + (n % WRAP + 1);
    if n % WRAP + 1 == WRAP {
      assert n + 1 == (q + 1) * WRAP;
    }
  }

  lemma PutKeepsHolds(g: Ring, taken: seq<Byte>, written: seq<Byte>, b: Byte)
    requires Holds(g, taken, written) && |written| - |taken| < PIPE_SIZE
    ensures Holds(g.Put(b), taken, written + [b])
  {
    SameCell(|written|);
    Successor(|written|);
    forall j | |taken| <= j < |written| ensures j % PIPE_SIZE != |written| % PIPE_SIZE {
      OtherCell(j, |written|);
    }
  }

  lemma OtherCell(j: nat, n: nat)
    requires j < n < j + PIPE_SIZE
    ensures j % PIPE_SIZE != n % PIPE_SIZE
  {}

  lemma ReaderKeepsInv(s: State, closed: bool)
    requires Inv(s)
    ensures Inv(ReaderMoves(s, closed))
  {
    var t := ReaderMoves(s, closed);
    if s.reader.at.Move? {
      TakeKeepsHolds(s.ring, s.taken, s.written);
      assert t.taken[s.start..] == s.taken[s.start..] + [s.ring.Next()];
    } else if s.reader.at.Test? && !s.ring.LooksEmpty() {
      PassedMeansData(s);
    }
  }

  lemma PassedMeansData(s: State)
    requires Inv(s) && !s.ring.LooksEmpty()
    ensures |s.taken| < |s.written| && |s.taken| + 1 < WRAP
  {
    EmptyTestIsRightIff(s);
  }

  lemma WriterKeepsInv(s: State, closed: bool)
    requires Inv(s)
    ensures Inv(WriterMoves(s, closed))
  {
    var t := WriterMoves(s, closed);
    var w := s.writer;
    if w.at.Move? {
      PutKeepsHolds(s.ring, s.taken, s.written, w.wbuf[w.i]);
      assert t.written[s.base..] == s.written[s.base..] + [w.wbuf[w.i]];
      assert w.wbuf[..w.i + 1] == w.wbuf[..w.i] + [w.wbuf[w.i]];
    } else if w.at.Test? {
      FullTestIsRight(s.ring, s.taken, s.written);
    }
  }

  lemma StepKeepsInv(s: State, op: Op)
    requires Inv(s)
    ensures Inv(Step(s, op))
  {
    match op
    case ReaderStep(closed) => ReaderKeepsInv(s, closed);
    case WriterStep(closed) => WriterKeepsInv(s, closed);
    case _ =>
  }

  function Run(s: State, ops: seq<Op>): (t: State)
    requires Inv(s)
    ensures Inv(t)
    decreases |ops|
  {
    if ops == [] then s
    else
      StepKeepsInv(s, ops[0]);
      Run(Step(s, ops[0]), ops[1..])
  }

  // ----- whole runs

  /** From a new pipe on, in every interleaving: what was read is a prefix of what
      was written and the rest is on the page. */
  lemma EveryRunIsFifo(s: State, ops: seq<Op>)
    requires Fresh(s)
    ensures Inv(s)
    ensures var t := Run(s, ops); t.taken + t.ring.Held() == t.written && |t.ring.Held()| <= PIPE_SIZE
  {
    var t := Run(s, ops);
    NothingLost(t.ring, t.taken, t.written);
  }

  /** What a reader's call has received so far is the next stretch of the stream.  It
      returns when it has all it asked for, when it has some and sees no more, and, with
      nothing, only when it asked for nothing or saw no data and a closed pipe. */
  lemma ReadReturnsTheStream(s: State, closed: bool)
    requires Inv(s) && !s.reader.at.Out?
    ensures var t := ReaderMoves(s, closed);
      t.reader.at.Out? ==>
        && |t.reader.rbuf| <= t.reader.n
        && t.reader.rbuf == t.written[t.start..t.start + |t.reader.rbuf|]
        && (t.reader.rbuf == [] ==> t.reader.n == 0 || (s.reader.at.AskClosed? && closed))
        && (0 < |t.reader.rbuf| < t.reader.n ==> s.reader.at.Test? && s.ring.rpos >= s.ring.wpos)
  {
    ReaderKeepsInv(s, closed);
    var t := ReaderMoves(s, closed);
    assert t.taken[t.start..] == t.written[t.start..|t.taken|];
  }

  /** A writer's call returns having written the first i bytes of its buffer, in
      order and with nothing between; it stops short only when told the pipe is closed. */
  lemma WriteAppendsTheBuffer(s: State, closed: bool)
    requires Inv(s) && !s.writer.at.Out?
    ensures var t := WriterMoves(s, closed);
      t.writer.at.Out? ==>
        && t.written == t.written[..t.base] + t.writer.wbuf[..t.writer.i]
        && (t.writer.i < |t.writer.wbuf| ==> s.writer.at.AskClosed? && closed)
  {
    WriterKeepsInv(s, closed);
    var t := WriterMoves(s, closed);
    assert t.written == t.written[..t.base] + t.written[t.base..];
  }

  /** Own steps of the reader until it has moved a byte, if there is one. */
  function ReaderNeeds(s: State): nat {
    match s.reader.at
    case Out => 0
    case Head => 3
    case AskClosed => 3
    case Test => 2
    case Move => 1
  }

  function WriterNeeds(s: State): nat {
    match s.writer.at
    case Out => 0
    case Head => 3
    case AskClosed => 3
    case Test => 2
    case Move => 1
  }

  /** Steps of the reader among ops; none is told that the pipe is closed. */
  predicate NeverClosed(ops: seq<Op>) {
    forall i | 0 <= i < |ops| :: (ops[i].ReaderStep? || ops[i].WriterStep?) ==> !ops[i].closed
  }

  function ReaderSteps(ops: seq<Op>): nat {
    if ops == [] then 0 else (if ops[0].ReaderStep? then 1 else 0) + ReaderSteps(ops[1..])
  }

  function WriterSteps(ops: seq<Op>): nat {
    if ops == [] then 0 else (if ops[0].WriterStep? then 1 else 0) + WriterSteps(ops[1..])
  }

  /** A call that wants more and for which there is data has moved a byte after at most
      three steps of its own, whatever the writer does in between. */
  lemma {:induction false} DataIsRead(s: State, ops: seq<Op>)
    requires Inv(s) && !s.reader.at.Out? && |s.reader.rbuf| < s.reader.n && NeverClosed(ops)
    requires |s.taken| < |s.written| && |Run(s, ops).written| < WRAP && ReaderSteps(ops) >= 3
    ensures |Run(s, ops).taken| > |s.taken|
    decreases |ops|
  {
    DataIsReadIn(s, ops);
  }

  lemma {:induction false} DataIsReadIn(s: State, ops: seq<Op>)
    requires Inv(s) && !s.reader.at.Out? && |s.reader.rbuf| < s.reader.n && NeverClosed(ops)
    requires |s.taken| < |s.written| && |Run(s, ops).written| < WRAP && ReaderSteps(ops) >= ReaderNeeds(s)
    ensures |Run(s, ops).taken| > |s.taken|
    decreases |ops|
  {
    if ops != [] {
      var t := Step(s, ops[0]);
      StepKeepsInv(s, ops[0]);
      OnlyGrows(t, ops[1..]);
      OneStep(s, ops[0]);
      if |t.taken| == |s.taken| {
        ReaderComesCloser(s, ops[0]);
        assert NeverClosed(ops[1..]);
        DataIsReadIn(t, ops[1..]);
      }
    }
  }

  lemma ReaderComesCloser(s: State, op: Op)
    requires Inv(s) && !s.reader.at.Out? && |s.reader.rbuf| < s.reader.n && |s.taken| < |s.written| < WRAP
    requires op.ReaderStep? ==> !op.closed
    ensures var t := Step(s, op);
      |t.taken| == |s.taken| ==>
        && !t.reader.at.Out? && |t.reader.rbuf| < t.reader.n
        && ReaderNeeds(t) + (if op.ReaderStep? then 1 else 0) <= ReaderNeeds(s)
  {
    EmptyTestIsRightIff(s);
  }

  lemma OneStep(s: State, op: Op)
    requires Inv(s)
    ensures s.taken <= Step(s, op).taken && s.written <= Step(s, op).written
  {}

  lemma {:induction false} OnlyGrows(s: State, ops: seq<Op>)
    requires Inv(s)
    ensures s.taken <= Run(s, ops).taken && s.written <= Run(s, ops).written
    decreases |ops|
  {
    if ops != [] {
      StepKeepsInv(s, ops[0]);
      OneStep(s, ops[0]);
      OnlyGrows(Step(s, ops[0]), ops[1..]);
    }
  }

  /** A call with bytes left for which there is room has put one after at most three
      steps of its own. */
  lemma RoomIsFilled(s: State, ops: seq<Op>)
    requires Inv(s) && !s.writer.at.Out? && s.writer.i < |s.writer.wbuf| && NeverClosed(ops)
    requires |s.written| - |s.taken| < PIPE_SIZE && WriterSteps(ops) >= 3
    ensures |Run(s, ops).written| > |s.written|
  {
    RoomIsFilledIn(s, ops);
  }

  lemma {:induction false} RoomIsFilledIn(s: State, ops: seq<Op>)
    requires Inv(s) && !s.writer.at.Out? && s.writer.i < |s.writer.wbuf| && NeverClosed(ops)
    requires |s.written| - |s.taken| < PIPE_SIZE && WriterSteps(ops) >= WriterNeeds(s)
    ensures |Run(s, ops).written| > |s.written|
    decreases |ops|
  {
    if ops != [] {
      var t := Step(s, ops[0]);
      StepKeepsInv(s, ops[0]);
      OnlyGrows(t, ops[1..]);
      OneStep(s, ops[0]);
      if |t.written| == |s.written| {
        WriterComesCloser(s, ops[0]);
        assert NeverClosed(ops[1..]);
        RoomIsFilledIn(t, ops[1..]);
      }
    }
  }

  lemma WriterComesCloser(s: State, op: Op)
    requires Inv(s) && !s.writer.at.Out? && s.writer.i < |s.writer.wbuf| && |s.written| - |s.taken| < PIPE_SIZE
    requires op.WriterStep? ==> !op.closed
    ensures var t := Step(s, op);
      |t.written| == |s.written| ==>
        && !t.writer.at.Out? && t.writer.i < |t.writer.wbuf| && |t.written| - |t.taken| < PIPE_SIZE
        && WriterNeeds(t) + (if op.WriterStep? then 1 else 0) <= WriterNeeds(s)
  {
    FullTestIsRight(s.ring, s.taken, s.written);
  }

  /** A call begins with an empty buffer and the whole request before it, whatever was
      moved before; inside a call a second one is not begun. */
  lemma CallsBegin(s: State, n: nat, wbuf: seq<Byte>)
    requires Inv(s)
    ensures var t := Step(s, ReadCall(n));
      && t.ring == s.ring && t.writer == s.writer && t.taken == s.taken && t.written == s.written
      && (s.reader.at.Out? ==> !t.reader.at.Out? && t.reader.rbuf == [] && t.reader.n == n && t.start == |s.taken|)
      && (!s.reader.at.Out? ==> t == s)
    ensures var t := Step(s, WriteCall(wbuf));
      && t.ring == s.ring && t.reader == s.reader && t.taken == s.taken && t.written == s.written
      && (s.writer.at.Out? ==> !t.writer.at.Out? && t.writer.i == 0 && t.writer.wbuf == wbuf && t.base == |s.written|)
      && (!s.writer.at.Out? ==> t == s)
  {}

  /** A call that has all it asked for returns at its next step, and so does a reader
      with some bytes that sees no more, and whoever is told that the pipe is closed. */
  lemma CallsReturn(s: State, closed: bool)
    requires Inv(s)
    ensures s.reader.at.Head? && |s.reader.rbuf| == s.reader.n ==> Step(s, ReaderStep(closed)).reader.at.Out?
    ensures s.reader.at.Test? && s.reader.rbuf != [] && s.ring.rpos >= s.ring.wpos ==> Step(s, ReaderStep(closed)).reader.at.Out?
    ensures s.reader.at.AskClosed? && closed ==> Step(s, ReaderStep(closed)).reader.at.Out?
    ensures s.writer.at.Head? && s.writer.i == |s.writer.wbuf| ==> Step(s, WriterStep(closed)).writer.at.Out?
    ensures s.writer.at.AskClosed? && closed ==> Step(s, WriterStep(closed)).writer.at.Out?
  {}

  /** A transfer of the reader whose test has passed. */
  function Pending(s: State): nat { if s.reader.at.Move? then 1 else 0 }

  /** From the 2^32nd byte on the reader waits for ever: at most the one transfer
      whose test had already passed is still made, whatever the writer does. */
  lemma {:induction false} JammedForGood(s: State, ops: seq<Op>)
    requires Inv(s) && |s.written| >= WRAP
    ensures |Run(s, ops).taken| <= |s.taken| + Pending(s)
    ensures |Run(s, ops).written| >= WRAP
    decreases |ops|
  {
    if ops != [] {
      StepKeepsInv(s, ops[0]);
      JammedStep(s, ops[0]);
      JammedForGood(Step(s, ops[0]), ops[1..]);
    }
  }

  lemma JammedStep(s: State, op: Op)
    requires Inv(s) && |s.written| >= WRAP
    ensures |Step(s, op).written| >= WRAP
    ensures |Step(s, op).taken| + Pending(Step(s, op)) <= |s.taken| + Pending(s)
  {
    EmptyTestIsRightIff(s);
  }

  // ----- the page itself

  /** The Pipe structure on its shared page, with the tests and transfers that the
      loops of pipe_read and pipe_write are made of. */
  class PipePage {
    var rpos: nat
    var wpos: nat
    const buf: array<Byte>

    ghost predicate Valid()
      reads this, buf
    { Model().Typed() }

    ghost function Model(): Ring
      reads this, buf
    { Ring(rpos, wpos, buf[..]) }

    constructor ()
      ensures Valid() && fresh(buf)
      ensures Model() == Ring(0, 0, seq(PIPE_SIZE, j => 0))
    {
      rpos, wpos := 0, 0;
      buf := new Byte[PIPE_SIZE](_ => 0);
      new;
      assert buf[..] == seq(PIPE_SIZE, j => 0);
    }

    method TestEmpty() returns (r: bool)
      requires Valid()
      ensures r == Model().LooksEmpty()
    {
      r := rpos >= wpos;
    }

    method TestFull() returns (r: bool)
      requires Valid()
      ensures r == Model().LooksFull()
    {
      r := (if wpos >= rpos then wpos - rpos else wpos + WRAP - rpos) >= PIPE_SIZE;
    }

    /** The reader takes the byte at its position, which moves on. */
    method TakeByte(ghost taken: seq<Byte>, ghost written: seq<Byte>) returns (b: Byte)
      requires Valid() && Holds(Model(), taken, written) && |taken| < |written|
      modifies `rpos
      ensures Valid() && Model() == old(Model()).Taken() && b == old(Model()).Next()
      ensures b == written[|taken|] && Holds(Model(), taken + [b], written)
    {
      TakeKeepsHolds(Model(), taken, written);
      b := buf[rpos % PIPE_SIZE];
      rpos := if rpos + 1 == WRAP then 0 else rpos + 1;
    }

    /** The writer puts a byte at its position, which moves on. */
    method PutByte(b: Byte, ghost taken: seq<Byte>, ghost written: seq<Byte>)
      requires Valid() && Holds(Model(), taken, written) && |written| - |taken| < PIPE_SIZE
      modifies `wpos, buf
      ensures Valid() && Model() == old(Model()).Put(b)
      ensures Holds(Model(), taken, written + [b])
    {
      PutKeepsHolds(Model(), taken, written, b);
      buf[wpos % PIPE_SIZE] := b;
      wpos := if wpos + 1 == WRAP then 0 else wpos + 1;
    }
  }
}
