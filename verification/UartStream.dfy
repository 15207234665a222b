/** The byte streams through the UART: every way in which single bytes move between the callers, the
    rings, the hardware FIFOs and the line, and what stays true over every interleaving of the moves. */
module UartStream {
  import opened Buffers

  /** accepted: bytes that write calls took; sent: bytes written to the data register; wire: bytes that
      left the hardware. arrived: bytes that the hardware took from the line; delivered: bytes that read
      calls returned. tx, rx are the rings, txFifo, rxFifo the hardware FIFOs, oldest byte first. */
  datatype Line = Line(accepted: seq<Byte>, tx: seq<Byte>, sent: seq<Byte>, txFifo: seq<Byte>, wire: seq<Byte>,
                       arrived: seq<Byte>, rxFifo: seq<Byte>, rx: seq<Byte>, delivered: seq<Byte>)

  datatype Sizes = Sizes(ring: nat, fifo: nat)

  ghost predicate Accept(s: Line, s': Line, sizes: Sizes, b: Byte) {
    |s.tx| < sizes.ring && s' == s.(accepted := s.accepted + [b], tx := s.tx + [b])
  }

  ghost predicate Send(s: Line, s': Line, sizes: Sizes) {
    && |s.tx| > 0 && |s.txFifo| < sizes.fifo
    && s' == s.(tx := s.tx[1..], sent := s.sent + [s.tx[0]], txFifo := s.txFifo + [s.tx[0]])
  }

  ghost predicate Drain(s: Line, s': Line) {
    |s.txFifo| > 0 && s' == s.(txFifo := s.txFifo[1..], wire := s.wire + [s.txFifo[0]])
  }

  ghost predicate Arrive(s: Line, s': Line, sizes: Sizes, b: Byte) {
    |s.rxFifo| < sizes.fifo && s' == s.(arrived := s.arrived + [b], rxFifo := s.rxFifo + [b])
  }

  ghost predicate Fetch(s: Line, s': Line, sizes: Sizes) {
    && |s.rxFifo| > 0 && |s.rx| < sizes.ring
    && s' == s.(rxFifo := s.rxFifo[1..], rx := s.rx + [s.rxFifo[0]])
  }

  ghost predicate Deliver(s: Line, s': Line) {
    |s.rx| > 0 && s' == s.(rx := s.rx[1..], delivered := s.delivered + [s.rx[0]])
  }

  ghost predicate Move(s: Line, s': Line, sizes: Sizes) {
    || (exists b :: Accept(s, s', sizes, b))
    || Send(s, s', sizes)
    || Drain(s, s')
    || (exists b :: Arrive(s, s', sizes, b))
    || Fetch(s, s', sizes)
    || Deliver(s, s')
  }

  ghost predicate IsRun(run: seq<Line>, s: Line, s': Line, sizes: Sizes) {
    && |run| > 0 && run[0] == s && run[|run| - 1] == s'
    && (forall k :: 0 < k < |run| ==> Move(run[k - 1], run[k], sizes))
  }

  ghost predicate Reaches(s: Line, s': Line, sizes: Sizes) {
    exists run :: IsRun(run, s, s', sizes)
  }

  lemma ReachesSelf(s: Line, sizes: Sizes)
    ensures Reaches(s, s, sizes)
  {
    assert IsRun([s], s, s, sizes);
  }

  lemma ReachesMove(s: Line, r: Line, s': Line, sizes: Sizes)
    requires Reaches(s, r, sizes) && Move(r, s', sizes)
    ensures Reaches(s, s', sizes)
  {
    hide Move;
    var run :| IsRun(run, s, r, sizes);
    var longer := run + [s'];
    forall k | 0 < k < |longer|
      ensures Move(longer[k - 1], longer[k], sizes)
    {
      assert k < |run| ==> Move(run[k - 1], run[k], sizes);
    }
    assert IsRun(longer, s, s', sizes);
  }

  lemma {:induction false} ReachesThen(s: Line, r: Line, s': Line, sizes: Sizes)
    requires Reaches(s, r, sizes) && Reaches(r, s', sizes)
    ensures Reaches(s, s', sizes)
  {
    var run :| IsRun(run, r, s', sizes);
    ReachesAlong(s, run, sizes);
  }

  lemma {:induction false} ReachesAlong(s: Line, run: seq<Line>, sizes: Sizes)
    requires |run| > 0 && Reaches(s, run[0], sizes)
    requires forall k :: 0 < k < |run| ==> Move(run[k - 1], run[k], sizes)
    ensures Reaches(s, run[|run| - 1], sizes)
    decreases |run|
  {
    hide Move, Reaches;
    if |run| > 1 {
      var shorter := run[..|run| - 1];
      forall k | 0 < k < |shorter|
        ensures Move(shorter[k - 1], shorter[k], sizes)
      {
        assert Move(run[k - 1], run[k], sizes);
      }
      ReachesAlong(s, shorter, sizes);
      ReachesMove(s, run[|run| - 2], run[|run| - 1], sizes);
    }
  }

  /** No byte is lost, doubled or reordered in either direction. */
  ghost predicate Streams(s: Line, sizes: Sizes) {
    && s.sent + s.tx == s.accepted
    && s.wire + s.txFifo == s.sent
    && s.delivered + s.rx + s.rxFifo == s.arrived
    && |s.tx| <= sizes.ring && |s.rx| <= sizes.ring && |s.txFifo| <= sizes.fifo && |s.rxFifo| <= sizes.fifo
  }

  /** Nothing is on its way: all accepted bytes were sent, all arrived bytes are in the ring or delivered. */
  lemma EmptyRings(s: Line, sizes: Sizes)
    requires Streams(s, sizes)
    ensures s.tx == [] ==> s.sent == s.accepted
    ensures s.rxFifo == [] ==> s.delivered + s.rx == s.arrived
    ensures s.rxFifo == [] && s.rx == [] ==> s.delivered == s.arrived
  {
  }

  /** What was handed over stays handed over. */
  ghost predicate Grows(s: Line, s': Line) {
    && s.accepted <= s'.accepted && s.sent <= s'.sent && s.wire <= s'.wire
    && s.arrived <= s'.arrived && s.delivered <= s'.delivered
  }

  lemma MoveKeepsStreams(s: Line, s': Line, sizes: Sizes)
    requires Streams(s, sizes) && Move(s, s', sizes)
    ensures Streams(s', sizes) && Grows(s, s')
  {
    if b :| Accept(s, s', sizes, b) {
      Appended(s.sent, s.tx, b);
    } else if Send(s, s', sizes) {
      Shifted(s.sent, s.tx);
      Appended(s.wire, s.txFifo, s.tx[0]);
    } else if Drain(s, s') {
      Shifted(s.wire, s.txFifo);
    } else if b :| Arrive(s, s', sizes, b) {
      Appended(s.delivered + s.rx, s.rxFifo, b);
    } else if Fetch(s, s', sizes) {
      Shifted(s.delivered + s.rx, s.rxFifo);
      Appended(s.delivered, s.rx, s.rxFifo[0]);
    } else {
      Shifted(s.delivered, s.rx);
    }
  }

  lemma Appended(a: seq<Byte>, b: seq<Byte>, c: Byte)
    ensures a + (b + [c]) == a + b + [c]
    ensures a + b <= a + b + [c]
  {
  }

  lemma Shifted(a: seq<Byte>, b: seq<Byte>)
    requires |b| > 0
    ensures a + [b[0]] + b[1..] == a + b
    ensures a <= a + [b[0]]
  {
  }

  /** One more move of a run that started in s. */
  lemma OneMove(s: Line, r: Line, s': Line, sizes: Sizes)
    requires Reaches(s, r, sizes) && Streams(r, sizes)
    requires (exists b :: Accept(r, s', sizes, b)) || Send(r, s', sizes) || Fetch(r, s', sizes) || Deliver(r, s')
    ensures Reaches(s, s', sizes) && Streams(s', sizes)
  {
    hide Reaches, Streams;
    assert Move(r, s', sizes);
    hide Move;
    ReachesMove(s, r, s', sizes);
    MoveKeepsStreams(r, s', sizes);
  }

  /** Over every interleaving of write calls, read calls, interrupts and hardware moves: what was sent,
      followed by the ring, is what was accepted, and what was delivered, followed by the ring and the
      hardware FIFO, is what arrived. */
  lemma {:induction false} StreamsAlways(run: seq<Line>, sizes: Sizes)
    requires |run| > 0 && Streams(run[0], sizes)
    requires forall k :: 0 < k < |run| ==> Move(run[k - 1], run[k], sizes)
    ensures Streams(run[|run| - 1], sizes) && Grows(run[0], run[|run| - 1])
    decreases |run|
  {
    hide Move, Streams;
    if |run| > 1 {
      var shorter := run[..|run| - 1];
      forall k | 0 < k < |shorter|
        ensures Move(shorter[k - 1], shorter[k], sizes)
      {
        assert Move(run[k - 1], run[k], sizes);
      }
      StreamsAlways(shorter, sizes);
      MoveKeepsStreams(run[|run| - 2], run[|run| - 1], sizes);
    }
  }

  lemma ReachableStreams(s: Line, s': Line, sizes: Sizes)
    requires Streams(s, sizes) && Reaches(s, s', sizes)
    ensures Streams(s', sizes) && Grows(s, s')
  {
    hide Move, Streams, Grows;
    var run :| IsRun(run, s, s', sizes);
    StreamsAlways(run, sizes);
  }
}
