/**
 The packet ring shared by the SDK thread that pushes for a lidar and the publisher that pops: every access to a field
 of a cell and to a counter is one step, and the steps of the two threads interleave freely. The ring behaves as the
 queue of LivoxHandoff, in which storing and popping are single steps.
 */
module LivoxRing {
  import opened LivoxHandoff
  import opened LivoxQueue

  /** Where QueuePushAny is: about to fill a field of the cell, or to move the write counter. */
  datatype Writer =
    | Free
    | Timing(packet: Packet)
    | Filling(packet: Packet)
    | Publishing(packet: Packet)

  /** Where QueuePop is: about to copy a field of the cell, or to move the read counter. */
  datatype Reader =
    | Resting
    | Starting
    | Copying(baseTime: int)
    | Releasing(packet: Packet)

  datatype Shared = Shared(
    cells: seq<Packet>,
    rd: nat,
    wr: nat,
    writer: Writer,
    reader: Reader,
    accepted: seq<Packet>, // every packet whose push came to its end
    taken: seq<Packet>)    // every packet whose pop came to its end

  datatype Access = Offer(packet: Packet) | Write | Poll | Read

  // ----- the steps

  function Held(s: Shared): nat { (s.wr - s.rd) % WRAP }

  /** Offer is the test for a full queue, Write what the writer does next. */
  function WriterStep(s: Shared, e: Access): Shared
    requires s.cells != []
  {
    var slot := Slot(s.wr, |s.cells|);
    match s.writer
    case Free => if e.Offer? && !(Held(s) > |s.cells| - 1) then s.(writer := Timing(e.packet)) else s
    case Timing(p) =>
      if e.Write? then s.(cells := s.cells[slot := s.cells[slot].(baseTime := p.baseTime)], writer := Filling(p)) else s
    case Filling(p) =>
      if e.Write? then s.(cells := s.cells[slot := s.cells[slot].(points := p.points)], writer := Publishing(p)) else s
    case Publishing(p) =>
      if e.Write? then s.(wr := (s.wr + 1) % WRAP, writer := Free, accepted := s.accepted + [p]) else s
  }

  /** Poll is the test for an empty queue, Read what the reader does next. */
  function ReaderStep(s: Shared, e: Access): Shared
    requires s.cells != []
  {
    var cell := s.cells[Slot(s.rd, |s.cells|)];
    match s.reader
    case Resting => if e.Poll? && s.rd != s.wr then s.(reader := Starting) else s
    case Starting => if e.Read? then s.(reader := Copying(cell.baseTime)) else s
    case Copying(t) => if e.Read? then s.(reader := Releasing(Packet(t, cell.points))) else s
    case Releasing(p) => if e.Read? then s.(rd := (s.rd + 1) % WRAP, reader := Resting, taken := s.taken + [p]) else s
  }

  function Step(s: Shared, e: Access): (s': Shared)
    requires s.cells != []
    ensures |s'.cells| == |s.cells|
  {
    if e.Offer? || e.Write? then WriterStep(s, e) else ReaderStep(s, e)
  }

  function Interleave(s: Shared, es: seq<Access>): (s': Shared)
    requires s.cells != []
    ensures |s'.cells| == |s.cells|
    decreases |es|
  {
    if es == [] then s else Step(Interleave(s, es[..|es| - 1]), es[|es| - 1])
  }

  // ----- the invariant

  /** The packets in the ring, oldest first: the queue that the two threads see. */
  ghost function Queue(s: Shared): (q: seq<Packet>)
    requires s.cells != []
    ensures |q| == Held(s)
  {
    Ring(s.cells, s.rd, Held(s))
  }

  /** The writer has room, and what it has filled in is in the cell behind the last packet. */
  predicate WriterHolds(s: Shared)
    requires s.cells != []
  {
    var cell := s.cells[Slot(s.wr, |s.cells|)];
    && (s.writer != Free ==> Held(s) < |s.cells|)
    && (s.writer.Filling? ==> cell.baseTime == s.writer.packet.baseTime)
    && (s.writer.Publishing? ==> cell == s.writer.packet)
  }

  /** There is a packet for the reader, and what it has copied is in the first cell. */
  predicate ReaderHolds(s: Shared)
    requires s.cells != []
  {
    var cell := s.cells[Slot(s.rd, |s.cells|)];
    && (s.reader != Resting ==> Held(s) > 0)
    && (s.reader.Copying? ==> cell.baseTime == s.reader.baseTime)
    && (s.reader.Releasing? ==> cell == s.reader.packet)
  }

  ghost predicate Sound(s: Shared) {
    && s.cells != [] && PowerOf2(|s.cells|) && s.rd < WRAP && s.wr < WRAP && Held(s) <= |s.cells|
    && WriterHolds(s) && ReaderHolds(s)
    && s.accepted == s.taken + Queue(s)
  }

  /** An empty ring between calls, wherever the counters stand. */
  lemma EmptySound(cells: seq<Packet>, counter: nat)
    requires PowerOf2(|cells|) && counter < WRAP
    ensures Sound(Shared(cells, counter, counter, Free, Resting, [], []))
  {
    DividesWrap(|cells|);
  }

  /** The cell being written is none of those that hold packets. */
  lemma WriteApart(s: Shared, x: Packet)
    requires s.cells != [] && PowerOf2(|s.cells|) && s.rd < WRAP && s.wr < WRAP && Held(s) < |s.cells|
    ensures var cells := s.cells[Slot(s.wr, |s.cells|) := x];
            && Ring(cells, s.rd, Held(s)) == Ring(s.cells, s.rd, Held(s))
            && Ring(cells, s.rd, Held(s) + 1) == Ring(s.cells, s.rd, Held(s)) + [x]
            && (Held(s) > 0 ==> Slot(s.wr, |s.cells|) != Slot(s.rd, |s.cells|))
  {
    hide Slot;
    hide Ring;
    var used, size := Held(s), |s.cells|;
    DividesWrap(size);
    CounterAt(s.rd, s.wr);
    WrapKeepsSlot(s.rd + used, size);
    RingPush(s.cells, s.rd, used, x);
    var cells := s.cells[Slot(s.wr, size) := x];
    RingFront(cells, s.rd, used);
    if used > 0 && Slot(s.wr, size) == Slot(s.rd, size) {
      SameSlot(s.rd, s.rd + used, size);
    }
  }

  /** A ring of one packet more begins with the same packets. */
  lemma {:induction false} RingFront(cells: seq<Packet>, rd: nat, used: nat)
    requires cells != []
    ensures Ring(cells, rd, used) == Ring(cells, rd, used + 1)[..used]
    decreases used
  {
    if used > 0 {
      RingFront(cells, rd + 1, used - 1);
    }
  }

  lemma WriterSound(s: Shared, e: Access)
    requires Sound(s)
    ensures Sound(WriterStep(s, e))
  {
    hide Slot;
    hide Ring;
    var s', slot := WriterStep(s, e), Slot(s.wr, |s.cells|);
    if s.writer != Free && e.Write? {
      WriteApart(s, s'.cells[slot]);
      if s.writer.Publishing? {
        DividesWrap(|s.cells|);
        Advanced(s.rd, s.wr);
        assert s'.cells == s.cells[slot := s.cells[slot]];
      }
    }
  }

  /** Moving the read counter takes the first packet off. */
  lemma Released(s: Shared)
    requires Sound(s) && Held(s) > 0
    ensures var s' := s.(rd := (s.rd + 1) % WRAP);
            && Held(s') == Held(s) - 1
            && Queue(s) == [s.cells[Slot(s.rd, |s.cells|)]] + Queue(s')
  {
    hide Slot;
    hide Ring;
    var used := Held(s);
    DividesWrap(|s.cells|);
    RingPop(s.cells, s.rd, used);
    WrapKeepsSlot(s.rd + 1, |s.cells|);
    RingBySlot(s.cells, (s.rd + 1) % WRAP, s.rd + 1, used - 1);
    Retreated(s.rd, s.wr);
  }

  lemma ReleaseSound(s: Shared, p: Packet)
    requires Sound(s) && s.reader == Releasing(p)
    ensures Sound(s.(rd := (s.rd + 1) % WRAP, reader := Resting, taken := s.taken + [p]))
  {
    var s' := s.(rd := (s.rd + 1) % WRAP);
    Released(s);
    hide Slot;
    hide Held;
    hide Queue;
    assert s.taken + Queue(s) == (s.taken + [p]) + Queue(s');
    SameQueue(s', s'.(reader := Resting, taken := s.taken + [p]));
  }

  lemma SameQueue(a: Shared, b: Shared)
    requires a.cells == b.cells != [] && a.rd == b.rd && a.wr == b.wr
    ensures Held(a) == Held(b) && Queue(a) == Queue(b)
  {
  }

  lemma ReaderSound(s: Shared, e: Access)
    requires Sound(s)
    ensures Sound(ReaderStep(s, e))
  {
    var s' := ReaderStep(s, e);
    if s.reader.Releasing? {
      if e.Read? {
        ReleaseSound(s, s.reader.packet);
      }
    } else {
      SameQueue(s, s');
      Waiting(s);
      hide Slot;
      hide Held;
      hide Queue;
    }
  }

  /** The counters differ exactly when something is in the ring. */
  lemma Waiting(s: Shared)
    requires s.cells != [] && s.rd < WRAP && s.wr < WRAP
    ensures s.rd != s.wr <==> Held(s) > 0
  {
  }

  // ----- what the two threads can rely on

  /**
   Over every interleaving of one writer with one reader: what was accepted is what was taken followed by what is in the
   ring, so packets arrive whole, once, and in order, also when the counters wrap around.
   */
  lemma {:induction false} RingDelivers(s: Shared, es: seq<Access>)
    requires Sound(s)
    ensures Sound(Interleave(s, es))
    decreases |es|
  {
    assert s.cells != [];
    hide Sound;
    if es != [] {
      RingDelivers(s, es[..|es| - 1]);
      WriterSound(Interleave(s, es[..|es| - 1]), es[|es| - 1]);
      ReaderSound(Interleave(s, es[..|es| - 1]), es[|es| - 1]);
    }
  }

  /** A free writer takes an offered packet exactly when there is room, a resting reader starts exactly on a packet. */
  lemma CallsExactly(s: Shared, p: Packet)
    requires Sound(s)
    ensures s.writer == Free ==> (Step(s, Offer(p)).writer == Timing(p) <==> |Queue(s)| < |s.cells|)
    ensures s.reader == Resting ==> (Step(s, Poll).reader == Starting <==> Queue(s) != [])
  {
    Waiting(s);
  }

  /** While both are at work, writer and reader never touch one cell. */
  lemma NeverOneCell(s: Shared)
    requires Sound(s) && s.writer != Free && s.reader != Resting
    ensures Slot(s.wr, |s.cells|) != Slot(s.rd, |s.cells|)
  {
    WriteApart(s, s.cells[0]);
  }

  /**
   Each step leaves the queue as it is, or stores the packet that was offered, for which there is room, or pops the
   packet stored first: the storing and popping steps of LivoxHandoff.
   */
  lemma StepRefines(s: Shared, e: Access)
    requires Sound(s)
    ensures var s' := Step(s, e);
            || (Queue(s') == Queue(s) && s'.accepted == s.accepted && s'.taken == s.taken)
            || (&& s.writer.Publishing? && |Queue(s)| < |s.cells| && s'.taken == s.taken
                && Queue(s') == Queue(s) + [s.writer.packet] && s'.accepted == s.accepted + [s.writer.packet])
            || (&& s.reader.Releasing? && Queue(s) != [] && s'.accepted == s.accepted
                && Queue(s') == Queue(s)[1..] && s'.taken == s.taken + [Queue(s)[0]])
  {
    WriterSound(s, e);
    ReaderSound(s, e);
    var s' := Step(s, e);
    Balanced(s);
    Balanced(s');
    hide Sound;
    hide Slot;
    hide Held;
    hide Queue;
    if s.writer.Publishing? && e.Write? {
      assert (s.taken + Queue(s)) + [s.writer.packet] == s.taken + (Queue(s) + [s.writer.packet]);
      SameEnd(s.taken, Queue(s'), Queue(s) + [s.writer.packet]);
    } else if s.reader.Releasing? && e.Read? {
      assert (s.taken + [s.reader.packet]) + Queue(s') == s.taken + ([s.reader.packet] + Queue(s'));
      SameEnd(s.taken, Queue(s), [s.reader.packet] + Queue(s'));
    } else {
      SameEnd(s.taken, Queue(s), Queue(s'));
    }
  }

  lemma Balanced(s: Shared)
    requires Sound(s)
    ensures s.cells != [] && s.accepted == s.taken + Queue(s) && (s.writer != Free ==> |Queue(s)| < |s.cells|)
  {
  }

  lemma SameEnd(front: seq<Packet>, a: seq<Packet>, b: seq<Packet>)
    requires front + a == front + b
    ensures a == b
  {
    assert a == (front + a)[|front|..];
  }
}
