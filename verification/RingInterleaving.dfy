/**
 * The receive ring of the Pilot BIOS under interrupts. The serial ISR may run between any two
 * instructions of `_PB_Read`, so the reader is a program counter with its registers.
 */
module RingInterleaving {
  import opened Bytes
  import Link

  const RING_SIZE := 0x1000

  /** `and hl, BUFFER_MASK` after an increment. */
  function Next(offset: nat): nat {
    (offset + 1) % RING_SIZE
  }

  /** Where `_PB_Read` is, and what its registers hold there. */
  datatype Reader =
    | AtEntry
    | LoadedWrite(de: nat)
    | LoadedBoth(de: nat, hl: nat)
    | LoadedByte(a: byte, hl: nat)

  datatype Ring = Ring(buffer: seq<byte>, write: nat, read: nat, reader: Reader)

  datatype Step = Interrupt(b: byte) | Instruction

  /** What a step of the reader hands to its caller. */
  datatype Result = Running | Nothing | Byte(b: byte)

  predicate Shape(r: Ring) {
    && |r.buffer| == RING_SIZE && r.write < RING_SIZE && r.read < RING_SIZE
    && (r.reader.LoadedBoth? ==> r.reader.hl < RING_SIZE)
    && (r.reader.LoadedByte? ==> r.reader.hl < RING_SIZE)
  }

  function Isr(r: Ring, b: byte): Ring
    requires Shape(r)
  {
    r.(buffer := r.buffer[r.write := b], write := Next(r.write))
  }

  function Advance(r: Ring): (Ring, Result)
    requires Shape(r)
  {
    match r.reader
    case AtEntry => (r.(reader := LoadedWrite(r.write)), Running)
    case LoadedWrite(de) => (r.(reader := LoadedBoth(de, r.read)), Running)
    case LoadedBoth(de, hl) =>
      if hl == de then (r.(reader := AtEntry), Nothing)
      else (r.(reader := LoadedByte(r.buffer[hl], hl)), Running)
    case LoadedByte(a, hl) => (r.(reader := AtEntry, read := Next(hl)), Byte(a))
  }

  /** A run: the ring, every byte that arrived, every byte handed out, and the loads' view of the queue. */
  datatype Run = Run(ring: Ring, arrived: seq<byte>, returned: seq<byte>, sawEmpty: bool, nothingWrong: bool)

  ghost function Outstanding(s: Run): int {
    |s.arrived| - |s.returned|
  }

  /**
   * One step. `sawEmpty` records whether the queue was empty when the write pointer was loaded;
   * `nothingWrong` stays true while "nothing available" is reported exactly in that case.
   */
  function Take(s: Run, step: Step): (t: Run)
    requires Shape(s.ring)
    ensures Shape(t.ring)
  {
    match step
    case Interrupt(b) => s.(ring := Isr(s.ring, b), arrived := s.arrived + [b])
    case Instruction =>
      var (ring, result) := Advance(s.ring);
      var loads := s.ring.reader.AtEntry?;
      Run(ring, s.arrived,
          if result.Byte? then s.returned + [result.b] else s.returned,
          if loads then |s.arrived| == |s.returned| else s.sawEmpty,
          s.nothingWrong && (result.Nothing? ==> s.sawEmpty) && (result.Byte? ==> !s.sawEmpty))
  }

  function Execute(s: Run, steps: seq<Step>): Run
    requires Shape(s.ring)
    decreases |steps|
  {
    if steps == [] then s else Execute(Take(s, steps[0]), steps[1..])
  }

  const EMPTY: Ring := Ring(seq(RING_SIZE, _ => 0), 0, 0, AtEntry)
  const START_OF_RUN: Run := Run(EMPTY, [], [], false, true)

  /** At no point of the run were as many bytes outstanding as the ring has cells. */
  ghost predicate NeverFull(s: Run, steps: seq<Step>)
    requires Shape(s.ring)
    decreases |steps|
  {
    Outstanding(s) < RING_SIZE &&
    (steps != [] ==> NeverFull(Take(s, steps[0]), steps[1..]))
  }

  /** The ring holds the outstanding bytes, wherever the reader is. */
  ghost predicate Consistent(s: Run) {
    var r := s.ring;
    && Shape(r)
    && s.returned <= s.arrived && Outstanding(s) < RING_SIZE
    && r.write == |s.arrived| % RING_SIZE && r.read == |s.returned| % RING_SIZE
    && (forall i :: |s.returned| <= i < |s.arrived| ==> r.buffer[i % RING_SIZE] == s.arrived[i])
    && (r.reader.LoadedWrite? || r.reader.LoadedBoth? ==>
      exists n :: |s.returned| <= n <= |s.arrived| && r.reader.de == n % RING_SIZE
        && (s.sawEmpty <==> n == |s.returned|))
    && (r.reader.LoadedBoth? || r.reader.LoadedByte? ==> r.reader.hl == r.read)
    && (r.reader.LoadedByte? ==> !s.sawEmpty && |s.returned| < |s.arrived| && r.reader.a == s.arrived[|s.returned|])
    && s.nothingWrong
  }

  lemma NextOfMod(n: nat)
    ensures Next(n % RING_SIZE) == (n + 1) % RING_SIZE
  {
  }

  lemma DistinctCells(i: nat, j: nat)
    requires i < j < i + RING_SIZE
    ensures i % RING_SIZE != j % RING_SIZE
  {
  }

  lemma TakeConsistent(s: Run, step: Step)
    requires Consistent(s) && Outstanding(Take(s, step)) < RING_SIZE
    ensures Consistent(Take(s, step))
  {
    var t := Take(s, step);
    match step
    case Interrupt(b) => {
      NextOfMod(|s.arrived|);
      forall i | |t.returned| <= i < |t.arrived|
        ensures t.ring.buffer[i % RING_SIZE] == t.arrived[i]
      {
        if i < |s.arrived| {
          DistinctCells(i, |s.arrived|);
        }
      }
    }
    case Instruction => {
      NextOfMod(|s.returned|);
      if s.ring.reader.LoadedBoth? {
        var n :| |s.returned| <= n <= |s.arrived| && s.ring.reader.de == n % RING_SIZE
          && (s.sawEmpty <==> n == |s.returned|);
        if n > |s.returned| {
          DistinctCells(|s.returned|, n);
        }
      }
    }
  }

  /**
   * The ring is a FIFO for every schedule that never fills it: what was returned is a prefix of
   * what arrived, and "nothing available" means the queue was empty when the write pointer was loaded.
   */
  lemma {:induction false} ExecuteConsistent(s: Run, steps: seq<Step>)
    requires Consistent(s) && NeverFull(s, steps)
    ensures Consistent(Execute(s, steps))
    decreases |steps|
  {
    if steps == [] {
    } else {
      assert NeverFull(Take(s, steps[0]), steps[1..]);
      TakeConsistent(s, steps[0]);
      ExecuteConsistent(Take(s, steps[0]), steps[1..]);
    }
  }

  lemma FifoUnderInterrupts(steps: seq<Step>)
    requires NeverFull(START_OF_RUN, steps)
    ensures var s := Execute(START_OF_RUN, steps);
      && s.returned <= s.arrived
      && s.nothingWrong
  {
    ExecuteConsistent(START_OF_RUN, steps);
  }

  /** The bound is needed: one byte too many and the ring looks empty with 4096 bytes lost in it. */
  lemma FullRingLooksEmpty(s: Run, b: byte)
    requires Consistent(s)
    ensures var t := Take(s, Interrupt(b));
      t.ring.write == t.ring.read <==> Outstanding(t) == RING_SIZE
  {
    var t := Take(s, Interrupt(b));
    NextOfMod(|s.arrived|);
    assert t.ring.write == |t.arrived| % RING_SIZE && t.ring.read == |t.returned| % RING_SIZE;
    assert |t.returned| < |t.arrived| <= |t.returned| + RING_SIZE;
    hide Consistent, Isr, Next;
    SameCell(|t.returned|, |t.arrived|);
  }

  lemma SameCell(i: nat, j: nat)
    requires i < j <= i + RING_SIZE
    ensures i % RING_SIZE == j % RING_SIZE <==> j == i + RING_SIZE
  {
    if j < i + RING_SIZE {
      DistinctCells(i, j);
    }
  }

  // ----- reads are atomic -----

  /** What the main loop has of the ring: its queue, and what the read in progress will hand out. */
  datatype View = View(queue: seq<byte>, flight: Option<Result>)

  function Span(from: nat, to: nat): int {
    if to >= from then to - from else to - from + RING_SIZE
  }

  predicate Committed(r: Ring, flight: Option<Result>)
    requires Shape(r)
  {
    match flight
    case None => r.reader.AtEntry?
    case Some(Running) => false
    case Some(Nothing) => r.reader == LoadedWrite(r.read) || r.reader == LoadedBoth(r.read, r.read)
    case Some(Byte(b)) =>
      || (r.reader.LoadedWrite? && r.reader.de != r.read && r.buffer[r.read] == b)
      || (r.reader.LoadedBoth? && r.reader.hl == r.read != r.reader.de && r.buffer[r.read] == b)
      || r.reader == LoadedByte(b, r.read)
  }

  /** The queue begins behind the byte in flight. */
  function Front(r: Ring, flight: Option<Result>): nat {
    if flight.Some? && flight.value.Byte? then Next(r.read) else r.read
  }

  /** The queue lies in the ring from one offset up to another. */
  ghost predicate Lies(buffer: seq<byte>, from: nat, to: nat, queue: seq<byte>) {
    && |buffer| == RING_SIZE && from < RING_SIZE && to < RING_SIZE
    && |queue| == Span(from, to)
    && forall i :: 0 <= i < |queue| ==> queue[i] == buffer[(from + i) % RING_SIZE]
  }

  /** This is the view of a ring, full or not. */
  ghost predicate Sees(r: Ring, v: View) {
    Shape(r) && Committed(r, v.flight) && Lies(r.buffer, Front(r, v.flight), r.write, v.queue)
  }

  /** The byte that arrives goes into the very cell a read has settled on but not loaded. */
  predicate Clobbers(r: Ring, v: View) {
    |v.queue| == RING_SIZE - 1 && v.flight.Some? && v.flight.value.Byte? && !r.reader.LoadedByte?
  }

  lemma CellOf(from: nat, write: nat, i: nat)
    requires from < RING_SIZE && write < RING_SIZE
    ensures i < Span(from, write) ==> (from + i) % RING_SIZE != write
    ensures i == Span(from, write) ==> (from + i) % RING_SIZE == write
    ensures Span(from, Next(write)) == if Span(from, write) == RING_SIZE - 1 then 0 else Span(from, write) + 1
    ensures Span(Next(from), write) == if from == write then RING_SIZE - 1 else Span(from, write) - 1
  {
  }

  function ViewPushed(r: Ring, v: View, b: byte): View {
    View(Link.Push(v.queue, b), if Clobbers(r, v) then Some(Byte(b)) else v.flight)
  }

  /**
   * An interrupt anywhere in a read, ring full or not, is the reference machine's push, and leaves the read alone;
   * only if it clobbers will the read hand out the byte that has just arrived.
   */
  lemma InterruptIsPush(r: Ring, v: View, b: byte)
    requires Sees(r, v)
    ensures Sees(Isr(r, b), ViewPushed(r, v, b))
  {
    hide Lies, Link.Push;
    LiesPushed(r.buffer, Front(r, v.flight), r.write, v.queue, b);
    LiesLength(r.buffer, Front(r, v.flight), r.write, v.queue);
    CellOf(r.read, r.write, 0);
  }

  lemma LiesLength(buffer: seq<byte>, from: nat, to: nat, queue: seq<byte>)
    requires Lies(buffer, from, to, queue)
    ensures |queue| == Span(from, to)
  {
  }

  lemma LiesPushed(buffer: seq<byte>, from: nat, to: nat, queue: seq<byte>, b: byte)
    requires Lies(buffer, from, to, queue)
    ensures Lies(buffer[to := b], from, Next(to), Link.Push(queue, b))
  {
    forall i | 0 <= i < |queue| ensures queue[i] == buffer[to := b][(from + i) % RING_SIZE] {
      CellOf(from, to, i);
    }
    CellOf(from, to, |queue|);
  }

  lemma LiesPopped(buffer: seq<byte>, from: nat, to: nat, queue: seq<byte>)
    requires Lies(buffer, from, to, queue)
    ensures from == to <==> queue == []
    ensures queue != [] ==> queue[0] == buffer[from] && Lies(buffer, Next(from), to, queue[1..])
  {
    CellOf(from, to, 0);
    if queue != [] {
      assert queue[0] == buffer[(from + 0) % RING_SIZE];
      forall i | 0 <= i < |queue[1..]| ensures queue[1..][i] == buffer[(Next(from) + i) % RING_SIZE] {
        assert queue[i + 1] == buffer[(from + (i + 1)) % RING_SIZE];
        NextPlus(from, i);
      }
    }
  }

  lemma NextPlus(from: nat, i: nat)
    ensures (Next(from) + i) % RING_SIZE == (from + (i + 1)) % RING_SIZE
  {
  }

  /** A read is the reference machine's pop, in one instant, its first instruction; later it only delivers. */
  function ViewAfter(v: View, result: Result): View {
    if v.flight.None? then View(Link.Pop(v.queue), Some(if v.queue == [] then Nothing else Byte(v.queue[0])))
    else if result.Running? then v
    else View(v.queue, None)
  }

  lemma ReadIsPop(r: Ring, v: View)
    requires Sees(r, v)
    ensures var (r', result) := Advance(r);
      && Sees(r', ViewAfter(v, result))
      && (if result.Running? then true else v.flight == Some(result))
      && (v.flight.None? ==> result.Running?)
  {
    hide Lies;
    if v.flight.None? {
      LiesPopped(r.buffer, r.read, r.write, v.queue);
    }
  }

  // ----- every schedule -----

  /** What the reads of a schedule hand out, in order. */
  function Handed(r: Ring, steps: seq<Step>): seq<Result>
    requires Shape(r)
    decreases |steps|
  {
    if steps == [] then []
    else
      match steps[0]
      case Interrupt(b) => Handed(Isr(r, b), steps[1..])
      case Instruction =>
        var (r', result) := Advance(r);
        (if result.Running? then [] else [result]) + Handed(r', steps[1..])
  }

  /** What the reference machine's queue says they should: its pops in order, those not delivered yet included. */
  ghost function Promised(r: Ring, v: View, steps: seq<Step>): seq<Result>
    requires Sees(r, v)
    decreases |steps|
  {
    if steps == [] then if v.flight.Some? then [v.flight.value] else []
    else
      match steps[0]
      case Interrupt(b) =>
        InterruptIsPush(r, v, b);
        Promised(Isr(r, b), ViewPushed(r, v, b), steps[1..])
      case Instruction =>
        ReadIsPop(r, v);
        var (r', result) := Advance(r);
        (if result.Running? then [] else [v.flight.value]) + Promised(r', ViewAfter(v, result), steps[1..])
  }

  /** On every schedule, overflows included, the reads hand out what the queue of the reference machine does. */
  lemma {:induction false} ReadsAreAtomic(r: Ring, v: View, steps: seq<Step>)
    requires Sees(r, v)
    ensures Handed(r, steps) <= Promised(r, v, steps)
    ensures |Promised(r, v, steps)| <= |Handed(r, steps)| + 1
    decreases |steps|
  {
    hide Committed, Front, Isr, Advance;
    if steps == [] {
    } else {
      match steps[0] {
        case Interrupt(b) =>
          InterruptIsPush(r, v, b);
          ReadsAreAtomic(Isr(r, b), ViewPushed(r, v, b), steps[1..]);
        case Instruction =>
          ReadIsPop(r, v);
          ReadsAreAtomic(Advance(r).0, ViewAfter(v, Advance(r).1), steps[1..]);
      }
    }
  }

  /** An empty ring with no read in progress shows the reference machine's queue at power-up. */
  lemma StartView()
    ensures Sees(EMPTY, View([], None))
  {
  }

  /** So from power-up on, every schedule makes the reads hand out what the queue does. */
  lemma ReadsAreAtomicFromStart(steps: seq<Step>)
    ensures Sees(EMPTY, View([], None))
    ensures Handed(EMPTY, steps) <= Promised(EMPTY, View([], None), steps)
    ensures |Promised(EMPTY, View([], None), steps)| <= |Handed(EMPTY, steps)| + 1
  {
    StartView();
    ReadsAreAtomic(EMPTY, View([], None), steps);
  }
}
