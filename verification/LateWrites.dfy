/**
 * Which flash writes are complete when the next SYSTEM packet comes: all of them, but for a word-wide write to an
 * odd address that is longer than the pilot had turns.
 */
module LateWrites {
  import opened Bytes
  import opened Framing
  import opened Memory
  import opened Link
  import opened Sessions

  /** A flash WRITE the pilot accepts. */
  predicate IsFlashWrite(c: Config, w: Write) {
    w.Sound() && Takes(c, w) && TargetOf(c, w.At()).Flash?
  }

  /** Where in flash. */
  function FlashAddress(c: Config, w: Write): int
    requires IsFlashWrite(c, w)
  {
    TargetOf(c, w.At()).at
  }

  /** The low three bytes of the address count from 0x80_0000. */
  lemma FlashAddressIs(c: Config, w: Write)
    requires IsFlashWrite(c, w)
    ensures FlashAddress(c, w) == 0x80_0000 + Low(w.address)
  {
    AddressParts(w.address);
    hide Long;
  }

  /** Word-wide to an odd address: the flush refuses it, and only the pump programs it. */
  predicate IsOdd(c: Config, w: Write)
    requires IsFlashWrite(c, w)
  {
    c.wide && FlashAddress(c, w) % 2 != 0
  }

  /** A flash WRITE on its way to a listening pilot. */
  predicate Comes(c: Config, l: Link, rx: Rx, s: Schedule, w: Write) {
    && ValidConfig(c) && IsFlashWrite(c, w)
    && l.mode == Listening(rx) && !rx.Overlong? && l.queued.None?
    && Fits(l, s, Frame(w.header, w.Body()), w.Ack())
  }

  /** The pilot as the dispatcher finds it. */
  function Before(c: Config, l: Link, s: Schedule, w: Write): Link
    requires IsFlashWrite(c, w)
  {
    Asked(l, s, w.Body())
  }

  /** And once the handler has accepted the WRITE. */
  function After(c: Config, l: Link, s: Schedule, w: Write): Link
    requires IsFlashWrite(c, w)
  {
    Stored(c, Before(c, l, s, w), w.At(), w.n)
  }

  /** What is to be programmed, the padding of word-wide flash included. */
  function Pumpable(c: Config, before: Link, w: Write): (cells: seq<byte>)
    requires IsFlashWrite(c, w)
    ensures |cells| == FlashCount(c.wide, w.n)
  {
    FlashCountNear(c.wide, w.n);
    WriteData(before.buffer, FlashCount(c.wide, w.n))
  }

  /** How much of a late write of `n` bytes is programmed in so many turns: whole words. */
  function Reached(n: nat, turns: nat): (k: nat)
    ensures k <= n
  {
    if turns < n then turns - turns % 2 else n
  }

  /** From `d` to `g` that much of the late write was programmed, from its address on, and the rest goes on. */
  ghost predicate Partly(d: Device, g: Goal, at: int, cells: seq<byte>, turns: nat) {
    && g.late.count == (if turns < |cells| then |cells| - turns else 0)
    && g.device == Program(d, at, cells[..Reached(|cells|, turns)])
  }

  lemma LatePartly(d: Device, at: int, cells: seq<byte>, turns: nat)
    requires |cells| % 2 == 0
    ensures Partly(d, TrickleTimes(Goal(d, LateWrite(at, cells, |cells|)), turns), at, cells, turns)
  {
    hide Program, TrickleTimes;
    LatePrograms(Goal(d, LateWrite(at, cells, |cells|)), turns);
  }

  lemma EvenCount(c: Config, w: Write)
    ensures c.wide ==> FlashCount(c.wide, w.n) % 2 == 0
  {
  }

  /** What the reference machine makes of an accepted flash WRITE. */
  lemma FlashStored(c: Config, before: Link, w: Write)
    requires IsFlashWrite(c, w)
    ensures var d, at, cells := Owed(before).device, FlashAddress(c, w), Pumpable(c, before, w);
      && (IsOdd(c, w) ==> |cells| % 2 == 0)
      && Owed(Stored(c, before, w.At(), w.n)) ==
           if IsOdd(c, w) then Goal(d, LateWrite(at, cells, |cells|)) else Goal(Program(d, at, cells), NOTHING_LATE)
  {
    EvenCount(c, w);
    hide TargetOf, FlashCount, Write.Sound, Program;
  }

  lemma WrittenIs(c: Config, l: Link, rx: Rx, s: Schedule, w: Write)
    requires Comes(c, l, rx, s, w)
    ensures Run(c, l, Whole(s)) == Answered(After(c, l, s, w), s, w.Ack())
  {
    hide Run, Fits, Frame, Write.Ack, Write.Body, Write.Sound, TargetOf, Whole, Stored, Asked, Answered, Fitting;
    WriteExchange(c, l, rx, s, w);
  }

  lemma AfterKeeps(c: Config, l: Link, s: Schedule, w: Write)
    requires IsFlashWrite(c, w)
    ensures var l' := After(c, l, s, w);
      l'.queue == Left(l.queue, s.asking) && l'.queued == l.queued && l'.sent == l.sent
  {
    hide Write.Body, Write.Sound, TargetOf, Stored, Left, TrickleTimes, Overwrite;
    StoredKeeps(c, Before(c, l, s, w), w.At(), w.n);
  }

  lemma AnsweredOwes(l: Link, s: Schedule, reply: seq<byte>)
    ensures var l' := Answered(l, s, reply);
      && Owed(l') == TrickleTimes(Owed(l), Polls(s.answering))
      && l'.mode == Listening(Hunting) && l'.queue == Left(l.queue, s.answering) && l'.queued == l.queued
      && l'.sent == l.sent + reply
  {
    hide TrickleTimes, Left;
  }

  /** What is left to do when the reply to a flash WRITE is out. */
  lemma WrittenOwes(c: Config, l: Link, rx: Rx, s: Schedule, w: Write)
    requires Comes(c, l, rx, s, w)
    ensures var written := Run(c, l, Whole(s));
      && Owed(written) == TrickleTimes(Owed(After(c, l, s, w)), Polls(s.answering))
      && written.mode == Listening(Hunting) && written.queue == Waiting(l, s) && written.queued.None?
      && written.sent == l.sent + w.Ack()
  {
    hide Run, Fits, Frame, Write.Ack, Write.Body, Write.Sound, TargetOf, Whole, Answered, After, Owed, TrickleTimes,
      Left, Fitting;
    WrittenIs(c, l, rx, s, w);
    AfterKeeps(c, l, s, w);
    AnsweredOwes(After(c, l, s, w), s, w.Ack());
  }

  /** Of a word-wide WRITE to an odd address, so much is programmed when its reply is out as there were turns for. */
  lemma OddWriteGoesOn(c: Config, l: Link, rx: Rx, s: Schedule, w: Write)
    requires Comes(c, l, rx, s, w) && IsOdd(c, w)
    ensures var before := Before(c, l, s, w);
      Partly(Owed(before).device, Owed(Run(c, l, Whole(s))), FlashAddress(c, w), Pumpable(c, before, w),
        Polls(s.answering))
  {
    hide Run, Fits, Frame, Whole, Stored, IsFlashWrite, Owed, TrickleTimes, Partly, Pumpable, Before, Overwrite;
    WrittenOwes(c, l, rx, s, w);
    var before := Before(c, l, s, w);
    FlashStored(c, before, w);
    LatePartly(Owed(before).device, FlashAddress(c, w), Pumpable(c, before, w), Polls(s.answering));
  }

  // ----- the next SYSTEM packet -----

  predicate IsSystem(header: seq<byte>, body: seq<byte>) {
    WellFormed(header, body) && header[2] == TYPE_SYSTEM
  }

  /** A SYSTEM packet, the first packet on the wire. */
  predicate Calls(queue: seq<byte>, events: seq<Event>, noise: seq<byte>, header: seq<byte>, body: seq<byte>) {
    && IsSystem(header, body)
    && Feed(Hunting, noise).got == [] && !Feed(Hunting, noise).rx.Overlong?
    && Hears(queue, events, noise + Frame(header, body))
  }

  /** The reads a flash WRITE gets between its acceptance and the dispatch of the next SYSTEM packet. */
  function Turns(first: Schedule, asking: seq<Event>): nat {
    Polls(first.answering) + Polls(asking)
  }

  /** The pilot when it has dispatched that packet. */
  function Next(c: Config, l: Link, first: Schedule, asking: seq<Event>): Link
    requires ValidConfig(c)
  {
    Run(c, Run(c, l, Whole(first)), asking)
  }

  /** What is programmed of a block in so many turns. */
  function Part(c: Config, w: Write, cells: seq<byte>, turns: nat): seq<byte>
    requires IsFlashWrite(c, w)
  {
    if IsOdd(c, w) then cells[..Reached(|cells|, turns)] else cells
  }

  lemma PartProgrammed(c: Config, l: Link, s: Schedule, w: Write, turns: nat)
    requires IsFlashWrite(c, w)
    ensures var before := Before(c, l, s, w);
      TrickleTimes(Owed(After(c, l, s, w)), turns).device ==
        Program(Owed(before).device, FlashAddress(c, w), Part(c, w, Pumpable(c, before, w), turns))
  {
    hide Stored, IsFlashWrite, Owed, TrickleTimes, Pumpable, Before, Program, FlashAddress;
    var before := Before(c, l, s, w);
    FlashStored(c, before, w);
    if IsOdd(c, w) {
      LatePartly(Owed(before).device, FlashAddress(c, w), Pumpable(c, before, w), turns);
    } else {
      TrickleNothing(Owed(After(c, l, s, w)), turns);
    }
  }

  lemma ReadyOwes(l: Link, events: seq<Event>, buffer: Buffer)
    ensures Owed(Ready(l, events).(mode := Listening(Hunting), buffer := buffer)) ==
      TrickleTimes(Owed(l), Polls(events))
  {
    hide TrickleTimes, Left;
  }

  /** What the packet after a flash WRITE finds programmed. */
  lemma WriteEnds(c: Config, l: Link, rx: Rx, first: Schedule, w: Write,
                  asking: seq<Event>, noise: seq<byte>, header: seq<byte>, body: seq<byte>)
    returns (l': Link)
    requires Comes(c, l, rx, first, w) && Calls(Waiting(l, first), asking, noise, header, body)
    ensures Next(c, l, first, asking) == Dispatch(c, l', header)
    ensures var before := Before(c, l, first, w);
      Owed(l').device == Program(Owed(before).device, FlashAddress(c, w),
        Part(c, w, Pumpable(c, before, w), Turns(first, asking)))
  {
    hide Run, Fits, Frame, Whole, IsFlashWrite, Owed, TrickleTimes, Pumpable, Before, After, Ready, Dispatch, Feed,
      Hears, Program, Part, FlashAddress, Word, Waiting, Polls;
    WrittenOwes(c, l, rx, first, w);
    var written := Run(c, l, Whole(first));
    l' := ReceiveBehind(c, written, Hunting, asking, noise, header, body);
    ReadyOwes(written, asking, l'.buffer);
    TrickleTimesAdd(Owed(After(c, l, first, w)), Polls(first.answering), Polls(asking));
    PartProgrammed(c, l, first, w, Turns(first, asking));
  }

  lemma HandlersLogNothing(c: Config, l: Link, h: seq<byte>)
    requires |h| == HEADER_BODY
    ensures HandleRead(l, h).log == HandleStart(c, l, h).log == l.log
    ensures HandleBaud(c, l, h).log == HandleErase(c, l, h).log == l.log
  {
    hide Word, Long, Lo, Hi, DividerFor, Fetch, Erase, EraseEnd, Overwrite, Passes, SetBit, Stuff, Raw;
  }

  /** On word-wide flash, the first operation a WRITE adds is at an even address. */
  lemma WriteLogs(c: Config, l: Link, h: seq<byte>)
    requires |h| == HEADER_BODY
    ensures var l' := HandleWrite(c, l, h);
      l.log <= l'.log && (c.wide && |l.log| < |l'.log| ==> l'.log[|l.log|].at % 2 == 0)
  {
    hide Word, Long, Lo, Hi, TargetOf, Copied, Count, Passes, Store, SetBit, Stuff, Raw, FlashCount;
  }

  /** Any packet adds to the operations of flash; on word-wide flash the first it adds is at an even address. */
  lemma PacketLogs(c: Config, l: Link, h: seq<byte>)
    requires ValidConfig(c) && |h| == HEADER_BODY && Word(h[4], h[5]) <= BUFFER_SIZE
    ensures var l' := Dispatch(c, l, h);
      l.log <= l'.log && (c.wide && |l.log| < |l'.log| ==> l'.log[|l.log|].at % 2 == 0)
  {
    hide HandleRead, HandleWrite, HandleStart, HandleBaud, HandleErase, Word, Overwrite, Lo, Hi, SetBit, Stuff, Raw;
    HandlersLogNothing(c, l.(late := NOTHING_LATE), h);
    WriteLogs(c, l.(late := NOTHING_LATE), h);
  }

  /** Flash has seen every byte of the block, once and in order, before anything else. */
  ghost predicate Seen(log: seq<Cell>, after: seq<Cell>, at: int, cells: seq<byte>) {
    log + Cells(at, cells) <= after
  }

  /** A block to an odd address is seen if all of it is programmed, or else if what comes next continues it. */
  lemma SeenIf(log: seq<Cell>, after: seq<Cell>, at: int, cells: seq<byte>, n: nat)
    requires n <= |cells| && log + Cells(at, cells[..n]) <= after
    requires |log| + n < |after| ==> after[|log| + n].at != at + n
    ensures Seen(log, after, at, cells) <==> n == |cells|
  {
    if n == |cells| {
      assert cells[..n] == cells;
    } else {
      var all := log + Cells(at, cells);
      assert all[|log| + n] == Cell(at + n, cells[n]);
      PrefixAt(all, after, |log| + n);
    }
  }

  lemma PrefixAt(s: seq<Cell>, t: seq<Cell>, i: nat)
    ensures i < |s| && s <= t ==> i < |t| && t[i] == s[i]
  {
  }

  /** The flash WRITE is complete once the next SYSTEM packet has been dispatched. */
  ghost predicate Finished(c: Config, l: Link, first: Schedule, w: Write, asking: seq<Event>)
    requires ValidConfig(c) && IsFlashWrite(c, w)
  {
    var before := Before(c, l, first, w);
    Seen(before.log, Next(c, l, first, asking).log, FlashAddress(c, w), Pumpable(c, before, w))
  }

  /**
   * On any schedules, flash has seen every byte of a WRITE, once and in order, when the next SYSTEM packet has been
   * dispatched, if and only if the write is not word-wide to an odd address or there were turns enough for it.
   */
  lemma FlashWriteFinished(c: Config, l: Link, rx: Rx, first: Schedule, w: Write,
                           asking: seq<Event>, noise: seq<byte>, header: seq<byte>, body: seq<byte>)
    requires Comes(c, l, rx, first, w) && Calls(Waiting(l, first), asking, noise, header, body)
    ensures Finished(c, l, first, w, asking) <==>
      !IsOdd(c, w) || Turns(first, asking) >= FlashCount(c.wide, w.n)
  {
    hide Next, Fits, Frame, Whole, IsFlashWrite, Pumpable, Before, Dispatch, Feed, Hears, Store, Word, Waiting, Polls,
      FlashAddress, FlashCount, Seen, Turns, Cells;
    var l' := WriteEnds(c, l, rx, first, w, asking, noise, header, body);
    PacketLogs(c, l', header);
    var before, after := Before(c, l, first, w), Dispatch(c, l', header);
    var at, cells := FlashAddress(c, w), Pumpable(c, before, w);
    if IsOdd(c, w) {
      EvenCount(c, w);
      SeenIf(before.log, after.log, at, cells, Reached(|cells|, Turns(first, asking)));
    } else {
      SeenAll(before.log, after.log, at, cells);
    }
  }

  lemma SeenAll(log: seq<Cell>, after: seq<Cell>, at: int, cells: seq<byte>)
    requires log + Cells(at, cells) <= after
    ensures Seen(log, after, at, cells)
  {
  }

  // ----- how long a write may be -----

  /** A WRITE is answered, and a SYSTEM packet heard, in no fewer turns than their bytes take. */
  lemma TurnsNeeded(c: Config, l: Link, rx: Rx, first: Schedule, w: Write,
                    asking: seq<Event>, noise: seq<byte>, header: seq<byte>, body: seq<byte>)
    requires Comes(c, l, rx, first, w) && Calls(Waiting(l, first), asking, noise, header, body)
    ensures Turns(first, asking) >= |w.Ack()| - 1 + |noise| + |Frame(header, body)| >= 21
  {
    hide Hears, Drains, Frame, Waiting, Polls, Feed, TargetOf, Write.Body, Word;
    PollsDraining(first.answering, |w.Ack()| - 1);
    PollsHearing(Waiting(l, first), asking, noise + Frame(header, body));
    FrameBounds(header, body);
    AckBounds(w);
  }

  lemma AckBounds(w: Write)
    requires w.Sound()
    ensures 11 <= |w.Ack()| <= 21
  {
    hide Frame, Word;
    FrameBounds([w.header[0], w.header[1], w.header[2], Marked(w.header[3], true), Lo(0), Hi(0)], []);
  }

  /** A flash WRITE to an even address, or of at most 20 bytes, is always finished. */
  lemma ShortWriteFinished(c: Config, l: Link, rx: Rx, first: Schedule, w: Write,
                           asking: seq<Event>, noise: seq<byte>, header: seq<byte>, body: seq<byte>)
    requires Comes(c, l, rx, first, w) && Calls(Waiting(l, first), asking, noise, header, body)
    requires !c.wide || FlashAddress(c, w) % 2 == 0 || w.n <= 20
    ensures Finished(c, l, first, w, asking)
  {
    hide Finished, Calls, Comes, FlashAddress, Turns, Frame, Write.Ack;
    FlashWriteFinished(c, l, rx, first, w, asking, noise, header, body);
    TurnsNeeded(c, l, rx, first, w, asking, noise, header, body);
    ShortCount(c.wide, w.n);
  }

  lemma ShortCount(wide: bool, n: word)
    ensures n <= 20 ==> FlashCount(wide, n) <= 20
  {
  }

  /** The host sends as fast as it can. */
  function Quickest(w: Write): Schedule
    requires w.Sound()
  {
    Schedule(Lockstep(Frame(w.header, w.Body())), Promptly(|w.Ack()| - 1))
  }

  predicate Idle(c: Config, l: Link) {
    ValidConfig(c) && l.mode.Listening? && !l.mode.rx.Overlong? && l.queued.None? && l.queue == []
  }

  lemma QuickestFits(l: Link, w: Write)
    requires w.Sound() && l.queue == []
    ensures Fits(l, Quickest(w), Frame(w.header, w.Body()), w.Ack()) && Waiting(l, Quickest(w)) == []
    ensures Polls(Quickest(w).answering) == |w.Ack()| - 1
  {
    hide Hears, Drains, Frame, Polls, Write.Body, Write.Ack, Left, Lockstep, Promptly, Write.Sound;
    LockstepHears(Frame(w.header, w.Body()));
    PromptlyDrains(|w.Ack()| - 1);
  }

  lemma QuickestComes(c: Config, l: Link, w: Write)
    requires Idle(c, l) && IsFlashWrite(c, w)
    ensures Comes(c, l, l.mode.rx, Quickest(w), w)
  {
    hide Fits, Frame, TargetOf, Write.Body, Write.Ack, Quickest, Write.Sound, Takes;
    QuickestFits(l, w);
  }

  lemma LockstepCalls(header: seq<byte>, body: seq<byte>)
    requires IsSystem(header, body)
    ensures Calls([], Lockstep(Frame(header, body)), [], header, body)
    ensures Polls(Lockstep(Frame(header, body))) == |Frame(header, body)|
  {
    hide Hears, Frame, Lockstep, Polls, Left;
    LockstepHears(Frame(header, body));
    assert [] + Frame(header, body) == Frame(header, body);
  }

  /** The WRITE is finished on every schedule on which this packet follows it. */
  ghost predicate AlwaysFinished(c: Config, l: Link, w: Write, header: seq<byte>, body: seq<byte>)
    requires Idle(c, l) && IsFlashWrite(c, w)
  {
    forall first, asking :: Comes(c, l, l.mode.rx, first, w) && Calls(Waiting(l, first), asking, [], header, body)
      ==> Finished(c, l, first, w, asking)
  }

  /** That is so if and only if its data are no more than the bytes of its reply after START and of that packet. */
  lemma AlwaysFinishedIf(c: Config, l: Link, w: Write, header: seq<byte>, body: seq<byte>)
    requires Idle(c, l) && IsFlashWrite(c, w) && IsSystem(header, body)
    ensures AlwaysFinished(c, l, w, header, body) <==>
      !IsOdd(c, w) || FlashCount(true, w.n) <= |w.Ack()| - 1 + |Frame(header, body)|
  {
    hide Finished, Calls, Comes, Takes, TargetOf, FlashCount, Frame, Write.Ack, Write.Sound, Quickest, Lockstep,
      Polls, Waiting;
    forall first, asking | Comes(c, l, l.mode.rx, first, w) && Calls(Waiting(l, first), asking, [], header, body)
      ensures Finished(c, l, first, w, asking) <==> !IsOdd(c, w) || Turns(first, asking) >= FlashCount(c.wide, w.n)
      ensures Turns(first, asking) >= |w.Ack()| - 1 + |Frame(header, body)|
    {
      FlashWriteFinished(c, l, l.mode.rx, first, w, asking, [], header, body);
      TurnsNeeded(c, l, l.mode.rx, first, w, asking, [], header, body);
    }
    QuickestFits(l, w);
    QuickestComes(c, l, w);
    LockstepCalls(header, body);
    assert Turns(Quickest(w), Lockstep(Frame(header, body))) == |w.Ack()| - 1 + |Frame(header, body)|;
  }

  // ----- a write that is lost -----

  predicate IsNoop(header: seq<byte>) {
    IsSystem(header, []) && header[3] == SYSTEM_NOOP
  }

  lemma NoopKeeps(c: Config, l: Link, h: seq<byte>)
    requires ValidConfig(c) && IsNoop(h)
    ensures Dispatch(c, l, h).mem == l.mem
  {
    hide Raw, Stuff, SetBit, Lo, Hi;
  }

  lemma BeforeKeeps(c: Config, l: Link, s: Schedule, w: Write)
    requires IsFlashWrite(c, w) && l.late == NOTHING_LATE
    ensures Owed(Before(c, l, s, w)).device == Owed(l).device
  {
    hide Left, Write.Body, Write.Sound, Overwrite, Takes, TargetOf;
    AgedSettled(l, Polls(s.asking));
  }

  lemma PartElsewhere(c: Config, w: Write, d: Device, cells: seq<byte>, turns: nat, i: nat)
    requires IsFlashWrite(c, w) && IsOdd(c, w) && i >= Reached(|cells|, turns)
    ensures Peek(Program(d, FlashAddress(c, w), Part(c, w, cells, turns)).mem, FlashAddress(c, w) + i) ==
      Peek(d.mem, FlashAddress(c, w) + i)
  {
    hide Store, IsFlashWrite, FlashAddress, Peek;
    PeekStored(d.mem, FlashAddress(c, w), Part(c, w, cells, turns), FlashAddress(c, w) + i);
  }

  /** A NOOP leaves memory with what the write reached, and no more. */
  lemma NoopAfter(c: Config, l: Link, rx: Rx, first: Schedule, w: Write,
                  asking: seq<Event>, noise: seq<byte>, header: seq<byte>)
    requires Comes(c, l, rx, first, w) && Calls(Waiting(l, first), asking, noise, header, [])
    requires l.late == NOTHING_LATE && IsNoop(header)
    ensures Next(c, l, first, asking).mem == Program(Device(l.mem, l.log), FlashAddress(c, w),
      Part(c, w, Pumpable(c, Before(c, l, first, w), w), Turns(first, asking))).mem
  {
    hide Next, Fits, Frame, Whole, IsFlashWrite, Pumpable, Before, Dispatch, Feed, Hears, Program, Word, Waiting, Polls,
      FlashAddress, FlashCount, Turns, Part, Reached, Calls, IsSystem, IsOdd, Owing;
    var l' := WriteEnds(c, l, rx, first, w, asking, noise, header, []);
    NoopKeeps(c, l', header);
    BeforeKeeps(c, l, first, w);
  }

  /** The cells that were not reached are as they were before the WRITE. */
  lemma TailUntouched(c: Config, l: Link, rx: Rx, first: Schedule, w: Write,
                      asking: seq<Event>, noise: seq<byte>, header: seq<byte>, i: nat)
    requires ValidConfig(c) && IsFlashWrite(c, w) && IsOdd(c, w)
    requires Comes(c, l, rx, first, w) && Calls(Waiting(l, first), asking, noise, header, [])
    requires l.late == NOTHING_LATE && IsNoop(header)
    requires i >= Reached(FlashCount(c.wide, w.n), Turns(first, asking))
    ensures Peek(Next(c, l, first, asking).mem, FlashAddress(c, w) + i) == Peek(l.mem, FlashAddress(c, w) + i)
  {
    hide *;
    NoopAfter(c, l, rx, first, w, asking, noise, header);
    PartElsewhere(c, w, Device(l.mem, l.log), Pumpable(c, Before(c, l, first, w), w), Turns(first, asking), i);
  }

  /** The host gets its acknowledgement, and after the NOOP the last cell is what it was. */
  ghost predicate LosesTail(c: Config, l: Link, w: Write, header: seq<byte>)
    requires ValidConfig(c) && IsFlashWrite(c, w) && w.n > 0
  {
    var last := FlashAddress(c, w) + w.n - 1;
    && Run(c, l, Whole(Quickest(w))).sent == l.sent + w.Ack()
    && Peek(Next(c, l, Quickest(w), Lockstep(Frame(header, []))).mem, last) == Peek(l.mem, last)
  }

  /** On the quickest schedule every odd word-wide WRITE of more than 41 bytes is cut short by a NOOP. */
  lemma OddWriteLost(c: Config, l: Link, w: Write, header: seq<byte>)
    requires Idle(c, l) && l.late == NOTHING_LATE && IsFlashWrite(c, w) && IsOdd(c, w) && w.n > 41
    requires IsNoop(header)
    ensures Comes(c, l, l.mode.rx, Quickest(w), w)
    ensures Calls(Waiting(l, Quickest(w)), Lockstep(Frame(header, [])), [], header, [])
    ensures LosesTail(c, l, w, header)
  {
    hide Next, Fits, Frame, Whole, Takes, TargetOf, Waiting, Polls, Quickest, Comes, Calls, Write.Ack, Lockstep,
      Write.Sound, FlashAddress, FlashCount, IsSystem, Peek;
    var asking := Lockstep(Frame(header, []));
    QuickestFits(l, w);
    QuickestComes(c, l, w);
    LockstepCalls(header, []);
    AckBounds(w);
    ShortFrame(header);
    LongCount(c, w);
    WrittenOwes(c, l, l.mode.rx, Quickest(w), w);
    TailUntouched(c, l, l.mode.rx, Quickest(w), w, asking, [], header, w.n - 1);
  }

  lemma LongCount(c: Config, w: Write)
    requires IsFlashWrite(c, w)
    ensures w.n <= FlashCount(true, w.n)
  {
    hide FlashCount;
    FlashCountNear(true, w.n);
  }

  lemma ShortFrame(header: seq<byte>)
    requires IsSystem(header, [])
    ensures |Frame(header, [])| <= 21
  {
    hide Frame;
    FrameBounds(header, []);
  }

  /** A pilot for 16-bit flash. */
  const WIDE_PILOT: Config := Config(true, 0, 0, [], 0, 0, 0)

  /** A WRITE of 100 bytes to offset 1 of flash. */
  predicate IsExample(w: Write) {
    && w.header == [0, 0, 0, SYSTEM_WRITE, 107, 0] && w.n == 100 && w.address == [1, 0, 0, 2]
    && w.data == seq(100, _ => 0x55)
  }

  lemma ExampleIsOdd(w: Write)
    requires IsExample(w)
    ensures IsFlashWrite(WIDE_PILOT, w) && IsOdd(WIDE_PILOT, w)
    ensures FlashAddress(WIDE_PILOT, w) == FLASH_BASE + 1 && w.n == 100 == |w.data| && w.data[w.n - 1] == 0x55
  {
    assert w.Sound();
    AddressParts(w.address);
  }

  /** The WRITE is acknowledged, and its hundredth byte stays erased. */
  ghost predicate IsLost(c: Config, l: Link, w: Write, header: seq<byte>) {
    && ValidConfig(c) && IsFlashWrite(c, w) && w.n == 100 == |w.data| && LosesTail(c, l, w, header)
    && Peek(l.mem, FlashAddress(c, w) + w.n - 1) == ERASED != w.data[w.n - 1]
  }

  lemma LostIs(c: Config, l: Link, w: Write, header: seq<byte>)
    requires ValidConfig(c) && IsFlashWrite(c, w) && w.n == 100 == |w.data| && w.data[w.n - 1] == 0x55
    requires LosesTail(c, l, w, header) && l.mem == map[]
    ensures IsLost(c, l, w, header)
  {
    hide LosesTail, IsFlashWrite, FlashAddress;
  }

  lemma PowerUpIsIdle(c: Config, buffer: Buffer)
    requires ValidConfig(c)
    ensures var l := PowerUp(buffer, map[]);
      Idle(c, l) && l.late == NOTHING_LATE && l.mem == map[]
  {
  }

  lemma WidePilotIsValid()
    ensures ValidConfig(WIDE_PILOT)
  {
  }

  /** So it goes, for one, right after power-up. */
  lemma OddWriteLostAtPowerUp(buffer: Buffer, w: Write, header: seq<byte>)
    requires IsExample(w) && IsNoop(header)
    ensures IsLost(WIDE_PILOT, PowerUp(buffer, map[]), w, header)
  {
    hide *;
    WidePilotIsValid();
    ExampleIsOdd(w);
    PowerUpIsIdle(WIDE_PILOT, buffer);
    OddWriteLost(WIDE_PILOT, PowerUp(buffer, map[]), w, header);
    LostIs(WIDE_PILOT, PowerUp(buffer, map[]), w, header);
  }
}
