/** What the host gets for each request, on any schedule, and what the request changes: nothing that is not said. */
module Requests {
  import opened Bytes
  import opened Fletcher
  import opened Framing
  import opened Memory
  import opened BaudRate
  import opened Link
  import opened Sessions

  /** A request on its way to a listening pilot that has no change of the baud rate to make. */
  predicate Asks(c: Config, l: Link, rx: Rx, s: Schedule, header: seq<byte>, body: seq<byte>, reply: seq<byte>) {
    && ValidConfig(c) && l.mode == Listening(rx) && !rx.Overlong? && l.queued.None?
    && WellFormed(header, body)
    && Fits(l, s, Frame(header, body), reply)
  }

  /** The same for a request that is not answered. */
  predicate Tells(c: Config, l: Link, rx: Rx, events: seq<Event>, header: seq<byte>, body: seq<byte>) {
    && ValidConfig(c) && l.mode == Listening(rx) && !rx.Overlong? && l.queued.None?
    && WellFormed(header, body) && Hears(l.queue, events, Frame(header, body))
  }

  predicate IsRequest(header: seq<byte>, subtype: byte)
    requires |header| == HEADER_BODY
  {
    header[2] == TYPE_SYSTEM && header[3] == subtype
  }

  /** The pilot with this reply out. */
  function Replied(l: Link, s: Schedule, reply: seq<byte>): Link {
    l.(mode := Listening(Hunting), queue := Left(l.queue, s.answering), sent := l.sent + reply, waiting := false)
  }

  /** The pilot when a SYSTEM packet with this body has come in. */
  function Arrived(l: Link, events: seq<Event>, body: seq<byte>): Link
    requires |body| <= BUFFER_SIZE
  {
    Ready(l, events).(late := NOTHING_LATE, mode := Listening(Hunting), buffer := Overwrite(l.buffer, body))
  }

  lemma Answers(c: Config, l: Link, rx: Rx, s: Schedule, header: seq<byte>, body: seq<byte>,
                done: Link, ack: bool, content: seq<byte>)
    requires |header| == HEADER_BODY && |content| <= BUFFER_SIZE
    requires Asks(c, l, rx, s, header, body, Response(header, ack, content))
    requires Dispatch(c, Asked(l, s, body), header) == Reply(done, header, if ack then ACK else NAK, |content|)
    requires done.buffer[..|content|] == content
    requires done.queued.None? || (done.waiting && EndsBusy(s.answering))
    ensures Run(c, l, Whole(s)) == Answered(done, s, Response(header, ack, content))
  {
    hide Run, Dispatch, Reply, Response, Answer, Answered, Asked, Fits, Frame, Whole, Word;
    AnswerIs(header, if ack then ACK else NAK, content);
    Exchange(c, l, rx, s, header, body, done, if ack then ACK else NAK, |content|, Response(header, ack, content));
  }

  lemma Replies(c: Config, l: Link, rx: Rx, s: Schedule, header: seq<byte>, body: seq<byte>,
                done: Link, ack: bool, content: seq<byte>)
    requires |header| == HEADER_BODY && |content| <= BUFFER_SIZE
    requires Asks(c, l, rx, s, header, body, Response(header, ack, content))
    requires Dispatch(c, Asked(l, s, body), header) == Reply(done, header, if ack then ACK else NAK, |content|)
    requires done.buffer[..|content|] == content && done.late == NOTHING_LATE
    requires done.queued.None? || (done.waiting && EndsBusy(s.answering))
    ensures Run(c, l, Whole(s)) == Replied(done, s, Response(header, ack, content))
  {
    hide Run, Dispatch, Reply, Response, Asked, Answered, Asks, Whole, Left;
    Answers(c, l, rx, s, header, body, done, ack, content);
    AnsweredSettled(done, s, Response(header, ack, content));
  }

  lemma ArrivedIsAsked(l: Link, s: Schedule, body: seq<byte>)
    requires |body| <= BUFFER_SIZE
    ensures Arrived(l, s.asking, body) == Asked(l, s, body).(late := NOTHING_LATE)
    ensures Arrived(l, s.asking, body).queued == l.queued
    ensures Arrived(l, s.asking, body).buffer[..|body|] == body && Arrived(l, s.asking, body).buffer[..0] == []
  {
    hide Left, TrickleTimes;
  }

  // ----- acknowledged -----

  /** A NOOP is echoed. */
  lemma NoopEchoed(c: Config, l: Link, rx: Rx, s: Schedule, header: seq<byte>, body: seq<byte>, reply: seq<byte>)
    requires ValidConfig(c) && |header| == HEADER_BODY && IsRequest(header, SYSTEM_NOOP) && |body| <= BUFFER_SIZE
    requires reply == Response(header, true, body) && Asks(c, l, rx, s, header, body, reply)
    ensures Run(c, l, Whole(s)) == Replied(Arrived(l, s.asking, body), s, reply)
  {
    hide Run, Reply, Response, Asked, Arrived, Fits, Whole, Replied, Word;
    ArrivedIsAsked(l, s, body);
    Replies(c, l, rx, s, header, body, Arrived(l, s.asking, body), true, body);
  }

  /** FLASHDATA is acknowledged, and that is all. */
  lemma FlashDataAcknowledged(c: Config, l: Link, rx: Rx, s: Schedule, header: seq<byte>, body: seq<byte>,
                              reply: seq<byte>)
    requires ValidConfig(c) && |header| == HEADER_BODY && IsRequest(header, SYSTEM_FLASHDATA) && |body| <= BUFFER_SIZE
    requires reply == Response(header, true, []) && Asks(c, l, rx, s, header, body, reply)
    ensures Run(c, l, Whole(s)) == Replied(Arrived(l, s.asking, body), s, reply)
  {
    hide Run, Reply, Response, Asked, Arrived, Fits, Whole, Replied, Word;
    ArrivedIsAsked(l, s, body);
    Replies(c, l, rx, s, header, body, Arrived(l, s.asking, body), true, []);
  }

  /** An INFOPROBE is answered with the configuration block, which is then in the packet buffer. */
  lemma InfoAnswered(c: Config, l: Link, rx: Rx, s: Schedule, header: seq<byte>, body: seq<byte>, reply: seq<byte>)
    requires ValidConfig(c) && |header| == HEADER_BODY && IsRequest(header, SYSTEM_INFOPROBE) && |body| <= BUFFER_SIZE
    requires reply == Response(header, true, c.info) && Asks(c, l, rx, s, header, body, reply)
    ensures var arrived := Arrived(l, s.asking, body);
      Run(c, l, Whole(s)) ==
        Replied(arrived.(buffer := c.info + arrived.buffer[|c.info|..]), s, reply)
  {
    hide Run, Reply, Response, Asked, Arrived, Fits, Whole, Replied, Word;
    ArrivedIsAsked(l, s, body);
    var arrived := Arrived(l, s.asking, body);
    var done := arrived.(buffer := c.info + arrived.buffer[|c.info|..]);
    Replies(c, l, rx, s, header, body, done, true, c.info);
  }

  // ----- erasing -----

  /** The address an ERASEFLASH goes up to, in 32 bits. */
  function Upper(b: Buffer): nat {
    if Long(b[..4]) < 0xFF80_0000 then Long(b[..4]) + 0x80_0000 else Long(b[..4]) - 0xFF80_0000
  }

  lemma UpperIs(b: Buffer)
    ensures (Long(b[..4]) + FLASH_BASE) % 0x1_0000_0000 == Upper(b)
  {
    hide Long;
  }

  /** How many sectors of 4K that is from the bottom of flash, in 16 bits. */
  function Sectors(upper: nat): nat {
    (upper / 0x1000 - 0x7FF) % 0x1_0000
  }

  /** They reach to the end of the sector the address is in, or have wrapped. */
  lemma SectorsReach(upper: nat)
    ensures 0x80_0000 + 0x1000 * Sectors(upper) == (upper / 0x1000 + 1) * 0x1000 <==>
      0x7FF <= upper / 0x1000 < 0x1_07FF
  {
  }

  /** Flash is erased from its bottom through those sectors, and nothing else has changed. */
  ghost predicate IsErased(before: Link, after: Link, s: Schedule, reply: seq<byte>) {
    && after == Replied(before.(mem := after.mem), s, reply)
    && forall a :: Peek(after.mem, a) ==
         if 0x80_0000 <= a < 0x80_0000 + 0x1000 * Sectors(Upper(before.buffer)) then 0xFF else Peek(before.mem, a)
  }

  /** Below the user block, ERASEFLASH erases the sectors from the bottom of flash, and is acknowledged. */
  lemma FlashErased(c: Config, l: Link, rx: Rx, s: Schedule, header: seq<byte>, body: seq<byte>, reply: seq<byte>)
    requires ValidConfig(c) && |header| == HEADER_BODY && IsRequest(header, SYSTEM_ERASEFLASH) && |body| <= BUFFER_SIZE
    requires reply == Response(header, true, []) && Asks(c, l, rx, s, header, body, reply)
    requires Upper(Arrived(l, s.asking, body).buffer) < c.userBlock
    ensures IsErased(Arrived(l, s.asking, body), Run(c, l, Whole(s)), s, reply)
  {
    hide Run, Reply, Response, Asked, Arrived, Fits, Whole, Word, Erase, Peek, Long;
    ArrivedIsAsked(l, s, body);
    UpperIs(Arrived(l, s.asking, body).buffer);
    hide Upper;
    var arrived := Arrived(l, s.asking, body);
    var upper := Upper(arrived.buffer);
    assert EraseEnd(upper) == 0x80_0000 + 0x1000 * Sectors(upper);
    var done := arrived.(mem := Erase(arrived.mem, 0x80_0000, EraseEnd(upper)));
    Replies(c, l, rx, s, header, body, done, true, []);
    forall a ensures Peek(done.mem, a) == if 0x80_0000 <= a < EraseEnd(upper) then 0xFF else Peek(arrived.mem, a) {
      PeekErased(arrived.mem, 0x80_0000, EraseEnd(upper), a);
    }
  }

  // ----- refused -----

  /** The pilot has a divider for this rate: 8-bit pilots by tolerance, the 16-bit pilot by even division. */
  ghost predicate Acceptable(c: Config, rate: long) {
    Listed(rate) &&
    if c.wide then c.freq == 0 || exists d: byte :: Divides(c.freq, rate, d)
    else RoundingOverflows(c.count, rate) || exists k: int :: Tolerable(c.count, rate, k)
  }

  lemma AcceptableIs(c: Config, rate: long)
    ensures Acceptable(c, rate) <==> DividerFor(c, rate).Some?
  {
    hide Tolerable, Rounded, Divides;
    if Listed(rate) {
      if c.wide {
        if c.freq > 0 {
          forall d: byte ensures DividerBySubtraction(c.freq, rate) == Some(d) <==> Divides(c.freq, rate, d) {
            SubtractionRate(c.freq, rate, d);
          }
          hide DividerBySubtraction;
          if DividerFor(c, rate).Some? {
            assert DividerBySubtraction(c.freq, rate) == Some(DividerFor(c, rate).value);
          }
        } else {
          SubtractionExact(c.freq, rate);
        }
      } else if !RoundingOverflows(c.count, rate) {
        DividerExact(c.count, rate);
      }
    }
  }

  /**
   * The divider for a rate: that of the even division, or the clock by 32 times the rate, rounded, if that is
   * within tolerance; 0xFF where the code wraps around.
   */
  predicate Chosen(c: Config, rate: long, d: byte) {
    Listed(rate) &&
    if c.wide then if c.freq == 0 then d == 0xFF else Divides(c.freq, rate, d)
    else if RoundingOverflows(c.count, rate) then d == 0xFF
    else d + 1 == (7200 * c.count + 16 * rate) / (32 * rate) && Tolerable(c.count, rate, d)
  }

  lemma ChosenIs(c: Config, rate: long, d: byte)
    ensures Chosen(c, rate, d) <==> DividerFor(c, rate) == Some(d)
  {
    if Listed(rate) {
      if c.wide {
        SubtractionExact(c.freq, rate);
        if c.freq > 0 {
          SubtractionRate(c.freq, rate, d);
        }
        hide DividerBySubtraction, Divides;
      } else if !RoundingOverflows(c.count, rate) {
        ShiftFormIsRoundedQuotient(c.count, 0, rate);
        hide Rounded, Tolerable;
      }
    }
  }

  /** The SYSTEM requests that are refused, by subtype and the body in the packet buffer. */
  ghost predicate IsRefused(c: Config, b: Buffer, subtype: byte) {
    var offset := b[3] as int + 0x100 * b[4] as int + 0x1_0000 * b[5] as int;
    if subtype == SYSTEM_READ then b[0] != PHYSICAL
    else if subtype == SYSTEM_WRITE then
      b[0] != PHYSICAL || (b[6] % 2 == 1 && (c.wide || (offset >= c.fast1 && offset >= c.fast2)))
    else if subtype == SYSTEM_STARTBIOS then b[0] == 0 || b[0] > 3 || (b[0] == 3 && c.wide)
    else if subtype == SYSTEM_SETBAUDRATE then !Acceptable(c, Long(b[..4]))
    else if subtype == SYSTEM_ERASEFLASH then Upper(b) >= c.userBlock
    else subtype in {0x07, 0x08} || subtype > SYSTEM_FLASHDATA
  }

  lemma RefusedTarget(c: Config, b: Buffer)
    ensures var offset := b[3] as int + 0x100 * b[4] as int + 0x1_0000 * b[5] as int;
      TargetOf(c, Address(b)).Refused? <==> b[6] % 2 == 1 && (c.wide || (offset >= c.fast1 && offset >= c.fast2))
  {
    AddressParts(b[3..7]);
    hide Long;
  }

  lemma CopiesRefuse(c: Config, l: Link, h: seq<byte>)
    requires |h| == HEADER_BODY
    ensures IsRefused(c, l.buffer, SYSTEM_READ) ==> HandleRead(l, h) == Nak(l, h)
    ensures IsRefused(c, l.buffer, SYSTEM_WRITE) ==> HandleWrite(c, l, h) == Nak(l, h)
  {
    RefusedTarget(c, l.buffer);
    hide TargetOf, Long, Nak, Word, Launch, Copied, Overwrite, ReadReply, Passes, FlashCount, Count, Acceptable;
  }

  lemma StartRefuses(c: Config, l: Link, h: seq<byte>)
    requires |h| == HEADER_BODY && IsRefused(c, l.buffer, SYSTEM_STARTBIOS)
    ensures HandleStart(c, l, h) == Nak(l, h)
  {
    hide Nak, Word, Acceptable, Upper, Long;
  }

  lemma RateRefused(c: Config, b: Buffer)
    ensures IsRefused(c, b, SYSTEM_SETBAUDRATE) <==> !Acceptable(c, Long(b[..4]))
  {
    hide Acceptable, Long, Upper;
  }

  lemma BaudRefuses(c: Config, l: Link, h: seq<byte>)
    requires |h| == HEADER_BODY && IsRefused(c, l.buffer, SYSTEM_SETBAUDRATE)
    ensures HandleBaud(c, l, h) == Nak(l, h)
  {
    RateRefused(c, l.buffer);
    hide IsRefused, Acceptable, DividerFor, Long, Reply, Nak;
    AcceptableIs(c, Long(l.buffer[..4]));
  }

  lemma EraseRefuses(c: Config, l: Link, h: seq<byte>)
    requires |h| == HEADER_BODY && IsRefused(c, l.buffer, SYSTEM_ERASEFLASH)
    ensures HandleErase(c, l, h) == Nak(l, h)
  {
    UpperIs(l.buffer);
    hide Acceptable, Long, Nak, Word, Erase, EraseEnd, Upper, Reply;
  }

  lemma NeverRefused(c: Config, b: Buffer, subtype: byte)
    requires IsRefused(c, b, subtype)
    ensures subtype !in {SYSTEM_NAK, SYSTEM_NOOP, SYSTEM_INFOPROBE, SYSTEM_FLASHDATA}
  {
    hide Acceptable, Upper;
  }

  lemma RefusedDispatch(c: Config, l: Link, h: seq<byte>)
    requires ValidConfig(c) && |h| == HEADER_BODY && Word(h[4], h[5]) <= BUFFER_SIZE && h[2] == TYPE_SYSTEM
    requires IsRefused(c, l.buffer, h[3])
    ensures Dispatch(c, l, h) == Nak(l.(late := NOTHING_LATE), h)
  {
    hide HandleRead, HandleWrite, HandleStart, HandleBaud, HandleErase, IsRefused, Word, Nak, Reply, Overwrite;
    var l' := l.(late := NOTHING_LATE);
    NeverRefused(c, l.buffer, h[3]);
    if h[3] == SYSTEM_READ || h[3] == SYSTEM_WRITE {
      CopiesRefuse(c, l', h);
    } else if h[3] == SYSTEM_STARTBIOS {
      StartRefuses(c, l', h);
    } else if h[3] == SYSTEM_SETBAUDRATE {
      BaudRefuses(c, l', h);
    } else if h[3] == SYSTEM_ERASEFLASH {
      EraseRefuses(c, l', h);
    }
  }

  /** They get a NAK, and nothing else happens. */
  lemma RequestRefused(c: Config, l: Link, rx: Rx, s: Schedule, header: seq<byte>, body: seq<byte>, reply: seq<byte>)
    requires ValidConfig(c) && |header| == HEADER_BODY && header[2] == TYPE_SYSTEM && |body| <= BUFFER_SIZE
    requires reply == Response(header, false, []) && Asks(c, l, rx, s, header, body, reply)
    requires IsRefused(c, Arrived(l, s.asking, body).buffer, header[3])
    ensures Run(c, l, Whole(s)) == Replied(Arrived(l, s.asking, body), s, reply)
  {
    hide Run, Reply, Response, Asked, Arrived, Fits, Whole, Word, Dispatch, IsRefused, Replied;
    ArrivedIsAsked(l, s, body);
    RefusedDispatch(c, Asked(l, s, body), header);
    Replies(c, l, rx, s, header, body, Arrived(l, s.asking, body), false, []);
  }

  /** So do packets that are no SYSTEM packets; a late write goes on meanwhile. */
  lemma OtherTypeRefused(c: Config, l: Link, rx: Rx, s: Schedule, header: seq<byte>, body: seq<byte>, reply: seq<byte>)
    requires ValidConfig(c) && |header| == HEADER_BODY && header[2] != TYPE_SYSTEM && |body| <= BUFFER_SIZE
    requires reply == Response(header, false, []) && Asks(c, l, rx, s, header, body, reply)
    ensures var asked := Asked(l, s, body);
      Run(c, l, Whole(s)) == Owing(Replied(asked, s, reply),
        TrickleTimes(Owed(asked), Polls(s.answering)))
  {
    hide Run, Reply, Response, Fits, Whole, Word, TrickleTimes, Left, Polls;
    var asked := Asked(l, s, body);
    assert asked.buffer[..0] == [];
    Answers(c, l, rx, s, header, body, asked, false, []);
  }

  // ----- not answered -----

  /** A NAK from the host is not answered. */
  lemma NakIgnored(c: Config, l: Link, rx: Rx, events: seq<Event>, header: seq<byte>, body: seq<byte>)
    requires ValidConfig(c) && |header| == HEADER_BODY && IsRequest(header, SYSTEM_NAK) && |body| <= BUFFER_SIZE
    requires Tells(c, l, rx, events, header, body)
    ensures Run(c, l, events) == Arrived(l, events, body)
  {
    hide Run, Ready, Hears, Frame, Word;
    ReceiveFrame(c, l, rx, events, header, body);
  }

  /** STARTBIOS in a mode the pilot has leaves the loop for good, without a reply. */
  lemma BiosStarted(c: Config, l: Link, rx: Rx, events: seq<Event>, header: seq<byte>, body: seq<byte>,
                    later: seq<Event>)
    requires ValidConfig(c) && |header| == HEADER_BODY && IsRequest(header, SYSTEM_STARTBIOS) && |body| <= BUFFER_SIZE
    requires Tells(c, l, rx, events, header, body)
    requires !IsRefused(c, Arrived(l, events, body).buffer, SYSTEM_STARTBIOS)
    ensures var arrived := Arrived(l, events, body);
      Run(c, l, events + later) == arrived.(mode := Started(arrived.buffer[0]))
  {
    hide Run, Ready, Hears, Frame, Word, HandleRead, HandleWrite, HandleBaud, HandleErase, Reply, Overwrite, Nak, Left,
      Arrivals;
    ReceiveFrame(c, l, rx, events, header, body);
    RunConcat(c, l, events, later);
    StartedStays(c, Run(c, l, events), later);
  }

  lemma {:induction false} StartedStays(c: Config, l: Link, events: seq<Event>)
    requires ValidConfig(c) && !Alive(l)
    ensures Run(c, l, events) == l
    decreases |events|
  {
    if events == [] {
    } else {
      StartedStays(c, l, events[1..]);
    }
  }

  // ----- flash writes at the edge -----

  predicate FlashStays(c: Config, n: word) {
    n == 0 || (c.wide && n == 0xFFFF) || n + WRITE_HEADER <= BUFFER_SIZE
  }

  lemma FlashVerdict(c: Config, l: Link, h: seq<byte>)
    requires |h| == HEADER_BODY && l.buffer[0] == PHYSICAL && TargetOf(c, Address(l.buffer)).Flash?
    ensures var l', stays := HandleWrite(c, l, h), FlashStays(c, Count(l.buffer));
      (l'.mode.Sending? <==> stays) && (l'.mode.Beyond? <==> !stays)
  {
    FlashCountZero(c.wide, Count(l.buffer));
    ReplySending(h);
    hide TargetOf, Address, Count, Launch, Reply, FlashCount, Word;
  }

  lemma FlashCountZero(wide: bool, n: word)
    ensures FlashCount(wide, n) == 0 <==> n == 0 || (wide && n == 0xFFFF)
  {
  }

  lemma ReplySending(h: seq<byte>)
    requires |h| == HEADER_BODY
    ensures forall l: Link :: Reply(l, h, ACK, 0).mode.Sending?
  {
    hide Raw, Stuff;
  }

  /** A flash WRITE is answered unless its count is there and does not fit; 0xFFFF is none on word-wide flash. */
  lemma FlashWriteStays(c: Config, l: Link, rx: Rx, events: seq<Event>, w: Write)
    requires ValidConfig(c) && l.mode == Listening(rx) && !rx.Overlong? && l.queued.None? && w.Sound()
    requires ToFlash(w) && Hears(l.queue, events, Frame(w.header, w.Body()))
    ensures Run(c, l, events).mode.Sending? <==> FlashStays(c, w.n)
    ensures Run(c, l, events).mode.Beyond? <==> !FlashStays(c, w.n)
  {
    hide Run, Hears, Frame, Long, Lo, Hi, Word, Overwrite, Ready, HandleWrite, FlashStays, Left, Arrivals, Write.Body,
      Write.Sound, TargetOf, ToFlash, Address, Count;
    ReceiveFrame(c, l, rx, events, w.header, w.Body());
    FlashFieldsArrive(c, l.buffer, w);
    FlashVerdict(c, Arrived(l, events, w.Body()), w.header);
    DispatchesWrite(c, Arrived(l, events, w.Body()), w);
  }

  lemma FlashFieldsArrive(c: Config, buffer: Buffer, w: Write)
    requires w.Sound() && ToFlash(w)
    ensures var b := Overwrite(buffer, w.Body());
      b[0] == PHYSICAL && Count(b) == w.n && TargetOf(c, Address(b)).Flash?
  {
    FieldsArrive(buffer, w.n, w.address, w.data);
    AddressParts(w.address);
    hide Long, Overwrite, Lo, Hi;
  }

  lemma DispatchesWrite(c: Config, l: Link, w: Write)
    requires ValidConfig(c) && w.Sound() && l.late == NOTHING_LATE
    ensures forall late: Late :: Dispatch(c, l.(late := late), w.header) == HandleWrite(c, l, w.header)
  {
    hide HandleWrite, HandleRead, Reply;
    forall late: Late ensures Dispatch(c, l.(late := late), w.header) == HandleWrite(c, l, w.header) {
      assert l.(late := late).(late := NOTHING_LATE) == l;
    }
  }

  /** Nothing has changed, but that a late write has ended. */
  predicate IsUnchanged(before: Link, after: Link, s: Schedule, reply: seq<byte>) {
    after.late.count == 0 && after.(late := NOTHING_LATE) == Replied(before, s, reply)
  }

  /** A flash WRITE of nothing is acknowledged and changes nothing. */
  lemma EmptyFlashWrite(c: Config, l: Link, rx: Rx, s: Schedule, w: Write)
    requires ValidConfig(c) && w.Sound() && ToFlash(w) && (w.n == 0 || (c.wide && w.n == 0xFFFF))
    requires Asks(c, l, rx, s, w.header, w.Body(), w.Ack())
    ensures IsUnchanged(Arrived(l, s.asking, w.Body()), Run(c, l, Whole(s)), s, w.Ack())
  {
    hide Run, Frame, Long, Lo, Hi, Word, Copied, TrickleTimes, Passes, Fits, Left, Response, Reply, Store, Overwrite;
    var asked := Asked(l, s, w.Body());
    FieldsArrive(l.buffer, w.n, w.address, w.data);
    AddressParts(w.address);
    var at := TargetOf(c, w.At()).at;
    var done := Launch(c.wide, asked.(late := NOTHING_LATE), at, []);
    assert WriteData(asked.buffer, 0) == [] && done.buffer[..0] == [];
    ProgramNothing(Device(asked.mem, asked.log), at);
    Answers(c, l, rx, s, w.header, w.Body(), done, true, []);
    AnsweredSettled(done, s, w.Ack());
  }

  // ----- RAM writes over flash, and headers of packets too long -----

  /** A copy of these bytes, which takes effect outside flash only. */
  ghost predicate IsCopied(before: Memory, after: Memory, a: int, data: seq<byte>) {
    forall i :: Peek(after, i) ==
      if a <= i < a + |data| && !(0x80_0000 <= i < 0x100_0000) then data[i - a] else Peek(before, i)
  }

  predicate ToRam(w: Write) {
    w.Sound() && Fitting(w.n, WRITE_HEADER) && w.address[3] % 4 == 0
  }

  /** A WRITE with flags 0 goes to its address wherever that is, and spares the flash cells among its own. */
  lemma RamWriteSparesFlash(c: Config, l: Link, rx: Rx, s: Schedule, w: Write,
                            body: seq<byte>, reply: seq<byte>, data: seq<byte>)
    requires ValidConfig(c) && |body| <= BUFFER_SIZE
    requires ToRam(w) && body == w.Body() && reply == w.Ack() && data == Content(l, w)
    requires Asks(c, l, rx, s, w.header, body, reply)
    ensures IsCopied(Arrived(l, s.asking, body).mem, Run(c, l, Whole(s)).mem, Long(w.address), data)
  {
    hide Run, Fits, Frame, Write.Ack, Write.Body, Overwrite, TrickleTimes, Polls, Whole, Copied, Peek, Left;
    RamTarget(c, w);
    hide TargetOf, Write.Sound;
    WriteExchange(c, l, rx, s, w);
    var asked := Asked(l, s, w.Body());
    var stored := Stored(c, asked, w.At(), w.n);
    AgedSettled(stored, Polls(s.answering));
    forall i ensures Peek(stored.mem, i) ==
      if Long(w.address) <= i < Long(w.address) + w.n && !(0x80_0000 <= i < 0x100_0000)
      then Content(l, w)[i - Long(w.address)] else Peek(asked.mem, i)
    {
      PeekCopied(asked.mem, Long(w.address), WriteData(asked.buffer, w.n), i);
    }
  }

  lemma RamTarget(c: Config, w: Write)
    requires ToRam(w)
    ensures TargetOf(c, w.At()) == Ram(Long(w.address))
  {
    AddressParts(w.address);
    hide Long;
  }

  /** A header that announces more than the packet buffer holds, and is otherwise good. */
  predicate IsTooLong(header: seq<byte>) {
    |header| == HEADER_BODY && Word(header[4], header[5]) > BUFFER_SIZE
  }

  lemma TooLongIs(header: seq<byte>)
    requires IsTooLong(header)
    ensures var data := header + Trailer(header);
      && Judge(data) == TooLong
      && (forall k :: 0 <= k < |data| ==> Judge(data[..k]) == More)
      && forall k :: 0 < k < |data| ==> Judge(([] + data)[..k]) == More
  {
    var data := header + Trailer(header);
    assert data[..HEADER_BODY] == header && [] + data == data;
  }

  /** It takes the pilot out of its packet buffer as soon as its checksum is in, whatever it was receiving before. */
  lemma LongHeaderLeaves(c: Config, l: Link, rx: Rx, events: seq<Event>, header: seq<byte>)
    requires ValidConfig(c) && l.mode == Listening(rx) && !rx.Overlong? && l.queued.None? && IsTooLong(header)
    requires Hears(l.queue, events, [START] + Stuff(header + Trailer(header)))
    ensures Run(c, l, events).mode.Beyond?
  {
    hide Run, Hears, Judge, Stuff, Ready, Feed, Word, Dispatch, Trailer, Fill;
    var data := header + Trailer(header);
    TooLongIs(header);
    UnfinishedData(rx, data);
    Received(c, l, rx, events, [START] + Stuff(data));
    var ready := Ready(l, events);
    ReadyListens(l, events);
    ConsumeConcat(c, ready, [START], Stuff(data));
    ConsumeOne(c, ready, rx, START);
    ConsumeStuffed(c, ready.(mode := Listening(Framed([], false))), [], data);
    assert [] + data == data;
  }
}
