/** Whole exchanges between the host and the reference machine: a frame in, a frame out, on any schedule. */
module Sessions {
  import opened Bytes
  import opened Fletcher
  import opened Framing
  import opened Memory
  import opened Link

  // ----- schedules -----

  /**
   * The bytes of `wire` reach the pilot in order, the first of them waiting in `queue` already, and are all
   * taken, the last in the last event; the ring is never full. Turns may fall anywhere between, and more bytes
   * may arrive behind those.
   */
  predicate Hears(queue: seq<byte>, events: seq<Event>, wire: seq<byte>)
    decreases |events|
  {
    if wire == [] then events == []
    else
      events != [] &&
      match events[0]
      case Arrive(b) => |queue| < BUFFER_SIZE - 1 && Hears(queue + [b], events[1..], wire)
      case Poll(_, _) =>
        if queue == [] then Hears(queue, events[1..], wire)
        else queue[0] == wire[0] && Hears(queue[1..], events[1..], wire[1..])
  }

  /** The ring after these events. */
  function Left(queue: seq<byte>, events: seq<Event>): seq<byte>
    decreases |events|
  {
    if events == [] then queue
    else
      match events[0]
      case Arrive(b) => Left(Push(queue, b), events[1..])
      case Poll(_, _) => Left(Pop(queue), events[1..])
  }

  function Arrivals(events: seq<Event>): seq<byte> {
    if events == [] then [] else (if events[0].Arrive? then [events[0].b] else []) + Arrivals(events[1..])
  }

  /** What waited and what arrives is, in this order, what is heard and what waits afterwards. */
  lemma {:induction false} HearsArrivals(queue: seq<byte>, events: seq<Event>, wire: seq<byte>)
    requires Hears(queue, events, wire)
    ensures queue + Arrivals(events) == wire + Left(queue, events)
    decreases |events|
  {
    if wire == [] {
      assert queue + Arrivals(events) == queue == wire + Left(queue, events);
    } else {
      var rest := events[1..];
      match events[0] {
        case Arrive(b) =>
          HearsArrivals(queue + [b], rest, wire);
          Join(queue, [b], Arrivals(rest));
        case Poll(_, _) =>
          assert Arrivals(events) == Arrivals(rest) by {
            assert [] + Arrivals(rest) == Arrivals(rest);
          }
          if queue == [] {
            HearsArrivals(queue, rest, wire);
          } else {
            HearsArrivals(queue[1..], rest, wire[1..]);
            Join([queue[0]], queue[1..], Arrivals(rest));
            Join([queue[0]], wire[1..], Left(queue[1..], rest));
            assert wire == [queue[0]] + wire[1..] && queue == [queue[0]] + queue[1..];
          }
      }
    }
  }

  lemma Join(s: seq<byte>, t: seq<byte>, u: seq<byte>)
    ensures s + t + u == s + (t + u)
  {
  }

  /** A turn for each byte is such a schedule. */
  function Lockstep(wire: seq<byte>): seq<Event> {
    if wire == [] then [] else [Arrive(wire[0]), Poll(true, true)] + Lockstep(wire[1..])
  }

  lemma {:induction false} LockstepHears(wire: seq<byte>)
    ensures Hears([], Lockstep(wire), wire) && Polls(Lockstep(wire)) == |wire| && Left([], Lockstep(wire)) == []
  {
    if wire == [] {
    } else {
      var events := Lockstep(wire);
      LockstepHears(wire[1..]);
      assert events[1..][0] == Poll(true, true) && events[1..][1..] == Lockstep(wire[1..]);
      assert [] + [wire[0]] == [wire[0]] && [wire[0]][1..] == [];
      assert Hears([wire[0]], events[1..], wire);
    }
  }

  /**
   * The turn that sends the last of `n` bytes is the last event; any turn may find the transmitter full, and
   * bytes may arrive, which the turns discard.
   */
  predicate Drains(events: seq<Event>, n: nat)
    decreases |events|
  {
    if n == 0 then events == []
    else
      events != [] &&
      match events[0]
      case Arrive(_) => Drains(events[1..], n)
      case Poll(canSend, _) => Drains(events[1..], if canSend then n - 1 else n)
  }

  function Polls(events: seq<Event>): nat {
    if events == [] then 0 else (if events[0].Poll? then 1 else 0) + Polls(events[1..])
  }

  /** Turns that always find room. */
  function Promptly(n: nat): seq<Event> {
    if n == 0 then [] else [Poll(true, true)] + Promptly(n - 1)
  }

  lemma {:induction false} PromptlyDrains(n: nat)
    ensures Drains(Promptly(n), n) && Polls(Promptly(n)) == n && Left([], Promptly(n)) == []
  {
    if n == 0 {
    } else {
      PromptlyDrains(n - 1);
      assert Promptly(n)[0] == Poll(true, true) && Promptly(n)[1..] == Promptly(n - 1);
    }
  }

  /** It takes a turn to hear a byte, and one to send a byte. */
  lemma {:induction false} PollsHearing(queue: seq<byte>, events: seq<Event>, wire: seq<byte>)
    requires Hears(queue, events, wire)
    ensures |wire| <= Polls(events)
    decreases |events|
  {
    if wire == [] {
    } else {
      match events[0] {
        case Arrive(b) =>
          PollsHearing(queue + [b], events[1..], wire);
        case Poll(_, _) =>
          if queue == [] {
            PollsHearing(queue, events[1..], wire);
          } else {
            PollsHearing(queue[1..], events[1..], wire[1..]);
          }
      }
    }
  }

  lemma {:induction false} PollsDraining(events: seq<Event>, n: nat)
    requires Drains(events, n)
    ensures n <= Polls(events)
    decreases |events|
  {
    if n == 0 {
    } else {
      PollsDraining(events[1..], if events[0].Poll? && events[0].canSend then n - 1 else n);
    }
  }

  /** The events of an exchange: until the request is in, and until the reply is out. */
  datatype Schedule = Schedule(asking: seq<Event>, answering: seq<Event>)

  predicate Fits(l: Link, s: Schedule, request: seq<byte>, reply: seq<byte>) {
    Hears(l.queue, s.asking, request) && reply != [] && Drains(s.answering, |reply| - 1)
  }

  function Whole(s: Schedule): seq<Event> {
    s.asking + s.answering
  }

  lemma {:induction false} RunConcat(c: Config, l: Link, s: seq<Event>, t: seq<Event>)
    requires ValidConfig(c)
    ensures Run(c, l, s + t) == Run(c, Run(c, l, s), t)
    decreases |s|
  {
    if s == [] {
      assert s + t == t;
    } else {
      assert (s + t)[1..] == s[1..] + t;
      RunConcat(c, Step(c, l, s[0]), s[1..], t);
    }
  }

  // ----- what turns do to a late write -----

  /** The pilot after `n` turns, as far as flash is concerned. */
  function Aged(l: Link, n: nat): Link {
    Owing(l, TrickleTimes(Owed(l), n))
  }

  /** The pilot after these events, as far as flash and the ring are concerned. */
  function Ready(l: Link, events: seq<Event>): Link {
    Aged(l, Polls(events)).(queue := Left(l.queue, events))
  }

  lemma AgedNext(l: Link, n: nat)
    ensures Aged(Pumped(l), n) == Aged(l, n + 1)
  {
    hide Trickle;
  }

  lemma ReadyNow(l: Link)
    ensures Ready(l, []) == l
  {
  }

  lemma ReadyNext(l: Link, events: seq<Event>)
    requires events != [] && events[0].Poll?
    ensures Ready(l, events) == Ready(Pumped(l).(queue := Pop(l.queue)), events[1..])
  {
    hide Trickle;
    AgedNext(l, Polls(events[1..]));
  }

  /** Without a late write turns change nothing in flash. */
  lemma AgedSettled(l: Link, n: nat)
    requires l.late.count == 0
    ensures Aged(l, n) == l
  {
    TrickleNothing(Owed(l), n);
  }

  // ----- receiving -----

  /** What a listening pilot makes of a stretch of wire, up to where it stops listening. */
  function Consume(c: Config, l: Link, wire: seq<byte>): Link
    requires ValidConfig(c)
    decreases |wire|
  {
    if wire == [] || !l.mode.Listening? then l
    else Consume(c, Listen(c, l, l.mode.rx, wire[0]), wire[1..])
  }

  lemma {:induction false} ConsumeConcat(c: Config, l: Link, s: seq<byte>, t: seq<byte>)
    requires ValidConfig(c)
    ensures Consume(c, l, s + t) == Consume(c, Consume(c, l, s), t)
    decreases |s|
  {
    hide Listen;
    if s == [] {
      assert s + t == t;
    } else if l.mode.Listening? {
      assert (s + t)[1..] == s[1..] + t;
      ConsumeConcat(c, Listen(c, l, l.mode.rx, s[0]), s[1..], t);
    }
  }

  lemma ConsumeOne(c: Config, l: Link, rx: Rx, b: byte)
    requires ValidConfig(c) && l.mode == Listening(rx)
    ensures Consume(c, l, [b]) == Listen(c, l, rx, b)
  {
    hide Listen;
    assert [b][1..] == [];
  }

  /** Where a received byte goes in the packet buffer, if anywhere. */
  function Landed(buffer: Buffer, rx: Rx, b: byte): Buffer {
    match Decoded(rx, b)
    case Some(d) => Place(buffer, rx.data, d)
    case None => buffer
  }

  /** A byte that completes no packet changes only the receiver and the packet buffer. */
  lemma ListenQuietly(c: Config, l: Link, rx: Rx, b: byte)
    requires ValidConfig(c) && l.mode == Listening(rx) && !rx.Overlong?
    requires Hear(rx, b).got.None? && !Hear(rx, b).rx.Overlong?
    ensures Listen(c, l, rx, b) == l.(mode := Listening(Hear(rx, b).rx), buffer := Landed(l.buffer, rx, b))
  {
    hide Dispatch, Place, Judge;
  }

  /** A change of the baud rate is never due right after a request. */
  lemma DispatchWaits(c: Config, l: Link, h: seq<byte>)
    requires ValidConfig(c) && |h| == HEADER_BODY && Word(h[4], h[5]) <= BUFFER_SIZE && l.queued.None?
    ensures Dispatch(c, l, h).queued.Some? ==> Dispatch(c, l, h).waiting
  {
    hide Word, Long, Lo, Hi, DividerFor, TargetOf, Copied, Fetch, Erase, EraseEnd, Overwrite, Count, Passes,
      Program, SetBit, Stuff, Raw;
  }

  lemma HeardHeader(data: seq<byte>)
    ensures var got := HearDecoded(data).got;
      got.Some? ==> |got.value.header| == HEADER_BODY && Word(got.value.header[4], got.value.header[5]) <= BUFFER_SIZE
  {
  }

  lemma ListenWaits(c: Config, l: Link, rx: Rx, b: byte)
    requires ValidConfig(c) && l.queued.None?
    ensures Listen(c, l, rx, b).queued.Some? ==> Listen(c, l, rx, b).waiting
  {
    hide Dispatch, Place, Judge, Word;
    var d := Decoded(rx, b);
    if d.Some? {
      HeardHeader(rx.data + [d.value]);
      var heard := HearDecoded(rx.data + [d.value]);
      if heard.got.Some? {
        var l' := l.(buffer := Place(l.buffer, rx.data, d.value), mode := Listening(Hunting));
        DispatchWaits(c, l', heard.got.value.header);
      }
    }
  }

  lemma {:induction false} OverlongStays(wire: seq<byte>)
    ensures Feed(Overlong, wire) == Log(Overlong, [])
  {
    if wire == [] {
    } else {
      OverlongStays(wire[1..]);
    }
  }

  /** The first byte of a stretch without a packet. */
  lemma FeedQuietly(rx: Rx, wire: seq<byte>)
    requires wire != [] && Feed(rx, wire).got == [] && !Feed(rx, wire).rx.Overlong?
    ensures Hear(rx, wire[0]).got.None? && !Hear(rx, wire[0]).rx.Overlong?
    ensures Feed(Hear(rx, wire[0]).rx, wire[1..]) == Feed(rx, wire)
  {
    hide Hear;
    if Hear(rx, wire[0]).rx.Overlong? {
      OverlongStays(wire[1..]);
    }
  }

  /**
   * On any schedule, wire that completes at most one packet, with its last byte, has the effect it has on an
   * undisturbed listener; but a late write has gone on meanwhile.
   */
  lemma {:induction false} Received(c: Config, l: Link, rx: Rx, events: seq<Event>, wire: seq<byte>)
    requires ValidConfig(c) && l.mode == Listening(rx) && !rx.Overlong? && l.queued.None? && wire != []
    requires Feed(rx, wire[..|wire| - 1]).got == [] && !Feed(rx, wire[..|wire| - 1]).rx.Overlong?
    requires Hears(l.queue, events, wire)
    ensures Run(c, l, events) == Consume(c, Ready(l, events), wire)
    decreases |events|
  {
    hide Listen, Feed, Hear, Trickle, TrickleTimes;
    var rest := events[1..];
    match events[0] {
      case Arrive(b) =>
        Received(c, l.(queue := l.queue + [b]), rx, rest, wire);
      case Poll(canSend, idle) =>
        ReadyNext(l, events);
        if l.queue == [] {
          assert Pumped(l).(queue := Pop(l.queue)) == Pumped(l);
          Received(c, Pumped(l), rx, rest, wire);
        } else {
          var b, l' := l.queue[0], Pumped(l).(queue := Pop(l.queue));
          var heard := Listen(c, l', rx, b);
          ListenWaits(c, l', rx, b);
          if |wire| == 1 {
            assert wire == [b] && wire[1..] == [] && rest == [];
            ReadyNow(l');
            ConsumeOne(c, l', rx, b);
          } else {
            assert wire[..|wire| - 1][1..] == wire[1..][..|wire[1..]| - 1];
            FeedQuietly(rx, wire[..|wire| - 1]);
            ListenQuietly(c, l', rx, b);
            ListenQuietly(c, Ready(l, events), rx, b);
            assert Ready(heard, rest) == Listen(c, Ready(l, events), rx, b);
            Received(c, heard, Hear(rx, b).rx, rest, wire[1..]);
          }
        }
    }
  }

  // ----- a frame -----

  /** What the body bytes among `rest`, decoded after `done`, do to the packet buffer. */
  function Fill(buffer: Buffer, done: seq<byte>, rest: seq<byte>): Buffer
    decreases |rest|
  {
    if rest == [] then buffer else Fill(Place(buffer, done, rest[0]), done + [rest[0]], rest[1..])
  }

  /** What a decoded byte leads to does not depend on whether it came escaped. */
  lemma TakeForgetsEscape(c: Config, l: Link, mode: Mode, data: seq<byte>, d: byte)
    requires ValidConfig(c)
    ensures Take(c, l.(mode := mode), data, d) == Take(c, l, data, d)
  {
    hide Dispatch, Place;
    var heard := HearDecoded(data + [d]);
    if heard.got.Some? {
      HeardHeader(data + [d]);
      assert l.(mode := mode).(buffer := Place(l.buffer, data, d)).(mode := Listening(Hunting)) ==
        l.(buffer := Place(l.buffer, data, d)).(mode := Listening(Hunting));
    }
  }

  lemma ConsumeStuffedByte(c: Config, l: Link, done: seq<byte>, d: byte)
    requires ValidConfig(c) && l.mode == Listening(Framed(done, false))
    ensures Consume(c, l, StuffByte(d)) == Take(c, l, done, d)
  {
    hide Take;
    FlipTwice(d);
    if d == START || d == ESC {
      var mode := Listening(Framed(done, true));
      assert StuffByte(d)[1..] == [Flip(d)] && Flip(d) != START;
      assert Listen(c, l, Framed(done, false), ESC) == l.(mode := mode);
      ConsumeOne(c, l.(mode := mode), Framed(done, true), Flip(d));
      TakeForgetsEscape(c, l, mode, done, d);
    } else {
      ConsumeOne(c, l, Framed(done, false), d);
    }
  }

  /** The bytes of a frame, up to where the receiver decides. */
  lemma {:induction false} ConsumeStuffed(c: Config, l: Link, done: seq<byte>, rest: seq<byte>)
    requires ValidConfig(c) && l.mode == Listening(Framed(done, false)) && rest != []
    requires forall k :: |done| < k < |done| + |rest| ==> Judge((done + rest)[..k]) == More
    ensures Consume(c, l, Stuff(rest)) ==
      Conclude(c, l.(buffer := Fill(l.buffer, done, rest)), HearDecoded(done + rest))
    decreases |rest|
  {
    hide Dispatch, Place, Judge, StuffByte, Listen;
    var d, rest' := rest[0], rest[1..];
    var done' := done + [d];
    assert done + rest == done' + rest';
    ConsumeStuffedByte(c, l, done, d);
    ConsumeConcat(c, l, StuffByte(d), Stuff(rest'));
    if rest' == [] {
      assert done' == done + rest;
      ConsumeNothing(c, Take(c, l, done, d));
    } else {
      assert (done + rest)[..|done'|] == done';
      var l' := l.(buffer := Place(l.buffer, done, d), mode := Listening(Framed(done', false)));
      assert Take(c, l, done, d) == l';
      ConsumeStuffed(c, l', done', rest');
    }
  }

  lemma ConsumeNothing(c: Config, l: Link)
    requires ValidConfig(c)
    ensures Consume(c, l, Stuff([])) == l
  {
  }

  lemma PlaceRaw(buffer: Buffer, header: seq<byte>, body: seq<byte>, k: nat)
    requires WellFormed(header, body) && k < |Raw(header, body)|
    ensures var raw := Raw(header, body);
      Place(buffer, raw[..k], raw[k]) ==
        if HEADER_SIZE <= k < HEADER_SIZE + |body| then buffer[k - HEADER_SIZE := body[k - HEADER_SIZE]] else buffer
  {
    hide Raw, Trailer, Word;
    RawPieces(header, body);
    var raw := Raw(header, body);
    if HEADER_SIZE <= k {
      assert raw[..k][4] == raw[..HEADER_BODY][4] && raw[..k][5] == raw[..HEADER_BODY][5];
      assert k < HEADER_SIZE + |body| ==> raw[k] == raw[HEADER_SIZE..HEADER_SIZE + |body|][k - HEADER_SIZE];
    }
  }

  /** The buffer once the body is complete, `n` bytes of it being there already. */
  function Completed(buffer: Buffer, body: seq<byte>, n: nat): Buffer
    requires n <= |body| <= BUFFER_SIZE
  {
    buffer[..n] + body[n..] + buffer[|body|..]
  }

  lemma CompletedStep(buffer: Buffer, body: seq<byte>, n: nat)
    requires n <= |body| <= BUFFER_SIZE
    ensures n < |body| ==> Completed(buffer[n := body[n]], body, n + 1) == Completed(buffer, body, n)
    ensures n == |body| ==> Completed(buffer, body, n) == buffer
  {
  }

  /** Of a whole packet, exactly the body goes to the front of the buffer. */
  lemma {:induction false} FillWithPacket(buffer: Buffer, header: seq<byte>, body: seq<byte>, k: nat)
    requires WellFormed(header, body) && k <= |Raw(header, body)|
    ensures var raw, n := Raw(header, body), if k < HEADER_SIZE then 0 else k - HEADER_SIZE;
      Fill(buffer, raw[..k], raw[k..]) == if n <= |body| then Completed(buffer, body, n) else buffer
    decreases |Raw(header, body)| - k
  {
    hide Raw, Place, Word, Trailer, Completed;
    RawPieces(header, body);
    var raw, n := Raw(header, body), if k < HEADER_SIZE then 0 else k - HEADER_SIZE;
    if k < |raw| {
      assert raw[..k] + [raw[k]] == raw[..k + 1] && raw[k..][1..] == raw[k + 1..];
      PlaceRaw(buffer, header, body, k);
      FillWithPacket(Place(buffer, raw[..k], raw[k]), header, body, k + 1);
      if n <= |body| {
        CompletedStep(buffer, body, n);
      }
    }
  }

  lemma ConsumeFrame(c: Config, l: Link, rx: Rx, header: seq<byte>, body: seq<byte>)
    requires ValidConfig(c) && l.mode == Listening(rx) && !rx.Overlong? && WellFormed(header, body)
    ensures Consume(c, l, Frame(header, body)) ==
      Dispatch(c, l.(mode := Listening(Hunting), buffer := Overwrite(l.buffer, body)), header)
  {
    hide Dispatch, Raw, Judge, HearDecoded, Fill, Stuff;
    var raw := Raw(header, body);
    RawPieces(header, body);
    JudgeRaw(header, body);
    var l' := l.(mode := Listening(Framed([], false)));
    ConsumeOne(c, l, rx, START);
    ConsumeConcat(c, l, [START], Stuff(raw));
    assert [] + raw == raw && raw[..0] == [] && raw[0..] == raw;
    ConsumeStuffed(c, l', [], raw);
    FillWithPacket(l.buffer, header, body, 0);
    assert Completed(l.buffer, body, 0) == Overwrite(l.buffer, body) by {
      assert l.buffer[..0] + body[0..] == body;
    }
  }

  /** A frame without the byte that decides it is no packet yet. */
  lemma UnfinishedData(rx: Rx, data: seq<byte>)
    requires !rx.Overlong? && data != [] && forall k :: 0 <= k < |data| ==> Judge(data[..k]) == More
    ensures var wire := [START] + Stuff(data);
      var heard := Feed(rx, wire[..|wire| - 1]);
      heard.got == [] && !heard.rx.Overlong?
  {
    hide Judge, Feed, StuffByte, Trailer, Word, Hear;
    var n := |data| - 1;
    var front, last := data[..n], StuffByte(data[n]);
    var early := [START] + Stuff(front);
    StuffLast(data);
    assert ([START] + Stuff(data))[..|early + last| - 1] == early + last[..|last| - 1];
    if front == [] {
      StartBegins(rx);
      assert early == [START];
    } else {
      forall k | 0 < k < |front| ensures Judge(front[..k]) == More {
        assert front[..k] == data[..k];
      }
      assert front == data[..n];
      FeedFrame(rx, front);
    }
    FeedConcat(rx, early, last[..|last| - 1]);
    UnfinishedByte(front, data[n]);
  }

  lemma StartBegins(rx: Rx)
    requires !rx.Overlong?
    ensures Feed(rx, [START] + Stuff([])) == Log(Framed([], false), [])
  {
    assert ([START] + Stuff([]))[1..] == [];
  }

  lemma UnfinishedFrame(rx: Rx, header: seq<byte>, body: seq<byte>)
    requires !rx.Overlong? && WellFormed(header, body)
    ensures var heard := Feed(rx, Frame(header, body)[..|Frame(header, body)| - 1]);
      heard.got == [] && !heard.rx.Overlong?
  {
    JudgeRaw(header, body);
    hide Raw, Judge, Feed, Stuff, Word;
    UnfinishedData(rx, Raw(header, body));
  }

  lemma StuffLast(data: seq<byte>)
    requires data != []
    ensures var front, last := data[..|data| - 1], StuffByte(data[|data| - 1]);
      last != [] && [START] + Stuff(data) == ([START] + Stuff(front)) + last
  {
    var front, d := data[..|data| - 1], data[|data| - 1];
    assert data == front + [d] && [d][1..] == [];
    StuffConcat(front, [d]);
    assert Stuff([d]) == StuffByte(d) + Stuff([]);
  }

  lemma UnfinishedByte(done: seq<byte>, d: byte)
    ensures var heard := Feed(Framed(done, false), StuffByte(d)[..|StuffByte(d)| - 1]);
      heard.got == [] && heard.rx.Framed?
  {
    hide HearDecoded;
    if d == START || d == ESC {
      assert StuffByte(d)[..1] == [ESC] && [ESC][1..] == [];
    } else {
      assert StuffByte(d)[..0] == [];
    }
  }

  /**
   * A listening pilot that is sent a packet dispatches it, whatever it was receiving before and on any schedule;
   * what arrived behind it is in the ring.
   */
  lemma ReceiveFrame(c: Config, l: Link, rx: Rx, events: seq<Event>, header: seq<byte>, body: seq<byte>)
    requires ValidConfig(c) && l.mode == Listening(rx) && !rx.Overlong? && l.queued.None? && WellFormed(header, body)
    requires Hears(l.queue, events, Frame(header, body))
    ensures Run(c, l, events) == Dispatch(c,
      Ready(l, events).(mode := Listening(Hunting), buffer := Overwrite(l.buffer, body)), header)
    ensures l.queue + Arrivals(events) == Frame(header, body) + Left(l.queue, events)
  {
    hide Run, Dispatch, Frame, Overwrite, Feed, Hears, TrickleTimes, Word, Left, Arrivals;
    HearsArrivals(l.queue, events, Frame(header, body));
    FrameNotEmpty(header, body);
    UnfinishedFrame(rx, header, body);
    Received(c, l, rx, events, Frame(header, body));
    ConsumeFrame(c, Ready(l, events), rx, header, body);
  }

  /** The same behind `noise` that completes no packet. */
  lemma ReceiveBehind(c: Config, l: Link, rx: Rx, events: seq<Event>, noise: seq<byte>,
                      header: seq<byte>, body: seq<byte>)
    returns (asked: Link)
    requires ValidConfig(c) && l.mode == Listening(rx) && !rx.Overlong? && l.queued.None? && WellFormed(header, body)
    requires Feed(rx, noise).got == [] && !Feed(rx, noise).rx.Overlong?
    requires Hears(l.queue, events, noise + Frame(header, body))
    ensures Run(c, l, events) == Dispatch(c, asked, header)
    ensures asked == Ready(l, events).(mode := Listening(Hunting), buffer := asked.buffer)
  {
    hide Run, Dispatch, Frame, Overwrite, Feed, Hears, TrickleTimes, Word, Ready, Consume;
    FrameNotEmpty(header, body);
    var frame, rx' := Frame(header, body), Feed(rx, noise).rx;
    UnfinishedFrame(rx', header, body);
    assert (noise + frame)[..|noise + frame| - 1] == noise + frame[..|frame| - 1];
    FeedConcat(rx, noise, frame[..|frame| - 1]);
    Received(c, l, rx, events, noise + frame);
    var ready := Ready(l, events);
    ConsumeConcat(c, ready, noise, frame);
    ReadyListens(l, events);
    ConsumeQuietly(c, ready, rx, noise);
    var quiet := Consume(c, ready, noise);
    ConsumeFrame(c, quiet, rx', header, body);
    asked := quiet.(mode := Listening(Hunting), buffer := Overwrite(quiet.buffer, body));
  }

  lemma ReadyListens(l: Link, events: seq<Event>)
    ensures Ready(l, events).mode == l.mode
  {
    hide TrickleTimes, Left;
  }

  lemma FrameNotEmpty(header: seq<byte>, body: seq<byte>)
    ensures Frame(header, body) != []
  {
  }

  // ----- a reply -----

  /** The turn that sends the last byte does not yet find the transmitter idle. */
  predicate EndsBusy(events: seq<Event>) {
    events != [] && events[|events| - 1].Poll? && !events[|events| - 1].idle
  }

  /**
   * A reply comes out completely, whenever the transmitter has room and whatever arrives meanwhile, and then the
   * pilot listens again.
   */
  lemma {:induction false} Drained(c: Config, l: Link, todo: seq<byte>, events: seq<Event>)
    requires ValidConfig(c) && l.mode == Sending(todo) && todo != []
    requires Drains(events, |todo|)
    requires l.queued.None? || (l.waiting && EndsBusy(events))
    ensures Run(c, l, events) ==
      Ready(l, events).(mode := Listening(Hunting), sent := l.sent + todo, waiting := false)
    decreases |events|
  {
    hide Step, Trickle, TrickleTimes;
    var e, rest := events[0], events[1..];
    DrainStep(c, l, todo, e);
    if e.Arrive? {
      DrainsOn(rest, |todo|);
      Drained(c, l.(queue := Push(l.queue, e.b)), todo, rest);
    } else {
      ReadyNext(l, events);
      var l' := Pumped(l).(queue := Pop(l.queue));
      if !e.canSend {
        DrainsOn(rest, |todo|);
        Drained(c, l', todo, rest);
      } else if |todo| == 1 {
        assert rest == [];
        ReadyNow(l');
      } else {
        DrainsOn(rest, |todo| - 1);
        Drained(c, Emit(l', todo), todo[1..], rest);
        assert l.sent + todo == l.sent + todo[..1] + todo[1..];
      }
    }
  }

  lemma DrainStep(c: Config, l: Link, todo: seq<byte>, e: Event)
    requires ValidConfig(c) && l.mode == Sending(todo) && todo != []
    requires l.queued.None? || (l.waiting && (e.Poll? && e.canSend && |todo| == 1 ==> !e.idle))
    ensures Step(c, l, e) ==
      match e
      case Arrive(b) => l.(queue := Push(l.queue, b))
      case Poll(canSend, _) =>
        var l' := Pumped(l).(queue := Pop(l.queue));
        if canSend then Emit(l', todo) else l'
  {
    hide Trickle;
  }

  lemma DrainsOn(events: seq<Event>, n: nat)
    requires n > 0 && Drains(events, n)
    ensures events != []
  {
  }

  function Answer(header: seq<byte>, mask: byte, body: seq<byte>): (wire: seq<byte>)
    requires |header| == HEADER_BODY && (mask == ACK || mask == NAK) && |body| <= BUFFER_SIZE
    ensures wire != []
  {
    Frame(ReplyHeader(header, mask, |body|), body)
  }

  /** A subtype with bit 7 set for an ACK or bit 6 for a NAK. */
  function Marked(subtype: byte, ack: bool): byte {
    if ack then if subtype < 0x80 then subtype + 0x80 else subtype
    else if subtype < 0x40 || 0x80 <= subtype < 0xC0 then subtype + 0x40 else subtype
  }

  /** A reply as the host sees it: the request's header with its subtype marked, and the length of the new body. */
  function Response(header: seq<byte>, ack: bool, body: seq<byte>): (wire: seq<byte>)
    requires |header| == HEADER_BODY && |body| <= BUFFER_SIZE
    ensures wire != []
  {
    Frame([header[0], header[1], header[2], Marked(header[3], ack), Lo(|body|), Hi(|body|)], body)
  }

  lemma AnswerIs(header: seq<byte>, mask: byte, body: seq<byte>)
    requires |header| == HEADER_BODY && (mask == ACK || mask == NAK) && |body| <= BUFFER_SIZE
    ensures Answer(header, mask, body) == Response(header, mask == ACK, body)
  {
    hide Frame, Lo, Hi;
    assert ReplyHeader(header, mask, |body|) ==
      [header[0], header[1], header[2], Marked(header[3], mask == ACK), Lo(|body|), Hi(|body|)];
  }

  lemma ReplySends(l: Link, header: seq<byte>, mask: byte, n: word) returns (todo: seq<byte>)
    requires |header| == HEADER_BODY && n <= BUFFER_SIZE && (mask == ACK || mask == NAK)
    ensures todo != [] && [START] + todo == Answer(header, mask, l.buffer[..n])
    ensures Reply(l, header, mask, n) == l.(mode := Sending(todo), sent := l.sent + [START])
  {
    hide Raw, Stuff, ReplyHeader, Word;
    var h := ReplyHeader(header, mask, n);
    var raw := Raw(h, l.buffer[..n]);
    todo := Stuff(raw);
    RawPieces(h, l.buffer[..n]);
    StuffedLength(raw);
  }

  /** The pilot as the dispatcher finds it: body in the buffer. */
  function Asked(l: Link, s: Schedule, body: seq<byte>): Link
    requires |body| <= BUFFER_SIZE
  {
    Ready(l, s.asking).(mode := Listening(Hunting), buffer := Overwrite(l.buffer, body))
  }

  /** The ring after both parts of an exchange. */
  function Waiting(l: Link, s: Schedule): seq<byte> {
    Left(Left(l.queue, s.asking), s.answering)
  }

  /** And the pilot once its reply is out. */
  function Answered(l: Link, s: Schedule, reply: seq<byte>): Link {
    Ready(l, s.answering).(mode := Listening(Hunting), sent := l.sent + reply, waiting := false)
  }

  /** Without a late write, sending the reply changes nothing else. */
  lemma AnsweredSettled(done: Link, s: Schedule, reply: seq<byte>)
    requires done.late.count == 0
    ensures Answered(done, s, reply) == done.(mode := Listening(Hunting), queue := Left(done.queue, s.answering),
      sent := done.sent + reply, waiting := false)
  {
    hide Left, Trickle, TrickleTimes;
    AgedSettled(done, Polls(s.answering));
  }

  lemma ReplyDrained(c: Config, l: Link, s: Schedule, header: seq<byte>, mask: byte, n: word, reply: seq<byte>)
    requires ValidConfig(c) && |header| == HEADER_BODY && n <= BUFFER_SIZE && (mask == ACK || mask == NAK)
    requires reply == Answer(header, mask, l.buffer[..n]) && Drains(s.answering, |reply| - 1)
    requires l.queued.None? || (l.waiting && EndsBusy(s.answering))
    ensures Run(c, Reply(l, header, mask, n), s.answering) == Answered(l, s, reply)
  {
    hide Run, Reply, Answer, TrickleTimes, Polls, Drains;
    var todo := ReplySends(l, header, mask, n);
    Drained(c, Reply(l, header, mask, n), todo, s.answering);
    assert l.sent + [START] + todo == l.sent + ([START] + todo);
  }

  /** A request that is answered: the host sees exactly one frame, and the pilot listens again. */
  lemma Exchange(c: Config, l: Link, rx: Rx, s: Schedule, header: seq<byte>, body: seq<byte>,
                 done: Link, mask: byte, n: word, reply: seq<byte>)
    requires ValidConfig(c) && WellFormed(header, body) && n <= BUFFER_SIZE && (mask == ACK || mask == NAK)
    requires Dispatch(c, Asked(l, s, body), header) == Reply(done, header, mask, n)
    requires reply == Answer(header, mask, done.buffer[..n])
    requires l.mode == Listening(rx) && !rx.Overlong? && l.queued.None?
    requires Fits(l, s, Frame(header, body), reply)
    requires done.queued.None? || (done.waiting && EndsBusy(s.answering))
    ensures Run(c, l, Whole(s)) == Answered(done, s, reply)
    ensures reply == Response(header, mask == ACK, done.buffer[..n])
  {
    hide Dispatch, Run, Hears, Reply, Answer, Answered, Frame, Aged, Polls, Overwrite, Response;
    AnswerIs(header, mask, done.buffer[..n]);
    ReceiveFrame(c, l, rx, s.asking, header, body);
    RunConcat(c, l, s.asking, s.answering);
    ReplyDrained(c, done, s, header, mask, n, reply);
  }

  // ----- damaged frames -----

  lemma {:induction false} ConsumeQuietly(c: Config, l: Link, rx: Rx, wire: seq<byte>)
    requires ValidConfig(c) && l.mode == Listening(rx) && !rx.Overlong?
    requires Feed(rx, wire).got == [] && !Feed(rx, wire).rx.Overlong?
    ensures var l' := Consume(c, l, wire);
      l' == l.(mode := Listening(Feed(rx, wire).rx), buffer := l'.buffer)
    decreases |wire|
  {
    hide Listen, Hear, Landed;
    if wire == [] {
    } else {
      FeedQuietly(rx, wire);
      ListenQuietly(c, l, rx, wire[0]);
      ConsumeQuietly(c, Listen(c, l, rx, wire[0]), Hear(rx, wire[0]).rx, wire[1..]);
    }
  }

  /** Whatever the receiver makes no packet of has no effect, on any schedule: nothing stored, sent or queued. */
  lemma NoPacketNoEffect(c: Config, l: Link, rx: Rx, events: seq<Event>, wire: seq<byte>)
    requires ValidConfig(c) && l.mode == Listening(rx) && !rx.Overlong? && l.queued.None?
    requires Feed(rx, wire).got == [] && !Feed(rx, wire).rx.Overlong?
    requires Hears(l.queue, events, wire)
    ensures var l' := Run(c, l, events);
      l' == Ready(l, events).(mode := Listening(Feed(rx, wire).rx), buffer := l'.buffer)
  {
    if wire == [] {
      ReadyNow(l);
    } else {
      var front, last := wire[..|wire| - 1], wire[|wire| - 1..];
      assert wire == front + last;
      FeedConcat(rx, front, last);
      if Feed(rx, front).rx.Overlong? {
        OverlongStays(last);
      }
      hide Run, Feed, Hears, Consume, TrickleTimes;
      Received(c, l, rx, events, wire);
      ConsumeQuietly(c, Ready(l, events), rx, wire);
    }
  }

  /** A frame damaged in one byte, by more than a multiple of 255, leaves the pilot listening and nothing else. */
  lemma DamagedFrameHasNoEffect(c: Config, l: Link, rx: Rx, events: seq<Event>,
                                header: seq<byte>, body: seq<byte>, i: nat, x: byte)
    requires ValidConfig(c) && l.mode == Listening(rx) && !rx.Overlong? && l.queued.None?
    requires WellFormed(header, body) && i < |Raw(header, body)| && x % 0xFF != Raw(header, body)[i] % 0xFF
    requires Hears(l.queue, events, [START] + Stuff(Raw(header, body)[i := x]))
    ensures var l' := Run(c, l, events);
      l' == Ready(l, events).(mode := Listening(Hunting), buffer := l'.buffer)
  {
    hide Run, Hears, Stuff, Raw, Feed, Ready;
    ReplacementRejected(rx, header, body, i, x);
    NoPacketNoEffect(c, l, rx, events, [START] + Stuff(Raw(header, body)[i := x]));
  }

  // ----- a WRITE read back -----

  function Counted(n: word, address: seq<byte>): (s: seq<byte>)
    requires |address| == 4
    ensures |s| == READACK_HEADER
  {
    [Lo(n), Hi(n)] + address
  }

  predicate System(header: seq<byte>, subtype: byte, body: seq<byte>) {
    WellFormed(header, body) && header[2] == TYPE_SYSTEM && header[3] == subtype
  }

  /** A WRITE as a host composes it; nothing makes its count agree with the length of its data. */
  datatype Write = Write(header: seq<byte>, n: word, address: seq<byte>, data: seq<byte>) {
    predicate Sound() {
      && |address| == 4 && |data| <= BUFFER_SIZE - WRITE_HEADER
      && System(header, SYSTEM_WRITE, [PHYSICAL] + Counted(n, address) + data)
    }

    function Body(): (s: seq<byte>)
      requires Sound()
      ensures |s| == WRITE_HEADER + |data| && WellFormed(header, s)
    {
      [PHYSICAL] + Counted(n, address) + data
    }

    function At(): long
      requires Sound()
    {
      Long(address)
    }

    function Ack(): (wire: seq<byte>)
      requires Sound()
      ensures wire != []
    {
      Response(header, true, [])
    }
  }

  datatype Read = Read(header: seq<byte>, n: word, address: seq<byte>) {
    predicate Sound() {
      |address| == 4 && System(header, SYSTEM_READ, [PHYSICAL] + Counted(n, address))
    }

    function Body(): (s: seq<byte>)
      requires Sound()
      ensures |s| == WRITE_HEADER && WellFormed(header, s)
    {
      [PHYSICAL] + Counted(n, address)
    }

    function At(): long
      requires Sound()
    {
      Long(address)
    }

    function Reply(cells: seq<byte>): (wire: seq<byte>)
      requires Sound() && |cells| == n && n + READACK_HEADER <= BUFFER_SIZE
      ensures wire != []
    {
      Response(header, true, Counted(n, address) + cells)
    }
  }

  /** The counts for which the copy behind a WRITE or a READ stays in the packet buffer. */
  predicate Fitting(n: word, fields: nat) {
    0 < n && n + fields <= BUFFER_SIZE
  }

  /** The fields a handler finds in the buffer are those the host put into the request. */
  lemma FieldsArrive(buffer: Buffer, n: word, address: seq<byte>, data: seq<byte>)
    requires |address| == 4 && |data| <= BUFFER_SIZE - WRITE_HEADER
    ensures var b := Overwrite(buffer, [PHYSICAL] + Counted(n, address) + data);
      && b[0] == PHYSICAL && Count(b) == n && b[3..7] == address && Address(b) == Long(address)
      && [b[1], b[2]] == [Lo(n), Hi(n)]
      && forall k :: 0 <= k <= |data| ==> WriteData(b, k) == data[..k]
  {
    WordOfHalves(n);
    hide Lo, Hi, Long;
    var b := Overwrite(buffer, [PHYSICAL] + Counted(n, address) + data);
    assert b[3..7] == address;
    assert b[WRITE_HEADER..WRITE_HEADER + |data|] == data;
    forall k | 0 <= k <= |data| ensures WriteData(b, k) == data[..k] {
      assert b[WRITE_HEADER..WRITE_HEADER + k] == data[..k];
    }
  }

  lemma ReadFieldsArrive(buffer: Buffer, n: word, address: seq<byte>)
    requires |address| == 4
    ensures var b := Overwrite(buffer, [PHYSICAL] + Counted(n, address));
      && b[0] == PHYSICAL && Count(b) == n && b[3..7] == address && Address(b) == Long(address)
      && [b[1], b[2]] == [Lo(n), Hi(n)]
  {
    assert [PHYSICAL] + Counted(n, address) + [] == [PHYSICAL] + Counted(n, address);
    FieldsArrive(buffer, n, address, []);
  }

  // ----- which counts stay in the packet buffer -----

  /** A READ is answered exactly for these counts, and leaves the packet buffer for all others. */
  lemma ReadStays(c: Config, l: Link, rx: Rx, events: seq<Event>, r: Read)
    requires ValidConfig(c) && l.mode == Listening(rx) && !rx.Overlong? && l.queued.None? && r.Sound()
    requires Hears(l.queue, events, Frame(r.header, r.Body()))
    ensures Run(c, l, events).mode.Beyond? <==> !Fitting(r.n, READACK_HEADER)
    ensures Run(c, l, events).mode.Sending? <==> Fitting(r.n, READACK_HEADER)
  {
    hide Run, Hears, Frame, Long, Lo, Hi, Word, Overwrite, Fetch, TrickleTimes, Passes, Stuff, Raw;
    ReceiveFrame(c, l, rx, events, r.header, r.Body());
    ReadFieldsArrive(l.buffer, r.n, r.address);
    PassesOf(r.n);
  }

  /** So does a WRITE that is copied, whatever its count says about the data it brings. */
  lemma WriteStays(c: Config, l: Link, rx: Rx, events: seq<Event>, w: Write)
    requires ValidConfig(c) && l.mode == Listening(rx) && !rx.Overlong? && l.queued.None? && w.Sound()
    requires TargetOf(c, w.At()).Ram? && Hears(l.queue, events, Frame(w.header, w.Body()))
    ensures Run(c, l, events).mode.Beyond? <==> !Fitting(w.n, WRITE_HEADER)
    ensures Run(c, l, events).mode.Sending? <==> Fitting(w.n, WRITE_HEADER)
  {
    hide Run, Hears, Frame, Long, Lo, Hi, Word, Overwrite, Copied, TargetOf, TrickleTimes, Passes, Stuff, Raw;
    ReceiveFrame(c, l, rx, events, w.header, w.Body());
    FieldsArrive(l.buffer, w.n, w.address, w.data);
    PassesOf(w.n);
  }

  // ----- the two exchanges -----

  predicate Takes(c: Config, w: Write)
    requires w.Sound()
  {
    Fitting(w.n, WRITE_HEADER) && !TargetOf(c, w.At()).Refused?
  }

  /** What an accepted WRITE of `n` bytes to `a` leaves in the pilot, out of the packet buffer as it is. */
  function Stored(c: Config, l: Link, a: long, n: word): (l': Link)
    requires n + WRITE_HEADER <= BUFFER_SIZE && !TargetOf(c, a).Refused?
  {
    match TargetOf(c, a)
    case Ram(at) => l.(late := NOTHING_LATE, mem := Copied(l.mem, at, WriteData(l.buffer, n)))
    case Flash(at) => Launch(c.wide, l.(late := NOTHING_LATE), at, WriteData(l.buffer, FlashCount(c.wide, n)))
  }

  lemma StoredKeeps(c: Config, l: Link, a: long, n: word)
    requires n + WRITE_HEADER <= BUFFER_SIZE && !TargetOf(c, a).Refused?
    ensures var l' := Stored(c, l, a, n);
      l'.(mem := l.mem, log := l.log, late := l.late) == l
  {
    hide TargetOf, Copied, Program;
  }

  lemma WriteAnswered(c: Config, l: Link, w: Write)
    requires ValidConfig(c) && w.Sound() && Takes(c, w)
    ensures var asked := l.(buffer := Overwrite(l.buffer, w.Body()));
      Dispatch(c, asked, w.header) == Reply(Stored(c, asked, w.At(), w.n), w.header, ACK, 0)
  {
    hide TargetOf, Copied, Launch, Long, Lo, Hi, Overwrite, Word, Reply, Passes, FlashCount;
    FieldsArrive(l.buffer, w.n, w.address, w.data);
    PassesOf(w.n);
  }

  lemma AckIs(w: Write)
    requires w.Sound()
    ensures w.Ack() == Answer(w.header, ACK, [])
  {
    AnswerIs(w.header, ACK, []);
  }

  /** The pilot after a WRITE it accepted. */
  function Written(c: Config, l: Link, s: Schedule, w: Write): Link
    requires w.Sound() && Takes(c, w)
  {
    Answered(Stored(c, Asked(l, s, w.Body()), w.At(), w.n), s, w.Ack())
  }

  /** A WRITE that fits and is not refused is acknowledged, and stored as `Stored` says. */
  lemma WriteExchange(c: Config, l: Link, rx: Rx, s: Schedule, w: Write)
    requires ValidConfig(c) && w.Sound() && Takes(c, w)
    requires l.mode == Listening(rx) && !rx.Overlong? && l.queued.None?
    requires Fits(l, s, Frame(w.header, w.Body()), w.Ack())
    ensures Run(c, l, Whole(s)) == Written(c, l, s, w)
  {
    hide Run, Fits, Frame, Answer, Answered, TrickleTimes, Dispatch, Reply, Overwrite, TargetOf, Long, Polls,
      Word, Stored, Write.Sound, Response;
    var asked := Asked(l, s, w.Body());
    AckIs(w);
    WriteAnswered(c, Ready(l, s.asking).(mode := Listening(Hunting)), w);
    var done := Stored(c, asked, w.At(), w.n);
    StoredKeeps(c, asked, w.At(), w.n);
    assert done.buffer[..0] == [];
    Exchange(c, l, rx, s, w.header, w.Body(), done, ACK, 0, w.Ack());
  }

  lemma ReadAnswered(c: Config, l: Link, r: Read)
    requires ValidConfig(c) && r.Sound() && Fitting(r.n, READACK_HEADER)
    ensures var b := Overwrite(l.buffer, r.Body());
      var reply := Counted(r.n, r.address) + Fetch(l.mem, r.At(), r.n);
      Dispatch(c, l.(buffer := b), r.header) ==
        Reply(l.(late := NOTHING_LATE, buffer := Overwrite(b, reply)), r.header, ACK, r.n + READACK_HEADER)
  {
    hide Fetch, Long, Lo, Hi, Overwrite, Word, Reply, Passes;
    ReadFieldsArrive(l.buffer, r.n, r.address);
    PassesOf(r.n);
  }

  lemma OverwriteFront(buffer: Buffer, s: seq<byte>)
    requires |s| <= BUFFER_SIZE
    ensures Overwrite(buffer, s)[..|s|] == s
  {
  }

  /** The pilot with the answer to a READ in its packet buffer. */
  function ReadDone(l: Link, s: Schedule, r: Read): Link
    requires r.Sound() && Fitting(r.n, READACK_HEADER)
  {
    var asked := Asked(l, s, r.Body());
    asked.(late := NOTHING_LATE,
           buffer := Overwrite(asked.buffer, Counted(r.n, r.address) + Fetch(asked.mem, r.At(), r.n)))
  }

  lemma ReadSent(c: Config, l: Link, rx: Rx, s: Schedule, r: Read, reply: seq<byte>)
    requires ValidConfig(c) && r.Sound() && Fitting(r.n, READACK_HEADER)
    requires l.mode == Listening(rx) && !rx.Overlong? && l.queued.None?
    requires reply == r.Reply(Fetch(Ready(l, s.asking).mem, r.At(), r.n))
    requires Fits(l, s, Frame(r.header, r.Body()), reply)
    ensures Run(c, l, Whole(s)) == Answered(ReadDone(l, s, r), s, reply)
  {
    hide Run, Fits, Frame, Answer, TrickleTimes, Dispatch, Reply, Long, Fetch, Counted, Polls, Word, Overwrite, Left,
      Answered, Whole, Response, Read.Body;
    var asked := Asked(l, s, r.Body());
    ReadAnswered(c, Ready(l, s.asking).(mode := Listening(Hunting)), r);
    var content := Counted(r.n, r.address) + Fetch(asked.mem, r.At(), r.n);
    OverwriteFront(asked.buffer, content);
    AnswerIs(r.header, ACK, content);
    Exchange(c, l, rx, s, r.header, r.Body(), ReadDone(l, s, r), ACK, r.n + READACK_HEADER, reply);
  }

  /** A READ is answered with its count, its address and the bytes there. */
  lemma ReadExchange(c: Config, l: Link, rx: Rx, s: Schedule, r: Read)
    requires ValidConfig(c) && r.Sound() && Fitting(r.n, READACK_HEADER)
    requires l.mode == Listening(rx) && !rx.Overlong? && l.queued.None?
    requires Fits(l, s, Frame(r.header, r.Body()), r.Reply(Fetch(Ready(l, s.asking).mem, r.At(), r.n)))
    ensures var asked, after := Ready(l, s.asking), Run(c, l, Whole(s));
      after == asked.(late := NOTHING_LATE, mode := Listening(Hunting), buffer := after.buffer, queue := Waiting(l, s),
                      sent := l.sent + r.Reply(Fetch(asked.mem, r.At(), r.n)), waiting := false)
  {
    hide Run, Fits, Frame, TrickleTimes, Fetch, Counted, Polls, Overwrite, Left, Answered, Whole, Read.Body, Read.Reply,
      Read.Sound;
    var reply := r.Reply(Fetch(Ready(l, s.asking).mem, r.At(), r.n));
    ReadSent(c, l, rx, s, r, reply);
    AnsweredSettled(ReadDone(l, s, r), s, reply);
  }

  // ----- what a WRITE changes -----

  /** The low three bytes of an address; the two low bits of the fourth are flags. */
  function Low(address: seq<byte>): nat
    requires |address| == 4
  {
    address[0] as int + 0x100 * address[1] as int + 0x1_0000 * address[2] as int
  }

  predicate ToFlash(w: Write)
    requires w.Sound()
  {
    w.address[3] % 4 == 2
  }

  /**
   * The cells from `a` are those this WRITE is for. Flags 0: RAM, at the address itself, if no flash cells are
   * there. Flags 2: flash, which begins at 0x80_0000, and on word-wide flash an even address. Otherwise fast RAM,
   * which word-wide pilots do not have: the first device in bank 2, from its 0x80_0000 up to its size, and the
   * second in bank 3, from its 0xC0_0000, for the addresses from there up to its own.
   */
  predicate LandsAt(c: Config, w: Write, a: int)
    requires w.Sound()
  {
    var o := Low(w.address);
    match w.address[3] % 4
    case 0 => a == Long(w.address) && (a + w.n <= 0x80_0000 || a >= 0x100_0000)
    case 2 => a == 0x80_0000 + o && (c.wide ==> o % 2 == 0)
    case _ =>
      && !c.wide && (o < c.fast1 || o < c.fast2)
      && a == FAST_BANK + o + if o < c.fast1 then 0x80_0000 else 0xC0_0000
  }

  lemma TargetIs(c: Config, w: Write, a: int)
    requires w.Sound() && LandsAt(c, w, a)
    ensures TargetOf(c, w.At()) == if ToFlash(w) then Flash(a) else Ram(a)
    ensures !ToFlash(w) ==> forall i :: a <= i < a + w.n ==> !IsFlash(i)
  {
    hide Long, Lo, Hi;
    AddressParts(w.address);
  }

  /** The cells a WRITE takes, the padding of word-wide flash included. */
  function Extent(c: Config, w: Write): nat
    requires w.Sound()
  {
    if ToFlash(w) && c.wide && w.n % 2 == 1 then w.n + 1 else w.n
  }

  /** From `m` to `m'` the cells at `a` took `data`, and the others but for `extent` from `a` stayed. */
  ghost predicate Altered(m: Memory, m': Memory, a: int, data: seq<byte>, extent: nat) {
    && (forall i :: a <= i < a + |data| ==> Peek(m', i) == data[i - a])
    && (forall i :: !(a <= i < a + extent) ==> Peek(m', i) == Peek(m, i))
  }

  lemma StoreAlters(m: Memory, a: int, data: seq<byte>, stored: seq<byte>)
    requires data <= stored
    ensures Altered(m, Store(m, a, stored), a, data, |stored|)
  {
    hide Store, Peek;
    forall i ensures Peek(Store(m, a, stored), i) == if a <= i < a + |stored| then stored[i - a] else Peek(m, i) {
      PeekStored(m, a, stored, i);
    }
  }

  lemma CopyAlters(m: Memory, a: int, data: seq<byte>)
    requires forall i :: a <= i < a + |data| ==> !IsFlash(i)
    ensures Altered(m, Copied(m, a, data), a, data, |data|)
  {
    hide Copied, Peek;
    forall i ensures Peek(Copied(m, a, data), i) == if a <= i < a + |data| then data[i - a] else Peek(m, i) {
      PeekCopied(m, a, data, i);
    }
  }

  lemma {:induction false} FetchAltered(m: Memory, m': Memory, a: int, data: seq<byte>, extent: nat, n: nat)
    requires Altered(m, m', a, data, extent) && n <= |data|
    ensures Fetch(m', a, n) == data[..n]
  {
    if n == 0 {
    } else {
      FetchAltered(m, m', a, data, extent, n - 1);
      assert data[..n] == data[..n - 1] + [data[n - 1]];
    }
  }

  /** Flash sees one operation for each byte of a flash write and of its padding, and none for a RAM write. */
  lemma StoredAlters(c: Config, l: Link, w: Write, a: int)
    requires w.Sound() && Fitting(w.n, WRITE_HEADER) && LandsAt(c, w, a)
    ensures Takes(c, w)
    ensures var l' := Stored(c, l, w.At(), w.n);
      && l'.late == NOTHING_LATE
      && Altered(l.mem, l'.mem, a, WriteData(l.buffer, w.n), Extent(c, w))
      && l'.log == l.log + if ToFlash(w) then Cells(a, WriteData(l.buffer, Extent(c, w))) else []
  {
    TargetIs(c, w, a);
    EvenAddress(c, w, a);
    hide TargetOf, Store, Copied, Peek, LandsAt, Write.Sound, Altered, ToFlash, Program;
    if ToFlash(w) {
      FlashAlters(c, l, w, a);
    } else {
      CopyAlters(l.mem, a, WriteData(l.buffer, w.n));
    }
  }

  lemma FlashAlters(c: Config, l: Link, w: Write, a: int)
    requires w.Sound() && Fitting(w.n, WRITE_HEADER) && ToFlash(w)
    ensures Extent(c, w) == FlashCount(c.wide, w.n)
    ensures var d := Program(Device(l.mem, l.log), a, WriteData(l.buffer, Extent(c, w)));
      && Altered(l.mem, d.mem, a, WriteData(l.buffer, w.n), Extent(c, w))
      && d.log == l.log + Cells(a, WriteData(l.buffer, Extent(c, w)))
  {
    hide Store, Peek, Altered, Write.Sound;
    var stored := WriteData(l.buffer, FlashCount(c.wide, w.n));
    assert stored[..w.n] == l.buffer[WRITE_HEADER..WRITE_HEADER + w.n];
    StoreAlters(l.mem, a, WriteData(l.buffer, w.n), stored);
  }

  lemma EvenAddress(c: Config, w: Write, a: int)
    requires w.Sound() && LandsAt(c, w, a)
    ensures ToFlash(w) && c.wide ==> a % 2 == 0
  {
  }

  /** What is stored: the data, and if the count says more than that, what the packet buffer held behind it. */
  function Content(l: Link, w: Write): (s: seq<byte>)
    requires w.Sound() && Fitting(w.n, WRITE_HEADER)
    ensures |s| == w.n
  {
    WriteData(Overwrite(l.buffer, w.Body()), w.n)
  }

  lemma ContentIsData(l: Link, w: Write)
    requires w.Sound() && Fitting(w.n, WRITE_HEADER) && w.n <= |w.data|
    ensures Content(l, w) == w.data[..w.n]
  {
    FieldsArrive(l.buffer, w.n, w.address, w.data);
  }

  /** A WRITE and a READ of the same cells, and as many. */
  predicate SamePlace(c: Config, w: Write, r: Read) {
    w.Sound() && r.Sound() && w.n == r.n && Fitting(w.n, WRITE_HEADER) && LandsAt(c, w, Long(r.address))
  }

  /** The cells hold what was stored, nothing else changed in memory but padding, and the WRITE is acknowledged. */
  ghost predicate IsWritten(c: Config, l: Link, s: Schedule, w: Write, a: int, written: Link) {
    && w.Sound() && Fitting(w.n, WRITE_HEADER)
    && (var asked := Ready(l, s.asking);
        && Altered(asked.mem, written.mem, a, Content(l, w), Extent(c, w))
        && written == asked.(mode := Listening(Hunting), buffer := written.buffer, queue := Waiting(l, s),
             mem := written.mem, log := written.log, late := NOTHING_LATE, sent := l.sent + w.Ack(), waiting := false))
  }

  /** A WRITE changes the cells it is for. */
  lemma WriteAlters(c: Config, l: Link, rx: Rx, s: Schedule, w: Write, a: int)
    requires ValidConfig(c) && w.Sound() && Fitting(w.n, WRITE_HEADER) && LandsAt(c, w, a)
    requires l.mode == Listening(rx) && !rx.Overlong? && l.queued.None?
    requires Fits(l, s, Frame(w.header, w.Body()), w.Ack())
    ensures IsWritten(c, l, s, w, a, Run(c, l, Whole(s)))
  {
    hide Run, Fits, Frame, Write.Ack, Write.At, Write.Body, Peek, Overwrite, TrickleTimes, Polls, TargetOf, Stored,
      Whole, Extent, Altered, LandsAt;
    var asked := Asked(l, s, w.Body());
    StoredAlters(c, asked, w, a);
    WriteExchange(c, l, rx, s, w);
    StoredKeeps(c, asked, w.At(), w.n);
    AgedSettled(Stored(c, asked, w.At(), w.n), Polls(s.answering));
  }

  /** Schedules for a WRITE and then a READ of the same cells. */
  predicate Conversation(c: Config, l: Link, first: Schedule, second: Schedule, w: Write, r: Read) {
    && SamePlace(c, w, r)
    && Fits(l, first, Frame(w.header, w.Body()), w.Ack())
    && Fits(l.(queue := Waiting(l, first)), second, Frame(r.header, r.Body()), r.Reply(Content(l, w)))
  }

  /** The READ's reply brings what the WRITE stored, and the READ itself changed no memory. */
  predicate ReadsBack(l: Link, written: Link, after: Link, second: Schedule, w: Write, r: Read) {
    && w.Sound() && r.Sound() && w.n == r.n && Fitting(w.n, WRITE_HEADER)
    && after.mode == Listening(Hunting) && after.queue == Waiting(written, second)
    && after.mem == written.mem && after.log == written.log
    && after.sent == l.sent + w.Ack() + r.Reply(Content(l, w))
  }

  /** What a WRITE stored is what a READ of the same place sends back, on any schedule. */
  lemma WriteThenRead(c: Config, l: Link, rx: Rx, first: Schedule, second: Schedule, w: Write, r: Read)
    requires ValidConfig(c) && Conversation(c, l, first, second, w, r)
    requires l.mode == Listening(rx) && !rx.Overlong? && l.queued.None?
    ensures IsWritten(c, l, first, w, Long(r.address), Run(c, l, Whole(first)))
    ensures ReadsBack(l, Run(c, l, Whole(first)), Run(c, Run(c, l, Whole(first)), Whole(second)), second, w, r)
  {
    hide Run, Fits, Frame, Write.Ack, Write.Body, Read.Body, Read.Reply, Peek, Fetch, Overwrite, TrickleTimes, Polls,
      TargetOf, Whole, Extent, Altered, Content, LandsAt;
    WriteAlters(c, l, rx, first, w, Long(r.address));
    var written := Run(c, l, Whole(first));
    var cells := Content(l, w);
    AgedSettled(written, Polls(second.asking));
    FetchAltered(Ready(l, first.asking).mem, written.mem, r.At(), cells, Extent(c, w), w.n);
    assert cells[..w.n] == cells;
    FitsQueue(l.(queue := Waiting(l, first)), written, second, Frame(r.header, r.Body()), r.Reply(cells));
    ReadExchange(c, written, Hunting, second, r);
  }

  lemma FitsQueue(l: Link, l': Link, s: Schedule, request: seq<byte>, reply: seq<byte>)
    requires l.queue == l'.queue
    ensures Fits(l, s, request, reply) == Fits(l', s, request, reply)
  {
  }
}
