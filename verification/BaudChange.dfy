/** When the baud rate changes: in every run, only after the acknowledgement is completely out, and then it does. */
module BaudChange {
  import opened Bytes
  import opened Framing
  import opened Memory
  import opened Link
  import opened Sessions
  import Requests

  /** Reply progress and baud rate variables as every run keeps them. */
  predicate Tidy(l: Link) {
    && (l.mode.Sending? ==> l.mode.todo != [])
    && (l.waiting ==> l.queued.Some? && l.mode.Sending?)
  }

  /** What is or will be sent of the reply in transmission. */
  function Due(l: Link): seq<byte> {
    if l.mode.Sending? then l.sent + l.mode.todo else l.sent
  }

  /** In this step a SETBAUDRATE was heard, its divider `d` queued, and its reply, an ACK, begun. */
  ghost predicate Granted(c: Config, before: Link, after: Link, header: seq<byte>, ack: seq<byte>, d: byte) {
    && before.mode.Listening? && before.queue != []
    && (var got := Hear(before.mode.rx, before.queue[0]).got; got.Some? && got.value.header == header)
    && |header| == HEADER_BODY && header[2] == TYPE_SYSTEM && header[3] == SYSTEM_SETBAUDRATE
    && DividerFor(c, Long(after.buffer[..4])) == Some(d)
    && after.queued == Some(d) && after.waiting && after.mode.Sending?
    && ack == Answer(header, ACK, []) && Due(after) == before.sent + ack
  }

  /** `after` began a reply and changed nothing else the baud rate depends on. */
  predicate Begun(before: Link, after: Link) {
    && after.mode.Sending? && after.mode.todo != [] && before.sent <= after.sent
    && after.queued == before.queued && after.waiting == before.waiting && after.timer == before.timer
  }

  lemma ReplyBegins(l: Link, h: seq<byte>, mask: byte, n: word)
    requires |h| == HEADER_BODY && n <= BUFFER_SIZE && (mask == ACK || mask == NAK)
    ensures var l' := Reply(l, h, mask, n);
      Begun(l, l') && l'.buffer == l.buffer && Due(l') == l.sent + Answer(h, mask, l.buffer[..n])
  {
    hide Reply, Answer;
    var todo := ReplySends(l, h, mask, n);
    assert l.sent + [START] + todo == l.sent + ([START] + todo);
  }

  /** Only an accepted SETBAUDRATE touches the baud rate variables. */
  lemma DispatchBaud(c: Config, l: Link, h: seq<byte>)
    requires ValidConfig(c) && |h| == HEADER_BODY && Word(h[4], h[5]) <= BUFFER_SIZE
    requires !l.waiting && !l.mode.Sending?
    ensures var l' := Dispatch(c, l, h);
      && Tidy(l') && l'.timer == l.timer && l.sent <= l'.sent
      && if l'.waiting then
           && h[2] == TYPE_SYSTEM && h[3] == SYSTEM_SETBAUDRATE
           && l'.queued == DividerFor(c, Long(l'.buffer[..4]))
           && Due(l') == l.sent + Answer(h, ACK, [])
         else l'.queued == l.queued
  {
    hide Word, Long, Lo, Hi, Reply, DividerFor, Answer, TargetOf, Program, Copied, Fetch, Erase, EraseEnd, Due,
      Overwrite, Count, Passes, FlashCount;
    forall b: Link, mask: byte, n: word | n <= BUFFER_SIZE && (mask == ACK || mask == NAK)
      ensures Begun(b, Reply(b, h, mask, n))
    {
      ReplyBegins(b, h, mask, n);
    }
    PassesOf(Count(l.buffer));
    if h[2] == TYPE_SYSTEM && h[3] == SYSTEM_SETBAUDRATE && DividerFor(c, Long(l.buffer[..4])).Some? {
      var granted := l.(late := NOTHING_LATE, queued := DividerFor(c, Long(l.buffer[..4])), waiting := true);
      ReplyBegins(granted, h, ACK, 0);
      assert granted.buffer[..0] == [];
    }
  }

  /** What is certain to be sent before the baud rate changes. */
  function Secured(l: Link): seq<byte> {
    if l.waiting then Due(l) else l.sent
  }

  /** The request a turn grants, if it grants one. */
  ghost predicate GrantedSome(c: Config, before: Link, after: Link) {
    after.queued.Some? && exists header, ack :: Granted(c, before, after, header, ack, after.queued.value)
  }

  /** How a turn moves the baud rate variables along, short of the change itself. */
  ghost predicate Served(c: Config, l: Link, l': Link) {
    && Tidy(l') && l'.timer == l.timer && Secured(l) <= Secured(l')
    && (if !l.waiting && l'.waiting then GrantedSome(c, l, l') else l'.queued == l.queued)
  }

  lemma ListenBaud(c: Config, l: Link, rx: Rx, b: byte)
    requires ValidConfig(c) && Tidy(l) && l.mode == Listening(rx)
    requires l.queue != [] && b == l.queue[0]
    ensures Served(c, l, Listen(c, Pumped(l).(queue := Pop(l.queue)), rx, b))
  {
    hide Word, Dispatch, Place, Judge, DividerFor, Answer, Long, Trickle;
    var d := Decoded(rx, b);
    if d.Some? {
      var heard := HearDecoded(rx.data + [d.value]);
      assert Hear(rx, b) == heard;
      HeardHeader(rx.data + [d.value]);
      if heard.got.Some? {
        var l' := Pumped(l).(queue := Pop(l.queue),
          buffer := Place(l.buffer, rx.data, d.value), mode := Listening(Hunting));
        var header := heard.got.value.header;
        DispatchBaud(c, l', header);
        var after := Dispatch(c, l', header);
        if after.waiting {
          assert Granted(c, l, after, header, Answer(header, ACK, []), after.queued.value);
        }
      }
    }
  }

  lemma ServeBaud(c: Config, l: Link, canSend: bool)
    requires ValidConfig(c) && Tidy(l)
    ensures Served(c, l, Serve(c, l, canSend))
  {
    hide Listen, GrantedSome, Trickle;
    match l.mode {
      case Listening(rx) =>
        if l.queue != [] {
          ListenBaud(c, l, rx, l.queue[0]);
        }
      case Sending(todo) =>
        if canSend {
          assert l.sent + todo == l.sent + todo[..1] + todo[1..];
        }
      case _ =>
    }
  }

  /** The state after the first `k` events. */
  function At(c: Config, start: Link, events: seq<Event>, k: nat): Link
    requires ValidConfig(c) && k <= |events|
  {
    Run(c, start, events[..k])
  }

  lemma AtNext(c: Config, start: Link, events: seq<Event>, k: nat)
    requires ValidConfig(c) && k < |events|
    ensures At(c, start, events, k + 1) == Step(c, At(c, start, events, k), events[k])
  {
    hide Step;
    var e := [events[k]];
    assert events[..k + 1] == events[..k] + e && e[1..] == [];
    RunConcat(c, start, events[..k], e);
    assert Run(c, Step(c, At(c, start, events, k), e[0]), e[1..]) == Step(c, At(c, start, events, k), e[0]);
  }

  lemma AtStart(c: Config, start: Link, events: seq<Event>)
    requires ValidConfig(c)
    ensures At(c, start, events, 0) == start
  {
  }

  lemma GrantedSecures(c: Config, before: Link, after: Link, header: seq<byte>, ack: seq<byte>, d: byte)
    requires Granted(c, before, after, header, ack, d)
    ensures before.sent + ack == Secured(after)
  {
    hide Answer, DividerFor;
  }

  /** A step that is not a baud rate change serves or only queues. */
  lemma StepBaud(c: Config, l: Link, e: Event)
    requires ValidConfig(c) && Tidy(l)
    ensures var l' := Step(c, l, e);
      || Served(c, l, l')
      || (&& e.Poll? && e.idle
          && (var served := Serve(c, l, e.canSend);
              && Served(c, l, served) && !served.waiting && served.queued.Some? && l' == Retune(served, true)
              && l'.timer == l.timer + [TimerWrite(served.queued.value, |served.sent|)]))
  {
    hide Serve, GrantedSome, Trickle;
    if Alive(l) && e.Poll? {
      ServeBaud(c, l, e.canSend);
    }
  }

  /** Nothing queued, nothing in transmission. */
  predicate Quiet(l: Link) {
    l.mode.Listening? && l.queued.None? && !l.waiting
  }

  lemma {:induction false} TidyAt(c: Config, start: Link, events: seq<Event>, k: nat)
    requires ValidConfig(c) && Quiet(start) && k <= |events|
    ensures Tidy(At(c, start, events, k))
  {
    hide Step, Serve;
    if k == 0 {
    } else {
      TidyAt(c, start, events, k - 1);
      AtNext(c, start, events, k - 1);
      StepBaud(c, At(c, start, events, k - 1), events[k - 1]);
    }
  }

  /** A queued divider was granted earlier, and its ACK is out unless the pilot still waits for it. */
  lemma {:induction false} GrantedBefore(c: Config, start: Link, events: seq<Event>, k: nat)
    returns (j: nat, header: seq<byte>, ack: seq<byte>)
    requires ValidConfig(c) && Quiet(start) && k <= |events|
    requires At(c, start, events, k).queued.Some?
    ensures j < k && At(c, start, events, j).sent + ack <= Secured(At(c, start, events, k))
    ensures Granted(c, At(c, start, events, j), At(c, start, events, j + 1),
      header, ack, At(c, start, events, k).queued.value)
  {
    hide Step, Serve, At, Answer, Granted;
    AtStart(c, start, events);
    var l, l' := At(c, start, events, k - 1), At(c, start, events, k);
    TidyAt(c, start, events, k - 1);
    AtNext(c, start, events, k - 1);
    StepBaud(c, l, events[k - 1]);
    assert Served(c, l, l');
    if !l.waiting && l'.waiting {
      j := k - 1;
      header, ack :| Granted(c, l, l', header, ack, l'.queued.value);
      GrantedSecures(c, l, l', header, ack, l'.queued.value);
    } else {
      j, header, ack := GrantedBefore(c, start, events, k - 1);
    }
  }

  /**
   * In every run, a write to the baud timer follows the grant of the divider it writes, the whole ACK
   * of that request and a turn that found the transmitter idle; and it leaves the link as at power-up.
   */
  lemma AckPrecedesBaudChange(c: Config, start: Link, events: seq<Event>, i: nat)
    returns (j: nat, header: seq<byte>, ack: seq<byte>, d: byte)
    requires ValidConfig(c) && Quiet(start) && i < |events|
    requires At(c, start, events, i + 1).timer != At(c, start, events, i).timer
    ensures j < i && At(c, start, events, j).sent + ack <= At(c, start, events, i + 1).sent
    ensures events[i].Poll? && events[i].idle
    ensures var after := At(c, start, events, i + 1);
      && after.timer == At(c, start, events, i).timer + [TimerWrite(d, |after.sent|)]
      && after.mode == Listening(Hunting) && after.queue == [] && Quiet(after)
    ensures Granted(c, At(c, start, events, j), At(c, start, events, j + 1), header, ack, d)
  {
    hide Step, Serve, At, Answer, Granted;
    var l, l' := At(c, start, events, i), At(c, start, events, i + 1);
    TidyAt(c, start, events, i);
    AtNext(c, start, events, i);
    StepBaud(c, l, events[i]);
    d := l.queued.value;
    j, header, ack := GrantedBefore(c, start, events, i);
  }

  // ----- and then it does -----

  /** From here on no SETBAUDRATE is granted, and the transmitter is never found idle. */
  ghost predicate Awaits(c: Config, start: Link, events: seq<Event>, n: nat)
    requires ValidConfig(c) && n <= |events|
  {
    forall k :: 0 <= k < n ==>
      && (events[k].Poll? ==> !events[k].idle)
      && !GrantedSome(c, At(c, start, events, k), At(c, start, events, k + 1))
  }

  /** A divider is queued, and its acknowledgement is out. */
  predicate Scheduled(l: Link, d: byte) {
    Tidy(l) && l.queued == Some(d) && !l.waiting
  }

  lemma BusyStep(c: Config, l: Link, e: Event, d: byte)
    requires ValidConfig(c) && Scheduled(l, d) && (e.Poll? ==> !e.idle)
    requires !GrantedSome(c, l, Step(c, l, e))
    ensures Scheduled(Step(c, l, e), d) && Step(c, l, e).timer == l.timer
  {
    StepBaud(c, l, e);
    hide Step, Serve, GrantedSome;
  }

  lemma {:induction false} StillQueued(c: Config, start: Link, events: seq<Event>, n: nat, d: byte)
    requires ValidConfig(c) && Scheduled(start, d) && n <= |events| && Awaits(c, start, events, n)
    ensures Scheduled(At(c, start, events, n), d) && At(c, start, events, n).timer == start.timer
  {
    hide Step, GrantedSome, Scheduled, At;
    if n == 0 {
      AtStart(c, start, events);
    } else {
      StillQueued(c, start, events, n - 1, d);
      AtNext(c, start, events, n - 1);
      BusyStep(c, At(c, start, events, n - 1), events[n - 1], d);
    }
  }

  /** What an idle turn does that grants nothing and after which the pilot is still in its loop. */
  lemma IdleStep(c: Config, l: Link, canSend: bool, d: byte)
    requires ValidConfig(c) && Scheduled(l, d)
    requires var l' := Step(c, l, Poll(canSend, true)); Alive(l') && !GrantedSome(c, l, l')
    ensures var l' := Step(c, l, Poll(canSend, true));
      && l'.timer == l.timer + [TimerWrite(d, |l'.sent|)]
      && l'.mode == Listening(Hunting) && l'.queue == [] && l'.queued.None? && !l'.waiting
  {
    hide Serve, GrantedSome, Trickle;
    if Alive(l) {
      ServeBaud(c, l, canSend);
    }
  }

  /**
   * A queued divider whose acknowledgement is out is written in the first turn that finds the transmitter idle,
   * unless another is granted first or the loop is left; the link is then as at power-up.
   */
  lemma QueuedIsWritten(c: Config, start: Link, events: seq<Event>, i: nat, d: byte)
    requires ValidConfig(c) && Scheduled(start, d) && i < |events| && Awaits(c, start, events, i)
    requires events[i].Poll? && events[i].idle
    requires var after := At(c, start, events, i + 1); Alive(after) && !GrantedSome(c, At(c, start, events, i), after)
    ensures At(c, start, events, i).timer == start.timer
    ensures var after := At(c, start, events, i + 1);
      && after.timer == start.timer + [TimerWrite(d, |after.sent|)]
      && after.mode == Listening(Hunting) && after.queue == [] && Quiet(after)
  {
    hide Step, GrantedSome, Scheduled, At;
    StillQueued(c, start, events, i, d);
    AtNext(c, start, events, i);
    IdleStep(c, At(c, start, events, i), events[i].canSend, d);
  }

  /** No SETBAUDRATE is granted. */
  ghost predicate GrantsNone(c: Config, start: Link, events: seq<Event>)
    requires ValidConfig(c)
  {
    forall k :: 0 <= k < |events| ==> !GrantedSome(c, At(c, start, events, k), At(c, start, events, k + 1))
  }

  /** And nothing is written again before another is granted. */
  lemma {:induction false} NothingWrittenAgain(c: Config, start: Link, events: seq<Event>, k: nat)
    requires ValidConfig(c) && Quiet(start) && GrantsNone(c, start, events) && k <= |events|
    ensures At(c, start, events, k).timer == start.timer && At(c, start, events, k).queued.None?
  {
    hide Step, GrantedSome, At, Served, Serve;
    if k == 0 {
      AtStart(c, start, events);
    } else {
      NothingWrittenAgain(c, start, events, k - 1);
      TidyAt(c, start, events, k - 1);
      AtNext(c, start, events, k - 1);
      QuietStep(c, At(c, start, events, k - 1), events[k - 1]);
    }
  }

  lemma QuietStep(c: Config, l: Link, e: Event)
    requires ValidConfig(c) && Tidy(l) && l.queued.None? && !GrantedSome(c, l, Step(c, l, e))
    ensures Step(c, l, e).timer == l.timer && Step(c, l, e).queued.None?
  {
    hide Serve, GrantedSome, Trickle;
    if Alive(l) && e.Poll? {
      ServeBaud(c, l, e.canSend);
    }
  }

  // ----- a whole SETBAUDRATE -----

  /** A SETBAUDRATE for a rate the pilot has the divider `d` for, and the reply it gets. */
  predicate Wants(c: Config, l: Link, rx: Rx, s: Schedule, header: seq<byte>, body: seq<byte>,
                  reply: seq<byte>, d: byte) {
    && |header| == HEADER_BODY && Requests.IsRequest(header, SYSTEM_SETBAUDRATE) && |body| <= BUFFER_SIZE
    && reply == Response(header, true, []) && Requests.Asks(c, l, rx, s, header, body, reply)
    && Requests.Chosen(c, Long(Overwrite(l.buffer, body)[..4]), d)
  }

  /** It is granted: acknowledged, and its divider queued. */
  lemma BaudRateGranted(c: Config, l: Link, rx: Rx, s: Schedule, header: seq<byte>, body: seq<byte>, reply: seq<byte>,
                        d: byte)
    requires ValidConfig(c) && |body| <= BUFFER_SIZE
    requires Wants(c, l, rx, s, header, body, reply, d) && EndsBusy(s.answering)
    ensures Run(c, l, Whole(s)) == Requests.Replied(Requests.Arrived(l, s.asking, body).(queued := Some(d)), s, reply)
  {
    hide Run, Reply, Response, Asked, Requests.Arrived, Fits, Whole, Requests.Replied, Word, DividerFor,
      Requests.Chosen, Long, Overwrite, Polls, Left;
    Requests.ArrivedIsAsked(l, s, body);
    Requests.ChosenIs(c, Long(Overwrite(l.buffer, body)[..4]), d);
    var arrived := Requests.Arrived(l, s.asking, body);
    var done := arrived.(queued := Some(d), waiting := true);
    assert arrived.buffer == Overwrite(l.buffer, body) by {
      BufferArrives(l, s.asking, body);
    }
    Requests.Replies(c, l, rx, s, header, body, done, true, []);
    RepliedAnyway(arrived.(queued := Some(d)), s, reply);
  }

  lemma BufferArrives(l: Link, events: seq<Event>, body: seq<byte>)
    requires |body| <= BUFFER_SIZE
    ensures Requests.Arrived(l, events, body).buffer == Overwrite(l.buffer, body)
  {
  }

  lemma RepliedAnyway(l: Link, s: Schedule, reply: seq<byte>)
    ensures Requests.Replied(l.(waiting := true), s, reply) == Requests.Replied(l, s, reply)
  {
  }

  /** The first idle turn after the reply, with no other SETBAUDRATE granted and the pilot in its loop. */
  ghost predicate FirstIdle(c: Config, done: Link, later: seq<Event>, i: nat)
    requires ValidConfig(c)
  {
    && i < |later| && later[i].Poll? && later[i].idle && Awaits(c, done, later, i)
    && Alive(At(c, done, later, i + 1))
    && !GrantedSome(c, At(c, done, later, i), At(c, done, later, i + 1))
  }

  /** The timer was written, once and with this divider, and the link is as at power-up. */
  predicate Changed(before: seq<TimerWrite>, after: Link, d: byte) {
    && after.timer == before + [TimerWrite(d, |after.sent|)]
    && after.mode == Listening(Hunting) && after.queue == [] && Quiet(after)
  }

  /** Up to turn `i` nothing was written, and then the timer was. */
  ghost predicate ChangesAt(c: Config, l: Link, later: seq<Event>, i: nat, before: seq<TimerWrite>, d: byte)
    requires ValidConfig(c)
  {
    i < |later| && At(c, l, later, i).timer == before && Changed(before, At(c, l, later, i + 1), d)
  }

  /**
   * So a SETBAUDRATE takes effect: nothing is written until its reply is out and a turn finds the transmitter idle,
   * and then the timer is, once, with the divider for the rate.
   */
  lemma BaudRateTakesEffect(c: Config, l: Link, rx: Rx, s: Schedule, header: seq<byte>, body: seq<byte>,
                            reply: seq<byte>, d: byte, done: Link, later: seq<Event>, i: nat)
    requires ValidConfig(c) && |body| <= BUFFER_SIZE && done == Run(c, l, Whole(s))
    requires Wants(c, l, rx, s, header, body, reply, d) && EndsBusy(s.answering)
    requires FirstIdle(c, done, later, i)
    ensures done.sent == l.sent + reply && done.timer == l.timer && ChangesAt(c, done, later, i, l.timer, d)
  {
    hide Run, Whole, Wants, At, GrantedSome, Awaits, Requests.Arrived, Requests.Replied, Scheduled;
    BaudRateGranted(c, l, rx, s, header, body, reply, d);
    GrantedScheduled(l, s, body, d, reply);
    QueuedIsWritten(c, done, later, i, d);
  }

  lemma GrantedScheduled(l: Link, s: Schedule, body: seq<byte>, d: byte, reply: seq<byte>)
    requires |body| <= BUFFER_SIZE
    ensures var done := Requests.Replied(Requests.Arrived(l, s.asking, body).(queued := Some(d)), s, reply);
      Scheduled(done, d) && Alive(done) && done.timer == l.timer && done.sent == l.sent + reply
  {
    hide Left, TrickleTimes, Overwrite;
  }

  /** If the very turn that sends the last byte finds the transmitter idle, the timer is written in that turn. */
  lemma BaudRateTakesEffectAtOnce(c: Config, l: Link, rx: Rx, s: Schedule, header: seq<byte>, body: seq<byte>,
                                  reply: seq<byte>, d: byte)
    requires ValidConfig(c) && |body| <= BUFFER_SIZE
    requires Wants(c, l, rx, s, header, body, reply, d) && !EndsBusy(s.answering)
    ensures var after := Run(c, l, Whole(s));
      after.sent == l.sent + reply && Changed(l.timer, after, d)
  {
    hide Run, Whole, Requests.Arrived, Requests.Replied, Requests.Chosen, Response, Frame, Fits, Word, Overwrite, Long,
      EndsBusy, SameButEnd;
    ReplyIsLong(header);
    var s' := BusyEnd(l, s, Frame(header, body), reply);
    BaudRateGranted(c, l, rx, s', header, body, reply, d);
    GrantedScheduled(l, s', body, d, reply);
    ScheduledChanges(Run(c, l, Whole(s')), d);
    IdleEnd(c, l, s, s');
  }

  lemma ReplyIsLong(header: seq<byte>)
    requires |header| == HEADER_BODY
    ensures |Response(header, true, [])| > 1
  {
    hide Frame;
    FrameBounds([header[0], header[1], header[2], Marked(header[3], true), Lo(0), Hi(0)], []);
  }

  lemma ScheduledChanges(l: Link, d: byte)
    requires Scheduled(l, d) && Alive(l)
    ensures var after := Retune(l, true);
      Changed(l.timer, after, d) && after.sent == l.sent
  {
    hide Trickle;
  }

  /** The same schedule, but that its last turn finds the transmitter busy. */
  lemma BusyEnd(l: Link, s: Schedule, request: seq<byte>, reply: seq<byte>) returns (s': Schedule)
    requires Fits(l, s, request, reply) && |reply| > 1 && !EndsBusy(s.answering)
    ensures Fits(l, s', request, reply) && EndsBusy(s'.answering) && SameButEnd(s, s')
  {
    hide Hears;
    DrainsToEnd(s.answering, |reply| - 1);
    var front := s.answering[..|s.answering| - 1];
    s' := Schedule(s.asking, front + [Poll(true, false)]);
    assert s.answering == front + [Poll(true, true)];
    DrainsAnyEnd(front, |reply| - 1);
  }

  predicate SameButEnd(s: Schedule, s': Schedule) {
    && s.asking == s'.asking && s.answering != []
    && s.answering == s.answering[..|s.answering| - 1] + [Poll(true, true)]
    && s'.answering == s.answering[..|s.answering| - 1] + [Poll(true, false)]
  }

  lemma {:induction false} DrainsToEnd(events: seq<Event>, n: nat)
    requires n > 0 && Drains(events, n)
    ensures events != [] && events[|events| - 1].Poll? && events[|events| - 1].canSend
    decreases |events|
  {
    var rest := events[1..];
    if events[0].Poll? && events[0].canSend && n == 1 {
    } else {
      DrainsToEnd(rest, if events[0].Poll? && events[0].canSend then n - 1 else n);
      assert events[|events| - 1] == rest[|rest| - 1];
    }
  }

  lemma {:induction false} DrainsAnyEnd(front: seq<Event>, n: nat)
    requires Drains(front + [Poll(true, true)], n)
    ensures Drains(front + [Poll(true, false)], n)
    decreases |front|
  {
    if front == [] {
      assert [Poll(true, true)][1..] == [] && [Poll(true, false)][1..] == [];
    } else {
      assert (front + [Poll(true, true)])[1..] == front[1..] + [Poll(true, true)];
      assert (front + [Poll(true, false)])[1..] == front[1..] + [Poll(true, false)];
      DrainsAnyEnd(front[1..], if front[0].Poll? && front[0].canSend then n - 1 else n);
    }
  }

  /** An idle last turn adds the change to what a busy one does. */
  lemma IdleEnd(c: Config, l: Link, s: Schedule, s': Schedule)
    requires ValidConfig(c) && SameButEnd(s, s')
    ensures Run(c, l, Whole(s)) == Retune(Run(c, l, Whole(s')), true)
  {
    hide Serve, Trickle;
    var front := s.asking + s.answering[..|s.answering| - 1];
    assert Whole(s) == front + [Poll(true, true)] && Whole(s') == front + [Poll(true, false)];
    RunConcat(c, l, front, [Poll(true, true)]);
    RunConcat(c, l, front, [Poll(true, false)]);
    RunOne(c, Run(c, l, front), Poll(true, true));
    RunOne(c, Run(c, l, front), Poll(true, false));
  }

  lemma RunOne(c: Config, l: Link, e: Event)
    requires ValidConfig(c)
    ensures Run(c, l, [e]) == Step(c, l, e)
  {
    hide Step;
    assert [e][1..] == [];
  }
}
