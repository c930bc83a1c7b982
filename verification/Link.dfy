/**
 * Reference machine for the whole programming link: what the Pilot BIOS promises its host, with
 * packets as values, replies composed at once and flash written the moment a WRITE is accepted. Only a
 * word-wide write to an odd address, which the pilot may never finish, is carried along as it proceeds.
 */
module Link {
  import opened Bytes
  import opened Framing
  import opened Memory
  import opened BaudRate

  // tc_defs.lib
  const TYPE_SYSTEM: byte := 0x00
  const SYSTEM_NAK: byte := 0x00
  const SYSTEM_NOOP: byte := 0x01
  const SYSTEM_READ: byte := 0x02
  const SYSTEM_WRITE: byte := 0x03
  const SYSTEM_INFOPROBE: byte := 0x04
  const SYSTEM_STARTBIOS: byte := 0x05
  const SYSTEM_SETBAUDRATE: byte := 0x06
  const SYSTEM_ERASEFLASH: byte := 0x09
  const SYSTEM_FLASHDATA: byte := 0x0A
  const ACK: byte := 0x80
  const NAK: byte := 0x40
  const PHYSICAL: byte := 0x00
  const STARTBIOS_RAM: byte := 0x01
  const STARTBIOS_FLASH: byte := 0x02
  const STARTBIOS_FASTRAM: byte := 0x03
  const READACK_HEADER := 6

  /** The packet buffer and, last, the byte that follows it in memory, which no packet reaches. */
  type Buffer = s: seq<byte> | |s| == BUFFER_SIZE + 1 witness seq(BUFFER_SIZE + 1, _ => 0)

  /**
   * A pilot and its board. `wide`: word-programmed flash and the 16-bit pilot. `count` and `freq`:
   * clock measurements the baud rates derive from. `info`: the INFOPROBE reply.
   */
  datatype Config = Config(wide: bool, count: word, freq: byte, info: seq<byte>,
    fast1: long, fast2: long, userBlock: long)

  /** `Beyond`: a copy or the pump leaves the packet buffer, where the model ends. */
  datatype Mode = Listening(rx: Rx) | Sending(todo: seq<byte>) | Started(how: byte) | Beyond

  /** A write to the baud timer, and how much had been transmitted by then. */
  datatype TimerWrite = TimerWrite(divider: byte, sent: nat)

  datatype Link = Link(
    mode: Mode,
    buffer: Buffer,
    queue: seq<byte>,
    mem: Memory,
    log: seq<Cell>,
    late: Late,
    sent: seq<byte>,
    queued: Option<byte>,
    waiting: bool,
    timer: seq<TimerWrite>)

  /** A received byte; or a turn of the main loop, and what the transmitter reported in it. */
  datatype Event = Arrive(b: byte) | Poll(canSend: bool, idle: bool)

  predicate ValidConfig(c: Config) {
    |c.info| <= BUFFER_SIZE
  }

  // ----- flash -----

  function Owed(l: Link): Goal {
    Goal(Device(l.mem, l.log), l.late)
  }

  function Owing(l: Link, g: Goal): Link {
    l.(mem := g.device.mem, log := g.device.log, late := g.late)
  }

  /** A read of the ring, which gives a late write its next step. */
  function Pumped(l: Link): Link {
    Owing(l, Trickle(Owed(l)))
  }

  /** An accepted flash write. */
  function Launch(wide: bool, l: Link, at: int, data: seq<byte>): Link
    requires wide ==> |data| % 2 == 0
  {
    if wide && at % 2 != 0 then l.(late := LateWrite(at, data, |data|))
    else Owing(l, Goal(Program(Device(l.mem, l.log), at, data), NOTHING_LATE))
  }

  lemma LaunchKeeps(wide: bool, l: Link, at: int, data: seq<byte>)
    requires wide ==> |data| % 2 == 0
    ensures var l' := Launch(wide, l, at, data);
      l'.(mem := l.mem, log := l.log, late := l.late) == l
  {
  }

  // ----- replies -----

  /** Start sending what is in the packet header and buffer; START goes out at once. */
  function Transmit(l: Link, h: seq<byte>): Link
    requires |h| == HEADER_BODY && Word(h[4], h[5]) <= BUFFER_SIZE
  {
    l.(mode := Sending(Stuff(Raw(h, l.buffer[..Word(h[4], h[5])]))), sent := l.sent + [START])
  }

  function ReplyHeader(h: seq<byte>, mask: byte, n: word): (r: seq<byte>)
    requires |h| == HEADER_BODY && (mask == ACK || mask == NAK)
    ensures |r| == HEADER_BODY && Word(r[4], r[5]) == n
  {
    h[..3] + [SetBit(h[3], mask), Lo(n), Hi(n)]
  }

  function Reply(l: Link, h: seq<byte>, mask: byte, n: word): Link
    requires |h| == HEADER_BODY && n <= BUFFER_SIZE && (mask == ACK || mask == NAK)
  {
    Transmit(l, ReplyHeader(h, mask, n))
  }

  lemma ReplyIgnoresLength(l: Link, h: seq<byte>, g: seq<byte>, mask: byte, n: word)
    requires |h| == |g| == HEADER_BODY && h[..4] == g[..4] && n <= BUFFER_SIZE && (mask == ACK || mask == NAK)
    ensures Reply(l, h, mask, n) == Reply(l, g, mask, n)
  {
    assert h[..3] == h[..4][..3] && g[..3] == g[..4][..3];
    assert h[3] == h[..4][3] && g[3] == g[..4][3];
  }

  function Nak(l: Link, h: seq<byte>): Link
    requires |h| == HEADER_BODY
  {
    Reply(l, h, NAK, 0)
  }

  // ----- requests -----

  /** Length and address fields shared by READ and WRITE. */
  function Count(buffer: Buffer): word {
    Word(buffer[1], buffer[2])
  }

  function Address(buffer: Buffer): long {
    Long(buffer[3..7])
  }

  /** Offset of an address inside a device: its top byte holds flags. */
  function Offset(a: long): nat {
    a % 0x100_0000
  }

  function Overwrite(buffer: Buffer, s: seq<byte>): Buffer
    requires |s| <= BUFFER_SIZE
  {
    s + buffer[|s|..]
  }

  function ReadReply(m: Memory, buffer: Buffer): seq<byte> {
    [buffer[1], buffer[2]] + buffer[3..7] + Fetch(m, Address(buffer), Count(buffer))
  }

  /** The block copy moves as many bytes as it makes passes. */
  function HandleRead(l: Link, h: seq<byte>): Link
    requires |h| == HEADER_BODY
  {
    var n := Count(l.buffer);
    if l.buffer[0] != PHYSICAL then Nak(l, h)
    else if READACK_HEADER + Passes(n) > BUFFER_SIZE then l.(mode := Beyond)
    else
      PassesOf(n);
      Reply(l.(buffer := Overwrite(l.buffer, ReadReply(l.mem, l.buffer))), h, ACK, n + READACK_HEADER)
  }

  /** Where a WRITE goes. */
  datatype Target = Ram(at: int) | Flash(at: int) | Refused

  function TargetOf(c: Config, a: long): Target {
    var flags := a / 0x100_0000 % 4;
    if flags == 2 then Flash(FLASH_BASE + Offset(a))
    else if flags == 0 then Ram(a)
    else if c.wide then Refused
    else if Offset(a) < c.fast1 then Ram(FAST_BANK + 0x80_0000 + Offset(a))
    else if Offset(a) < c.fast2 then Ram(FAST_BANK + 0xC0_0000 + Offset(a))
    else Refused
  }

  /** The flags are in the top byte, and the offset is the other three. */
  lemma AddressParts(s: seq<byte>)
    requires |s| == 4
    ensures Long(s) / 0x100_0000 == s[3]
    ensures Offset(Long(s)) == s[0] as int + 0x100 * s[1] as int + 0x1_0000 * s[2] as int
  {
  }

  function WriteData(buffer: Buffer, n: nat): seq<byte>
    requires n + WRITE_HEADER <= BUFFER_SIZE + 1
  {
    buffer[WRITE_HEADER..WRITE_HEADER + n]
  }

  /** The count the pump is given: on word-wide flash rounded up to even, in 16 bits. */
  function FlashCount(wide: bool, n: word): (count: word)
    ensures wide ==> count % 2 == 0
  {
    if wide && n % 2 != 0 then (n + 1) % 0x1_0000 else n
  }

  lemma FlashCountNear(wide: bool, n: word)
    requires n < 0xFFFF
    ensures n <= FlashCount(wide, n) <= n + 1
  {
  }

  function HandleWrite(c: Config, l: Link, h: seq<byte>): Link
    requires |h| == HEADER_BODY
  {
    var n := Count(l.buffer);
    if l.buffer[0] != PHYSICAL then Nak(l, h)
    else
      match TargetOf(c, Address(l.buffer))
      case Refused => Nak(l, h)
      case Ram(at) =>
        if WRITE_HEADER + Passes(n) > BUFFER_SIZE then l.(mode := Beyond)
        else
          PassesOf(n);
          Reply(l.(mem := Copied(l.mem, at, WriteData(l.buffer, n))), h, ACK, 0)
      case Flash(at) =>
        var count := FlashCount(c.wide, n);
        if count != 0 && n + WRITE_HEADER > BUFFER_SIZE then l.(mode := Beyond)
        else Reply(Launch(c.wide, l, at, WriteData(l.buffer, count)), h, ACK, 0)
  }

  function HandleStart(c: Config, l: Link, h: seq<byte>): Link
    requires |h| == HEADER_BODY
  {
    var how := l.buffer[0];
    if how == STARTBIOS_RAM || how == STARTBIOS_FLASH || (how == STARTBIOS_FASTRAM && !c.wide)
    then l.(mode := Started(how))
    else Nak(l, h)
  }

  function DividerFor(c: Config, rate: long): Option<byte> {
    if c.wide then DividerBySubtraction(c.freq, rate) else Divider(c.count, rate)
  }

  function HandleBaud(c: Config, l: Link, h: seq<byte>): Link
    requires |h| == HEADER_BODY
  {
    var divider := DividerFor(c, Long(l.buffer[..4]));
    if divider.None? then Nak(l, h)
    else Reply(l.(queued := divider, waiting := true), h, ACK, 0)
  }

  /** The end of the 4K sectors from the bottom of flash through `upper`, by 16-bit sector number. */
  function EraseEnd(upper: long): int {
    FLASH_BASE + 0x1000 * ((upper / 0x1000 - FLASH_BASE / 0x1000 + 1) % 0x1_0000)
  }

  function HandleErase(c: Config, l: Link, h: seq<byte>): Link
    requires |h| == HEADER_BODY
  {
    var upper := (Long(l.buffer[..4]) + FLASH_BASE) % 0x1_0000_0000;
    if upper < c.userBlock then Reply(l.(mem := Erase(l.mem, FLASH_BASE, EraseEnd(upper))), h, ACK, 0)
    else Nak(l, h)
  }

  /** An accepted packet; its body is in the buffer. A SYSTEM packet ends a late write. */
  function Dispatch(c: Config, l: Link, h: seq<byte>): Link
    requires |h| == HEADER_BODY && ValidConfig(c) && Word(h[4], h[5]) <= BUFFER_SIZE
  {
    if h[2] != TYPE_SYSTEM then Nak(l, h) else Respond(c, l.(late := NOTHING_LATE), h)
  }

  function Respond(c: Config, l: Link, h: seq<byte>): Link
    requires |h| == HEADER_BODY && ValidConfig(c) && Word(h[4], h[5]) <= BUFFER_SIZE
  {
    if h[3] == SYSTEM_NAK then l.(mode := Listening(Hunting))
    else if h[3] == SYSTEM_NOOP then Reply(l, h, ACK, Word(h[4], h[5]))
    else if h[3] == SYSTEM_READ then HandleRead(l, h)
    else if h[3] == SYSTEM_WRITE then HandleWrite(c, l, h)
    else if h[3] == SYSTEM_INFOPROBE then Reply(l.(buffer := Overwrite(l.buffer, c.info)), h, ACK, |c.info|)
    else if h[3] == SYSTEM_STARTBIOS then HandleStart(c, l, h)
    else if h[3] == SYSTEM_SETBAUDRATE then HandleBaud(c, l, h)
    else if h[3] == SYSTEM_ERASEFLASH then HandleErase(c, l, h)
    else if h[3] == SYSTEM_FLASHDATA then Reply(l, h, ACK, 0)
    else Nak(l, h)
  }

  // ----- steps -----

  /** A ring of 4096 cells holds 4095 bytes; the next one makes it look empty. */
  function Push(queue: seq<byte>, b: byte): seq<byte> {
    if |queue| == BUFFER_SIZE - 1 then [] else queue + [b]
  }

  function Pop(queue: seq<byte>): seq<byte> {
    if queue == [] then [] else queue[1..]
  }

  /** The decoded byte `b` completes, None for START and ESC and outside a frame. */
  function Decoded(rx: Rx, b: byte): Option<byte> {
    if !rx.Framed? || b == START then None
    else if rx.esc then Some(Flip(b))
    else if b == ESC then None
    else Some(b)
  }

  /** Body bytes land in the packet buffer as they are decoded. */
  function Place(buffer: Buffer, data: seq<byte>, d: byte): Buffer {
    if HEADER_SIZE <= |data| < HEADER_SIZE + BUFFER_SIZE && |data| < HEADER_SIZE + BodyLength(data)
    then buffer[|data| - HEADER_SIZE := d]
    else buffer
  }

  /** What follows from the receiver's verdict on the bytes decoded so far. */
  function Conclude(c: Config, l: Link, heard: Heard): Link
    requires ValidConfig(c)
    requires heard.got.Some? ==>
      |heard.got.value.header| == HEADER_BODY
        && Word(heard.got.value.header[4], heard.got.value.header[5]) <= BUFFER_SIZE
  {
    if heard.got.Some? then Dispatch(c, l.(mode := Listening(Hunting)), heard.got.value.header)
    else if heard.rx.Overlong? then l.(mode := Beyond)
    else l.(mode := Listening(heard.rx))
  }

  /** A decoded byte in a frame. */
  function Take(c: Config, l: Link, data: seq<byte>, d: byte): Link
    requires ValidConfig(c)
  {
    Conclude(c, l.(buffer := Place(l.buffer, data, d)), HearDecoded(data + [d]))
  }

  function Listen(c: Config, l: Link, rx: Rx, b: byte): Link
    requires ValidConfig(c)
  {
    match Decoded(rx, b)
    case Some(d) => Take(c, l, rx.data, d)
    case None => l.(mode := Listening(Hear(rx, b).rx))
  }

  function Emit(l: Link, todo: seq<byte>): Link
    requires todo != []
  {
    if |todo| == 1 then l.(mode := Listening(Hunting), sent := l.sent + todo, waiting := false)
    else l.(mode := Sending(todo[1..]), sent := l.sent + todo[..1])
  }

  /** `_PB_Entry`: one turn of the protocol machine. */
  function Serve(c: Config, l: Link, canSend: bool): Link
    requires ValidConfig(c)
  {
    match l.mode
    case Listening(rx) =>
      if l.queue == [] then Pumped(l) else Listen(c, Pumped(l).(queue := Pop(l.queue)), rx, l.queue[0])
    case Sending(todo) =>
      var l' := Pumped(l).(queue := Pop(l.queue));
      if canSend && todo != [] then Emit(l', todo) else l'
    case _ => l
  }

  predicate Alive(l: Link) {
    l.mode.Listening? || l.mode.Sending?
  }

  /** The queued baud rate change, once the acknowledgement is out and the transmitter idle. */
  function Retune(l: Link, idle: bool): Link {
    if Alive(l) && l.queued.Some? && !l.waiting && idle then
      Pumped(l).(mode := Listening(Hunting), queue := [], queued := None,
        timer := l.timer + [TimerWrite(l.queued.value, |l.sent|)])
    else l
  }

  function Step(c: Config, l: Link, e: Event): Link
    requires ValidConfig(c)
  {
    if !Alive(l) then l
    else
      match e
      case Arrive(b) => l.(queue := Push(l.queue, b))
      case Poll(canSend, idle) => Retune(Serve(c, l, canSend), idle)
  }

  function Run(c: Config, l: Link, events: seq<Event>): Link
    requires ValidConfig(c)
    decreases |events|
  {
    if events == [] then l else Run(c, Step(c, l, events[0]), events[1..])
  }

  function PowerUp(buffer: Buffer, mem: Memory): Link {
    Link(Listening(Hunting), buffer, [], mem, [], NOTHING_LATE, [], None, false, [])
  }
}
