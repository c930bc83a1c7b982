/**
 * The Pilot BIOS of the parallel-flash boards, label by label, over its own variables. `Valid` ties
 * them to the reference machine in the ghost field `link`; every entry point steps that machine.
 */
module Pilot {
  import opened Bytes
  import opened Fletcher
  import opened Framing
  import opened Memory
  import opened BaudRate
  import opened Link

  datatype ModeAddress = ModeRX | ModeTX

  datatype StateAddress =
    | ToRXNothing | ToRXHaveHeader | ToRXHaveHeaderChecksum | ToRXHaveBody | ToRXHaveFooter
    | ToSendHeaderChecksum | ToSendBody | ToSendFooter | ToSendDone

  /** `_PB_ptr`: null, or an offset into one of the three packet areas. */
  datatype Pointer = Null | InHeader(at: nat) | InBuffer(at: nat) | InFooter(at: nat)

  /** Why the main loop was left, if it was. */
  datatype Exit = Looping | ToBios(how: byte) | OutOfBounds

  /** How many body bytes the frame in reception has stored. */
  ghost function BodyReceived(m: Mode): nat {
    if m.Listening? && m.rx.Framed? && HEADER_SIZE < |m.rx.data| <= HEADER_SIZE + BodyLength(m.rx.data)
    then |m.rx.data| - HEADER_SIZE
    else 0
  }

  /** A byte placed in the buffer stays behind the pump, which moved before it. */
  lemma PlacedPending(p: Pump, wide: bool, buffer: Buffer, data: seq<byte>, escaped: bool, b: byte, goal: Goal)
    requires Pending(p, wide, buffer, BodyReceived(Listening(Framed(data, escaped))) + 1, goal)
    ensures Pending(p, wide, Place(buffer, data, b), BodyReceived(Listening(Framed(data, escaped))) + 1, goal)
  {
    var k := |data| - HEADER_SIZE;
    if Place(buffer, data, b) != buffer {
      PlacePending(p, wide, buffer, k, b, goal);
    }
  }

  /** The pump set up for an accepted write owes what the reference then owes. */
  lemma LaunchPending(p: Pump, wide: bool, l: Link, n: word)
    requires p.device == Device(l.mem, l.log) && l.late.count == 0
    requires p.pz == WRITE_HEADER && p.count == FlashCount(wide, n)
    requires p.count != 0 ==> n + WRITE_HEADER <= BUFFER_SIZE
    ensures Pending(p, wide, l.buffer, 0, Owed(Launch(wide, l, p.py, WriteData(l.buffer, p.count))))
  {
    hide Program;
    assert p.count == 0 ==> WriteData(l.buffer, p.count) == [];
    ProgramNothing(p.device, p.py);
  }

  lemma Replaced(was: seq<byte>, f: seq<byte>, x: byte, r: nat)
    requires r + |f| < |was|
    ensures (was[..r] + f + was[r + |f|..])[r + |f| := x] == was[..r] + (f + [x]) + was[r + |f| + 1..]
  {
  }

  class PilotBios {
    const config: Config

    // the current packet
    const header: array<byte>
    const footer: array<byte>
    const buffer: array<byte>

    // receive ring
    const ring: array<byte>
    var rxWrite: nat
    var rxRead: nat

    // state machine
    var mode: ModeAddress
    var state: StateAddress
    var esc: byte
    var length: nat
    var ptr: Pointer
    var checksum: Sum
    var saveChecksum: Sum

    // queued baud rate change
    var setBaudRate: byte
    var newDivider: byte
    var waitTx: byte

    // flash pump
    var flashWriteCount: nat
    var py: int
    var pz: nat

    // the world outside: memory, transmitter, baud timer
    var mem: Memory
    var sent: seq<byte>
    var timer: seq<TimerWrite>
    var exit: Exit

    /** The reference machine this pilot follows, and the reply in transmission with its progress. */
    ghost var link: Link
    /** Every programming operation flash has seen. */
    ghost var log: seq<Cell>
    ghost var raw: seq<byte>
    ghost var pos: nat

    // ----- invariant -----

    ghost predicate Arrays()
    {
      && ValidConfig(config)
      && header.Length == HEADER_SIZE && footer.Length == FOOTER_SIZE
      && buffer.Length == BUFFER_SIZE + 1 && ring.Length == BUFFER_SIZE
      && header != footer && header != buffer && header != ring
      && footer != buffer && footer != ring && buffer != ring
    }

    static function Wrapped(offset: nat): nat {
      if offset < BUFFER_SIZE then offset else offset - BUFFER_SIZE
    }

    ghost predicate RingOk(queue: seq<byte>)
      requires Arrays()
      reads `rxWrite, `rxRead, ring
    {
      && rxWrite < BUFFER_SIZE && rxRead < BUFFER_SIZE
      && |queue| == (if rxWrite >= rxRead then rxWrite - rxRead else rxWrite - rxRead + BUFFER_SIZE)
      && forall i :: 0 <= i < |queue| ==> queue[i] == ring[Wrapped(rxRead + i)]
    }

    /** The receive variables, given the bytes decoded since START. */
    ghost predicate RxOk(rx: Rx)
      requires Arrays()
      reads `mode, `state, `esc, `length, `ptr, `checksum, `saveChecksum, header, footer
    {
      && mode == ModeRX
      && match rx
         case Overlong => false
         case Hunting => state == ToRXNothing && ptr == Null
         case Framed(data, escaped) =>
           && esc == (if escaped then 1 else 0)
           && checksum == Checksum(data)
           && Judge(data) == More
           && length > 0 && StretchOk(data)
    }

    /** Each receive state fills one stretch: `ptr` is where it got to and `ptr + length` its end. */
    ghost predicate StretchOk(data: seq<byte>)
      requires Arrays()
      reads `state, `length, `ptr, `saveChecksum, header, footer
    {
      match state
      case ToRXHaveHeader =>
        && ptr == InHeader(|data|) && |data| + length == HEADER_BODY
        && header[..|data|] == data
      case ToRXHaveHeaderChecksum =>
        && HEADER_BODY <= |data|
        && ptr == InHeader(|data|) && |data| + length == HEADER_SIZE
        && header[..|data|] == data
        && saveChecksum == Checksum(data[..HEADER_BODY])
      case ToRXHaveBody =>
        && HEADER_SIZE <= |data| && BodyLength(data) <= BUFFER_SIZE
        && ptr == InBuffer(|data| - HEADER_SIZE) && |data| + length == HEADER_SIZE + BodyLength(data)
        && header[..] == data[..HEADER_SIZE]
      case ToRXHaveFooter =>
        && HEADER_SIZE <= |data| && BodyLength(data) <= BUFFER_SIZE
        && (var end := HEADER_SIZE + BodyLength(data);
            && end <= |data|
            && ptr == InFooter(|data| - end) && |data| + length == end + FOOTER_SIZE
            && header[..] == data[..HEADER_SIZE]
            && footer[..|data| - end] == data[end..]
            && saveChecksum == Checksum(data[..end]))
      case _ => false
    }

    /** The transmit variables: `pos` bytes of the reply are taken, the last maybe half sent. */
    ghost predicate TxOk(todo: seq<byte>)
      requires Arrays()
      reads `mode, `state, `esc, `length, `ptr, `checksum, `raw, `pos, header, footer, buffer
    {
      && mode == ModeTX
      && ReplyOk()
      && (esc != ESC ==> pos > 0)
      && todo == (if esc == ESC then [] else [esc]) + Stuff(raw[pos..])
      && length > 0 && SectionOk(if esc == ESC then pos else pos - 1)
    }

    ghost predicate ReplyOk()
      requires Arrays()
      reads `raw, `pos, `checksum, header, buffer
    {
      var n := Word(header[4], header[5]);
      && n <= BUFFER_SIZE && raw == Raw(header[..HEADER_BODY], buffer[..n])
      && pos <= |raw| == HEADER_SIZE + n + FOOTER_SIZE
      && checksum == Checksum(raw[..pos])
    }

    /** Each transmit state sends one stretch, of which `done` bytes into the reply are completely sent. */
    ghost predicate SectionOk(done: nat)
      requires Arrays()
      reads `state, `length, `ptr, `raw, `pos, header, footer
    {
      var end := HEADER_SIZE + Word(header[4], header[5]);
      match state
      case ToSendHeaderChecksum =>
        ptr == InHeader(pos) && done + length == HEADER_BODY
      case ToSendBody =>
        && HEADER_BODY <= done && ptr == InHeader(pos) && done + length == HEADER_SIZE
        && |raw| >= HEADER_SIZE && header[HEADER_BODY..] == raw[HEADER_BODY..HEADER_SIZE]
      case ToSendFooter =>
        HEADER_SIZE <= done <= pos && ptr == InBuffer(pos - HEADER_SIZE) && done + length == end
      case ToSendDone =>
        && end <= done <= pos && ptr == InFooter(pos - end) && done + length == end + FOOTER_SIZE
        && |raw| >= end && footer[..] == raw[end..]
      case _ => false
    }

    ghost function PumpState(): Pump
      reads `flashWriteCount, `py, `pz, `mem, `log
    {
      Pump(Device(mem, log), py, pz, flashWriteCount)
    }

    /** Flash as the reference has it is flash with the pending write completed. */
    ghost predicate PumpOk(received: nat, goal: Goal)
      requires Arrays()
      reads `flashWriteCount, `py, `pz, `mem, `log, buffer
    {
      Pending(PumpState(), config.wide, buffer[..], received, goal)
    }

    ghost predicate BaudOk(queued: Option<byte>, waiting: bool)
      reads `setBaudRate, `newDivider, `waitTx
    {
      && queued == (if setBaudRate != 0 then Some(newDivider) else None)
      && (waiting <==> waitTx != 0)
    }

    /** Everything but the protocol state machine proper. */
    ghost predicate Around(received: nat)
      reads `exit, `rxWrite, `rxRead, `sent, `timer, `setBaudRate, `newDivider, `waitTx
      reads `flashWriteCount, `py, `pz, `mem, `log, `link, buffer, ring
    {
      && Arrays()
      && exit == Looping
      && RingOk(link.queue)
      && buffer[..] == link.buffer
      && sent == link.sent && timer == link.timer
      && BaudOk(link.queued, link.waiting)
      && PumpOk(received, Owed(link))
    }

    ghost predicate Valid()
      reads this, header, footer, buffer, ring
    {
      && Arrays()
      && match link.mode
         case Listening(rx) => Around(BodyReceived(link.mode)) && RxOk(rx)
         case Sending(todo) => Around(0) && TxOk(todo)
         case Started(how) => exit == ToBios(how) && sent == link.sent && timer == link.timer
         case Beyond => exit == OutOfBounds && sent == link.sent && timer == link.timer
    }

    // ----- receive ring and flash pump -----

    /** `_PB_SerialISR`, for a receive interrupt. */
    method SerialIsr(b: byte)
      requires Valid() && exit == Looping
      modifies `rxWrite, `link, ring
      ensures Valid() && link == Step(config, old(link), Arrive(b))
    {
      hide RxOk, TxOk, PumpOk, RingOk;
      Enqueue(b, link.queue);
      link := link.(queue := Push(link.queue, b));
    }

    /** Store at the write offset and advance it; the ring's last free cell stays unused. */
    method Enqueue(b: byte, ghost queue: seq<byte>)
      requires Arrays() && RingOk(queue)
      modifies `rxWrite, ring
      ensures RingOk(Push(queue, b))
    {
      ring[rxWrite] := b;
      rxWrite := (rxWrite + 1) % BUFFER_SIZE;
    }

    /** `_ProgramFlashUnit`: a byte, or a word low byte first. */
    method ProgramFlashUnit(lo: byte, hi: byte)
      modifies `mem, `log
      ensures Device(mem, log) == Program(old(Device(mem, log)), py, if config.wide then [lo, hi] else [lo])
    {
      log := log + Cells(py, if config.wide then [lo, hi] else [lo]);
      if config.wide {
        assert [lo, hi][..1] == [lo] && Store(mem, py, [lo]) == mem[py := lo];
        mem := mem[py := lo][py + 1 := hi];
      } else {
        assert [lo][..0] == [] && Store(mem, py, [lo]) == mem[py := lo];
        mem := mem[py := lo];
      }
    }

    method PumpFlash(ghost received: nat, ghost goal: Goal)
      requires Arrays() && PumpOk(received, goal)
      modifies `flashWriteCount, `py, `pz, `mem, `log
      ensures PumpState() == PumpOnce(old(PumpState()), config.wide, buffer[..])
      ensures PumpOk(received + 1, Trickle(goal))
    {
      hide Program, Settled;
      PumpOncePending(PumpState(), config.wide, buffer[..], received, goal);
      if flashWriteCount == 0 {
        return;
      }
      flashWriteCount := flashWriteCount - 1;
      if !config.wide {
        ProgramFlashUnit(buffer[pz], buffer[pz + 1]);
        assert buffer[..][pz..pz + 1] == [buffer[pz]];
        py := py + 1;
        pz := pz + 1;
      } else if flashWriteCount % 2 == 0 {
        ProgramFlashUnit(buffer[pz], buffer[pz + 1]);
        assert buffer[..][pz..pz + 2] == [buffer[pz], buffer[pz + 1]];
        py := py + 2;
        pz := pz + 2;
      }
    }

    /** `_PB_Read`: None is a return with Z set. */
    method Read(ghost received: nat) returns (a: Option<byte>)
      requires Around(received)
      modifies `flashWriteCount, `py, `pz, `mem, `log, `rxRead, `link
      ensures Around(received + 1) && link == Pumped(old(link)).(queue := Pop(old(link).queue))
      ensures a == if old(link).queue == [] then None else Some(old(link).queue[0])
    {
      hide Pending, Trickle;
      PumpFlash(received, Owed(link));
      link := Pumped(link);
      if rxRead == rxWrite {
        return None;
      }
      a := Some(ring[rxRead]);
      rxRead := (rxRead + 1) % BUFFER_SIZE;
      link := link.(queue := Pop(link.queue));
    }

    // ----- receiving -----

    /** `_PB_Init`. */
    method Init()
      requires Arrays()
      modifies `mode, `state, `esc, `length, `ptr
      ensures RxOk(Hunting)
    {
      mode := ModeRX;
      state := ToRXNothing;
      esc := 0;
      length := 0;
      ptr := Null;
    }

    method RXHaveStart()
      requires Arrays() && mode == ModeRX
      modifies `state, `esc, `length, `ptr, `checksum
      ensures RxOk(Framed([], false))
    {
      esc := 0;
      checksum := Sum(0, 0);
      length := HEADER_BODY;
      ptr := InHeader(0);
      state := ToRXHaveHeader;
    }

    ghost predicate PastHeader(data: seq<byte>)
      reads `state
    {
      state.ToRXHaveBody? || state.ToRXHaveFooter? ==> |data| >= HEADER_SIZE
    }

    /** Until a stretch is full the frame stays undecided. */
    lemma StillMore(data: seq<byte>, d: byte)
      requires Arrays() && StretchOk(data + [d]) && length > 0 && Judge(data) == More && PastHeader(data)
      ensures Judge(data + [d]) == More
    {
      hide Judge, Checksum;
      JudgeNext(data, d);
    }

    /** Add a decoded byte to the checksum and to the area being filled. */
    method StoreCharacter(b: byte, ghost data: seq<byte>)
      requires Arrays() && RxOk(Framed(data, false))
      modifies `length, `ptr, `checksum, header, footer, buffer
      ensures checksum == Checksum(data + [b])
      ensures StretchOk(data + [b]) && length == old(length) - 1
      ensures PastHeader(data)
      ensures buffer[..] == Place(old(buffer[..]), data, b)
    {
      hide Checksum, Add, Judge, Word;
      ChecksumExtends(data, b);
      checksum := Update(checksum, b);
      assert (data + [b])[..|data|] == data;
      assert |data| >= HEADER_BODY ==> (data + [b])[..HEADER_BODY] == data[..HEADER_BODY];
      assert |data| >= HEADER_SIZE ==> (data + [b])[..HEADER_SIZE] == data[..HEADER_SIZE];
      assert state.ToRXHaveFooter? ==>
        (data + [b])[..HEADER_SIZE + BodyLength(data)] == data[..HEADER_SIZE + BodyLength(data)];
      match ptr {
        case InHeader(at) =>
          header[at] := b;
          ptr := InHeader(at + 1);
        case InBuffer(at) =>
          buffer[at] := b;
          ptr := InBuffer(at + 1);
        case InFooter(at) =>
          footer[at] := b;
          ptr := InFooter(at + 1);
      }
      length := length - 1;
    }

    method RXHaveHeader(ghost data: seq<byte>)
      requires Arrays() && mode == ModeRX && esc == 0
      requires state == ToRXHaveHeader && StretchOk(data) && length == 0 && checksum == Checksum(data)
      modifies `state, `length, `saveChecksum
      ensures RxOk(Framed(data, false))
    {
      assert data[..HEADER_BODY] == data;
      saveChecksum := checksum;
      length := 2;
      state := ToRXHaveHeaderChecksum;
    }

    method RXHaveHeaderChecksum(ghost data: seq<byte>)
      requires Arrays() && mode == ModeRX && esc == 0 && exit == Looping
      requires state == ToRXHaveHeaderChecksum && StretchOk(data) && length == 0 && checksum == Checksum(data)
      modifies `mode, `state, `esc, `length, `ptr, `saveChecksum, `exit
      ensures HearDecoded(data).got.None?
      ensures if HearDecoded(data).rx.Overlong? then exit == OutOfBounds
        else exit == Looping && RxOk(HearDecoded(data).rx)
    {
      hide Word, Checksum, Judge;
      assert header[..] == data;
      JudgeHeader(data);
      SameWord(header[6], header[7], saveChecksum.b, saveChecksum.a);
      if Word(header[6], header[7]) != Word(saveChecksum.b, saveChecksum.a) {
        Init();
        return;
      }
      length := Word(header[4], header[5]);
      if length > BUFFER_SIZE {
        exit := OutOfBounds;  // the pilot would go on and receive past the end of its buffer
        return;
      }
      if length == 0 {
        RXHaveBody(data);
        return;
      }
      ptr := InBuffer(0);
      state := ToRXHaveBody;
    }

    method RXHaveBody(ghost data: seq<byte>)
      requires Arrays() && mode == ModeRX && esc == 0
      requires |data| >= HEADER_SIZE && header[..] == data[..HEADER_SIZE]
      requires BodyLength(data) <= BUFFER_SIZE && |data| == HEADER_SIZE + BodyLength(data)
      requires Judge(data) == More && checksum == Checksum(data)
      modifies `state, `length, `ptr, `saveChecksum
      ensures RxOk(Framed(data, false))
    {
      assert data[..HEADER_SIZE + BodyLength(data)] == data;
      saveChecksum := checksum;
      length := FOOTER_SIZE;
      ptr := InFooter(0);
      state := ToRXHaveFooter;
    }

    /** The comparison of the footer with the checksum saved before it. */
    method FooterMatches(ghost data: seq<byte>) returns (ok: bool)
      requires Arrays() && state == ToRXHaveFooter && StretchOk(data) && length == 0
      requires data[HEADER_BODY..HEADER_SIZE] == Trailer(data[..HEADER_BODY])
      ensures Judge(data) == if ok then Accept else Bad
      ensures header[..HEADER_BODY] == data[..HEADER_BODY]
    {
      hide Word, Checksum, Judge;
      assert footer[..] == data[|data| - FOOTER_SIZE..];
      assert header[..HEADER_BODY] == data[..HEADER_BODY];
      JudgeFooter(data);
      SameWord(footer[0], footer[1], saveChecksum.b, saveChecksum.a);
      ok := Word(footer[0], footer[1]) == Word(saveChecksum.b, saveChecksum.a);
    }

    method RXHaveFooter(ghost data: seq<byte>, ghost received: nat)
      requires Around(received) && mode == ModeRX
      requires state == ToRXHaveFooter && StretchOk(data) && length == 0
      requires data[HEADER_BODY..HEADER_SIZE] == Trailer(data[..HEADER_BODY])
      modifies this, header, buffer
      ensures Valid() && link == Conclude(config, old(link), HearDecoded(data))
    {
      hide RingOk, BaudOk, Pending, TxOk, Dispatch, Judge, Word;
      var ok := FooterMatches(data);
      if !ok {
        Init();
        AroundEarlier(received, 0);
        link := link.(mode := Listening(Hunting));
      } else {
        link := link.(mode := Listening(Hunting));
        SystemPacket(received);
      }
    }

    /** The section is complete: jump to the state. */
    method RXSectionDone(ghost data: seq<byte>, ghost d: byte, ghost received: nat)
      requires Around(received) && mode == ModeRX && esc == 0
      requires Judge(data) == More && BodyReceived(Listening(Framed(data + [d], false))) <= received
      requires StretchOk(data + [d]) && length == 0 && checksum == Checksum(data + [d]) && PastHeader(data)
      modifies this, header, buffer
      ensures Valid() && link == Conclude(config, old(link), HearDecoded(data + [d]))
    {
      hide RingOk, BaudOk, Pending, TxOk, Dispatch, RxOk, Judge, Word, Checksum, Stuff, Raw;
      ghost var data' := data + [d];
      JudgeNext(data, d);
      match state {
        case ToRXHaveHeader => RXHaveHeader(data');
        case ToRXHaveHeaderChecksum => RXHaveHeaderChecksum(data');
        case ToRXHaveBody => RXHaveBody(data');
        case ToRXHaveFooter => RXHaveFooter(data', received); return;
      }
      if exit == Looping {
        AroundEarlier(received, BodyReceived(Listening(HearDecoded(data').rx)));
        link := link.(mode := Listening(HearDecoded(data').rx));
      } else {
        link := link.(mode := Beyond);
      }
    }

    /** A decoded byte inside a frame. */
    method RXHaveCharacter(b: byte, ghost data: seq<byte>, ghost escaped: bool)
      requires link.mode == Listening(Framed(data, escaped))
      requires Around(BodyReceived(link.mode) + 1) && RxOk(Framed(data, false))
      modifies this, header, footer, buffer
      ensures Valid() && link == Take(config, old(link), data, b)
    {
      hide RingOk, BaudOk, TxOk, Dispatch, Judge, Pending, Word, Checksum, Place, StretchOk, PastHeader;
      ghost var received := BodyReceived(link.mode) + 1;
      PlacedPending(PumpState(), config.wide, link.buffer, data, escaped, b, Owed(link));
      StoreCharacter(b, data);
      link := link.(buffer := Place(link.buffer, data, b));
      if length == 0 {
        RXSectionDone(data, b, received);
      } else {
        StillMore(data, b);
        AroundEarlier(received, BodyReceived(Listening(Framed(data + [b], false))));
        link := link.(mode := Listening(Framed(data + [b], false)));
      }
    }

    // ----- dispatching -----

    method SystemPacket(ghost received: nat)
      requires Around(received) && mode == ModeRX && Word(header[4], header[5]) <= BUFFER_SIZE
      modifies this, header, buffer
      ensures Valid() && link == Dispatch(config, old(link), old(header[..HEADER_BODY]))
    {
      hide RingOk, BaudOk, Pending, PumpOk, TxOk, RxOk, Reply, HandleRead, HandleWrite,
        HandleStart, HandleBaud, HandleErase, Overwrite, Respond;
      if header[2] != TYPE_SYSTEM {
        AroundEarlier(received, 0);
        NakPacket();
        return;
      }
      FlushPendingWrite(received);
      HandleSubtype();
    }

    method HandleSubtype()
      requires Idle() && mode == ModeRX && Word(header[4], header[5]) <= BUFFER_SIZE
      modifies this, header, buffer
      ensures Valid() && link == Respond(config, old(link), old(header[..HEADER_BODY]))
    {
      hide RingOk, BaudOk, Pending, PumpOk, TxOk, RxOk, Reply, HandleRead, HandleWrite,
        HandleStart, HandleBaud, HandleErase;
      if header[3] == SYSTEM_NAK {
        Init();
        link := link.(mode := Listening(Hunting));
      } else if header[3] == SYSTEM_NOOP {
        AckPacket();
      } else if header[3] == SYSTEM_READ {
        HandleREAD();
      } else if header[3] == SYSTEM_WRITE {
        HandleWRITE();
      } else if header[3] == SYSTEM_INFOPROBE {
        HandleINFOPROBE();
      } else if header[3] == SYSTEM_STARTBIOS {
        HandleSTARTBIOS();
      } else if header[3] == SYSTEM_SETBAUDRATE {
        HandleSETBAUDRATE();
      } else if header[3] == SYSTEM_ERASEFLASH {
        HandleERASEFLASH();
      } else if header[3] == SYSTEM_FLASHDATA {
        EmptyAck();
      } else {
        NakPacket();
      }
    }

    /** Complete a write that was acknowledged earlier and is still being pumped. */
    method FlushPendingWrite(ghost received: nat)
      requires Around(received)
      modifies `mem, `log, `py, `flashWriteCount, `link
      ensures Idle() && link == old(link).(late := NOTHING_LATE)
    {
      hide Program, RingOk, BaudOk, Pending, ProgramBlock;
      FlushPending(PumpState(), config.wide, buffer[..], received, Owed(link));
      if flashWriteCount != 0 {
        var bc := flashWriteCount;
        if config.wide && bc % 2 != 0 {
          bc := bc + 1;
        }
        var _ := ProgramFlashBlock(py, pz, bc);
        flashWriteCount := 0;
      }
      link := link.(late := NOTHING_LATE);
      NothingPending(PumpState(), config.wide, buffer[..], Owed(link));
    }

    /** `_ProgramFlashBlock`, unit by unit; 1 and 2 are its error codes. */
    method ProgramFlashBlock(address: int, from: nat, size: nat) returns (code: nat)
      requires Arrays() && from + size <= buffer.Length && (config.wide || from + size < buffer.Length)
      modifies `mem, `log, `py
      ensures code != 0 <==> Refuses(config.wide, address, size)
      ensures Device(mem, log) == ProgramBlock(old(Device(mem, log)), config.wide, address, buffer[from..from + size])
    {
      hide Program;
      if config.wide && address % 2 != 0 {
        return 1;
      }
      if config.wide && size % 2 != 0 {
        return 2;
      }
      var increment := if config.wide then 2 else 1;
      var left := size;
      assert buffer[from..from] == [];
      ProgramNothing(Device(mem, log), address);
      while left > 0
        invariant 0 <= left <= size && (config.wide ==> left % 2 == 0)
        invariant Device(mem, log) == Program(old(Device(mem, log)), address, buffer[from..from + (size - left)])
      {
        var done := size - left;
        py := address + done;
        ProgramFlashUnit(buffer[from + done], buffer[from + done + 1]);
        ghost var unit := if config.wide then [buffer[from + done], buffer[from + done + 1]] else [buffer[from + done]];
        ProgramConcat(old(Device(mem, log)), address, buffer[from..from + done], unit);
        assert buffer[from..from + done] + unit == buffer[from..from + done + increment];
        left := left - increment;
      }
      code := 0;
    }

    /** No write is pending, so flash is as the reference has it. */
    ghost predicate Idle()
      reads `exit, `rxWrite, `rxRead, `sent, `timer, `setBaudRate, `newDivider, `waitTx
      reads `flashWriteCount, `py, `pz, `mem, `log, `link, buffer, ring
    {
      Around(0) && flashWriteCount == 0 && mem == link.mem && log == link.log && link.late == NOTHING_LATE
    }

    method SetHeaderLength(n: word)
      requires Arrays()
      modifies header
      ensures header[..4] == old(header[..4]) && Word(header[4], header[5]) == n
    {
      hide Lo, Hi, Word;
      WordOfHalves(n);
      header[4] := Lo(n);
      header[5] := Hi(n);
    }

    lemma AroundEarlier(received: nat, earlier: nat)
      requires Around(received) && earlier <= received
      ensures Around(earlier)
    {
      hide RingOk, BaudOk, Pending;
      PendingEarlier(PumpState(), config.wide, buffer[..], received, earlier, Owed(link));
    }

    method NakPacket()
      requires Around(0)
      modifies `mode, `state, `esc, `length, `ptr, `checksum, `sent, `link, `raw, `pos, header
      ensures Valid() && link == Nak(old(link), old(header[..HEADER_BODY]))
    {
      hide RingOk, BaudOk, Pending, TxOk, SetBit, Lo, Hi, Word;
      ZeroWord();
      header[3] := SetBit(header[3], NAK);
      header[4], header[5] := 0, 0;
      assert header[..HEADER_BODY] == ReplyHeader(old(header[..HEADER_BODY]), NAK, 0);
      SendReply();
      link := Transmit(link, header[..HEADER_BODY]);
    }

    method AckPacket()
      requires Around(0) && Word(header[4], header[5]) <= BUFFER_SIZE
      modifies `mode, `state, `esc, `length, `ptr, `checksum, `sent, `link, `raw, `pos, header
      ensures Valid()
      ensures link == Reply(old(link), old(header[..HEADER_BODY]), ACK, Word(old(header[4]), old(header[5])))
    {
      hide RingOk, BaudOk, Pending, TxOk, SetBit, Lo, Hi, Word;
      HalvesOfWord(header[4], header[5]);
      header[3] := SetBit(header[3], ACK);
      ghost var n := Word(header[4], header[5]);
      assert header[..HEADER_BODY] == ReplyHeader(old(header[..HEADER_BODY]), ACK, n);
      SendReply();
      link := Transmit(link, header[..HEADER_BODY]);
    }

    /** Acknowledge the packet with header `h` after its length field was set to `n`. */
    method AckAs(ghost h: seq<byte>, n: word)
      requires Around(0) && n <= BUFFER_SIZE && |h| == HEADER_BODY
      requires header[..4] == h[..4] && Word(header[4], header[5]) == n
      modifies `mode, `state, `esc, `length, `ptr, `checksum, `sent, `link, `raw, `pos, header
      ensures Valid() && link == Reply(old(link), h, ACK, n)
    {
      hide RingOk, BaudOk, Pending, TxOk, RxOk, Reply, Lo, Hi, Word;
      assert header[..HEADER_BODY][..4] == h[..4];
      ReplyIgnoresLength(link, h, header[..HEADER_BODY], ACK, n);
      AckPacket();
    }

    /** `_PB_Reply`: the START goes out at once, the rest one byte per turn. */
    method SendReply()
      requires Arrays() && Word(header[4], header[5]) <= BUFFER_SIZE
      modifies `mode, `state, `esc, `length, `ptr, `checksum, `sent, `raw, `pos
      ensures TxOk(Stuff(Raw(header[..HEADER_BODY], buffer[..Word(header[4], header[5])])))
      ensures sent == old(sent) + [START]
    {
      mode := ModeTX;
      state := ToSendHeaderChecksum;
      length := HEADER_BODY;
      ptr := InHeader(0);
      sent := sent + [START];
      checksum := Sum(0, 0);
      esc := ESC;
      raw := Raw(header[..HEADER_BODY], buffer[..Word(header[4], header[5])]);
      pos := 0;
      assert raw[0..] == raw && raw[..0] == [];
    }

    // ----- requests -----

    /** The next instructions would leave the packet buffer; the model stops here. */
    method LeaveModel()
      requires Arrays() && sent == link.sent && timer == link.timer
      modifies `exit, `link
      ensures Valid() && link == old(link).(mode := Beyond)
    {
      exit := OutOfBounds;
      link := link.(mode := Beyond);
    }

    /**
     * `copy`, from memory at `px` into the buffer: BC is counted down after each byte, and 16 bits wide.
     * False if the copy is about to store behind the packet buffer.
     */
    method CopyToBuffer(px: int, n: word) returns (inside: bool)
      requires Arrays()
      modifies `py, buffer
      ensures inside <==> READACK_HEADER + Passes(n) <= BUFFER_SIZE
      ensures inside ==>
        var end := READACK_HEADER + Passes(n);
        buffer[..] == old(buffer[..READACK_HEADER]) + Fetch(mem, px, Passes(n)) + old(buffer[end..])
    {
      py := READACK_HEADER;
      var bc := n;
      ghost var was := buffer[..];
      inside := true;
      while true
        invariant READACK_HEADER <= py <= BUFFER_SIZE && py - READACK_HEADER + Passes(bc) == Passes(n)
        invariant buffer[..] == was[..READACK_HEADER] + Fetch(mem, px, py - READACK_HEADER) + was[py..]
        decreases BUFFER_SIZE - py
      {
        if py == BUFFER_SIZE {
          return false;
        }
        ghost var moved := py - READACK_HEADER;
        Replaced(was, Fetch(mem, px, moved), Peek(mem, px + moved), READACK_HEADER);
        buffer[py] := Peek(mem, px + (py - READACK_HEADER));
        py := py + 1;
        bc := if bc == 0 then 0xFFFF else bc - 1;
        if bc == 0 {
          return true;
        }
      }
    }

    /** `copy`, from the data of a WRITE to memory; false if it is about to read behind the packet buffer. */
    method CopyToMemory(target: int, n: word) returns (inside: bool)
      requires Arrays()
      modifies `py, `mem
      ensures inside <==> WRITE_HEADER + Passes(n) <= BUFFER_SIZE
      ensures inside ==> mem == Copied(old(mem), target, buffer[WRITE_HEADER..WRITE_HEADER + Passes(n)])
    {
      py := target;
      var px := WRITE_HEADER;
      var bc := n;
      assert buffer[WRITE_HEADER..WRITE_HEADER] == [];
      while true
        invariant WRITE_HEADER <= px <= BUFFER_SIZE && px - WRITE_HEADER + Passes(bc) == Passes(n)
        invariant py == target + (px - WRITE_HEADER)
        invariant mem == Copied(old(mem), target, buffer[WRITE_HEADER..px])
        decreases BUFFER_SIZE - px
      {
        if px == BUFFER_SIZE {
          return false;
        }
        assert buffer[WRITE_HEADER..px + 1][..px - WRITE_HEADER] == buffer[WRITE_HEADER..px];
        if !IsFlash(py) {
          mem := mem[py := buffer[px]];
        }
        px := px + 1;
        py := py + 1;
        bc := if bc == 0 then 0xFFFF else bc - 1;
        if bc == 0 {
          return true;
        }
      }
    }

    method HandleREAD()
      requires Idle()
      modifies this, header, buffer
      ensures Valid() && link == HandleRead(old(link), old(header[..HEADER_BODY]))
    {
      hide RingOk, BaudOk, Pending, TxOk, RxOk, Reply, Lo, Hi, Word, Fetch, Long, Passes;
      if buffer[0] != PHYSICAL {
        NakPacket();
        return;
      }
      var px := Long(buffer[3..7]);
      var n := Word(buffer[1], buffer[2]);
      assert buffer[3..7] == link.buffer[3..7];
      PassesOf(n);
      ReplyToRead(px, n);
    }

    method ReplyToRead(px: int, n: word)
      requires Idle() && n == Word(buffer[1], buffer[2])
      modifies this, header, buffer
      ensures Valid()
      ensures READACK_HEADER + Passes(n) > BUFFER_SIZE ==> link == old(link).(mode := Beyond)
      ensures READACK_HEADER + Passes(n) <= BUFFER_SIZE ==>
        && n + READACK_HEADER <= BUFFER_SIZE
        && link == Reply(
             old(link).(buffer := Overwrite(old(link).buffer,
               [old(buffer[1]), old(buffer[2])] + old(buffer[3..7]) + Fetch(old(mem), px, n))),
             old(header[..HEADER_BODY]), ACK, n + READACK_HEADER)
    {
      hide RingOk, BaudOk, Pending, TxOk, RxOk, Reply, Word, Fetch, Overwrite, Passes;
      ghost var h := header[..HEADER_BODY];
      PassesOf(n);
      SetHeaderLength((n + READACK_HEADER) % 0x1_0000);
      assert header[..4] == h[..4];
      var inside := BuildReadReply(px, n);
      if !inside {
        LeaveModel();
        return;
      }
      link := link.(buffer := buffer[..]);
      NothingPending(PumpState(), config.wide, buffer[..], Owed(link));
      AckAs(h, n + READACK_HEADER);
    }

    /** In place: the count and the address move down over the request's type before the data comes in. */
    method BuildReadReply(px: int, n: word) returns (inside: bool)
      requires Arrays() && n == Word(buffer[1], buffer[2])
      modifies `py, buffer
      ensures inside <==> READACK_HEADER + Passes(n) <= BUFFER_SIZE
      ensures inside ==>
        var reply := [old(buffer[1]), old(buffer[2])] + old(buffer[3..7]) + Fetch(mem, px, Passes(n));
        buffer[..] == Overwrite(old(buffer[..]), reply)
    {
      hide Lo, Hi, Word, Fetch, Passes;
      HalvesOfWord(buffer[1], buffer[2]);
      buffer[0], buffer[1] := Lo(n), Hi(n);
      buffer[2], buffer[3], buffer[4], buffer[5] := buffer[3], buffer[4], buffer[5], buffer[6];
      assert buffer[..READACK_HEADER] == [old(buffer[1]), old(buffer[2])] + old(buffer[3..7]);
      inside := CopyToBuffer(px, n);
    }

    method HandleWRITE()
      requires Idle()
      modifies this, header
      ensures Valid() && link == HandleWrite(config, old(link), old(header[..HEADER_BODY]))
    {
      hide RingOk, BaudOk, TxOk, RxOk, Pending, Reply, Word, Long, Launch, Copied, Passes;
      if buffer[0] != PHYSICAL {
        NakPacket();
        return;
      }
      assert buffer[3..7] == link.buffer[3..7];
      AddressParts(buffer[3..7]);
      var n := Word(buffer[1], buffer[2]);
      var flags := buffer[6] % 4;
      var offset := buffer[3] as int + 0x100 * buffer[4] as int + 0x1_0000 * buffer[5] as int;
      if flags == 2 {
        WriteFlash(FLASH_BASE + offset, n);
      } else if flags == 0 {
        WriteCopy(Long(buffer[3..7]), n);
      } else if config.wide {
        NakPacket();
      } else if config.fast1 > offset {
        WriteCopy(FAST_BANK + 0x80_0000 + offset, n);
      } else if config.fast2 > offset {
        WriteCopy(FAST_BANK + 0xC0_0000 + offset, n);
      } else {
        NakPacket();
      }
    }

    method WriteCopy(target: int, n: word)
      requires Idle() && n == Word(buffer[1], buffer[2])
      modifies this, header
      ensures Valid()
      ensures WRITE_HEADER + Passes(n) > BUFFER_SIZE ==> link == old(link).(mode := Beyond)
      ensures WRITE_HEADER + Passes(n) <= BUFFER_SIZE ==>
        && n + WRITE_HEADER <= BUFFER_SIZE
        && link == Reply(old(link).(mem := Copied(old(link).mem, target, WriteData(old(link).buffer, n))),
             old(header[..HEADER_BODY]), ACK, 0)
    {
      hide RingOk, BaudOk, TxOk, RxOk, Pending, Reply, Word, Copied, Passes;
      PassesOf(n);
      var inside := CopyToMemory(target, n);
      if !inside {
        LeaveModel();
        return;
      }
      link := link.(mem := mem);
      NothingPending(PumpState(), config.wide, buffer[..], Owed(link));
      EmptyAck();
    }

    /** Only set the pump up: the data stays in the packet buffer while the ACK is on its way. */
    method WriteFlash(address: int, n: word)
      requires Idle()
      modifies this, header
      ensures Valid()
      ensures var count := FlashCount(config.wide, n);
        link ==
        if count != 0 && n + WRITE_HEADER > BUFFER_SIZE then old(link).(mode := Beyond)
        else Reply(Launch(config.wide, old(link), address, WriteData(old(link).buffer, count)),
          old(header[..HEADER_BODY]), ACK, 0)
    {
      hide RingOk, BaudOk, TxOk, RxOk, Reply, Program, Pending, Launch;
      var count := if config.wide && n % 2 != 0 then (n + 1) % 0x1_0000 else n;
      if count != 0 && n + WRITE_HEADER > BUFFER_SIZE {
        LeaveModel();
        return;
      }
      SetPump(address, n, count);
      EmptyAck();
    }

    method SetPump(address: int, ghost n: word, count: word)
      requires Idle() && count == FlashCount(config.wide, n) && (count != 0 ==> n + WRITE_HEADER <= BUFFER_SIZE)
      modifies `py, `pz, `flashWriteCount, `link
      ensures Around(0) && link == Launch(config.wide, old(link), address, WriteData(old(link).buffer, count))
    {
      hide RingOk, BaudOk, Pending, Launch;
      py := address;
      flashWriteCount := count;
      pz := WRITE_HEADER;
      LaunchPending(PumpState(), config.wide, link, n);
      LaunchKeeps(config.wide, link, address, WriteData(link.buffer, count));
      link := Launch(config.wide, link, address, WriteData(link.buffer, count));
    }

    method EmptyAck()
      requires Around(0)
      modifies `mode, `state, `esc, `length, `ptr, `checksum, `sent, `link, `raw, `pos, header
      ensures Valid() && link == Reply(old(link), old(header[..HEADER_BODY]), ACK, 0)
    {
      hide RingOk, BaudOk, Pending, TxOk, RxOk, Reply, Lo, Hi, Word;
      ghost var h := header[..HEADER_BODY];
      SetHeaderLength(0);
      assert header[..4] == h[..4];
      AckAs(h, 0);
    }

    method HandleINFOPROBE()
      requires Idle()
      modifies this, header, buffer
      ensures Valid()
      ensures link == Reply(old(link).(buffer := Overwrite(old(link).buffer, config.info)),
        old(header[..HEADER_BODY]), ACK, |config.info|)
    {
      hide RingOk, BaudOk, Pending, TxOk, RxOk, Reply, Word, Overwrite;
      ghost var h := header[..HEADER_BODY];
      CopyInfo();
      link := link.(buffer := buffer[..]);
      NothingPending(PumpState(), config.wide, buffer[..], Owed(link));
      SetHeaderLength(|config.info|);
      assert header[..4] == h[..4];
      AckAs(h, |config.info|);
    }

    method CopyInfo()
      requires Arrays()
      modifies buffer
      ensures buffer[..] == Overwrite(old(buffer[..]), config.info)
    {
      var i := 0;
      while i < |config.info|
        invariant 0 <= i <= |config.info|
        invariant forall k :: 0 <= k < i ==> buffer[k] == config.info[k]
        invariant forall k :: i <= k < buffer.Length ==> buffer[k] == old(buffer[k])
      {
        buffer[i] := config.info[i];
        i := i + 1;
      }
    }

    method HandleSTARTBIOS()
      requires Idle()
      modifies `mode, `state, `esc, `length, `ptr, `checksum, `sent, `link, `raw, `pos, `exit, header
      ensures Valid() && link == HandleStart(config, old(link), old(header[..HEADER_BODY]))
    {
      var how := buffer[0];
      if how == STARTBIOS_RAM || how == STARTBIOS_FLASH || (how == STARTBIOS_FASTRAM && !config.wide) {
        exit := ToBios(how);
        link := link.(mode := Started(how));
      } else {
        NakPacket();
      }
    }

    method HandleSETBAUDRATE()
      requires Idle()
      modifies `mode, `state, `esc, `length, `ptr, `checksum, `sent, `link, `raw, `pos,
        `setBaudRate, `newDivider, `waitTx, header
      ensures Valid() && link == HandleBaud(config, old(link), old(header[..HEADER_BODY]))
    {
      hide RingOk, BaudOk, Pending, TxOk, RxOk, Reply, Word, Long, Divider, DividerBySubtraction;
      ghost var h := header[..HEADER_BODY];
      SetHeaderLength(0);
      assert header[..4] == h[..4] == header[..HEADER_BODY][..4];
      assert buffer[..4] == link.buffer[..4];
      var rate := Long(buffer[..4]);
      var divider;
      if config.wide {
        divider := DivideBySubtraction(config.freq, rate);
      } else {
        divider := LookupDivider(config.count, rate);
      }
      if divider.None? {
        ReplyIgnoresLength(link, h, header[..HEADER_BODY], NAK, 0);
        NakPacket();
        return;
      }
      QueueDivider(divider.value);
      AckAs(h, 0);
    }

    method QueueDivider(divider: byte)
      requires Around(0)
      modifies `setBaudRate, `newDivider, `waitTx, `link
      ensures Around(0) && link == old(link).(queued := Some(divider), waiting := true)
    {
      hide RingOk, Pending;
      newDivider := divider;
      setBaudRate := 0xFF;
      waitTx := 0xFF;
      link := link.(queued := Some(divider), waiting := true);
    }

    /** `_EraseFlashRange` from the bottom of flash, for a device of 4K sectors. */
    method EraseFlashRange(upper: long)
      modifies `mem
      ensures mem == Erase(old(mem), FLASH_BASE, EraseEnd(upper))
    {
      var stop := (upper / 0x1000 - FLASH_BASE / 0x1000 + 1) % 0x1_0000;
      var sector := 0;
      assert mem == Erase(mem, FLASH_BASE, FLASH_BASE);
      while sector < stop
        invariant 0 <= sector <= stop
        invariant mem == Erase(old(mem), FLASH_BASE, FLASH_BASE + 0x1000 * sector)
      {
        mem := Erase(mem, FLASH_BASE + 0x1000 * sector, FLASH_BASE + 0x1000 * (sector + 1));
        sector := sector + 1;
      }
    }

    method HandleERASEFLASH()
      requires Idle()
      modifies `mode, `state, `esc, `length, `ptr, `checksum, `sent, `link, `raw, `pos, `mem, header
      ensures Valid() && link == HandleErase(config, old(link), old(header[..HEADER_BODY]))
    {
      hide RingOk, BaudOk, TxOk, RxOk, Reply, Word, Long, EraseEnd, Erase, Pending;
      assert buffer[..4] == link.buffer[..4];
      var upper := (Long(buffer[..4]) + FLASH_BASE) % 0x1_0000_0000;
      if upper < config.userBlock {
        EraseFlashRange(upper);
        link := link.(mem := mem);
        NothingPending(PumpState(), config.wide, buffer[..], Owed(link));
        EmptyAck();
      } else {
        NakPacket();
      }
    }

    // ----- transmitting -----

    /** The byte at `ptr` is the next byte of the reply. */
    method TakeCharacter(ghost todo: seq<byte>) returns (a: byte)
      requires Arrays() && TxOk(todo) && esc == ESC
      modifies `ptr, `checksum, `pos
      ensures old(pos) < |raw| && a == raw[old(pos)] && pos == old(pos) + 1
      ensures ReplyOk() && todo == StuffByte(a) + Stuff(raw[pos..])
      ensures length > 0 && SectionOk(pos - 1)
    {
      hide Word, Raw, Trailer, Checksum, Add, StuffByte;
      RawPieces(header[..HEADER_BODY], buffer[..Word(header[4], header[5])]);
      assert pos < |raw|;
      assert raw[..pos + 1] == raw[..pos] + [raw[pos]];
      ChecksumExtends(raw[..pos], raw[pos]);
      match ptr {
        case InHeader(at) =>
          a := header[at];
          ptr := InHeader(at + 1);
        case InBuffer(at) =>
          a := buffer[at];
          ptr := InBuffer(at + 1);
        case InFooter(at) =>
          a := footer[at];
          ptr := InFooter(at + 1);
      }
      checksum := Update(checksum, a);
      pos := pos + 1;
    }

    /** One byte of the reply's wire form goes out; after the last one the pilot listens again. */
    ghost predicate Sent(todo: seq<byte>)
      requires Arrays()
      reads `mode, `state, `esc, `length, `ptr, `checksum, `saveChecksum, `raw, `pos, `waitTx, header, footer, buffer
    {
      if todo == [] then RxOk(Hunting) && waitTx == 0 else TxOk(todo)
    }

    method TransmitByte(ghost todo: seq<byte>)
      requires Arrays() && TxOk(todo)
      modifies `mode, `state, `esc, `length, `ptr, `checksum, `pos, `waitTx, `sent, header, footer
      ensures todo != [] && Sent(todo[1..])
      ensures sent == old(sent) + [todo[0]]
      ensures |todo| > 1 ==> waitTx == old(waitTx)
    {
      hide Word, Checksum, Raw, Trailer, SectionOk, RxOk, Judge, Flip;
      if esc != ESC {
        sent := sent + [esc];
        esc := ESC;
        assert todo[1..] == Stuff(raw[pos..]);
        TXFinishCharacter();
      } else {
        TXNoEsc(todo);
      }
    }

    method TXNoEsc(ghost todo: seq<byte>)
      requires Arrays() && TxOk(todo) && esc == ESC
      modifies `mode, `state, `esc, `length, `ptr, `checksum, `pos, `waitTx, `sent, header, footer
      ensures todo != [] && Sent(todo[1..])
      ensures sent == old(sent) + [todo[0]]
      ensures |todo| > 1 ==> waitTx == old(waitTx)
    {
      hide Word, Checksum, Raw, Trailer, SectionOk, RxOk, Judge, Flip, StuffByte, Stuff;
      var a := TakeCharacter(todo);
      StuffedFront(a, Stuff(raw[pos..]));
      if a == ESC || a == START {
        esc := Flip(a);
        sent := sent + [ESC];
      } else {
        sent := sent + [a];
        StuffedLength(raw[pos..]);
        TXFinishCharacter();
      }
    }

    method TXFinishCharacter()
      requires Arrays() && mode == ModeTX && esc == ESC && ReplyOk()
      requires pos > 0 && length > 0 && SectionOk(pos - 1)
      modifies `mode, `state, `esc, `length, `ptr, `waitTx, header, footer
      ensures Sent(Stuff(raw[pos..]))
      ensures pos < |raw| ==> waitTx == old(waitTx)
    {
      hide Word, Checksum, Raw, Trailer, RxOk, Stuff;
      StuffedLength(raw[pos..]);
      length := length - 1;
      if length != 0 {
        return;
      }
      match state {
        case ToSendHeaderChecksum => SendHeaderChecksum();
        case ToSendBody => SendBody();
        case ToSendFooter => SendFooter();
        case ToSendDone => SendDone();
      }
    }

    method SendHeaderChecksum()
      requires Arrays() && mode == ModeTX && esc == ESC && ReplyOk()
      requires state == ToSendHeaderChecksum && length == 0 && SectionOk(pos)
      modifies `state, `length, header
      ensures TxOk(Stuff(raw[pos..])) && pos < |raw|
    {
      hide Word, Checksum, Raw, Stuff;
      RawPieces(header[..HEADER_BODY], buffer[..Word(header[4], header[5])]);
      header[6], header[7] := checksum.b, checksum.a;
      assert header[..HEADER_BODY] == old(header[..HEADER_BODY]);
      assert header[HEADER_BODY..] == raw[HEADER_BODY..HEADER_SIZE];
      length := 2;
      state := ToSendBody;
    }

    method SendBody()
      requires Arrays() && mode == ModeTX && esc == ESC && ReplyOk()
      requires state == ToSendBody && length == 0 && SectionOk(pos)
      modifies `state, `length, `ptr, footer
      ensures TxOk(Stuff(raw[pos..])) && pos < |raw|
    {
      hide Word, Checksum, Raw, Stuff;
      if Word(header[4], header[5]) == 0 {
        SendFooter();
        return;
      }
      length := Word(header[4], header[5]);
      ptr := InBuffer(0);
      state := ToSendFooter;
    }

    method SendFooter()
      requires Arrays() && mode == ModeTX && esc == ESC && ReplyOk()
      requires pos == HEADER_SIZE + Word(header[4], header[5])
      modifies `state, `length, `ptr, footer
      ensures TxOk(Stuff(raw[pos..])) && pos < |raw|
    {
      hide Word, Checksum, Raw, Stuff;
      RawPieces(header[..HEADER_BODY], buffer[..Word(header[4], header[5])]);
      footer[0], footer[1] := checksum.b, checksum.a;
      assert footer[..] == raw[pos..];
      ptr := InFooter(0);
      length := FOOTER_SIZE;
      state := ToSendDone;
    }

    method SendDone()
      requires Arrays()
      modifies `mode, `state, `esc, `length, `ptr, `waitTx
      ensures RxOk(Hunting) && waitTx == 0
    {
      waitTx := 0;
      Init();
    }

    // ----- main loop -----

    method ModeRXTurn(ghost canSend: bool)
      requires Valid() && link.mode.Listening?
      modifies this, header, footer, buffer
      ensures Valid() && link == Serve(config, old(link), canSend)
    {
      hide RingOk, BaudOk, Pending, TxOk, RxOk, Listen;
      var a := Read(BodyReceived(link.mode));
      if a.None? {
        AroundEarlier(BodyReceived(link.mode) + 1, BodyReceived(link.mode));
      } else {
        ReceiveByte(a.value, link.mode.rx);
      }
    }

    method ReceiveByte(byteRead: byte, ghost rx: Rx)
      requires link.mode == Listening(rx) && Around(BodyReceived(link.mode) + 1) && RxOk(rx)
      modifies this, header, footer, buffer
      ensures Valid() && link == Listen(config, old(link), rx, byteRead)
    {
      hide RingOk, BaudOk, Pending, TxOk, StretchOk, Judge, Checksum, Take, Flip, HearDecoded, PumpOk, BodyReceived;
      var b := byteRead;
      if b == START {
        ReceiveStart(BodyReceived(link.mode) + 1);
      } else if esc == 0 && b == ESC {
        ReceiveEscape(rx);
      } else {
        if esc != 0 {
          b := Flip(b);
          esc := 0;
        }
        RXCharacter(b, rx);
      }
    }

    method ReceiveStart(ghost received: nat)
      requires Around(received) && mode == ModeRX
      modifies `state, `esc, `length, `ptr, `checksum, `link
      ensures Valid() && link == old(link).(mode := Listening(Framed([], false)))
    {
      hide RingOk, BaudOk, Pending, TxOk, RxOk;
      RXHaveStart();
      AroundEarlier(received, 0);
      link := link.(mode := Listening(Framed([], false)));
    }

    method ReceiveEscape(ghost rx: Rx)
      requires link.mode == Listening(rx) && Around(BodyReceived(link.mode) + 1) && RxOk(rx) && esc == 0
      modifies `esc, `link
      ensures Valid() && link == old(link).(mode := Listening(if rx.Framed? then rx.(esc := true) else rx))
    {
      hide RingOk, BaudOk, Pending, TxOk, StretchOk, Judge, Checksum;
      ghost var received := BodyReceived(link.mode);
      esc := 1;
      AroundEarlier(received + 1, received);
      link := link.(mode := Listening(if rx.Framed? then rx.(esc := true) else rx));
    }

    /** `_PB_RXHaveCharacter`, with the test for a null pointer. */
    method RXCharacter(b: byte, ghost rx: Rx)
      requires link.mode == Listening(rx) && Around(BodyReceived(link.mode) + 1)
      requires RxOk(if rx.Framed? then rx.(esc := false) else rx)
      modifies this, header, footer, buffer
      ensures Valid() && link == if rx.Framed? then Take(config, old(link), rx.data, b) else old(link)
    {
      hide RingOk, BaudOk, Pending, TxOk, Judge, Take, Checksum, Word;
      if ptr == Null {
        checksum := Update(checksum, b);
        AroundEarlier(BodyReceived(link.mode) + 1, BodyReceived(link.mode));
      } else {
        RXHaveCharacter(b, rx.data, rx.esc);
      }
    }

    method ModeTXTurn(canSend: bool)
      requires Valid() && link.mode.Sending?
      modifies this, header, footer
      ensures Valid() && link == Serve(config, old(link), canSend)
    {
      hide RingOk, Pending, TxOk, RxOk, BaudOk, Emit;
      var _ := Read(0);
      AroundEarlier(1, 0);
      ghost var todo := link.mode.todo;
      if canSend {
        SendTurn(todo);
      }
    }

    method SendTurn(ghost todo: seq<byte>)
      requires link.mode == Sending(todo) && Around(0) && TxOk(todo)
      modifies `mode, `state, `esc, `length, `ptr, `checksum, `pos, `waitTx, `sent, `link, header, footer
      ensures todo != [] && Valid() && link == Emit(old(link), todo)
    {
      hide RingOk, Pending, TxOk, RxOk, SetBit, Stuff;
      TransmitByte(todo);
      link := Emit(link, todo);
    }

    method InitRXRing()
      requires Arrays()
      modifies `rxWrite, `rxRead
      ensures RingOk([])
    {
      rxWrite := 0;
      rxRead := 0;
    }

    method RunQueuedBaudRateChange(idle: bool)
      requires Valid() && Alive(link) && setBaudRate != 0
      modifies this
      ensures Valid() && link == Retune(old(link), idle)
    {
      hide RingOk, Pending, TxOk, RxOk, BodyReceived;
      if waitTx != 0 || !idle {
        return;
      }
      ghost var received := if link.mode.Listening? then BodyReceived(link.mode) else 0;
      AroundEarlier(received, 0);
      SetDivider();
    }

    /** The transmitter is completely idle: program the timer and start over. */
    method SetDivider()
      requires Around(0) && Alive(link) && setBaudRate != 0 && waitTx == 0
      modifies this
      ensures Valid() && link == Retune(old(link), true)
    {
      hide RingOk, BaudOk, Pending, TxOk, RxOk;
      ResetLink();
      assert Pumped(link).(queue := Pop(link.queue)) == Pumped(link);
      var _ := Read(0);
      AroundEarlier(1, 0);
    }

    method ResetLink()
      requires Around(0) && Alive(link) && setBaudRate != 0 && waitTx == 0
      modifies `mode, `state, `esc, `length, `ptr, `rxWrite, `rxRead, `timer, `setBaudRate, `newDivider, `waitTx, `link
      ensures Around(0) && RxOk(Hunting) && link.queue == [] && Pumped(link) == Retune(old(link), true)
      ensures link.mode == Listening(Hunting)
    {
      hide RingOk, BaudOk, Pending, TxOk, RxOk;
      assert link.queued == Some(newDivider) && !link.waiting by {
        QueuedDivider(link.queued, link.waiting);
      }
      ResetFields();
      link := link.(mode := Listening(Hunting), queue := [], queued := None, timer := timer);
    }

    lemma QueuedDivider(queued: Option<byte>, waiting: bool)
      requires BaudOk(queued, waiting) && setBaudRate != 0 && waitTx == 0
      ensures queued == Some(newDivider) && !waiting
    {
    }

    method ResetFields()
      requires Arrays()
      modifies `mode, `state, `esc, `length, `ptr, `rxWrite, `rxRead, `timer, `setBaudRate, `newDivider, `waitTx
      ensures timer == old(timer) + [TimerWrite(old(newDivider), |sent|)]
      ensures BaudOk(None, false) && RingOk([]) && RxOk(Hunting)
    {
      timer := timer + [TimerWrite(newDivider, |sent|)];
      setBaudRate := 0;
      newDivider := 0;
      waitTx := 0;
      Init();
      InitRXRing();
    }

    lemma ModesAgree()
      requires Valid()
      ensures link.mode.Listening? ==> mode == ModeRX
      ensures link.mode.Sending? ==> mode == ModeTX
    {
    }

    /** One turn of `_PB_Loop`. */
    method Turn(canSend: bool, idle: bool)
      requires Valid()
      modifies this, header, footer, buffer
      ensures Valid() && link == Step(config, old(link), Poll(canSend, idle))
    {
      hide RingOk, Pending, TxOk, RxOk, Serve;
      if exit != Looping {
        return;
      }
      ModesAgree();
      if mode == ModeRX {
        ModeRXTurn(canSend);
      } else {
        ModeTXTurn(canSend);
      }
      if exit == Looping && setBaudRate != 0 {
        RunQueuedBaudRateChange(idle);
      }
    }

    /** Power-up: variables initialised, buffers with whatever they hold. */
    constructor (c: Config, contents: seq<byte>, memory: Memory)
      requires ValidConfig(c) && |contents| == BUFFER_SIZE + 1
      ensures Valid() && config == c && link == PowerUp(contents, memory)
      ensures fresh(header) && fresh(footer) && fresh(buffer) && fresh(ring)
    {
      config := c;
      header := new byte[HEADER_SIZE](_ => 0);
      footer := new byte[FOOTER_SIZE](_ => 0);
      buffer := new byte[BUFFER_SIZE + 1](i requires 0 <= i < |contents| => contents[i]);
      ring := new byte[BUFFER_SIZE](_ => 0);
      rxWrite, rxRead := 0, 0;
      mode, state, esc, length, ptr := ModeRX, ToRXNothing, 0, 0, Null;
      checksum, saveChecksum := Sum(0, 0), Sum(0, 0);
      setBaudRate, newDivider, waitTx := 0, 0, 0;
      flashWriteCount, py, pz := 0, 0, 0;
      mem, sent, timer, exit := memory, [], [], Looping;
      log := [];
      link := PowerUp(contents, memory);
      raw, pos := [], 0;
      new;
      assert buffer[..] == contents;
    }

    /**
     * Every run: the pilot transmits, programs the timer and leaves the loop exactly as the
     * reference machine does, and memory is the reference's once the pending write is completed.
     */
    method Operate(events: seq<Event>)
      requires Valid()
      modifies this, header, footer, buffer, ring
      ensures Valid() && link == Run(config, old(link), events)
      ensures sent == link.sent && timer == link.timer
      ensures exit == (if link.mode.Started? then ToBios(link.mode.how)
        else if link.mode.Beyond? then OutOfBounds else Looping)
      ensures exit == Looping ==> Flush(PumpState(), config.wide, buffer[..]).device == Device(link.mem, link.log)
      ensures exit == Looping && flashWriteCount == 0 ==> mem == link.mem && log == link.log
    {
      hide Around, RxOk, TxOk, Step;
      var i := 0;
      while i < |events|
        invariant 0 <= i <= |events| && Valid()
        invariant Run(config, link, events[i..]) == Run(config, old(link), events)
      {
        ghost var before := link;
        assert events[i..][0] == events[i] && events[i..][1..] == events[i + 1..];
        DeadStays(events[i]);
        match events[i] {
          case Arrive(b) =>
            if exit == Looping {
              SerialIsr(b);
            }
          case Poll(canSend, idle) => Turn(canSend, idle);
        }
        assert link == Step(config, before, events[i]);
        i := i + 1;
      }
      AtRest();
    }

    lemma DeadStays(e: Event)
      requires Valid()
      ensures exit == Looping <==> Alive(link)
      ensures exit != Looping ==> Step(config, link, e) == link
    {
      hide RingOk, Pending, BaudOk, RxOk, TxOk, Serve;
    }

    lemma AtRest()
      requires Valid()
      ensures sent == link.sent && timer == link.timer
      ensures exit == (if link.mode.Started? then ToBios(link.mode.how)
        else if link.mode.Beyond? then OutOfBounds else Looping)
      ensures exit == Looping && flashWriteCount > 0 ==> pz + Remaining(config.wide, flashWriteCount) <= buffer.Length
      ensures exit == Looping ==> Flush(PumpState(), config.wide, buffer[..]).device == Device(link.mem, link.log)
      ensures exit == Looping && flashWriteCount == 0 ==> mem == link.mem && log == link.log
    {
      hide RingOk, BaudOk, RxOk, TxOk;
      if exit == Looping {
        var received := if link.mode.Listening? then BodyReceived(link.mode) else 0;
        FlushPending(PumpState(), config.wide, buffer[..], received, Owed(link));
      }
    }

    /** End of the stretch the state is working on, as an offset into its area. */
    ghost function StretchEnd(): nat
      requires Arrays()
      reads `state, header
    {
      match state
      case ToRXNothing => 0
      case ToRXHaveHeader => HEADER_BODY
      case ToSendHeaderChecksum => HEADER_BODY
      case ToRXHaveHeaderChecksum => HEADER_SIZE
      case ToSendBody => HEADER_SIZE
      case ToRXHaveBody => Word(header[4], header[5])
      case ToSendFooter => Word(header[4], header[5])
      case ToRXHaveFooter => FOOTER_SIZE
      case ToSendDone => FOOTER_SIZE
    }

    /**
     * In every reachable state `ptr` is null, or `ptr + length` is the end of the stretch in progress,
     * which lies inside its area. A byte whose escaped half is still to be sent counts as unsent.
     */
    lemma PointerInRegion()
      requires Valid() && exit == Looping
      ensures ptr == Null <==> state == ToRXNothing
      ensures ptr != Null ==> length > 0
      ensures ptr != Null ==> ptr.at + length == StretchEnd() + if mode == ModeTX && esc != ESC then 1 else 0
      ensures ptr.InHeader? ==> StretchEnd() <= header.Length
      ensures ptr.InBuffer? ==> StretchEnd() <= BUFFER_SIZE < buffer.Length
      ensures ptr.InFooter? ==> StretchEnd() <= footer.Length
    {
      hide RingOk, BaudOk, Pending, Checksum, Judge, Raw, Stuff;
    }
  }
}
