/** Byte-addressed memory, and the flash pump of the parallel-flash pilots. */
module Memory {
  import opened Bytes

  /** Cells never written since power-up are absent; they read like erased flash. */
  type Memory = map<int, byte>

  const ERASED: byte := 0xFF
  const FLASH_BASE := 0x80_0000
  /** Fast RAM is reached by remapping banks 2 and 3, so its cells get keys of their own. */
  const FAST_BANK := 0x1_0000_0000

  function Peek(m: Memory, a: int): byte {
    if a in m then m[a] else ERASED
  }

  function Fetch(m: Memory, a: int, n: nat): (s: seq<byte>)
    ensures |s| == n
  {
    if n == 0 then [] else Fetch(m, a, n - 1) + [Peek(m, a + n - 1)]
  }

  /** The bytes of `s` stored at consecutive addresses from `a`, in order. */
  function Store(m: Memory, a: int, s: seq<byte>): Memory {
    if s == [] then m else Store(m, a, s[..|s| - 1])[a + |s| - 1 := s[|s| - 1]]
  }

  function Erase(m: Memory, from: int, to: int): Memory {
    map a | a in m && !(from <= a < to) :: m[a]
  }

  lemma PeekErased(m: Memory, from: int, to: int, i: int)
    ensures Peek(Erase(m, from, to), i) == if from <= i < to then ERASED else Peek(m, i)
  {
  }

  // ----- plain copies -----

  /** A plain copy does not change flash: without the programming commands it ignores writes. */
  predicate IsFlash(a: int) {
    FLASH_BASE <= a < 2 * FLASH_BASE
  }

  function Poke(m: Memory, a: int, b: byte): Memory {
    if IsFlash(a) then m else m[a := b]
  }

  function Copied(m: Memory, a: int, s: seq<byte>): Memory {
    if s == [] then m else Poke(Copied(m, a, s[..|s| - 1]), a + |s| - 1, s[|s| - 1])
  }

  lemma {:induction false} PeekCopied(m: Memory, a: int, s: seq<byte>, i: int)
    ensures Peek(Copied(m, a, s), i) == if a <= i < a + |s| && !IsFlash(i) then s[i - a] else Peek(m, i)
    decreases |s|
  {
    if s == [] {
    } else {
      PeekCopied(m, a, s[..|s| - 1], i);
    }
  }

  /** How many bytes `copy` moves: it counts BC down, modulo 65536, after each byte, and stops at zero. */
  function Passes(bc: word): (n: nat)
    ensures n > 0
    decreases if bc == 0 then 0x1_0000 else bc
  {
    var left: word := if bc == 0 then 0xFFFF else bc - 1;
    if left == 0 then 1 else 1 + Passes(left)
  }

  lemma {:induction false} PassesOf(bc: word)
    ensures Passes(bc) == if bc == 0 then 0x1_0000 else bc
    decreases if bc == 0 then 0x1_0000 else bc
  {
    if bc == 1 {
    } else {
      PassesOf(if bc == 0 then 0xFFFF else bc - 1);
    }
  }

  // ----- stores -----

  lemma {:induction false} StoreConcat(m: Memory, a: int, s: seq<byte>, t: seq<byte>)
    ensures Store(Store(m, a, s), a + |s|, t) == Store(m, a, s + t)
    decreases |t|
  {
    if t == [] {
      assert s + t == s;
    } else {
      assert (s + t)[..|s + t| - 1] == s + t[..|t| - 1];
      StoreConcat(m, a, s, t[..|t| - 1]);
    }
  }

  lemma {:induction false} StoreElsewhere(m: Memory, a: int, s: seq<byte>, i: int)
    requires !(a <= i < a + |s|)
    ensures i in Store(m, a, s) <==> i in m
    ensures i in m ==> Store(m, a, s)[i] == m[i]
    decreases |s|
  {
    if s == [] {
    } else {
      StoreElsewhere(m, a, s[..|s| - 1], i);
    }
  }

  lemma {:induction false} StoreHere(m: Memory, a: int, s: seq<byte>, i: int)
    requires a <= i < a + |s|
    ensures i in Store(m, a, s) && Store(m, a, s)[i] == s[i - a]
    decreases |s|
  {
    if i == a + |s| - 1 {
    } else {
      StoreHere(m, a, s[..|s| - 1], i);
    }
  }

  predicate Has(m: Memory, a: int, b: byte) {
    a in m && m[a] == b
  }

  /** These cells have been written, with these bytes last. */
  predicate Holds(m: Memory, a: int, s: seq<byte>) {
    forall i :: 0 <= i < |s| ==> Has(m, a + i, s[i])
  }

  /** A store changes nothing exactly when the cells hold the data already. */
  lemma StoreAgain(m: Memory, a: int, s: seq<byte>)
    ensures Store(m, a, s) == m <==> Holds(m, a, s)
  {
    hide Store;
    forall i ensures if a <= i < a + |s| then i in Store(m, a, s) && Store(m, a, s)[i] == s[i - a]
                     else (i in Store(m, a, s) <==> i in m) && (i in m ==> Store(m, a, s)[i] == m[i])
    {
      if a <= i < a + |s| {
        StoreHere(m, a, s, i);
      } else {
        StoreElsewhere(m, a, s, i);
      }
    }
    if Holds(m, a, s) {
      forall i | a <= i < a + |s| ensures i in m && m[i] == s[i - a] {
        assert Has(m, a + (i - a), s[i - a]);
      }
      assert Store(m, a, s) == m;
    }
    if Store(m, a, s) == m {
      forall i | 0 <= i < |s| ensures Has(m, a + i, s[i]) {
        StoreHere(m, a, s, a + i);
      }
    }
  }

  lemma HoldsElsewhere(m: Memory, a: int, s: seq<byte>, b: int, t: seq<byte>)
    requires b == a + |s|
    ensures Holds(Store(m, a, s), b, t) <==> Holds(m, b, t)
  {
    hide Store;
    if Holds(m, b, t) {
      forall i | 0 <= i < |t| ensures Has(Store(m, a, s), b + i, t[i]) {
        StoreElsewhere(m, a, s, b + i);
        assert Has(m, b + i, t[i]);
      }
    }
    if Holds(Store(m, a, s), b, t) {
      forall i | 0 <= i < |t| ensures Has(m, b + i, t[i]) {
        StoreElsewhere(m, a, s, b + i);
        assert Has(Store(m, a, s), b + i, t[i]);
      }
    }
  }

  lemma StoreNothing(m: Memory, a: int)
    ensures Store(m, a, []) == m
  {
  }

  lemma {:induction false} PeekStored(m: Memory, a: int, s: seq<byte>, i: int)
    ensures Peek(Store(m, a, s), i) == if a <= i < a + |s| then s[i - a] else Peek(m, i)
    decreases |s|
  {
    if s == [] {
    } else {
      PeekStored(m, a, s[..|s| - 1], i);
    }
  }

  lemma {:induction false} FetchStored(m: Memory, a: int, s: seq<byte>, n: nat)
    requires n <= |s|
    ensures Fetch(Store(m, a, s), a, n) == s[..n]
  {
    if n == 0 {
    } else {
      FetchStored(m, a, s, n - 1);
      PeekStored(m, a, s, a + n - 1);
      assert s[..n] == s[..n - 1] + [s[n - 1]];
    }
  }

  // ----- flash -----

  /** One programming operation. */
  datatype Cell = Cell(at: int, value: byte)

  /** The operations that program a block: each byte at its own address, once and in order. */
  function Cells(a: int, s: seq<byte>): (cells: seq<Cell>)
    ensures |cells| == |s|
  {
    seq(|s|, i requires 0 <= i < |s| => Cell(a + i, s[i]))
  }

  /** Memory, and every programming operation flash has seen. */
  datatype Device = Device(mem: Memory, log: seq<Cell>)

  function Program(d: Device, a: int, s: seq<byte>): Device {
    Device(Store(d.mem, a, s), d.log + Cells(a, s))
  }

  lemma ProgramConcat(d: Device, a: int, s: seq<byte>, t: seq<byte>)
    ensures Program(Program(d, a, s), a + |s|, t) == Program(d, a, s + t)
  {
    StoreConcat(d.mem, a, s, t);
    assert d.log + Cells(a, s) + Cells(a + |s|, t) == d.log + Cells(a, s + t);
  }

  lemma ProgramNothing(d: Device, a: int)
    ensures Program(d, a, []) == d
  {
    assert d.log + Cells(a, []) == d.log;
  }

  // ----- write-behind -----

  /** Rounded up to a whole number of words. */
  function Even(n: nat): nat {
    n + n % 2
  }

  /** Bytes the pump still has to program when its counter reads `count`. */
  function Remaining(wide: bool, count: nat): nat {
    if wide then Even(count) else count
  }

  /** Flash once a pending write is through: what is left of the buffer, programmed at once. */
  function Settled(d: Device, wide: bool, py: int, pz: nat, count: nat, buffer: seq<byte>): Device
    requires pz + Remaining(wide, count) <= |buffer|
  {
    Program(d, py, buffer[pz..pz + Remaining(wide, count)])
  }

  /** 16-bit flash refuses odd addresses and odd sizes; the pilot ignores the error code. */
  predicate Refuses(wide: bool, address: int, size: nat) {
    wide && (address % 2 != 0 || size % 2 != 0)
  }

  /** `_ProgramFlashBlock`. */
  function ProgramBlock(d: Device, wide: bool, address: int, data: seq<byte>): Device {
    if Refuses(wide, address, |data|) then d else Program(d, address, data)
  }

  /** The pump's registers; `count` is `flashWriteCount`, `pz` an offset into the packet buffer. */
  datatype Pump = Pump(device: Device, py: int, pz: nat, count: nat)

  /** What `_PB_Read` does to flash before it looks at the ring. */
  function PumpOnce(p: Pump, wide: bool, buffer: seq<byte>): Pump
    requires p.count > 0 ==> p.pz + Remaining(wide, p.count) <= |buffer|
  {
    if p.count == 0 then p
    else if !wide then
      Pump(Program(p.device, p.py, buffer[p.pz..p.pz + 1]), p.py + 1, p.pz + 1, p.count - 1)
    else if (p.count - 1) % 2 != 0 then p.(count := p.count - 1)
    else Pump(Program(p.device, p.py, buffer[p.pz..p.pz + 2]), p.py + 2, p.pz + 2, p.count - 1)
  }

  /** What the dispatcher does with a write that is still pending. */
  function Flush(p: Pump, wide: bool, buffer: seq<byte>): Pump
    requires p.count > 0 ==> p.pz + Remaining(wide, p.count) <= |buffer|
  {
    if p.count == 0 then p
    else p.(device := ProgramBlock(p.device, wide, p.py, buffer[p.pz..p.pz + Remaining(wide, p.count)]), count := 0)
  }

  function PumpTimes(p: Pump, wide: bool, buffer: seq<byte>, times: nat): (q: Pump)
    requires p.count > 0 ==> p.pz + Remaining(wide, p.count) <= |buffer|
    ensures q.count > 0 ==> q.pz + Remaining(wide, q.count) <= |buffer|
    decreases times
  {
    if times == 0 then p else PumpTimes(PumpOnce(p, wide, buffer), wide, buffer, times - 1)
  }

  /** One pump step programs what it removes from the pending part: the settled flash stays. */
  lemma PumpOnceSettles(p: Pump, wide: bool, buffer: seq<byte>)
    requires p.pz + Remaining(wide, p.count) <= |buffer|
    ensures var q := PumpOnce(p, wide, buffer);
      && q.pz + Remaining(wide, q.count) == p.pz + Remaining(wide, p.count)
      && q.py - q.pz == p.py - p.pz && (wide ==> q.py % 2 == p.py % 2)
      && Settled(q.device, wide, q.py, q.pz, q.count, buffer) == Settled(p.device, wide, p.py, p.pz, p.count, buffer)
  {
    hide Program;
    var q := PumpOnce(p, wide, buffer);
    if q.pz > p.pz {
      var unit, rest := buffer[p.pz..q.pz], buffer[q.pz..q.pz + Remaining(wide, q.count)];
      assert buffer[p.pz..p.pz + Remaining(wide, p.count)] == unit + rest;
      ProgramConcat(p.device, p.py, unit, rest);
    }
  }

  // ----- a write the flush would refuse -----

  datatype LateWrite = LateWrite(at: int, data: seq<byte>, count: nat)

  /** What is left of a word-wide write to an odd address, which only the pump can program. */
  type Late = l: LateWrite | |l.data| == Even(l.count) witness LateWrite(0, [], 0)

  const NOTHING_LATE: Late := LateWrite(0, [], 0)

  /** What a pilot owes its host: flash as it will be, but for a late write. */
  datatype Goal = Goal(device: Device, late: Late)

  /** The pump's step on a late write. */
  function Trickle(g: Goal): Goal {
    if g.late.count == 0 then g
    else if (g.late.count - 1) % 2 != 0 then g.(late := g.late.(count := g.late.count - 1))
    else
      Goal(Program(g.device, g.late.at, g.late.data[..2]),
           LateWrite(g.late.at + 2, g.late.data[2..], g.late.count - 1))
  }

  function TrickleTimes(g: Goal, times: nat): Goal
    decreases times
  {
    if times == 0 then g else TrickleTimes(Trickle(g), times - 1)
  }

  lemma {:induction false} TrickleNothing(g: Goal, times: nat)
    requires g.late.count == 0
    ensures TrickleTimes(g, times) == g
    decreases times
  {
    if times == 0 {
    } else {
      TrickleNothing(g, times - 1);
    }
  }

  lemma {:induction false} TrickleTimesAdd(g: Goal, times: nat, more: nat)
    ensures TrickleTimes(TrickleTimes(g, times), more) == TrickleTimes(g, times + more)
    decreases times
  {
    hide Trickle;
    if times == 0 {
    } else {
      TrickleTimesAdd(Trickle(g), times - 1, more);
    }
  }

  /** So many reads into a late write, so much of it is programmed, each byte once and in order. */
  lemma {:induction false} LatePrograms(g: Goal, times: nat)
    ensures var left := if times < g.late.count then g.late.count - times else 0;
      && Even(left) <= |g.late.data| && TrickleTimes(g, times).late.count == left
      && TrickleTimes(g, times).device == Program(g.device, g.late.at, g.late.data[..|g.late.data| - Even(left)])
    decreases times
  {
    hide Program;
    var left := if times < g.late.count then g.late.count - times else 0;
    if times == 0 || g.late.count == 0 {
      TrickleNothing(g.(late := NOTHING_LATE), times);
      if g.late.count == 0 {
        TrickleNothing(g, times);
      }
      assert g.late.data[..0] == [];
      ProgramNothing(g.device, g.late.at);
    } else {
      LatePrograms(Trickle(g), times - 1);
      if (g.late.count - 1) % 2 == 0 {
        var data, end := g.late.data, |g.late.data| - Even(left);
        assert data[..2] + data[2..][..end - 2] == data[..end];
        ProgramConcat(g.device, g.late.at, data[..2], data[2..][..end - 2]);
      }
    }
  }

  // ----- the write-behind invariant -----

  /** How far the pump got in the buffer, counting the first half of a word. */
  function Lead(p: Pump, wide: bool): nat {
    if wide then p.pz + p.count % 2 else p.pz
  }

  /** Length, address and type in front of the data of a WRITE. */
  const WRITE_HEADER := 7

  /** What is pending lies in a part of the buffer the receiver, `received` bytes into a body, has not reached. */
  predicate Ahead(p: Pump, wide: bool, buffer: seq<byte>, received: nat) {
    && WRITE_HEADER <= p.pz && p.pz + Remaining(wide, p.count) <= |buffer|
    && (wide || p.pz + p.count < |buffer|)
    && received + WRITE_HEADER <= Lead(p, wide)
  }

  /**
   * The write-behind invariant: completing the pending write turns flash into the goal's, or what is
   * pending is the goal's late write.
   */
  predicate Pending(p: Pump, wide: bool, buffer: seq<byte>, received: nat, goal: Goal) {
    if p.count == 0 then p.device == goal.device && goal.late.count == 0
    else
      && Ahead(p, wide, buffer, received)
      && if wide && p.py % 2 != 0 then
           && p.device == goal.device
           && goal.late == LateWrite(p.py, buffer[p.pz..p.pz + Even(p.count)], p.count)
         else
           && Settled(p.device, wide, p.py, p.pz, p.count, buffer) == goal.device
           && goal.late.count == 0
  }

  /** Every read pumps once, which makes room for the byte it may go on to store. */
  lemma PumpOncePending(p: Pump, wide: bool, buffer: seq<byte>, received: nat, goal: Goal)
    requires Pending(p, wide, buffer, received, goal)
    ensures Pending(PumpOnce(p, wide, buffer), wide, buffer, received + 1, Trickle(goal))
  {
    hide Program;
    if p.count > 0 {
      PumpOnceSettles(p, wide, buffer);
      var q := PumpOnce(p, wide, buffer);
      if q.count == 0 {
        assert buffer[q.pz..q.pz] == [];
        ProgramNothing(q.device, q.py);
      }
      if wide && p.py % 2 != 0 {
        assert goal.late.data[..2] == buffer[p.pz..p.pz + 2];
        assert goal.late.data[2..] == buffer[p.pz + 2..p.pz + Even(p.count)];
      }
    }
  }

  lemma PendingEarlier(p: Pump, wide: bool, buffer: seq<byte>, received: nat, earlier: nat, goal: Goal)
    requires Pending(p, wide, buffer, received, goal) && earlier <= received
    ensures Pending(p, wide, buffer, earlier, goal)
  {
  }

  lemma NothingPending(p: Pump, wide: bool, buffer: seq<byte>, goal: Goal)
    requires p.count == 0 && p.device == goal.device && goal.late.count == 0
    ensures Pending(p, wide, buffer, 0, goal)
  {
  }

  /** Bytes behind the receive offset may change at will: what is pending does not see them. */
  lemma PlacePending(p: Pump, wide: bool, buffer: seq<byte>, k: nat, b: byte, goal: Goal)
    requires k < |buffer| && Pending(p, wide, buffer, k + 1, goal)
    ensures Pending(p, wide, buffer[k := b], k + 1, goal)
  {
    if p.count > 0 {
      var end := p.pz + Remaining(wide, p.count);
      assert buffer[k := b][p.pz..end] == buffer[p.pz..end];
    }
  }

  /** The flush reaches the goal; a late write it refuses. */
  lemma FlushPending(p: Pump, wide: bool, buffer: seq<byte>, received: nat, goal: Goal)
    requires Pending(p, wide, buffer, received, goal)
    ensures p.count > 0 ==> p.pz + Remaining(wide, p.count) <= |buffer| && (wide || p.pz + p.count < |buffer|)
    ensures Flush(p, wide, buffer).device == goal.device && Flush(p, wide, buffer).count == 0
  {
  }

  // ----- the whole write -----

  /** What the pump has done after `times` steps: programmed the buffer up to its offset, each byte once. */
  lemma {:induction false} PumpTimesPrograms(p: Pump, wide: bool, buffer: seq<byte>, times: nat)
    requires p.pz + Remaining(wide, p.count) <= |buffer|
    ensures var q := PumpTimes(p, wide, buffer, times);
      && q.count == (if times < p.count then p.count - times else 0)
      && p.pz <= q.pz && q.pz + Remaining(wide, q.count) == p.pz + Remaining(wide, p.count)
      && q.py - q.pz == p.py - p.pz && (wide ==> q.py % 2 == p.py % 2)
      && q.device == Program(p.device, p.py, buffer[p.pz..q.pz])
    decreases times
  {
    hide Program;
    var q := PumpTimes(p, wide, buffer, times);
    if times == 0 {
      assert buffer[p.pz..p.pz] == [];
      ProgramNothing(p.device, p.py);
    } else {
      var p' := PumpOnce(p, wide, buffer);
      PumpOnceSettles(p, wide, buffer);
      PumpOncePrograms(p, wide, buffer);
      PumpTimesPrograms(p', wide, buffer, times - 1);
      assert buffer[p.pz..q.pz] == buffer[p.pz..p'.pz] + buffer[p'.pz..q.pz];
      ProgramConcat(p.device, p.py, buffer[p.pz..p'.pz], buffer[p'.pz..q.pz]);
    }
  }

  lemma PumpOncePrograms(p: Pump, wide: bool, buffer: seq<byte>)
    requires p.pz + Remaining(wide, p.count) <= |buffer|
    ensures var q := PumpOnce(p, wide, buffer);
      p.pz <= q.pz <= |buffer| && q.device == Program(p.device, p.py, buffer[p.pz..q.pz])
  {
    hide Program;
    assert buffer[p.pz..p.pz] == [];
    ProgramNothing(p.device, p.py);
  }

  /** The flush cannot finish: some of a word-wide write to an odd address is left. */
  predicate CutShort(p: Pump, wide: bool, times: nat) {
    wide && p.py % 2 != 0 && times < p.count
  }

  /** How many bytes are programmed after so many pump steps. */
  function Done(p: Pump, wide: bool, times: nat): nat {
    if times < p.count then Remaining(wide, p.count) - Remaining(wide, p.count - times) else Remaining(wide, p.count)
  }

  /**
   * Any number of pump steps and then a flush perform these operations: all of the block, each byte once
   * and in order with at most one padding byte after it, or if an odd write is cut short what was done by then.
   */
  lemma Operations(p: Pump, wide: bool, buffer: seq<byte>, times: nat)
    requires p.pz + Remaining(wide, p.count) <= |buffer|
    ensures var block := buffer[p.pz..p.pz + Remaining(wide, p.count)];
      var q := Flush(PumpTimes(p, wide, buffer, times), wide, buffer);
      && q.count == 0 && p.count <= |block| <= p.count + 1 && Done(p, wide, times) <= |block|
      && (CutShort(p, wide, times) ==> Done(p, wide, times) < |block|)
      && q.device == Program(p.device, p.py, if CutShort(p, wide, times) then block[..Done(p, wide, times)] else block)
  {
    hide Program, PumpTimes;
    PumpTimesPrograms(p, wide, buffer, times);
    var r := PumpTimes(p, wide, buffer, times);
    var end := p.pz + Remaining(wide, p.count);
    assert buffer[p.pz..end][..r.pz - p.pz] == buffer[p.pz..r.pz];
    assert buffer[p.pz..end] == buffer[p.pz..r.pz] + buffer[r.pz..end];
    ProgramConcat(p.device, p.py, buffer[p.pz..r.pz], buffer[r.pz..end]);
    if r.count == 0 {
      assert buffer[p.pz..r.pz] == buffer[p.pz..end];
    }
  }

  /**
   * So flash has seen exactly the operations of the whole block if and only if no odd write is cut short, and
   * memory is as if it had if and only if that, or the cells that were dropped held their data already.
   */
  lemma PumpThenFlush(p: Pump, wide: bool, buffer: seq<byte>, times: nat)
    requires p.pz + Remaining(wide, p.count) <= |buffer|
    ensures var q := Flush(PumpTimes(p, wide, buffer, times), wide, buffer);
      var block, done := buffer[p.pz..p.pz + Remaining(wide, p.count)], Done(p, wide, times);
      && done <= |block|
      && (q.device.log == p.device.log + Cells(p.py, block) <==> !CutShort(p, wide, times))
      && (q.device.mem == Store(p.device.mem, p.py, block) <==>
           !CutShort(p, wide, times) || Holds(p.device.mem, p.py + done, block[done..]))
  {
    hide Store;
    Operations(p, wide, buffer, times);
    var block, done := buffer[p.pz..p.pz + Remaining(wide, p.count)], Done(p, wide, times);
    if CutShort(p, wide, times) {
      assert block == block[..done] + block[done..];
      StoreConcat(p.device.mem, p.py, block[..done], block[done..]);
      StoreAgain(Store(p.device.mem, p.py, block[..done]), p.py + done, block[done..]);
      HoldsElsewhere(p.device.mem, p.py, block[..done], p.py + done, block[done..]);
      assert |Cells(p.py, block[..done])| < |Cells(p.py, block)|;
    }
  }
}
