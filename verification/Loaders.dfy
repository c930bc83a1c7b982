/** The two loaders that fill the first 64K of memory from a serial flash: through a window, and flat. */
module Loaders {
  import opened Bytes
  import opened Memory

  const IMAGE_SIZE := 0x1_0000
  const WINDOW_START: word := 0xE000

  /** Physical address behind a logical address in the XPC window, on 20 address lines. */
  function Physical(xpc: byte, logical: word): nat {
    (xpc * 0x1000 + logical) % 0x10_0000
  }

  /** A 16-bit register incremented. */
  function Increment(w: word): word {
    (w + 1) % 0x1_0000
  }

  /** `dwjnz`: decrement, and loop while not zero. */
  function Decrement(w: word): word {
    (w + 0xFFFF) % 0x1_0000
  }

  lemma StoreNext(m: Memory, a: int, s: seq<byte>, k: nat)
    requires k < |s|
    ensures Store(m, a, s[..k])[a + k := s[k]] == Store(m, a, s[..k + 1])
  {
    assert s[..k + 1][..k] == s[..k];
  }

  /**
   * `OuterLoop`: eight windows of 8K, XPC moving on by two each time. It starts with the byte of XPC
   * for which the window begins at 2^20, that is 0, and wraps to 0 for the last one.
   */
  method BankedCopy(input: seq<byte>, memory: Memory, scratch: word) returns (mem: Memory, de: word)
    requires |input| == IMAGE_SIZE
    ensures mem == Store(memory, 0, input) && de == 0
  {
    mem, de := memory, scratch;
    var received := 0;
    var xpc: byte := 0xF2;
    var b: byte := 8;
    StoreNothing(memory, 0);
    while b != 0
      invariant 0 <= b <= 8 && received == (8 - b) * 0x2000
      invariant xpc == (0xF2 + 2 * (8 - b)) % 0x100
      invariant mem == Store(memory, 0, input[..received])
      invariant b < 8 ==> de == 0
      decreases b
    {
      mem, received, de := CopyWindow(input, memory, mem, xpc, received);
      xpc := (xpc + 2) % 0x100;
      b := b - 1;
    }
    assert input[..received] == input;
  }

  /** `InnerLoop`: from 0xE000 until DE rolls over. */
  method CopyWindow(input: seq<byte>, ghost memory: Memory, before: Memory, xpc: byte, start: nat)
    returns (mem: Memory, received: nat, de: word)
    requires start + 0x2000 <= |input| == IMAGE_SIZE && Physical(xpc, WINDOW_START) == start
    requires before == Store(memory, 0, input[..start])
    ensures received == start + 0x2000 && mem == Store(memory, 0, input[..received]) && de == 0
  {
    hide Store;
    mem, received, de := before, start, WINDOW_START;
    while true
      invariant WINDOW_START <= de && received == start + (de - WINDOW_START) < start + 0x2000
      invariant mem == Store(memory, 0, input[..received])
      decreases 0x1_0000 - de
    {
      var a := input[received];
      StoreNext(memory, 0, input, received);
      assert Physical(xpc, de) == received;
      mem := mem[Physical(xpc, de) := a];
      received := received + 1;
      de := Increment(de);
      if de == 0 {
        break;
      }
    }
  }

  /** `.ReadLoop`: PX is incremented before the store to PX - 1; a zero count stands for 65536 bytes. */
  method FlatCopy(input: seq<byte>, memory: Memory, count: word) returns (mem: Memory, bc: word)
    requires |input| == if count == 0 then IMAGE_SIZE else count
    ensures mem == Store(memory, 0, input) && bc == 0
  {
    hide Store;
    mem, bc := memory, count;
    var px := 0;
    StoreNothing(memory, 0);
    assert input[..0] == [];
    while true
      invariant 0 <= px < |input| && bc == (|input| - px) % 0x1_0000
      invariant mem == Store(memory, 0, input[..px])
      decreases |input| - px
    {
      StoreNext(memory, 0, input, px);
      px := px + 1;
      mem := mem[px - 1 := input[px - 1]];
      bc := Decrement(bc);
      if bc == 0 {
        break;
      }
    }
    assert input[..px] == input;
  }

  /** Byte k of the image ends up at address k, and no other cell changes. */
  lemma ImageInPlace(input: seq<byte>, memory: Memory, a: int)
    requires |input| == IMAGE_SIZE
    ensures Peek(Store(memory, 0, input), a) == if 0 <= a < IMAGE_SIZE then input[a] else Peek(memory, a)
  {
    PeekStored(memory, 0, input, a);
  }
}
