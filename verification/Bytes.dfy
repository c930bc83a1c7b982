/** Bytes, 16-bit words and the few bit operations the Rabbit code performs on them. */
module Bytes {
  type byte = x: int | 0 <= x < 0x100
  type word = x: int | 0 <= x < 0x1_0000
  type long = x: int | 0 <= x < 0x1_0000_0000

  datatype Option<+T> = None | Some(value: T)

  /** The high byte of a word: how often 256 goes into it. */
  function Hi(w: word): (h: byte)
    ensures 0x100 * h as int <= w < 0x100 * h as int + 0x100
  {
    if w < 0x100 then 0 else Hi(w - 0x100) + 1
  }

  function Lo(w: word): byte {
    w - 0x100 * Hi(w) as int
  }

  function Word(lo: byte, hi: byte): word {
    lo as int + 0x100 * hi as int
  }

  function Long(s: seq<byte>): long
    requires |s| == 4
  {
    s[0] as int + 0x100 * s[1] as int + 0x1_0000 * s[2] as int + 0x100_0000 * s[3] as int
  }

  /** `xor 0x20`: toggle bit 5. */
  function Flip(b: byte): byte {
    if b / 0x20 % 2 == 0 then b + 0x20 else b - 0x20
  }

  /** `or mask`, for the masks 0x80 and 0x40. */
  function SetBit(b: byte, mask: byte): byte
    requires mask == 0x40 || mask == 0x80
  {
    if mask == 0x80 then (if b < 0x80 then b + 0x80 else b)
    else if b / 0x40 % 2 == 0 then b + 0x40 else b
  }

  lemma HalvesOfWord(lo: byte, hi: byte)
    ensures Lo(Word(lo, hi)) == lo && Hi(Word(lo, hi)) == hi
  {
  }

  lemma HighIsQuotient(w: word)
    ensures Hi(w) == w / 0x100 && Lo(w) == w % 0x100
  {
    var h := Hi(w);
    hide Hi;
    assert w == 0x100 * h as int + Lo(w);
  }

  lemma ZeroWord()
    ensures Lo(0) == 0 && Hi(0) == 0 && Word(0, 0) == 0
  {
  }

  lemma WordOfHalves(w: word)
    ensures Word(Lo(w), Hi(w)) == w
  {
  }

  lemma SameWord(lo: byte, hi: byte, lo': byte, hi': byte)
    ensures Word(lo, hi) == Word(lo', hi') <==> lo == lo' && hi == hi'
  {
  }

  /** Bit 5 changes, and no other. */
  lemma FlipIsXor(b: byte)
    ensures Flip(b) % 0x20 == b % 0x20
    ensures Flip(b) / 0x20 % 2 != b / 0x20 % 2
    ensures Flip(b) / 0x40 == b / 0x40
  {
  }

  /** With 0x80 bit 7 is set, with 0x40 bit 6, and the other bits stay. */
  lemma SetBitIsOr(b: byte)
    ensures SetBit(b, 0x80) == 0x80 + b % 0x80
    ensures SetBit(b, 0x40) == b / 0x80 * 0x80 + 0x40 + b % 0x40
  {
  }

  lemma FlipTwice(b: byte)
    ensures Flip(Flip(b)) == b
  {
  }
}
