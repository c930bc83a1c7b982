/** Linear addresses to a segment and an offset in the XPC window: four routines over the registers. */
module Segments {
  import opened Bytes

  type bit = x: int | 0 <= x < 2

  // ----- instructions -----

  /** `add hl, hl`: the sum and the carry. */
  function AddSelf(w: word): (word, bit) {
    (2 * w % 0x1_0000, w / 0x8000)
  }

  function Rl(w: word, carry: bit): word {
    2 * w % 0x1_0000 + carry
  }

  /** `rr`: the bit shifted out is the new carry. */
  function Rr(w: word, carry: bit): (word, bit) {
    (w / 2 + 0x8000 * carry, w % 2)
  }

  function Rra(a: byte, carry: bit): (byte, bit) {
    (a / 2 + 0x80 * carry, a % 2)
  }

  function Rlca(a: byte): byte {
    2 * a % 0x100 + a / 0x80
  }

  /** `sub x`, and `sbc a, 0` with the borrow as `x`: the difference modulo 256 and the borrow. */
  function Sub(a: byte, x: byte): (byte, bit) {
    if a >= x then (a - x, 0) else (a - x + 0x100, 1)
  }

  // ----- what a pair means -----

  /** The address the hardware forms from a segment and an offset. */
  function Formed(segment: word, offset: word): nat {
    segment * 0x1000 + offset
  }

  /** In window `x` the pair stands for linear address `a`, on a bus that reaches `space` bytes. */
  predicate Names(segment: word, offset: word, a: nat, x: nat, space: nat)
    requires space > 0
  {
    offset / 0x1000 == x && (Formed(segment, offset) - a) % space == 0
  }

  const SPACE_24 := 0x100_0000
  const SPACE_20 := 0x10_0000

  /** A linear address without its low twelve bits. */
  function Page(a: byte, hl: word): nat {
    a * 0x10 + hl / 0x1000
  }

  function Linear(a: byte, hl: word): nat {
    a * 0x1_0000 + hl
  }

  /** A pair whose segment is right modulo `m` names the address as far as `m` pages reach. */
  lemma PairNames(segment: word, a: byte, hl: word, x: nat, k: int, m: nat)
    requires x < 0x10 && m > 0 && segment - (Page(a, hl) - x) == k * m
    ensures Names(segment, x * 0x1000 + hl % 0x1000, Linear(a, hl), x, m * 0x1000)
  {
    assert Formed(segment, x * 0x1000 + hl % 0x1000) - Linear(a, hl) == (segment - (Page(a, hl) - x)) * 0x1000;
    assert (k * m) * 0x1000 == k * (m * 0x1000);
    Multiple(k, m * 0x1000);
  }

  lemma Multiple(k: int, m: nat)
    requires m > 0
    ensures k * m % m == 0
  {
    var q, r := k * m / m, k * m % m;
    assert (k - q) * m == r;
    assert k - q >= 1 ==> (k - q) * m >= m;
    assert k - q <= -1 ==> (k - q) * m <= 0 - m;
  }

  // ----- the routines -----

  /** `add hl, hl` and `rl bc`: the bits that leave the two registers. */
  method Double(bc: word, hl: word) returns (bc': word, hl': word, ghost c: bit, ghost d: bit)
    ensures 2 * hl == hl' + 0x1_0000 * c && 2 * bc + c == bc' + 0x1_0000 * d
  {
    var sum := AddSelf(hl);
    hl' := sum.0;
    bc' := Rl(bc, sum.1);
    c, d := sum.1, bc / 0x8000;
  }

  method Double4(bc: word, hl: word) returns (bc': word, hl': word, ghost d: nat)
    ensures hl' == 0x10 * (hl % 0x1000)
    ensures 0x10 * bc + hl / 0x1000 == bc' + 0x1_0000 * d
  {
    ghost var c1: int, c2: int, c3: int, c4: int, d1: int, d2: int, d3: int, d4: int;
    bc', hl', c1, d1 := Double(bc, hl);
    bc', hl', c2, d2 := Double(bc', hl');
    bc', hl', c3, d3 := Double(bc', hl');
    bc', hl', c4, d4 := Double(bc', hl');
    ghost var c := 8 * c1 + 4 * c2 + 2 * c3 + c4;
    d := 8 * d1 + 4 * d2 + 2 * d3 + d4;
    assert 0x10 * hl == hl' + 0x1_0000 * c;
    assert c == hl / 0x1000;
  }

  /** `sub x` on the low half and `sbc a, 0` on the high half. */
  method SubtractPair(w: word, x: byte) returns (lo: byte, hi: byte, borrow: bit)
    ensures Word(lo, hi) == w - x + 0x1_0000 * borrow
  {
    var low := Sub(Lo(w), x);
    var high := Sub(Hi(w), low.1);
    lo, hi, borrow := low.0, high.0, high.1;
  }

  /** Shift the window number into the top four bits, and the offset back to its place. */
  method InsertE(hl: word, ghost o: word) returns (hl': word)
    requires hl == 0x10 * o
    ensures hl' == 0xE000 + o
  {
    var r := Rr(hl, 0);
    r := Rr(r.0, 1);
    r := Rr(r.0, 1);
    r := Rr(r.0, 1);
    hl' := r.0;
  }

  /** `rra` and `rr hl`: the low bit of A goes on top of HL. */
  method InsertBit(a: byte, carry: bit, hl: word) returns (a': byte, carry': bit, hl': word, ghost b: bit)
    ensures a == 2 * (a' - 0x80 * carry) + b && hl == 2 * (hl' - 0x8000 * b) + carry'
  {
    var x := Rra(a, carry);
    var r := Rr(hl, x.1);
    a', carry', hl', b := x.0, r.1, r.0, x.1;
  }

  method InsertWindow(a: byte, carry: bit, hl: word, ghost o: word) returns (hl': word)
    requires hl == 0x10 * o
    ensures hl' == a % 0x10 * 0x1000 + o
  {
    var a', c;
    ghost var b1: int, b2: int, b3: int, b4: int;
    a', c, hl', b1 := InsertBit(a, carry, hl);
    assert c == 0 && hl' == 8 * o + 0x8000 * b1;
    a', c, hl', b2 := InsertBit(a', c, hl');
    assert c == 0 && hl' == 4 * o + 0x4000 * b1 + 0x8000 * b2;
    a', c, hl', b3 := InsertBit(a', c, hl');
    assert c == 0 && hl' == 2 * o + 0x2000 * b1 + 0x4000 * b2 + 0x8000 * b3;
    a', c, hl', b4 := InsertBit(a', c, hl');
    LowNibble(a, a' - 0x10 * carry, 8 * b4 + 4 * b3 + 2 * b2 + b1);
  }

  lemma LowNibble(a: byte, k: int, n: nat)
    requires a == 0x10 * k + n && n < 0x10
    ensures a % 0x10 == n
  {
  }

  /** `_LIN2SEG`: AHL holds the address, B anything; the pair comes back in JK and HL. */
  method Lin2Seg(b: byte, a: byte, hl: word) returns (jk: word, hl': word)
    ensures Names(jk, hl', Linear(a, hl), 0xE, SPACE_24) && jk < 0x1000
  {
    hide Names, Linear, Sub, AddSelf;
    var bc, de, d := Double4(Word(a, b), hl);
    var lo, hi, borrow := SubtractPair(bc, 0x0E);
    jk := Word(lo, hi % 0x10);
    hl' := InsertE(de, hl % 0x1000);
    ghost var k := MaskedSegment(b, a, hl / 0x1000, bc, d, lo, hi, borrow);
    PairNames(jk, a, hl, 0xE, k, 0x1000);
  }

  lemma MaskedSegment(b: int, a: int, n: int, bc: int, d: int, lo: int, hi: int, borrow: int) returns (k: int)
    requires 0x10 * (a + 0x100 * b) + n == bc + 0x1_0000 * d && lo + 0x100 * hi == bc - 0xE + 0x1_0000 * borrow
    ensures lo + 0x100 * (hi % 0x10) - (a * 0x10 + n - 0xE) == k * 0x1000
  {
    k := b - 0x10 * d + 0x10 * borrow - hi / 0x10;
    assert hi == 0x10 * (hi / 0x10) + hi % 0x10;
  }

  /** `_GEN_LIN2SEG(X)`: right exactly for the sixteen windows there are. */
  method GenLin2Seg(x: byte, a: byte, hl: word) returns (jk: word, hl': word)
    ensures x < 0x10 ==> Names(jk, hl', Linear(a, hl), x, SPACE_24)
    ensures x >= 0x10 ==> (Formed(jk, hl') - Linear(a, hl)) % SPACE_24 != 0
  {
    hide Names;
    var de, shifted, d := Double4(Word(a, 0), hl);
    var lo, hi, borrow := SubtractPair(de, x);
    jk := Word(lo, hi);
    hl' := InsertWindow(x, borrow, shifted, hl % 0x1000);
    if x < 0x10 {
      PairNames(jk, a, hl, x, 0x10 * borrow as int, 0x1000);
    } else {
      OffWindow(Formed(jk, hl') - Linear(a, hl), 0x10 * borrow as int, x, jk, a * 0x10 + hl / 0x1000, hl % 0x1000);
    }
  }

  /** A window number beyond 15 loses its high digit in the offset but not in the segment. */
  lemma OffWindow(v: int, k: int, x: byte, jk: int, page: int, low: int)
    requires x >= 0x10 && jk == page - x + 0x1000 * k
    requires v == jk * 0x1000 + (x % 0x10 * 0x1000 + low) - (page * 0x1000 + low)
    ensures v % SPACE_24 != 0
  {
    var h: int := x / 0x10;
    assert v == SPACE_24 * k - 0x1_0000 * h && 0 < h < 0x10;
  }

  /** `_PB_PhysicalToLogical` of PILOT16bit.C: shift, subtract, mask; B holds address flags. */
  method PhysicalToLogical16(b: byte, c: byte, de: word) returns (jk: word, hl: word)
    ensures Names(jk, hl, Linear(c, de), 0xE, SPACE_24) && jk < 0x1000
  {
    hide Names, Linear;
    var bcde := Word(c, b) * 0x1_0000 + de;
    Shift12(Word(c, b), de);
    bcde := bcde / 0x10 / 0x10 / 0x10;
    ghost var k;
    jk, k := SubtractE(bcde);
    hl := 0xE000 + de % 0x1000;
    PairNames(jk, c, de, 0xE, b + k, 0x1000);
  }

  /** `sub jkhl, bcde` with 0x0E, and of the difference the low twelve bits. */
  method SubtractE(bcde: nat) returns (jk: word, ghost k: int)
    requires bcde < 0x10_0000
    ensures jk < 0x1000 && jk == bcde - 0xE + 0x1000 * k
  {
    var jkhl := (bcde - 0x0E) % 0x1_0000_0000;
    jk := jkhl % 0x1000;
    k := (if bcde < 0xE then 0x10_0000 else 0) - jkhl / 0x1000;
  }

  lemma Shift12(bc: word, de: word)
    ensures (bc * 0x1_0000 + de) / 0x10 / 0x10 / 0x10 == bc * 0x10 + de / 0x1000
  {
    assert (bc * 0x1_0000 + de) / 0x10 == bc * 0x1000 + de / 0x10;
    assert (bc * 0x1000 + de / 0x10) / 0x10 == bc * 0x100 + de / 0x100;
  }

  /** `_PB_PhysicalToLogical` of PILOT.C: two nibbles swapped, and an XPC of eight bits. */
  method PhysicalToLogical(c: byte, de: word) returns (xpc: byte, hl: word)
    ensures Names(xpc, hl, Linear(c, de), 0xE, SPACE_20)
  {
    hide Names, Linear;
    var a := c % 0x10 + Hi(de) / 0x10 * 0x10;
    a := SwapNibbles(a, c % 0x10, Hi(de) / 0x10);
    var s := Sub(a, 0xE);
    xpc := s.0;
    hl := 0xE000 + de % 0x1000;
    PairNames(xpc, c, de, 0xE, s.1 - c / 0x10, 0x100);
  }

  method Rotate(a: byte) returns (a': byte, ghost c: bit)
    ensures 2 * a == a' + 0xFF * c && (c == 1 <==> a >= 0x80)
  {
    a', c := Rlca(a), a / 0x80;
  }

  /** `rlca`, four times. */
  method SwapNibbles(a: byte, ghost lo: nat, ghost hi: nat) returns (a': byte)
    requires lo < 0x10 && hi < 0x10 && a == lo + 0x10 * hi
    ensures a' == hi + 0x10 * lo
  {
    ghost var c1, c2, c3, c4;
    a', c1 := Rotate(a);
    a', c2 := Rotate(a');
    a', c3 := Rotate(a');
    a', c4 := Rotate(a');
  }

  /** An address has one pair in a window, so routines that name it agree: with twelve segment bits, */
  lemma SamePair(a: nat, x: nat, segment: word, offset: word, segment': word, offset': word)
    requires Names(segment, offset, a, x, SPACE_24) && segment < 0x1000
    requires Names(segment', offset', a, x, SPACE_24) && segment' < 0x1000
    ensures segment == segment' && offset == offset'
  {
    var q := (Formed(segment, offset) - a) / SPACE_24;
    var q' := (Formed(segment', offset') - a) / SPACE_24;
    SplitPage(segment - segment', offset - offset', 0x10 * (q - q'));
  }

  /** and with eight of them on 20 address lines. */
  lemma SamePairOn20(a: nat, x: nat, segment: word, offset: word, xpc: byte, offset': word)
    requires Names(segment, offset, a, x, SPACE_24) && Names(xpc, offset', a, x, SPACE_20)
    ensures xpc == segment % 0x100 && offset == offset'
  {
    var q := (Formed(segment, offset) - a) / SPACE_24;
    var q' := (Formed(xpc, offset') - a) / SPACE_20;
    SplitPage(segment - xpc, offset - offset', 0x10 * q - q');
  }

  lemma SplitPage(u: int, v: int, w: int)
    requires u * 0x1000 + v == w * SPACE_20 && -0x1000 < v < 0x1000
    ensures v == 0 && u == 0x100 * w
  {
  }
}
