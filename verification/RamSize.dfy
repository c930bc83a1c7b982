/** The two RAM sizers of the pilots: probing an 8 MB window for the size after which a device repeats. */
module RamSize {
  import opened Bytes

  const UNIT := 0x1_0000
  /** The probed window, 0x800000 to 0xFFFFFF, in units. */
  const WINDOW := 128
  const WINDOW_SIZE := WINDOW * UNIT

  function Cpl(b: byte): byte {
    0xFF - b
  }

  /** A memory device of `units` times 64K; it repeats through the window, offsets counted from its start. */
  class Device {
    const units: nat
    const writable: bool
    const cells: array<byte>

    ghost predicate Valid() {
      units > 0 && cells.Length == units * UNIT
    }

    function Read(a: nat): byte
      requires Valid()
      reads cells
    {
      Empty(units);
      cells[a % cells.Length]
    }

    method Write(a: nat, b: byte)
      requires Valid()
      modifies cells
      ensures cells[..] == if writable then old(cells[..])[a % cells.Length := b] else old(cells[..])
    {
      Empty(units);
      if writable {
        cells[a % cells.Length] := b;
      }
    }

    constructor (n: nat, w: bool, contents: seq<byte>)
      requires n > 0 && |contents| == n * UNIT
      ensures Valid() && units == n && writable == w && cells[..] == contents && fresh(cells)
    {
      units, writable := n, w;
      cells := new byte[|contents|](i requires 0 <= i < |contents| => contents[i]);
      new;
      assert cells[..] == contents;
    }
  }

  lemma Empty(n: nat)
    requires n > 0
    ensures n * UNIT > 0
  {
  }

  /** The unit of the device that shows up at the top of the window. */
  function Seen(n: nat): (s: nat)
    requires n > 0
    ensures 0 < s <= n
  {
    (WINDOW - 1) % n + 1
  }

  /** The last cell of a unit, as the probes address it. */
  lemma {:induction false} LastCell(n: nat, c: nat)
    requires n > 0 && c > 0
    ensures (c * UNIT - 1) % (n * UNIT) == ((c - 1) % n + 1) * UNIT - 1
  {
    var q, r := (c - 1) / n, (c - 1) % n;
    assert c - 1 == q * n + r;
    assert (c * UNIT - 1) == q * (n * UNIT) + ((r + 1) * UNIT - 1);
    assert 0 <= (r + 1) * UNIT - 1 < n * UNIT;
    Remainder(c * UNIT - 1, n * UNIT, q, (r + 1) * UNIT - 1);
  }

  lemma Remainder(x: nat, m: nat, q: nat, r: nat)
    requires m > 0 && x == q * m + r && r < m
    ensures x % m == r
  {
    var q', r' := x / m, x % m;
    var k := q' - q;
    assert k * m == q' * m - q * m == r - r' by {
      assert x == q' * m + r';
    }
    AtLeastOnce(k, m);
    AtLeastOnce(-k, m);
  }

  lemma AtLeastOnce(k: int, m: nat)
    ensures k > 0 ==> k * m >= m
  {
    if k > 0 {
      assert k * m == (k - 1) * m + m;
    }
  }

  /** Where the device's top cell is, and that smaller probes reach cells below it, one each. */
  lemma ProbeCells(n: nat, c: nat)
    requires n > 0 && 0 < c <= Seen(n)
    ensures (WINDOW_SIZE - 1) % (n * UNIT) == Seen(n) * UNIT - 1
    ensures (c * UNIT - 1) % (n * UNIT) == c * UNIT - 1
    ensures Seen(n) <= n
  {
    LastCell(n, WINDOW);
    LastCell(n, c);
    Remainder(c - 1, n, 0, c - 1);
  }

  /** The linear probe answers with the repeat of the top unit, and misses devices above 4 MB. */
  function LinearSize(n: nat): nat
    requires n > 0
  {
    if Seen(n) <= 64 then Seen(n) else 0
  }

  /** Some smaller size looks right at first: its last cell holds what the top cell does. */
  predicate Mistakable(cells: seq<byte>, n: nat)
    requires n > 0 && |cells| == n * UNIT
  {
    exists c :: 0 < c < Seen(n) && c <= 64 && Probed(cells, n, c) == Probed(cells, n, Seen(n))
  }

  function Probed(cells: seq<byte>, n: nat, c: nat): byte
    requires |cells| == n * UNIT && 0 < c <= n
  {
    cells[c * UNIT - 1]
  }

  /** `cells` differ from `was` in probed cells alone, which are complemented, and in the top cell. */
  ghost predicate Probing(was: seq<byte>, cells: seq<byte>, n: nat, c: nat, t: byte)
    requires n > 0 && |was| == |cells| == n * UNIT && c > 0
  {
    && Probed(cells, n, Seen(n)) == t
    && (forall i :: 0 <= i < |was| && i != Seen(n) * UNIT - 1 ==>
          cells[i] == was[i] || (i < c * UNIT - 1 && cells[i] == Cpl(was[i])))
  }

  /** One probe of PILOT.C, at `py - 1` against `px - 1`: are they the same cell? */
  method Probe(d: Device, px: nat, py: nat) returns (same: bool)
    requires d.Valid() && d.cells.Length > 0 && px > 0 && py > 0
    modifies d.cells
    ensures var top, low, was := (px - 1) % d.cells.Length, (py - 1) % d.cells.Length, old(d.cells[..]);
      && same == (d.writable && low == top)
      && d.cells[..] ==
         if d.writable && low != top && was[low] == was[top]
           then was[top := Cpl(was[top])][low := Cpl(was[low])] else was
  {
    var b := d.Read(py - 1);
    var a := d.Read(px - 1);
    if a != b {
      return false;
    }
    a := Cpl(a);
    d.Write(px - 1, a);
    b := a;
    a := d.Read(py - 1);
    same := a == b;
    d.Write(py - 1, Cpl(a));
  }

  /** What a run of the linear probe up to size `c` did, `t` being left in the top cell. */
  ghost predicate Progress(was: seq<byte>, cells: seq<byte>, n: nat, c: nat, t: byte, mistaken: nat)
    requires n > 0 && |was| == |cells| == n * UNIT && 0 < c <= Seen(n)
  {
    && Probing(was, cells, n, c, t)
    && if mistaken == 0 then
         cells == was && forall k :: 0 < k < c ==> Probed(was, n, k) != t
       else
         && mistaken < c && Probed(was, n, mistaken) == Probed(was, n, Seen(n))
         && Probed(cells, n, mistaken) == Cpl(Probed(was, n, mistaken))
  }

  lemma ProgressStep(was: seq<byte>, before: seq<byte>, after: seq<byte>, n: nat, c: nat, t: byte, mistaken: nat)
    returns (t': byte, mistaken': nat)
    requires n > 0 && |was| == |before| == n * UNIT && 0 < c < Seen(n)
    requires Progress(was, before, n, c, t, mistaken)
    requires var top, low := Seen(n) * UNIT - 1, c * UNIT - 1;
      after == if before[low] == before[top] then before[top := Cpl(before[top])][low := Cpl(before[low])] else before
    ensures Progress(was, after, n, c + 1, t', mistaken')
  {
    if Probed(before, n, c) != t {
      return t, mistaken;
    }
    t' := Cpl(t);
    mistaken' := if mistaken == 0 then c else mistaken;
  }

  lemma ProgressStart(was: seq<byte>, n: nat)
    requires n > 0 && |was| == n * UNIT
    ensures Progress(was, was, n, 1, Probed(was, n, Seen(n)), 0)
  {
  }

  /** With the top cell restored, the found size tells what the probes below it left behind. */
  lemma ProgressEnd(was: seq<byte>, cells: seq<byte>, n: nat, c: nat, t: byte, mistaken: nat)
    requires n > 0 && |was| == |cells| == n * UNIT && 0 < c <= Seen(n) && c <= 65 && (c == Seen(n) || c == 65)
    requires Progress(was, cells, n, c, t, mistaken)
    ensures var after := cells[Seen(n) * UNIT - 1 := Probed(was, n, Seen(n))];
      && (after == was <==> !Mistakable(was, n))
      && forall i :: 0 <= i < |was| ==> after[i] == was[i] || after[i] == Cpl(was[i])
  {
    if mistaken == 0 {
      assert cells[Seen(n) * UNIT - 1 := Probed(was, n, Seen(n))] == was;
    } else {
      assert Probed(cells[Seen(n) * UNIT - 1 := Probed(was, n, Seen(n))], n, mistaken) != Probed(was, n, mistaken);
    }
  }

  /**
   * `_PB_GetRamSize` of PILOT.C. A first match that does not survive the second reading leaves the
   * probed cell complemented, so memory is preserved exactly when no such match occurs.
   */
  method LinearProbe(d: Device) returns (c: nat)
    requires d.Valid()
    modifies d.cells
    ensures c == if d.writable then LinearSize(d.units) else 0
    ensures d.cells[..] == old(d.cells[..]) <==> !d.writable || !Mistakable(old(d.cells[..]), d.units)
    ensures forall i :: 0 <= i < d.cells.Length ==> d.cells[i] == old(d.cells[i]) || d.cells[i] == Cpl(old(d.cells[i]))
  {
    hide Progress, Probing, Seen;
    ghost var was, n, s := d.cells[..], d.units, Seen(d.units);
    ProbeCells(n, s);
    var px := WINDOW_SIZE;
    var saved := d.Read(px - 1);
    var py := UNIT;
    c := 1;
    ghost var t, mistaken: nat := saved, 0;
    var same := false;
    ProgressStart(was, n);
    while c < 65 && !same
      invariant 0 < c <= 65 && py == c * UNIT
      invariant !d.writable ==> !same && d.cells[..] == was
      invariant d.writable ==> c <= s && (same ==> c == s) && Progress(was, d.cells[..], n, c, t, mistaken)
      decreases 65 - c, !same
    {
      if d.writable {
        ProbeCells(n, c);
      }
      ghost var before := d.cells[..];
      same := Probe(d, px, py);
      if !same {
        if d.writable {
          t, mistaken := ProgressStep(was, before, d.cells[..], n, c, t, mistaken);
        }
        c := c + 1;
        py := py + UNIT;
      }
    }
    if c == 65 {
      c := 0;
    }
    if d.writable {
      ProgressEnd(was, d.cells[..], n, if same then c else 65, t, mistaken);
    }
    d.Write(px - 1, saved);
  }

  /** The doubling probe answers with the first power of two at which the top unit repeats. */
  function FirstRepeat(n: nat, c: nat): nat
    requires n > 0 && c > 0
    decreases WINDOW - c
  {
    if c >= WINDOW || (c - 1) % n == (WINDOW - 1) % n then c else FirstRepeat(n, 2 * c)
  }

  function DoublingSize(n: nat): nat
    requires n > 0
  {
    FirstRepeat(n, 1)
  }

  /** One probe of PILOTSERFLASH.C, at `py` against `px`, which alone it writes. */
  method ProbeTop(d: Device, px: nat, py: nat) returns (same: bool)
    requires d.Valid() && d.cells.Length > 0
    modifies d.cells
    ensures var top, low, was := px % d.cells.Length, py % d.cells.Length, old(d.cells[..]);
      && same == (d.writable && low == top)
      && d.cells[..] == if d.writable && was[low] == was[top] then was[top := Cpl(was[top])] else was
  {
    var b := d.Read(py);
    var a := d.Read(px);
    if a != b {
      return false;
    }
    a := Cpl(a);
    d.Write(px, a);
    b := a;
    a := d.Read(py);
    same := a == b;
  }

  /** `_PB_GetRamSize` of PILOTSERFLASH.C. It writes to the top cell only, and restores it. */
  method DoublingProbe(d: Device) returns (c: byte)
    requires d.Valid()
    modifies d.cells
    ensures c == if d.writable then DoublingSize(d.units) else 0
    ensures d.cells[..] == old(d.cells[..])
  {
    hide Seen, FirstRepeat;
    ghost var was, n := d.cells[..], d.units;
    ghost var top := Seen(n) * UNIT - 1;
    ProbeCells(n, Seen(n));
    var px := WINDOW_SIZE - 1;
    var saved := d.Read(px);
    var py := UNIT - 1;
    c := 1;
    while true
      invariant 0 < c <= 128 && py == c * UNIT - 1 && c as int in {1, 2, 4, 8, 16, 32, 64, 128}
      invariant d.writable ==> FirstRepeat(n, c) == DoublingSize(n)
      invariant d.cells[..] == if d.writable then was[top := d.cells[top]] else was
      decreases 128 - c
    {
      ProbedAgain(n, c);
      var same := ProbeTop(d, px, py);
      if same {
        break;
      }
      if (c + c) % 0x100 == 0 {
        c := 0;
        break;
      }
      py := 2 * (py + 1) - 1;
      c := (c + c) % 0x100;
    }
    d.Write(px, saved);
  }

  /** A probe lands on the top cell exactly when the sizes agree modulo the device; the last one does. */
  lemma ProbedAgain(n: nat, c: nat)
    requires n > 0 && 0 < c <= WINDOW
    ensures var again := (c * UNIT - 1) % (n * UNIT) == (WINDOW_SIZE - 1) % (n * UNIT);
      FirstRepeat(n, c) == (if again then c else FirstRepeat(n, 2 * c)) && (c == WINDOW ==> again)
  {
    RepeatStep(n, c);
    SameLastCell(n, c);
    hide FirstRepeat;
  }

  lemma RepeatStep(n: nat, c: nat)
    requires n > 0 && 0 < c <= WINDOW
    ensures FirstRepeat(n, c) == if c == WINDOW || (c - 1) % n == (WINDOW - 1) % n then c else FirstRepeat(n, 2 * c)
  {
  }

  lemma SameLastCell(n: nat, c: nat)
    requires n > 0 && 0 < c <= WINDOW
    ensures (c * UNIT - 1) % (n * UNIT) == (WINDOW_SIZE - 1) % (n * UNIT) <==> (c - 1) % n == (WINDOW - 1) % n
  {
    LastCell(n, c);
    LastCell(n, WINDOW);
  }

  // ----- what the answers mean -----

  /** A device of this size shows the same cell at the end of `c` units and at the top of the window. */
  predicate Repeats(n: nat, c: nat)
    requires n > 0 && c > 0
  {
    Empty(n);
    (c * UNIT - 1) % (n * UNIT) == (WINDOW_SIZE - 1) % (n * UNIT)
  }

  /** The linear probe answers with the first size up to 64 units at which the device repeats, or 0. */
  lemma LinearAnswer(n: nat)
    requires n > 0
    ensures LinearSize(n) <= 64 && (LinearSize(n) > 0 ==> Repeats(n, LinearSize(n)))
    ensures forall c :: 0 < c <= 64 && Repeats(n, c) ==> 0 < LinearSize(n) <= c
  {
    SameLastCell(n, Seen(n));
    Remainder(Seen(n) - 1, n, 0, Seen(n) - 1);
    forall c | 0 < c <= 64 && Repeats(n, c) ensures Seen(n) <= c {
      SameLastCell(n, c);
      RemainderIsLess(c - 1, n);
    }
  }

  lemma RemainderIsLess(x: nat, m: nat)
    requires m > 0
    ensures x % m <= x
  {
  }

  const SIZES: set<nat> := {1, 2, 4, 8, 16, 32, 64, 128}

  /** The doubling probe answers with the first power of two, up to 128 units, at which the device repeats. */
  lemma DoublingAnswer(n: nat)
    requires n > 0
    ensures DoublingSize(n) in SIZES && Repeats(n, DoublingSize(n))
    ensures forall c :: c in SIZES && Repeats(n, c) ==> DoublingSize(n) <= c
  {
    hide FirstRepeat, Repeats;
    forall c | c in SIZES && Repeats(n, c) ensures DoublingSize(n) <= c {
      FirstRepeatIs(n, 1, c);
    }
    FirstRepeatIs(n, 1, WINDOW);
  }

  lemma {:induction false} FirstRepeatIs(n: nat, from: nat, c: nat)
    requires n > 0 && from in SIZES && c in SIZES && from <= c
    requires Repeats(n, c) || c == WINDOW
    ensures FirstRepeat(n, from) in SIZES && Repeats(n, FirstRepeat(n, from)) && FirstRepeat(n, from) <= c
    decreases WINDOW - from
  {
    ProbedAgain(n, from);
    hide FirstRepeat;
    if !Repeats(n, from) {
      FirstRepeatIs(n, 2 * from, c);
    }
  }

  predicate PowerOfTwo(n: nat) {
    n == 1 || (n > 1 && n % 2 == 0 && PowerOfTwo(n / 2))
  }

  lemma HalfProduct(h: nat, q: nat)
    ensures (2 * h) * q == 2 * (h * q)
  {
  }

  lemma OddProduct(a: nat, b: nat)
    ensures (2 * a + 1) * (2 * b + 1) == 2 * (2 * (a * b) + a + b) + 1
  {
  }

  lemma {:induction false} Divisor(m: nat, n: nat, q: nat)
    requires m == n * q && PowerOfTwo(m)
    ensures PowerOfTwo(n)
    decreases m
  {
    if n % 2 == 0 {
      HalfProduct(n / 2, q);
      assert m == 2 * (n / 2 * q);
      Divisor(m / 2, n / 2, q);
    } else if n != 1 {
      if q % 2 == 1 {
        OddProduct(n / 2, q / 2);
        assert false;
      }
      HalfProduct(q / 2, n);
      assert m == 2 * (n * (q / 2));
      Divisor(m / 2, n, q / 2);
    }
  }

  /** A device shows up whole at the top of the window only if its size is a power of two. */
  lemma WholeDevice(n: nat)
    requires n > 0
    ensures Seen(n) == n ==> PowerOfTwo(n) && n <= WINDOW
  {
    if Seen(n) == n {
      var q := (WINDOW - 1) / n;
      assert WINDOW - 1 == n * q + (n - 1);
      assert n * (q + 1) == WINDOW;
      Divisor(WINDOW, n, q + 1);
    }
  }

  lemma {:induction false} SmallPowers(n: nat)
    requires PowerOfTwo(n) && n <= WINDOW
    ensures n in {1, 2, 4, 8, 16, 32, 64, 128}
  {
    if n > 1 {
      SmallPowers(n / 2);
    }
  }

  lemma {:induction false} RepeatPower(n: nat, c: nat)
    requires n > 0 && c in {1, 2, 4, 8, 16, 32, 64, 128}
    ensures PowerOfTwo(FirstRepeat(n, c)) && FirstRepeat(n, c) <= WINDOW
    decreases WINDOW - c
  {
    assert PowerOfTwo(c);
    if c < WINDOW {
      RepeatPower(n, 2 * c);
    }
  }

  lemma SmallDevice(n: nat)
    requires n in {1, 2, 4, 8, 16, 32, 64, 128}
    ensures Seen(n) == n && DoublingSize(n) == n
  {
  }

  /** Each probe is exact for the powers of two up to its limit, and for no other size. */
  lemma ExactSizes(n: nat)
    requires n > 0
    ensures LinearSize(n) == n <==> PowerOfTwo(n) && n <= 64
    ensures DoublingSize(n) == n <==> PowerOfTwo(n) && n <= WINDOW
  {
    hide FirstRepeat, PowerOfTwo, Seen;
    WholeDevice(n);
    RepeatPower(n, 1);
    if PowerOfTwo(n) && n <= WINDOW {
      SmallPowers(n);
      SmallDevice(n);
    }
  }
}
