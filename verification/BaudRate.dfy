/**
 * Timer A dividers for the baud rates the host may ask for. The 8-bit pilots derive them by
 * shifting the measured clock count and check the error; the 16-bit pilot divides by subtraction.
 */
module BaudRate {
  import opened Bytes

  /** One entry of `_PB_BaudTable`; `factor` is the shifter in one pilot, the divisor in the other. */
  datatype Row = Row(rate: long, factor: byte)

  const SHIFT_TABLE: seq<Row> := [Row(57600, 7), Row(115200, 8), Row(230400, 9), Row(460800, 10)]
  const DIVISOR_TABLE: seq<Row> := [Row(57600, 3), Row(115200, 6), Row(230400, 12), Row(460800, 24)]

  predicate Listed(rate: long) {
    rate == 57600 || rate == 115200 || rate == 230400 || rate == 460800
  }

  // ----- specification -----

  /** Clock counts per unit of the divider at a listed rate: 32 * rate / 7200. */
  function Unit(rate: long): nat
    requires Listed(rate)
  {
    rate / 225
  }

  /** The largest tolerated error: about 5% of the count. */
  function MaxError(count: word): word {
    count / 32 + count / 64 + count / 256
  }

  function Distance(x: int, y: int): nat {
    if x < y then y - x else x - y
  }

  /** Timer value `d` divides by d + 1, which implies a clock count of its own. */
  function Error(count: word, rate: long, d: int): nat
    requires Listed(rate)
  {
    Distance((d + 1) * Unit(rate), count)
  }

  predicate Tolerable(count: word, rate: long, d: int)
    requires Listed(rate)
  {
    Error(count, rate, d) < MaxError(count)
  }

  /** The rounding addend does not fit beside the count in HL. */
  predicate RoundingOverflows(count: word, rate: long)
    requires Listed(rate)
  {
    count + Unit(rate) / 2 >= 0x1_0000
  }

  /** The divider `_PB_LookupBaudRateDivider` returns, None when it leaves Z set. */
  function Divider(count: word, rate: long): Option<byte> {
    if !Listed(rate) then None
    else if RoundingOverflows(count, rate) then Some(0xFF)
    else
      RoundedFitsByte(count + Unit(rate) / 2, Unit(rate));
      var d := Rounded(count, Unit(rate)) - 1;
      if Tolerable(count, rate, d) then Some(d) else None
  }

  /** The multiple of `step` nearest to the count. */
  function Rounded(count: nat, step: nat): nat
    requires step > 0
  {
    (count + step / 2) / step
  }

  /** The tolerance is 13/256 of the count, 5.08%, less what three roundings lose. */
  lemma Tolerance(count: word)
    ensures 13 * count - 0x300 < 0x100 * MaxError(count) <= 13 * count
  {
  }

  /** An accepted divider is the closest there is and within tolerance; a rejection means no integer is. */
  lemma DividerExact(count: word, rate: long)
    requires Listed(rate) && !RoundingOverflows(count, rate)
    ensures Divider(count, rate).Some? ==>
      && Tolerable(count, rate, Divider(count, rate).value)
      && forall k: int :: Error(count, rate, Divider(count, rate).value) <= Error(count, rate, k)
    ensures Divider(count, rate).None? <==> forall k: int :: !Tolerable(count, rate, k)
  {
    var d := Rounded(count, Unit(rate)) - 1;
    forall k: int
      ensures Error(count, rate, d) <= Error(count, rate, k)
    {
      Nearest(count, Unit(rate), k + 1);
    }
  }

  lemma Nearest(count: nat, step: nat, k: int)
    requires step > 0 && step % 2 == 0
    ensures Distance(Rounded(count, step) * step, count) <= Distance(k * step, count)
  {
    var n := Rounded(count, step);
    RoundedBack(count + step / 2, step);
    assert (k - n) * step == k * step - n * step;
    MultipleAtLeast(k - n, step);
  }

  /**
   * When the rounding addition wraps, the routine still accepts and returns 0xFF. Only 57600 baud
   * then gets a tolerable divider; at every faster listed rate the accepted divider is out of tolerance.
   */
  lemma OverflowedDivider(count: word, rate: long)
    requires Listed(rate) && RoundingOverflows(count, rate)
    ensures Divider(count, rate) == Some(0xFF)
    ensures Tolerable(count, rate, 0xFF) <==> rate == 57600
  {
  }

  /** The shifted count is the rounded quotient of the clock by 32 times the rate. */
  lemma ShiftFormIsRoundedQuotient(count: word, remainder: nat, rate: long)
    requires Listed(rate) && remainder < 7200
    ensures var clock := 7200 * count + remainder;
      Rounded(count, Unit(rate)) == (clock + 16 * rate) / (32 * rate)
  {
    var clock, step := 7200 * count + remainder, Unit(rate);
    var n := Rounded(count, step);
    assert 32 * rate == 7200 * step && 16 * rate == 7200 * (step / 2);
    assert n * step <= count + step / 2 < n * step + step;
    assert 7200 * (n * step) == n * (7200 * step);
    QuotientUnique(clock + 16 * rate, 32 * rate, n);
  }

  lemma QuotientUnique(x: int, d: int, q: int)
    requires d > 0 && q * d <= x < q * d + d
    ensures x / d == q
  {
    var q' := x / d;
    assert q' * d <= x < q' * d + d;
    assert (q - q') * d == q * d - q' * d;
    MultipleAtLeast(q - q', d);
  }

  lemma MultipleAtLeast(n: int, d: int)
    requires d > 0
    ensures n >= 1 ==> n * d >= d
    ensures n <= -1 ==> n * d <= -d
  {
  }

  // ----- the shifting routine -----

  function Pow2(n: nat): nat {
    if n == 0 then 1 else 2 * Pow2(n - 1)
  }

  lemma PowersInTable()
    ensures Pow2(7) == 128 && Pow2(8) == 256 && Pow2(9) == 512 && Pow2(10) == 1024 && Pow2(11) == 2048
  {
    assert Pow2(3) == 8;
    assert Pow2(5) == 32;
  }

  lemma HalvedQuotient(x: nat, p: nat)
    requires p > 0
    ensures x / p / 2 == x / (2 * p)
  {
    var q := x / p;
    var h := q / 2;
    assert q * p <= x < q * p + p;
    assert h * (2 * p) == 2 * h * p;
    if q == 2 * h {
    } else {
      assert (2 * h + 1) * p == 2 * h * p + p;
    }
    QuotientUnique(x, 2 * p, h);
  }

  /** `rl de` repeated: the carry is clear and no set bit reaches the top. */
  method ShiftedOne(times: byte) returns (de: word)
    requires 0 < times <= 11
    ensures de == Pow2(times)
  {
    de := 1;
    var b := times;
    PowersInTable();
    while b > 0
      invariant 0 <= b <= times
      invariant de == Pow2(times - b) && Monotone(times - b, 11)
    {
      MonotonePow(times - b + 1, 11);
      de := 2 * de;
      b := b - 1;
    }
  }

  predicate Monotone(m: nat, n: nat) {
    m <= n ==> Pow2(m) <= Pow2(n)
  }

  lemma {:induction false} MonotonePow(m: nat, n: nat)
    ensures Monotone(m, n)
  {
    if m >= n {
    } else {
      MonotonePow(m, n - 1);
    }
  }

  /** `srl 1, jkhl` repeated. */
  method ShiftRight(x: word, times: byte) returns (r: word)
    ensures Pow2(times) > 0 && r == x / Pow2(times)
  {
    r := x;
    var b := times;
    while b > 0
      invariant 0 <= b <= times
      invariant Pow2(times - b) > 0 && r == x / Pow2(times - b)
    {
      HalvedQuotient(x, Pow2(times - b));
      r := r / 2;
      b := b - 1;
    }
  }

  /** `sll 1, jkhl` repeated, on a value that starts with J, K and H clear. */
  method ShiftLeft(x: byte, times: byte) returns (jkhl: nat)
    ensures jkhl == x * Pow2(times)
  {
    jkhl := x;
    var b := times;
    while b > 0
      invariant 0 <= b <= times
      invariant jkhl == x * Pow2(times - b)
    {
      assert x * Pow2(times - b + 1) == 2 * (x * Pow2(times - b));
      jkhl := 2 * jkhl;
      b := b - 1;
    }
  }

  /** The conditions `gt` and `lt` compare HL with DE as signed numbers. */
  function Signed(w: word): int {
    if w < 0x8000 then w else w - 0x1_0000
  }

  function Sub16(x: word, y: word): word {
    if x >= y then x - y else x - y + 0x1_0000
  }

  function Add16(x: word, y: word): word {
    if x + y < 0x1_0000 then x + y else x + y - 0x1_0000
  }

  method SearchTable(table: seq<Row>, rate: long) returns (found: Option<byte>)
    ensures found.None? ==> forall i :: 0 <= i < |table| ==> table[i].rate != rate
    ensures found.Some? ==> Row(rate, found.value) in table
  {
    var i := 0;
    while i < |table|
      invariant 0 <= i <= |table|
      invariant forall j :: 0 <= j < i ==> table[j].rate != rate
    {
      if table[i].rate == rate {
        return Some(table[i].factor);
      }
      i := i + 1;
    }
    found := None;
  }

  method LookupDivider(count: word, rate: long) returns (a: Option<byte>)
    ensures a == Divider(count, rate)
  {
    var row := SearchTable(SHIFT_TABLE, rate);
    if row.None? {
      assert forall i :: 0 <= i < 4 ==> SHIFT_TABLE[i].rate != rate;
      assert SHIFT_TABLE[0].rate != rate && SHIFT_TABLE[1].rate != rate
        && SHIFT_TABLE[2].rate != rate && SHIFT_TABLE[3].rate != rate;
      return None;
    }
    var shifter := row.value;
    PowersInTable();
    assert Unit(rate) == Pow2(shifter + 1) && 2 * Pow2(shifter) == Unit(rate);
    var de := ShiftedOne(shifter);
    var hl := Add16(count, de);
    var rounded := ShiftRight(hl, shifter + 1);
    RoundedFitsByte(hl, Unit(rate));
    var implied := ShiftLeft(rounded, shifter + 1);
    RoundedBack(hl, Unit(rate));
    var difference := if Signed(implied) > Signed(count) then Sub16(implied, count) else Sub16(count, implied);
    if Signed(difference) < Signed(MaxError(count)) {
      a := Some((rounded as int - 1) % 0x100);
    } else {
      a := None;
    }
    DividerByRegisters(count, rate, hl, rounded, implied, difference);
  }

  lemma RoundedFitsByte(hl: nat, step: nat)
    requires step >= 0x100 && hl < 0x1_0000
    ensures 0 <= hl / step < 0x100
  {
    QuotientMonotone(hl, step);
  }

  lemma QuotientMonotone(x: nat, step: nat)
    requires step >= 0x100
    ensures 0 <= x / step <= x / 0x100
  {
    var q := x / step;
    assert q * step <= x;
    assert q * 0x100 <= q * step;
  }

  lemma RoundedBack(hl: nat, step: nat)
    requires step > 0
    ensures 0 <= hl / step * step <= hl < hl / step * step + step
  {
  }

  /** The signed 16-bit error test agrees with the exact one, wherever the counts lie around 0x8000. */
  lemma SignedTest(count: word, implied: word, difference: word)
    requires Distance(implied, count) <= 1024
    requires difference == if Signed(implied) > Signed(count) then Sub16(implied, count) else Sub16(count, implied)
    ensures Signed(difference) < Signed(MaxError(count)) <==> Distance(implied, count) < MaxError(count)
  {
  }

  lemma DividerByRegisters(count: word, rate: long, hl: word, rounded: byte, implied: word, difference: word)
    requires Listed(rate)
    requires hl == Add16(count, Unit(rate) / 2)
    requires rounded == hl / Unit(rate) && implied == rounded * Unit(rate)
    requires difference == if Signed(implied) > Signed(count) then Sub16(implied, count) else Sub16(count, implied)
    ensures Divider(count, rate) ==
      if Signed(difference) < Signed(MaxError(count)) then Some((rounded as int - 1) % 0x100) else None
  {
    if RoundingOverflows(count, rate) {
      QuotientUnique(hl, Unit(rate), 0);
      OverflowAccepted(count, Unit(rate) / 2, difference);
    } else {
      assert rounded == Rounded(count, Unit(rate));
      RegistersAgree(count, rate, rounded, implied, difference);
    }
  }

  lemma RegistersAgree(count: word, rate: long, rounded: byte, implied: word, difference: word)
    requires Listed(rate) && !RoundingOverflows(count, rate)
    requires rounded == Rounded(count, Unit(rate)) && implied == rounded * Unit(rate)
    requires difference == if Signed(implied) > Signed(count) then Sub16(implied, count) else Sub16(count, implied)
    ensures Divider(count, rate) ==
      if Signed(difference) < Signed(MaxError(count)) then Some((rounded as int - 1) % 0x100) else None
  {
    hide Rounded, MaxError, Signed, Sub16;
    RoundedIsNear(count, Unit(rate));
    assert Error(count, rate, rounded as int - 1) == Distance(implied, count) <= 1024;
    SignedTest(count, implied, difference);
    ZeroRejected(count, rounded);
  }

  lemma RoundedIsNear(count: nat, step: nat)
    requires step > 0
    ensures 2 * Distance(Rounded(count, step) * step, count) <= step + 1
  {
    RoundedBack(count + step / 2, step);
  }

  lemma OverflowAccepted(count: word, half: nat, difference: word)
    requires half <= 1024 && count + half >= 0x1_0000
    requires difference == Sub16(0, count)
    ensures Signed(difference) < Signed(MaxError(count))
  {
  }

  /** A count that rounds to zero is never within tolerance of zero, so no divider underflows. */
  lemma ZeroRejected(count: word, rounded: byte)
    ensures rounded == 0 && Distance(rounded, count) < MaxError(count) ==> false
  {
  }

  // ----- the subtracting routine of the 16-bit pilot -----

  function DivisorFor(rate: long): byte
    requires Listed(rate)
  {
    rate / 19200
  }

  /** The divider computed from the 19200 baud divider `freq`. */
  function DividerBySubtraction(freq: byte, rate: long): Option<byte> {
    if !Listed(rate) then None
    else if freq % DivisorFor(rate) != 0 then None
    else Some((freq / DivisorFor(rate) - 1) % 0x100)
  }

  /** Accepted exactly when the division is even, with the exact quotient, unless `freq` is zero. */
  lemma SubtractionExact(freq: byte, rate: long)
    requires Listed(rate)
    ensures freq > 0 ==>
      (forall d: byte :: DividerBySubtraction(freq, rate) == Some(d) <==> (d + 1) * DivisorFor(rate) == freq)
    ensures freq == 0 ==> DividerBySubtraction(freq, rate) == Some(0xFF)
  {
    forall d: byte | freq > 0
      ensures DividerBySubtraction(freq, rate) == Some(d) <==> (d + 1) * DivisorFor(rate) == freq
    {
      EvenQuotient(freq, DivisorFor(rate), d);
    }
  }

  /** The clock that gives 19200 baud with the divider `freq` gives the rate with `d` for timer value. */
  predicate Divides(freq: byte, rate: long, d: byte) {
    (d + 1) * rate == 19200 * freq
  }

  lemma SubtractionRate(freq: byte, rate: long, d: byte)
    requires Listed(rate) && freq > 0
    ensures DividerBySubtraction(freq, rate) == Some(d) <==> Divides(freq, rate, d)
  {
    SubtractionExact(freq, rate);
    assert rate == 19200 * DivisorFor(rate);
    assert (d + 1) * rate == 19200 * ((d + 1) * DivisorFor(rate));
  }

  lemma EvenQuotient(n: byte, e: byte, d: byte)
    requires n > 0 && e > 1
    ensures n % e == 0 && (n / e - 1) % 0x100 == d <==> (d + 1) * e == n
  {
    EvenSteps(n, e, d, n / e, n % e);
  }

  lemma EvenSteps(n: byte, e: byte, d: byte, q: int, r: int)
    requires n > 0 && e > 1 && n == q * e + r && 0 <= r < e
    ensures r == 0 && (q - 1) % 0x100 == d <==> (d + 1) * e == n
  {
    MultipleAtLeast(q, e);
    MultipleAtLeast(q - (d + 1), e);
    assert (q - (d + 1)) * e == q * e - (d + 1) * e;
    MultipleIsLarger(q, e);
  }

  lemma MultipleIsLarger(q: int, e: int)
    requires e > 1
    ensures q >= 0 ==> q * e >= q
  {
  }

  method DivideBySubtraction(freq: byte, rate: long) returns (a: Option<byte>)
    ensures a == DividerBySubtraction(freq, rate)
  {
    var row := SearchTable(DIVISOR_TABLE, rate);
    if row.None? {
      assert DIVISOR_TABLE[0].rate != rate && DIVISOR_TABLE[1].rate != rate
        && DIVISOR_TABLE[2].rate != rate && DIVISOR_TABLE[3].rate != rate;
      return None;
    }
    var e := row.value;
    assert e == DivisorFor(rate);
    var d: int, b: int := freq, 0;
    while d != 0
      invariant 0 <= d && 0 <= b && b * (e as int) + d == freq
    {
      if d < e {
        QuotientUnique(freq, e, b);
        return None;
      }
      assert (b + 1) * e == b * e + e;
      d := d - e;
      b := b + 1;
    }
    QuotientUnique(freq, e, b);
    a := Some((b - 1) % 0x100);
  }
}
