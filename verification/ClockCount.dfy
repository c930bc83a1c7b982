/** The cold loader's clock measurement: timer A interrupts counted over 128 periods of the 32 kHz clock. */
module ClockCount {
  import opened Bytes

  /** A periodic interrupt; a timer A underflow, interrupting if enabled; the main loop looking at B. */
  datatype Event = Periodic | TimerA | Poll

  const PERIODS := 129

  function Periodics(events: seq<Event>): nat {
    if events == [] then 0
    else Periodics(events[..|events| - 1]) + if events[|events| - 1] == Periodic then 1 else 0
  }

  /** The underflows from the first periodic interrupt to the 129th. */
  function Between(events: seq<Event>): nat {
    if events == [] then 0
    else
      var before := events[..|events| - 1];
      Between(before) + if events[|events| - 1] == TimerA && 1 <= Periodics(before) < PERIODS then 1 else 0
  }

  /** When the main loop sees B at zero: a look after the 129th interrupt and before the next, or 256 later. */
  predicate Seen(events: seq<Event>, i: nat) {
    i < |events| && events[i] == Poll && Periodics(events[..i]) % 0x100 == PERIODS
  }

  class ColdLoader {
    var b: byte
    var hl: word
    /** TACR: 1 while the timer A interrupt is enabled. */
    var tacr: byte

    constructor ()
      ensures Follows([])
    {
      b, hl, tacr := PERIODS, 0, 0;
    }

    /** The registers after these events, in whatever order the interrupts came. */
    ghost predicate Follows(events: seq<Event>)
      reads this
    {
      var p := Periodics(events);
      && b == (PERIODS - p) % 0x100
      && tacr == (if p == 0 || b == 0 then 0 else 1)
      && (p <= PERIODS ==> hl == Between(events) % 0x1_0000)
    }

    /** `_periodic_timer_isr`. */
    method PeriodicIsr()
      modifies `b, `tacr
      ensures b == (old(b) + 0xFF) % 0x100 && tacr == if b != 0 then 1 else 0
    {
      var a: byte := 0x01;
      b := (b + 0xFF) % 0x100;  // djnz
      if b == 0 {
        a := 0;
      }
      tacr := a;
    }

    /** `_timerA_timer_isr`. */
    method TimerAIsr()
      modifies `hl
      ensures hl == (old(hl) + 1) % 0x1_0000
    {
      hl := (hl + 1) % 0x1_0000;
    }

    method Interrupt(e: Event, ghost past: seq<Event>)
      requires Follows(past)
      modifies this
      ensures Follows(past + [e])
    {
      assert (past + [e])[..|past|] == past;
      match e {
        case Periodic => PeriodicIsr();
        case TimerA =>
          if tacr == 1 {
            TimerAIsr();
          }
        case Poll =>
      }
    }

    /**
     * `_timer_wait_loop`, with the events as they come: it ends at the first look that finds B zero. If it
     * ever looks between the 129th and the 130th periodic interrupt, HL is the count it was to measure.
     */
    method Measure(events: seq<Event>) returns (done: bool, at: nat)
      requires Follows([])
      modifies this
      ensures at <= |events| && Follows(events[..at])
      ensures forall i :: 0 <= i < at ==> !Seen(events, i)
      ensures if done then Seen(events, at) else at == |events|
      ensures forall look :: Attentive(events, look) ==>
        done && Periodics(events[..at]) == PERIODS && hl == Between(events[..at]) % 0x1_0000 && tacr == 0
    {
      done, at := false, 0;
      assert events[..0] == [];
      while at < |events| && !done
        invariant at <= |events| && Follows(events[..at])
        invariant forall i :: 0 <= i < at ==> !Seen(events, i)
        invariant done ==> Seen(events, at)
        decreases |events| - at, !done
      {
        if events[at] == Poll && b == 0 {
          done := true;
        } else {
          assert events[..at] + [events[at]] == events[..at + 1];
          Interrupt(events[at], events[..at]);
          at := at + 1;
        }
      }
      hide Periodics, Between;
      forall look | Attentive(events, look) ensures done && Periodics(events[..at]) == PERIODS {
        FirstLook(events, look, at);
      }
    }

    /**
     * What still interrupts between the last look and the use of the count. B stays zero exactly if no periodic
     * interrupt comes (or 256 of them), and without one the count stays.
     */
    method Disable(late: seq<Event>, ghost past: seq<Event>)
      requires Follows(past) && Periodics(past) % 0x100 == PERIODS
      modifies this
      ensures Follows(past + late)
      ensures b == 0 <==> Periodics(late) % 0x100 == 0
      ensures Periodics(past) == PERIODS && Periodics(late) == 0 ==> hl == Between(past) % 0x1_0000
    {
      var i := 0;
      assert past + late[..0] == past;
      while i < |late|
        invariant i <= |late| && Follows(past + late[..i])
      {
        assert past + late[..i] + [late[i]] == past + late[..i + 1];
        Interrupt(late[i], past + late[..i]);
        i := i + 1;
      }
      assert late[..i] == late;
      AfterLook(past, late);
    }

    /** `TAT4R`, the divider of the first baud rate, with B as the loop left it: right exactly for these registers. */
    method Divider() returns (d: byte)
      ensures d + 1 == (hl + 0x80) / 0x100 <==> b == 0 && hl >= 0x80
      ensures b == 0 && hl < 0x80 ==> d == 0xFF
    {
      var bc: word := 0x100 * b as int + 0x80;  // ld c, 128
      var sum: word := if hl + bc < 0x1_0000 then hl + bc else hl + bc - 0x1_0000;  // add hl, bc
      HighIsQuotient(sum);
      var h := Hi(sum);
      d := if h == 0 then 0xFF else h - 1;  // dec h
      DividerIs(hl, b, h);
    }
  }

  lemma DividerIs(hl: word, b: byte, h: byte)
    requires var x := hl + 0x100 * b as int + 0x80; h == (if x < 0x1_0000 then x else x - 0x1_0000) / 0x100
    ensures var d := if h == 0 then 0xFF else h as int - 1;
      && (d + 1 == (hl + 0x80) / 0x100 <==> b == 0 && hl >= 0x80)
      && (b == 0 && hl < 0x80 ==> d == 0xFF)
  {
    var q := (hl + 0x80) / 0x100;
    assert (hl + 0x80 + 0x100 * b as int) / 0x100 == q + b;
    assert (hl + 0x80 + 0x100 * b as int - 0x1_0000) / 0x100 == q + b - 0x100;
  }

  lemma {:induction false} PeriodicsConcat(s: seq<Event>, t: seq<Event>)
    ensures Periodics(s + t) == Periodics(s) + Periodics(t)
    decreases |t|
  {
    if t == [] {
      assert s + t == s;
    } else {
      assert (s + t)[..|s + t| - 1] == s + t[..|t| - 1];
      PeriodicsConcat(s, t[..|t| - 1]);
    }
  }

  /** Behind the 129th periodic interrupt nothing is counted any more. */
  lemma {:induction false} BetweenStays(s: seq<Event>, t: seq<Event>)
    requires Periodics(s) >= PERIODS
    ensures Between(s + t) == Between(s)
    decreases |t|
  {
    if t == [] {
      assert s + t == s;
    } else {
      assert (s + t)[..|s + t| - 1] == s + t[..|t| - 1];
      BetweenStays(s, t[..|t| - 1]);
      PeriodicsConcat(s, t[..|t| - 1]);
    }
  }

  lemma AfterLook(past: seq<Event>, late: seq<Event>)
    requires Periodics(past) % 0x100 == PERIODS
    ensures (PERIODS - Periodics(past + late)) % 0x100 == 0 <==> Periodics(late) % 0x100 == 0
    ensures Periodics(past) >= PERIODS && Between(past + late) == Between(past)
    ensures Periodics(past + late) == Periodics(past) + Periodics(late)
  {
    PeriodicsConcat(past, late);
    BetweenStays(past, late);
    hide Periodics, Between;
    Wraps(PERIODS - Periodics(past + late), Periodics(late), Periodics(past) / 0x100);
  }

  lemma Wraps(x: int, y: int, k: int)
    requires x == -0x100 * k - y
    ensures x % 0x100 == 0 <==> y % 0x100 == 0
  {
    if x % 0x100 == 0 {
      assert y == 0x100 * (-k - x / 0x100);
    }
    if y % 0x100 == 0 {
      assert x == 0x100 * (-k - y / 0x100);
    }
  }

  lemma {:induction false} PeriodicsGrow(events: seq<Event>, i: nat, j: nat)
    requires i <= j <= |events|
    ensures Periodics(events[..i]) <= Periodics(events[..j]) <= Periodics(events[..i]) + (j - i)
    decreases j
  {
    if i == j {
    } else {
      assert events[..j][..j - 1] == events[..j - 1];
      PeriodicsGrow(events, i, j - 1);
    }
  }

  /** The main loop looks between the 129th and the 130th periodic interrupt. */
  predicate Attentive(events: seq<Event>, look: nat) {
    look < |events| && events[look] == Poll && Periodics(events[..look]) == PERIODS
  }

  /** An attentive loop leaves at such a look, so `Follows` gives the count the measurement is for. */
  lemma FirstLook(events: seq<Event>, look: nat, at: nat)
    requires Attentive(events, look) && at <= |events|
    requires forall i :: 0 <= i < at ==> !Seen(events, i)
    requires Seen(events, at) || at == |events|
    ensures Seen(events, at) && Periodics(events[..at]) == PERIODS
  {
    assert Seen(events, look);
    PeriodicsGrow(events, at, look);
  }
}
