/** The serial flash boot loader generator: triplets into a table of 512 bytes, ending in a jump to the code. */
module BootLoader {
  import opened Bytes
  import opened Triplets

  const MAX_LOADER_LENGTH := 512
  const JP: byte := 0xC3
  const SPCR: Register := 0x24

  /** Execution begins at address 0, once SPCR is written. */
  function Trampoline(start: word): seq<Write> {
    [Mem(0, JP), Mem(1, Lo(start)), Mem(2, Hi(start)), Io(SPCR, 0x80)]
  }

  function Program(cs: seq<Command>, file: seq<byte>): seq<Write> {
    Meaning(cs, file, StartOf(cs)) + Trampoline(StartOf(cs))
  }

  /** The table: the source file spelled out, patches counted from its start, and a jump there before SPCR is set. */
  predicate SpellsTable(s: seq<byte>, cs: seq<Command>, file: seq<byte>) {
    var n := Prelude(cs);
    var start := if n < |cs| && cs[n].Start? then cs[n].at else 0;
    && |s| >= 12 && Spells(s[..|s| - 12], cs, file, start)
    && s[|s| - 12..] ==
         [0x00, 0x00, 0xC3, 0x00, 0x01, start % 0x100, 0x00, 0x02, start / 0x100, 0x80, 0x24, 0x80]
  }

  lemma {:induction false} EncodeConcat(ws: seq<Write>, ts: seq<Write>)
    ensures Encode(ws + ts) == Encode(ws) + Encode(ts)
    decreases |ts|
  {
    hide Triplet;
    if ts == [] {
      assert ws + ts == ws;
    } else {
      assert (ws + ts)[..|ws + ts| - 1] == ws + ts[..|ts| - 1];
      EncodeConcat(ws, ts[..|ts| - 1]);
    }
  }

  lemma TrampolineSpelled(start: word)
    ensures Encode(Trampoline(start)) ==
      [0x00, 0x00, 0xC3, 0x00, 0x01, start % 0x100, 0x00, 0x02, start / 0x100, 0x80, 0x24, 0x80]
  {
    hide Encode;
    HighIsQuotient(0);
    HighIsQuotient(1);
    HighIsQuotient(2);
    HighIsQuotient(start);
    HighIsQuotient(0x8024);
    EncodeFour(Mem(0, JP), Mem(1, Lo(start)), Mem(2, Hi(start)), Io(SPCR, 0x80));
  }

  lemma EncodeFour(w0: Write, w1: Write, w2: Write, w3: Write)
    ensures Encode([w0, w1, w2, w3]) == Triplet(w0) + Triplet(w1) + Triplet(w2) + Triplet(w3)
  {
    hide Triplet, Encode;
    EncodeNext([w0, w1, w2], w3);
    EncodeNext([w0, w1], w2);
    EncodeNext([w0], w1);
    EncodeOne(w0);
    assert [w0] + [w1] == [w0, w1] && [w0, w1] + [w2] == [w0, w1, w2] && [w0, w1, w2] + [w3] == [w0, w1, w2, w3];
  }

  lemma EncodeOne(w: Write)
    ensures Encode([w]) == Triplet(w)
  {
    hide Triplet;
    assert [w][..0] == [];
  }

  lemma ProgramSpelled(cs: seq<Command>, file: seq<byte>)
    ensures SpellsTable(Encode(Program(cs, file)), cs, file)
  {
    hide Encode, Spells, Meaning, Trampoline;
    var meaning, jump := Meaning(cs, file, StartOf(cs)), Trampoline(StartOf(cs));
    EncodeConcat(meaning, jump);
    MeaningSpelled(cs, file, StartOf(cs));
    TrampolineSpelled(StartOf(cs));
    assert (Encode(meaning) + Encode(jump))[..|Encode(meaning)|] == Encode(meaning);
  }

  class Generator {
    const loaderBytes: array<byte>
    var currIndex: nat

    constructor ()
      ensures Valid() && Contents() == [] && fresh(loaderBytes)
    {
      loaderBytes := new byte[MAX_LOADER_LENGTH](_ => 0);
      currIndex := 0;
    }

    ghost predicate Valid()
      reads this
    {
      currIndex <= loaderBytes.Length == MAX_LOADER_LENGTH
    }

    ghost function Contents(): seq<byte>
      requires Valid()
      reads this, loaderBytes
    {
      loaderBytes[..currIndex]
    }

    /** `write_triplet`; false is its error exit. */
    method WriteTriplet(address: word, value: byte) returns (ok: bool)
      requires Valid()
      modifies this, loaderBytes
      ensures Valid() && ok == (old(currIndex) + 3 <= MAX_LOADER_LENGTH)
      ensures Contents() == if ok then old(Contents()) + [Hi(address), Lo(address), value] else old(Contents())
    {
      if currIndex + 3 > MAX_LOADER_LENGTH {
        return false;
      }
      loaderBytes[currIndex] := Hi(address);
      loaderBytes[currIndex + 1] := Lo(address);
      loaderBytes[currIndex + 2] := value;
      currIndex := currIndex + 3;
      ok := true;
    }

    /** The table holds these writes; there is `ok` room for more. */
    ghost predicate Holds(ws: seq<Write>, ok: bool)
      requires Valid()
      reads this, loaderBytes
    {
      (ok <==> 3 * |ws| <= MAX_LOADER_LENGTH) && (ok ==> Contents() == Encode(ws))
    }

    method Put(w: Write, ghost ws: seq<Write>) returns (ok: bool)
      requires Valid() && Holds(ws, true)
      modifies this, loaderBytes
      ensures Valid() && Holds(ws + [w], ok)
    {
      EncodeNext(ws, w);
      if w.Io? {
        ok := WriteTriplet(w.register + 0x8000, w.value);
      } else {
        ok := WriteTriplet(w.address, w.value);
      }
    }

    method WriteSettings(cs: seq<Command>) returns (ok: bool, start: word, next: nat)
      requires Valid() && Contents() == []
      modifies this, loaderBytes
      ensures Valid()
      ensures ok ==> Holds(Settings(cs[..Prelude(cs)]), true)
      ensures !ok ==> 3 * Prelude(cs) > MAX_LOADER_LENGTH
      ensures ok ==> start == StartOf(cs) && next <= |cs| && cs[next..] == Rest(cs)
    {
      ok, start, next := true, 0, 0;
      assert Settings(cs[..0]) == [] && cs == cs[0..];
      assert |Settings(cs[..Prelude(cs)])| == Prelude(cs);
      hide Encode, Setting;
      while next < |cs|
        invariant Valid() && ok
        invariant next <= |cs| && Prelude(cs) == next + Prelude(cs[next..])
        invariant Holds(Settings(cs[..next]), true)
      {
        var c := cs[next];
        assert cs[next..][0] == c && cs[next..][1..] == cs[next + 1..];
        if c.Start? {
          start, next := c.at, next + 1;
          return;
        }
        SettingsNext(cs, next);
        ok := Put(Setting(c), Settings(cs[..next]));
        next := next + 1;
        if !ok {
          return;
        }
      }
    }

    method WriteImage(file: seq<byte>, start: word, ghost ws: seq<Write>) returns (ok: bool)
      requires Valid() && Holds(ws, true)
      modifies this, loaderBytes
      ensures Valid() && Holds(ws + Placed(start, Image(file)), ok)
    {
      hide Encode, Placed, Image;
      var stream := new Stream(file);
      var address: word := start;
      ghost var done: seq<byte> := [];
      PlacedNext(ws, start, [], 0);
      while true
        invariant Valid() && stream.Valid() && fresh(stream)
        invariant Image(file) == done + Image(stream.Ahead())
        invariant address == (start + |done|) % 0x1_0000
        invariant Holds(ws + Placed(start, done), true)
        decreases |stream.Ahead()|
      {
        var b := stream.NextChar();
        if b.None? {
          Shift(done, 0, []);
          return true;
        }
        Shift(done, b.value, Image(stream.Ahead()));
        PlacedNext(ws, start, done, b.value);
        ok := Put(Mem(address, b.value), ws + Placed(start, done));
        done := done + [b.value];
        if !ok {
          PlacedLength(start, done, Image(file));
          return;
        }
        address := (address + 1) % 0x1_0000;
      }
    }

    method WriteTrailers(cs: seq<Command>, start: word, ghost ws: seq<Write>) returns (ok: bool)
      requires Valid() && Holds(ws, true)
      modifies this, loaderBytes
      ensures Valid() && Holds(ws + Trailers(cs, start), ok)
    {
      hide Encode, Trailing;
      var i := 0;
      ok := true;
      assert ws + Trailers(cs[..0], start) == ws;
      while i < |cs|
        invariant i <= |cs| && Valid() && ok && Holds(ws + Trailers(cs[..i], start), true)
      {
        TrailersNext(ws, cs, i, start);
        ok := Put(Trailing(cs[i], start), ws + Trailers(cs[..i], start));
        i := i + 1;
        if !ok {
          return;
        }
      }
      assert cs[..i] == cs;
    }

    /** The whole table, or an error exit exactly when it would not fit. */
    method Generate(cs: seq<Command>, file: seq<byte>) returns (ok: bool)
      requires Valid() && Contents() == []
      modifies this, loaderBytes
      ensures Valid() && ok == (3 * |Program(cs, file)| <= MAX_LOADER_LENGTH)
      ensures ok ==> Contents() == Encode(Program(cs, file)) && SpellsTable(Contents(), cs, file)
    {
      ProgramSpelled(cs, file);
      hide SpellsTable, Encode, Settings, Placed, Trailers, Image, Prelude, StartOf, Rest;
      var start, next;
      ok, start, next := WriteSettings(cs);
      ghost var ws := Settings(cs[..Prelude(cs)]);
      ProgramLength(cs, file);
      if !ok {
        return;
      }
      ok := WriteImage(file, start, ws);
      ws := ws + Placed(start, Image(file));
      if !ok {
        return;
      }
      ok := WriteTrailers(cs[next..], start, ws);
      ws := ws + Trailers(cs[next..], start);
      if !ok {
        return;
      }
      ok := WriteTrampoline(start, ws);
    }

    method WriteTrampoline(start: word, ghost ws: seq<Write>) returns (ok: bool)
      requires Valid() && Holds(ws, true)
      modifies this, loaderBytes
      ensures Valid() && Holds(ws + Trampoline(start), ok)
    {
      hide Encode;
      var jump := Trampoline(start);
      var i := 0;
      ok := true;
      assert ws + jump[..0] == ws;
      while i < 4
        invariant i <= 4 && Valid() && ok && Holds(ws + jump[..i], true)
      {
        assert ws + jump[..i + 1] == (ws + jump[..i]) + [jump[i]];
        ok := Put(jump[i], ws + jump[..i]);
        i := i + 1;
        if !ok {
          return;
        }
      }
      assert jump[..4] == jump;
    }
  }

  lemma PlacedLength(start: word, done: seq<byte>, image: seq<byte>)
    requires |done| <= |image|
    ensures |Placed(start, done)| <= |Placed(start, image)|
  {
  }

  lemma ProgramLength(cs: seq<Command>, file: seq<byte>)
    ensures |Program(cs, file)| >=
      |Settings(cs[..Prelude(cs)])| + |Placed(StartOf(cs), Image(file))| + |Trailers(Rest(cs), StartOf(cs))|
    ensures |Settings(cs[..Prelude(cs)])| == Prelude(cs)
  {
  }

  // ----- what the boot ROM makes of it -----

  /** The last byte written to an address. */
  function Loaded(ws: seq<Write>, a: word): Option<byte> {
    if ws == [] then None
    else
      var last := ws[|ws| - 1];
      if last.Mem? && last.address == a then Some(last.value) else Loaded(ws[..|ws| - 1], a)
  }

  lemma {:induction false} LoadedConcat(s: seq<Write>, t: seq<Write>, a: word)
    ensures Loaded(s + t, a) == if Loaded(t, a).Some? then Loaded(t, a) else Loaded(s, a)
    decreases |t|
  {
    if t == [] {
      assert s + t == s;
    } else {
      assert (s + t)[..|s + t| - 1] == s + t[..|t| - 1];
      LoadedConcat(s, t[..|t| - 1], a);
    }
  }

  lemma {:induction false} LoadedPlaced(start: word, image: seq<byte>, k: nat)
    requires k < |image| <= 0x1_0000
    ensures Loaded(Placed(start, image), (start + k) % 0x1_0000) == Some(image[k])
  {
    hide Placed;
    var n := |image| - 1;
    PlacedLast(start, image);
    if k == n {
    } else {
      LoadedPlaced(start, image[..n], k);
      DistinctAddresses(start, k, n);
    }
  }

  lemma PlacedLast(start: word, image: seq<byte>)
    requires image != []
    ensures var ws, n := Placed(start, image), |image| - 1;
      |ws| == n + 1 && ws[..n] == Placed(start, image[..n]) && ws[n] == Mem((start + n) % 0x1_0000, image[n])
  {
  }

  lemma DistinctAddresses(start: word, k: nat, n: nat)
    requires k < n < 0x1_0000
    ensures (start + k) % 0x1_0000 != (start + n) % 0x1_0000
  {
  }

  predicate Patches(cs: seq<Command>, base: word, a: word) {
    exists i :: 0 <= i < |cs| && cs[i].Patch? && (base + cs[i].at) % 0x1_0000 == a
  }

  lemma {:induction false} LoadedTrailers(cs: seq<Command>, base: word, a: word)
    requires !Patches(cs, base, a)
    ensures Loaded(Trailers(cs, base), a) == None
  {
    if cs == [] {
    } else {
      var front := cs[..|cs| - 1];
      var ws := Trailers(cs, base);
      assert ws[..|ws| - 1] == Trailers(front, base);
      LoadedTrailers(front, base, a);
    }
  }

  lemma LoadedTrampoline(start: word, a: word)
    ensures Loaded(Trampoline(start), a) ==
      if a == 0 then Some(JP) else if a == 1 then Some(Lo(start)) else if a == 2 then Some(Hi(start)) else None
  {
    var t := Trampoline(start);
    assert t[..3][..2] == t[..2] && t[..2][..1] == t[..1];
    assert Loaded(t[..1], a) == if a == 0 then Some(JP) else None;
    assert Loaded(t[..2], a) == if a == 1 then Some(Lo(start)) else Loaded(t[..1], a);
    assert Loaded(t[..3], a) == if a == 2 then Some(Hi(start)) else Loaded(t[..2], a);
    assert Loaded(t, a) == Loaded(t[..3], a);
  }

  /** What the boot ROM takes a write for: an address from 0x8000 is a register to it. */
  function Taken(w: Write): Write {
    if w.Mem? && w.address >= 0x8000 then Io(w.address - 0x8000, w.value) else w
  }

  function TakenAll(ws: seq<Write>): seq<Write> {
    seq(|ws|, i requires 0 <= i < |ws| => Taken(ws[i]))
  }

  /** The boot ROM on what the generator wrote. */
  lemma {:induction false} ReplayIs(ws: seq<Write>)
    ensures Replay(Encode(ws)) == TakenAll(ws)
  {
    hide Taken, TakenAll, Obey, Triplet;
    if ws == [] {
      TakenNothing();
    } else {
      var front, w := ws[..|ws| - 1], ws[|ws| - 1];
      ReplayIs(front);
      ReplayNext(Encode(front), w);
      ObeyTaken(w);
      TakenLast(ws);
    }
  }

  lemma TakenNothing()
    ensures TakenAll([]) == []
  {
  }

  lemma TakenLast(ws: seq<Write>)
    requires ws != []
    ensures TakenAll(ws) == TakenAll(ws[..|ws| - 1]) + [Taken(ws[|ws| - 1])]
  {
    hide Taken;
  }

  lemma ObeyTaken(w: Write)
    ensures var t := Triplet(w); Obey(t[0], t[1], t[2]) == Taken(w)
  {
  }

  lemma {:induction false} LoadedTaken(ws: seq<Write>, a: word)
    ensures Loaded(TakenAll(ws), a) == if a < 0x8000 then Loaded(ws, a) else None
  {
    if ws == [] {
    } else {
      var front := ws[..|ws| - 1];
      LoadedTaken(front, a);
      assert TakenAll(ws)[..|ws| - 1] == TakenAll(front);
    }
  }

  /** What the program's writes would load: the jump, and every code byte that neither a patch nor the jump replaced. */
  lemma LoadedProgram(cs: seq<Command>, file: seq<byte>, a: word)
    requires |Image(file)| <= 0x1_0000
    ensures var ws, start, image := Program(cs, file), StartOf(cs), Image(file);
      && (a <= 2 ==> Loaded(ws, a) == Loaded(Trampoline(start), a))
      && (a > 2 && !Patches(Rest(cs), start, a) ==>
           forall k :: 0 <= k < |image| && (start + k) % 0x1_0000 == a ==> Loaded(ws, a) == Some(image[k]))
  {
    hide Settings, Placed, Trailers, Image, Prelude, StartOf, Rest, Trailing, Loaded, Patches;
    var start, image := StartOf(cs), Image(file);
    var settings, placed, trailers := Settings(cs[..Prelude(cs)]), Placed(start, image), Trailers(Rest(cs), start);
    LoadedConcat(settings, placed, a);
    LoadedConcat(settings + placed, trailers, a);
    LoadedConcat(settings + placed + trailers, Trampoline(start), a);
    LoadedTrampoline(start, a);
    if a > 2 && !Patches(Rest(cs), start, a) {
      LoadedTrailers(Rest(cs), start, a);
      forall k | 0 <= k < |image| && (start + k) % 0x1_0000 == a
        ensures Loaded(Program(cs, file), a) == Some(image[k])
      {
        LoadedPlaced(start, image, k);
      }
    }
  }

  /**
   * Before SPCR starts execution at 0, the boot ROM has put there a jump to the code. Of the code bytes that
   * neither a patch nor the jump replaced it has loaded exactly those below 0x8000; the others went to registers.
   */
  lemma LoadedByRom(cs: seq<Command>, file: seq<byte>)
    requires |Image(file)| <= 0x1_0000
    ensures var ws, start, image := Replay(Encode(Program(cs, file))), StartOf(cs), Image(file);
      && ws != [] && ws[|ws| - 1] == Io(SPCR, 0x80)
      && Loaded(ws, 0) == Some(JP) && Loaded(ws, 1) == Some(Lo(start)) && Loaded(ws, 2) == Some(Hi(start))
      && forall k :: 0 <= k < |image| && (start + k) % 0x1_0000 > 2 && !Patches(Rest(cs), start, (start + k) % 0x1_0000)
           ==> (Loaded(ws, (start + k) % 0x1_0000) == Some(image[k]) <==> (start + k) % 0x1_0000 < 0x8000)
  {
    hide Settings, Placed, Trailers, Image, Prelude, StartOf, Rest, Trailing, Loaded, Patches, Replay, Encode, Meaning;
    var program, start, image := Program(cs, file), StartOf(cs), Image(file);
    ReplayIs(program);
    forall a: word | a <= 2 ensures Loaded(TakenAll(program), a) == Loaded(Trampoline(start), a) {
      LoadedTaken(program, a);
      LoadedProgram(cs, file, a);
    }
    LoadedTrampoline(start, 0);
    LoadedTrampoline(start, 1);
    LoadedTrampoline(start, 2);
    forall k | 0 <= k < |image| && (start + k) % 0x1_0000 > 2 && !Patches(Rest(cs), start, (start + k) % 0x1_0000)
      ensures Loaded(TakenAll(program), (start + k) % 0x1_0000) == Some(image[k]) <==> (start + k) % 0x1_0000 < 0x8000
    {
      LoadedTaken(program, (start + k) % 0x1_0000);
      LoadedProgram(cs, file, (start + k) % 0x1_0000);
    }
  }

  /** The boot ROM obeys the table as meant exactly if every code byte and every patch lies below the register space. */
  lemma FaithfulProgram(cs: seq<Command>, file: seq<byte>)
    ensures Replay(Encode(Program(cs, file))) == Program(cs, file) <==>
      && (Image(file) == [] || StartOf(cs) + |Image(file)| <= 0x8000)
      && (forall i :: 0 <= i < |Rest(cs)| && Rest(cs)[i].Patch? ==> (StartOf(cs) + Rest(cs)[i].at) % 0x1_0000 < 0x8000)
  {
    hide InReach, Settings, Placed, Trailers, Image, Prelude, StartOf, Rest, Replay, Encode, AllInReach, Trampoline;
    var start := StartOf(cs);
    var settings, placed := Settings(cs[..Prelude(cs)]), Placed(start, Image(file));
    var trailers := Trailers(Rest(cs), start);
    ReplayWhenInReach(Program(cs, file));
    AllInReachConcat(settings + placed + trailers, Trampoline(start));
    AllInReachConcat(settings + placed, trailers);
    AllInReachConcat(settings, placed);
    TrampolineInReach(start);
    SettingsInReach(cs[..Prelude(cs)]);
    PlacedInReach(start, Image(file));
    TrailersInReach(Rest(cs), start);
  }

  lemma SettingsInReach(cs: seq<Command>)
    ensures AllInReach(Settings(cs))
  {
  }

  lemma PlacedInReach(start: word, image: seq<byte>)
    ensures AllInReach(Placed(start, image)) <==> image == [] || start + |image| <= 0x8000
  {
    var ws := Placed(start, image);
    if image != [] && start + |image| > 0x8000 {
      assert !InReach(ws[if start < 0x8000 then 0x8000 - start else 0]);
    }
  }

  lemma TrampolineInReach(start: word)
    ensures AllInReach(Trampoline(start))
  {
  }
}
