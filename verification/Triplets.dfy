/**
 * The triplet generators: what the boot ROM does with their output is what the source file asked for.
 * A triplet is an address, high byte first, and a value; bit 15 of the address selects I/O space.
 */
module Triplets {
  import opened Bytes

  type Register = x: int | 0 <= x < 0x8000

  datatype Write = Io(register: Register, value: byte) | Mem(address: word, value: byte)

  /** A `//@` command, parsed. Register names that are not known stand for register 0. */
  datatype Command = Start(at: word) | Patch(at: word, value: byte) | Set(register: word, setting: word)

  // ----- what the source file asks for -----

  /** Where `start` and `patch` are no keywords they are register names, unknown ones. */
  function Setting(c: Command): Write {
    match c
    case Set(register, setting) => Io(register % 0x8000, Lo(setting))
    case Start(at) => Io(0, Lo(at))
    case Patch(at, _) => Io(0, Lo(at))
  }

  /** A command behind `start`; the boot loader tool counts patch addresses from `base`. */
  function Trailing(c: Command, base: word): Write {
    if c.Patch? then Mem((base + c.at) % 0x1_0000, c.value) else Setting(c)
  }

  function Settings(cs: seq<Command>): seq<Write> {
    seq(|cs|, i requires 0 <= i < |cs| => Setting(cs[i]))
  }

  function Trailers(cs: seq<Command>, base: word): seq<Write> {
    seq(|cs|, i requires 0 <= i < |cs| => Trailing(cs[i], base))
  }

  function Placed(start: word, image: seq<byte>): seq<Write> {
    seq(|image|, i requires 0 <= i < |image| => Mem((start + i) % 0x1_0000, image[i]))
  }

  /** How many commands come before `start`. */
  function Prelude(cs: seq<Command>): (n: nat)
    ensures n <= |cs|
  {
    if cs == [] || cs[0].Start? then 0 else 1 + Prelude(cs[1..])
  }

  lemma {:induction false} PreludeEnds(cs: seq<Command>)
    ensures forall i :: 0 <= i < Prelude(cs) ==> !cs[i].Start?
    ensures Prelude(cs) < |cs| ==> cs[Prelude(cs)].Start?
  {
    if cs == [] || cs[0].Start? {
    } else {
      PreludeEnds(cs[1..]);
      forall i | 0 <= i < Prelude(cs) ensures !cs[i].Start? {
        if i > 0 {
          assert cs[i] == cs[1..][i - 1];
        }
      }
    }
  }

  function StartOf(cs: seq<Command>): word {
    var n := Prelude(cs);
    if n < |cs| && cs[n].Start? then cs[n].at else 0
  }

  function Rest(cs: seq<Command>): seq<Command> {
    var n := Prelude(cs);
    if n < |cs| then cs[n + 1..] else []
  }

  const MARK: seq<byte> := [0x76, 0x76, 0x76, 0x76]

  /** What the generators take from the compiler's output; a look ahead into its end is not undone. */
  function Image(file: seq<byte>): seq<byte> {
    if file == [] || MARK <= file then []
    else if file <= MARK then [0x76]
    else [file[0]] + Image(file[1..])
  }

  function Meaning(cs: seq<Command>, file: seq<byte>, base: word): seq<Write> {
    Settings(cs[..Prelude(cs)]) + Placed(StartOf(cs), Image(file)) + Trailers(Rest(cs), base)
  }

  // ----- the stream -----

  function Triplet(w: Write): seq<byte> {
    match w
    case Io(register, value) => [Hi(register + 0x8000), Lo(register + 0x8000), value]
    case Mem(address, value) => [Hi(address), Lo(address), value]
  }

  function Encode(ws: seq<Write>): (s: seq<byte>)
    ensures |s| == 3 * |ws|
  {
    if ws == [] then [] else Encode(ws[..|ws| - 1]) + Triplet(ws[|ws| - 1])
  }

  /** The boot ROM on one triplet. */
  function Obey(high: byte, low: byte, value: byte): Write {
    var address := Word(low, high);
    if high >= 0x80 then Io(address - 0x8000, value) else Mem(address, value)
  }

  function Replay(s: seq<byte>): seq<Write> {
    if |s| < 3 then [] else Replay(s[..|s| - 3]) + [Obey(s[|s| - 3], s[|s| - 2], s[|s| - 1])]
  }

  predicate InReach(w: Write) {
    w.Mem? ==> w.address < 0x8000
  }

  lemma ObeyTriplet(w: Write)
    ensures var t := Triplet(w); Obey(t[0], t[1], t[2]) == w <==> InReach(w)
  {
  }

  lemma ReplayNext(s: seq<byte>, w: Write)
    ensures Replay(s + Triplet(w)) == Replay(s) + [Obey(Triplet(w)[0], Triplet(w)[1], Triplet(w)[2])]
  {
    hide Obey;
    assert (s + Triplet(w))[..|s|] == s;
  }

  /** The boot ROM does as asked exactly when no memory address looks like a register. */
  lemma {:induction false} ReplayEncode(ws: seq<Write>)
    ensures |Replay(Encode(ws))| == |ws|
    ensures Replay(Encode(ws)) == ws <==> forall i :: 0 <= i < |ws| ==> InReach(ws[i])
  {
    hide Obey, Triplet, InReach;
    if ws == [] {
    } else {
      var front, w := ws[..|ws| - 1], ws[|ws| - 1];
      ReplayEncode(front);
      ObeyTriplet(w);
      ReplayNext(Encode(front), w);
      assert ws == front + [w];
    }
  }

  lemma EncodeNext(ws: seq<Write>, w: Write)
    ensures Encode(ws + [w]) == Encode(ws) + Triplet(w)
  {
    assert (ws + [w])[..|ws|] == ws;
  }

  // ----- the output, byte by byte -----

  /** The triplet at position `k`. */
  predicate Reads(s: seq<byte>, k: nat, high: int, low: int, value: int) {
    3 * k + 3 <= |s| && s[3 * k] == high && s[3 * k + 1] == low && s[3 * k + 2] == value
  }

  predicate ReadsByte(s: seq<byte>, k: nat, address: word, value: byte) {
    Reads(s, k, address / 0x100, address % 0x100, value)
  }

  /** A register number with bit 15 set, and the low byte of the setting. */
  predicate ReadsSetting(s: seq<byte>, k: nat, register: word, setting: word) {
    Reads(s, k, 0x80 + register % 0x8000 / 0x100, register % 0x100, setting % 0x100)
  }

  /** Before `start` every name is a register's, and behind it every name but `patch`; unknown ones are register 0. */
  predicate ReadsCommand(s: seq<byte>, k: nat, c: Command, behind: bool, base: word) {
    match c
    case Set(register, setting) => ReadsSetting(s, k, register, setting)
    case Start(at) => ReadsSetting(s, k, 0, at)
    case Patch(at, value) =>
      if behind then ReadsByte(s, k, (base + at) % 0x1_0000, value) else ReadsSetting(s, k, 0, at)
  }

  predicate ReadsCommands(s: seq<byte>, k: nat, cs: seq<Command>, behind: bool, base: word) {
    forall i :: 0 <= i < |cs| ==> ReadsCommand(s, k + i, cs[i], behind, base)
  }

  /** One triplet for each command before `start`, for each byte of the image, and for each command behind it. */
  predicate Spells(s: seq<byte>, cs: seq<Command>, file: seq<byte>, base: word) {
    var n, image := Prelude(cs), Image(file);
    var start, rest := if n < |cs| && cs[n].Start? then cs[n].at else 0, if n < |cs| then cs[n + 1..] else [];
    && |s| == 3 * (n + |image| + |rest|)
    && ReadsCommands(s, 0, cs[..n], false, base)
    && (forall i :: 0 <= i < |image| ==> ReadsByte(s, n + i, (start + i) % 0x1_0000, image[i]))
    && ReadsCommands(s, n + |image|, rest, true, base)
  }

  lemma {:induction false} EncodeReads(ws: seq<Write>, k: nat)
    requires k < |ws|
    ensures var t := Triplet(ws[k]);
      |t| == 3 && Reads(Encode(ws), k, t[0], t[1], t[2])
  {
    hide Triplet;
    TripletLength(ws[|ws| - 1]);
    if k == |ws| - 1 {
    } else {
      EncodeReads(ws[..|ws| - 1], k);
    }
  }

  lemma TripletLength(w: Write)
    ensures |Triplet(w)| == 3
  {
  }

  lemma ReadsWrite(ws: seq<Write>, k: nat)
    requires k < |ws|
    ensures match ws[k]
      case Io(register, value) => Reads(Encode(ws), k, 0x80 + register / 0x100, register % 0x100, value)
      case Mem(address, value) => ReadsByte(Encode(ws), k, address, value)
  {
    EncodeReads(ws, k);
    hide Encode, Reads;
    match ws[k] {
      case Io(register, _) =>
        HighIsQuotient(register + 0x8000);
      case Mem(address, _) =>
        HighIsQuotient(address);
    }
  }

  lemma RegisterReads(ws: seq<Write>, k: nat, register: word, setting: word)
    requires k < |ws| && ws[k] == Io(register % 0x8000, Lo(setting))
    ensures ReadsSetting(Encode(ws), k, register, setting)
  {
    ReadsWrite(ws, k);
    hide Encode, Reads, Triplet;
    HighIsQuotient(setting);
    LowByte(register);
  }

  lemma LowByte(w: word)
    ensures w % 0x8000 % 0x100 == w % 0x100
  {
  }

  lemma SettingReads(ws: seq<Write>, k: nat, c: Command, base: word)
    requires k < |ws| && ws[k] == Setting(c)
    ensures ReadsCommand(Encode(ws), k, c, false, base)
  {
    hide Encode, ReadsSetting;
    match c {
      case Set(register, setting) =>
        RegisterReads(ws, k, register, setting);
      case Start(at) =>
        RegisterReads(ws, k, 0, at);
      case Patch(at, _) =>
        RegisterReads(ws, k, 0, at);
    }
  }

  lemma TrailingReads(ws: seq<Write>, k: nat, c: Command, base: word)
    requires k < |ws| && ws[k] == Trailing(c, base)
    ensures ReadsCommand(Encode(ws), k, c, true, base)
  {
    hide Encode, Reads, Setting;
    if c.Patch? {
      ReadsWrite(ws, k);
    } else {
      SettingReads(ws, k, c, base);
    }
  }

  /** The generators' output is the source file spelled out. */
  lemma MeaningSpelled(cs: seq<Command>, file: seq<byte>, base: word)
    ensures Spells(Encode(Meaning(cs, file, base)), cs, file, base)
  {
    hide Encode, ReadsCommand, ReadsByte, Setting, Trailing, Image;
    var ws, n, image, rest := Meaning(cs, file, base), Prelude(cs), Image(file), Rest(cs);
    forall i | 0 <= i < n ensures ReadsCommand(Encode(ws), i, cs[i], false, base) {
      SettingReads(ws, i, cs[i], base);
    }
    forall i | 0 <= i < |image| ensures ReadsByte(Encode(ws), n + i, (StartOf(cs) + i) % 0x1_0000, image[i]) {
      ReadsWrite(ws, n + i);
    }
    forall i | 0 <= i < |rest| ensures ReadsCommand(Encode(ws), n + |image| + i, rest[i], true, base) {
      TrailingReads(ws, n + |image| + i, rest[i], base);
    }
  }

  lemma {:induction false} ReplayReads(s: seq<byte>, k: nat)
    requires |s| % 3 == 0 && 3 * k + 3 <= |s|
    ensures |Replay(s)| == |s| / 3 && Replay(s)[k] == Obey(s[3 * k], s[3 * k + 1], s[3 * k + 2])
    decreases |s|
  {
    hide Obey;
    if |s| == 3 {
    } else {
      ReplayReads(s[..|s| - 3], if 3 * k + 3 == |s| then 0 else k);
    }
  }

  lemma ByteObeyed(s: seq<byte>, k: nat, address: word, value: byte)
    requires |s| % 3 == 0 && ReadsByte(s, k, address, value) && address < 0x8000
    ensures k < |Replay(s)| && Replay(s)[k] == Mem(address, value)
  {
    ReplayReads(s, k);
    hide Replay;
  }

  /** What the boot ROM is to do for a command; a patch from 0x8000 on and a register number above it are not met. */
  predicate Obeyed(w: Write, c: Command, behind: bool, base: word) {
    match c
    case Set(register, setting) => register < 0x8000 ==> w == Io(register, setting % 0x100)
    case Start(at) => w == Io(0, at % 0x100)
    case Patch(at, value) =>
      if behind then (base + at) % 0x1_0000 < 0x8000 ==> w == Mem((base + at) % 0x1_0000, value)
      else w == Io(0, at % 0x100)
  }

  predicate AllObeyed(ws: seq<Write>, k: nat, cs: seq<Command>, behind: bool, base: word) {
    k + |cs| <= |ws| && forall i :: 0 <= i < |cs| ==> Obeyed(ws[k + i], cs[i], behind, base)
  }

  lemma CommandObeyed(s: seq<byte>, k: nat, c: Command, behind: bool, base: word)
    requires |s| % 3 == 0 && ReadsCommand(s, k, c, behind, base)
    ensures k < |Replay(s)| && Obeyed(Replay(s)[k], c, behind, base)
  {
    ReplayReads(s, k);
    hide Replay;
  }

  /**
   * Command by command, the boot ROM does what the source file says: each setting, each byte of the image and
   * each patch, the last two where they lie below 0x8000.
   */
  lemma CommandsObeyed(s: seq<byte>, cs: seq<Command>, file: seq<byte>, base: word)
    requires Spells(s, cs, file, base)
    ensures var ws, n, image := Replay(s), Prelude(cs), Image(file);
      var start, rest := if n < |cs| && cs[n].Start? then cs[n].at else 0, if n < |cs| then cs[n + 1..] else [];
      && |ws| == n + |image| + |rest|
      && AllObeyed(ws, 0, cs[..n], false, base)
      && (forall i :: 0 <= i < |image| && (start + i) % 0x1_0000 < 0x8000 ==>
            ws[n + i] == Mem((start + i) % 0x1_0000, image[i]))
      && AllObeyed(ws, n + |image|, rest, true, base)
  {
    hide Replay, ReadsByte, ReadsCommands, AllObeyed, Image;
    ReplayLength(s);
    var ws, n, image := Replay(s), Prelude(cs), Image(file);
    var start, rest := if n < |cs| && cs[n].Start? then cs[n].at else 0, if n < |cs| then cs[n + 1..] else [];
    EachObeyed(s, 0, cs[..n], false, base);
    forall i | 0 <= i < |image| && (start + i) % 0x1_0000 < 0x8000
      ensures ws[n + i] == Mem((start + i) % 0x1_0000, image[i])
    {
      ByteObeyed(s, n + i, (start + i) % 0x1_0000, image[i]);
    }
    EachObeyed(s, n + |image|, rest, true, base);
  }

  lemma EachObeyed(s: seq<byte>, k: nat, cs: seq<Command>, behind: bool, base: word)
    requires |s| % 3 == 0 && 3 * (k + |cs|) <= |s| && ReadsCommands(s, k, cs, behind, base)
    ensures AllObeyed(Replay(s), k, cs, behind, base)
  {
    hide Replay, ReadsCommand, Obeyed;
    ReplayLength(s);
    forall i | 0 <= i < |cs| ensures Obeyed(Replay(s)[k + i], cs[i], behind, base) {
      CommandObeyed(s, k + i, cs[i], behind, base);
    }
  }

  lemma ReplayLength(s: seq<byte>)
    requires |s| % 3 == 0
    ensures |Replay(s)| == |s| / 3
  {
    if s != [] {
      ReplayReads(s, 0);
    }
  }

  // ----- the image file -----

  /** An input stream as of C++98: once it has met the end, seeking back does not revive it. */
  class Stream {
    const data: seq<byte>
    var pos: nat
    var eof: bool

    constructor (d: seq<byte>)
      ensures Valid() && Ahead() == d
    {
      data, pos, eof := d, 0, false;
    }

    ghost predicate Valid()
      reads this
    {
      pos <= |data|
    }

    ghost function Ahead(): seq<byte>
      requires Valid()
      reads this
    {
      if eof then [] else data[pos..]
    }

    method Read() returns (b: Option<byte>)
      requires Valid()
      modifies this
      ensures Valid()
      ensures if old(eof) || old(pos) == |data| then b.None? && eof && pos == old(pos)
              else b == Some(data[old(pos)]) && !eof && pos == old(pos) + 1
    {
      if eof || pos == |data| {
        eof := true;
        return None;
      }
      b := Some(data[pos]);
      pos := pos + 1;
    }

    /** `nextchar`: None is a stop. */
    method NextChar() returns (b: Option<byte>)
      requires Valid()
      modifies this
      ensures Valid()
      ensures match b
        case None => Image(old(Ahead())) == []
        case Some(v) => Image(old(Ahead())) == [v] + Image(Ahead()) && |Ahead()| < |old(Ahead())|
    {
      ghost var ahead := Ahead();
      b := Read();
      if b.None? || b.value != 0x76 {
        return;
      }
      var place := pos;
      var i := 3;
      while i != 0
        invariant 0 <= i <= 3 && Valid() && !eof && pos == place + 3 - i
        invariant forall k :: 0 <= k < 4 - i ==> ahead[k] == 0x76
      {
        var input := Read();
        if input.None? {
          assert ahead <= MARK;
          return;
        }
        if input.value != 0x76 {
          pos := place;
          return;
        }
        i := i - 1;
      }
      b := None;
    }
  }

  /** The marker occurs nowhere in these bytes. */
  predicate Unmarked(file: seq<byte>) {
    file == [] || (!(MARK <= file) && Unmarked(file[1..]))
  }

  /** Up to the first marker, if there is one. */
  lemma {:induction false} UpToMarker(code: seq<byte>, rest: seq<byte>)
    requires MARK <= rest
    requires forall i :: 0 <= i < |code| ==> !(MARK <= (code + rest)[i..])
    ensures Image(code + rest) == code
  {
    assert (code + rest)[0..] == code + rest;
    if code == [] {
      assert code + rest == rest;
    } else {
      assert (code + rest)[1..] == code[1..] + rest;
      forall i | 0 <= i < |code| - 1 ensures !(MARK <= (code[1..] + rest)[i..]) {
        assert (code[1..] + rest)[i..] == (code + rest)[i + 1..];
      }
      UpToMarker(code[1..], rest);
    }
  }

  /** The cases of `Image`, one at a time. */
  lemma ImageCases(file: seq<byte>)
    requires file != [] && !(MARK <= file)
    ensures Image(file) == if file <= MARK then [0x76] else [file[0]] + Image(file[1..])
  {
  }

  /** How many bytes of 0x76 a file without marker ends in, up to three. */
  function Tail76(file: seq<byte>): nat {
    if file == [] || file[|file| - 1] != 0x76 then 0
    else if |file| == 1 || file[|file| - 2] != 0x76 then 1
    else if |file| == 2 || file[|file| - 3] != 0x76 then 2
    else 3
  }

  /** What is lost of it then: of two bytes one, and of three two. */
  lemma {:induction false} EndLost(file: seq<byte>)
    requires Unmarked(file)
    ensures Tail76(file) <= 1 ==> Image(file) == file
    ensures Tail76(file) > 1 ==> Image(file) == file[..|file| - (Tail76(file) - 1)]
  {
    if file == [] {
    } else {
      ImageCases(file);
      var tail := file[1..];
      assert Unmarked(tail) && !(MARK <= file);
      hide Image, Unmarked;
      if file <= MARK {
        ShortTail(file);
      } else {
        EndLost(tail);
        LongTail(file);
        assert file == [file[0]] + tail;
      }
    }
  }

  lemma ShortTail(file: seq<byte>)
    requires file <= MARK && 0 < |file| < 4
    ensures Tail76(file) == |file| && file[..1] == [0x76]
  {
  }

  lemma LongTail(file: seq<byte>)
    requires file != [] && !(file <= MARK) && !(MARK <= file)
    ensures Tail76(file[1..]) == Tail76(file) < |file|
  {
    assert |file| <= 3 && Tail76(file) == |file| ==> file <= MARK;
  }

  /** Without a marker the whole file is taken, unless it ends in two bytes of 0x76. */
  lemma WithoutMarker(file: seq<byte>)
    requires Unmarked(file)
    ensures Image(file) == file <==> !(|file| >= 2 && file[|file| - 2..] == [0x76, 0x76])
  {
    EndLost(file);
    TwoAtEnd(file);
    hide Image, Unmarked, Tail76;
    assert Tail76(file) > 1 ==> |Image(file)| < |file|;
  }

  lemma TwoAtEnd(file: seq<byte>)
    ensures Tail76(file) > 1 <==> |file| >= 2 && file[|file| - 2..] == [0x76, 0x76]
    ensures Tail76(file) <= |file|
  {
    if |file| >= 2 {
      assert file[|file| - 2..] == [file[|file| - 2], file[|file| - 1]];
    }
  }

  lemma SettingsNext(cs: seq<Command>, i: nat)
    requires i < |cs|
    ensures Settings(cs[..i + 1]) == Settings(cs[..i]) + [Setting(cs[i])]
  {
    hide Setting;
  }

  lemma PlacedNext(ws: seq<Write>, start: word, done: seq<byte>, b: byte)
    ensures ws + Placed(start, done + [b]) == (ws + Placed(start, done)) + [Mem((start + |done|) % 0x1_0000, b)]
    ensures ws + Placed(start, []) == ws
  {
  }

  lemma TrailersNext(ws: seq<Write>, cs: seq<Command>, i: nat, base: word)
    requires i < |cs|
    ensures ws + Trailers(cs[..i + 1], base) == (ws + Trailers(cs[..i], base)) + [Trailing(cs[i], base)]
    ensures ws + Trailers(cs[..0], base) == ws
  {
    hide Trailing;
  }

  // ----- triplets.cpp -----

  /** One triplet appended to the output. */
  method Emit(out: seq<byte>, w: Write, ghost ws: seq<Write>) returns (out': seq<byte>)
    requires out == Encode(ws)
    ensures out' == Encode(ws + [w])
  {
    EncodeNext(ws, w);
    out' := out + Triplet(w);
  }

  /** The commands before `start`, and its address. */
  method EmitSettings(cs: seq<Command>) returns (out: seq<byte>, start: word, next: nat)
    ensures out == Encode(Settings(cs[..Prelude(cs)])) && start == StartOf(cs)
    ensures next <= |cs| && cs[next..] == Rest(cs)
  {
    out, start, next := [], 0, 0;
    assert Settings(cs[..0]) == [] && cs == cs[0..];
    hide Settings, Encode, Setting;
    while next < |cs|
      invariant next <= |cs| && Prelude(cs) == next + Prelude(cs[next..])
      invariant out == Encode(Settings(cs[..next]))
    {
      var c := cs[next];
      assert cs[next..][0] == c && cs[next..][1..] == cs[next + 1..];
      if c.Start? {
        start, next := c.at, next + 1;
        return;
      }
      SettingsNext(cs, next);
      out := Emit(out, Setting(c), Settings(cs[..next]));
      next := next + 1;
    }
  }

  method EmitByte(out: seq<byte>, address: word, b: byte, ghost start: word,
    ghost ws: seq<Write>, ghost done: seq<byte>)
    returns (out': seq<byte>)
    requires out == Encode(ws + Placed(start, done)) && address == (start + |done|) % 0x1_0000
    ensures out' == Encode(ws + Placed(start, done + [b]))
  {
    hide Encode, Placed;
    PlacedNext(ws, start, done, b);
    out' := Emit(out, Mem(address, b), ws + Placed(start, done));
  }

  lemma Shift(done: seq<byte>, b: byte, rest: seq<byte>)
    ensures done + ([b] + rest) == (done + [b]) + rest && done + [] == done
  {
  }

  /** The code; None where the address would look like a register, an error exit. */
  method EmitImage(file: seq<byte>, start: word, before: seq<byte>, ghost ws: seq<Write>)
    returns (out: Option<seq<byte>>)
    requires before == Encode(ws)
    ensures out.None? <==> Image(file) != [] && start + |Image(file)| > 0x8000
    ensures out.Some? ==> out.value == Encode(ws + Placed(start, Image(file)))
  {
    hide Encode, Placed, Image;
    var stream := new Stream(file);
    var bytes := before;
    var address: word := start;
    ghost var done: seq<byte> := [];
    PlacedNext(ws, start, [], 0);
    while true
      invariant stream.Valid() && fresh(stream)
      invariant Image(file) == done + Image(stream.Ahead())
      invariant address == start + |done| && (done == [] || address <= 0x8000)
      invariant bytes == Encode(ws + Placed(start, done))
      decreases |stream.Ahead()|
    {
      var b := stream.NextChar();
      if b.None? {
        Shift(done, 0, []);
        return Some(bytes);
      }
      if address >= 0x8000 {
        return None;
      }
      Shift(done, b.value, Image(stream.Ahead()));
      bytes := EmitByte(bytes, address, b.value, start, ws, done);
      done := done + [b.value];
      address := (address + 1) % 0x1_0000;
    }
  }

  method EmitTrailers(cs: seq<Command>, before: seq<byte>, ghost ws: seq<Write>) returns (out: seq<byte>)
    requires before == Encode(ws)
    ensures out == Encode(ws + Trailers(cs, 0))
  {
    hide Encode, Trailing;
    out := before;
    var i := 0;
    assert ws + Trailers(cs[..0], 0) == ws;
    hide Trailers;
    while i < |cs|
      invariant i <= |cs| && out == Encode(ws + Trailers(cs[..i], 0))
    {
      TrailersNext(ws, cs, i, 0);
      out := Emit(out, Trailing(cs[i], 0), ws + Trailers(cs[..i], 0));
      i := i + 1;
    }
    assert cs[..i] == cs;
  }

  /** The triplet generator: the output says what was asked, or there is none. */
  method Generate(cs: seq<Command>, file: seq<byte>) returns (out: Option<seq<byte>>)
    ensures out.None? <==> Image(file) != [] && StartOf(cs) + |Image(file)| > 0x8000
    ensures out.Some? ==> out.value == Encode(Meaning(cs, file, 0)) && Spells(out.value, cs, file, 0)
  {
    MeaningSpelled(cs, file, 0);
    hide Spells;
    var bytes, start, next := EmitSettings(cs);
    ghost var settings := Settings(cs[..Prelude(cs)]);
    var code := EmitImage(file, start, bytes, settings);
    if code.None? {
      return None;
    }
    bytes := EmitTrailers(cs[next..], code.value, settings + Placed(start, Image(file)));
    out := Some(bytes);
  }

  predicate AllInReach(ws: seq<Write>) {
    forall i :: 0 <= i < |ws| ==> InReach(ws[i])
  }

  lemma AllInReachConcat(s: seq<Write>, t: seq<Write>)
    ensures AllInReach(s + t) <==> AllInReach(s) && AllInReach(t)
  {
    if AllInReach(s + t) {
      assert forall i :: 0 <= i < |s| ==> s[i] == (s + t)[i];
      assert forall i :: 0 <= i < |t| ==> t[i] == (s + t)[|s| + i];
    }
  }

  lemma TrailersInReach(cs: seq<Command>, base: word)
    ensures AllInReach(Trailers(cs, base)) <==>
      forall i :: 0 <= i < |cs| && cs[i].Patch? ==> (base + cs[i].at) % 0x1_0000 < 0x8000
  {
    var ws := Trailers(cs, base);
    if AllInReach(ws) {
      forall i | 0 <= i < |cs| && cs[i].Patch? ensures (base + cs[i].at) % 0x1_0000 < 0x8000 {
        assert InReach(ws[i]);
      }
    }
  }

  lemma LeadingInReach(cs: seq<Command>, start: word, image: seq<byte>)
    requires image == [] || start + |image| <= 0x8000
    ensures AllInReach(Settings(cs) + Placed(start, image))
  {
    assert AllInReach(Settings(cs)) && AllInReach(Placed(start, image));
    AllInReachConcat(Settings(cs), Placed(start, image));
  }

  /** What comes out is obeyed as asked exactly if every patch lies below the register space. */
  lemma Faithful(cs: seq<Command>, file: seq<byte>)
    requires Image(file) == [] || StartOf(cs) + |Image(file)| <= 0x8000
    ensures Replay(Encode(Meaning(cs, file, 0))) == Meaning(cs, file, 0) <==>
      forall i :: 0 <= i < |Rest(cs)| && Rest(cs)[i].Patch? ==> Rest(cs)[i].at < 0x8000
  {
    hide Settings, Placed, Trailers, Rest, StartOf, Prelude, Image, Replay, Encode, AllInReach;
    var leading := Settings(cs[..Prelude(cs)]) + Placed(StartOf(cs), Image(file));
    ReplayWhenInReach(Meaning(cs, file, 0));
    TrailersInReach(Rest(cs), 0);
    LeadingInReach(cs[..Prelude(cs)], StartOf(cs), Image(file));
    AllInReachConcat(leading, Trailers(Rest(cs), 0));
  }

  lemma ReplayWhenInReach(ws: seq<Write>)
    ensures Replay(Encode(ws)) == ws <==> AllInReach(ws)
  {
    hide InReach;
    ReplayEncode(ws);
  }
}
