/**
 * The wire format of the programming link, and an abstract receiver for it that only remembers
 * the bytes decoded since the last START. The packet and framing constants are those of tc_defs.lib.
 */
module Framing {
  import opened Bytes
  import opened Fletcher

  const START: byte := 0x7E
  const ESC: byte := 0x7D

  /** Header up to its checksum: version, flags, type, subtype, length (low byte first). */
  const HEADER_BODY := 6
  const HEADER_SIZE := 8
  const FOOTER_SIZE := 2
  const BUFFER_SIZE := 0x1000

  // ----- what is sent -----

  function StuffByte(d: byte): seq<byte> {
    if d == START || d == ESC then [ESC, Flip(d)] else [d]
  }

  function Stuff(data: seq<byte>): seq<byte> {
    if data == [] then [] else StuffByte(data[0]) + Stuff(data[1..])
  }

  /** A packet before byte stuffing: header, header checksum, body, checksum of all of that. */
  function Raw(header: seq<byte>, body: seq<byte>): seq<byte> {
    var front := header + Trailer(header) + body;
    front + Trailer(front)
  }

  function Frame(header: seq<byte>, body: seq<byte>): seq<byte> {
    [START] + Stuff(Raw(header, body))
  }

  predicate WellFormed(header: seq<byte>, body: seq<byte>) {
    |header| == HEADER_BODY && Word(header[4], header[5]) == |body| <= BUFFER_SIZE
  }

  // ----- what is heard -----

  datatype Packet = Packet(header: seq<byte>, body: seq<byte>)

  /** `Overlong`: a header with a good checksum announced more than the buffer can hold. */
  datatype Rx = Hunting | Framed(data: seq<byte>, esc: bool) | Overlong

  datatype Verdict = More | Bad | TooLong | Accept

  datatype Heard = Heard(rx: Rx, got: Option<Packet>)

  function BodyLength(data: seq<byte>): word
    requires |data| >= HEADER_SIZE
  {
    Word(data[4], data[5])
  }

  /** What the bytes decoded since START amount to. */
  function Judge(data: seq<byte>): Verdict {
    if |data| < HEADER_SIZE then More
    else if data[HEADER_BODY..HEADER_SIZE] != Trailer(data[..HEADER_BODY]) then Bad
    else
      var end := HEADER_SIZE + BodyLength(data);
      if BodyLength(data) > BUFFER_SIZE then TooLong
      else if |data| < end + FOOTER_SIZE then More
      else if data[end..end + FOOTER_SIZE] == Trailer(data[..end]) then Accept
      else Bad
  }

  function HearDecoded(data: seq<byte>): Heard {
    match Judge(data)
    case More => Heard(Framed(data, false), None)
    case Bad => Heard(Hunting, None)
    case TooLong => Heard(Overlong, None)
    case Accept =>
      var end := HEADER_SIZE + BodyLength(data);
      Heard(Hunting, Some(Packet(data[..HEADER_BODY], data[HEADER_SIZE..end])))
  }

  function Hear(rx: Rx, b: byte): Heard {
    if rx.Overlong? then Heard(rx, None)
    else if b == START then Heard(Framed([], false), None)
    else if rx.Hunting? then Heard(rx, None)
    else if rx.esc then HearDecoded(rx.data + [Flip(b)])
    else if b == ESC then Heard(rx.(esc := true), None)
    else HearDecoded(rx.data + [b])
  }

  /** The packets heard along a stretch of wire, and the receiver left behind. */
  datatype Log = Log(rx: Rx, got: seq<Packet>)

  function Logged(heard: Heard): Log {
    Log(heard.rx, if heard.got.Some? then [heard.got.value] else [])
  }

  function Feed(rx: Rx, wire: seq<byte>): Log
    decreases |wire|
  {
    if wire == [] then Log(rx, [])
    else
      var first := Logged(Hear(rx, wire[0]));
      var rest := Feed(first.rx, wire[1..]);
      Log(rest.rx, first.got + rest.got)
  }

  // ----- lemmas -----

  /** While a frame is undecided, the next byte decides it only at the end of the header or of the frame. */
  lemma JudgeNext(data: seq<byte>, d: byte)
    requires Judge(data) == More
    ensures |data| + 1 < HEADER_SIZE ==> Judge(data + [d]) == More
    ensures |data| >= HEADER_SIZE ==>
      && BodyLength(data + [d]) == BodyLength(data) <= BUFFER_SIZE
      && (data + [d])[HEADER_BODY..HEADER_SIZE] == Trailer((data + [d])[..HEADER_BODY])
      && (|data| + 1 < HEADER_SIZE + BodyLength(data) + FOOTER_SIZE ==> Judge(data + [d]) == More)
  {
    if |data| >= HEADER_SIZE {
      assert (data + [d])[..HEADER_BODY] == data[..HEADER_BODY];
      assert (data + [d])[HEADER_BODY..HEADER_SIZE] == data[HEADER_BODY..HEADER_SIZE];
    }
  }

  lemma JudgeHeader(data: seq<byte>)
    requires |data| == HEADER_SIZE
    ensures Judge(data) ==
      if data[6..8] != Trailer(data[..HEADER_BODY]) then Bad
      else if BodyLength(data) > BUFFER_SIZE then TooLong
      else More
  {
  }

  lemma JudgeFooter(data: seq<byte>)
    requires |data| >= HEADER_SIZE && data[HEADER_BODY..HEADER_SIZE] == Trailer(data[..HEADER_BODY])
    requires BodyLength(data) <= BUFFER_SIZE && |data| == HEADER_SIZE + BodyLength(data) + FOOTER_SIZE
    ensures Judge(data) ==
      if data[|data| - 2..] == Trailer(data[..|data| - 2]) then Accept else Bad
  {
  }

  lemma {:induction false} StuffConcat(s: seq<byte>, t: seq<byte>)
    ensures Stuff(s + t) == Stuff(s) + Stuff(t)
  {
    if s == [] {
      assert s + t == t;
    } else {
      assert (s + t)[1..] == s[1..] + t;
      StuffConcat(s[1..], t);
    }
  }

  /** Stuffing leaves no START on the wire: a frame contains START once, as its first byte. */
  lemma {:induction false} NoStart(data: seq<byte>)
    ensures START !in Stuff(data)
  {
    if data == [] {
    } else {
      NoStart(data[1..]);
    }
  }

  /** On the wire 7E stands as 7D 5E, 7D as 7D 5D, and every other byte for itself. */
  lemma Escapes(d: byte)
    ensures Stuff([d]) == if d == 0x7E then [0x7D, 0x5E] else if d == 0x7D then [0x7D, 0x5D] else [d]
  {
    assert [d][1..] == [];
  }

  /** And ESC makes of any byte but START the byte with bit 5 changed, a second ESC included. */
  lemma HearEscaped(data: seq<byte>, b: byte)
    requires b != 0x7E
    ensures Feed(Framed(data, false), [0x7D, b]) ==
      Logged(HearDecoded(data + [if b / 0x20 % 2 == 0 then b + 0x20 else b - 0x20]))
  {
    hide HearDecoded;
    var wire: seq<byte> := [0x7D, b];
    assert wire[1..] == [b] && [b][1..] == [];
    assert Feed(Framed(data, true), wire[1..]) == Logged(HearDecoded(data + [Flip(b)]));
  }

  /** The bytes of a packet: header, its checksum, body, and the checksum of all that; the weighted sum goes first. */
  lemma Layout(header: seq<byte>, body: seq<byte>)
    ensures var front := header + [Fold(Weighted(header)), Fold(Total(header))] + body;
      Frame(header, body) == [0x7E] + Stuff(front + [Fold(Weighted(front)), Fold(Total(front))])
  {
    ClosedForm(header);
    ClosedForm(header + Trailer(header) + body);
  }

  /** Stuffing at most doubles the data. */
  lemma {:induction false} StuffBounds(data: seq<byte>)
    ensures |data| <= |Stuff(data)| <= 2 * |data|
  {
    if data == [] {
    } else {
      StuffBounds(data[1..]);
    }
  }

  /** The length of a frame on the wire. */
  lemma FrameBounds(header: seq<byte>, body: seq<byte>)
    requires |header| == HEADER_BODY
    ensures var n := HEADER_SIZE + |body| + FOOTER_SIZE;
      n < |Frame(header, body)| <= 1 + 2 * n
  {
    hide Raw, Stuff;
    RawPieces(header, body);
    StuffBounds(Raw(header, body));
  }

  lemma StuffedLength(data: seq<byte>)
    ensures Stuff(data) == [] <==> data == []
  {
  }

  /** What goes out first for a byte, and what is then left; an escaped half is never ESC itself. */
  lemma StuffedFront(d: byte, rest: seq<byte>)
    ensures var wire := StuffByte(d) + rest;
      && wire != []
      && if d == START || d == ESC then Flip(d) != ESC && wire[0] == ESC && wire[1..] == [Flip(d)] + rest
         else wire[0] == d && wire[1..] == rest
  {
  }

  lemma {:induction false} FeedConcat(rx: Rx, s: seq<byte>, t: seq<byte>)
    decreases |s|
    ensures Feed(rx, s + t) == Log(Feed(Feed(rx, s).rx, t).rx, Feed(rx, s).got + Feed(Feed(rx, s).rx, t).got)
  {
    hide Hear;
    if s == [] {
      assert s + t == t;
    } else {
      assert (s + t)[1..] == s[1..] + t;
      FeedConcat(Hear(rx, s[0]).rx, s[1..], t);
    }
  }

  lemma {:induction false} HuntingIsDeaf(wire: seq<byte>)
    requires START !in wire
    ensures Feed(Hunting, wire) == Log(Hunting, [])
  {
    if wire == [] {
    } else {
      HuntingIsDeaf(wire[1..]);
    }
  }

  /** One stuffed byte is heard as the byte that was stuffed. */
  lemma HearStuffed(data: seq<byte>, d: byte)
    ensures Feed(Framed(data, false), StuffByte(d)) == Logged(HearDecoded(data + [d]))
  {
    var wire := StuffByte(d);
    FlipTwice(d);
    if |wire| == 2 {
      assert wire[1..] == [Flip(d)];
      assert wire[1..][1..] == [];
      assert Flip(d) != START;
      assert Feed(Framed(data, true), wire[1..]) == Logged(HearDecoded(data + [d]));
    } else {
      assert wire[1..] == [];
    }
  }

  /** Stuffed data that stays undecided until its last byte gets the verdict on the whole. */
  lemma {:induction false} FeedStuffed(done: seq<byte>, rest: seq<byte>)
    requires rest != []
    requires forall k :: |done| < k < |done| + |rest| ==> Judge((done + rest)[..k]) == More
    ensures Feed(Framed(done, false), Stuff(rest)) == Logged(HearDecoded(done + rest))
    decreases |rest|
  {
    var done', rest' := done + [rest[0]], rest[1..];
    assert done + rest == done' + rest';
    HearStuffed(done, rest[0]);
    FeedConcat(Framed(done, false), StuffByte(rest[0]), Stuff(rest'));
    if rest' == [] {
      assert done' == done + rest;
    } else {
      assert (done + rest)[..|done'|] == done';
      FeedStuffed(done', rest');
    }
  }

  /** A frame whose decoded bytes are undecided before the last: the receiver's state before it is forgotten. */
  lemma FeedFrame(rx: Rx, data: seq<byte>)
    requires !rx.Overlong? && data != []
    requires forall k :: 0 < k < |data| ==> Judge(data[..k]) == More
    ensures Feed(rx, [START] + Stuff(data)) == Logged(HearDecoded(data))
  {
    var wire := [START] + Stuff(data);
    assert wire[0] == START && wire[1..] == Stuff(data);
    assert [] + data == data;
    FeedStuffed([], data);
  }

  lemma RawPieces(header: seq<byte>, body: seq<byte>)
    requires |header| == HEADER_BODY
    ensures var raw, end := Raw(header, body), HEADER_SIZE + |body|;
      && |raw| == end + FOOTER_SIZE
      && raw[..HEADER_BODY] == header
      && raw[HEADER_BODY..HEADER_SIZE] == Trailer(header)
      && raw[HEADER_SIZE..end] == body
      && raw[..end] == header + Trailer(header) + body
      && raw[end..] == Trailer(raw[..end])
  {
    var front := header + Trailer(header) + body;
    assert Raw(header, body)[..HEADER_SIZE + |body|] == front;
  }

  lemma JudgeRaw(header: seq<byte>, body: seq<byte>)
    requires WellFormed(header, body)
    ensures var raw := Raw(header, body);
      && |raw| == HEADER_SIZE + |body| + FOOTER_SIZE
      && Judge(raw) == Accept
      && HearDecoded(raw) == Heard(Hunting, Some(Packet(header, body)))
      && forall k :: 0 <= k < |raw| ==> Judge(raw[..k]) == More
  {
    var raw := Raw(header, body);
    RawPieces(header, body);
    forall k | 0 <= k < |raw| ensures Judge(raw[..k]) == More {
      if k >= HEADER_SIZE {
        assert raw[..k][..HEADER_BODY] == header;
        assert raw[..k][HEADER_BODY..HEADER_SIZE] == Trailer(header);
      }
    }
  }

  /** Round trip and resynchronisation: whatever the receiver was doing, a frame delivers its packet. */
  lemma RoundTrip(rx: Rx, header: seq<byte>, body: seq<byte>)
    requires !rx.Overlong? && WellFormed(header, body)
    ensures Feed(rx, Frame(header, body)) == Log(Hunting, [Packet(header, body)])
  {
    JudgeRaw(header, body);
    FeedFrame(rx, Raw(header, body));
  }

  /** Conversely, the receiver accepts nothing but the unstuffed bytes of some packet. */
  lemma AcceptsOnlyPackets(data: seq<byte>)
    ensures Judge(data) == Accept && |data| == HEADER_SIZE + BodyLength(data) + FOOTER_SIZE <==>
      exists header, body :: WellFormed(header, body) && data == Raw(header, body)
  {
    if Judge(data) == Accept && |data| == HEADER_SIZE + BodyLength(data) + FOOTER_SIZE {
      var end := HEADER_SIZE + BodyLength(data);
      var header, body := data[..HEADER_BODY], data[HEADER_SIZE..end];
      assert data[..end] == header + Trailer(header) + body;
      assert data == Raw(header, body);
      assert WellFormed(header, body);
    }
    if header, body :| WellFormed(header, body) && data == Raw(header, body) {
      JudgeRaw(header, body);
    }
  }

  /** Once the bytes so far are judged bad, the rest of the frame falls on a deaf receiver. */
  lemma RejectedEarly(rx: Rx, head: seq<byte>, tail: seq<byte>)
    requires !rx.Overlong? && head != [] && Judge(head) == Bad
    requires forall k :: 0 < k < |head| ==> Judge(head[..k]) == More
    ensures Feed(rx, [START] + Stuff(head + tail)) == Log(Hunting, [])
  {
    var early, late := [START] + Stuff(head), Stuff(tail);
    assert [START] + Stuff(head + tail) == early + late by {
      StuffConcat(head, tail);
    }
    assert Feed(rx, early) == Log(Hunting, []) by {
      FeedFrame(rx, head);
    }
    assert Feed(Hunting, late) == Log(Hunting, []) by {
      NoStart(tail);
      HuntingIsDeaf(late);
    }
    FeedConcat(rx, early, late);
  }

  /** A damaged header is dropped as soon as its checksum is in, and so is the rest of its frame. */
  lemma BadHeaderRejected(rx: Rx, data: seq<byte>)
    requires !rx.Overlong? && |data| >= HEADER_SIZE
    requires data[HEADER_BODY..HEADER_SIZE] != Trailer(data[..HEADER_BODY])
    ensures Feed(rx, [START] + Stuff(data)) == Log(Hunting, [])
  {
    var head, tail := data[..HEADER_SIZE], data[HEADER_SIZE..];
    assert head[..HEADER_BODY] == data[..HEADER_BODY];
    assert head[HEADER_BODY..HEADER_SIZE] == data[HEADER_BODY..HEADER_SIZE];
    RejectedEarly(rx, head, tail);
    assert data == head + tail;
  }

  /** A frame whose header is intact but whose footer does not match its contents is dropped. */
  lemma BadFooterRejected(rx: Rx, data: seq<byte>)
    requires !rx.Overlong? && |data| >= HEADER_SIZE
    requires data[HEADER_BODY..HEADER_SIZE] == Trailer(data[..HEADER_BODY])
    requires BodyLength(data) <= BUFFER_SIZE && |data| == HEADER_SIZE + BodyLength(data) + FOOTER_SIZE
    requires data[|data| - FOOTER_SIZE..] != Trailer(data[..|data| - FOOTER_SIZE])
    ensures Feed(rx, [START] + Stuff(data)) == Log(Hunting, [])
  {
    hide Stuff, Feed, Trailer, Word;
    forall k | 0 < k < |data| ensures Judge(data[..k]) == More {
      if k >= HEADER_SIZE {
        assert data[..k][..HEADER_BODY] == data[..HEADER_BODY];
        assert data[..k][HEADER_BODY..HEADER_SIZE] == data[HEADER_BODY..HEADER_SIZE];
      }
    }
    FeedFrame(rx, data);
  }

  /** One decoded byte replaced by a value not congruent to it modulo 255: nothing is accepted. */
  lemma ReplacementRejected(rx: Rx, header: seq<byte>, body: seq<byte>, i: nat, x: byte)
    requires !rx.Overlong? && WellFormed(header, body) && i < |Raw(header, body)|
    requires x % 0xFF != Raw(header, body)[i] % 0xFF
    ensures Feed(rx, [START] + Stuff(Raw(header, body)[i := x])) == Log(Hunting, [])
  {
    var raw := Raw(header, body);
    var bad := raw[i := x];
    var end := HEADER_SIZE + |body|;
    assert raw[..HEADER_BODY] == header && raw[..end] == header + Trailer(header) + body;
    if i < HEADER_BODY {
      assert bad[..HEADER_BODY] == header[i := x];
      ReplacementDetected(header, i, x);
      assert bad[7] == raw[7] && Trailer(bad[..HEADER_BODY])[1] != raw[7];
      assert bad[HEADER_BODY..HEADER_SIZE][1] == bad[7];
      BadHeaderRejected(rx, bad);
    } else if i < HEADER_SIZE {
      assert bad[..HEADER_BODY] == header;
      assert bad[HEADER_BODY..HEADER_SIZE][i - HEADER_BODY] == x;
      BadHeaderRejected(rx, bad);
    } else {
      assert bad[..HEADER_BODY] == header && bad[HEADER_BODY..HEADER_SIZE] == Trailer(header);
      if i < end {
        assert bad[..end] == raw[..end][i := x];
        ReplacementDetected(raw[..end], i, x);
        assert bad[end..][1] == raw[end + 1];
      } else {
        assert bad[..end] == raw[..end];
        assert bad[end..][i - end] == x;
      }
      BadFooterRejected(rx, bad);
    }
  }

  /** Two neighbouring body bytes that differ modulo 255 arrive swapped: nothing is accepted. */
  lemma SwapRejected(rx: Rx, header: seq<byte>, body: seq<byte>, i: nat)
    requires !rx.Overlong? && WellFormed(header, body) && i + 1 < |body|
    requires body[i] % 0xFF != body[i + 1] % 0xFF
    ensures Feed(rx, [START] + Stuff(Swap(Raw(header, body), HEADER_SIZE + i))) == Log(Hunting, [])
  {
    var raw := Raw(header, body);
    var bad := Swap(raw, HEADER_SIZE + i);
    var end := HEADER_SIZE + |body|;
    var front := header + Trailer(header) + body;
    assert raw[..end] == front;
    assert bad[..HEADER_BODY] == header && bad[HEADER_BODY..HEADER_SIZE] == Trailer(header);
    assert bad[..end] == Swap(front, HEADER_SIZE + i);
    SwapDetected(front, HEADER_SIZE + i);
    assert bad[end..][0] == raw[end];
    BadFooterRejected(rx, bad);
  }
}
