/** WebSocket frames (section 5.2 of RFC 6455) as the client writes and parses them. */
module WsFrames {
  import opened Bytes
  import opened Records

  type Key = k: bytes | |k| == 4 witness Repeat(0, 4)

  /** `first` is the whole first byte: FIN and reserved bits, and the opcode in the low four bits. */
  datatype Frame = Frame(first: byte, mask: Option<Key>, payload: bytes) {
    function Opcode(): byte {
      first % 16
    }
  }

  const CLOSE: byte := 8
  const PING: byte := 9
  const PONG: byte := 10

  // ---- masking ------------------------------------------------------------------

  function Mask(payload: bytes, key: Key): (r: bytes)
    ensures |r| == |payload|
  {
    seq(|payload|, i requires 0 <= i < |payload| => XorByte(payload[i], key[i % 4]))
  }

  /** Masking twice with the same key is the identity (section 5.3 of RFC 6455). */
  lemma MaskTwice(payload: bytes, key: Key)
    ensures Mask(Mask(payload, key), key) == payload
  {
    forall i | 0 <= i < |payload|
      ensures Mask(Mask(payload, key), key)[i] == payload[i]
    {
      XorByteTwice(payload[i], key[i % 4]);
    }
  }

  method MaskPayload(payload: bytes, key: Key) returns (masked: array<byte>)
    ensures fresh(masked) && masked[..] == Mask(payload, key)
  {
    masked := new byte[|payload|](_ => 0);
    for i := 0 to |payload|
      invariant masked.Length == |payload|
      invariant masked[..i] == Mask(payload, key)[..i]
    {
      masked[i] := XorByte(payload[i], key[i % 4]);
    }
    assert Mask(payload, key)[..|payload|] == Mask(payload, key);
  }

  // ---- lengths --------------------------------------------------------------------

  /** The largest integer a JavaScript number holds exactly; longer payloads are beyond any buffer anyway. */
  const MAX_SAFE: nat := 9007199254740991

  /** The 7-bit length of a frame with `n` payload bytes, and the extended length behind it. */
  function ShortLength(n: nat): (r: byte)
    ensures r < 128
  {
    if n < 126 then n else if n < 65536 then 126 else 127
  }

  function ExtendedLength(n: nat): bytes {
    if n < 126 then [] else if n < 65536 then U16(n) else BigEndian(n, 8)
  }

  function Encode(f: Frame): bytes {
    var n := |f.payload|;
    match f.mask
    case None => [f.first, ShortLength(n)] + ExtendedLength(n) + f.payload
    case Some(key) => [f.first, 128 + ShortLength(n)] + ExtendedLength(n) + (key + Mask(f.payload, key))
  }

  // ---- parsing --------------------------------------------------------------------

  /** The length field behind the two header bytes, and how many bytes it takes. None when bytes are missing. */
  function ParseLength(short: byte, s: bytes): (r: Option<(nat, nat)>)
    ensures r.Some? ==> r.value.1 <= |s|
  {
    if short == 126 then
      if |s| < 2 then None else Some((FromU16(s[0], s[1]), 2))
    else if short == 127 then
      if |s| < 8 then None else Some((FromBigEndian(s[..8]), 8))
    else Some((short, 0))
  }

  /** The masking key, if any, and the payload of known length. */
  function ParseBody(first: byte, masked: bool, n: nat, body: bytes): (r: Option<(Frame, bytes)>)
    ensures r.Some? ==> |r.value.1| <= |body|
  {
    if masked then
      if |body| < 4 + n then None
      else Some((Frame(first, Some(body[..4]), Mask(body[4..4 + n], body[..4])), body[4 + n..]))
    else if |body| < n then None
    else Some((Frame(first, None, body[..n]), body[n..]))
  }

  /** One frame from the front of the stream; None while it is incomplete. */
  function Parse(s: bytes): (r: Option<(Frame, bytes)>)
    ensures r.Some? ==> |r.value.1| < |s|
  {
    if |s| < 2 then None
    else
      var length := ParseLength(s[1] % 128, s[2..]);
      if length.None? then None
      else ParseBody(s[0], s[1] >= 128, length.value.0, s[2 + length.value.1..])
  }

  lemma LengthReadsBack(n: nat, rest: bytes)
    requires n <= MAX_SAFE
    ensures ParseLength(ShortLength(n), ExtendedLength(n) + rest) == Some((n, |ExtendedLength(n)|))
  {
    var s := ExtendedLength(n) + rest;
    if 126 <= n < 65536 {
      U16ReadsBack(n);
      assert s[0] == U16(n)[0] && s[1] == U16(n)[1];
    } else if n >= 65536 {
      assert Power256(8) > MAX_SAFE by {
        assert Power256(4) == 0x1_0000_0000;
      }
      BigEndianReadsBack(n, 8);
      SmallRemainder(n, Power256(8));
      assert s[..8] == BigEndian(n, 8);
    }
  }

  /** The header leads to the body behind it. */
  lemma ParseHeader(first: byte, second: byte, x: bytes, n: nat, behind: bytes)
    requires ParseLength(second % 128, x + behind) == Some((n, |x|))
    ensures Parse([first, second] + x + behind) == ParseBody(first, second >= 128, n, behind)
  {
    var s := [first, second] + x + behind;
    assert s[2..] == x + behind;
    assert s[2 + |x|..] == behind;
    assert s[0] == first && s[1] == second;
  }

  lemma PlainBody(first: byte, payload: bytes, rest: bytes)
    ensures ParseBody(first, false, |payload|, payload + rest) == Some((Frame(first, None, payload), rest))
  {
    assert (payload + rest)[..|payload|] == payload && (payload + rest)[|payload|..] == rest;
  }

  lemma MaskedBody(first: byte, key: Key, masked: bytes, rest: bytes)
    ensures ParseBody(first, true, |masked|, key + masked + rest) == Some((Frame(first, Some(key), Mask(masked, key)), rest))
  {
    var b, n := key + masked + rest, |masked|;
    assert b[..4] == key && b[4..4 + n] == masked && b[4 + n..] == rest;
  }

  lemma PlainRoundTrip(first: byte, n: nat, payload: bytes, rest: bytes)
    requires |payload| == n <= MAX_SAFE
    ensures Parse([first, ShortLength(n)] + ExtendedLength(n) + (payload + rest)) == Some((Frame(first, None, payload), rest))
  {
    var body := payload + rest;
    LengthReadsBack(n, body);
    SmallRemainder(ShortLength(n), 128);
    ParseHeader(first, ShortLength(n), ExtendedLength(n), n, body);
    PlainBody(first, payload, rest);
  }

  lemma MaskedRoundTrip(first: byte, n: nat, key: Key, masked: bytes, rest: bytes)
    requires |masked| == n <= MAX_SAFE
    ensures Parse([first, 128 + ShortLength(n)] + ExtendedLength(n) + (key + masked + rest))
            == Some((Frame(first, Some(key), Mask(masked, key)), rest))
  {
    LengthReadsBack(n, key + masked + rest);
    assert (128 + ShortLength(n)) % 128 == ShortLength(n);
    ParseHeader(first, 128 + ShortLength(n), ExtendedLength(n), n, key + masked + rest);
    MaskedBody(first, key, masked, rest);
  }

  /** Parsing undoes encoding, in all three length forms, masked or not, whatever follows. */
  lemma FrameRoundTrip(f: Frame, rest: bytes)
    requires |f.payload| <= MAX_SAFE
    ensures Parse(Encode(f) + rest) == Some((f, rest))
  {
    var n := |f.payload|;
    match f.mask {
      case None =>
        PlainRoundTrip(f.first, n, f.payload, rest);
        Regroup([f.first, ShortLength(n)], ExtendedLength(n), f.payload, rest);
      case Some(key) =>
        var masked := Mask(f.payload, key);
        MaskedRoundTrip(f.first, n, key, masked, rest);
        MaskTwice(f.payload, key);
        Regroup([f.first, 128 + ShortLength(n)], ExtendedLength(n), key + masked, rest);
    }
  }

  lemma Regroup(h: bytes, x: bytes, body: bytes, rest: bytes)
    ensures h + x + body + rest == h + x + (body + rest)
  {
  }

  /** A frame the client sends: one binary message, masked. */
  function ClientFrame(payload: bytes, key: Key): Frame {
    Frame(0x82, Some(key), payload)
  }

  method WriteFrame(payload: bytes, key: Key) returns (wire: bytes)
    ensures wire == Encode(ClientFrame(payload, key))
  {
    var header: bytes;
    if |payload| < 126 {
      header := [0x82, 128 + |payload|];
    } else if |payload| < 65536 {
      header := [0x82, 128 + 126] + U16(|payload|);
    } else {
      header := [0x82, 128 + 127] + BigEndian(|payload|, 8);
    }
    var masked := MaskPayload(payload, key);
    wire := header + (key + masked[..]);
  }

  /** How many bytes stand in front of the mask key. */
  function HeaderLength(n: nat): nat {
    if n < 126 then 2 else if n < 65536 then 4 else 10
  }

  /** The bytes of a client's message by sections 5.2 and 5.3 of RFC 6455: 0x82, the mask bit and the length in its
      shortest form, the key, and every payload byte under the key byte of its turn. */
  lemma ClientFrameOnWire(p: bytes, key: Key)
    ensures var (n, h, wire) := (|p|, HeaderLength(|p|), Encode(ClientFrame(p, key)));
            && |wire| == h + 4 + n && wire[0] == 0x82
            && wire[1] == 0x80 + (if n < 126 then n else if n < 65536 then 126 else 127)
            && (126 <= n < 65536 ==> wire[2] == n / 256 && wire[3] == n % 256)
            && (n >= 65536 ==> forall k: nat :: k < 8 ==> wire[2..10][k] == n / Power256(7 - k) % 256)
            && wire[h..h + 4] == key
            && forall i: nat :: i < n ==> wire[h + 4..][i] == XorByte(p[i], key[i % 4])
  {
    var n, h, wire := |p|, HeaderLength(|p|), Encode(ClientFrame(p, key));
    var header := [0x82, 0x80 + ShortLength(n)] + ExtendedLength(n);
    assert wire == header + key + Mask(p, key) by {
      Associate(header, key, Mask(p, key));
    }
    assert wire[h + 4..] == Mask(p, key) && wire[h..h + 4] == key;
    if 126 <= n < 65536 {
      SmallRemainder(n, 65536);
    } else if n >= 65536 {
      assert wire[2..10] == BigEndian(n, 8);
      forall k: nat | k < 8
        ensures wire[2..10][k] == n / Power256(7 - k) % 256
      {
        BigEndianAt(n, 8, k);
      }
    }
  }

  /** The answer to a ping; its length byte only has room for the low seven bits. */
  function PongFrame(payload: bytes, key: Key): bytes {
    [0x8a, 128 + |payload| % 128] + key + Mask(payload, key)
  }

  /** The answer is a well-formed pong exactly for payloads a control frame may have. */
  lemma PongWellFormedIff(payload: bytes, key: Key)
    ensures PongFrame(payload, key) == Encode(Frame(0x8a, Some(key), payload)) <==> |payload| < 126
  {
    var n := |payload|;
    var a, b := PongFrame(payload, key), Encode(Frame(0x8a, Some(key), payload));
    if n < 126 {
      assert a == b;
    } else {
      assert |b| > |a|;
    }
  }

  // ---- streams of frames -----------------------------------------------------------

  /** Frames that carry data for the reader: everything but close, ping and pong. */
  predicate Carries(f: Frame) {
    f.Opcode() != CLOSE && f.Opcode() != PING && f.Opcode() != PONG
  }

  /** The payload bytes of a list of frames, as the reader passes them on. */
  function Payloads(fs: seq<Frame>): bytes {
    if fs == [] then [] else Own(fs[0]) + Payloads(fs[1..])
  }

  function EncodeAll(fs: seq<Frame>): bytes {
    if fs == [] then [] else Encode(fs[0]) + EncodeAll(fs[1..])
  }

  datatype Reason = Closed | Incomplete

  /** The next non-empty payload of the reader's loop; control frames and empty frames are skipped. */
  function NextPayload(s: bytes): (r: Found<bytes, Reason>)
    ensures r.Got? ==> |r.rest| < |s|
    decreases |s|
  {
    var p := Parse(s);
    if p.None? then Stop(Incomplete)
    else
      var (f, rest) := p.value;
      if f.Opcode() == CLOSE then Stop(Closed)
      else if Carries(f) && f.payload != [] then Got(f.payload, rest)
      else NextPayload(rest)
  }

  /** All bytes the reader's loop yields from a stream. */
  function Content(s: bytes): bytes
    decreases |s|
  {
    var p := NextPayload(s);
    if p.Got? then p.item + Content(p.rest) else []
  }

  /** One frame in front of a stream adds its payload, and a control frame adds nothing. */
  lemma ContentOfFrame(f: Frame, rest: bytes)
    requires |f.payload| <= MAX_SAFE && f.Opcode() != CLOSE
    ensures Content(Encode(f) + rest) == Own(f) + Content(rest)
  {
    FrameRoundTrip(f, rest);
    ContentOfParsed(Encode(f) + rest, f, rest);
  }

  lemma ContentOfParsed(s: bytes, f: Frame, rest: bytes)
    requires Parse(s) == Some((f, rest)) && f.Opcode() != CLOSE
    ensures Content(s) == Own(f) + Content(rest)
  {
    if Carries(f) && f.payload != [] {
      assert NextPayload(s) == Got(f.payload, rest);
    } else {
      SameNext(s, rest, f);
      assert Own(f) + Content(rest) == Content(rest);
    }
  }

  lemma SameNext(s: bytes, rest: bytes, f: Frame)
    requires Parse(s) == Some((f, rest)) && f.Opcode() != CLOSE && !(Carries(f) && f.payload != [])
    ensures Content(s) == Content(rest)
  {
    assert NextPayload(s) == NextPayload(rest);
  }

  predicate Sendable(fs: seq<Frame>) {
    forall i :: 0 <= i < |fs| ==> |fs[i].payload| <= MAX_SAFE && fs[i].Opcode() != CLOSE
  }

  /** What one frame passes on. */
  function Own(f: Frame): bytes {
    if Carries(f) then f.payload else []
  }

  lemma OneFrameMore(f: Frame, behind: bytes, before: bytes, after: bytes)
    requires |f.payload| <= MAX_SAFE && f.Opcode() != CLOSE && Content(behind) == before + after
    ensures Content(Encode(f) + behind) == Own(f) + before + after
  {
    ContentOfFrame(f, behind);
  }

  lemma FirstFrame(fs: seq<Frame>, rest: bytes)
    requires fs != []
    ensures EncodeAll(fs) + rest == Encode(fs[0]) + (EncodeAll(fs[1..]) + rest)
  {
  }

  /** Any list of frames, with pings and pongs anywhere in between, yields exactly its payload bytes. */
  lemma {:induction false} ContentOfFrames(fs: seq<Frame>, rest: bytes)
    requires Sendable(fs)
    ensures Content(EncodeAll(fs) + rest) == Payloads(fs) + Content(rest)
    decreases |fs|
  {
    if fs == [] {
      assert EncodeAll(fs) + rest == rest;
    } else {
      FirstFrame(fs, rest);
      ContentOfFrames(fs[1..], rest);
      OneFrameMore(fs[0], EncodeAll(fs[1..]) + rest, Payloads(fs[1..]), Content(rest));
    }
  }

  /** One frame per buffer, each under the next mask key. */
  function ClientFrames(buffers: seq<bytes>, keys: nat -> Key, used: nat): seq<Frame>
    decreases |buffers|
  {
    if buffers == [] then [] else [ClientFrame(buffers[0], keys(used))] + ClientFrames(buffers[1..], keys, used + 1)
  }

  lemma EncodeAllFirst(f: Frame, more: seq<Frame>)
    ensures EncodeAll([f] + more) == Encode(f) + EncodeAll(more)
  {
    assert ([f] + more)[1..] == more;
  }

  lemma {:induction false} ClientFramesCarry(buffers: seq<bytes>, keys: nat -> Key, used: nat)
    requires forall i :: 0 <= i < |buffers| ==> |buffers[i]| <= MAX_SAFE
    ensures Payloads(ClientFrames(buffers, keys, used)) == Flatten(buffers)
    ensures Sendable(ClientFrames(buffers, keys, used))
    decreases |buffers|
  {
    if buffers != [] {
      ClientFramesCarry(buffers[1..], keys, used + 1);
      OneClientFrameMore(buffers[0], keys(used), ClientFrames(buffers[1..], keys, used + 1));
    }
  }

  lemma OneClientFrameMore(payload: bytes, key: Key, more: seq<Frame>)
    requires |payload| <= MAX_SAFE && Sendable(more)
    ensures var fs := [ClientFrame(payload, key)] + more; Payloads(fs) == payload + Payloads(more) && Sendable(fs)
  {
    assert ([ClientFrame(payload, key)] + more)[1..] == more;
  }

  // ---- cut streams ----------------------------------------------------------------------

  lemma LengthExtends(short: byte, s: bytes, t: bytes)
    requires ParseLength(short, s).Some?
    ensures ParseLength(short, s + t) == ParseLength(short, s)
  {
    if short == 127 {
      assert (s + t)[..8] == s[..8];
    }
  }

  lemma BodyExtends(first: byte, masked: bool, n: nat, body: bytes, t: bytes)
    requires ParseBody(first, masked, n, body).Some?
    ensures var r := ParseBody(first, masked, n, body).value;
            ParseBody(first, masked, n, body + t) == Some((r.0, r.1 + t))
  {
    if masked {
      assert (body + t)[..4] == body[..4] && (body + t)[4..4 + n] == body[4..4 + n] && (body + t)[4 + n..] == body[4 + n..] + t;
    } else {
      assert (body + t)[..n] == body[..n] && (body + t)[n..] == body[n..] + t;
    }
  }

  /** More bytes behind a whole frame do not change it. */
  lemma ParseExtends(s: bytes, t: bytes)
    requires Parse(s).Some?
    ensures Parse(s + t) == Some((Parse(s).value.0, Parse(s).value.1 + t))
  {
    var length := ParseLength(s[1] % 128, s[2..]);
    assert (s + t)[2..] == s[2..] + t;
    LengthExtends(s[1] % 128, s[2..], t);
    var k := 2 + length.value.1;
    assert (s + t)[k..] == s[k..] + t;
    BodyExtends(s[0], s[1] >= 128, length.value.0, s[k..], t);
  }

  lemma {:induction false} NextPayloadExtends(s: bytes, t: bytes)
    requires NextPayload(s).Got?
    ensures NextPayload(s + t) == Got(NextPayload(s).item, NextPayload(s).rest + t)
    decreases |s|
  {
    ParseExtends(s, t);
    var (f, rest) := Parse(s).value;
    if !(Carries(f) && f.payload != []) {
      NextPayloadExtends(rest, t);
    }
  }

  /** What a cut stream yields is the beginning of what the whole one does. */
  lemma {:induction false} ContentPrefix(s: bytes, t: bytes)
    ensures Content(s) <= Content(s + t)
    decreases |s|
  {
    var p := NextPayload(s);
    if p.Got? {
      NextPayloadExtends(s, t);
      ContentPrefix(p.rest, t);
    }
  }

  // ---- answers to pings ---------------------------------------------------------------

  /** The answer to a ping under the next mask key. */
  function Answer(payload: bytes, keys: nat -> Key, used: nat): bytes {
    PongFrame(payload, keys(used))
  }

  /** What the reader's loop writes before its next payload, and the number of mask keys drawn by then. */
  function Pongs(s: bytes, keys: nat -> Key, used: nat): (bytes, nat)
    decreases |s|
  {
    var p := Parse(s);
    if p.None? then ([], used)
    else
      var (f, rest) := p.value;
      if f.Opcode() == PING then
        var more := Pongs(rest, keys, used + 1);
        (Answer(f.payload, keys, used) + more.0, more.1)
      else if f.Opcode() == CLOSE || (Carries(f) && f.payload != []) then ([], used)
      else Pongs(rest, keys, used)
  }

  /** The same in the reader's terms: all that will have been written to the socket by the next payload. */
  function Written(s: bytes, keys: nat -> Key, sent: bytes, used: nat): (bytes, nat)
    decreases |s|
  {
    var p := Parse(s);
    if p.None? then (sent, used)
    else
      var (f, rest) := p.value;
      if f.Opcode() == PING then Written(rest, keys, sent + Answer(f.payload, keys, used), used + 1)
      else if f.Opcode() == CLOSE || (Carries(f) && f.payload != []) then (sent, used)
      else Written(rest, keys, sent, used)
  }

  lemma {:induction false} WrittenAppends(s: bytes, keys: nat -> Key, sent: bytes, used: nat)
    ensures var more := Pongs(s, keys, used); Written(s, keys, sent, used) == (sent + more.0, more.1)
    decreases |s|
  {
    assert sent + [] == sent;
    var p := Parse(s);
    if p.Some? {
      var (f, rest) := p.value;
      if f.Opcode() == PING {
        var pong := Answer(f.payload, keys, used);
        WrittenAppends(rest, keys, sent + pong, used + 1);
        Associate(sent, pong, Pongs(rest, keys, used + 1).0);
      } else if f.Opcode() != CLOSE && !(Carries(f) && f.payload != []) {
        WrittenAppends(rest, keys, sent, used);
      }
    }
  }

  /** What the first byte of an unmasked frame makes the reader do, by its low four bits: 8 ends the stream, 9 is
      answered and skipped, 10 is skipped, and everything else is passed on unless it is empty. */
  lemma FirstByteDecides(first: byte, payload: bytes, rest: bytes, keys: nat -> Key, used: nat)
    requires |payload| < 126
    ensures var s := [first, |payload|] + payload + rest;
            var more := Pongs(rest, keys, used + 1);
            && (first % 16 == 8 ==> NextPayload(s) == Stop(Closed) && Pongs(s, keys, used) == ([], used))
            && (first % 16 == 9 ==>
                  NextPayload(s) == NextPayload(rest) && Pongs(s, keys, used) == (PongFrame(payload, keys(used)) + more.0, more.1))
            && (first % 16 == 10 || (first % 16 < 8 && payload == []) ==>
                  NextPayload(s) == NextPayload(rest) && Pongs(s, keys, used) == Pongs(rest, keys, used))
            && (first % 16 < 8 && payload != [] ==>
                  NextPayload(s) == Got(payload, rest) && Pongs(s, keys, used) == ([], used))
  {
    var f := Frame(first, None, payload);
    FrameRoundTrip(f, rest);
    assert Encode(f) == [first, |payload|] + payload;
  }

  function OwnAnswer(f: Frame, keys: nat -> Key, used: nat): bytes {
    if f.Opcode() == PING then Answer(f.payload, keys, used) else []
  }

  function NextKey(f: Frame, used: nat): nat {
    if f.Opcode() == PING then used + 1 else used
  }

  /** One pong for every ping among the frames, in their order, each under a key of its own. */
  function Answers(fs: seq<Frame>, keys: nat -> Key, used: nat): (bytes, nat)
    decreases |fs|
  {
    if fs == [] then ([], used)
    else
      var more := Answers(fs[1..], keys, NextKey(fs[0], used));
      (OwnAnswer(fs[0], keys, used) + more.0, more.1)
  }

  /** Frames that pass nothing on: control frames and empty ones. */
  predicate Silent(fs: seq<Frame>) {
    forall i :: 0 <= i < |fs| ==> Own(fs[i]) == []
  }

  lemma PongsOfFrame(f: Frame, rest: bytes, keys: nat -> Key, used: nat)
    requires |f.payload| <= MAX_SAFE && f.Opcode() != CLOSE && Own(f) == []
    ensures var more := Pongs(rest, keys, NextKey(f, used));
            Pongs(Encode(f) + rest, keys, used) == (OwnAnswer(f, keys, used) + more.0, more.1)
  {
    FrameRoundTrip(f, rest);
    var more := Pongs(rest, keys, used);
    assert [] + more.0 == more.0;
  }

  lemma Joined(own: bytes, all: (bytes, nat), rest: (bytes, nat), middle: (bytes, nat), last: (bytes, nat))
    requires all == (own + middle.0, middle.1) && middle == (rest.0 + last.0, last.1)
    ensures all == ((own + rest.0) + last.0, last.1)
  {
    Associate(own, rest.0, last.0);
  }

  /** Between two payloads every ping is answered once, in order, and nothing else is written. */
  lemma {:induction false} EveryPingAnswered(fs: seq<Frame>, rest: bytes, keys: nat -> Key, used: nat)
    requires Sendable(fs) && Silent(fs)
    ensures var own := Answers(fs, keys, used);
            var more := Pongs(rest, keys, own.1);
            Pongs(EncodeAll(fs) + rest, keys, used) == (own.0 + more.0, more.1)
    decreases |fs|
  {
    if fs == [] {
      assert EncodeAll(fs) + rest == rest;
      var more := Pongs(rest, keys, used);
      assert [] + more.0 == more.0;
    } else {
      var f, behind, next := fs[0], EncodeAll(fs[1..]) + rest, NextKey(fs[0], used);
      var own := Answers(fs[1..], keys, next);
      FirstFrame(fs, rest);
      PongsOfFrame(f, behind, keys, used);
      EveryPingAnswered(fs[1..], rest, keys, next);
      Joined(OwnAnswer(f, keys, used), Pongs(EncodeAll(fs) + rest, keys, used), own, Pongs(behind, keys, next),
             Pongs(rest, keys, own.1));
    }
  }
}
