/** The padding format of xtls-rprx-vision and its resumable decoder, as value-level specifications. */
module VisionWire {
  import opened Bytes

  const CONTINUE: byte := 0
  const END: byte := 1
  const DIRECT: byte := 2

  type Uuid = u: bytes | |u| == 16 witness Repeat(0, 16)

  /** One padded block: a 5-byte header, the content, and `padding` zero bytes. */
  datatype Frame = Frame(command: byte, content: bytes, padding: nat)

  function Header(f: Frame): (r: bytes)
    ensures |r| == 5
  {
    [f.command] + U16(|f.content|) + U16(f.padding)
  }

  function EncodeFrame(f: Frame): bytes {
    Header(f) + (f.content + Repeat(0, f.padding))
  }

  function EncodeFrames(fs: seq<Frame>): bytes {
    if fs == [] then [] else EncodeFrame(fs[0]) + EncodeFrames(fs[1..])
  }

  function Contents(fs: seq<Frame>): bytes {
    if fs == [] then [] else fs[0].content + Contents(fs[1..])
  }

  /** Both length fields of the header hold the true lengths. */
  predicate Fits(f: Frame) {
    |f.content| <= 65535 && f.padding <= 65535
  }

  predicate AllFit(fs: seq<Frame>) {
    forall i :: 0 <= i < |fs| ==> Fits(fs[i])
  }

  /** Every frame but the last one is a Continue frame, and the last one carries a known command. */
  predicate Chain(fs: seq<Frame>) {
    && (forall i :: 0 <= i < |fs| - 1 ==> fs[i].command == CONTINUE)
    && (fs != [] ==> fs[|fs| - 1].command <= DIRECT)
  }

  function LastCommand(fs: seq<Frame>): byte {
    if fs == [] then CONTINUE else fs[|fs| - 1].command
  }

  lemma {:induction false} EncodeAppend(a: seq<Frame>, b: seq<Frame>)
    ensures EncodeFrames(a + b) == EncodeFrames(a) + EncodeFrames(b)
    ensures Contents(a + b) == Contents(a) + Contents(b)
  {
    if a == [] {
      assert a + b == b;
    } else {
      assert (a + b)[0] == a[0] && (a + b)[1..] == a[1..] + b;
      EncodeAppend(a[1..], b);
      Associate(EncodeFrame(a[0]), EncodeFrames(a[1..]), EncodeFrames(b));
      Associate(a[0].content, Contents(a[1..]), Contents(b));
    }
  }

  lemma EncodeSnoc(fs: seq<Frame>, f: Frame)
    ensures EncodeFrames(fs + [f]) == EncodeFrames(fs) + EncodeFrame(f)
  {
    EncodeAppend(fs, [f]);
    assert [f][1..] == [];
    assert EncodeFrames([f]) == EncodeFrame(f) + [];
  }

  // ---- the decoder ----------------------------------------------------------

  /** The registers `remainingContent`, `remainingPadding` and `currentCommand`. */
  datatype Cursor = Cursor(content: int, padding: int, command: byte) {
    /** No frame has been recognised (yet, or any more). */
    predicate Outside() {
      content == -1 && padding == -1
    }

    /** The next byte is the first byte of a header, or of the raw tail. */
    predicate AtBoundary() {
      content <= 0 && padding <= 0
    }

    predicate Inside() {
      content >= 0 && padding >= 0
    }
  }

  const START := Cursor(0, 0, CONTINUE)
  const OUTSIDE := Cursor(-1, -1, CONTINUE)

  datatype Drained = Drained(cursor: Cursor, buffers: seq<bytes>) {
    function Bytes(): bytes {
      Flatten(buffers)
    }
  }

  function ReadHeader(h: bytes): Cursor
    requires |h| >= 5
  {
    Cursor(FromU16(h[1], h[2]), FromU16(h[3], h[4]), h[0])
  }

  /** The effect of the decoding loop on what is left of one chunk. */
  function Drain(c: Cursor, buf: bytes): Drained
    decreases |buf|
  {
    if buf == [] then
      Drained(c, [])
    else if c.AtBoundary() then
      if c.command == END then Drained(c, [buf])
      else if |buf| < 5 then Drained(c, [])
      else Drain(ReadHeader(buf), buf[5..])
    else if c.content > 0 then
      var n := Min(c.content, |buf|);
      var d := Drain(c.(content := c.content - n), buf[n..]);
      Drained(d.cursor, [buf[..n]] + d.buffers)
    else
      var n := Min(c.padding, |buf|);
      Drain(c.(padding := c.padding - n), buf[n..])
  }

  /** What lies in memory behind each buffer that `Drain` yields, up to its capacity: the rest of the chunk and what is
      behind the chunk. */
  function Spare(c: Cursor, buf: bytes, beyond: bytes): seq<bytes>
    decreases |buf|
  {
    if buf == [] then
      []
    else if c.AtBoundary() then
      if c.command == END then [beyond]
      else if |buf| < 5 then []
      else Spare(ReadHeader(buf), buf[5..], beyond)
    else if c.content > 0 then
      var n := Min(c.content, |buf|);
      [buf[n..] + beyond] + Spare(c.(content := c.content - n), buf[n..], beyond)
    else
      var n := Min(c.padding, |buf|);
      Spare(c.(padding := c.padding - n), buf[n..], beyond)
  }

  /** In memory, each buffer is followed by its spare bytes, and then nothing. */
  predicate LiesBehind(memory: bytes, buffers: seq<bytes>, spare: seq<bytes>) {
    |spare| == |buffers| && forall i :: 0 <= i < |buffers| ==> EndsWith(memory, buffers[i] + spare[i])
  }

  lemma LongerMemory(buf: bytes, n: nat, beyond: bytes, buffers: seq<bytes>, spare: seq<bytes>)
    requires n <= |buf| && LiesBehind(buf[n..] + beyond, buffers, spare)
    ensures LiesBehind(buf + beyond, buffers, spare)
  {
    var s, u := buf + beyond, buf[n..] + beyond;
    assert s[n..] == u;
    forall i | 0 <= i < |buffers|
      ensures EndsWith(s, buffers[i] + spare[i])
    {
      var t := buffers[i] + spare[i];
      assert EndsWith(u, t);
      assert s[|s| - |t|..] == u[|u| - |t|..];
    }
  }

  lemma OneMoreBehind(memory: bytes, b: bytes, rest: bytes, buffers: seq<bytes>, spare: seq<bytes>)
    requires EndsWith(memory, b + rest) && LiesBehind(memory, buffers, spare)
    ensures LiesBehind(memory, [b] + buffers, [rest] + spare)
  {
  }

  lemma WholeMemory(buf: bytes, n: nat, beyond: bytes)
    requires n <= |buf|
    ensures EndsWith(buf + beyond, buf[..n] + (buf[n..] + beyond))
  {
    assert buf[..n] + (buf[n..] + beyond) == buf + beyond;
  }

  /** Behind a decoded buffer comes, in memory, the rest of its chunk and what is behind the chunk. */
  lemma {:induction false} SpareIsBehind(c: Cursor, buf: bytes, beyond: bytes)
    ensures LiesBehind(buf + beyond, Drain(c, buf).buffers, Spare(c, buf, beyond))
    decreases |buf|
  {
    if buf == [] {
    } else if c.AtBoundary() {
      if c.command != END && |buf| >= 5 {
        var c' := ReadHeader(buf);
        SpareIsBehind(c', buf[5..], beyond);
        LongerMemory(buf, 5, beyond, Drain(c', buf[5..]).buffers, Spare(c', buf[5..], beyond));
      }
    } else if c.content > 0 {
      var n := Min(c.content, |buf|);
      var c' := c.(content := c.content - n);
      SpareIsBehind(c', buf[n..], beyond);
      LongerMemory(buf, n, beyond, Drain(c', buf[n..]).buffers, Spare(c', buf[n..], beyond));
      WholeMemory(buf, n, beyond);
      OneMoreBehind(buf + beyond, buf[..n], buf[n..] + beyond, Drain(c', buf[n..]).buffers, Spare(c', buf[n..], beyond));
    } else {
      var n := Min(c.padding, |buf|);
      var c' := c.(padding := c.padding - n);
      SpareIsBehind(c', buf[n..], beyond);
      LongerMemory(buf, n, beyond, Drain(c', buf[n..]).buffers, Spare(c', buf[n..], beyond));
    }
  }

  predicate OpensFrame(uuid: Uuid, buf: bytes) {
    |buf| >= 21 && buf[..16] == uuid
  }

  /** One whole `unPadding` call. */
  function UnPad(uuid: Uuid, c: Cursor, buf: bytes): Drained {
    if c.Outside() then
      if OpensFrame(uuid, buf) then Drain(START, buf[16..]) else Drained(c, [buf])
    else
      Drain(c, buf)
  }

  /** What lies behind each buffer of an `unPadding` call. */
  function UnPadSpare(uuid: Uuid, c: Cursor, buf: bytes, beyond: bytes): seq<bytes> {
    if c.Outside() then
      if OpensFrame(uuid, buf) then Spare(START, buf[16..], beyond) else [beyond]
    else
      Spare(c, buf, beyond)
  }

  /** The chunk stops after 1 to 4 bytes of a header; the loop drops those bytes. */
  predicate CutsHeader(c: Cursor, buf: bytes)
    decreases |buf|
  {
    if buf == [] then false
    else if c.AtBoundary() then
      c.command != END && (|buf| < 5 || CutsHeader(ReadHeader(buf), buf[5..]))
    else if c.content > 0 then
      var n := Min(c.content, |buf|);
      CutsHeader(c.(content := c.content - n), buf[n..])
    else
      var n := Min(c.padding, |buf|);
      CutsHeader(c.(padding := c.padding - n), buf[n..])
  }

  lemma {:induction false} DrainStaysInside(c: Cursor, buf: bytes)
    requires c.Inside()
    ensures Drain(c, buf).cursor.Inside()
    decreases |buf|
  {
    if buf == [] {
    } else if c.AtBoundary() {
      if c.command != END && |buf| >= 5 {
        DrainStaysInside(ReadHeader(buf), buf[5..]);
      }
    } else if c.content > 0 {
      var n := Min(c.content, |buf|);
      DrainStaysInside(c.(content := c.content - n), buf[n..]);
    } else {
      var n := Min(c.padding, |buf|);
      DrainStaysInside(c.(padding := c.padding - n), buf[n..]);
    }
  }

  /** What decoding makes of a chunk, with the yielded bytes joined. */
  datatype Summary = Summary(cursor: Cursor, bytes: bytes, cuts: bool) {
    /** The same with more bytes in front. */
    function Behind(front: seq<byte>): Summary {
      Summary(cursor, front + bytes, cuts)
    }
  }

  function Sum(c: Cursor, buf: bytes): Summary {
    Summary(Drain(c, buf).cursor, Drain(c, buf).Bytes(), CutsHeader(c, buf))
  }

  /** Inside the content of a frame: what the loop's next turn takes from the chunk, and what is left. */
  lemma ContentTurn(c: Cursor, buf: bytes)
    requires c.content > 0 && buf != []
    ensures var n := Min(c.content, |buf|);
            Sum(c, buf) == Sum(c.(content := c.content - n), buf[n..]).Behind(buf[..n])
  {
    var n := Min(c.content, |buf|);
    FlattenCons(buf[..n], Drain(c.(content := c.content - n), buf[n..]).buffers);
  }

  lemma ContentRun(c: Cursor, x: bytes, rest: bytes)
    requires c.content == |x| && |x| > 0
    ensures Sum(c, x + rest) == Sum(c.(content := 0), rest).Behind(x)
  {
    assert (x + rest)[|x|..] == rest && (x + rest)[..|x|] == x;
    ContentTurn(c, x + rest);
  }

  lemma PaddingRun(c: Cursor, x: bytes, rest: bytes)
    requires c.content == 0 && c.padding == |x|
    ensures Sum(c, x + rest) == Sum(c.(padding := 0), rest)
  {
    if x == [] {
      assert x + rest == rest;
    } else {
      assert (x + rest)[|x|..] == rest;
    }
  }

  lemma HeaderReadsBack(f: Frame)
    ensures ReadHeader(Header(f)) == Cursor(|f.content| % 65536, f.padding % 65536, f.command)
    ensures Fits(f) ==> ReadHeader(Header(f)) == Cursor(|f.content|, f.padding, f.command)
    ensures Header(f)[0] == f.command
  {
    U16ReadsBack(|f.content|);
    U16ReadsBack(f.padding);
    var h := Header(f);
    assert h[1..3] == U16(|f.content|) && h[3..5] == U16(f.padding);
    assert h[1] == h[1..3][0] && h[2] == h[1..3][1] && h[3] == h[3..5][0] && h[4] == h[3..5][1];
  }

  lemma HeaderStep(c: Cursor, h: bytes, body: bytes)
    requires c.AtBoundary() && c.command != END && |h| == 5
    ensures Sum(c, h + body) == Sum(ReadHeader(h), body)
  {
    assert (h + body)[5..] == body;
  }

  /** Content and padding of one frame, whatever the header claimed about `x` and `z`. */
  lemma BodyRun(c: Cursor, x: bytes, z: bytes, rest: bytes)
    requires c.content == |x| && c.padding == |z|
    ensures Sum(c, x + (z + rest)) == Sum(Cursor(0, 0, c.command), rest).Behind(x)
  {
    PaddingRun(c.(content := 0), z, rest);
    if x == [] {
      assert x + (z + rest) == z + rest;
      NothingBehind(Sum(Cursor(0, 0, c.command), rest));
    } else {
      ContentRun(c, x, z + rest);
    }
  }

  lemma NothingBehind(s: Summary)
    ensures s.Behind([]) == s
  {
    assert [] + s.bytes == s.bytes;
  }

  lemma BehindTwice(s: Summary, a: bytes, b: bytes)
    ensures s.Behind(a + b) == s.Behind(b).Behind(a)
  {
    assert (a + b) + s.bytes == a + (b + s.bytes);
  }

  lemma FrameRun(c: Cursor, h: bytes, x: bytes, z: bytes, rest: bytes)
    requires c.AtBoundary() && c.command != END
    requires |h| == 5 && ReadHeader(h).content == |x| && ReadHeader(h).padding == |z|
    ensures Sum(c, h + (x + (z + rest))) == Sum(Cursor(0, 0, h[0]), rest).Behind(x)
  {
    HeaderStep(c, h, x + (z + rest));
    BodyRun(ReadHeader(h), x, z, rest);
  }

  /** Decoding one frame at a boundary yields its content and stops right behind its padding. */
  lemma DrainFrame(c: Cursor, f: Frame, rest: bytes)
    requires c.AtBoundary() && c.command != END && Fits(f)
    ensures Sum(c, EncodeFrame(f) + rest) == Sum(Cursor(0, 0, f.command), rest).Behind(f.content)
  {
    var z := Repeat(0, f.padding);
    HeaderReadsBack(f);
    Reassociate(Header(f), f.content, z, rest);
    FrameRun(c, Header(f), f.content, z, rest);
  }

  predicate AllZero(b: bytes) {
    forall i :: 0 <= i < |b| ==> b[i] == 0
  }

  /** What the length field cannot say: everything behind the first `|content| % 65536` bytes. */
  function Overflow(f: Frame): bytes {
    f.content[|f.content| % 65536..]
  }

  /** The frames a decoder gives back whole: those that fit the length field, and longer End frames whose overflow comes
      through as raw tail, because no padding is cut out of it or because it is all zeros like the padding. */
  predicate Survives(f: Frame) {
    |f.content| <= 65535 || (f.command == END && (f.padding == 0 || AllZero(Overflow(f))))
  }

  /** One frame decodes to its content exactly when it survives. */
  lemma FrameRoundTripIff(f: Frame)
    requires f.padding <= 65535
    ensures Drain(START, EncodeFrame(f)).Bytes() == f.content <==> Survives(f)
  {
    if |f.content| <= 65535 {
      DrainFrame(START, f, []);
      assert EncodeFrame(f) + [] == EncodeFrame(f);
      assert f.content + [] == f.content;
    } else if f.command == END {
      OversizeEnd(f, []);
      assert EncodeFrame(f) + [] == EncodeFrame(f) && f.content + [] == f.content;
    } else {
      OversizeFrameLosesBytes(f);
    }
  }

  /** How an oversize frame is decoded: its header claims fewer bytes, and the rest follows as whatever the command
      makes of it. */
  lemma OversizeFrame(f: Frame, tail: bytes)
    requires f.padding <= 65535 && |f.content| > 65535
    ensures var rest := (Overflow(f) + Repeat(0, f.padding))[f.padding..] + tail;
            Sum(START, EncodeFrame(f) + tail)
            == Sum(Cursor(0, 0, f.command), rest).Behind(f.content[..|f.content| % 65536])
  {
    var n, zeros := |f.content| % 65536, Repeat(0, f.padding);
    var x, over := f.content[..n], Overflow(f);
    var z, rest := (over + zeros)[..f.padding], (over + zeros)[f.padding..] + tail;
    HeaderReadsBack(f);
    OversizeBytes(f, tail);
    FrameRun(START, Header(f), x, z, rest);
  }

  lemma OversizeBytes(f: Frame, tail: bytes)
    requires f.padding <= 65535 && |f.content| > 65535
    ensures var n, over := |f.content| % 65536, Overflow(f) + Repeat(0, f.padding);
            EncodeFrame(f) + tail == Header(f) + (f.content[..n] + (over[..f.padding] + (over[f.padding..] + tail)))
  {
    var n, zeros := |f.content| % 65536, Repeat(0, f.padding);
    var over := Overflow(f) + zeros;
    assert f.content == f.content[..n] + Overflow(f) && over == over[..f.padding] + over[f.padding..];
    Associate(f.content[..n], Overflow(f), zeros);
    Associate(Header(f), f.content[..n] + over, tail);
    Associate(f.content[..n], over, tail);
    Associate(over[..f.padding], over[f.padding..], tail);
  }

  /** An oversize End frame comes back whole exactly when it survives, whatever raw tail follows. */
  lemma OversizeEnd(f: Frame, tail: bytes)
    requires f.padding <= 65535 && |f.content| > 65535 && f.command == END
    ensures Drain(START, EncodeFrame(f) + tail).Bytes() == f.content + tail <==> Survives(f)
  {
    var n, over := |f.content| % 65536, Overflow(f);
    var shifted := (over + Repeat(0, f.padding))[f.padding..];
    OversizeFrame(f, tail);
    FlattenOne(shifted + tail);
    assert f.content == f.content[..n] + over;
    Associate(f.content[..n], over, tail);
    SameMiddle(f.content[..n], shifted, over, tail);
    ShiftedIff(over, f.padding);
  }

  lemma SameMiddle(x: bytes, a: bytes, b: bytes, z: bytes)
    requires |a| == |b|
    ensures x + (a + z) == x + (b + z) <==> a == b
  {
    if x + (a + z) == x + (b + z) {
      assert (x + (a + z))[|x|..] == a + z && (x + (b + z))[|x|..] == b + z;
      assert (a + z)[..|a|] == a && (b + z)[..|b|] == b;
    }
  }

  /** Cutting `p` bytes off the front and adding `p` zeros behind changes nothing exactly for zeros. */
  lemma ShiftedIff(b: bytes, p: nat)
    ensures (b + Repeat(0, p))[p..] == b <==> p == 0 || AllZero(b)
  {
    var shifted := (b + Repeat(0, p))[p..];
    if shifted == b && p > 0 {
      ShiftedIsZero(b, p, |b|);
    }
  }

  lemma {:induction false} ShiftedIsZero(b: bytes, p: nat, k: nat)
    requires p > 0 && k <= |b| && (b + Repeat(0, p))[p..] == b
    ensures forall i :: |b| - k <= i < |b| ==> b[i] == 0
    decreases k
  {
    if k > 0 {
      ShiftedIsZero(b, p, k - 1);
      var i := |b| - k;
      assert (b + Repeat(0, p))[p..][i] == (b + Repeat(0, p))[i + p];
    }
  }

  lemma OversizeFrameLosesBytes(f: Frame)
    requires f.padding <= 65535 && f.command != END && |f.content| > 65535
    ensures |Drain(START, EncodeFrame(f)).Bytes()| < |f.content|
  {
    var rest := (Overflow(f) + Repeat(0, f.padding))[f.padding..] + [];
    assert EncodeFrame(f) + [] == EncodeFrame(f);
    OversizeFrame(f, []);
    DrainShrinks(Cursor(0, 0, f.command), rest);
  }

  /** Decoding never yields more than it is given, and strictly less behind a header. */
  lemma {:induction false} DrainShrinks(c: Cursor, buf: bytes)
    ensures |Drain(c, buf).Bytes()| <= |buf|
    ensures c.AtBoundary() && c.command != END && buf != [] ==> |Drain(c, buf).Bytes()| < |buf|
    decreases |buf|
  {
    if buf == [] {
    } else if c.AtBoundary() {
      if c.command == END {
        FlattenOne(buf);
      } else if |buf| >= 5 {
        DrainShrinks(ReadHeader(buf), buf[5..]);
      }
    } else if c.content > 0 {
      var n := Min(c.content, |buf|);
      var d := Drain(c.(content := c.content - n), buf[n..]);
      DrainShrinks(c.(content := c.content - n), buf[n..]);
      assert ([buf[..n]] + d.buffers)[1..] == d.buffers;
    } else {
      var n := Min(c.padding, |buf|);
      DrainShrinks(c.(padding := c.padding - n), buf[n..]);
    }
  }
}
