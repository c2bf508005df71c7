/** The vision connection itself: an object whose methods update its registers, proved against the
    value-level specifications of the other vision modules. */
module VisionConnection {
  import opened Bytes
  import opened VisionWire
  import F = VisionFilter
  import W = VisionWriter
  import R = VisionReader
  import T = VisionTurns
  import opened VisionPieces

  function First(b: bytes, n: nat): bytes {
    if |b| <= n then b else b[..n]
  }

  /** One direction each of a network connection: what was sent, and the segments that will arrive. Writing fails once
      `limit` bytes have been sent. */
  class Pipe {
    const limit: nat
    var sent: bytes
    var arriving: seq<bytes>

    constructor (limit: nat, arriving: seq<bytes>)
      ensures this.limit == limit && this.arriving == arriving && sent == []
    {
      this.limit, this.arriving := limit, arriving;
      sent := [];
    }

    /** How many bytes it still takes. */
    function Room(): (room: nat)
      reads this`sent
      ensures if |sent| <= limit then |sent| + room == limit else room == 0
    {
      if |sent| <= limit then limit - |sent| else 0
    }

    method Write(b: bytes) returns (n: nat, ok: bool)
      modifies `sent
      ensures sent == old(sent) + First(b, old(Room())) && n == |First(b, old(Room()))|
      ensures ok == (|b| <= old(Room()))
    {
      var room := Room();
      sent := sent + First(b, room);
      return |First(b, room)|, |b| <= room;
    }

    method Read(max: nat) returns (b: bytes)
      requires arriving != [] && max > 0
      modifies `arriving
      ensures (b, arriving) == R.Take(old(arriving), max)
    {
      if |arriving[0]| <= max {
        b := arriving[0];
        arriving := arriving[1..];
      } else {
        b := arriving[0][..max];
        arriving := [arriving[0][max..]] + arriving[1..];
      }
    }
  }

  datatype ReadError = NoError | EndOfFile | BadCommand(command: byte) | Crash

  class VisionConn {
    const userUUID: Uuid
    const rawConn: Pipe
    ghost const vless: Pipe
    var conn: Pipe
    var input: bytes
    var rawIn: bytes

    var isTLS: bool
    var numberOfPacketToFilter: int
    var isTLS12orAbove: bool
    var remainingServerHello: int
    var cipher: nat
    var enableXTLS: bool
    var panicked: bool

    var isPadding: bool
    var directWrite: bool
    var writeUUID: bool

    var withinPaddingBuffers: bool
    var remainingContent: int
    var remainingPadding: int
    var currentCommand: byte
    var directRead: bool
    /** What is decoded and not yet delivered; slices are those of the caller's buffer that was read into last. */
    var remainingReader: Option<seq<Piece>>
    var lent: array?<byte>

    /** What lies behind the n-th decoded chunk, and behind what uTLS had buffered, up to the capacity of the slice. */
    const memory: nat -> R.Backing
    var decoded: nat

    constructor (uuid: Uuid, vconn: Pipe, raw: Pipe, input: bytes, rawIn: bytes, memory: nat -> R.Backing)
      requires vconn != raw
      ensures Valid() && vless == vconn && rawConn == raw && userUUID == uuid
      ensures WriterState() == W.FRESH
      ensures ReaderState() == R.Fresh(vconn.arriving, raw.arriving, input, rawIn, memory)
    {
      userUUID := uuid;
      conn, vless, rawConn := vconn, vconn, raw;
      this.input, this.rawIn := input, rawIn;
      isTLS, numberOfPacketToFilter, isTLS12orAbove := false, 8, false;
      remainingServerHello, cipher, enableXTLS, panicked := -1, 0, false, false;
      isPadding, directWrite, writeUUID := true, false, true;
      withinPaddingBuffers, remainingContent, remainingPadding, currentCommand := true, -1, -1, CONTINUE;
      directRead, remainingReader, lent := false, None, null;
      this.memory, decoded := memory, 0;
    }

    /** The vless connection and the raw one are different objects, and only a Direct write that went through replaces
        the one by the other. */
    ghost predicate Valid()
      reads this
    {
      && vless != rawConn && (conn == vless || (conn == rawConn && directWrite))
      && (directWrite ==> !isPadding)
      && Sound()
    }

    /** What is still to be delivered lies in order in the caller's buffer. */
    predicate Sound()
      reads `remainingReader, `lent
    {
      Layered(Pieces(), if lent == null then 0 else lent.Length)
    }

    function Pieces(): seq<Piece>
      reads `remainingReader
    {
      if remainingReader.None? then [] else remainingReader.value
    }

    /** What the caller's buffer holds now. */
    function Lent(): bytes
      reads `lent, lent
    {
      if lent == null then [] else lent[..]
    }

    function FilterState(): F.Filter
      reads this
    {
      F.Filter(isTLS, numberOfPacketToFilter, isTLS12orAbove, remainingServerHello, cipher, enableXTLS, panicked)
    }

    function WriterState(): W.Writer
      reads this
    {
      W.Writer(FilterState(), isPadding, directWrite, writeUUID)
    }

    function CursorState(): Cursor
      reads this
    {
      Cursor(remainingContent, remainingPadding, currentCommand)
    }

    /** The reading half, with the caller's buffer as it is. */
    ghost function ReaderState(): R.Stream
      reads this, vless, rawConn, lent
    {
      R.Stream(FilterState(), CursorState(), withinPaddingBuffers, directRead, Texts(Pieces(), Lent()),
               vless.arriving, rawConn.arriving, input, rawIn, memory, decoded)
    }

    /** `beyond` is what lies behind the buffer up to its capacity. */
    method FilterTLS(buffer: bytes, beyond: bytes)
      modifies `isTLS, `numberOfPacketToFilter, `isTLS12orAbove, `remainingServerHello, `cipher, `enableXTLS, `panicked
      ensures FilterState() == F.Step(old(FilterState()), F.Slice(buffer, beyond))
    {
      if panicked {
        return;
      }
      ghost var f := FilterState();
      numberOfPacketToFilter := numberOfPacketToFilter - 1;
      assert FilterState() == f.(packets := f.packets - 1);
      ClassifyRecord(buffer, beyond);
      if !panicked {
        ScanHello(buffer);
      }
    }

    /** What the head of the record says. */
    method ClassifyRecord(buffer: bytes, beyond: bytes)
      modifies `isTLS, `isTLS12orAbove, `remainingServerHello, `cipher, `panicked
      ensures FilterState() == F.Classify(old(FilterState()), F.Slice(buffer, beyond))
    {
      if |buffer| > 6 {
        if buffer[0] == 22 && buffer[1] == 3 && buffer[2] == 3 {
          isTLS := true;
          if buffer[5] == 2 {
            isTLS12orAbove := true;
            remainingServerHello := FromU16(buffer[3], buffer[4]) + 5;
            if |buffer| >= 79 && remainingServerHello >= 79 {
              var sessionIDLen: nat := buffer[43];
              var memory := buffer + beyond;
              if 43 + sessionIDLen + 3 > |memory| {
                panicked := true;
                return;
              }
              var cipherSuite := memory[43 + sessionIDLen + 1..43 + sessionIDLen + 3];
              cipher := FromU16(cipherSuite[0], cipherSuite[1]);
            }
          }
        } else if F.CLIENT_HELLO == buffer[..2] && buffer[5] == 1 {
          isTLS := true;
        }
      }
    }

    /** Looking for the TLS 1.3 bytes in what is still expected of the ServerHello record. */
    method ScanHello(buffer: bytes)
      modifies `numberOfPacketToFilter, `remainingServerHello, `enableXTLS
      ensures FilterState() == F.Scan(old(FilterState()), buffer)
    {
      if remainingServerHello > 0 {
        var end := remainingServerHello;
        if end > |buffer| {
          end := |buffer|;
        }
        remainingServerHello := remainingServerHello - end;
        if F.Contains(buffer[..end], F.SUPPORTED_VERSIONS) {
          if F.AllowedCipher(cipher) {
            enableXTLS := true;
          }
          numberOfPacketToFilter := 0;
        } else if remainingServerHello == 0 {
          numberOfPacketToFilter := 0;
        }
      }
    }

    /** One padded buffer; the very first one carries the UUID in front. */
    method Padding(buffer: bytes, command: byte, d: W.Draw) returns (out: bytes, ghost frame: Frame)
      modifies `writeUUID
      ensures !writeUUID
      ensures frame == W.PadFrame(old(WriterState()), buffer, command, d)
      ensures out == (if old(writeUUID) then userUUID else []) + EncodeFrame(frame)
    {
      var contentLen := |buffer|;
      var paddingLen := 0;
      if contentLen < 900 && isTLS {
        paddingLen := d.long + 900 - contentLen;
      } else {
        paddingLen := d.short;
      }
      frame := Frame(command, buffer, paddingLen);
      out := [];
      if writeUUID {
        out := out + userUUID;
        writeUUID := false;
      }
      out := out + ([command] + U16(contentLen) + U16(paddingLen));
      out := out + (buffer + Repeat(0, paddingLen));
    }

    /** Decoding one chunk: a frame opened by the UUID is entered first; what is no frame passes as it is. */
    method UnPadding(buffer: bytes, beyond: bytes) returns (buffers: seq<bytes>, spare: seq<bytes>)
      modifies `remainingContent, `remainingPadding, `currentCommand
      ensures UnPad(userUUID, old(CursorState()), buffer) == Drained(CursorState(), buffers)
      ensures spare == UnPadSpare(userUUID, old(CursorState()), buffer, beyond)
    {
      var bufferIndex := 0;
      if remainingContent == -1 && remainingPadding == -1 {
        if |buffer| >= 21 && buffer[..16] == userUUID {
          bufferIndex := 16;
          remainingContent, remainingPadding, currentCommand := 0, 0, CONTINUE;
        }
      }
      if remainingContent == -1 && remainingPadding == -1 {
        return [buffer], [beyond];
      }
      assert bufferIndex == 0 ==> buffer[bufferIndex..] == buffer;
      buffers, spare := Strip(buffer, bufferIndex, beyond);
    }

    /** The decoding loop: the slices it takes from the chunk, and what lies behind each of them. */
    method Strip(buffer: bytes, start: nat, beyond: bytes) returns (buffers: seq<bytes>, spare: seq<bytes>)
      requires start <= |buffer|
      modifies `remainingContent, `remainingPadding, `currentCommand
      ensures Drain(old(CursorState()), buffer[start..]) == Drained(CursorState(), buffers)
      ensures spare == Spare(old(CursorState()), buffer[start..], beyond)
    {
      ghost var whole := Decoding(CursorState(), buffer[start..], beyond);
      var bufferIndex := start;
      buffers, spare := [], [];
      NothingTaken(whole);
      while bufferIndex < |buffer|
        invariant start <= bufferIndex <= |buffer|
        invariant whole == Behind(buffers, spare, Decoding(CursorState(), buffer[bufferIndex..], beyond))
      {
        if remainingContent <= 0 && remainingPadding <= 0 && (currentCommand == END || bufferIndex + 5 > |buffer|) {
          if currentCommand == END {
            buffers, spare := buffers + [buffer[bufferIndex..]], spare + [beyond];
          } else {
            NothingMore(whole, buffers, spare);
          }
          return;
        }
        var next, taken, behind := OneTurn(buffer, bufferIndex, beyond);
        TakenBoth(buffers, spare, taken, behind, Decoding(CursorState(), buffer[next..], beyond));
        buffers, spare := buffers + taken, spare + behind;
        bufferIndex := next;
      }
      NothingMore(whole, buffers, spare);
    }

    /** One turn of the loop that goes on: a header, some content, or some padding. */
    method OneTurn(buffer: bytes, k: nat, beyond: bytes) returns (next: nat, taken: seq<bytes>, behind: seq<bytes>)
      requires k < |buffer| && (CursorState().AtBoundary() ==> currentCommand != END && k + 5 <= |buffer|)
      modifies `remainingContent, `remainingPadding, `currentCommand
      ensures k < next <= |buffer|
      ensures Decoding(old(CursorState()), buffer[k..], beyond)
              == Behind(taken, behind, Decoding(CursorState(), buffer[next..], beyond))
    {
      taken, behind := [], [];
      if remainingContent <= 0 && remainingPadding <= 0 {
        HeaderTaken(CursorState(), buffer, k, beyond);
        EnterFrame(buffer[k..k + 5]);
        next := k + 5;
      } else if remainingContent > 0 {
        ContentTaken(CursorState(), buffer, k, beyond);
        var end := UseContent(|buffer| - k);
        next := k + end;
        taken, behind := [buffer[k..next]], [buffer[next..] + beyond];
      } else {
        PaddingTaken(CursorState(), buffer, k, beyond);
        var end := UsePadding(|buffer| - k);
        next := k + end;
      }
    }

    /** Registers, buffers and what lies behind the buffers, as the decoder makes them of the rest of a chunk. */
    static function Decoding(c: Cursor, rest: bytes, beyond: bytes): (Cursor, seq<bytes>, seq<bytes>) {
      (Drain(c, rest).cursor, Drain(c, rest).buffers, Spare(c, rest, beyond))
    }

    static function Behind(buffers: seq<bytes>, spare: seq<bytes>, d: (Cursor, seq<bytes>, seq<bytes>))
      : (Cursor, seq<bytes>, seq<bytes>)
    {
      (d.0, buffers + d.1, spare + d.2)
    }

    static lemma NothingTaken(d: (Cursor, seq<bytes>, seq<bytes>))
      ensures Behind([], [], d) == d
    {
      assert [] + d.1 == d.1 && [] + d.2 == d.2;
    }

    static lemma NothingMore(whole: (Cursor, seq<bytes>, seq<bytes>), buffers: seq<bytes>, spare: seq<bytes>)
      ensures Behind(buffers, spare, (whole.0, [], [])) == (whole.0, buffers, spare)
    {
      assert buffers + [] == buffers && spare + [] == spare;
    }

    static lemma TakenBoth(buffers: seq<bytes>, spare: seq<bytes>, taken: seq<bytes>, behind: seq<bytes>,
                           d: (Cursor, seq<bytes>, seq<bytes>))
      ensures Behind(buffers, spare, Behind(taken, behind, d)) == Behind(buffers + taken, spare + behind, d)
    {
      Associate(buffers, taken, d.1);
      Associate(spare, behind, d.2);
    }

    static lemma HeaderTaken(c: Cursor, buffer: bytes, k: nat, beyond: bytes)
      requires k + 5 <= |buffer| && c.AtBoundary() && c.command != END
      ensures Decoding(c, buffer[k..], beyond)
              == Behind([], [], Decoding(ReadHeader(buffer[k..k + 5]), buffer[k + 5..], beyond))
    {
      assert buffer[k..][5..] == buffer[k + 5..];
      assert ReadHeader(buffer[k..]) == ReadHeader(buffer[k..k + 5]);
      NothingTaken(Decoding(ReadHeader(buffer[k..]), buffer[k + 5..], beyond));
    }

    static lemma ContentTaken(c: Cursor, buffer: bytes, k: nat, beyond: bytes)
      requires k < |buffer| && c.content > 0
      ensures var next := k + Min(c.content, |buffer| - k);
              Decoding(c, buffer[k..], beyond)
              == Behind([buffer[k..next]], [buffer[next..] + beyond],
                        Decoding(c.(content := c.content - (next - k)), buffer[next..], beyond))
    {
      var end := Min(c.content, |buffer| - k);
      assert buffer[k..][..end] == buffer[k..k + end] && buffer[k..][end..] == buffer[k + end..];
    }

    static lemma PaddingTaken(c: Cursor, buffer: bytes, k: nat, beyond: bytes)
      requires k < |buffer| && c.content <= 0 && c.padding > 0
      ensures var next := k + Min(c.padding, |buffer| - k);
              Decoding(c, buffer[k..], beyond)
              == Behind([], [], Decoding(c.(padding := c.padding - (next - k)), buffer[next..], beyond))
    {
      var end := Min(c.padding, |buffer| - k);
      assert buffer[k..][end..] == buffer[k + end..];
      NothingTaken(Decoding(c.(padding := c.padding - end), buffer[k + end..], beyond));
    }

    method EnterFrame(paddingInfo: bytes)
      requires |paddingInfo| == 5
      modifies `remainingContent, `remainingPadding, `currentCommand
      ensures CursorState() == ReadHeader(paddingInfo)
    {
      currentCommand := paddingInfo[0];
      remainingContent := FromU16(paddingInfo[1], paddingInfo[2]);
      remainingPadding := FromU16(paddingInfo[3], paddingInfo[4]);
    }

    /** How much of what the chunk still holds belongs to the current content. */
    method UseContent(available: nat) returns (end: nat)
      requires remainingContent > 0
      modifies `remainingContent
      ensures var c := old(CursorState()); end == Min(c.content, available) && CursorState() == c.(content := c.content - end)
    {
      end := remainingContent;
      if end > available {
        end := available;
      }
      remainingContent := remainingContent - end;
    }

    method UsePadding(available: nat) returns (end: nat)
      requires remainingPadding > 0
      modifies `remainingPadding
      ensures var c := old(CursorState()); end == Min(c.padding, available) && CursorState() == c.(padding := c.padding - end)
    {
      end := remainingPadding;
      if end > available {
        end := available;
      }
      remainingPadding := remainingPadding - end;
    }

    /** The branches of the padding loop: which command a piece gets, and whether padding is over. */
    method ChooseCommand(buffer: bytes) returns (command: byte)
      modifies `isPadding, `directWrite
      ensures command == W.CommandFor(FilterState(), buffer)
      ensures isPadding == (old(isPadding) && command == CONTINUE)
      ensures directWrite == (old(directWrite) || command == DIRECT)
    {
      command := CONTINUE;
      if isTLS && |buffer| > 6 && F.APPLICATION_DATA == buffer[..3] {
        command := END;
        if enableXTLS {
          directWrite := true;
          command := DIRECT;
        }
        isPadding := false;
      } else if !isTLS12orAbove && numberOfPacketToFilter <= 1 {
        isPadding := false;
        command := END;
      }
    }

    /** One turn of the padding loop. */
    method PadOne(buffer: bytes, d: W.Draw) returns (out: bytes, command: byte, ghost frame: Frame)
      modifies `isPadding, `directWrite, `writeUUID
      ensures var w := old(WriterState());
              && command == W.CommandFor(w.filter, buffer) && frame == W.PadFrame(w, buffer, command, d)
              && out == (if w.writeUUID then userUUID else []) + EncodeFrame(frame)
              && WriterState() == w.(isPadding := w.isPadding && command == CONTINUE, writeUUID := false,
                                     directWrite := w.directWrite || command == DIRECT)
    {
      command := ChooseCommand(buffer);
      out, frame := Padding(buffer, command, d);
    }

    /** The padding loop of a write: pads pieces until it meets the one that ends the padding. `padded` counts the
        padded pieces, and `specIndex` is the index of a Direct piece. */
    method PadPieces(pieces: seq<bytes>, draws: seq<W.Draw>) returns (buffers: seq<bytes>, specIndex: nat, ghost padded: nat)
      requires isPadding && !directWrite && 0 < |pieces| <= |draws|
      modifies `isPadding, `directWrite, `writeUUID
      ensures var s := W.Emit(old(WriterState()), pieces, draws);
              && WriterState() == s.next
              && padded <= |buffers|
              && Flatten(buffers[..padded]) == (if old(writeUUID) then userUUID else []) + EncodeFrames(s.frames)
              && Flatten(buffers[padded..]) == s.tail + s.raw
              && (directWrite ==> padded == specIndex + 1 && s.tail == [] && !isPadding)
              && (!directWrite ==> s.raw == [])
    {
      buffers := pieces;
      specIndex := 0;
      ghost var frames: seq<Frame> := [];
      ghost var w := WriterState();
      ghost var s := W.Emit(w, pieces, draws);
      ghost var uuid := if writeUUID then userUUID else [];
      assert pieces[0..] == pieces && draws[0..] == draws;
      var i := 0;
      while i < |buffers|
        invariant 0 <= i <= |buffers| == |pieces|
        invariant w == WriterState() && w.writeUUID == (i == 0 && old(writeUUID))
        invariant buffers[i..] == pieces[i..]
        invariant (i == 0 ==> frames == []) && isPadding && !directWrite
        invariant Flatten(buffers[..i]) == (if i > 0 then uuid else []) + EncodeFrames(frames)
        invariant W.Joins(s, frames, W.Emit(w, pieces[i..], draws[i..]))
      {
        W.EmitStep(s, frames, w, pieces, draws, i);
        assert buffers[i] == buffers[i..][0] == pieces[i];
        var out, command, frame := PadOne(buffers[i], draws[i]);
        if command == DIRECT {
          specIndex := i;
        }
        Appended(buffers, pieces, i, out, uuid, frames, frame);
        buffers := buffers[i := out];
        frames := frames + [frame];
        i := i + 1;
        if command != CONTINUE {
          padded := i;
          return;
        }
        w := w.(writeUUID := false);
      }
      padded := i;
      W.EmitNothing(w, pieces[i..], draws[i..]);
      assert s.frames == frames;
    }

    /** Writes the buffers one after the other, up to the first that fails. */
    static method SendAll(pipe: Pipe, buffers: seq<bytes>) returns (ok: bool)
      modifies pipe`sent
      ensures pipe.sent == old(pipe.sent) + First(Flatten(buffers), old(pipe.Room()))
      ensures ok == (|Flatten(buffers)| <= old(pipe.Room()))
    {
      assert buffers[..|buffers|] == buffers;
      for i := 0 to |buffers|
        invariant pipe.sent == old(pipe.sent) + Flatten(buffers[..i]) && |Flatten(buffers[..i])| <= old(pipe.Room())
      {
        NextBuffer(buffers, i, old(pipe.Room()));
        var n;
        n, ok := pipe.Write(buffers[i]);
        if !ok {
          return;
        }
      }
      return true;
    }

    /** A buffer behind others that went through whole. */
    static lemma NextBuffer(buffers: seq<bytes>, i: nat, room: nat)
      requires i < |buffers| && |Flatten(buffers[..i])| <= room
      ensures Flatten(buffers[..i + 1]) == Flatten(buffers[..i]) + buffers[i]
      ensures |Flatten(buffers[..i + 1])| <= |Flatten(buffers)|
      ensures |Flatten(buffers[..i + 1])| > room ==>
                First(Flatten(buffers), room) == Flatten(buffers[..i]) + First(buffers[i], room - |Flatten(buffers[..i])|)
    {
      var front, rest := buffers[..i], buffers[i + 1..];
      assert buffers[..i + 1] == front + [buffers[i]];
      FlattenSnoc(front, buffers[i]);
      FlattenAppend(front + [buffers[i]], rest);
      assert buffers == front + [buffers[i]] + rest;
      if |Flatten(front) + buffers[i]| > room {
        FirstOfThree(Flatten(front), buffers[i], Flatten(rest), room);
      }
    }

    static lemma FirstOfThree(a: bytes, b: bytes, c: bytes, room: nat)
      requires |a| <= room < |a + b|
      ensures First((a + b) + c, room) == a + First(b, room - |a|)
    {
    }

    /** The padded half of a write: everything up to a Direct piece goes through the vision layer, the rest of
        such a write already goes to the raw connection. */
    method WritePadded(pieces: seq<bytes>, draws: seq<W.Draw>) returns (ok: bool)
      requires Valid() && isPadding && 0 < |pieces| <= |draws|
      modifies `isPadding, `directWrite, `writeUUID, `conn, vless`sent, rawConn`sent
      ensures Valid()
      ensures var s := W.Emit(old(WriterState()), pieces, draws);
              && WriterState() == s.next
              && ok == (|s.Wire(userUUID)| <= old(vless.Room()) && |s.raw| <= old(rawConn.Room()))
              && vless.sent == old(vless.sent) + First(s.Wire(userUUID), old(vless.Room()))
              && rawConn.sent == old(rawConn.sent) + RawSent(s.Wire(userUUID), s.raw, old(vless.Room()), old(rawConn.Room()))
    {
      ghost var s := W.Emit(WriterState(), pieces, draws);
      W.EmitUnfold(WriterState(), pieces, draws);
      var buffers, specIndex, padded := PadPieces(pieces, draws);
      WireParts(s, userUUID, buffers, padded, if directWrite then Some(specIndex) else None);
      ok := SendPieces(buffers, specIndex);
    }

    /** The bytes for either connection: those behind a Direct piece are for the raw one. */
    static function Parted(pieces: seq<bytes>, direct: Option<nat>): (bytes, bytes) {
      if direct.None? || direct.value >= |pieces| then (Flatten(pieces), [])
      else (Flatten(pieces[..direct.value + 1]), Flatten(pieces[direct.value + 1..]))
    }

    /** Everything up to a Direct piece goes to the connection, the rest to the raw one, which replaces it. */
    method SendPieces(pieces: seq<bytes>, specIndex: nat) returns (ok: bool)
      requires vless != rawConn && conn == vless && (directWrite ==> specIndex < |pieces|)
      modifies `conn, vless`sent, rawConn`sent
      ensures conn == vless || (conn == rawConn && directWrite)
      ensures var (first, rest) := Parted(pieces, if directWrite then Some(specIndex) else None);
              && ok == (|first| <= old(vless.Room()) && |rest| <= old(rawConn.Room()))
              && vless.sent == old(vless.sent) + First(first, old(vless.Room()))
              && rawConn.sent == old(rawConn.sent) + RawSent(first, rest, old(vless.Room()), old(rawConn.Room()))
    {
      assert rawConn.sent + [] == rawConn.sent;
      var buffers := pieces;
      if directWrite {
        ok := SendAll(conn, buffers[..specIndex + 1]);
        if !ok {
          return;
        }
        buffers := buffers[specIndex + 1..];
        conn := rawConn;
      }
      ok := SendAll(conn, buffers);
    }

    /** What reaches the raw connection: nothing unless the vision connection took everything. */
    static function RawSent(first: bytes, rest: bytes, room: nat, rawRoom: nat): bytes {
      if |first| <= room then First(rest, rawRoom) else []
    }

    /** The padded buffers and what follows them, as the specification splits them between the connections. */
    static lemma WireParts(s: W.Sent, id: Uuid, buffers: seq<bytes>, padded: nat, direct: Option<nat>)
      requires padded <= |buffers| && if direct.Some? then padded == direct.value + 1 && s.tail == [] else s.raw == []
      requires Flatten(buffers[..padded]) == (if s.uuid then id else []) + EncodeFrames(s.frames)
      requires Flatten(buffers[padded..]) == s.tail + s.raw
      ensures Parted(buffers, direct) == (s.Wire(id), s.raw)
    {
      FlattenAppend(buffers[..padded], buffers[padded..]);
      assert buffers[..padded] + buffers[padded..] == buffers;
      var head := Flatten(buffers[..padded]);
      assert s.Wire(id) == head + s.tail;
      if direct.Some? {
        assert head + s.tail == head && s.tail + s.raw == s.raw;
      } else {
        assert s.tail + s.raw == s.tail;
      }
    }

    /** One write of the application. What it adds to either connection is what the specification says, as far as the
        connections take it; the registers are those of a write that went through. */
    method Write(p: bytes, beyond: bytes, d0: W.Draw, d1: W.Draw) returns (n: nat, ok: bool)
      requires Valid()
      modifies `isTLS, `numberOfPacketToFilter, `isTLS12orAbove, `remainingServerHello, `cipher, `enableXTLS, `panicked
      modifies `isPadding, `directWrite, `writeUUID, `conn, vless`sent, rawConn`sent
      ensures Valid()
      ensures var s := W.WriteStep(old(WriterState()), p, beyond, d0, d1);
              && WriterState() == s.next
              && vless.sent == old(vless.sent) + First(s.Wire(userUUID), old(vless.Room()))
              && rawConn.sent == old(rawConn.sent) + RawSent(s.Wire(userUUID), s.raw, old(vless.Room()), old(rawConn.Room()))
              && ok == (!s.next.filter.panicked && |s.Wire(userUUID)| <= old(vless.Room()) && |s.raw| <= old(rawConn.Room()))
              && n == (if ok then |p| else if old(isPadding) then 0
                       else |First(s.Wire(userUUID), old(vless.Room()))| + |First(s.raw, old(rawConn.Room()))|)
    {
      SniffFirst(p, beyond);
      n, ok := Deliver(p, d0, d1);
    }

    method SniffFirst(p: bytes, beyond: bytes)
      modifies `isTLS, `numberOfPacketToFilter, `isTLS12orAbove, `remainingServerHello, `cipher, `enableXTLS, `panicked
      ensures WriterState() == W.Sniffed(old(WriterState()), p, beyond)
    {
      if numberOfPacketToFilter > 0 {
        FilterTLS(p, beyond);
      }
    }

    /** The write once the filter has seen its bytes. */
    method Deliver(p: bytes, d0: W.Draw, d1: W.Draw) returns (n: nat, ok: bool)
      requires Valid()
      modifies `isPadding, `directWrite, `writeUUID, `conn, vless`sent, rawConn`sent
      ensures Valid()
      ensures var s := W.Deliver(old(WriterState()), p, d0, d1);
              && WriterState() == s.next
              && vless.sent == old(vless.sent) + First(s.Wire(userUUID), old(vless.Room()))
              && rawConn.sent == old(rawConn.sent) + RawSent(s.Wire(userUUID), s.raw, old(vless.Room()), old(rawConn.Room()))
              && ok == (!s.next.filter.panicked && |s.Wire(userUUID)| <= old(vless.Room()) && |s.raw| <= old(rawConn.Room()))
              && n == (if ok then |p| else if old(isPadding) then 0
                       else |First(s.Wire(userUUID), old(vless.Room()))| + |First(s.raw, old(rawConn.Room()))|)
    {
      if panicked {
        return 0, false;
      }
      if isPadding {
        ok := WritePadded(W.Reshape(p), [d0, d1]);
        return if ok then |p| else 0, ok;
      }
      PlainWire(if directWrite then [] else p);
      n, ok := WritePlain(p);
    }

    /** A write behind the padding. */
    method WritePlain(p: bytes) returns (n: nat, ok: bool)
      requires Valid()
      modifies vless`sent, rawConn`sent
      ensures vless.sent == old(vless.sent) + (if directWrite then [] else First(p, old(vless.Room())))
      ensures rawConn.sent == old(rawConn.sent) + (if directWrite then First(p, old(rawConn.Room())) else [])
      ensures ok == (|p| <= old(if directWrite then rawConn.Room() else vless.Room()))
      ensures n == |First(p, old(if directWrite then rawConn.Room() else vless.Room()))|
    {
      if directWrite {
        n, ok := rawConn.Write(p);
      } else {
        n, ok := conn.Write(p);
      }
    }

    static lemma PlainWire(tail: bytes)
      ensures [] + EncodeFrames([]) + tail == tail
    {
    }

    static method CopyInto(p: array<byte>, data: bytes)
      requires |data| <= p.Length
      modifies p
      ensures p[..|data|] == data && p[|data|..] == old(p[|data|..])
    {
      for i := 0 to |data|
        invariant p[..i] == data[..i] && p[i..] == old(p[i..])
      {
        p[i] := data[i];
      }
      assert data[..|data|] == data;
    }

    method FilterAll(buffers: seq<bytes>, spare: seq<bytes>)
      modifies `isTLS, `numberOfPacketToFilter, `isTLS12orAbove, `remainingServerHello, `cipher, `enableXTLS, `panicked
      ensures FilterState() == W.FeedAll(old(FilterState()), R.Slices(buffers, spare))
    {
      ghost var f, slices := FilterState(), R.Slices(buffers, spare);
      assert slices[0..] == slices;
      for i := 0 to |buffers|
        invariant W.FeedAll(f, slices) == W.FeedAll(FilterState(), slices[i..])
      {
        assert slices[i..][0] == slices[i] && slices[i..][1..] == slices[i + 1..];
        FilterTLS(buffers[i], if i < |spare| then spare[i] else []);
      }
    }

    /** The decoded buffers go through the filter and are the next to deliver. The first `k` of them are slices of the
        caller's buffer if the chunk was read into it. */
    method Keep(buffers: seq<bytes>, spare: seq<bytes>, buffer: bytes, k: nat, p: array?<byte>)
      requires Places(buffer, memory(decoded).chunk, buffers, spare, k)
      requires p != null ==> |buffer| <= p.Length && p[..|buffer|] == buffer
      modifies `isTLS, `numberOfPacketToFilter, `isTLS12orAbove, `remainingServerHello, `cipher, `enableXTLS, `panicked
      modifies `remainingReader, `lent, `decoded
      ensures Sound()
      ensures var s := old(ReaderState());
              ReaderState() == s.(filter := R.SniffAll(s.filter, buffers, spare), pending := buffers, decoded := s.decoded + 1)
    {
      Pass(buffers, spare);
      Hold(buffers, spare, buffer, memory(decoded).chunk, k, p);
      decoded := decoded + 1;
    }

    method Pass(buffers: seq<bytes>, spare: seq<bytes>)
      modifies `isTLS, `numberOfPacketToFilter, `isTLS12orAbove, `remainingServerHello, `cipher, `enableXTLS, `panicked
      ensures var s := old(ReaderState()); ReaderState() == s.(filter := R.SniffAll(s.filter, buffers, spare))
    {
      Sniff(buffers, spare);
    }

    /** The slices of the caller's buffer, or private buffers when the chunk was not read into it. */
    method Hold(buffers: seq<bytes>, spare: seq<bytes>, buffer: bytes, beyond: bytes, k: nat, p: array?<byte>)
      requires Places(buffer, beyond, buffers, spare, k)
      requires p != null ==> |buffer| <= p.Length && p[..|buffer|] == buffer
      modifies `remainingReader, `lent
      ensures lent == p && Sound()
      ensures ReaderState() == old(ReaderState()).(pending := buffers)
    {
      lent := p;
      PlacesFit(buffer, beyond, buffers, spare, k);
      if p == null {
        remainingReader := Some(seq(|buffers|, i requires 0 <= i < |buffers| => Own(buffers[i])));
      } else {
        remainingReader := Some(Placed(buffers, spare, k, |buffer| + |beyond|));
        PlacedTexts(buffer, beyond, buffers, spare, k, p[..]);
      }
    }

    method Sniff(buffers: seq<bytes>, spare: seq<bytes>)
      modifies `isTLS, `numberOfPacketToFilter, `isTLS12orAbove, `remainingServerHello, `cipher, `enableXTLS, `panicked
      ensures FilterState() == R.SniffAll(old(FilterState()), buffers, spare)
    {
      if numberOfPacketToFilter > 0 {
        FilterAll(buffers, spare);
      }
    }

    /** The state is the specified one, and the buffers or the error are. */
    ghost predicate Handed(a: (R.Stream, Option<seq<bytes>>), buffers: seq<bytes>, err: ReadError)
      reads this, vless, rawConn, lent
    {
      && ReaderState() == a.0
      && if a.1.Some? then err == NoError && buffers == a.1.value else err == BadCommand(a.0.cursor.command)
    }

    /** What `Read` does with one chunk while decoding is on: strip the padding, obey the command, and hand the
        decoded buffers, with those of uTLS behind a Direct frame, to the next read. */
    method Absorb(buffer: bytes) returns (buffers: seq<bytes>, spare: seq<bytes>, taken: nat, err: ReadError)
      modifies `remainingContent, `remainingPadding, `currentCommand, `withinPaddingBuffers, `directRead, `input, `rawIn
      ensures Handed(R.Absorb(userUUID, old(ReaderState()), buffer), buffers, err)
      ensures err == NoError ==> spare == R.AbsorbSpare(userUUID, old(ReaderState()), buffer)
      ensures taken == |UnPad(userUUID, old(CursorState()), buffer).buffers|
    {
      var m, before, rawBefore := memory(decoded), input, rawIn;
      buffers, spare := UnPadding(buffer, m.chunk);
      taken := |buffers|;
      if remainingContent == 0 && remainingPadding == 0 && currentCommand == DIRECT {
        spare := spare + (R.SpareOf(before, m.input) + R.SpareOf(rawBefore, m.rawIn));
      } else {
        assert spare + [] == spare;
      }
      buffers, err := Obey(buffers);
    }

    /** The command check behind the decoding. */
    method Obey(drained: seq<bytes>) returns (buffers: seq<bytes>, err: ReadError)
      modifies `remainingContent, `remainingPadding, `withinPaddingBuffers, `directRead, `input, `rawIn
      ensures Handed(R.Obey(old(ReaderState()), Drained(old(CursorState()), drained)), buffers, err)
    {
      buffers, err := drained, NoError;
      if remainingContent == 0 && remainingPadding == 0 {
        buffers, err := ObeyCommand(drained);
      } else if remainingContent > 0 || remainingPadding > 0 {
        withinPaddingBuffers := true;
      } else {
        withinPaddingBuffers := false;
      }
    }

    method ObeyCommand(drained: seq<bytes>) returns (buffers: seq<bytes>, err: ReadError)
      requires remainingContent == 0 && remainingPadding == 0
      modifies `remainingContent, `remainingPadding, `withinPaddingBuffers, `directRead, `input, `rawIn
      ensures Handed(R.ObeyCommand(old(ReaderState()), Drained(old(CursorState()), drained)), buffers, err)
    {
      buffers, err := drained, NoError;
      if currentCommand == END {
        withinPaddingBuffers := false;
        remainingContent, remainingPadding := -1, -1;
      } else if currentCommand == DIRECT {
        withinPaddingBuffers, directRead := false, true;
        buffers := DrainTls(buffers);
      } else if currentCommand == CONTINUE {
        withinPaddingBuffers := true;
      } else {
        return [], BadCommand(currentCommand);
      }
    }

    /** What uTLS has buffered follows the decoded bytes. */
    method DrainTls(drained: seq<bytes>) returns (buffers: seq<bytes>)
      modifies `input, `rawIn
      ensures buffers == drained + R.NonEmpty(old(input)) + R.NonEmpty(old(rawIn)) && input == [] && rawIn == []
    {
      buffers := drained;
      if |input| > 0 {
        buffers := buffers + [input];
      }
      if |rawIn| > 0 {
        buffers := buffers + [rawIn];
      }
      input, rawIn := [], [];
    }

    /** How an outcome of the specification shows at the call: count, error and the first bytes of the buffer. */
    static predicate Answers(o: R.Outcome, n: nat, err: ReadError, now: bytes, before: bytes) {
      match o
      case Data(d) => err == NoError && n == |d| && d <= now
      case Uncopied(k) => err == NoError && n == k && now == before
      case Eof => err == EndOfFile && n == 0
      case UnknownCommand(c) => err == BadCommand(c) && n == 0
      case Panic => err == Crash
    }

    /** What the previous chunk left to deliver. The bytes may come from the very buffer they are copied into. */
    method ReadPending(p: array<byte>) returns (n: nat)
      requires p.Length > 0 && Sound()
      modifies `remainingReader, p
      ensures Sound()
      ensures var (got, left) := R.Serve(old(ReaderState()).pending, p.Length);
              && ReaderState() == old(ReaderState()).(pending := left)
              && n == |got| && got <= p[..] && (got == [] ==> p[..] == old(p[..]) && remainingReader.None?)
    {
      if remainingReader.None? {
        return 0;
      }
      var ps := remainingReader.value;
      ghost var texts := Texts(ps, Lent());
      var i := 0;
      while i < |ps| && |Text(ps[i], Lent())| == 0
        invariant i <= |ps| && forall k :: 0 <= k < i ==> texts[k] == []
      {
        i := i + 1;
      }
      if i == |ps| {
        ServeNothing(texts, p.Length);
        remainingReader := None;
        return 0;
      }
      ServeFirst(texts, i, p.Length);
      n := Serve(ps, i, p);
    }

    /** The first bytes of a piece go to the front of the buffer. */
    method Serve(ps: seq<Piece>, i: nat, p: array<byte>) returns (n: nat)
      requires remainingReader == Some(ps) && Layered(ps, if lent == null then 0 else lent.Length)
      requires i < |ps| && |Text(ps[i], Lent())| > 0 && p.Length > 0
      modifies `remainingReader, p
      ensures Sound() && remainingReader.Some?
      ensures var texts := old(Texts(ps, Lent()));
              && n == Min(|texts[i]|, p.Length) && p[..n] == texts[i][..n]
              && Texts(Pieces(), Lent()) == [texts[i][n..]] + texts[i + 1..]
    {
      ghost var mem := Lent();
      var text := Text(ps[i], Lent());
      n := Min(|text|, p.Length);
      CopyInto(p, text[..n]);
      remainingReader := Some([Remains(ps[i], n)] + ps[i + 1..]);
      if p == lent {
        OverlapIsHarmless(ps, mem, p[..], i, n);
      } else {
        ElsewhereIsHarmless(ps, mem, i, n);
      }
    }

    /** One segment from the connection; a small buffer `p` is not used for it. */
    method ReadChunk(p: array<byte>) returns (buffer: bytes)
      requires p.Length > 0 && Valid() && conn.arriving != [] && remainingReader.None?
      modifies conn`arriving, p
      ensures ReaderState() == if conn == rawConn then old(ReaderState()).(raw := rawConn.arriving)
                               else old(ReaderState()).(conn := vless.arriving)
      ensures (buffer, conn.arriving) == R.Take(old(conn.arriving), R.Larger(p.Length))
      ensures if p.Length > R.CHUNK_SIZE then buffer <= p[..] else p[..] == old(p[..])
    {
      if p.Length > R.CHUNK_SIZE {
        buffer := conn.Read(p.Length);
        CopyInto(p, buffer);
      } else {
        buffer := conn.Read(R.CHUNK_SIZE);
      }
    }

    /** Decoding one chunk and making its content the next thing to deliver. */
    method TakeIn(buffer: bytes, p: array?<byte>) returns (err: ReadError)
      requires remainingReader.None? && (p != null ==> |buffer| <= p.Length && p[..|buffer|] == buffer)
      modifies `isTLS, `numberOfPacketToFilter, `isTLS12orAbove, `remainingServerHello, `cipher, `enableXTLS, `panicked
      modifies `remainingContent, `remainingPadding, `currentCommand, `withinPaddingBuffers, `directRead, `input, `rawIn
      modifies `remainingReader, `lent, `decoded
      ensures Sound()
      ensures var (s, failed) := R.TakeIn(userUUID, old(ReaderState()), buffer);
              && ReaderState() == s
              && err == match failed case None => NoError case Some(UnknownCommand(c)) => BadCommand(c) case Some(_) => Crash
    {
      ghost var before, beyond := ReaderState(), memory(decoded).chunk;
      var buffers, spare, taken, failure := Absorb(buffer);
      if failure != NoError {
        return failure;
      }
      AbsorbedPlaces(userUUID, before, buffer, beyond, buffers, spare, taken);
      Keep(buffers, spare, buffer, taken, p);
      return if panicked then Crash else NoError;
    }

    /** A read behind a Direct switch. */
    method ReadRaw(p: array<byte>) returns (n: nat, err: ReadError)
      requires p.Length > 0 && directRead && remainingReader.None?
      modifies rawConn`arriving, p
      ensures err == if old(rawConn.arriving) == [] then EndOfFile else NoError
      ensures err == EndOfFile ==> n == 0 && ReaderState() == old(ReaderState())
      ensures err == NoError ==> var (b, raw) := R.Take(old(rawConn.arriving), p.Length);
                ReaderState() == old(ReaderState()).(raw := raw, conn := vless.arriving) && n == |b| && b <= p[..]
      ensures vless != rawConn ==> vless.arriving == old(vless.arriving)
    {
      if rawConn.arriving == [] {
        return 0, EndOfFile;
      }
      var b := rawConn.Read(p.Length);
      CopyInto(p, b);
      return |b|, NoError;
    }

    /** One read into the caller's buffer. The write side may have replaced the connection under a reader that still
        expects padded data. */
    method Read(p: array<byte>) returns (n: nat, err: ReadError)
      requires p.Length > 0 && Valid()
      modifies `isTLS, `numberOfPacketToFilter, `isTLS12orAbove, `remainingServerHello, `cipher, `enableXTLS, `panicked
      modifies `remainingContent, `remainingPadding, `currentCommand, `withinPaddingBuffers, `directRead, `input, `rawIn
      modifies `remainingReader, `lent, `decoded, vless`arriving, rawConn`arriving, p
      ensures Valid()
      ensures var (s, o) := R.CallOn(userUUID, old(ReaderState()), conn == rawConn, p.Length);
              ReaderState() == s && Answers(o, n, err, p[..], old(p[..]))
      decreases |conn.arriving| + |Flatten(conn.arriving)|, 1
    {
      n := ReadPending(p);
      if n > 0 {
        return n, NoError;
      }
      if directRead {
        n, err := ReadRaw(p);
        return;
      }
      n, err := ReadSegment(p);
    }

    /** A read that takes a segment from the connection. */
    method ReadSegment(p: array<byte>) returns (n: nat, err: ReadError)
      requires p.Length > 0 && Valid() && !directRead && remainingReader.None?
      modifies `isTLS, `numberOfPacketToFilter, `isTLS12orAbove, `remainingServerHello, `cipher, `enableXTLS, `panicked
      modifies `remainingContent, `remainingPadding, `currentCommand, `withinPaddingBuffers, `directRead, `input, `rawIn
      modifies `remainingReader, `lent, `decoded, vless`arriving, rawConn`arriving, p
      ensures Valid()
      ensures var (s, o) := R.SegmentOn(userUUID, old(ReaderState()), conn == rawConn, p.Length);
              ReaderState() == s && Answers(o, n, err, p[..], old(p[..]))
      decreases |conn.arriving| + |Flatten(conn.arriving)|, 0
    {
      if conn.arriving == [] {
        return 0, EndOfFile;
      }
      ghost var before := ReaderState();
      var buffer := ReadChunk(p);
      R.SegmentTaken(userUUID, before, conn == rawConn, p.Length, buffer, ReaderState());
      if withinPaddingBuffers || numberOfPacketToFilter > 0 {
        n, err := DecodeSegment(p, buffer, if p.Length > R.CHUNK_SIZE then p else null);
        return;
      }
      return |buffer|, NoError;
    }

    /** The segment is decoded, and the read goes on with what it yields. */
    method DecodeSegment(p: array<byte>, buffer: bytes, holder: array?<byte>) returns (n: nat, err: ReadError)
      requires p.Length > 0 && Valid() && remainingReader.None?
      requires holder != null ==> |buffer| <= holder.Length && holder[..|buffer|] == buffer
      modifies `isTLS, `numberOfPacketToFilter, `isTLS12orAbove, `remainingServerHello, `cipher, `enableXTLS, `panicked
      modifies `remainingContent, `remainingPadding, `currentCommand, `withinPaddingBuffers, `directRead, `input, `rawIn
      modifies `remainingReader, `lent, `decoded, vless`arriving, rawConn`arriving, p
      ensures Valid()
      ensures var (s1, failed) := R.TakeIn(userUUID, old(ReaderState()), buffer);
              var (s, o) := if failed.Some? then (s1, failed.value) else R.CallOn(userUUID, s1, conn == rawConn, p.Length);
              ReaderState() == s && Answers(o, n, err, p[..], old(p[..]))
      decreases |conn.arriving| + |Flatten(conn.arriving)|, 2
    {
      err := TakeIn(buffer, holder);
      if err != NoError {
        return 0, err;
      }
      n, err := Read(p);
    }

    /** The writing half as the turns see it: what counts for a read is which connection stands behind it. */
    ghost function TurnState(): W.Writer
      reads this
    {
      WriterState().(directWrite := conn == rawConn)
    }

    /** A caller that reads into one and the same buffer again and again, and writes nothing into it in between: it gets
        what the turns of `VisionTurns.ReadsAreTurns` deliver. */
    method ReadOn(p: array<byte>, times: nat) returns (data: bytes, err: ReadError)
      requires p.Length > R.CHUNK_SIZE && Valid()
      modifies `isTLS, `numberOfPacketToFilter, `isTLS12orAbove, `remainingServerHello, `cipher, `enableXTLS, `panicked
      modifies `remainingContent, `remainingPadding, `currentCommand, `withinPaddingBuffers, `directRead, `input, `rawIn
      modifies `remainingReader, `lent, `decoded, vless`arriving, rawConn`arriving, p
      ensures Valid()
      ensures var (s, w, d, stop) := T.ReadsOn(userUUID, old(ReaderState()), old(TurnState()), times, p.Length, []);
              && ReaderState() == s && data == d
              && (stop == None <==> err == NoError) && (stop == Some(R.Eof) <==> err == EndOfFile)
    {
      ghost var goal := T.ReadsOn(userUUID, ReaderState(), TurnState(), times, p.Length, []);
      data, err := [], NoError;
      for k := times downto 0
        invariant Valid() && err == NoError && Ahead(k, p.Length, data) == goal
      {
        var part;
        part, err := ReadOneMore(p, k, data);
        if err != NoError {
          return;
        }
        data := data + part;
      }
    }

    /** Where so many reads to come will lead, behind the bytes already collected. */
    ghost function Ahead(times: nat, size: nat, data: bytes): (R.Stream, W.Writer, bytes, Option<R.Outcome>)
      requires size > 0
      reads this, vless, rawConn, lent
    {
      T.ReadsOn(userUUID, ReaderState(), TurnState(), times, size, data)
    }

    /** One of these reads: it leads on, or the reads are over. */
    method ReadOneMore(p: array<byte>, ghost k: nat, ghost data: bytes) returns (part: bytes, err: ReadError)
      requires p.Length > R.CHUNK_SIZE && Valid()
      modifies `isTLS, `numberOfPacketToFilter, `isTLS12orAbove, `remainingServerHello, `cipher, `enableXTLS, `panicked
      modifies `remainingContent, `remainingPadding, `currentCommand, `withinPaddingBuffers, `directRead, `input, `rawIn
      modifies `remainingReader, `lent, `decoded, vless`arriving, rawConn`arriving, p
      ensures Valid()
      ensures var goal := old(Ahead(k + 1, p.Length, data));
              if err == NoError then Ahead(k, p.Length, data + part) == goal
              else goal.0 == ReaderState() && goal.2 == data && goal.3.Some? && (goal.3 == Some(R.Eof) <==> err == EndOfFile)
    {
      ghost var r, w := ReaderState(), TurnState();
      ghost var (s, o) := R.CallOn(userUUID, r, w.directWrite, p.Length);
      T.OneMoreRead(userUUID, r, w, k, p.Length, data, s, o);
      part, err := ReadOnce(p);
    }

    /** One such read, and what the caller takes from its buffer. */
    method ReadOnce(p: array<byte>) returns (part: bytes, err: ReadError)
      requires p.Length > R.CHUNK_SIZE && Valid()
      modifies `isTLS, `numberOfPacketToFilter, `isTLS12orAbove, `remainingServerHello, `cipher, `enableXTLS, `panicked
      modifies `remainingContent, `remainingPadding, `currentCommand, `withinPaddingBuffers, `directRead, `input, `rawIn
      modifies `remainingReader, `lent, `decoded, vless`arriving, rawConn`arriving, p
      ensures Valid()
      ensures var (s, o) := R.CallOn(userUUID, old(ReaderState()), old(TurnState()).directWrite, p.Length);
              && ReaderState() == s && TurnState() == old(TurnState()).(filter := s.filter)
              && (o.Data? <==> err == NoError) && (o.Eof? <==> err == EndOfFile) && (o.Data? ==> part == o.data)
    {
      ghost var o := R.CallOn(userUUID, ReaderState(), conn == rawConn, p.Length).1;
      var n;
      n, err := Read(p);
      AfterRead(o, n, err, p[..], p.Length);
      part := if err == NoError then p[..n] else [];
    }

    static lemma AfterRead(o: R.Outcome, n: nat, err: ReadError, now: bytes, size: nat)
      requires exists before :: Answers(o, n, err, now, before)
      requires o.Uncopied? ==> size <= R.CHUNK_SIZE
      ensures size > R.CHUNK_SIZE ==> (o.Data? <==> err == NoError) && (o.Eof? <==> err == EndOfFile)
      ensures o.Data? ==> n <= |now| && now[..n] == o.data
    {
    }

    /** The first buffers that `Absorb` hands on are those of the chunk, in their places. */
    static lemma AbsorbedPlaces(id: Uuid, s: R.Stream, buffer: bytes, beyond: bytes, buffers: seq<bytes>, spare: seq<bytes>, k: nat)
      requires R.Absorb(id, s, buffer).1 == Some(buffers) && spare == R.AbsorbSpare(id, s, buffer)
      requires beyond == s.memory(s.decoded).chunk && k == |UnPad(id, s.cursor, buffer).buffers|
      ensures Places(buffer, beyond, buffers, spare, k)
    {
      UnPadLies(id, s.cursor, buffer, beyond);
      assert spare[..k] == UnPadSpare(id, s.cursor, buffer, beyond);
      assert buffers[..k] == UnPad(id, s.cursor, buffer).buffers;
    }

    /** Padding one more piece in place. */
    static lemma Appended(buffers: seq<bytes>, pieces: seq<bytes>, i: nat, out: bytes, uuid: bytes, frames: seq<Frame>, f: Frame)
      requires i < |buffers| == |pieces| && buffers[i..] == pieces[i..]
      requires Flatten(buffers[..i]) == (if i > 0 then uuid else []) + EncodeFrames(frames)
      requires out == (if i == 0 then uuid else []) + EncodeFrame(f)
      requires i == 0 ==> frames == []
      ensures Flatten(buffers[i := out][..i + 1]) == uuid + EncodeFrames(frames + [f])
      ensures buffers[i := out][i + 1..] == pieces[i + 1..]
    {
      assert buffers[i := out][..i + 1] == buffers[..i] + [out];
      FlattenSnoc(buffers[..i], out);
      EncodeSnoc(frames, f);
      assert buffers[i..][1..] == buffers[i + 1..] && pieces[i..][1..] == pieces[i + 1..];
    }
  }
}
