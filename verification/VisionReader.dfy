/** The receiving half of a vision connection: what a run of reads delivers. */
module VisionReader {
  import opened Bytes
  import opened VisionWire
  import opened VisionDecode
  import F = VisionFilter
  import W = VisionWriter

  const CHUNK_SIZE := 8192

  /** What lies behind a chunk in its array, and behind what uTLS had buffered, up to their capacities. */
  datatype Backing = Backing(chunk: bytes, input: bytes, rawIn: bytes)

  /** The reading half and what is still to arrive on the two connections; `input` and `rawIn` are the
      bytes uTLS has buffered, which a Direct switch drains. `memory(n)` is what lies behind the n-th chunk decoded. */
  datatype Stream = Stream(filter: F.Filter, cursor: Cursor, within: bool, direct: bool, pending: seq<bytes>,
                           conn: seq<bytes>, raw: seq<bytes>, input: bytes, rawIn: bytes,
                           memory: nat -> Backing, decoded: nat) {
    /** Decoding is on, or packets are still being filtered. */
    predicate Decoding() {
      within || filter.packets > 0
    }
  }

  /** `Uncopied(n)`: the call reports n bytes but leaves the caller's buffer untouched. */
  datatype Outcome = Data(data: bytes) | Uncopied(n: nat) | Eof | UnknownCommand(command: byte) | Panic

  // ---- readers --------------------------------------------------------------

  /** Reading from a list of buffers as `io.MultiReader` does: nothing only when all are exhausted. */
  function Serve(bufs: seq<bytes>, max: nat): (r: (bytes, seq<bytes>))
    requires max > 0
    ensures r.0 + Flatten(r.1) == Flatten(bufs) && |r.0| <= max
    ensures r.0 == [] ==> r.1 == []
    decreases |bufs|
  {
    if bufs == [] then ([], [])
    else if bufs[0] == [] then Serve(bufs[1..], max)
    else
      var n := Min(|bufs[0]|, max);
      var left := [bufs[0][n..]] + bufs[1..];
      assert left[1..] == bufs[1..];
      assert bufs[0] == bufs[0][..n] + bufs[0][n..];
      (bufs[0][..n], left)
  }

  /** One read from a connection: at most `max` bytes of the next segment. */
  function Take(chunks: seq<bytes>, max: nat): (r: (bytes, seq<bytes>))
    requires chunks != [] && max > 0
    ensures r.0 + Flatten(r.1) == Flatten(chunks) && |r.0| <= max && r.0 <= chunks[0]
    ensures |chunks[0]| <= max ==> r == (chunks[0], chunks[1..])
    ensures |r.1| + |Flatten(r.1)| < |chunks| + |Flatten(chunks)|
  {
    if |chunks[0]| <= max then (chunks[0], chunks[1..])
    else
      var left := [chunks[0][max..]] + chunks[1..];
      assert left[1..] == chunks[1..];
      assert chunks[0] == chunks[0][..max] + chunks[0][max..];
      (chunks[0][..max], left)
  }

  function NonEmpty(b: bytes): seq<bytes> {
    if b == [] then [] else [b]
  }

  /** Decoding one chunk and obeying its command: the state behind it, and the buffers it hands on. No buffers is the
      unknown-command error. */
  function Absorb(id: Uuid, s: Stream, chunk: bytes): (Stream, Option<seq<bytes>>) {
    Obey(s, UnPad(id, s.cursor, chunk))
  }

  /** The command check behind `unPadding`. */
  function Obey(s: Stream, d: Drained): (Stream, Option<seq<bytes>>) {
    var c := d.cursor;
    if c.content == 0 && c.padding == 0 then ObeyCommand(s, d)
    else (s.(cursor := c, within := c.content > 0 || c.padding > 0), Some(d.buffers))
  }

  /** A frame is complete: its command is obeyed. */
  function ObeyCommand(s: Stream, d: Drained): (Stream, Option<seq<bytes>>) {
    var c := d.cursor;
    if c.command == END then
      (s.(cursor := Cursor(-1, -1, c.command), within := false), Some(d.buffers))
    else if c.command == DIRECT then
      (s.(cursor := c, within := false, direct := true, input := [], rawIn := []),
       Some(d.buffers + NonEmpty(s.input) + NonEmpty(s.rawIn)))
    else if c.command == CONTINUE then
      (s.(cursor := c, within := true), Some(d.buffers))
    else (s.(cursor := c), None)
  }

  /** The decoded buffers as slices: each with what lies behind it. */
  function Slices(buffers: seq<bytes>, spare: seq<bytes>): (r: seq<F.Slice>)
    ensures |r| == |buffers|
  {
    seq(|buffers|, i requires 0 <= i < |buffers| => F.Slice(buffers[i], if i < |spare| then spare[i] else []))
  }

  /** What lies behind the buffers `Absorb` hands on. */
  function AbsorbSpare(id: Uuid, s: Stream, chunk: bytes): seq<bytes> {
    var c := UnPad(id, s.cursor, chunk).cursor;
    var m := s.memory(s.decoded);
    UnPadSpare(id, s.cursor, chunk, m.chunk) +
    if c == Cursor(0, 0, DIRECT) then SpareOf(s.input, m.input) + SpareOf(s.rawIn, m.rawIn) else []
  }

  function SpareOf(buffered: bytes, behind: bytes): seq<bytes> {
    if buffered == [] then [] else [behind]
  }

  function SniffAll(f: F.Filter, buffers: seq<bytes>, spare: seq<bytes>): F.Filter {
    if f.packets > 0 then W.FeedAll(f, Slices(buffers, spare)) else f
  }

  /** Decoding one chunk and making its content the next thing to deliver; or the outcome that ends the read. */
  function TakeIn(id: Uuid, s: Stream, chunk: bytes): (Stream, Option<Outcome>) {
    var (s1, handed) := Absorb(id, s, chunk);
    if handed.None? then (s1, Some(UnknownCommand(s1.cursor.command)))
    else
      var s2 := s1.(filter := SniffAll(s1.filter, handed.value, AbsorbSpare(id, s, chunk)), pending := handed.value,
                    decoded := s.decoded + 1);
      (s2, if s2.filter.panicked then Some(Panic) else None)
  }

  function Larger(max: nat): nat {
    if max > CHUNK_SIZE then max else CHUNK_SIZE
  }

  /** One `Read` with room for `max` bytes. */
  function ReadCall(id: Uuid, s: Stream, max: nat): (r: (Stream, Outcome))
    requires max > 0
    ensures r.1.Uncopied? ==> max <= CHUNK_SIZE
    decreases |s.conn| + |Flatten(s.conn)|, 1
  {
    var (got, left) := Serve(s.pending, max);
    var s1 := s.(pending := left);
    if got != [] then (s1, Data(got))
    else if s.direct then
      if s.raw == [] then (s1, Eof)
      else
        var (b, raw) := Take(s.raw, max);
        (s1.(raw := raw), Data(b))
    else ReadSegment(id, s1, max)
  }

  /** A read that has nothing pending and must take a segment from the connection. */
  function ReadSegment(id: Uuid, s: Stream, max: nat): (r: (Stream, Outcome))
    requires max > 0
    ensures r.1.Uncopied? ==> max <= CHUNK_SIZE
    decreases |s.conn| + |Flatten(s.conn)|, 0
  {
    if s.conn == [] then (s, Eof)
    else
      var (chunk, conn) := Take(s.conn, Larger(max));
      var s1 := s.(conn := conn);
      if s.Decoding() then
        var (s2, failed) := TakeIn(id, s1, chunk);
        if failed.Some? then (s2, failed.value) else ReadCall(id, s2, max)
      else
        (s1, if max > CHUNK_SIZE then Data(chunk) else Uncopied(|chunk|))
  }

  /** One `Read` once this end's own Direct write has replaced the connection: what the peer sends padded is expected
      from the raw connection, too. */
  function CrossedCall(id: Uuid, s: Stream, max: nat): (r: (Stream, Outcome))
    requires max > 0
    ensures r.1.Uncopied? ==> max <= CHUNK_SIZE
    decreases |s.raw| + |Flatten(s.raw)|, 1
  {
    var (got, left) := Serve(s.pending, max);
    var s1 := s.(pending := left);
    if got != [] then (s1, Data(got))
    else if s.direct then
      if s.raw == [] then (s1, Eof)
      else
        var (b, raw) := Take(s.raw, max);
        (s1.(raw := raw), Data(b))
    else CrossedSegment(id, s1, max)
  }

  function CrossedSegment(id: Uuid, s: Stream, max: nat): (r: (Stream, Outcome))
    requires max > 0
    ensures r.1.Uncopied? ==> max <= CHUNK_SIZE
    decreases |s.raw| + |Flatten(s.raw)|, 0
  {
    if s.raw == [] then (s, Eof)
    else
      var (chunk, raw) := Take(s.raw, Larger(max));
      var s1 := s.(raw := raw);
      if s.Decoding() then
        var (s2, failed) := TakeIn(id, s1, chunk);
        if failed.Some? then (s2, failed.value) else CrossedCall(id, s2, max)
      else
        (s1, if max > CHUNK_SIZE then Data(chunk) else Uncopied(|chunk|))
  }

  /** One `Read`, whichever connection stands behind it. */
  function CallOn(id: Uuid, s: Stream, crossed: bool, max: nat): (r: (Stream, Outcome))
    requires max > 0
    ensures r.1.Uncopied? ==> max <= CHUNK_SIZE
  {
    if crossed then CrossedCall(id, s, max) else ReadCall(id, s, max)
  }

  function SegmentOn(id: Uuid, s: Stream, crossed: bool, max: nat): (Stream, Outcome)
    requires max > 0
  {
    if crossed then CrossedSegment(id, s, max) else ReadSegment(id, s, max)
  }

  /** The segment is taken: what is left to do, from the state behind it. */
  lemma SegmentTaken(id: Uuid, s: Stream, crossed: bool, max: nat, chunk: bytes, s1: Stream)
    requires max > 0 && (if crossed then s.raw else s.conn) != []
    requires var (b, left) := Take(if crossed then s.raw else s.conn, Larger(max));
             chunk == b && s1 == if crossed then s.(raw := left) else s.(conn := left)
    ensures SegmentOn(id, s, crossed, max)
            == if s1.Decoding() then
                 var (s2, failed) := TakeIn(id, s1, chunk);
                 if failed.Some? then (s2, failed.value) else CallOn(id, s2, crossed, max)
               else (s1, if max > CHUNK_SIZE then Data(chunk) else Uncopied(|chunk|))
  {
  }

  function Size(chunks: seq<bytes>): nat {
    |chunks| + |Flatten(chunks)|
  }

  lemma {:induction false} SegmentShrinks(id: Uuid, s: Stream, max: nat)
    requires max > 0 && s.conn != []
    ensures Size(ReadSegment(id, s, max).0.conn) < Size(s.conn)
    decreases Size(s.conn), 0
  {
    var (chunk, conn) := Take(s.conn, Larger(max));
    var s1 := s.(conn := conn);
    if s.Decoding() {
      var (s2, failed) := TakeIn(id, s1, chunk);
      TakeInIgnoresConn(id, s1, conn, chunk);
      if failed.None? {
        CallShrinks(id, s2, max);
      }
    }
  }

  lemma {:induction false} CallShrinks(id: Uuid, s: Stream, max: nat)
    requires max > 0
    ensures Size(ReadCall(id, s, max).0.conn) <= Size(s.conn)
    decreases Size(s.conn), 1
  {
    var (got, left) := Serve(s.pending, max);
    if got == [] && !s.direct && s.conn != [] {
      SegmentShrinks(id, s.(pending := left), max);
    }
  }

  lemma {:induction false} CrossedShrinks(id: Uuid, s: Stream, max: nat)
    requires max > 0
    ensures Size(CrossedCall(id, s, max).0.raw) <= Size(s.raw)
    ensures Serve(s.pending, max).0 == [] && s.raw != [] ==> Size(CrossedCall(id, s, max).0.raw) < Size(s.raw)
    decreases Size(s.raw)
  {
    var (got, left) := Serve(s.pending, max);
    if got == [] && !s.direct && s.raw != [] && s.Decoding() {
      var (chunk, raw) := Take(s.raw, Larger(max));
      var s1 := s.(pending := left, raw := raw);
      TakeInIgnoresConn(id, s1, s1.conn, chunk);
      var (s2, failed) := TakeIn(id, s1, chunk);
      if failed.None? {
        CrossedShrinks(id, s2, max);
      }
    }
  }

  /** Whether it makes no difference to a read which connection stands behind it: the peer has switched, too, or something
      is pending, or nothing arrives on either connection. */
  predicate ReadsAlike(s: Stream, max: nat)
    requires max > 0
  {
    s.direct || Serve(s.pending, max).0 != [] || (s.conn == [] && s.raw == [])
  }

  /** A read behind the own switch is the read it should be exactly in these cases. */
  lemma CrossedCallIff(id: Uuid, s: Stream, max: nat)
    requires max > 0
    ensures CrossedCall(id, s, max) == ReadCall(id, s, max) <==> ReadsAlike(s, max)
  {
    if !ReadsAlike(s, max) {
      var t := s.(pending := Serve(s.pending, max).1);
      CrossedIgnoresConn(id, s, s.conn, max);
      if s.conn != [] {
        SegmentShrinks(id, t, max);
      } else {
        CrossedShrinks(id, s, max);
      }
    }
  }

  /** With nothing pending and nothing on the raw connection it reports the end of file, whatever the peer has sent. */
  lemma CrossedStarves(id: Uuid, s: Stream, max: nat)
    requires max > 0 && Flatten(s.pending) == [] && !s.direct && s.raw == []
    ensures CrossedCall(id, s, max).1 == Eof
  {
    var (got, left) := Serve(s.pending, max);
    assert got == [];
  }

  /** Reads behind the own switch never touch what arrives on the vision connection. */
  lemma {:induction false} CrossedIgnoresConn(id: Uuid, s: Stream, c: seq<bytes>, max: nat)
    requires max > 0
    ensures var (s1, o) := CrossedCall(id, s, max);
            s1.conn == s.conn && CrossedCall(id, s.(conn := c), max) == (s1.(conn := c), o)
    decreases |s.raw| + |Flatten(s.raw)|
  {
    var (got, left) := Serve(s.pending, max);
    if got == [] && !s.direct && s.raw != [] && s.Decoding() {
      var (chunk, raw) := Take(s.raw, Larger(max));
      var s1 := s.(pending := left, raw := raw);
      TakeInIgnoresConn(id, s1, c, chunk);
      var (s2, failed) := TakeIn(id, s1, chunk);
      if failed.None? {
        CrossedIgnoresConn(id, s2, c, max);
      }
    }
  }

  lemma TakeInIgnoresConn(id: Uuid, s: Stream, c: seq<bytes>, chunk: bytes)
    ensures var (s1, failed) := TakeIn(id, s, chunk);
            s1.conn == s.conn && s1.raw == s.raw && TakeIn(id, s.(conn := c), chunk) == (s1.(conn := c), failed)
  {
  }

  /** The state from which the recursive call of a decoding read goes on. */
  function Absorbed(id: Uuid, s: Stream): Option<Stream>
    requires s.conn != []
  {
    var s1 := s.(conn := s.conn[1..], pending := []);
    if Absorb(id, s1, s.conn[0]).1.None? then None else Some(TakeIn(id, s1, s.conn[0]).0)
  }

  // ---- the stream that is still to come ---------------------------------------

  /** Every byte future reads deliver when each arriving segment is read whole. */
  function Future(id: Uuid, s: Stream): bytes
    decreases |s.conn|
  {
    Flatten(s.pending) +
    if s.direct then Flatten(s.raw)
    else if s.conn == [] then []
    else if s.Decoding() then
      var a := Absorbed(id, s);
      if a.None? then [] else Future(id, a.value)
    else s.conn[0] + Future(id, s.(conn := s.conn[1..], pending := []))
  }

  predicate Bounded(chunks: seq<bytes>, max: nat) {
    forall i :: 0 <= i < |chunks| ==> |chunks[i]| <= max
  }

  /** Pending bytes come first, whatever else the state holds. */
  lemma PendingFirst(id: Uuid, s: Stream)
    ensures Future(id, s) == Flatten(s.pending) + Future(id, s.(pending := []))
  {
    assert Flatten<byte>([]) == [];
    if !s.direct && s.conn != [] {
      assert s.(conn := s.conn[1..], pending := []) == s.(pending := []).(conn := s.conn[1..], pending := []);
    }
  }

  /** What one read with a large enough buffer guarantees, when no segment is longer than `bound`. */
  predicate Conserves(id: Uuid, s: Stream, max: nat, bound: nat)
    requires max > 0
  {
    var (s', o) := ReadCall(id, s, max);
    && Bounded(s'.conn, bound)
    && !o.Uncopied?
    && (o.Data? ==> Future(id, s) == o.data + Future(id, s'))
    && (o.Eof? || o.UnknownCommand? ==> Future(id, s) == [])
  }

  lemma AbsorbedShape(id: Uuid, s: Stream)
    requires s.conn != [] && Absorbed(id, s).Some?
    ensures Absorbed(id, s).value.conn == s.conn[1..]
  {
  }

  lemma PendingRead(id: Uuid, s: Stream, max: nat, bound: nat)
    requires max > 0 && bound <= max && Bounded(s.conn, bound) && Serve(s.pending, max).0 != []
    ensures Conserves(id, s, max, bound)
  {
    var (got, left) := Serve(s.pending, max);
    PendingFirst(id, s);
    PendingFirst(id, s.(pending := left));
    assert s.(pending := []) == s.(pending := left).(pending := []);
    Associate(got, Flatten(left), Future(id, s.(pending := [])));
  }

  lemma DirectRead(id: Uuid, s: Stream, max: nat, bound: nat)
    requires max > 0 && bound <= max && Bounded(s.conn, bound) && Serve(s.pending, max).0 == [] && s.direct
    ensures Conserves(id, s, max, bound)
  {
    assert Flatten(s.pending) == [];
    assert Future(id, s) == Flatten(s.raw);
    if s.raw != [] {
      var (b, raw) := Take(s.raw, max);
      assert Future(id, s.(pending := [], raw := raw)) == Flatten(raw);
    }
  }

  lemma PassThroughRead(id: Uuid, s: Stream, max: nat, bound: nat)
    requires max > CHUNK_SIZE && bound <= max && Bounded(s.conn, bound) && Serve(s.pending, max).0 == []
    requires !s.direct && !s.Decoding() && s.conn != []
    ensures Conserves(id, s, max, bound)
  {
    assert Flatten(s.pending) == [];
  }

  lemma DecodingRead(id: Uuid, s: Stream, max: nat, bound: nat)
    requires max > CHUNK_SIZE && bound <= max && Bounded(s.conn, bound) && Serve(s.pending, max).0 == []
    requires !s.direct && s.Decoding() && s.conn != []
    requires var a := Absorbed(id, s); a.Some? && !a.value.filter.panicked ==> Conserves(id, a.value, max, bound)
    ensures Conserves(id, s, max, bound)
  {
    var a := Absorbed(id, s);
    DecodingCall(id, s, max);
    DecodingFuture(id, s, max);
    if a.Some? {
      AbsorbedShape(id, s);
    }
  }

  /** The call of a decoding read is the call from the state behind the chunk, unless that ends it. */
  lemma DecodingCall(id: Uuid, s: Stream, max: nat)
    requires max > CHUNK_SIZE && Serve(s.pending, max).0 == [] && !s.direct && s.Decoding() && s.conn != []
    requires |s.conn[0]| <= max
    ensures var a := Absorbed(id, s);
            if a.None? then ReadCall(id, s, max).1.UnknownCommand? && ReadCall(id, s, max).0.conn == s.conn[1..]
            else if a.value.filter.panicked then ReadCall(id, s, max) == (a.value, Panic)
            else ReadCall(id, s, max) == ReadCall(id, a.value, max)
  {
    assert Serve(s.pending, max).1 == [];
    assert s.(pending := []).(conn := s.conn[1..]) == s.(conn := s.conn[1..], pending := []);
  }

  lemma DecodingFuture(id: Uuid, s: Stream, max: nat)
    requires max > 0 && Serve(s.pending, max).0 == [] && !s.direct && s.Decoding() && s.conn != []
    ensures Future(id, s) == if Absorbed(id, s).Some? then Future(id, Absorbed(id, s).value) else []
  {
    assert Flatten(s.pending) == [];
  }

  /** A read with a large enough buffer delivers the next bytes of the stream: nothing lost, nothing repeated. */
  lemma {:induction false} ReadConserves(id: Uuid, s: Stream, max: nat, bound: nat)
    requires max > CHUNK_SIZE && bound <= max && Bounded(s.conn, bound)
    ensures Conserves(id, s, max, bound)
    decreases |s.conn|
  {
    if Serve(s.pending, max).0 != [] {
      PendingRead(id, s, max, bound);
    } else if s.direct {
      DirectRead(id, s, max, bound);
    } else if s.conn == [] {
    } else if s.Decoding() {
      var a := Absorbed(id, s);
      if a.Some? && !a.value.filter.panicked {
        AbsorbedShape(id, s);
        ReadConserves(id, a.value, max, bound);
      }
      DecodingRead(id, s, max, bound);
    } else {
      PassThroughRead(id, s, max, bound);
    }
  }

  /** Once decoding is over, a read delivers what arrived exactly when the buffer is larger than 8192 bytes. */
  lemma PassThroughIff(id: Uuid, s: Stream, max: nat)
    requires max > 0 && Flatten(s.pending) == [] && !s.direct && !s.Decoding() && s.conn != []
    ensures ReadCall(id, s, max).1 == Data(Take(s.conn, if max > 8192 then max else 8192).0) <==> max > 8192
  {
    var (got, left) := Serve(s.pending, max);
    assert got == [];
  }

  /** Outside the padding, while packets are still being filtered, a segment is decoded to itself exactly when it does
      not look like the beginning of a padded stream; then it is what the next read delivers. */
  lemma OutsidePassesIff(id: Uuid, s: Stream)
    requires s.cursor.Outside() && !s.direct && s.Decoding() && s.conn != []
    ensures UnPad(id, s.cursor, s.conn[0]).Bytes() == s.conn[0] <==> !(|s.conn[0]| >= 21 && s.conn[0][..16] == id)
    ensures !OpensFrame(id, s.conn[0]) ==> Absorbed(id, s).Some? && Flatten(Absorbed(id, s).value.pending) == s.conn[0]
  {
    FlattenOne(s.conn[0]);
    if OpensFrame(id, s.conn[0]) {
      DrainShrinks(START, s.conn[0][16..]);
    }
  }

  // ---- whole streams ------------------------------------------------------------

  function AfterSwitch(s: Stream): bytes {
    s.input + s.rawIn + Flatten(s.raw)
  }

  /** No segment starts like the first segment of a padded stream. */
  predicate NoneOpens(id: Uuid, chunks: seq<bytes>) {
    forall i :: 0 <= i < |chunks| ==> !OpensFrame(id, chunks[i])
  }

  /** Behind the segment that completes the End frame, none does. */
  predicate QuietBehindEnd(id: Uuid, c: Cursor, chunks: seq<bytes>)
    decreases |chunks|
  {
    chunks == [] ||
    var d := Drain(c, chunks[0]).cursor;
    if d == Cursor(0, 0, END) then NoneOpens(id, chunks[1..]) else QuietBehindEnd(id, d, chunks[1..])
  }

  /** A rest of a stream the decoder can cope with: never cut inside a header, with known commands and nothing behind a
      Direct frame, and quiet behind an End frame. */
  predicate WellCut(id: Uuid, c: Cursor, chunks: seq<bytes>) {
    NoChunkCuts(c, chunks) && Proper(c, Flatten(chunks)) && QuietBehindEnd(id, c, chunks)
  }

  /** Outside the padding every segment is delivered as it is. */
  lemma {:induction false} FutureOutside(id: Uuid, s: Stream)
    requires s.cursor.Outside() && !s.direct && s.pending == []
    requires NoneOpens(id, s.conn)
    ensures Future(id, s) == Flatten(s.conn)
    decreases |s.conn|
  {
    if s.conn != [] {
      if s.Decoding() {
        OutsideDecodes(id, s);
        FutureOutside(id, PassedOn(id, s));
      } else {
        FutureOutside(id, s.(conn := s.conn[1..], pending := []));
      }
    }
  }

  /** The state after a chunk outside the padding was decoded to itself, and delivered. */
  function PassedOn(id: Uuid, s: Stream): Stream
    requires s.conn != []
  {
    var s1 := s.(conn := s.conn[1..], pending := []);
    s1.(within := false, filter := SniffAll(s.filter, [s.conn[0]], AbsorbSpare(id, s1, s.conn[0])), decoded := s.decoded + 1)
  }

  lemma OutsideDecodes(id: Uuid, s: Stream)
    requires s.cursor.Outside() && !s.direct && s.pending == [] && s.conn != [] && s.Decoding()
    requires !OpensFrame(id, s.conn[0])
    ensures Future(id, s) == s.conn[0] + Future(id, PassedOn(id, s))
  {
    var chunk := s.conn[0];
    var s1, s2 := s.(conn := s.conn[1..], pending := []), PassedOn(id, s).(pending := [chunk]);
    assert Absorb(id, s1, chunk) == (s1.(within := false), Some([chunk]));
    assert Absorbed(id, s) == Some(s2);
    PendingFirst(id, s2);
    assert s2.(pending := []) == PassedOn(id, s);
    FlattenOne(chunk);
  }

  /** The state after a chunk that ends inside the padded stream. */
  function AfterChunk(id: Uuid, s: Stream): Stream
    requires s.conn != []
  {
    var d := Drain(s.cursor, s.conn[0]);
    s.(conn := s.conn[1..], pending := [], cursor := d.cursor, within := true, decoded := s.decoded + 1,
       filter := SniffAll(s.filter, d.buffers, AbsorbSpare(id, s, s.conn[0])))
  }

  /** The chunk at the head, seen from the bytes it yields and from the stream behind it. */
  lemma ChunkSplits(s: Stream)
    requires s.conn != [] && s.cursor.Inside()
    requires NoChunkCuts(s.cursor, s.conn) && Proper(s.cursor, Flatten(s.conn))
    ensures var first := Drain(s.cursor, s.conn[0]);
            var rest := Flatten(s.conn[1..]);
            && first.cursor.Inside()
            && Proper(first.cursor, rest) && NoChunkCuts(first.cursor, s.conn[1..])
            && Drain(s.cursor, Flatten(s.conn)).cursor == Drain(first.cursor, rest).cursor
            && Drain(s.cursor, Flatten(s.conn)).Bytes() == first.Bytes() + Drain(first.cursor, rest).Bytes()
  {
    NoCutSplits(s.cursor, s.conn[0], Flatten(s.conn[1..]));
    DrainStaysInside(s.cursor, s.conn[0]);
  }

  /** Commands stay known along a proper stream. */
  lemma {:induction false} ProperCommand(c: Cursor, buf: bytes)
    requires Proper(c, buf) && c.command <= DIRECT
    ensures Drain(c, buf).cursor.command <= DIRECT
    decreases |buf|
  {
    if buf == [] {
    } else if c.AtBoundary() {
      if c.command != END && |buf| >= 5 {
        ProperCommand(ReadHeader(buf), buf[5..]);
      }
    } else if c.content > 0 {
      var n := Min(c.content, |buf|);
      ProperCommand(c.(content := c.content - n), buf[n..]);
    } else {
      var n := Min(c.padding, |buf|);
      ProperCommand(c.(padding := c.padding - n), buf[n..]);
    }
  }

  lemma SwitchBuffers(buffers: seq<bytes>, input: bytes, rawIn: bytes)
    ensures Flatten(buffers + NonEmpty(input) + NonEmpty(rawIn)) == Flatten(buffers) + input + rawIn
  {
    FlattenAppend(buffers + NonEmpty(input), NonEmpty(rawIn));
    FlattenAppend(buffers, NonEmpty(input));
    FlattenOne(input);
    FlattenOne(rawIn);
  }

  /** The chunk ends inside the padded stream. */
  lemma FutureContinues(id: Uuid, s: Stream)
    requires s.conn != [] && s.cursor.Inside() && !s.direct && s.within && s.pending == []
    requires var c := Drain(s.cursor, s.conn[0]).cursor; c.Inside() && (c.command == CONTINUE || !c.AtBoundary())
    ensures Future(id, s) == Drain(s.cursor, s.conn[0]).Bytes() + Future(id, AfterChunk(id, s))
  {
    var d := Drain(s.cursor, s.conn[0]);
    var next := AfterChunk(id, s).(pending := d.buffers);
    assert UnPad(id, s.cursor, s.conn[0]) == d;
    assert Absorbed(id, s) == Some(next);
    PendingFirst(id, next);
    assert next.(pending := []) == AfterChunk(id, s);
  }

  /** The chunk completes the End frame; the rest of the stream passes through. */
  lemma FutureEnds(id: Uuid, s: Stream)
    requires s.conn != [] && s.cursor.Inside() && !s.direct && s.within && s.pending == []
    requires Drain(s.cursor, s.conn[0]).cursor == Cursor(0, 0, END)
    requires NoneOpens(id, s.conn[1..])
    ensures Future(id, s) == Drain(s.cursor, s.conn[0]).Bytes() + Flatten(s.conn[1..])
  {
    var d := Drain(s.cursor, s.conn[0]);
    var next := s.(conn := s.conn[1..], cursor := Cursor(-1, -1, END), within := false,
                   filter := SniffAll(s.filter, d.buffers, AbsorbSpare(id, s, s.conn[0])), pending := d.buffers, decoded := s.decoded + 1);
    assert UnPad(id, s.cursor, s.conn[0]) == d;
    assert Absorbed(id, s) == Some(next);
    PendingFirst(id, next);
    FutureOutside(id, next.(pending := []));
  }

  /** The chunk completes the Direct frame; the bytes uTLS had buffered and the raw connection follow. */
  lemma FutureSwitches(id: Uuid, s: Stream)
    requires s.conn != [] && s.cursor.Inside() && !s.direct && s.within && s.pending == []
    requires Drain(s.cursor, s.conn[0]).cursor == Cursor(0, 0, DIRECT)
    ensures Future(id, s) == Drain(s.cursor, s.conn[0]).Bytes() + AfterSwitch(s)
  {
    var d := Drain(s.cursor, s.conn[0]);
    var buffers := d.buffers + NonEmpty(s.input) + NonEmpty(s.rawIn);
    var next := s.(conn := s.conn[1..], cursor := d.cursor, within := false, direct := true, input := [], rawIn := [],
                   filter := SniffAll(s.filter, buffers, AbsorbSpare(id, s, s.conn[0])), pending := buffers, decoded := s.decoded + 1);
    assert UnPad(id, s.cursor, s.conn[0]) == d;
    assert Absorbed(id, s) == Some(next);
    SwitchBuffers(d.buffers, s.input, s.rawIn);
    DirectFuture(id, next);
    SwitchOrder(d.Bytes(), s.input, s.rawIn, Flatten(s.raw));
  }

  lemma DirectFuture(id: Uuid, s: Stream)
    requires s.direct
    ensures Future(id, s) == Flatten(s.pending) + Flatten(s.raw)
  {
  }

  lemma SwitchOrder(a: bytes, b: bytes, c: bytes, d: bytes)
    ensures (a + b + c) + d == a + (b + c + d)
  {
  }

  lemma TailPasses(rest: bytes)
    ensures Drain(Cursor(0, 0, END), rest).Bytes() == rest && Drain(Cursor(0, 0, END), rest).cursor == Cursor(0, 0, END)
  {
    FlattenOne(rest);
  }

  /** A state in the middle of a padded stream whose rest is well formed and never cut inside a header. */
  predicate Midstream(id: Uuid, s: Stream) {
    && s.cursor.Inside() && !s.direct && s.within && s.pending == []
    && Continuing(s.cursor)
    && WellCut(id, s.cursor, s.conn)
  }

  predicate Continuing(c: Cursor) {
    c.command == CONTINUE || (c.command <= DIRECT && !c.AtBoundary())
  }

  /** Reads deliver what one single decoding of the rest gives, and behind a Direct frame the bytes of the switch. */
  predicate DeliversRest(id: Uuid, s: Stream) {
    var d := Drain(s.cursor, Flatten(s.conn));
    Future(id, s) == d.Bytes() + if d.cursor == Cursor(0, 0, DIRECT) then AfterSwitch(s) else []
  }

  /** One continued chunk in front of a rest that is delivered; `first` and `rest` name its two decodings. */
  lemma ContinueStep(id: Uuid, s: Stream, next: Stream, first: bytes, rest: Drained)
    requires Future(id, s) == first + Future(id, next)
    requires Future(id, next) == rest.Bytes() + if rest.cursor == Cursor(0, 0, DIRECT) then AfterSwitch(next) else []
    requires AfterSwitch(next) == AfterSwitch(s)
    requires Drain(s.cursor, Flatten(s.conn)).cursor == rest.cursor
    requires Drain(s.cursor, Flatten(s.conn)).Bytes() == first + rest.Bytes()
    ensures DeliversRest(id, s)
  {
    Associate(first, rest.Bytes(), if rest.cursor == Cursor(0, 0, DIRECT) then AfterSwitch(next) else []);
  }

  lemma StopStep(id: Uuid, s: Stream)
    requires Midstream(id, s) && s.conn != [] && !Continuing(Drain(s.cursor, s.conn[0]).cursor)
    ensures DeliversRest(id, s)
  {
    var first, rest := Drain(s.cursor, s.conn[0]), Flatten(s.conn[1..]);
    ChunkSplits(s);
    ProperHead(s);
    if first.cursor.command == END {
      FutureEnds(id, s);
      TailPasses(rest);
    } else {
      FutureSwitches(id, s);
      NothingFollows(first.cursor, rest);
      assert first.Bytes() + [] == first.Bytes();
    }
  }

  /** Nothing follows a Direct frame. */
  lemma NothingFollows(c: Cursor, rest: bytes)
    requires c == Cursor(0, 0, DIRECT) && Proper(c, rest)
    ensures rest == [] && Drain(c, rest) == Drained(c, [])
  {
  }

  lemma ProperHead(s: Stream)
    requires s.conn != [] && s.cursor.Inside() && s.cursor.command <= DIRECT
    requires NoChunkCuts(s.cursor, s.conn) && Proper(s.cursor, Flatten(s.conn))
    ensures Drain(s.cursor, s.conn[0]).cursor.command <= DIRECT
  {
    NoCutSplits(s.cursor, s.conn[0], Flatten(s.conn[1..]));
    ProperCommand(s.cursor, s.conn[0]);
  }

  lemma InsideStep(id: Uuid, s: Stream)
    requires Midstream(id, s) && s.conn != [] && Continuing(Drain(s.cursor, s.conn[0]).cursor)
    requires DeliversRest(id, AfterChunk(id, s))
    ensures DeliversRest(id, s)
  {
    var first := Drain(s.cursor, s.conn[0]);
    ChunkSplits(s);
    FutureContinues(id, s);
    ContinueStep(id, s, AfterChunk(id, s), first.Bytes(), Drain(first.cursor, Flatten(s.conn[1..])));
  }

  lemma {:induction false} FutureInside(id: Uuid, s: Stream)
    requires Midstream(id, s)
    ensures DeliversRest(id, s)
    decreases |s.conn|
  {
    if s.conn != [] {
      if Continuing(Drain(s.cursor, s.conn[0]).cursor) {
        MidstreamContinues(id, s);
        FutureInside(id, AfterChunk(id, s));
        InsideStep(id, s);
      } else {
        StopStep(id, s);
      }
    }
  }

  lemma MidstreamContinues(id: Uuid, s: Stream)
    requires Midstream(id, s) && s.conn != [] && Continuing(Drain(s.cursor, s.conn[0]).cursor)
    ensures Midstream(id, AfterChunk(id, s))
  {
    ChunkSplits(s);
  }

  /** The fresh reading half with its segments still to arrive. */
  function Fresh(conn: seq<bytes>, raw: seq<bytes>, input: bytes, rawIn: bytes, memory: nat -> Backing): Stream {
    Stream(F.FRESH, OUTSIDE, true, false, [], conn, raw, input, rawIn, memory, 0)
  }

  /** The segments without the UUID in front. */
  function Stripped(conn: seq<bytes>): seq<bytes>
    requires conn != [] && |conn[0]| >= 16
  {
    [conn[0][16..]] + conn[1..]
  }

  /** The segmentation the decoder can cope with: a first segment that shows the UUID and a header, no boundary
      inside a header, and behind the segment that completes an End frame none that looks like an opening one. */
  predicate Friendly(id: Uuid, conn: seq<bytes>) {
    && conn != [] && OpensFrame(id, conn[0])
    && NoChunkCuts(START, Stripped(conn)) && QuietBehindEnd(id, START, Stripped(conn))
  }

  /** The UUID is stripped and decoding starts; everything else is as in the middle of a stream. */
  lemma FutureOpens(id: Uuid, s: Stream)
    requires s.cursor.Outside() && s.within && !s.direct && s.pending == []
    requires s.conn != [] && OpensFrame(id, s.conn[0])
    ensures Future(id, s) == Future(id, s.(cursor := START, conn := Stripped(s.conn)))
  {
    var t := s.(cursor := START, conn := Stripped(s.conn));
    assert t.conn[1..] == s.conn[1..] && t.conn[0] == s.conn[0][16..];
    var d := Drain(START, t.conn[0]);
    assert UnPad(id, s.cursor, s.conn[0]) == d && UnPad(id, t.cursor, t.conn[0]) == d;
    var s1 := s.(conn := s.conn[1..], pending := []);
    var t1 := t.(conn := t.conn[1..], pending := []);
    assert t1 == s1.(cursor := START);
    SameAbsorption(id, s1, t1, s.conn[0], t.conn[0]);
  }

  lemma SameAbsorption(id: Uuid, s: Stream, t: Stream, a: bytes, b: bytes)
    requires t == s.(cursor := t.cursor) && UnPad(id, s.cursor, a) == UnPad(id, t.cursor, b)
    ensures Absorb(id, s, a) == Absorb(id, t, b)
  {
  }

  /** Whatever a chain of frames carries, a fresh reader delivers it, in any friendly segmentation, whether the
      chain stays padded, ends with End and a raw tail, or switches to the raw connection. */
  lemma ReadDelivers(id: Uuid, fs: seq<Frame>, tail: bytes, s: Stream)
    requires fs != [] && Chain(fs) && AllFit(fs) && (tail != [] ==> LastCommand(fs) == END)
    requires s == Fresh(s.conn, s.raw, s.input, s.rawIn, s.memory)
    requires Friendly(id, s.conn) && Flatten(s.conn) == id + (EncodeFrames(fs) + tail)
    ensures Future(id, s) == Contents(fs) + tail + if LastCommand(fs) == DIRECT then AfterSwitch(s) else []
  {
    var t := s.(cursor := START, conn := Stripped(s.conn));
    StripUuid(id, s.conn, EncodeFrames(fs) + tail);
    DrainFrames(START, fs, tail);
    FutureOpens(id, s);
    FutureInside(id, t);
    assert AfterSwitch(t) == AfterSwitch(s);
  }

  lemma StripUuid(id: Uuid, conn: seq<bytes>, body: bytes)
    requires conn != [] && |conn[0]| >= 16 && Flatten(conn) == id + body
    ensures Flatten([conn[0][16..]] + conn[1..]) == body
  {
    var t := [conn[0][16..]] + conn[1..];
    assert t[1..] == conn[1..];
    assert Flatten(t) == Flatten(conn)[16..];
  }
}
