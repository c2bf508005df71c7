/** One endpoint's reads and writes in any order: they share the filter, and the reads still deliver what the peer wrote. */
module VisionTurns {
  import opened Bytes
  import opened VisionWire
  import opened VisionDecode
  import opened VisionReader
  import F = VisionFilter
  import W = VisionWriter

  // ---- what is still owed, whatever the filter says ------------------------------------------

  /** The first segment shows the UUID and a header. */
  predicate Opening(id: Uuid, s: Stream) {
    s.cursor.Outside() && s.conn != [] && OpensFrame(id, s.conn[0])
  }

  predicate InsideGood(id: Uuid, s: Stream) {
    s.cursor.Inside() && s.within && Continuing(s.cursor) && WellCut(id, s.cursor, s.conn)
  }

  predicate OpeningGood(id: Uuid, s: Stream) {
    Opening(id, s) && s.within && WellCut(id, START, Stripped(s.conn))
  }

  predicate OutsideGood(id: Uuid, s: Stream) {
    s.cursor.Outside() && NoneOpens(id, s.conn)
  }

  /** A state from which everything that is still to arrive can be read: before, inside or behind the padding. */
  predicate Good(id: Uuid, s: Stream) {
    s.direct || InsideGood(id, s) || OpeningGood(id, s) || OutsideGood(id, s)
  }

  /** What one decoding of the rest gives, and behind a Direct frame the bytes of the switch. */
  function DecodedRest(c: Cursor, chunks: seq<bytes>, s: Stream): bytes {
    var d := Drain(c, Flatten(chunks));
    d.Bytes() + if d.cursor == Cursor(0, 0, DIRECT) then AfterSwitch(s) else []
  }

  /** Every byte the reads of a good state owe the application. */
  function Owed(id: Uuid, s: Stream): bytes {
    Flatten(s.pending) +
    if s.direct then Flatten(s.raw)
    else if Opening(id, s) then DecodedRest(START, Stripped(s.conn), s)
    else if s.cursor.Outside() then Flatten(s.conn)
    else DecodedRest(s.cursor, s.conn, s)
  }

  /** In a good state the filter has no say in what the reads deliver. */
  lemma GoodFuture(id: Uuid, s: Stream)
    requires Good(id, s)
    ensures Future(id, s) == Owed(id, s)
  {
    var t := s.(pending := []);
    PendingFirst(id, s);
    if s.direct {
      DirectFuture(id, s);
    } else if InsideGood(id, s) {
      FutureInside(id, t);
    } else if OpeningGood(id, s) {
      var u := t.(cursor := START, conn := Stripped(s.conn));
      FutureOpens(id, t);
      FutureInside(id, u);
    } else {
      FutureOutside(id, t);
    }
  }

  // ---- session ids ---------------------------------------------------------------------------

  predicate AllLegal(buffers: seq<bytes>) {
    forall i :: 0 <= i < |buffers| ==> F.LegalHello(buffers[i])
  }

  /** Every buffer the decoder will make of the chunks, one call per chunk, has a legal session id. */
  predicate LegalFrom(c: Cursor, chunks: seq<bytes>)
    decreases |chunks|
  {
    chunks == [] || (AllLegal(Drain(c, chunks[0]).buffers) && LegalFrom(Drain(c, chunks[0]).cursor, chunks[1..]))
  }

  /** No buffer that reaches the filter from here on names a session id of more than 32 bytes. */
  predicate Legal(id: Uuid, s: Stream) {
    F.LegalHello(s.input) && F.LegalHello(s.rawIn) &&
    (s.direct ||
     if Opening(id, s) then LegalFrom(START, Stripped(s.conn))
     else if s.cursor.Outside() then AllLegal(s.conn)
     else LegalFrom(s.cursor, s.conn))
  }

  lemma {:induction false} LegalSlices(f: F.Filter, slices: seq<F.Slice>)
    requires !f.panicked && forall i :: 0 <= i < |slices| ==> F.LegalHello(slices[i].data)
    ensures !W.FeedAll(f, slices).panicked
    decreases |slices|
  {
    if slices != [] {
      F.LegalIsInside(slices[0].data);
      F.PanicIff(f, slices[0]);
      LegalSlices(F.Step(f, slices[0]), slices[1..]);
    }
  }

  lemma LegalBuffers(f: F.Filter, buffers: seq<bytes>, spare: seq<bytes>)
    requires !f.panicked && AllLegal(buffers)
    ensures !SniffAll(f, buffers, spare).panicked
  {
    if f.packets > 0 {
      LegalSlices(f, Slices(buffers, spare));
    }
  }

  /** Behind an End frame the decoder yields the chunks themselves. */
  lemma {:induction false} LegalBehindEnd(chunks: seq<bytes>)
    requires LegalFrom(Cursor(0, 0, END), chunks)
    ensures AllLegal(chunks)
    decreases |chunks|
  {
    if chunks != [] {
      var d := Drain(Cursor(0, 0, END), chunks[0]);
      assert d.cursor == Cursor(0, 0, END);
      if chunks[0] != [] {
        assert d.buffers[0] == chunks[0];
      }
      LegalBehindEnd(chunks[1..]);
    }
  }

  // ---- one read ------------------------------------------------------------------------------

  /** An upper bound for the number of reads that can still deliver something. */
  function Left(s: Stream): nat {
    |Flatten(s.pending)| + |s.input| + |s.rawIn| + |s.conn| + |Flatten(s.conn)| + |s.raw| + |Flatten(s.raw)|
  }

  /** A chunk was decoded: the state is good and legal again, and less is left. */
  predicate Decodes(id: Uuid, s: Stream)
    requires s.conn != []
  {
    var a := Absorbed(id, s);
    && a.Some? && Good(id, a.value) && Left(a.value) < Left(s)
    && (Legal(id, s) ==> Legal(id, a.value))
    && (Legal(id, s) && !s.filter.panicked ==> !a.value.filter.panicked)
  }

  lemma DecodesInside(id: Uuid, s: Stream)
    requires InsideGood(id, s) && !s.direct && s.conn != [] && Flatten(s.pending) == []
    ensures Decodes(id, s)
  {
    var first := Drain(s.cursor, s.conn[0]);
    ChunkSplits(s);
    ProperHead(s);
    DrainShrinks(s.cursor, s.conn[0]);
    if Continuing(first.cursor) {
      ChunkContinues(id, s);
    } else if first.cursor.command == END {
      ChunkEnds(id, s);
    } else {
      ChunkSwitches(id, s);
    }
  }

  lemma ChunkContinues(id: Uuid, s: Stream)
    requires InsideGood(id, s) && !s.direct && s.conn != [] && Flatten(s.pending) == []
    requires var first := Drain(s.cursor, s.conn[0]);
             && Continuing(first.cursor) && first.cursor.Inside() && |first.Bytes()| <= |s.conn[0]|
             && WellCut(id, first.cursor, s.conn[1..])
    ensures Decodes(id, s)
  {
    var first := Drain(s.cursor, s.conn[0]);
    var next := AfterChunk(id, s).(pending := first.buffers);
    assert UnPad(id, s.cursor, s.conn[0]) == first;
    assert Absorbed(id, s) == Some(next);
    if Legal(id, s) && !s.filter.panicked {
      LegalBuffers(s.filter, first.buffers, AbsorbSpare(id, s, s.conn[0]));
    }
  }

  lemma ChunkEnds(id: Uuid, s: Stream)
    requires InsideGood(id, s) && !s.direct && s.conn != [] && Flatten(s.pending) == []
    requires var first := Drain(s.cursor, s.conn[0]); first.cursor == Cursor(0, 0, END) && |first.Bytes()| <= |s.conn[0]|
    ensures Decodes(id, s)
  {
    var first := Drain(s.cursor, s.conn[0]);
    var next := s.(conn := s.conn[1..], cursor := Cursor(-1, -1, END), within := false, decoded := s.decoded + 1,
                   filter := SniffAll(s.filter, first.buffers, AbsorbSpare(id, s, s.conn[0])), pending := first.buffers);
    assert UnPad(id, s.cursor, s.conn[0]) == first;
    assert Absorbed(id, s) == Some(next);
    assert !Opening(id, next);
    if Legal(id, s) {
      LegalBehindEnd(s.conn[1..]);
      if !s.filter.panicked {
        LegalBuffers(s.filter, first.buffers, AbsorbSpare(id, s, s.conn[0]));
      }
    }
  }

  lemma ChunkSwitches(id: Uuid, s: Stream)
    requires InsideGood(id, s) && !s.direct && s.conn != [] && Flatten(s.pending) == []
    requires var first := Drain(s.cursor, s.conn[0]); first.cursor == Cursor(0, 0, DIRECT) && |first.Bytes()| <= |s.conn[0]|
    ensures Decodes(id, s)
  {
    var first := Drain(s.cursor, s.conn[0]);
    var buffers := first.buffers + NonEmpty(s.input) + NonEmpty(s.rawIn);
    var next := s.(conn := s.conn[1..], cursor := first.cursor, within := false, direct := true, input := [], rawIn := [],
                   filter := SniffAll(s.filter, buffers, AbsorbSpare(id, s, s.conn[0])), pending := buffers,
                   decoded := s.decoded + 1);
    assert UnPad(id, s.cursor, s.conn[0]) == first;
    assert Absorbed(id, s) == Some(next);
    SwitchBuffers(first.buffers, s.input, s.rawIn);
    if Legal(id, s) && !s.filter.panicked {
      LegalBuffers(s.filter, buffers, AbsorbSpare(id, s, s.conn[0]));
    }
  }

  /** The opening chunk is decoded as the chunk without the UUID is, in the middle of a stream. */
  lemma DecodesOpening(id: Uuid, s: Stream)
    requires OpeningGood(id, s) && !s.direct && Flatten(s.pending) == []
    ensures Decodes(id, s)
  {
    var t := s.(cursor := START, conn := Stripped(s.conn));
    assert t.conn[1..] == s.conn[1..] && t.conn[0] == s.conn[0][16..];
    var s1, t1 := s.(conn := s.conn[1..], pending := []), t.(conn := t.conn[1..], pending := []);
    SameAbsorption(id, s1, t1, s.conn[0], t.conn[0]);
    assert Absorbed(id, s) == Absorbed(id, t);
    DecodesInside(id, t);
  }

  lemma DecodesOutside(id: Uuid, s: Stream)
    requires OutsideGood(id, s) && !s.direct && s.conn != [] && Flatten(s.pending) == []
    ensures Decodes(id, s)
  {
    var chunk := s.conn[0];
    var s1 := s.(conn := s.conn[1..], pending := []);
    var next := s1.(within := false, filter := SniffAll(s.filter, [chunk], AbsorbSpare(id, s1, chunk)), pending := [chunk],
                    decoded := s.decoded + 1);
    assert !Opening(id, s) && !Opening(id, next);
    assert Absorb(id, s1, chunk) == (s1.(within := false), Some([chunk]));
    assert Absorbed(id, s) == Some(next);
    FlattenOne(chunk);
    if Legal(id, s) && !s.filter.panicked {
      LegalBuffers(s.filter, [chunk], AbsorbSpare(id, s1, chunk));
    }
  }

  /** What one read with a large enough buffer keeps. */
  predicate ReadKeeps(id: Uuid, s: Stream, max: nat)
    requires max > 0
  {
    var (s', o) := ReadCall(id, s, max);
    && (o.Data? || o.Eof? || o.Panic?)
    && (o.Data? ==> Good(id, s') && Left(s') < Left(s))
    && (o.Data? && Legal(id, s) ==> Legal(id, s'))
    && (Legal(id, s) && !s.filter.panicked ==> !o.Panic? && !s'.filter.panicked)
  }

  lemma PendingKeeps(id: Uuid, s: Stream, max: nat)
    requires Good(id, s) && max > 0 && Serve(s.pending, max).0 != []
    ensures ReadKeeps(id, s, max)
  {
  }

  lemma DirectKeeps(id: Uuid, s: Stream, max: nat)
    requires s.direct && max > 0 && Serve(s.pending, max).0 == []
    ensures ReadKeeps(id, s, max)
  {
  }

  lemma PassKeeps(id: Uuid, s: Stream, max: nat)
    requires OutsideGood(id, s) && !s.direct && !s.Decoding() && max > CHUNK_SIZE && Serve(s.pending, max).0 == []
    requires s.conn != [] ==> |s.conn[0]| <= max
    ensures ReadKeeps(id, s, max)
  {
  }

  lemma DecodingKeeps(id: Uuid, s: Stream, max: nat)
    requires !s.direct && s.Decoding() && s.conn != [] && max > CHUNK_SIZE && |s.conn[0]| <= max
    requires Serve(s.pending, max).0 == [] && Decodes(id, s)
    requires !Absorbed(id, s).value.filter.panicked ==> ReadKeeps(id, Absorbed(id, s).value, max)
    ensures ReadKeeps(id, s, max)
  {
    DecodingCall(id, s, max);
  }

  lemma {:induction false} GoodRead(id: Uuid, s: Stream, max: nat, bound: nat)
    requires Good(id, s) && max > CHUNK_SIZE && bound <= max && Bounded(s.conn, bound)
    ensures ReadKeeps(id, s, max)
    decreases |s.conn|
  {
    if Serve(s.pending, max).0 != [] {
      PendingKeeps(id, s, max);
    } else if s.direct {
      DirectKeeps(id, s, max);
    } else if s.conn == [] {
    } else if s.Decoding() {
      assert Flatten(s.pending) == [];
      if InsideGood(id, s) {
        DecodesInside(id, s);
      } else if OpeningGood(id, s) {
        DecodesOpening(id, s);
      } else {
        DecodesOutside(id, s);
      }
      AbsorbedShape(id, s);
      if !Absorbed(id, s).value.filter.panicked {
        GoodRead(id, Absorbed(id, s).value, max, bound);
      }
      DecodingKeeps(id, s, max);
    } else {
      PassKeeps(id, s, max);
    }
  }

  // ---- turns -----------------------------------------------------------------------------------

  datatype Turn = ReadTurn(size: nat) | WriteTurn(p: bytes, beyond: bytes, d0: W.Draw, d1: W.Draw)

  /** Reads and writes of one endpoint in the order given, up to the first that ends it. Both halves see one filter. */
  function TakeTurns(id: Uuid, s: Stream, w: W.Writer, turns: seq<Turn>): (Stream, W.Writer, bytes, Option<Outcome>)
    requires Sized(turns, 0)
    decreases |turns|
  {
    if turns == [] then (s, w, [], None)
    else match turns[0]
      case WriteTurn(p, beyond, d0, d1) =>
        var w1 := W.WriteStep(w.(filter := s.filter), p, beyond, d0, d1).next;
        var s1 := s.(filter := w1.filter);
        if w1.filter.panicked then (s1, w1, [], Some(Panic)) else TakeTurns(id, s1, w1, turns[1..])
      case ReadTurn(size) =>
        var (s1, o) := CallOn(id, s, w.directWrite, size);
        var w1 := w.(filter := s1.filter);
        if o.Data? then
          var (s2, w2, data, stop) := TakeTurns(id, s1, w1, turns[1..]);
          (s2, w2, o.data + data, stop)
        else (s1, w1, [], Some(o))
  }

  /** Every read has room for at least `least` bytes. */
  predicate Sized(turns: seq<Turn>, least: nat) {
    forall i :: 0 <= i < |turns| && turns[i].ReadTurn? ==> turns[i].size >= least && turns[i].size > 0
  }

  /** No read takes a segment between an own Direct write, which replaces the connection, and the peer's: those reads that
      would go to the wrong connection are served from what is pending. */
  predicate Orderly(id: Uuid, s: Stream, w: W.Writer, turns: seq<Turn>)
    requires Sized(turns, 0)
    decreases |turns|
  {
    turns == [] ||
    match turns[0]
    case WriteTurn(p, beyond, d0, d1) =>
      var w1 := W.WriteStep(w.(filter := s.filter), p, beyond, d0, d1).next;
      w1.filter.panicked || Orderly(id, s.(filter := w1.filter), w1, turns[1..])
    case ReadTurn(size) =>
      var (s1, o) := ReadCall(id, s, size);
      (w.directWrite ==> ReadsAlike(s, size)) && (o.Data? ==> Orderly(id, s1, w.(filter := s1.filter), turns[1..]))
  }

  predicate LegalWrites(turns: seq<Turn>) {
    forall i :: 0 <= i < |turns| && turns[i].WriteTurn? ==> F.LegalHello(turns[i].p)
  }

  function ReadCount(turns: seq<Turn>): nat {
    if turns == [] then 0 else (if turns[0].ReadTurn? then 1 else 0) + ReadCount(turns[1..])
  }

  lemma WriteKeepsStream(id: Uuid, s: Stream, f: F.Filter)
    ensures Good(id, s.(filter := f)) == Good(id, s) && Owed(id, s.(filter := f)) == Owed(id, s)
    ensures Legal(id, s.(filter := f)) == Legal(id, s) && Left(s.(filter := f)) == Left(s)
  {
  }

  lemma LegalWriteKeeps(w: W.Writer, p: bytes, beyond: bytes, d0: W.Draw, d1: W.Draw)
    requires !w.filter.panicked && F.LegalHello(p)
    ensures !W.WriteStep(w, p, beyond, d0, d1).next.filter.panicked
  {
    var s := F.Slice(p, beyond);
    F.LegalIsInside(p);
    F.PanicIff(w.filter, s);
    W.EmitKeepsFilter(w.(filter := W.Sniff(w.filter, s)), W.Reshape(p), [d0, d1]);
  }

  /** One read, seen from what is owed. */
  lemma OneRead(id: Uuid, s: Stream, size: nat, max: nat)
    requires Good(id, s) && size > CHUNK_SIZE && max <= size && Bounded(s.conn, max)
    ensures ReadKeeps(id, s, size)
    ensures var (s1, o) := ReadCall(id, s, size);
            && Bounded(s1.conn, max)
            && (o.Data? ==> Owed(id, s) == o.data + Owed(id, s1))
            && (o.Eof? ==> Owed(id, s) == [])
  {
    GoodRead(id, s, size, max);
    ReadConserves(id, s, size, max);
    GoodFuture(id, s);
    var (s1, o) := ReadCall(id, s, size);
    if o.Data? {
      GoodFuture(id, s1);
    }
  }

  /** What a run of turns guarantees. */
  predicate TurnsKeep(id: Uuid, s: Stream, w: W.Writer, turns: seq<Turn>)
    requires Sized(turns, 0)
  {
    var (s', w', data, stop) := TakeTurns(id, s, w, turns);
    && data <= Owed(id, s)
    && (stop == None ==> Good(id, s') && Owed(id, s) == data + Owed(id, s'))
    && (stop == None || stop == Some(Eof) || stop == Some(Panic))
    && (stop == Some(Eof) ==> data == Owed(id, s))
    && (Legal(id, s) && LegalWrites(turns) && !s.filter.panicked ==>
          stop != Some(Panic) && (ReadCount(turns) > Left(s) ==> stop == Some(Eof)))
  }

  lemma WriteTurnKeeps(id: Uuid, s: Stream, w: W.Writer, turns: seq<Turn>)
    requires Sized(turns, 0) && turns != [] && turns[0].WriteTurn?
    requires var t := turns[0];
             var w1 := W.WriteStep(w.(filter := s.filter), t.p, t.beyond, t.d0, t.d1).next;
             w1.filter.panicked || (Sized(turns[1..], 0) && TurnsKeep(id, s.(filter := w1.filter), w1, turns[1..]))
    ensures TurnsKeep(id, s, w, turns)
  {
    var t := turns[0];
    var w1 := W.WriteStep(w.(filter := s.filter), t.p, t.beyond, t.d0, t.d1).next;
    WriteKeepsStream(id, s, w1.filter);
    if LegalWrites(turns) && !s.filter.panicked {
      LegalWriteKeeps(w.(filter := s.filter), t.p, t.beyond, t.d0, t.d1);
      LegalRest(turns);
    }
  }

  lemma LegalRest(turns: seq<Turn>)
    requires turns != [] && LegalWrites(turns)
    ensures LegalWrites(turns[1..])
  {
    assert forall i :: 0 <= i < |turns| - 1 ==> turns[1..][i] == turns[i + 1];
  }

  lemma ReadTurnKeeps(id: Uuid, s: Stream, w: W.Writer, turns: seq<Turn>)
    requires Sized(turns, 0) && turns != [] && turns[0].ReadTurn? && Sized(turns[1..], 0)
    requires ReadKeeps(id, s, turns[0].size) && (w.directWrite ==> ReadsAlike(s, turns[0].size))
    requires var (s1, o) := ReadCall(id, s, turns[0].size);
             && (o.Data? ==> Owed(id, s) == o.data + Owed(id, s1))
             && (o.Eof? ==> Owed(id, s) == [])
             && (o.Data? ==> TurnsKeep(id, s1, w.(filter := s1.filter), turns[1..]))
    ensures TurnsKeep(id, s, w, turns)
  {
    var (s1, o) := ReadCall(id, s, turns[0].size);
    CrossedCallIff(id, s, turns[0].size);
    if LegalWrites(turns) {
      LegalRest(turns);
    }
    if o.Data? {
      var (s2, w2, data, stop) := TakeTurns(id, s1, w.(filter := s1.filter), turns[1..]);
      PrefixBehind(o.data, data, Owed(id, s1));
      if stop == None {
        Associate(o.data, data, Owed(id, s2));
      }
    }
  }

  lemma PrefixBehind(front: bytes, a: bytes, b: bytes)
    requires a <= b
    ensures front + a <= front + b
  {
  }

  /** What the run theorem assumes of a state and the turns to come. */
  predicate Ready(id: Uuid, s: Stream, w: W.Writer, turns: seq<Turn>, max: nat) {
    Good(id, s) && Bounded(s.conn, max) && Sized(turns, CHUNK_SIZE + 1) && Sized(turns, max) && Orderly(id, s, w, turns)
  }

  lemma SizedRest(turns: seq<Turn>, least: nat)
    requires turns != [] && Sized(turns, least)
    ensures Sized(turns[1..], least)
  {
    assert forall i :: 0 <= i < |turns| - 1 ==> turns[1..][i] == turns[i + 1];
  }

  lemma ReadyBehindWrite(id: Uuid, s: Stream, w: W.Writer, turns: seq<Turn>, max: nat)
    requires turns != [] && turns[0].WriteTurn? && Ready(id, s, w, turns, max)
    ensures var t := turns[0];
            var w1 := W.WriteStep(w.(filter := s.filter), t.p, t.beyond, t.d0, t.d1).next;
            w1.filter.panicked || Ready(id, s.(filter := w1.filter), w1, turns[1..], max)
  {
    SizedRest(turns, CHUNK_SIZE + 1);
    SizedRest(turns, max);
    var t := turns[0];
    WriteKeepsStream(id, s, W.WriteStep(w.(filter := s.filter), t.p, t.beyond, t.d0, t.d1).next.filter);
  }

  lemma ReadyBehindRead(id: Uuid, s: Stream, w: W.Writer, turns: seq<Turn>, max: nat)
    requires turns != [] && turns[0].ReadTurn? && Ready(id, s, w, turns, max)
    ensures (w.directWrite ==> ReadsAlike(s, turns[0].size)) && ReadKeeps(id, s, turns[0].size)
    ensures var (s1, o) := ReadCall(id, s, turns[0].size);
            && (o.Data? ==> Owed(id, s) == o.data + Owed(id, s1) && Ready(id, s1, w.(filter := s1.filter), turns[1..], max))
            && (o.Eof? ==> Owed(id, s) == [])
  {
    SizedRest(turns, CHUNK_SIZE + 1);
    SizedRest(turns, max);
    OneRead(id, s, turns[0].size, max);
  }

  /** Over every run of turns: what was delivered is a prefix of what is owed, and all of it at end of file; no command
      is unknown; with legal session ids nothing panics, and then enough reads reach the end of file. */
  lemma {:induction false} TurnsDeliver(id: Uuid, s: Stream, w: W.Writer, turns: seq<Turn>, max: nat)
    requires Ready(id, s, w, turns, max)
    ensures TurnsKeep(id, s, w, turns)
    decreases |turns|
  {
    if turns != [] {
      match turns[0] {
        case WriteTurn(p, beyond, d0, d1) =>
          ReadyBehindWrite(id, s, w, turns, max);
          var w1 := W.WriteStep(w.(filter := s.filter), p, beyond, d0, d1).next;
          if !w1.filter.panicked {
            TurnsDeliver(id, s.(filter := w1.filter), w1, turns[1..], max);
          }
          WriteTurnKeeps(id, s, w, turns);
        case ReadTurn(size) =>
          ReadyBehindRead(id, s, w, turns, max);
          var (s1, o) := ReadCall(id, s, size);
          if o.Data? {
            TurnsDeliver(id, s1, w.(filter := s1.filter), turns[1..], max);
          }
          SizedRest(turns, 0);
          ReadTurnKeeps(id, s, w, turns);
      }
    }
  }

  /** The other case: once an end has switched itself, none of its reads touches the vision connection any more. What
      the peer has yet to send there has no influence on what is delivered, and so it is lost; hence the condition of
      `Orderly` on the order of turns. */
  lemma {:induction false} CrossedTurns(id: Uuid, s: Stream, w: W.Writer, turns: seq<Turn>, c: seq<bytes>)
    requires Sized(turns, 0) && w.directWrite && !w.isPadding
    ensures var (s', w', data, stop) := TakeTurns(id, s, w, turns);
            s'.conn == s.conn && TakeTurns(id, s.(conn := c), w, turns) == (s'.(conn := c), w', data, stop)
    decreases |turns|
  {
    if turns != [] {
      var rest := turns[1..];
      assert forall i :: 0 <= i < |rest| ==> rest[i] == turns[i + 1];
      match turns[0] {
        case WriteTurn(p, beyond, d0, d1) =>
          var w1 := W.WriteStep(w.(filter := s.filter), p, beyond, d0, d1).next;
          if !w1.filter.panicked {
            CrossedTurns(id, s.(filter := w1.filter), w1, rest, c);
          }
        case ReadTurn(size) =>
          CrossedIgnoresConn(id, s, c, size);
          var (s1, o) := CrossedCall(id, s, size);
          if o.Data? {
            CrossedTurns(id, s1, w.(filter := s1.filter), rest, c);
          }
      }
    }
  }

  /** One byte the peer has sent padded, and an own Direct write before it is read: the read reports the end of file. */
  lemma CrossedLoses(id: Uuid, memory: nat -> Backing, w: W.Writer, size: nat)
    requires w.directWrite && size > 0
    ensures var s := Fresh([id + [0, 0, 1, 0, 0, 7]], [], [], [], memory);
            var (s', w', data, stop) := TakeTurns(id, s, w, [ReadTurn(size)]);
            Good(id, s) && Owed(id, s) == [7] && data == [] && stop == Some(Eof)
  {
    var f := Frame(CONTINUE, [7], 0);
    var s := Fresh([id + [0, 0, 1, 0, 0, 7]], [], [], [], memory);
    assert EncodeFrame(f) == [0, 0, 1, 0, 0, 7] && EncodeFrames([f]) == EncodeFrame(f) + [];
    assert EncodeFrames([f]) + [] == [0, 0, 1, 0, 0, 7];
    FlattenOne(s.conn[0]);
    assert Contents([f]) == [7] + [];
    OneChunkFriendly(id, f);
    FreshIsGood(id, [f], [], s);
    CrossedStarves(id, s, size);
  }

  /** One whole Continue frame behind the UUID in one segment. */
  lemma OneChunkFriendly(id: Uuid, f: Frame)
    requires f.command == CONTINUE && Fits(f)
    ensures Friendly(id, [id + EncodeFrame(f)])
  {
    var b := EncodeFrame(f);
    assert (id + b)[..16] == id && (id + b)[16..] == b && Stripped([id + b]) == [b];
    OneChunkUncut(f);
    var one: seq<bytes> := [b];
    assert one[1..] == [];
  }

  lemma OneChunkUncut(f: Frame)
    requires f.command == CONTINUE && Fits(f)
    ensures var b := EncodeFrame(f); !CutsHeader(START, b) && Drain(START, b).cursor == Cursor(0, 0, CONTINUE)
  {
    DrainFrame(START, f, []);
    assert EncodeFrame(f) + [] == EncodeFrame(f);
  }

  // ---- reads only -----------------------------------------------------------------------------

  /** A number of reads with room for `size` bytes each. */
  function Reads(times: nat, size: nat): (r: seq<Turn>)
    requires size > 0
    ensures Sized(r, 0)
  {
    if times == 0 then [] else [ReadTurn(size)] + Reads(times - 1, size)
  }

  lemma {:induction false} ReadsAreCounted(times: nat, size: nat)
    requires size > 0
    ensures ReadCount(Reads(times, size)) == times
    decreases times
  {
    if times > 0 {
      var rest := Reads(times - 1, size);
      ReadsAreCounted(times - 1, size);
      CountOneMore(ReadTurn(size), rest);
    }
  }

  lemma CountOneMore(turn: Turn, rest: seq<Turn>)
    requires turn.ReadTurn?
    ensures ReadCount([turn] + rest) == 1 + ReadCount(rest)
  {
    assert ([turn] + rest)[1..] == rest;
  }

  /** The same turns, with the bytes delivered so far passed on. */
  function ReadsOn(id: Uuid, s: Stream, w: W.Writer, times: nat, size: nat, data: bytes): (Stream, W.Writer, bytes, Option<Outcome>)
    requires size > 0
    decreases times
  {
    if times == 0 then (s, w, data, None)
    else
      var (s1, o) := CallOn(id, s, w.directWrite, size);
      if o.Data? then ReadsOn(id, s1, w.(filter := s1.filter), times - 1, size, data + o.data)
      else (s1, w.(filter := s1.filter), data, Some(o))
  }

  lemma OneMoreRead(id: Uuid, s: Stream, w: W.Writer, times: nat, size: nat, data: bytes, s1: Stream, o: Outcome)
    requires size > 0 && (s1, o) == CallOn(id, s, w.directWrite, size)
    ensures ReadsOn(id, s, w, times + 1, size, data) ==
              if o.Data? then ReadsOn(id, s1, w.(filter := s1.filter), times, size, data + o.data)
              else (s1, w.(filter := s1.filter), data, Some(o))
  {
  }

  lemma {:induction false} ReadsAreTurns(id: Uuid, s: Stream, w: W.Writer, times: nat, size: nat, data: bytes)
    requires size > 0
    ensures var (s', w', d, stop) := TakeTurns(id, s, w, Reads(times, size));
            ReadsOn(id, s, w, times, size, data) == (s', w', data + d, stop)
    decreases times
  {
    assert data + [] == data;
    if times > 0 {
      var (s1, o) := CallOn(id, s, w.directWrite, size);
      assert Reads(times, size)[1..] == Reads(times - 1, size);
      if o.Data? {
        var w1 := w.(filter := s1.filter);
        ReadsAreTurns(id, s1, w1, times - 1, size, data + o.data);
        Associate(data, o.data, TakeTurns(id, s1, w1, Reads(times - 1, size)).2);
      }
    }
  }

  /** The parts of a run's output as the reader sees them. */
  lemma RunParts(id: Uuid, es: seq<W.Event>)
    requires W.RunFrom(W.NOTHING, es).frames != []
    ensures var t := W.RunFrom(W.NOTHING, es);
            && t.uuids == 1 && t.Wire(id) == id + (EncodeFrames(t.frames) + t.tail)
            && Chain(t.frames) && W.ShortPaddings(t.frames) && (t.tail != [] ==> LastCommand(t.frames) == END)
            && t.inputs == Contents(t.frames) + t.tail + if LastCommand(t.frames) == DIRECT then t.raw else []
  {
    var t := W.RunFrom(W.NOTHING, es);
    W.RunInv(es);
    assert LastCommand(t.frames) != DIRECT ==> t.raw == [];
  }

  /** A fresh reader with a friendly segmentation of a chain of frames is in a good state, and owes what they carry. */
  lemma FreshIsGood(id: Uuid, fs: seq<Frame>, tail: bytes, s: Stream)
    requires fs != [] && Chain(fs) && AllFit(fs) && (tail != [] ==> LastCommand(fs) == END)
    requires s == Fresh(s.conn, s.raw, s.input, s.rawIn, s.memory)
    requires Friendly(id, s.conn) && Flatten(s.conn) == id + (EncodeFrames(fs) + tail)
    ensures Good(id, s)
    ensures Owed(id, s) == Contents(fs) + tail + if LastCommand(fs) == DIRECT then AfterSwitch(s) else []
  {
    StripUuid(id, s.conn, EncodeFrames(fs) + tail);
    DrainFrames(START, fs, tail);
    assert OpeningGood(id, s);
    GoodFuture(id, s);
    ReadDelivers(id, fs, tail, s);
  }

  /** From one application to the other: the peer of a connection takes turns reading and writing, and its reads
      deliver, in order, exactly what the application at this end wrote, between whatever was read here; the bytes sent
      raw reach it through the uTLS buffers and the raw connection. With legal session ids it reads on until it has
      everything. */
  lemma EndToEnd(id: Uuid, es: seq<W.Event>, s: Stream, turns: seq<Turn>, max: nat)
    requires var t := W.RunFrom(W.NOTHING, es);
             && t.frames != [] && W.AllSurvive(t.frames)
             && t.uuids <= 1 && Flatten(s.conn) == t.Wire(id)
             && AfterSwitch(s) == t.raw
    requires s == Fresh(s.conn, s.raw, s.input, s.rawIn, s.memory) && Friendly(id, s.conn) && Bounded(s.conn, max)
    requires Sized(turns, CHUNK_SIZE + 1) && Sized(turns, max) && Orderly(id, s, W.FRESH, turns)
    ensures var inputs := W.RunFrom(W.NOTHING, es).inputs;
            var (s', w', data, stop) := TakeTurns(id, s, W.FRESH, turns);
            && data <= inputs
            && (stop == None ==> inputs == data + Owed(id, s'))
            && (stop == None || stop == Some(Eof) || stop == Some(Panic))
            && (stop == Some(Eof) ==> data == inputs)
            && (Legal(id, s) && LegalWrites(turns) ==>
                  stop != Some(Panic) && (ReadCount(turns) > Left(s) ==> stop == Some(Eof) && data == inputs))
  {
    var t := W.RunFrom(W.NOTHING, es);
    RunParts(id, es);
    var fs, tail := W.FittingChain(t.frames, t.tail);
    FreshIsGood(id, fs, tail, s);
    TurnsDeliver(id, s, W.FRESH, turns, max);
  }
}
