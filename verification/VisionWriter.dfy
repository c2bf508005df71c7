/** The sending half of a vision connection: what every run of writes puts on the wire. */
module VisionWriter {
  import opened Bytes
  import opened VisionWire
  import opened VisionDecode
  import F = VisionFilter

  /** The two random numbers `padding` may draw for one buffer; it uses one of them. */
  datatype Dice = Dice(short: nat, long: nat)
  type Draw = d: Dice | d.short < 256 && d.long < 500 witness Dice(0, 0)

  function PaddingLen(isTLS: bool, contentLen: nat, d: Draw): nat {
    if contentLen < 900 && isTLS then d.long + 900 - contentLen else d.short
  }

  /** The greatest position below `from` at which `pattern` stands, or -1. */
  function LastIndex(s: bytes, pattern: bytes, from: nat): (i: int)
    ensures -1 <= i < from
    ensures i >= 0 ==> At(s, i, pattern)
    ensures forall j :: i < j < from ==> !At(s, j, pattern)
  {
    if from == 0 then -1
    else if At(s, from - 1, pattern) then from - 1
    else LastIndex(s, pattern, from - 1)
  }

  function SplitPoint(b: bytes): (k: nat)
    requires |b| >= 8171
    ensures 0 < k < |b|
  {
    var i := LastIndex(b, F.APPLICATION_DATA, |b|);
    if i <= 0 then 4096 else i
  }

  /** `reshapeBuffer`: one or two pieces. */
  function Reshape(b: bytes): (pieces: seq<bytes>)
    ensures 1 <= |pieces| <= 2 && Flatten(pieces) == b
  {
    if |b| < 8171 then
      FlattenOne(b);
      [b]
    else
      var k := SplitPoint(b);
      assert [b[..k], b[k..]][1..] == [b[k..]];
      FlattenOne(b[k..]);
      [b[..k], b[k..]]
  }

  datatype Writer = Writer(filter: F.Filter, isPadding: bool, directWrite: bool, writeUUID: bool)

  const FRESH := Writer(F.FRESH, true, false, true)

  /** What one write adds: the UUID, padded frames, unpadded bytes on the same layer, bytes on the raw connection. */
  datatype Sent = Sent(next: Writer, uuid: bool, frames: seq<Frame>, tail: bytes, raw: bytes) {
    /** The bytes given to the vision layer. */
    function Wire(id: Uuid): bytes {
      (if uuid then id else []) + EncodeFrames(frames) + tail
    }
  }

  function PadFrame(w: Writer, b: bytes, command: byte, d: Draw): Frame {
    Frame(command, b, PaddingLen(w.filter.isTLS, |b|, d))
  }

  predicate IsApplicationData(b: bytes) {
    |b| > 6 && b[..3] == F.APPLICATION_DATA
  }

  /** The command a piece is padded with: Direct or End for TLS application data, End for a stream that has
      shown no TLS in its first packets, and Continue otherwise. */
  function CommandFor(f: F.Filter, b: bytes): byte {
    if f.isTLS && IsApplicationData(b) then (if f.xtls then DIRECT else END)
    else if !f.tls12 && f.packets <= 1 then END
    else CONTINUE
  }

  /** The padding loop over the pieces of one write: what follows an End or Direct piece goes unpadded. */
  function Emit(w: Writer, pieces: seq<bytes>, draws: seq<Draw>): Sent
    requires |draws| >= |pieces|
    decreases |pieces|
  {
    if pieces == [] then
      Sent(w, false, [], [], [])
    else
      var command := CommandFor(w.filter, pieces[0]);
      var f := PadFrame(w, pieces[0], command, draws[0]);
      var rest := Flatten(pieces[1..]);
      if command == CONTINUE then
        var more := Emit(w.(writeUUID := false), pieces[1..], draws[1..]);
        more.(uuid := w.writeUUID, frames := [f] + more.frames)
      else
        Sent(w.(isPadding := false, writeUUID := false, directWrite := w.directWrite || command == DIRECT), w.writeUUID,
             [f], if command == END then rest else [], if command == DIRECT then rest else [])
  }

  /** What is left of a padding loop behind the frames it has already produced. */
  ghost predicate Joins(s: Sent, frames: seq<Frame>, e: Sent) {
    s.next == e.next && s.frames == frames + e.frames && s.tail == e.tail && s.raw == e.raw
  }

  /** One turn of the padding loop. */
  lemma EmitUnfold(w: Writer, pieces: seq<bytes>, draws: seq<Draw>)
    requires 0 < |pieces| <= |draws|
    ensures var command := CommandFor(w.filter, pieces[0]);
            var frame := PadFrame(w, pieces[0], command, draws[0]);
            var s := Emit(w, pieces, draws);
            && s.uuid == w.writeUUID
            && if command == CONTINUE then
                 var e := Emit(w.(writeUUID := false), pieces[1..], draws[1..]);
                 s.next == e.next && s.frames == [frame] + e.frames && s.tail == e.tail && s.raw == e.raw
               else
                 && s.frames == [frame] && s.tail + s.raw == Flatten(pieces[1..])
                 && s.next == w.(isPadding := false, writeUUID := false, directWrite := w.directWrite || command == DIRECT)
                 && (if command == DIRECT then s.tail == [] else s.raw == [])
  {
  }

  lemma EmitNothing(w: Writer, pieces: seq<bytes>, draws: seq<Draw>)
    requires pieces == []
    ensures Emit(w, pieces, draws) == Sent(w, false, [], [], [])
  {
  }

  lemma JoinMore(s: Sent, frames: seq<Frame>, e: Sent, f: Frame, more: Sent)
    requires Joins(s, frames, e) && e.frames == [f] + more.frames
    requires e.next == more.next && e.tail == more.tail && e.raw == more.raw
    ensures Joins(s, frames + [f], more)
  {
    assert frames + ([f] + more.frames) == (frames + [f]) + more.frames;
  }

  lemma EmitStep(s: Sent, frames: seq<Frame>, w: Writer, pieces: seq<bytes>, draws: seq<Draw>, i: nat)
    requires i < |pieces| <= |draws| && Joins(s, frames, Emit(w, pieces[i..], draws[i..]))
    ensures var command := CommandFor(w.filter, pieces[i]);
            var frame := PadFrame(w, pieces[i], command, draws[i]);
            if command == CONTINUE then
              Joins(s, frames + [frame], Emit(w.(writeUUID := false), pieces[i + 1..], draws[i + 1..]))
            else
              && s.frames == frames + [frame] && s.tail + s.raw == Flatten(pieces[i + 1..])
              && s.next == w.(isPadding := false, writeUUID := false, directWrite := w.directWrite || command == DIRECT)
              && (if command == DIRECT then s.tail == [] else s.raw == [])
  {
    var ps, ds := pieces[i..], draws[i..];
    assert ps[0] == pieces[i] && ps[1..] == pieces[i + 1..];
    assert ds[0] == draws[i] && ds[1..] == draws[i + 1..];
    EmitUnfold(w, ps, ds);
    var command := CommandFor(w.filter, pieces[i]);
    if command == CONTINUE {
      JoinMore(s, frames, Emit(w, ps, ds), PadFrame(w, pieces[i], command, draws[i]),
               Emit(w.(writeUUID := false), pieces[i + 1..], draws[i + 1..]));
    }
  }

  /** The padding loop leaves the filter alone. */
  lemma {:induction false} EmitKeepsFilter(w: Writer, pieces: seq<bytes>, draws: seq<Draw>)
    requires |draws| >= |pieces|
    ensures Emit(w, pieces, draws).next.filter == w.filter
    decreases |pieces|
  {
    if pieces != [] {
      EmitKeepsFilter(w.(writeUUID := false), pieces[1..], draws[1..]);
    }
  }

  function Sniff(f: F.Filter, s: F.Slice): F.Filter {
    if f.packets > 0 then F.Step(f, s) else f
  }

  /** One `Write(p)`, with what lies behind `p` up to its capacity. A panic inside the filter ends the process before anything is sent. */
  function WriteStep(w: Writer, p: bytes, beyond: bytes, d0: Draw, d1: Draw): Sent {
    Deliver(Sniffed(w, p, beyond), p, d0, d1)
  }

  function Sniffed(w: Writer, p: bytes, beyond: bytes): Writer {
    w.(filter := Sniff(w.filter, F.Slice(p, beyond)))
  }

  /** What a write does once the filter has seen its bytes. */
  function Deliver(w: Writer, p: bytes, d0: Draw, d1: Draw): Sent {
    if w.filter.panicked then Sent(w, false, [], [], [])
    else if w.isPadding then Emit(w, Reshape(p), [d0, d1])
    else if w.directWrite then Sent(w, false, [], [], p)
    else Sent(w, false, [], p, [])
  }

  // ---- runs -------------------------------------------------------------------

  /** The application writes, or the reading half hands decoded buffers to the shared filter. */
  datatype Event = App(p: bytes, beyond: bytes, d0: Draw, d1: Draw) | Peer(slices: seq<F.Slice>)

  datatype Trace = Trace(writer: Writer, uuids: nat, frames: seq<Frame>, tail: bytes, raw: bytes,
                         inputs: bytes, fed: seq<F.Slice>) {
    /** Everything the vision layer was given, in order. */
    function Wire(id: Uuid): bytes
      requires uuids <= 1
    {
      (if uuids == 1 then id else []) + EncodeFrames(frames) + tail
    }
  }

  const NOTHING := Trace(FRESH, 0, [], [], [], [], [])

  function Next(t: Trace, e: Event): Trace {
    if t.writer.filter.panicked then t
    else match e
      case App(p, beyond, d0, d1) =>
        var s := WriteStep(t.writer, p, beyond, d0, d1);
        var fed := if t.writer.filter.packets > 0 then t.fed + [F.Slice(p, beyond)] else t.fed;
        if s.next.filter.panicked then t.(writer := s.next, fed := fed)
        else Trace(s.next, t.uuids + (if s.uuid then 1 else 0), t.frames + s.frames,
                   t.tail + s.tail, t.raw + s.raw, t.inputs + p, fed)
      case Peer(slices) =>
        if t.writer.filter.packets > 0 then
          t.(writer := t.writer.(filter := FeedAll(t.writer.filter, slices)), fed := t.fed + slices)
        else t
  }

  function FeedAll(f: F.Filter, slices: seq<F.Slice>): F.Filter
    decreases |slices|
  {
    if slices == [] then f else FeedAll(F.Step(f, slices[0]), slices[1..])
  }

  function RunFrom(t: Trace, es: seq<Event>): Trace
    decreases |es|
  {
    if es == [] then t else RunFrom(Next(t, es[0]), es[1..])
  }

  // ---- what every run keeps ---------------------------------------------------

  predicate AllContinue(fs: seq<Frame>) {
    forall i :: 0 <= i < |fs| ==> fs[i].command == CONTINUE
  }

  predicate ShortPaddings(fs: seq<Frame>) {
    forall i :: 0 <= i < |fs| ==> fs[i].padding <= 1399
  }

  /** The shape of what was sent: the UUID first and once, Continue frames, then at most one End or Direct. */
  predicate Shape(w: Writer, uuids: nat, frames: seq<Frame>, tail: bytes, raw: bytes) {
    && uuids == (if w.writeUUID then 0 else 1)
    && ShortPaddings(frames)
    && Chain(frames)
    && (frames == [] <==> w.writeUUID)
    && (w.isPadding ==> AllContinue(frames) && tail == [] && raw == [] && !w.directWrite)
    && (!w.isPadding ==> LastCommand(frames) == (if w.directWrite then DIRECT else END))
    && (!w.isPadding ==> frames != [])
    && (if w.directWrite then tail == [] else raw == [])
    && (w.directWrite ==> w.filter.xtls)
  }

  predicate Inv(t: Trace) {
    && Shape(t.writer, t.uuids, t.frames, t.tail, t.raw)
    && Contents(t.frames) + t.tail + t.raw == t.inputs
    && t.writer.filter == F.Run(F.FRESH, t.fed)
  }

  /** What one padding loop over non-empty `pieces` produces. */
  predicate EmissionShape(w: Writer, s: Sent, p: bytes) {
    && s.next.filter == w.filter && s.uuid == w.writeUUID && !s.next.writeUUID
    && s.frames != [] && ShortPaddings(s.frames) && Chain(s.frames)
    && (s.next.isPadding ==> AllContinue(s.frames) && s.tail == [] && s.raw == [] && !s.next.directWrite)
    && (!s.next.isPadding ==> LastCommand(s.frames) == (if s.next.directWrite then DIRECT else END))
    && (if s.next.directWrite then s.tail == [] else s.raw == [])
    && (s.next.directWrite ==> w.filter.xtls)
    && Contents(s.frames) + s.tail + s.raw == p
  }

  lemma LastPiece(w: Writer, s: Sent, f: Frame, rest: bytes)
    requires w.isPadding && !w.directWrite && f.padding <= 1399
    requires s.frames == [f] && s.uuid == w.writeUUID && s.tail + s.raw == rest
    requires f.command == CONTINUE ==> s.next == w.(writeUUID := false) && rest == []
    requires f.command != CONTINUE ==>
               && s.next == w.(isPadding := false, writeUUID := false, directWrite := w.directWrite || f.command == DIRECT)
               && (f.command == END || (f.command == DIRECT && w.filter.xtls))
    requires if f.command == DIRECT then s.tail == [] else s.raw == []
    ensures EmissionShape(w, s, f.content + rest)
  {
    assert [f][1..] == [];
    assert Contents([f]) == f.content + [];
  }

  lemma OnePieceMore(w: Writer, s: Sent, e: Sent, f: Frame, rest: bytes)
    requires EmissionShape(w.(writeUUID := false), e, rest) && f.command == CONTINUE && f.padding <= 1399
    requires s == e.(uuid := w.writeUUID, frames := [f] + e.frames)
    ensures EmissionShape(w, s, f.content + rest)
  {
    assert s.frames[1..] == e.frames;
    assert LastCommand(s.frames) == LastCommand(e.frames);
    assert forall i :: 0 < i < |s.frames| ==> s.frames[i] == e.frames[i - 1];
  }

  /** One padding loop, started on a connection that is still padding. */
  lemma {:induction false} EmitShape(w: Writer, pieces: seq<bytes>, draws: seq<Draw>)
    requires 0 < |pieces| <= |draws| && w.isPadding && !w.directWrite
    ensures EmissionShape(w, Emit(w, pieces, draws), Flatten(pieces))
    decreases |pieces|
  {
    var f := PadFrame(w, pieces[0], CommandFor(w.filter, pieces[0]), draws[0]);
    if f.command == CONTINUE && |pieces| > 1 {
      EmitShape(w.(writeUUID := false), pieces[1..], draws[1..]);
      OnePieceMore(w, Emit(w, pieces, draws), Emit(w.(writeUUID := false), pieces[1..], draws[1..]), f, Flatten(pieces[1..]));
    } else {
      EmitUnfold(w, pieces, draws);
      if |pieces| == 1 {
        assert pieces[1..] == [];
      }
      LastPiece(w, Emit(w, pieces, draws), f, Flatten(pieces[1..]));
    }
  }

  lemma {:induction false} FeedAllIsRun(fed: seq<F.Slice>, buffers: seq<F.Slice>)
    ensures FeedAll(F.Run(F.FRESH, fed), buffers) == F.Run(F.FRESH, fed + buffers)
    decreases |buffers|
  {
    if buffers == [] {
      assert fed + buffers == fed;
    } else {
      var fed1 := fed + [buffers[0]];
      assert fed1[..|fed1| - 1] == fed;
      assert fed1 + buffers[1..] == fed + buffers;
      FeedAllIsRun(fed1, buffers[1..]);
    }
  }

  lemma SniffKeepsXtls(f: F.Filter, b: F.Slice)
    ensures f.xtls ==> Sniff(f, b).xtls
  {
  }

  lemma {:induction false} FeedAllKeepsXtls(f: F.Filter, buffers: seq<F.Slice>)
    ensures f.xtls ==> FeedAll(f, buffers).xtls
    decreases |buffers|
  {
    if buffers != [] {
      FeedAllKeepsXtls(F.Step(f, buffers[0]), buffers[1..]);
    }
  }

  /** Appending what one padding loop sent keeps the shape and the content. */
  lemma AppendEmission(t: Trace, s: Sent, p: bytes)
    requires Shape(t.writer, t.uuids, t.frames, t.tail, t.raw) && t.writer.isPadding
    requires Contents(t.frames) + t.tail + t.raw == t.inputs
    requires EmissionShape(t.writer.(filter := s.next.filter), s, p)
    ensures Shape(s.next, t.uuids + (if s.uuid then 1 else 0), t.frames + s.frames, t.tail + s.tail, t.raw + s.raw)
    ensures Contents(t.frames + s.frames) + (t.tail + s.tail) + (t.raw + s.raw) == t.inputs + p
  {
    EncodeAppend(t.frames, s.frames);
    AppendChain(t.frames, s.frames);
    assert t.tail + s.tail == s.tail && t.raw + s.raw == s.raw;
    AppendContents(Contents(t.frames), Contents(s.frames), s.tail, s.raw);
  }

  lemma AppendContents(x: bytes, y: bytes, tail: bytes, raw: bytes)
    ensures (x + y) + tail + raw == (x + [] + []) + (y + tail + raw)
  {
  }

  lemma AppendChain(a: seq<Frame>, b: seq<Frame>)
    requires AllContinue(a) && Chain(b) && b != [] && ShortPaddings(a) && ShortPaddings(b)
    ensures Chain(a + b) && ShortPaddings(a + b) && LastCommand(a + b) == LastCommand(b)
    ensures AllContinue(b) ==> AllContinue(a + b)
  {
  }

  lemma SniffIsRun(fed: seq<F.Slice>, p: F.Slice)
    ensures var f := F.Run(F.FRESH, fed);
            Sniff(f, p) == F.Run(F.FRESH, if f.packets > 0 then fed + [p] else fed)
  {
    assert (fed + [p])[..|fed + [p]| - 1] == fed;
  }

  /** A write after the last padded frame. */
  lemma AppendPlain(t: Trace, f: F.Filter, tail: bytes, raw: bytes)
    requires Inv(t) && !t.writer.isPadding && (t.writer.filter.xtls ==> f.xtls)
    requires if t.writer.directWrite then tail == [] else raw == []
    ensures Shape(t.writer.(filter := f), t.uuids, t.frames, t.tail + tail, t.raw + raw)
    ensures Contents(t.frames) + (t.tail + tail) + (t.raw + raw) == t.inputs + (tail + raw)
  {
    if t.writer.directWrite {
      assert t.tail + tail == t.tail && tail + raw == raw;
    } else {
      assert t.raw + raw == [] && t.raw == [] && tail + raw == tail;
    }
  }

  lemma NextKeepsInv(t: Trace, e: Event)
    requires Inv(t)
    ensures Inv(Next(t, e))
  {
    if !t.writer.filter.panicked {
      match e {
        case App(p, beyond, d0, d1) => WriteKeepsInv(t, p, beyond, d0, d1);
        case Peer(slices) =>
          FeedAllIsRun(t.fed, slices);
          FeedAllKeepsXtls(t.writer.filter, slices);
      }
    }
  }

  lemma WriteKeepsInv(t: Trace, p: bytes, beyond: bytes, d0: Draw, d1: Draw)
    requires Inv(t) && !t.writer.filter.panicked
    ensures Inv(Next(t, App(p, beyond, d0, d1)))
  {
    var s := WriteStep(t.writer, p, beyond, d0, d1);
    var w1 := t.writer.(filter := Sniff(t.writer.filter, F.Slice(p, beyond)));
    SniffIsRun(t.fed, F.Slice(p, beyond));
    SniffKeepsXtls(t.writer.filter, F.Slice(p, beyond));
    if w1.filter.panicked {
    } else if t.writer.isPadding {
      EmitShape(w1, Reshape(p), [d0, d1]);
      AppendEmission(t, s, p);
    } else {
      assert t.frames + [] == t.frames && s.tail + s.raw == p;
      AppendPlain(t, w1.filter, s.tail, s.raw);
    }
  }

  lemma {:induction false} RunKeepsInv(t: Trace, es: seq<Event>)
    requires Inv(t)
    ensures Inv(RunFrom(t, es))
    decreases |es|
  {
    if es != [] {
      NextKeepsInv(t, es[0]);
      RunKeepsInv(Next(t, es[0]), es[1..]);
    }
  }

  lemma RunInv(es: seq<Event>)
    ensures Inv(RunFrom(NOTHING, es))
  {
    assert F.Run(F.FRESH, []) == F.FRESH;
    RunKeepsInv(NOTHING, es);
  }

  /** Over every run the wire is the UUID, Continue frames, and at most one End or Direct frame;
      raw bytes and unpadded bytes only follow such a frame, and never both. */
  lemma SwitchSafety(es: seq<Event>)
    ensures var t := RunFrom(NOTHING, es);
            && t.uuids <= 1 && (t.frames != [] ==> t.uuids == 1)
            && (forall i :: 0 <= i < |t.frames| - 1 ==> t.frames[i].command == CONTINUE)
            && (t.tail != [] ==> LastCommand(t.frames) == END)
            && (t.raw != [] ==> LastCommand(t.frames) == DIRECT)
            && (LastCommand(t.frames) == DIRECT ==> F.Tls13Seen(t.fed) && F.AllowedCipherTaken(t.fed))
            && (LastCommand(t.frames) == DIRECT && F.AllKeepCiphers(t.fed) ==> F.AllowedCipherSeen(t.fed))
  {
    RunInv(es);
    var fed := RunFrom(NOTHING, es).fed;
    F.XtlsNeedsEvidence(fed);
    if F.AllKeepCiphers(fed) {
      F.XtlsNeedsAnnouncement(fed);
    }
  }

  /** No piece the padding loop may be given is longer than the 16-bit length field can say. */
  predicate PiecesFit(e: Event) {
    e.App? ==> forall i :: 0 <= i < |Reshape(e.p)| ==> |Reshape(e.p)[i]| <= 65535
  }

  lemma {:induction false} EmitFits(w: Writer, pieces: seq<bytes>, draws: seq<Draw>)
    requires |draws| >= |pieces|
    requires forall i :: 0 <= i < |pieces| ==> |pieces[i]| <= 65535
    ensures AllFit(Emit(w, pieces, draws).frames)
    decreases |pieces|
  {
    if pieces != [] {
      EmitFits(w.(writeUUID := false), pieces[1..], draws[1..]);
    }
  }

  lemma {:induction false} RunFits(t: Trace, es: seq<Event>)
    requires AllFit(t.frames)
    requires forall i :: 0 <= i < |es| ==> PiecesFit(es[i])
    ensures AllFit(RunFrom(t, es).frames)
    decreases |es|
  {
    if es != [] {
      var e := es[0];
      assert PiecesFit(e);
      if e.App? {
        EmitFits(t.writer.(filter := Sniff(t.writer.filter, F.Slice(e.p, e.beyond))), Reshape(e.p), [e.d0, e.d1]);
      }
      RunFits(Next(t, e), es[1..]);
    }
  }

  /** The registers of a decoder that took the whole wire in one chunk. */
  function Decode(id: Uuid, wire: bytes): Drained {
    UnPad(id, OUTSIDE, wire)
  }

  predicate AllSurvive(fs: seq<Frame>) {
    forall i :: 0 <= i < |fs| ==> Survives(fs[i])
  }

  /** After every frame, what the decoder has made of the stream so far is what was written so far. */
  predicate EveryPrefixDecodes(fs: seq<Frame>) {
    forall k :: 1 <= k <= |fs| ==> PrefixDecodes(fs, k)
  }

  predicate PrefixDecodes(fs: seq<Frame>, k: nat)
    requires k <= |fs|
  {
    Drain(START, EncodeFrames(fs[..k])).Bytes() == Contents(fs[..k])
  }

  /** Continue frames that fit are decoded to their contents, and then the decoder is where it started. */
  lemma {:induction false} DrainContinues(fs: seq<Frame>, rest: bytes)
    requires AllContinue(fs) && AllFit(fs)
    ensures Sum(START, EncodeFrames(fs) + rest) == Sum(START, rest).Behind(Contents(fs))
    decreases |fs|
  {
    if fs == [] {
      assert EncodeFrames(fs) + rest == rest;
      NothingBehind(Sum(START, rest));
    } else {
      DrainContinues(fs[1..], rest);
      DrainFrame(START, fs[0], EncodeFrames(fs[1..]) + rest);
      Associate(EncodeFrame(fs[0]), EncodeFrames(fs[1..]), rest);
      BehindTwice(Sum(START, rest), fs[0].content, Contents(fs[1..]));
    }
  }

  /** Behind frames that fit, the next one decides. */
  lemma NextPrefixIff(fs: seq<Frame>, k: nat)
    requires 1 <= k <= |fs| && AllContinue(fs[..k - 1]) && AllFit(fs[..k - 1]) && fs[k - 1].padding <= 65535
    ensures PrefixDecodes(fs, k) <==> Survives(fs[k - 1])
  {
    var front, f := fs[..k - 1], fs[k - 1];
    assert fs[..k] == front + [f];
    EncodeSnoc(front, f);
    EncodeAppend(front, [f]);
    assert [f][1..] == [] && Contents([f]) == f.content + [] == f.content;
    DrainContinues(front, EncodeFrame(f));
    FrameRoundTripIff(f);
    SameBehind(Contents(front), Drain(START, EncodeFrame(f)).Bytes(), f.content);
  }

  lemma SameBehind(x: bytes, a: bytes, b: bytes)
    ensures x + a == x + b <==> a == b
  {
    if x + a == x + b {
      assert (x + a)[|x|..] == a && (x + b)[|x|..] == b;
    }
  }

  lemma SurvivingFit(fs: seq<Frame>, k: nat)
    requires Chain(fs) && k < |fs| && forall i :: 0 <= i < k ==> Survives(fs[i])
    requires ShortPaddings(fs)
    ensures AllContinue(fs[..k]) && AllFit(fs[..k])
  {
    assert forall i :: 0 <= i < k ==> fs[..k][i] == fs[i];
  }

  /** A chain of frames decodes, frame after frame, to what was written exactly when all its frames survive. */
  lemma ChainRoundTripIff(fs: seq<Frame>)
    requires Chain(fs) && ShortPaddings(fs)
    ensures EveryPrefixDecodes(fs) <==> AllSurvive(fs)
  {
    if EveryPrefixDecodes(fs) {
      PrefixesSurvive(fs, |fs|);
    }
    if AllSurvive(fs) {
      forall k | 1 <= k <= |fs|
        ensures PrefixDecodes(fs, k)
      {
        SurvivingFit(fs, k - 1);
        NextPrefixIff(fs, k);
      }
    }
  }

  lemma {:induction false} PrefixesSurvive(fs: seq<Frame>, k: nat)
    requires Chain(fs) && ShortPaddings(fs) && EveryPrefixDecodes(fs) && k <= |fs|
    ensures forall i :: 0 <= i < k ==> Survives(fs[i])
    decreases k
  {
    if k > 0 {
      PrefixesSurvive(fs, k - 1);
      SurvivingFit(fs, k - 1);
      NextPrefixIff(fs, k);
    }
  }

  /** With its raw tail, a chain of surviving frames decodes to contents and tail, and leaves the last command. */
  lemma SurvivingDecode(fs: seq<Frame>, tail: bytes)
    requires fs != [] && Chain(fs) && ShortPaddings(fs) && AllSurvive(fs) && (tail != [] ==> LastCommand(fs) == END)
    ensures var d := Drain(START, EncodeFrames(fs) + tail);
            d.Bytes() == Contents(fs) + tail && d.cursor == Cursor(0, 0, LastCommand(fs))
  {
    var n := |fs| - 1;
    var front, f := fs[..n], fs[n];
    SurvivingFit(fs, n);
    assert fs == front + [f];
    if |f.content| <= 65535 {
      assert AllFit(fs);
      DrainFrames(START, fs, tail);
    } else {
      LastFrame(front, f, tail);
      Associate(Contents(front), f.content, tail);
      DrainContinues(front, EncodeFrame(f) + tail);
      OversizeEnd(f, tail);
      OversizeFrame(f, tail);
      TailCursor((Overflow(f) + Repeat(0, f.padding))[f.padding..] + tail);
    }
  }

  /** The frame that an oversize frame's header claims. */
  function Claimed(f: Frame): Frame {
    Frame(f.command, f.content[..|f.content| % 65536], f.padding)
  }

  lemma ClaimedHeader(f: Frame)
    ensures Header(Claimed(f)) == Header(f)
  {
    U16Wraps(|f.content|);
  }

  /** An oversize End frame that survives is, on the wire, the frame it claims to be with the overflow in the raw tail. */
  lemma ClaimedWire(f: Frame, tail: bytes)
    requires f.padding <= 65535 && |f.content| > 65535 && f.command == END && Survives(f)
    ensures Fits(Claimed(f)) && EncodeFrame(f) + tail == EncodeFrame(Claimed(f)) + (Overflow(f) + tail)
    ensures Claimed(f).content + (Overflow(f) + tail) == f.content + tail
  {
    var n, over, zeros := |f.content| % 65536, Overflow(f), Repeat(0, f.padding);
    var x, all := f.content[..n], over + zeros;
    assert f.content == x + over;
    Associate(x, over, tail);
    OversizeBytes(f, tail);
    ShiftedIff(over, f.padding);
    ZerosInFront(over, f.padding);
    ClaimedHeader(f);
    Reassociate(Header(f), x, zeros, over + tail);
  }

  lemma ZerosInFront(over: bytes, p: nat)
    requires p == 0 || AllZero(over)
    ensures (over + Repeat(0, p))[..p] == Repeat(0, p)
  {
  }

  /** Every chain of surviving frames is, on the wire, a chain of fitting ones, with the overflow of the last in the tail. */
  lemma FittingChain(fs: seq<Frame>, tail: bytes) returns (gs: seq<Frame>, more: bytes)
    requires fs != [] && Chain(fs) && ShortPaddings(fs) && AllSurvive(fs) && (tail != [] ==> LastCommand(fs) == END)
    ensures gs != [] && Chain(gs) && AllFit(gs) && LastCommand(gs) == LastCommand(fs) && (more != [] ==> LastCommand(gs) == END)
    ensures EncodeFrames(gs) + more == EncodeFrames(fs) + tail && Contents(gs) + more == Contents(fs) + tail
  {
    var n := |fs| - 1;
    var front, f := fs[..n], fs[n];
    SurvivingFit(fs, n);
    assert fs == front + [f];
    if |f.content| <= 65535 {
      return fs, tail;
    }
    gs, more := front + [Claimed(f)], Overflow(f) + tail;
    ClaimedWire(f, tail);
    LastFrame(front, f, tail);
    LastFrame(front, Claimed(f), more);
  }

  lemma LastFrame(front: seq<Frame>, f: Frame, tail: bytes)
    ensures EncodeFrames(front + [f]) + tail == EncodeFrames(front) + (EncodeFrame(f) + tail)
    ensures Contents(front + [f]) + tail == Contents(front) + (f.content + tail)
  {
    EncodeSnoc(front, f);
    EncodeAppend(front, [f]);
    assert [f][1..] == [] && Contents([f]) == f.content + [] == f.content;
    Associate(EncodeFrames(front), EncodeFrame(f), tail);
    Associate(Contents(front), f.content, tail);
  }

  lemma TailCursor(rest: bytes)
    ensures Drain(Cursor(0, 0, END), rest).cursor == Cursor(0, 0, END)
  {
  }

  /** Decoding what went through the vision layer, followed by what went raw, gives back every byte written, for every
      run whose frames survive. */
  lemma RunRoundTrip(id: Uuid, es: seq<Event>)
    requires AllSurvive(RunFrom(NOTHING, es).frames)
    ensures var t := RunFrom(NOTHING, es);
            t.uuids <= 1 && Decode(id, t.Wire(id)).Bytes() + t.raw == t.inputs
    ensures var t := RunFrom(NOTHING, es);
            t.frames != [] ==> Decode(id, t.Wire(id)).cursor == Cursor(0, 0, LastCommand(t.frames))
  {
    var t := RunFrom(NOTHING, es);
    RunInv(es);
    if t.frames == [] {
      assert t.Wire(id) == [];
      FlattenOne<byte>([]);
    } else {
      WireOpens(id, t.frames, t.tail);
      SurvivingDecode(t.frames, t.tail);
    }
  }

  /** The frames of a run survive exactly when, after every frame of it, the peer could decode what was written so far. */
  lemma RunRoundTripIff(es: seq<Event>)
    ensures EveryPrefixDecodes(RunFrom(NOTHING, es).frames) <==> AllSurvive(RunFrom(NOTHING, es).frames)
  {
    RunInv(es);
    ChainRoundTripIff(RunFrom(NOTHING, es).frames);
  }

  /** Five times 65536 bytes that repeat the header of an empty End frame. */
  function Repeating(): (t: bytes)
    ensures |t| == 327680 && forall i :: 0 <= i < 327680 ==> t[i] == if i % 5 == 0 then 1 else 0
  {
    seq(327680, i => if i % 5 == 0 then 1 else 0)
  }

  lemma TwoFrames(f: Frame, g: Frame)
    ensures EncodeFrames([f, g]) == EncodeFrame(f) + EncodeFrame(g) && Contents([f, g]) == f.content + g.content
  {
    EncodeAppend([f], [g]);
    assert [f] + [g] == [f, g] && [f][1..] == [] && [g][1..] == [];
    assert EncodeFrames([f]) == EncodeFrame(f) + [] && EncodeFrames([g]) == EncodeFrame(g) + [];
    assert Contents([f]) == f.content + [] && Contents([g]) == g.content + [];
  }

  lemma RepeatingShifts(t: bytes, h: bytes)
    requires t == Repeating() && h == [1, 0, 0, 0, 0]
    ensures t[5..] + h == t && h + t == t + h
  {
  }

  /** A Continue frame that does not survive, and an empty End frame behind it: the whole decodes to what was written by
      coincidence, because the overflow reads as a header that repeats itself. So the exact condition is one on every
      frame's arrival, not on the whole. */
  lemma WholeMayCoincide()
    ensures var f := Frame(CONTINUE, Repeating(), 0);
            var fs := [f, Frame(END, [], 0)];
            Chain(fs) && !Survives(f) && Drain(START, EncodeFrames(fs)).Bytes() == Contents(fs)
  {
    var t, h: bytes := Repeating(), [1, 0, 0, 0, 0];
    var f, e := Frame(CONTINUE, t, 0), Frame(END, [], 0);
    assert EncodeFrame(e) == h;
    TwoFrames(f, e);
    assert t + [] == t;
    RepeatingShifts(t, h);
    OverflowIsTail(f, h);
  }

  /** An overflow that begins with the header of an empty End frame and ends with it, too. */
  lemma OverflowIsTail(f: Frame, h: bytes)
    requires f.command == CONTINUE && f.padding == 0 && |f.content| > 65535 && |f.content| % 65536 == 0
    requires h == [1, 0, 0, 0, 0] && h + f.content == f.content + h
    ensures Drain(START, EncodeFrame(f) + h).Bytes() == f.content
  {
    var t := f.content;
    OversizeFrame(f, h);
    assert (Overflow(f) + Repeat(0, 0))[0..] == t && t[..0] == [];
    NothingBehind(Sum(START, t + h));
    HeaderStep(START, h, t);
    TailBytes(t);
  }

  lemma TailBytes(rest: bytes)
    ensures Drain(Cursor(0, 0, END), rest).Bytes() == rest
  {
    FlattenOne(rest);
  }

  lemma WireOpens(id: Uuid, fs: seq<Frame>, tail: bytes)
    requires fs != []
    ensures var wire := id + EncodeFrames(fs) + tail;
            OpensFrame(id, wire) && wire[16..] == EncodeFrames(fs) + tail
  {
    var body := EncodeFrames(fs) + tail;
    assert |EncodeFrames(fs)| >= 5 by {
      assert |EncodeFrame(fs[0])| >= 5;
    }
    Associate(id, EncodeFrames(fs), tail);
    assert (id + body)[..16] == id && (id + body)[16..] == body;
  }

  /** The same, from what the caller can check: every piece fits its length field. */
  lemma ShortPiecesRoundTrip(id: Uuid, es: seq<Event>)
    requires forall i :: 0 <= i < |es| ==> PiecesFit(es[i])
    ensures var t := RunFrom(NOTHING, es);
            t.uuids <= 1 && Decode(id, t.Wire(id)).Bytes() + t.raw == t.inputs
  {
    RunFits(NOTHING, es);
    assert forall i :: 0 <= i < |RunFrom(NOTHING, es).frames| ==> Fits(RunFrom(NOTHING, es).frames[i]);
    RunRoundTrip(id, es);
  }
}
