/** How a connection ends its padding, in terms of the bytes written and seen alone: when a write goes Direct or End,
    and what it puts on the wire then. */
module VisionSwitch {
  import opened Bytes
  import opened VisionWire
  import F = VisionFilter
  import opened VisionWriter

  /** The piece begins like a TLS record of application data. */
  predicate Application(b: bytes) {
    |b| > 6 && b[0] == 0x17 && b[1] == 0x03 && b[2] == 0x03
  }

  /** Such a piece ends the padding of a stream that may go raw. */
  predicate GoesDirect(f: F.Filter, b: bytes) {
    f.isTLS && f.xtls && Application(b)
  }

  /** The padding ends without going raw: with application data of other TLS streams, or with the last filtered packet
      of a stream that has shown no ServerHello. */
  predicate GoesEnd(f: F.Filter, b: bytes) {
    if f.isTLS && Application(b) then !f.xtls else !f.tls12 && f.packets <= 1
  }

  lemma CommandIff(f: F.Filter, b: bytes)
    ensures CommandFor(f, b) == 2 <==> GoesDirect(f, b)
    ensures CommandFor(f, b) == 1 <==> GoesEnd(f, b)
    ensures CommandFor(f, b) == 0 <==> !GoesDirect(f, b) && !GoesEnd(f, b)
  {
    if |b| > 6 {
      assert b[..3] == [b[0], b[1], b[2]];
    }
  }

  // ---- one write ---------------------------------------------------------------------------

  /** The bytes of one padded piece. */
  function Block(command: byte, p: bytes, padding: nat): bytes
    requires |p| < 65536 && padding < 65536
  {
    [command, |p| / 256, |p| % 256, padding / 256, padding % 256] + p + Repeat(0, padding)
  }

  lemma BlockOnWire(f: Frame)
    requires Fits(f)
    ensures EncodeFrame(f) == Block(f.command, f.content, f.padding)
  {
    SmallRemainder(|f.content|, 65536);
    SmallRemainder(f.padding, 65536);
    Associate(Header(f), f.content, Repeat(0, f.padding));
  }

  /** Short pieces of a TLS stream are padded to 900 up to 1399 bytes, all others by at most 255. */
  lemma PaddedTo(isTLS: bool, n: nat, d: Draw)
    ensures if isTLS && n < 900 then 900 <= n + PaddingLen(isTLS, n, d) <= 1399 else PaddingLen(isTLS, n, d) <= 255
    ensures exists low: Draw :: PaddingLen(isTLS, n, low) == if isTLS && n < 900 then 900 - n else 0
  {
    var low: Draw := Dice(0, 0);
    assert PaddingLen(isTLS, n, low) == if isTLS && n < 900 then 900 - n else 0;
  }

  /** A write of at most 8170 bytes while padding is one block with the whole of it. Its command is 2 exactly if the
      write goes Direct, and 1 exactly if it goes End; the padding is over exactly then. */
  lemma OneBlock(id: Uuid, w: Writer, p: bytes, beyond: bytes, d0: Draw, d1: Draw)
    requires w.isPadding && |p| < 8171 && !Sniffed(w, p, beyond).filter.panicked
    ensures var f := Sniffed(w, p, beyond).filter;
            var s := WriteStep(w, p, beyond, d0, d1);
            var command := if GoesDirect(f, p) then 2 else if GoesEnd(f, p) then 1 else 0;
            && s.Wire(id) == (if w.writeUUID then id else []) + Block(command, p, PaddingLen(f.isTLS, |p|, d0))
            && s.raw == [] && !s.next.writeUUID && s.next.filter == f
            && s.next.isPadding == (command == 0) && s.next.directWrite == (w.directWrite || command == 2)
  {
    var v := Sniffed(w, p, beyond);
    var command := CommandFor(v.filter, p);
    var frame := PadFrame(v, p, command, d0);
    CommandIff(v.filter, p);
    assert Reshape(p) == [p] && [p][0] == p && [p][1..] == [];
    EmitUnfold(v, [p], [d0, d1]);
    EmitNothing(v.(writeUUID := false), [p][1..], [d0, d1][1..]);
    BlockOnWire(frame);
    OneFrame(frame);
    var s := WriteStep(w, p, beyond, d0, d1);
    assert s.frames == [frame] && s.tail == [] && s.raw == [];
    var front := if w.writeUUID then id else [];
    assert front + EncodeFrame(frame) + [] == front + EncodeFrame(frame);
  }

  lemma OneFrame(f: Frame)
    ensures EncodeFrames([f]) == EncodeFrame(f)
  {
    assert [f][1..] == [];
    assert EncodeFrames([f]) == EncodeFrame(f) + [];
  }

  /** On a TLS 1.3 stream that may go raw, application data switches to Direct at once, and everything after it is raw. */
  lemma EnabledStreamSwitches(id: Uuid, w: Writer, p: bytes, beyond: bytes, d0: Draw, d1: Draw)
    requires w.isPadding && w.filter.isTLS && w.filter.xtls && w.filter.packets == 0 && !w.filter.panicked
    requires 6 < |p| < 8171 && p[0] == 0x17 && p[1] == 0x03 && p[2] == 0x03
    ensures var s := WriteStep(w, p, beyond, d0, d1);
            && s.Wire(id) == (if w.writeUUID then id else []) + Block(2, p, PaddingLen(true, |p|, d0)) && s.raw == []
            && s.next.directWrite && !s.next.isPadding
            && forall q: bytes, after: bytes ::
                 var t := WriteStep(s.next, q, after, d0, d1); t.Wire(id) == [] && t.raw == q && t.next == s.next
  {
    OneBlock(id, w, p, beyond, d0, d1);
    assert [] + EncodeFrames([]) + [] == [];
  }

  // ---- the filter of a run -------------------------------------------------------------------

  function Watch(f: F.Filter, e: Event): F.Filter {
    match e
    case App(p, beyond, _, _) => Sniff(f, F.Slice(p, beyond))
    case Peer(slices) => if f.packets > 0 then FeedAll(f, slices) else f
  }

  /** What the filter knows after the events, whatever was sent. */
  function Watched(es: seq<Event>): F.Filter
    decreases |es|
  {
    if es == [] then F.FRESH else Watch(Watched(es[..|es| - 1]), es[|es| - 1])
  }

  lemma {:induction false} FeedPanicked(f: F.Filter, slices: seq<F.Slice>)
    requires f.panicked
    ensures FeedAll(f, slices) == f
    decreases |slices|
  {
    if slices != [] {
      FeedPanicked(f, slices[1..]);
    }
  }

  lemma NextWatches(t: Trace, e: Event)
    ensures Next(t, e).writer.filter == Watch(t.writer.filter, e)
  {
    if t.writer.filter.panicked {
      if e.Peer? {
        FeedPanicked(t.writer.filter, e.slices);
      }
    } else if e.App? {
      var v := Sniffed(t.writer, e.p, e.beyond);
      if t.writer.isPadding {
        EmitKeepsFilter(v, Reshape(e.p), [e.d0, e.d1]);
      }
    }
  }

  /** A stream that may go raw has shown TLS and a ServerHello. */
  predicate Consistent(f: F.Filter) {
    && (f.serverHello > 0 ==> f.isTLS && f.tls12)
    && (f.xtls ==> f.isTLS && f.tls12)
  }

  lemma {:induction false} FeedConsistent(f: F.Filter, slices: seq<F.Slice>)
    requires Consistent(f)
    ensures Consistent(FeedAll(f, slices))
    decreases |slices|
  {
    if slices != [] {
      FeedConsistent(F.Step(f, slices[0]), slices[1..]);
    }
  }

  lemma {:induction false} WatchedConsistent(es: seq<Event>)
    ensures Consistent(Watched(es))
    decreases |es|
  {
    if es != [] {
      var front, e := es[..|es| - 1], es[|es| - 1];
      WatchedConsistent(front);
      if e.Peer? {
        FeedConsistent(Watched(front), e.slices);
      }
    }
  }

  // ---- runs ------------------------------------------------------------------------------------

  /** A write of application data to a stream that may go raw. */
  predicate SwitchesAt(es: seq<Event>, i: nat)
    requires i < |es|
  {
    var f := Watched(es[..i + 1]);
    es[i].App? && !f.panicked && f.xtls && SomeApplication(Reshape(es[i].p))
  }

  predicate SomeApplication(pieces: seq<bytes>) {
    exists k :: 0 <= k < |pieces| && Application(pieces[k])
  }

  /** A write that ends the padding of any other stream. */
  predicate ClosesAt(es: seq<Event>, i: nat)
    requires i < |es|
  {
    var f := Watched(es[..i + 1]);
    es[i].App? && !f.panicked && !f.xtls && SomeEnd(f, Reshape(es[i].p))
  }

  predicate SomeEnd(f: F.Filter, pieces: seq<bytes>) {
    exists k :: 0 <= k < |pieces| && GoesEnd(f, pieces[k])
  }

  predicate SwitchesFirst(es: seq<Event>, i: nat)
    requires i < |es|
  {
    SwitchesAt(es, i) && forall j :: 0 <= j < i ==> !ClosesAt(es, j)
  }

  /** What one padding loop does to the registers. */
  lemma {:induction false} LoopSettles(w: Writer, pieces: seq<bytes>, draws: seq<Draw>)
    requires w.isPadding && !w.directWrite && |pieces| <= |draws| && Consistent(w.filter)
    ensures var s := Emit(w, pieces, draws).next;
            && s.directWrite == (w.filter.xtls && SomeApplication(pieces))
            && s.isPadding == (!s.directWrite && (w.filter.xtls || !SomeEnd(w.filter, pieces)))
    decreases |pieces|
  {
    if pieces != [] {
      CommandIff(w.filter, pieces[0]);
      var v, rest := w.(writeUUID := false), pieces[1..];
      EmitUnfold(w, pieces, draws);
      assert forall k :: 0 < k < |pieces| ==> pieces[k] == rest[k - 1];
      assert forall k :: 0 <= k < |rest| ==> rest[k] == pieces[k + 1];
      if CommandFor(w.filter, pieces[0]) == CONTINUE {
        LoopSettles(v, rest, draws[1..]);
      }
    }
  }

  /** The registers after one more event. */
  lemma NextSettles(t: Trace, e: Event)
    requires Inv(t) && Consistent(t.writer.filter)
    requires Consistent(Watch(t.writer.filter, e))
    ensures var f, w, v := Watch(t.writer.filter, e), t.writer, Next(t, e).writer;
            if !w.isPadding || !e.App? || f.panicked then v.isPadding == w.isPadding && v.directWrite == w.directWrite
            else
              && v.directWrite == (f.xtls && SomeApplication(Reshape(e.p)))
              && v.isPadding == (!v.directWrite && (f.xtls || !SomeEnd(f, Reshape(e.p))))
  {
    if e.App? && t.writer.isPadding && !Watch(t.writer.filter, e).panicked {
      LoopSettles(Sniffed(t.writer, e.p, e.beyond), Reshape(e.p), [e.d0, e.d1]);
    }
  }

  lemma {:induction false} RunSnoc(t: Trace, es: seq<Event>, e: Event)
    ensures RunFrom(t, es + [e]) == Next(RunFrom(t, es), e)
    decreases |es|
  {
    if es == [] {
      assert ([] + [e])[1..] == [];
    } else {
      assert (es + [e])[0] == es[0] && (es + [e])[1..] == es[1..] + [e];
      RunSnoc(Next(t, es[0]), es[1..], e);
    }
  }

  lemma {:induction false} FilterIsWatched(es: seq<Event>)
    ensures RunFrom(NOTHING, es).writer.filter == Watched(es)
    decreases |es|
  {
    if es != [] {
      var front, e := es[..|es| - 1], es[|es| - 1];
      assert es == front + [e];
      FilterIsWatched(front);
      RunSnoc(NOTHING, front, e);
      NextWatches(RunFrom(NOTHING, front), e);
    }
  }

  lemma FrontEvents(es: seq<Event>, i: nat)
    requires i < |es| - 1
    ensures var front := es[..|es| - 1];
            SwitchesAt(front, i) == SwitchesAt(es, i) && ClosesAt(front, i) == ClosesAt(es, i)
  {
    assert es[..|es| - 1][..i + 1] == es[..i + 1];
  }

  /** Over every run: writing goes raw exactly if some write of application data came while the stream could go raw, and
      no write before it had ended the padding otherwise; the padding goes on exactly if no write has ended it. */
  lemma {:induction false} SwitchIff(es: seq<Event>)
    ensures var w := RunFrom(NOTHING, es).writer;
            && (w.directWrite <==> exists i: nat :: i < |es| && SwitchesFirst(es, i))
            && (w.isPadding <==> forall i: nat :: i < |es| ==> !SwitchesAt(es, i) && !ClosesAt(es, i))
    decreases |es|
  {
    if es != [] {
      var n := |es| - 1;
      var front, e := es[..n], es[n];
      assert es == front + [e] && es[..n + 1] == es;
      SwitchIff(front);
      forall i: nat | i < n
        ensures SwitchesAt(front, i) == SwitchesAt(es, i) && ClosesAt(front, i) == ClosesAt(es, i)
        ensures SwitchesFirst(front, i) == SwitchesFirst(es, i)
      {
        FrontIs(es, i);
      }
      var t := RunFrom(NOTHING, front);
      RunSnoc(NOTHING, front, e);
      RunInv(front);
      FilterIsWatched(front);
      WatchedConsistent(front);
      WatchedConsistent(es);
      NextSettles(t, e);
      LastEvent(es, t.writer, Next(t, e).writer);
    }
  }

  lemma FrontIs(es: seq<Event>, i: nat)
    requires i < |es| - 1
    ensures var front := es[..|es| - 1];
            && SwitchesAt(front, i) == SwitchesAt(es, i) && ClosesAt(front, i) == ClosesAt(es, i)
            && SwitchesFirst(front, i) == SwitchesFirst(es, i)
  {
    var front := es[..|es| - 1];
    FrontEvents(es, i);
    forall j: nat | j < i
      ensures ClosesAt(front, j) == ClosesAt(es, j)
    {
      FrontEvents(es, j);
    }
    assert (forall j :: 0 <= j < i ==> !ClosesAt(front, j)) <==> forall j :: 0 <= j < i ==> !ClosesAt(es, j);
  }

  /** The last event of a run, from what the events before it have done to the registers. */
  lemma LastEvent(es: seq<Event>, w: Writer, v: Writer)
    requires es != [] && (w.directWrite ==> !w.isPadding) && es[..|es|] == es
    requires w.directWrite <==> exists i: nat :: i < |es| - 1 && SwitchesFirst(es, i)
    requires w.isPadding <==> forall i: nat :: i < |es| - 1 ==> !SwitchesAt(es, i) && !ClosesAt(es, i)
    requires var f, e := Watched(es), es[|es| - 1];
             if !w.isPadding || !e.App? || f.panicked then v.isPadding == w.isPadding && v.directWrite == w.directWrite
             else
               && v.directWrite == (f.xtls && SomeApplication(Reshape(e.p)))
               && v.isPadding == (!v.directWrite && (f.xtls || !SomeEnd(f, Reshape(e.p))))
    ensures v.directWrite <==> exists i: nat :: i < |es| && SwitchesFirst(es, i)
    ensures v.isPadding <==> forall i: nat :: i < |es| ==> !SwitchesAt(es, i) && !ClosesAt(es, i)
  {
    var n := |es| - 1;
    if w.isPadding {
      assert SwitchesFirst(es, n) <==> SwitchesAt(es, n);
    } else if !w.directWrite {
      var i: nat :| i < n && (SwitchesAt(es, i) || ClosesAt(es, i));
      SomethingCloses(es, i);
    }
  }

  /** Where a write has ended the padding and none has gone Direct first, no later one goes Direct. */
  lemma {:induction false} SomethingCloses(es: seq<Event>, i: nat)
    requires i < |es| && (SwitchesAt(es, i) || ClosesAt(es, i))
    requires forall k: nat :: k < i + 1 ==> !SwitchesFirst(es, k)
    ensures exists j: nat :: j <= i && ClosesAt(es, j)
  {
    if SwitchesAt(es, i) {
      assert !SwitchesFirst(es, i);
    }
  }

  // ---- what enables the switch, on the bytes -----------------------------------------------------

  /** A record that begins like a TLS 1.2 or 1.3 ServerHello. */
  predicate ServerHello(b: bytes) {
    |b| > 6 && b[0] == 0x16 && b[1] == 0x03 && b[2] == 0x03 && b[5] == 0x02
  }

  predicate ClientHello(b: bytes) {
    |b| > 6 && b[0] == 0x16 && b[1] == 0x03 && b[5] == 0x01
  }

  /** The supported_versions extension that names TLS 1.3 stands in the first `n` bytes. */
  predicate NamesTls13(b: bytes, n: nat)
    requires n <= |b|
  {
    exists i :: 0 <= i <= n - 6 && Tls13At(b, i)
  }

  predicate Tls13At(b: bytes, i: nat)
    requires i <= |b| - 6
  {
    b[i] == 0x00 && b[i + 1] == 0x2b && b[i + 2] == 0x00 && b[i + 3] == 0x02 && b[i + 4] == 0x03 && b[i + 5] == 0x04
  }

  /** The bytes `at` and `at + 1` name one of the first four TLS 1.3 cipher suites. */
  predicate AllowedAt(memory: bytes, at: nat) {
    at + 1 < |memory| && memory[at] == 0x13 && 0x01 <= memory[at + 1] <= 0x04
  }

  lemma NamesTls13Iff(b: bytes, n: nat)
    requires n <= |b|
    ensures NamesTls13(b, n) <==> F.Contains(b[..n], F.SUPPORTED_VERSIONS)
  {
    forall i | 0 <= i <= n - 6
      ensures Tls13At(b, i) <==> At(b[..n], i, F.SUPPORTED_VERSIONS)
    {
      assert b[..n][i..i + 6] == [b[i], b[i + 1], b[i + 2], b[i + 3], b[i + 4], b[i + 5]];
    }
    if i :| 0 <= i <= n && At(b[..n], i, F.SUPPORTED_VERSIONS) {
      assert Tls13At(b, i);
    }
  }

  /** One call enables the switch exactly for a ServerHello that names TLS 1.3 and an allowed cipher, be the cipher one
      of a long record, behind its session id, or the one remembered from before. */
  lemma EnablesIff(f: F.Filter, s: F.Slice)
    requires !f.panicked && !f.xtls && f.serverHello <= 0
    ensures var b := s.data;
            F.Step(f, s).xtls <==>
              && ServerHello(b) && NamesTls13(b, Min(b[3] as int * 256 + b[4] as int + 5, |b|))
              && (if |b| >= 79 && b[3] as int * 256 + b[4] as int + 5 >= 79 then AllowedAt(b + s.beyond, b[43] as int + 44)
                  else 0x1301 <= f.cipher <= 0x1304)
  {
    var b := s.data;
    if ServerHello(b) {
      NamesTls13Iff(b, Min(b[3] as int * 256 + b[4] as int + 5, |b|));
    }
  }

  /** The other registers of one call that does not crash: how much of the ServerHello record is still to come, when the
      filter stops, which cipher it remembers, and that a switch once enabled stays so. */
  lemma HelloProgress(f: F.Filter, s: F.Slice)
    requires !f.panicked && !F.Step(f, s).panicked
    ensures var b, t, memory := s.data, F.Step(f, s), s.data + s.beyond;
            var length := if ServerHello(b) then b[3] as int * 256 + b[4] as int + 5 else f.serverHello;
            var seen := if length > 0 then Min(length, |b|) else 0;
            var found := length > 0 && NamesTls13(b, seen);
            var readable := ServerHello(b) && |b| >= 79 && length >= 79;
            && t.serverHello == length - seen && t.tls12 == (f.tls12 || ServerHello(b))
            && t.packets == (if found || (length > 0 && seen == length) then 0 else f.packets - 1)
            && (readable ==> b[43] as int + 45 < |memory|)
            && t.cipher == (if readable then memory[b[43] as int + 44] as int * 256 + memory[b[43] as int + 45] as int else f.cipher)
            && t.xtls == (f.xtls || (found && 0x1301 <= t.cipher <= 0x1304))
  {
    var b := s.data;
    var length := if ServerHello(b) then b[3] as int * 256 + b[4] as int + 5 else f.serverHello;
    if length > 0 {
      NamesTls13Iff(b, Min(length, |b|));
    }
  }

  /** And TLS is seen in a handshake record of TLS 1.2 or 1.3, and in a ClientHello of any version. */
  lemma SeesTlsIff(f: F.Filter, s: F.Slice)
    requires !f.panicked && !f.isTLS
    ensures F.Step(f, s).isTLS <==>
              |s.data| > 6 && s.data[0] == 0x16 && s.data[1] == 0x03 && (s.data[2] == 0x03 || s.data[5] == 0x01)
  {
    if |s.data| > 6 {
      assert s.data[..2] == [s.data[0], s.data[1]];
    }
  }

  /** A TLS 1.3 connection from its first byte: a ClientHello goes padded, the peer's whole ServerHello with an allowed
      cipher enables the switch, and the first application data goes Direct. */
  lemma Tls13Switches(id: Uuid, ch: bytes, hello: bytes, data: bytes, x: bytes, y: bytes, z: bytes, d0: Draw, d1: Draw)
    requires |ch| < 8171 && ClientHello(ch)
    requires ServerHello(hello) && 79 <= |hello| == hello[3] as int * 256 + hello[4] as int + 5
    requires NamesTls13(hello, |hello|) && AllowedAt(hello, hello[43] as int + 44)
    requires 6 < |data| < 8171 && data[0] == 0x17 && data[1] == 0x03 && data[2] == 0x03
    ensures var w1 := WriteStep(FRESH, ch, x, d0, d1);
            var heard := Next(NOTHING.(writer := w1.next), Peer([F.Slice(hello, y)])).writer;
            var w2 := WriteStep(heard, data, z, d0, d1);
            && w1.Wire(id) == id + Block(0, ch, PaddingLen(true, |ch|, d0)) && w1.raw == []
            && w2.Wire(id) == Block(2, data, PaddingLen(true, |data|, d0)) && w2.raw == []
            && w2.next.directWrite
  {
    var w1 := WriteStep(FRESH, ch, x, d0, d1);
    FirstHello(ch, x);
    OneBlock(id, FRESH, ch, x, d0, d1);
    var f1 := w1.next.filter;
    EnablesIff(f1, F.Slice(hello, y));
    var f2 := F.Step(f1, F.Slice(hello, y));
    assert (hello + y)[hello[43] as int + 44] == hello[hello[43] as int + 44];
    assert f2.xtls && f2.isTLS && !f2.panicked && f2.packets == 0;
    assert FeedAll(f1, [F.Slice(hello, y)]) == FeedAll(f2, []) == f2 by {
      assert [F.Slice(hello, y)][1..] == [];
    }
    var heard := w1.next.(filter := f2);
    EnabledStreamSwitches(id, heard, data, z, d0, d1);
    assert [] + Block(2, data, PaddingLen(true, |data|, d0)) == Block(2, data, PaddingLen(true, |data|, d0));
  }

  lemma FirstHello(ch: bytes, x: bytes)
    requires ClientHello(ch)
    ensures var f := Sniff(F.FRESH, F.Slice(ch, x));
            f == F.FRESH.(isTLS := true, packets := 7) && !GoesDirect(f, ch) && !GoesEnd(f, ch)
  {
    assert ch[..2] == [ch[0], ch[1]];
  }

  // ---- streams without TLS -----------------------------------------------------------------------

  /** Writes of at most 8170 bytes without a handshake record. */
  predicate ShowsNoTls(es: seq<Event>) {
    forall i :: 0 <= i < |es| ==> es[i].App? && |es[i].p| < 8171 && (|es[i].p| > 6 ==> es[i].p[0] != 0x16)
  }

  /** The bytes of the writes from the eighth on. */
  function Later(es: seq<Event>): bytes
    requires ShowsNoTls(es)
    decreases |es|
  {
    if |es| <= 7 then [] else Later(es[..|es| - 1]) + es[|es| - 1].p
  }

  /** The first six writes are Continue frames, the seventh is the End frame, and the others go unpadded behind it. */
  predicate SixAndOne(t: Trace, es: seq<Event>)
    requires ShowsNoTls(es)
  {
    && |t.frames| == Min(|es|, 7)
    && (forall i :: 0 <= i < |t.frames| ==> t.frames[i].command == (if i == 6 then 1 else 0) && t.frames[i].content == es[i].p)
    && t.tail == Later(es) && t.raw == []
    && t.writer == Writer(F.FRESH.(packets := if |es| < 8 then 8 - |es| else 0), |es| < 7, false, |es| == 0)
  }

  lemma PlainStep(t: Trace, es: seq<Event>, e: Event)
    requires ShowsNoTls(es + [e]) && ShowsNoTls(es) && SixAndOne(t, es)
    ensures SixAndOne(Next(t, e), es + [e])
  {
    var more := es + [e];
    assert more[|es|] == e && more[..|es|] == es;
    var w := t.writer;
    var v := Sniffed(w, e.p, e.beyond);
    assert v.filter == F.FRESH.(packets := if |es| < 7 then 7 - |es| else 0);
    if w.isPadding {
      var command := CommandFor(v.filter, e.p);
      CommandIff(v.filter, e.p);
      assert Reshape(e.p) == [e.p] && [e.p][0] == e.p && [e.p][1..] == [];
      EmitUnfold(v, [e.p], [e.d0, e.d1]);
      EmitNothing(v.(writeUUID := false), [e.p][1..], [e.d0, e.d1][1..]);
      assert WriteStep(w, e.p, e.beyond, e.d0, e.d1).frames == [PadFrame(v, e.p, command, e.d0)];
    }
  }

  /** Whatever is written, in writes of at most 8170 bytes without a handshake record and with nothing heard from the
      peer: the padding ends with the seventh write. */
  lemma {:induction false} PlainStreamEnds(es: seq<Event>)
    requires ShowsNoTls(es)
    ensures SixAndOne(RunFrom(NOTHING, es), es)
    decreases |es|
  {
    if es != [] {
      var front, e := es[..|es| - 1], es[|es| - 1];
      assert es == front + [e];
      PlainStreamEnds(front);
      RunSnoc(NOTHING, front, e);
      PlainStep(RunFrom(NOTHING, front), front, e);
    }
  }

  /** Longer writes are split before the last record header of application data, or behind 4096 bytes. */
  lemma SplitsAt(b: bytes, k: nat)
    requires |b| >= 8171
    requires if LastRecord(b, k) then k > 0 else k == 4096 && forall j :: 0 < j <= |b| - 3 ==> !RecordAt(b, j)
    ensures Reshape(b) == [b[..k], b[k..]]
  {
    var i := LastIndex(b, F.APPLICATION_DATA, |b|);
    forall j | 0 < j <= |b| - 3
      ensures RecordAt(b, j) <==> At(b, j, F.APPLICATION_DATA)
    {
      assert b[j..j + 3] == [b[j], b[j + 1], b[j + 2]];
    }
    assert i > 0 ==> RecordAt(b, i);
  }

  predicate LastRecord(b: bytes, k: nat) {
    k <= |b| - 3 && RecordAt(b, k) && forall j :: k < j <= |b| - 3 ==> !RecordAt(b, j)
  }

  predicate RecordAt(b: bytes, j: nat)
    requires j <= |b| - 3
  {
    b[j] == 0x17 && b[j + 1] == 0x03 && b[j + 2] == 0x03
  }
}
