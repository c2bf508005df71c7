/** One block from the peer: what a read makes of it, byte by byte, and what the filter hears in it. */
module VisionHears {
  import opened Bytes
  import opened VisionWire
  import F = VisionFilter
  import W = VisionWriter
  import R = VisionReader
  import opened VisionSwitch

  lemma BlockDrains(command: byte, content: bytes, padding: nat, beyond: bytes)
    requires 0 < |content| < 65536 && padding < 65536
    ensures var b := Block(command, content, padding);
            && Drain(START, b) == Drained(Cursor(0, 0, command), [content])
            && Spare(START, b, beyond) == [Repeat(0, padding) + beyond]
  {
    var b, zeros := Block(command, content, padding), Repeat(0, padding);
    var c, d := Cursor(|content|, padding, command), Cursor(0, padding, command);
    assert ReadHeader(b) == c;
    assert b[5..] == content + zeros;
    assert (content + zeros)[..|content|] == content && (content + zeros)[|content|..] == zeros;
    PaddingDrains(command, zeros, beyond);
    assert Drain(c, content + zeros) == Drained(Cursor(0, 0, command), [content] + []);
    assert Spare(c, content + zeros, beyond) == [zeros + beyond] + [];
  }

  lemma PaddingDrains(command: byte, zeros: bytes, beyond: bytes)
    ensures var d := Cursor(0, |zeros|, command);
            Drain(d, zeros) == Drained(Cursor(0, 0, command), []) && Spare(d, zeros, beyond) == []
  {
    if zeros != [] {
      var done := Cursor(0, 0, command);
      assert zeros[|zeros|..] == [];
      assert Drain(done, []) == Drained(done, []) && Spare(done, [], beyond) == [];
    }
  }

  /** What uTLS has buffered, as slices with what lies behind them. */
  function Buffered(b: bytes, behind: bytes): seq<F.Slice> {
    if b == [] then [] else [F.Slice(b, behind)]
  }

  /** The slices of a block's chunk: its content, with the padding and the rest of the array behind it, and behind a
      Direct block what uTLS has buffered. */
  function Heard(s: R.Stream, command: byte, content: bytes, padding: nat): seq<F.Slice> {
    var m := s.memory(s.decoded);
    [F.Slice(content, Repeat(0, padding) + m.chunk)]
    + if command == 2 then Buffered(s.input, m.input) + Buffered(s.rawIn, m.rawIn) else []
  }

  /** A reader that expects its first block. */
  predicate Expecting(s: R.Stream) {
    s.cursor.Outside() && s.within && !s.direct && s.pending == []
  }

  /** The first block decoded: 0 goes on decoding, 1 stops it, 2 stops it, drains uTLS and turns to the raw connection,
      and any other command is an error. */
  lemma FirstBlockTaken(id: Uuid, s: R.Stream, command: byte, content: bytes, padding: nat)
    requires Expecting(s) && 0 < |content| < 65536 && padding < 65536
    ensures var (t, failed) := R.TakeIn(id, s, id + Block(command, content, padding));
            var f := if s.filter.packets > 0 then W.FeedAll(s.filter, Heard(s, command, content, padding)) else s.filter;
            if command > 2 then failed == Some(R.UnknownCommand(command))
            else
              && failed == (if f.panicked then Some(R.Panic) else None) && t.filter == f && t.decoded == s.decoded + 1
              && t.cursor == (if command == 1 then Cursor(-1, -1, 1) else Cursor(0, 0, command))
              && t.within == (command == 0) && t.direct == (command == 2) && t.conn == s.conn && t.raw == s.raw
              && t.pending == [content] + (if command == 2 then R.NonEmpty(s.input) + R.NonEmpty(s.rawIn) else [])
              && (command == 2 ==> t.input == [] && t.rawIn == [])
  {
    var chunk, m := id + Block(command, content, padding), s.memory(s.decoded);
    assert chunk[..16] == id && chunk[16..] == Block(command, content, padding);
    BlockDrains(command, content, padding, m.chunk);
    var drained := Drained(Cursor(0, 0, command), [content]);
    assert UnPad(id, s.cursor, chunk) == drained;
    var (t, handed) := R.Absorb(id, s, chunk);
    if command <= 2 {
      SlicesHeard(s, command, content, padding, handed.value, R.AbsorbSpare(id, s, chunk));
    }
  }

  lemma SlicesHeard(s: R.Stream, command: byte, content: bytes, padding: nat, buffers: seq<bytes>, spare: seq<bytes>)
    requires var m := s.memory(s.decoded);
             && buffers == [content] + (if command == 2 then R.NonEmpty(s.input) + R.NonEmpty(s.rawIn) else [])
             && spare == [Repeat(0, padding) + m.chunk]
                       + (if command == 2 then R.SpareOf(s.input, m.input) + R.SpareOf(s.rawIn, m.rawIn) else [])
    ensures R.Slices(buffers, spare) == Heard(s, command, content, padding)
  {
  }

  /** So the read that takes it delivers its content. */
  lemma FirstBlockRead(id: Uuid, s: R.Stream, command: byte, content: bytes, padding: nat, max: nat)
    requires Expecting(s) && 0 < |content| < 65536 && padding < 65536 && s.conn != []
    requires s.conn[0] == id + Block(command, content, padding) && |s.conn[0]| <= max && max > 8192
    ensures var (t, o) := R.ReadCall(id, s, max);
            var f := if s.filter.packets > 0 then W.FeedAll(s.filter, Heard(s, command, content, padding)) else s.filter;
            if command > 2 then o == R.UnknownCommand(command)
            else if f.panicked then o == R.Panic
            else
              && o == R.Data(content) && t.filter == f && t.conn == s.conn[1..]
              && t.within == (command == 0) && t.direct == (command == 2)
  {
    var s1 := s.(conn := s.conn[1..]);
    FirstBlockTaken(id, s1, command, content, padding);
    assert R.Take(s.conn, R.Larger(max)) == (s.conn[0], s.conn[1..]);
    assert s.(pending := []) == s;
    assert R.ReadCall(id, s, max) == R.ReadSegment(id, s, max);
    R.SegmentTaken(id, s, false, max, s.conn[0], s1);
    var (s2, failed) := R.TakeIn(id, s1, s.conn[0]);
    if failed.None? {
      ContentFirst(id, s2, content, s2.pending[1..], max);
    }
  }

  lemma ContentFirst(id: Uuid, s: R.Stream, content: bytes, more: seq<bytes>, max: nat)
    requires 0 < |content| <= max && s.pending == [content] + more
    ensures R.ReadCall(id, s, max) == (s.(pending := [[]] + more), R.Data(content))
  {
    assert content[..|content|] == content && content[|content|..] == [];
    assert s.pending[1..] == more;
  }

  /** The peer's TLS 1.3 ServerHello arrives padded: the read delivers it and enables the switch, so that the next
      application data of a stream that is still padding goes Direct. */
  lemma HelloIsHeard(id: Uuid, s: R.Stream, w: W.Writer, hello: bytes, padding: nat, max: nat,
                     data: bytes, beyond: bytes, d0: W.Draw, d1: W.Draw)
    requires Expecting(s) && !s.filter.panicked && s.filter.packets > 0 && s.filter.serverHello <= 0 && w.isPadding
    requires ServerHello(hello) && 79 <= |hello| == hello[3] as int * 256 + hello[4] as int + 5 && |hello| < 65536
    requires NamesTls13(hello, |hello|) && AllowedAt(hello, hello[43] as int + 44)
    requires padding < 65536 && s.conn != [] && s.conn[0] == id + Block(0, hello, padding) && |s.conn[0]| <= max && max > 8192
    requires 6 < |data| < 8171 && data[0] == 0x17 && data[1] == 0x03 && data[2] == 0x03
    ensures var (t, o) := R.ReadCall(id, s, max);
            var sent := W.WriteStep(w.(filter := t.filter), data, beyond, d0, d1);
            && o == R.Data(hello) && t.filter.xtls && t.filter.packets == 0
            && sent.next.directWrite
            && sent.Wire(id) == (if w.writeUUID then id else []) + Block(2, data, W.PaddingLen(true, |data|, d0))
  {
    var slice := F.Slice(hello, Repeat(0, padding) + s.memory(s.decoded).chunk);
    var f := F.Step(s.filter, slice);
    assert W.FeedAll(s.filter, [slice]) == f by {
      assert [slice][1..] == [];
      assert W.FeedAll(f, []) == f;
    }
    assert (hello + slice.beyond)[hello[43] as int + 44] == hello[hello[43] as int + 44];
    HelloProgress(s.filter, slice);
    FirstBlockRead(id, s, 0, hello, padding, max);
    assert Heard(s, 0, hello, padding) == [slice];
    EnabledStreamSwitches(id, w.(filter := f), data, beyond, d0, d1);
  }
}
