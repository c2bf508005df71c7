/** What the padding decoder promises: framing round trip, and when a split of the stream is harmless. */
module VisionDecode {
  import opened Bytes
  import opened VisionWire

  /** No unknown command is announced, and nothing follows a Direct frame. */
  predicate Proper(c: Cursor, buf: bytes)
    decreases |buf|
  {
    if buf == [] then true
    else if c.AtBoundary() then
      && c.command < DIRECT
      && (c.command == END || |buf| < 5 || (buf[0] <= DIRECT && Proper(ReadHeader(buf), buf[5..])))
    else if c.content > 0 then
      var n := Min(c.content, |buf|);
      Proper(c.(content := c.content - n), buf[n..])
    else
      var n := Min(c.padding, |buf|);
      Proper(c.(padding := c.padding - n), buf[n..])
  }

  /** Decoding `a` and then, with the registers kept, `b` agrees with decoding `a + b` in one go. */
  predicate SplitsCleanly(c: Cursor, a: bytes, b: bytes) {
    var first := Drain(c, a);
    var second := Drain(first.cursor, b);
    Drain(c, a + b).cursor == second.cursor && Drain(c, a + b).Bytes() == first.Bytes() + second.Bytes()
  }

  /** The facts of a split in one bundle, so that each induction step is one rewriting. */
  predicate SplitFacts(c: Cursor, a: bytes, b: bytes) {
    var mid := Drain(c, a).cursor;
    && Sum(c, a + b) == Sum(mid, b).Behind(Sum(c, a).bytes)
    && Proper(c, a + b) == (Proper(c, a) && Proper(mid, b))
  }

  lemma EmptySplit(c: Cursor, b: bytes)
    ensures SplitFacts(c, [], b)
  {
    assert [] + b == b;
    NothingBehind(Sum(c, b));
  }

  lemma TailSplit(c: Cursor, a: bytes, b: bytes)
    requires c.AtBoundary() && c.command == END && a != []
    ensures SplitFacts(c, a, b)
  {
    FlattenOne(a);
    FlattenOne(b);
    FlattenOne(a + b);
    assert Drain(c, a) == Drained(c, [a]);
    assert Drain(c, b).Bytes() == b;
  }

  lemma HeaderSplit(c: Cursor, a: bytes, b: bytes)
    requires c.AtBoundary() && c.command != END && |a| >= 5
    requires SplitFacts(ReadHeader(a), a[5..], b)
    ensures SplitFacts(c, a, b)
  {
    assert (a + b)[5..] == a[5..] + b;
    assert ReadHeader(a + b) == ReadHeader(a);
    assert Drain(c, a + b) == Drain(ReadHeader(a), a[5..] + b);
    assert Drain(c, a) == Drain(ReadHeader(a), a[5..]);
  }

  /** A decoding that begins with the same bytes as another goes on as that one does. */
  lemma BehindBoth(whole: Summary, whole': Summary, first: Summary, first': Summary, second: Summary, front: bytes)
    requires whole == whole'.Behind(front) && first == first'.Behind(front)
    requires whole' == second.Behind(first'.bytes)
    ensures whole == second.Behind(first.bytes)
  {
    assert front + (first'.bytes + second.bytes) == (front + first'.bytes) + second.bytes;
  }

  lemma WholeContentSplit(c: Cursor, a: bytes, b: bytes)
    requires 0 < c.content <= |a|
    requires SplitFacts(c.(content := 0), a[c.content..], b)
    ensures SplitFacts(c, a, b)
  {
    var n := c.content;
    var c', a' := c.(content := 0), a[n..];
    assert (a + b)[n..] == a' + b && (a + b)[..n] == a[..n];
    ContentTurn(c, a);
    ContentTurn(c, a + b);
    BehindBoth(Sum(c, a + b), Sum(c', a' + b), Sum(c, a), Sum(c', a'), Sum(Drain(c, a).cursor, b), a[..n]);
  }

  /** A chunk that ends before the content does. */
  lemma PartContentTurn(c: Cursor, a: bytes)
    requires a != [] && c.content > |a|
    ensures Drain(c, a) == Drained(c.(content := c.content - |a|), [a]) && Drain(c, a).Bytes() == a
    ensures !CutsHeader(c, a) && Proper(c, a)
  {
    assert a[|a|..] == [] && a[..|a|] == a;
    FlattenOne(a);
  }

  lemma PartContentSplit(c: Cursor, a: bytes, b: bytes)
    requires a != [] && c.content > |a|
    ensures SplitFacts(c, a, b)
  {
    var mid := c.(content := c.content - |a|);
    PartContentTurn(c, a);
    if b == [] {
      assert a + b == a;
    } else {
      var m := Min(mid.content, |b|);
      ContentTurn(c, a + b);
      ContentTurn(mid, b);
      CutBehind(a, b, m);
      BehindTwice(Sum(c.(content := mid.content - m), b[m..]), a, b[..m]);
    }
  }

  lemma CutBehind(a: bytes, b: bytes, m: nat)
    requires m <= |b|
    ensures (a + b)[|a| + m..] == b[m..] && (a + b)[..|a| + m] == a + b[..m]
  {
  }

  lemma WholePaddingSplit(c: Cursor, a: bytes, b: bytes)
    requires c.content <= 0 && 0 < c.padding <= |a|
    requires SplitFacts(c.(padding := 0), a[c.padding..], b)
    ensures SplitFacts(c, a, b)
  {
    var n := c.padding;
    assert (a + b)[n..] == a[n..] + b;
    PaddingTurn(c, a);
    PaddingTurn(c, a + b);
  }

  lemma PaddingTurn(c: Cursor, buf: bytes)
    requires c.content <= 0 && 0 < c.padding <= |buf|
    ensures Sum(c, buf) == Sum(c.(padding := 0), buf[c.padding..])
    ensures Proper(c, buf) == Proper(c.(padding := 0), buf[c.padding..])
  {
    assert Min(c.padding, |buf|) == c.padding;
    PaddingTurnProper(c, buf);
  }

  lemma PaddingTurnProper(c: Cursor, buf: bytes)
    requires c.content <= 0 && 0 < c.padding <= |buf|
    ensures Proper(c, buf) == Proper(c.(padding := 0), buf[c.padding..])
  {
  }

  lemma PartPaddingSplit(c: Cursor, a: bytes, b: bytes)
    requires a != [] && c.content <= 0 && c.padding > |a|
    ensures SplitFacts(c, a, b)
  {
    var mid := c.(padding := c.padding - |a|);
    assert a[|a|..] == [];
    assert Drain(c, a) == Drained(mid, []) && Proper(c, a);
    if b == [] {
      assert a + b == a;
    } else {
      var n, m := Min(c.padding, |a + b|), Min(mid.padding, |b|);
      assert n == |a| + m;
      assert (a + b)[n..] == b[m..];
      assert Proper(c, a + b) == Proper(c.(padding := c.padding - n), b[m..]);
      assert Proper(mid, b) == Proper(c.(padding := c.padding - n), b[m..]);
    }
  }

  lemma {:induction false} NoCutSplits(c: Cursor, a: bytes, b: bytes)
    requires !CutsHeader(c, a)
    ensures SplitFacts(c, a, b)
    decreases |a|
  {
    if a == [] {
      EmptySplit(c, b);
    } else if c.AtBoundary() {
      if c.command == END {
        TailSplit(c, a, b);
      } else {
        NoCutSplits(ReadHeader(a), a[5..], b);
        HeaderSplit(c, a, b);
      }
    } else if c.content > |a| {
      PartContentSplit(c, a, b);
    } else if c.content > 0 {
      NoCutSplits(c.(content := 0), a[c.content..], b);
      WholeContentSplit(c, a, b);
    } else if c.padding > |a| {
      PartPaddingSplit(c, a, b);
    } else {
      NoCutSplits(c.(padding := 0), a[c.padding..], b);
      WholePaddingSplit(c, a, b);
    }
  }

  /** After `a + b` there is padding left to skip, but not after `a` and then `b`. */
  predicate ToldApart(c: Cursor, a: bytes, b: bytes) {
    Drain(c, a + b).cursor.padding > 0 && Drain(Drain(c, a).cursor, b).cursor.padding <= 0
  }

  lemma ResidueToldApart(c: Cursor, a: bytes, b: bytes)
    requires c.AtBoundary() && c.command != END && 0 < |a| < 5 && b == Repeat(1, 5 - |a|)
    ensures ToldApart(c, a, b)
  {
    var h := a + b;
    assert h[4] == 1 && h[5..] == [];
    assert Drain(c, h) == Drained(ReadHeader(h), []);
    assert Drain(c, a) == Drained(c, []) && Drain(c, b) == Drained(c, []);
  }

  lemma HeaderToldApart(c: Cursor, a: bytes, b: bytes)
    requires c.AtBoundary() && c.command != END && |a| >= 5
    requires ToldApart(ReadHeader(a), a[5..], b)
    ensures ToldApart(c, a, b)
  {
    assert (a + b)[5..] == a[5..] + b && ReadHeader(a + b) == ReadHeader(a);
  }

  lemma ContentToldApart(c: Cursor, a: bytes, b: bytes)
    requires 0 < c.content <= |a|
    requires ToldApart(c.(content := 0), a[c.content..], b)
    ensures ToldApart(c, a, b)
  {
    assert (a + b)[c.content..] == a[c.content..] + b;
    ContentTurn(c, a);
    ContentTurn(c, a + b);
  }

  lemma PaddingToldApart(c: Cursor, a: bytes, b: bytes)
    requires c.content == 0 && 0 < c.padding <= |a|
    requires ToldApart(c.(padding := 0), a[c.padding..], b)
    ensures ToldApart(c, a, b)
  {
    assert (a + b)[c.padding..] == a[c.padding..] + b;
  }

  /** A chunk that stops inside a header is told apart by completing that header. */
  lemma {:induction false} CutWitness(c: Cursor, a: bytes) returns (b: bytes)
    requires c.Inside() && CutsHeader(c, a)
    ensures ToldApart(c, a, b)
    decreases |a|
  {
    if c.AtBoundary() && |a| < 5 {
      b := Repeat(1, 5 - |a|);
      ResidueToldApart(c, a, b);
    } else if c.AtBoundary() {
      b := CutWitness(ReadHeader(a), a[5..]);
      HeaderToldApart(c, a, b);
    } else if c.content > 0 {
      b := CutWitness(c.(content := 0), a[c.content..]);
      ContentToldApart(c, a, b);
    } else {
      b := CutWitness(c.(padding := 0), a[c.padding..]);
      PaddingToldApart(c, a, b);
    }
  }

  /** A chunk may be decoded on its own, whatever follows it, exactly when it does not stop inside a header. */
  lemma SegmentationIff(c: Cursor, a: bytes)
    requires c.Inside()
    ensures (forall b: bytes :: SplitsCleanly(c, a, b)) <==> !CutsHeader(c, a)
  {
    if CutsHeader(c, a) {
      var b := CutWitness(c, a);
      assert !SplitsCleanly(c, a, b);
    } else {
      forall b: bytes
        ensures SplitsCleanly(c, a, b)
      {
        NoCutSplits(c, a, b);
      }
    }
  }

  // ---- many chunks ----------------------------------------------------------

  /** The registers kept over a list of chunks, one decoding call per chunk. */
  function DrainAll(c: Cursor, chunks: seq<bytes>): Drained
    decreases |chunks|
  {
    if chunks == [] then
      Drained(c, [])
    else
      var first := Drain(c, chunks[0]);
      var rest := DrainAll(first.cursor, chunks[1..]);
      Drained(rest.cursor, first.buffers + rest.buffers)
  }

  predicate NoChunkCuts(c: Cursor, chunks: seq<bytes>)
    decreases |chunks|
  {
    chunks == [] || (!CutsHeader(c, chunks[0]) && NoChunkCuts(Drain(c, chunks[0]).cursor, chunks[1..]))
  }

  /** Any split that never cuts a header gives the bytes and the final registers of one single chunk. */
  lemma {:induction false} SegmentationIndependent(c: Cursor, chunks: seq<bytes>)
    requires NoChunkCuts(c, chunks)
    ensures DrainAll(c, chunks).cursor == Drain(c, Flatten(chunks)).cursor
    ensures DrainAll(c, chunks).Bytes() == Drain(c, Flatten(chunks)).Bytes()
    ensures !CutsHeader(c, Flatten(chunks))
    decreases |chunks|
  {
    if chunks != [] {
      var first := Drain(c, chunks[0]);
      var rest := DrainAll(first.cursor, chunks[1..]);
      SegmentationIndependent(first.cursor, chunks[1..]);
      NoCutSplits(c, chunks[0], Flatten(chunks[1..]));
      FlattenAppend(first.buffers, rest.buffers);
    }
  }

  // ---- whole streams --------------------------------------------------------

  /** Decoding a chain of frames and its raw tail in one go. */
  lemma {:induction false} DrainFrames(c: Cursor, fs: seq<Frame>, tail: bytes)
    requires c.AtBoundary() && c.content == c.padding == 0 && c.command == CONTINUE
    requires Chain(fs) && AllFit(fs)
    requires tail != [] ==> LastCommand(fs) == END
    ensures var d := Drain(c, EncodeFrames(fs) + tail);
            d.cursor == Cursor(0, 0, LastCommand(fs)) && d.Bytes() == Contents(fs) + tail
    ensures !CutsHeader(c, EncodeFrames(fs) + tail) && Proper(c, EncodeFrames(fs) + tail)
  {
    if fs == [] {
      assert EncodeFrames(fs) + tail == [];
    } else {
      var f, rest := fs[0], EncodeFrames(fs[1..]) + tail;
      var next := Cursor(0, 0, f.command);
      Associate(EncodeFrame(f), EncodeFrames(fs[1..]), tail);
      Associate(f.content, Contents(fs[1..]), tail);
      if |fs| == 1 {
        assert rest == tail;
        DrainTail(next, tail);
      } else {
        assert LastCommand(fs[1..]) == LastCommand(fs);
        DrainFrames(next, fs[1..], tail);
      }
      DrainFrame(c, f, rest);
      ProperFrame(c, f, rest);
    }
  }

  /** What follows the last frame: nothing, or the raw tail behind an End frame. */
  lemma DrainTail(c: Cursor, tail: bytes)
    requires c.AtBoundary() && (tail != [] ==> c.command == END)
    ensures Drain(c, tail).cursor == c && Drain(c, tail).Bytes() == tail && !CutsHeader(c, tail) && Proper(c, tail)
  {
    FlattenOne(tail);
  }

  lemma ProperFrame(c: Cursor, f: Frame, rest: bytes)
    requires c.AtBoundary() && c.command == CONTINUE && Fits(f) && f.command <= DIRECT
    requires Proper(Cursor(0, 0, f.command), rest)
    ensures Proper(c, EncodeFrame(f) + rest)
  {
    var z := Repeat(0, f.padding);
    HeaderReadsBack(f);
    Reassociate(Header(f), f.content, z, rest);
    ProperRun(c, Header(f), f.content, z, rest);
  }

  lemma ProperRun(c: Cursor, h: bytes, x: bytes, z: bytes, rest: bytes)
    requires c.AtBoundary() && c.command == CONTINUE && |h| == 5 && h[0] <= DIRECT
    requires ReadHeader(h).content == |x| && ReadHeader(h).padding == |z|
    requires Proper(Cursor(0, 0, h[0]), rest)
    ensures Proper(c, h + (x + (z + rest)))
  {
    var c1 := ReadHeader(h);
    ProperPadding(c1.(content := 0), z, rest);
    ProperContent(c1, x, z + rest);
    assert (h + (x + (z + rest)))[5..] == x + (z + rest);
  }

  lemma ProperPadding(c: Cursor, z: bytes, rest: bytes)
    requires c.content == 0 && c.padding == |z| && Proper(c.(padding := 0), rest)
    ensures Proper(c, z + rest)
  {
    if z == [] {
      assert z + rest == rest;
    } else {
      assert (z + rest)[|z|..] == rest;
    }
  }

  lemma ProperContent(c: Cursor, x: bytes, rest: bytes)
    requires c.content == |x| && Proper(c.(content := 0), rest)
    ensures Proper(c, x + rest)
  {
    if x == [] {
      assert x + rest == rest;
    } else {
      assert (x + rest)[|x|..] == rest;
    }
  }
}
