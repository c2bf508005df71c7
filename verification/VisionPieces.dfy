/** What a read has decoded and not yet delivered: slices of the caller's own buffer, and buffers of its own. */
module VisionPieces {
  import opened Bytes
  import opened VisionWire
  import R = VisionReader

  /** A slice of the array the last chunk was read into, or bytes nobody else holds. */
  datatype Piece = Shared(from: nat, to: nat) | Own(data: bytes)

  /** The bytes of a piece, as the array has them now. */
  function Text(p: Piece, mem: bytes): bytes {
    match p
    case Shared(from, to) => if from <= to <= |mem| then mem[from..to] else []
    case Own(data) => data
  }

  function Texts(ps: seq<Piece>, mem: bytes): (r: seq<bytes>)
    ensures |r| == |ps|
  {
    seq(|ps|, i requires 0 <= i < |ps| => Text(ps[i], mem))
  }

  /** The slices lie within the array one behind the other, and in front of everything else. */
  predicate Layered(ps: seq<Piece>, size: nat) {
    && (forall i :: 0 <= i < |ps| && ps[i].Shared? ==> ps[i].from <= ps[i].to <= size)
    && (forall i, j :: 0 <= i < j < |ps| && ps[j].Shared? ==> ps[i].Shared? && ps[i].to <= ps[j].from)
  }

  /** What is left of a piece. */
  function Remains(p: Piece, n: nat): Piece
    requires p.Own? ==> n <= |p.data|
  {
    match p
    case Shared(from, to) => Shared(from + n, to)
    case Own(data) => Own(data[n..])
  }

  lemma SameTail(mem: bytes, now: bytes, n: nat, from: nat, to: nat)
    requires |now| == |mem| && n <= from <= to <= |mem| && now[n..] == mem[n..]
    ensures now[from..to] == mem[from..to]
  {
    forall k | from <= k < to
      ensures now[k] == mem[k]
    {
      assert now[n..][k - n] == mem[n..][k - n];
    }
  }

  lemma LeftIsLayered(ps: seq<Piece>, size: nat, i: nat, n: nat)
    requires i < |ps| && Layered(ps, size)
    requires match ps[i] case Shared(from, to) => n <= to - from case Own(data) => n <= |data|
    ensures var left := [Remains(ps[i], n)] + ps[i + 1..];
            && Layered(left, size)
            && forall k :: 0 <= k < |left| && left[k].Shared? ==> n <= left[k].from
  {
    var left := [Remains(ps[i], n)] + ps[i + 1..];
    assert forall k :: 0 < k < |left| ==> left[k] == ps[i + k];
  }

  /** Copying the first bytes of a piece to the front of the same array spoils nothing that is still to be delivered:
      whatever is left lies behind the bytes written. */
  lemma OverlapIsHarmless(ps: seq<Piece>, mem: bytes, now: bytes, i: nat, n: nat)
    requires i < |ps| && Layered(ps, |mem|) && n <= |Text(ps[i], mem)|
    requires |now| == |mem| && n <= |mem| && now[n..] == mem[n..]
    ensures var left := [Remains(ps[i], n)] + ps[i + 1..];
            Layered(left, |mem|) && Texts(left, now) == [Text(ps[i], mem)[n..]] + Texts(ps, mem)[i + 1..]
  {
    var left := [Remains(ps[i], n)] + ps[i + 1..];
    LeftIsLayered(ps, |mem|, i, n);
    FirstLeft(ps[i], mem, now, n);
    forall k | 0 < k < |left|
      ensures Text(left[k], now) == Texts(ps, mem)[i + 1..][k - 1]
    {
      assert left[k] == ps[i + k];
      if left[k].Shared? {
        SameTail(mem, now, n, left[k].from, left[k].to);
      }
    }
  }

  lemma FirstLeft(p: Piece, mem: bytes, now: bytes, n: nat)
    requires n <= |Text(p, mem)| && |now| == |mem| && n <= |mem| && now[n..] == mem[n..]
    requires p.Shared? ==> p.from <= p.to <= |mem|
    ensures Text(Remains(p, n), now) == Text(p, mem)[n..]
  {
    if p.Shared? {
      SameTail(mem, now, n, p.from + n, p.to);
      assert mem[p.from..p.to][n..] == mem[p.from + n..p.to];
    }
  }

  /** The same when the bytes go to some other array. */
  lemma ElsewhereIsHarmless(ps: seq<Piece>, mem: bytes, i: nat, n: nat)
    requires i < |ps| && Layered(ps, |mem|) && n <= |Text(ps[i], mem)|
    ensures var left := [Remains(ps[i], n)] + ps[i + 1..];
            Layered(left, |mem|) && Texts(left, mem) == [Text(ps[i], mem)[n..]] + Texts(ps, mem)[i + 1..]
  {
    if n <= |mem| {
      OverlapIsHarmless(ps, mem, mem, i, n);
    } else {
      assert ps[i].Own?;
      assert forall k :: i < k < |ps| ==> ps[k].Own?;
    }
  }

  // ---- serving ------------------------------------------------------------------------------

  /** Exhausted buffers are skipped. */
  lemma {:induction false} ServeSkips(bufs: seq<bytes>, i: nat, max: nat)
    requires max > 0 && i <= |bufs| && forall k :: 0 <= k < i ==> bufs[k] == []
    ensures R.Serve(bufs, max) == R.Serve(bufs[i..], max)
    decreases i
  {
    if i == 0 {
      assert bufs[0..] == bufs;
    } else {
      ServeSkips(bufs[1..], i - 1, max);
      assert bufs[1..][i - 1..] == bufs[i..];
    }
  }

  lemma ServeFirst(bufs: seq<bytes>, i: nat, max: nat)
    requires max > 0 && i < |bufs| && bufs[i] != [] && forall k :: 0 <= k < i ==> bufs[k] == []
    ensures var n := Min(|bufs[i]|, max); R.Serve(bufs, max) == (bufs[i][..n], [bufs[i][n..]] + bufs[i + 1..])
  {
    ServeSkips(bufs, i, max);
    assert bufs[i..][0] == bufs[i] && bufs[i..][1..] == bufs[i + 1..];
  }

  lemma ServeNothing(bufs: seq<bytes>, max: nat)
    requires max > 0 && forall k :: 0 <= k < |bufs| ==> bufs[k] == []
    ensures R.Serve(bufs, max) == ([], [])
  {
    ServeSkips(bufs, |bufs|, max);
  }

  // ---- where the decoder's buffers lie --------------------------------------------------------

  /** Each buffer and what is behind it lie behind the one before; all of them in front of the last `low` bytes. */
  predicate Descending(buffers: seq<bytes>, spare: seq<bytes>, low: nat) {
    && |spare| == |buffers|
    && (forall i :: 0 <= i < |buffers| ==> |spare[i]| >= low)
    && (forall i, j :: 0 <= i < j < |buffers| ==> |spare[i]| >= |buffers[j]| + |spare[j]|)
  }

  lemma OneMoreDescends(b: bytes, rest: bytes, buffers: seq<bytes>, spare: seq<bytes>, low: nat)
    requires Descending(buffers, spare, low) && LiesBehind(rest, buffers, spare) && |rest| >= low
    ensures Descending([b] + buffers, [rest] + spare, low)
  {
    forall j | 0 <= j < |buffers|
      ensures |rest| >= |buffers[j]| + |spare[j]|
    {
      assert EndsWith(rest, buffers[j] + spare[j]);
    }
  }

  lemma {:induction false} SpareDescends(c: Cursor, buf: bytes, beyond: bytes)
    ensures Descending(Drain(c, buf).buffers, Spare(c, buf, beyond), |beyond|)
    decreases |buf|
  {
    if buf == [] {
    } else if c.AtBoundary() {
      if c.command != END && |buf| >= 5 {
        SpareDescends(ReadHeader(buf), buf[5..], beyond);
      }
    } else if c.content > 0 {
      var n := Min(c.content, |buf|);
      var c' := c.(content := c.content - n);
      SpareDescends(c', buf[n..], beyond);
      SpareIsBehind(c', buf[n..], beyond);
      OneMoreDescends(buf[..n], buf[n..] + beyond, Drain(c', buf[n..]).buffers, Spare(c', buf[n..], beyond), |beyond|);
    } else {
      var n := Min(c.padding, |buf|);
      SpareDescends(c.(padding := c.padding - n), buf[n..], beyond);
    }
  }

  /** The same for a whole `unPadding` call. */
  lemma UnPadLies(id: Uuid, c: Cursor, buf: bytes, beyond: bytes)
    ensures LiesBehind(buf + beyond, UnPad(id, c, buf).buffers, UnPadSpare(id, c, buf, beyond))
    ensures Descending(UnPad(id, c, buf).buffers, UnPadSpare(id, c, buf, beyond), |beyond|)
  {
    if c.Outside() {
      if OpensFrame(id, buf) {
        SpareIsBehind(START, buf[16..], beyond);
        SpareDescends(START, buf[16..], beyond);
        LongerMemory(buf, 16, beyond, Drain(START, buf[16..]).buffers, Spare(START, buf[16..], beyond));
      } else {
        assert (buf + beyond)[0..] == buf + beyond;
      }
    } else {
      SpareIsBehind(c, buf, beyond);
      SpareDescends(c, buf, beyond);
    }
  }

  /** The slice of the array that a buffer is, from how much lies behind it. */
  function Place(b: bytes, spare: bytes, total: nat): Piece
    requires |b| + |spare| <= total
  {
    Shared(total - |b| - |spare|, total - |spare|)
  }

  lemma PlaceHasText(buf: bytes, beyond: bytes, b: bytes, spare: bytes, mem: bytes)
    requires EndsWith(buf + beyond, b + spare) && |spare| >= |beyond|
    requires |buf| <= |mem| && mem[..|buf|] == buf
    ensures var p := Place(b, spare, |buf| + |beyond|); p.from <= p.to <= |buf| && Text(p, mem) == b
  {
    var memory, p := buf + beyond, Place(b, spare, |buf| + |beyond|);
    assert memory[p.from..][..|b|] == b;
    assert memory[p.from..p.to] == buf[p.from..p.to] == mem[p.from..p.to];
  }

  /** The buffers of a chunk as slices of the array it was read into, and what was appended to them as it is. */
  function Placed(buffers: seq<bytes>, spare: seq<bytes>, k: nat, total: nat): seq<Piece>
    requires k <= |buffers| && k <= |spare| && forall i :: 0 <= i < k ==> |buffers[i]| + |spare[i]| <= total
  {
    seq(|buffers|, i requires 0 <= i < |buffers| => if i < k then Place(buffers[i], spare[i], total) else Own(buffers[i]))
  }

  predicate Places(buf: bytes, beyond: bytes, buffers: seq<bytes>, spare: seq<bytes>, k: nat) {
    && k <= |buffers| && k <= |spare|
    && LiesBehind(buf + beyond, buffers[..k], spare[..k]) && Descending(buffers[..k], spare[..k], |beyond|)
  }

  lemma PlacesFit(buf: bytes, beyond: bytes, buffers: seq<bytes>, spare: seq<bytes>, k: nat)
    requires Places(buf, beyond, buffers, spare, k)
    ensures forall i :: 0 <= i < k ==> |buffers[i]| + |spare[i]| <= |buf| + |beyond|
  {
    forall i | 0 <= i < k
      ensures |buffers[i]| + |spare[i]| <= |buf| + |beyond|
    {
      assert EndsWith(buf + beyond, buffers[..k][i] + spare[..k][i]);
    }
  }

  lemma PlacedTexts(buf: bytes, beyond: bytes, buffers: seq<bytes>, spare: seq<bytes>, k: nat, mem: bytes)
    requires Places(buf, beyond, buffers, spare, k) && |buf| <= |mem| && mem[..|buf|] == buf
    requires forall i :: 0 <= i < k ==> |buffers[i]| + |spare[i]| <= |buf| + |beyond|
    ensures var ps := Placed(buffers, spare, k, |buf| + |beyond|); Layered(ps, |mem|) && Texts(ps, mem) == buffers
  {
    var ps := Placed(buffers, spare, k, |buf| + |beyond|);
    forall i | 0 <= i < k
      ensures ps[i].from <= ps[i].to <= |buf| && Text(ps[i], mem) == buffers[i]
    {
      assert EndsWith(buf + beyond, buffers[..k][i] + spare[..k][i]);
      assert |spare[..k][i]| >= |beyond|;
      PlaceHasText(buf, beyond, buffers[i], spare[i], mem);
    }
    forall i, j | 0 <= i < j < k
      ensures ps[i].to <= ps[j].from
    {
      assert |spare[..k][i]| >= |buffers[..k][j]| + |spare[..k][j]|;
    }
  }
}
