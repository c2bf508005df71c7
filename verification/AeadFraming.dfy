/** Length-prefixed AEAD chunks, shared by the VMess body and the Shadowsocks stream. The cipher is arbitrary, up to
    the law that opening undoes sealing. */
module AeadFraming {
  import opened Bytes
  import opened Records

  /** Arguments are key, nonce, text and additional data. */
  datatype Aead = Aead(seal: (bytes, bytes, bytes, bytes) -> bytes, open: (bytes, bytes, bytes, bytes) -> Option<bytes>)

  ghost predicate Lawful(a: Aead) {
    forall k, n, p, d :: |a.seal(k, n, p, d)| == |p| + 16 && a.open(k, n, a.seal(k, n, p, d), d) == Some(p)
  }

  /** One direction of a stream: the nonce of the n-th chunk, and the additional data for a plaintext length. */
  datatype Channel = Channel(aead: Aead, key: bytes, nonce: nat -> bytes, extra: nat -> bytes)

  const SLICE: nat := 0x3fff

  /** The slices a writer cuts its input into. */
  function Slices(p: bytes): (r: seq<bytes>)
    ensures Flatten(r) == p
    ensures forall i :: 0 <= i < |r| ==> 1 <= |r[i]| <= SLICE
  {
    assert p[0..] == p;
    SlicesFrom(p, 0)
  }

  function SlicesFrom(p: bytes, offset: nat): (r: seq<bytes>)
    requires offset <= |p|
    ensures Flatten(r) == p[offset..]
    ensures forall i :: 0 <= i < |r| ==> 1 <= |r[i]| <= SLICE
    decreases |p| - offset
  {
    if offset == |p| then []
    else
      var end := Min(|p|, offset + SLICE);
      var rest := SlicesFrom(p, end);
      FlattenCons(p[offset..end], rest);
      assert p[offset..] == p[offset..end] + p[end..];
      [p[offset..end]] + rest
  }

  /** The slices are those of 16383 bytes each, and one with what remains. */
  lemma SlicesAre(p: bytes)
    ensures |p| <= |Slices(p)| * 16383 < |p| + 16383
    ensures forall i :: 0 <= i < |Slices(p)| ==> Slices(p)[i] == p[i * 16383..Min(|p|, (i + 1) * 16383)]
  {
    SliceCount(p, 0);
    forall i | 0 <= i < |Slices(p)|
      ensures Slices(p)[i] == p[i * 16383..Min(|p|, (i + 1) * 16383)]
    {
      SliceAt(p, 0, i);
    }
  }

  lemma {:induction false} SliceCount(p: bytes, offset: nat)
    requires offset <= |p|
    ensures |p| - offset <= |SlicesFrom(p, offset)| * 16383 < |p| - offset + 16383
    decreases |p| - offset
  {
    if offset < |p| {
      SliceCount(p, Min(|p|, offset + 16383));
    }
  }

  lemma {:induction false} SliceAt(p: bytes, offset: nat, i: nat)
    requires offset <= |p| && i < |SlicesFrom(p, offset)|
    ensures var start := offset + i * 16383;
            start < |p| && SlicesFrom(p, offset)[i] == p[start..Min(|p|, start + 16383)]
    decreases i
  {
    if i > 0 {
      var end := Min(|p|, offset + 16383);
      assert SlicesFrom(p, offset)[1..] == SlicesFrom(p, end);
      SliceAt(p, end, i - 1);
    }
  }

  function Seal(c: Channel, count: nat, part: bytes): bytes {
    c.aead.seal(c.key, c.nonce(count), part, c.extra(|part|))
  }

  function SealedChunk(c: Channel, count: nat, part: bytes): bytes {
    U16(|Seal(c, count, part)|) + Seal(c, count, part)
  }

  /** The chunks a writer emits for `parts`, the first under the nonce of index `count`. */
  function SealedChunks(c: Channel, count: nat, parts: seq<bytes>): seq<bytes> {
    WriteAll((n, part) => SealedChunk(c, n, part), count, parts)
  }

  /** The loop has cut off `done` slices, `offset` bytes in all. */
  predicate SlicedUpTo(p: bytes, offset: nat, parts: seq<bytes>, done: nat) {
    offset <= |p| && done <= |parts| && SlicesFrom(p, offset) == parts[done..]
  }

  /** One turn of a slicing loop. */
  lemma SliceStep(p: bytes, offset: nat, parts: seq<bytes>, done: nat)
    requires offset < |p| && SlicedUpTo(p, offset, parts, done)
    ensures var end := Min(|p|, offset + SLICE);
            && done < |parts| && parts[done] == p[offset..end]
            && parts[..done + 1] == parts[..done] + [p[offset..end]]
            && SlicedUpTo(p, end, parts, done + 1)
  {
    var end := Min(|p|, offset + SLICE);
    assert parts[done..][0] == p[offset..end] && parts[done..][1..] == SlicesFrom(p, end);
  }

  lemma SealedAppend(c: Channel, count: nat, a: seq<bytes>, b: seq<bytes>)
    ensures SealedChunks(c, count, a + b) == SealedChunks(c, count, a) + SealedChunks(c, count + |a|, b)
  {
    WriteAppend((n, part) => SealedChunk(c, n, part), count, a, b);
  }

  /** The slicing loop of both writers. */
  method Cut(p: bytes) returns (parts: seq<bytes>)
    ensures parts == Slices(p)
  {
    parts := [];
    ghost var whole := Slices(p);
    var offset := 0;
    assert whole[0..] == whole;
    while offset < |p|
      invariant SlicedUpTo(p, offset, whole, |parts|) && parts == whole[..|parts|]
    {
      SliceStep(p, offset, whole, |parts|);
      var end := Min(|p|, offset + SLICE);
      parts := parts + [p[offset..end]];
      offset := end;
    }
    AllSliced(p, whole, parts);
  }

  lemma AllSliced(p: bytes, whole: seq<bytes>, parts: seq<bytes>)
    requires |parts| <= |whole| && parts == whole[..|parts|] && SlicedUpTo(p, |p|, whole, |parts|)
    ensures parts == whole
  {
    assert whole[|parts|..] == [];
  }

  lemma SealedSnoc(c: Channel, count: nat, parts: seq<bytes>, done: nat)
    requires done < |parts|
    ensures var before, chunk := SealedChunks(c, count, parts[..done]), SealedChunk(c, count + done, parts[done]);
            && SealedChunks(c, count, parts[..done + 1]) == before + [chunk]
            && Flatten(before + [chunk]) == Flatten(before) + chunk
  {
    var write := (n: nat, part: bytes) => SealedChunk(c, n, part);
    assert parts[..done + 1] == parts[..done] + [parts[done]];
    WriteAppend(write, count, parts[..done], [parts[done]]);
    assert WriteAll(write, count + done, [parts[done]]) == [write(count + done, parts[done])];
    FlattenSnoc(SealedChunks(c, count, parts[..done]), SealedChunk(c, count + done, parts[done]));
  }

  predicate Sliced(parts: seq<bytes>) {
    forall i :: 0 <= i < |parts| ==> 1 <= |parts[i]| <= SLICE
  }

  /** Why a reader stops. `Starved` means that the promise it waits for stays pending. */
  datatype Reason = EndMarker(rest: bytes) | Starved | BadTag

  /** One read of a chunk; a zero length is the end marker where the protocol has one. */
  function NextChunk(c: Channel, count: nat, marker: bool, stream: bytes): Found<bytes, Reason> {
    if |stream| < 2 then Stop(Starved)
    else
      var size := FromU16(stream[0], stream[1]);
      if size == 0 && marker then Stop(EndMarker(stream[2..]))
      else if |stream| < 2 + size then Stop(Starved)
      else
        var text := OpenChunk(c, count, stream[2..2 + size]);
        if text.None? then Stop(BadTag) else Got(text.value, stream[2 + size..])
  }

  /** Opening fails on anything too short to hold a tag. */
  function OpenChunk(c: Channel, count: nat, sealed: bytes): Option<bytes> {
    if |sealed| < 16 then None else c.aead.open(c.key, c.nonce(count), sealed, c.extra(|sealed| - 16))
  }

  /** Whatever was sealed is opened under the same count, an empty text, too; anything shorter than a tag is not. */
  lemma OpensSealed(c: Channel, count: nat, part: bytes, short: bytes)
    requires Lawful(c.aead) && |short| < 16
    ensures OpenChunk(c, count, Seal(c, count, part)) == Some(part) && OpenChunk(c, count, short) == None
  {
  }

  /** All plaintext chunks up to the end marker, the first failure, or the end of what has arrived. */
  function ReadChunks(c: Channel, count: nat, marker: bool, stream: bytes): (seq<bytes>, Found<bytes, Reason>) {
    ReadAll((n, s) => NextChunk(c, n, marker, s), count, stream)
  }

  /** More bytes behind a whole chunk, or behind the end marker, do not change it. */
  lemma NextChunkExtends(c: Channel, count: nat, s: bytes, t: bytes)
    ensures match NextChunk(c, count, true, s)
            case Got(plain, rest) => NextChunk(c, count, true, s + t) == Got(plain, rest + t)
            case Stop(EndMarker(rest)) => NextChunk(c, count, true, s + t) == Stop(EndMarker(rest + t))
            case Stop(_) => true
  {
    if |s| >= 2 {
      var size := FromU16(s[0], s[1]);
      assert (s + t)[2..] == s[2..] + t;
      if |s| >= 2 + size {
        assert (s + t)[2..2 + size] == s[2..2 + size] && (s + t)[2 + size..] == s[2 + size..] + t;
      }
    }
  }

  lemma ReadStops(c: Channel, count: nat, marker: bool, s: bytes, why: Reason)
    requires NextChunk(c, count, marker, s) == Stop(why)
    ensures ReadChunks(c, count, marker, s) == ([], Stop(why))
  {
  }

  lemma ReadOne(c: Channel, count: nat, s: bytes)
    ensures match NextChunk(c, count, true, s)
            case Got(plain, rest) =>
              var more := ReadChunks(c, count + 1, true, rest);
              |rest| < |s| && ReadChunks(c, count, true, s) == ([plain] + more.0, more.1)
            case Stop(why) => ReadChunks(c, count, true, s) == ([], Stop(why))
  {
  }

  /** What a relay that has passed on `plaintext` will have passed on at the end, its counter, and why it stops. */
  function Relayed(c: Channel, count: nat, s: bytes, plaintext: bytes): (bytes, nat, Found<bytes, Reason>)
    decreases |s|
  {
    var found := NextChunk(c, count, true, s);
    if found.Got? && |found.rest| < |s| then Relayed(c, count + 1, found.rest, plaintext + found.item) else (plaintext, count, found)
  }

  lemma {:induction false} RelayedAppends(c: Channel, count: nat, s: bytes, plaintext: bytes)
    ensures var (parts, stop) := ReadChunks(c, count, true, s);
            Relayed(c, count, s, plaintext) == (plaintext + Flatten(parts), count + |parts|, stop)
    decreases |s|
  {
    ReadOne(c, count, s);
    match NextChunk(c, count, true, s) {
      case Got(plain, rest) =>
        RelayedAppends(c, count + 1, rest, plaintext + plain);
        var more := ReadChunks(c, count + 1, true, rest).0;
        FlattenCons(plain, more);
        Associate(plaintext, plain, Flatten(more));
      case Stop(_) => assert plaintext + [] == plaintext;
    }
  }

  /** A cut stream reads as the beginning of the whole one; and if it holds the end marker, as all of it. */
  lemma {:induction false} ReadChunksPrefix(c: Channel, count: nat, s: bytes, t: bytes)
    ensures var cut, all := ReadChunks(c, count, true, s), ReadChunks(c, count, true, s + t);
            && cut.0 <= all.0
            && (cut.1.Stop? && cut.1.why.EndMarker? ==> all.0 == cut.0)
    decreases |s|
  {
    ReadOne(c, count, s);
    ReadOne(c, count, s + t);
    NextChunkExtends(c, count, s, t);
    var found := NextChunk(c, count, true, s);
    if found.Got? {
      ReadChunksPrefix(c, count + 1, found.rest, t);
    }
  }

  /** The size field is never zero and never overflows its two bytes. */
  lemma SizeField(c: Channel, count: nat, part: bytes)
    requires Lawful(c.aead) && 1 <= |part| <= SLICE
    ensures 17 <= |Seal(c, count, part)| <= 16399
    ensures FromU16(SealedChunk(c, count, part)[0], SealedChunk(c, count, part)[1]) == |Seal(c, count, part)|
  {
    U16ReadsBack(|Seal(c, count, part)|);
  }

  lemma NextOfSealed(c: Channel, count: nat, marker: bool, part: bytes, rest: bytes)
    requires Lawful(c.aead) && 1 <= |part| <= SLICE
    ensures NextChunk(c, count, marker, SealedChunk(c, count, part) + rest) == Got(part, rest)
  {
    var sealed := Seal(c, count, part);
    SizeField(c, count, part);
    var stream := SealedChunk(c, count, part) + rest;
    assert stream[2..2 + |sealed|] == sealed && stream[2 + |sealed|..] == rest;
  }

  /** A reader in step with the writer's counter gets the slices back, and then whatever follows. */
  lemma StreamRoundTrip(c: Channel, count: nat, marker: bool, parts: seq<bytes>, rest: bytes)
    requires Lawful(c.aead) && Sliced(parts)
    ensures var more := ReadChunks(c, count + |parts|, marker, rest);
            ReadChunks(c, count, marker, Flatten(SealedChunks(c, count, parts)) + rest) == (parts + more.0, more.1)
  {
    var write := (n: nat, part: bytes) => SealedChunk(c, n, part);
    var parse := (n: nat, s: bytes) => NextChunk(c, n, marker, s);
    var ok := (part: bytes) => 1 <= |part| <= SLICE;
    forall n: nat, part: bytes, after: bytes | ok(part)
      ensures write(n, part) != [] && parse(n, write(n, part) + after) == Got(part, after)
    {
      NextOfSealed(c, n, marker, part, after);
    }
    RoundTrip(write, parse, ok, count, parts, rest);
  }

  /** Splitting writes differently changes the slices but not the bytes. */
  function AllSlices(writes: seq<bytes>): seq<bytes> {
    if writes == [] then [] else Slices(writes[0]) + AllSlices(writes[1..])
  }

  lemma {:induction false} AllSlicesFlatten(writes: seq<bytes>)
    ensures Flatten(AllSlices(writes)) == Flatten(writes) && Sliced(AllSlices(writes))
  {
    if writes != [] {
      AllSlicesFlatten(writes[1..]);
      FlattenAppend(Slices(writes[0]), AllSlices(writes[1..]));
    }
  }

  lemma {:induction false} AllSlicesAppend(a: seq<bytes>, b: seq<bytes>)
    ensures AllSlices(a + b) == AllSlices(a) + AllSlices(b)
    decreases |a|
  {
    if a == [] {
      assert a + b == b;
    } else {
      assert (a + b)[1..] == a[1..] + b;
      AllSlicesAppend(a[1..], b);
    }
  }

  lemma AllSlicesSnoc(writes: seq<bytes>, i: nat)
    requires i < |writes|
    ensures AllSlices(writes[..i + 1]) == AllSlices(writes[..i]) + Slices(writes[i])
  {
    assert writes[..i + 1] == writes[..i] + [writes[i]];
    AllSlicesAppend(writes[..i], [writes[i]]);
    assert AllSlices([writes[i]]) == Slices(writes[i]) + [];
  }

  lemma AllSlicesGrow(writes: seq<bytes>, i: nat)
    requires i <= |writes|
    ensures |AllSlices(writes[..i])| <= |AllSlices(writes)|
  {
    AllSlicesAppend(writes[..i], writes[i..]);
    assert writes[..i] + writes[i..] == writes;
  }
}
