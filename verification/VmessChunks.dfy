/** The VMess body writer: sliced, sealed under a counting nonce, and stopped by the 16-bit counter. */
module VmessChunks {
  import opened Bytes
  import opened AeadFraming
  import Records

  const LIMIT: nat := 65536

  type Iv = b: bytes | |b| == 16 witness Repeat(0, 16)

  /** The count in two bytes, then bytes 2 to 11 of the IV. */
  function ChunkNonce(iv: Iv, count: nat): bytes {
    U16(count) + iv[2..12]
  }

  /** `writeUInt16BE` throws on a count that does not fit. */
  predicate NonceThrows(count: nat) {
    count >= LIMIT
  }

  function BodyChannel(aead: Aead, key: bytes, iv: Iv): Channel {
    Channel(aead, key, n => ChunkNonce(iv, n), _ => [])
  }

  /** The nonce of a chunk in bytes. */
  lemma NonceBytes(iv: Iv, count: nat)
    requires count < 65536
    ensures var nonce := ChunkNonce(iv, count);
            && |nonce| == 12 && nonce[0] == count / 256 && nonce[1] == count % 256
            && forall i :: 2 <= i < 12 ==> nonce[i] == iv[i]
  {
    SmallRemainder(count, 65536);
  }

  /** A chunk on the wire: the sealed length, most significant byte first, and the sealed slice without additional data. */
  lemma ChunkBytes(aead: Aead, key: bytes, iv: Iv, count: nat, part: bytes)
    requires Lawful(aead) && count < 65536 && 1 <= |part| <= 16383
    ensures var sealed := aead.seal(key, [count / 256, count % 256] + iv[2..12], part, []);
            SealedChunk(BodyChannel(aead, key, iv), count, part) == [(|part| + 16) / 256, (|part| + 16) % 256] + sealed
  {
    SmallRemainder(count, 65536);
    SmallRemainder(|part| + 16, 65536);
  }

  /** Nonces of different counts below the limit differ; the limit is where they would start to repeat. */
  lemma NonceIff(iv: Iv, a: nat, b: nat)
    ensures ChunkNonce(iv, a) == ChunkNonce(iv, b) <==> a % LIMIT == b % LIMIT
  {
    U16ReadsBack(a);
    U16ReadsBack(b);
    assert ChunkNonce(iv, a)[..2] == U16(a) && ChunkNonce(iv, b)[..2] == U16(b);
    if a % LIMIT == b % LIMIT {
      SameLowBytes(a, b);
    }
  }

  lemma SameLowBytes(a: nat, b: nat)
    requires a % LIMIT == b % LIMIT
    ensures U16(a) == U16(b)
  {
    U16Wraps(a);
    U16Wraps(b);
  }

  lemma SmallNoncesDiffer(iv: Iv, a: nat, b: nat)
    requires a < b < LIMIT
    ensures ChunkNonce(iv, a) != ChunkNonce(iv, b)
  {
    SmallRemainder(a, LIMIT);
    SmallRemainder(b, LIMIT);
    NonceIff(iv, a, b);
  }

  lemma NonceAt(iv: Iv, n: nat, i: nat)
    requires i < n
    ensures FirstNonces(iv, n)[i] == ChunkNonce(iv, i)
  {
  }

  function FirstNonces(iv: Iv, n: nat): seq<bytes> {
    seq(n, i requires 0 <= i < n => ChunkNonce(iv, i))
  }

  lemma NonceSnoc(iv: Iv, n: nat)
    ensures FirstNonces(iv, n + 1) == FirstNonces(iv, n) + [ChunkNonce(iv, n)]
  {
  }

  /** How many of `n` further chunks can still be sealed. */
  function Allowed(count: nat, n: nat): (k: nat)
    ensures k <= n
  {
    if count >= LIMIT then 0 else Min(n, LIMIT - count)
  }

  class VmessChunkWriter {
    const channel: Channel
    const iv: Iv
    var count: nat
    /** The buffers handed to the sink, in order. */
    var sink: seq<bytes>
    /** The nonces used for sealing, in order. */
    ghost var nonces: seq<bytes>

    constructor (aead: Aead, key: bytes, iv: Iv)
      ensures Valid() && channel == BodyChannel(aead, key, iv) && count == 0 && sink == [] && nonces == []
    {
      channel := BodyChannel(aead, key, iv);
      this.iv := iv;
      count, sink, nonces := 0, [], [];
    }

    /** Every sealed chunk used the nonce of its index. */
    ghost predicate Valid()
      reads this
    {
      channel == BodyChannel(channel.aead, channel.key, iv) && nonces == FirstNonces(iv, Min(count, LIMIT))
    }

    /** No nonce was used twice, whatever was written so far. */
    lemma NoncesDistinct()
      requires Valid()
      ensures forall i, j :: 0 <= i < j < |nonces| ==> nonces[i] != nonces[j]
    {
      forall i, j | 0 <= i < j < |nonces|
        ensures nonces[i] != nonces[j]
      {
        NonceAt(iv, |nonces|, i);
        NonceAt(iv, |nonces|, j);
        SmallNoncesDiffer(iv, i, j);
      }
    }

    /** Seals one slice under the next nonce. The count goes up even when building the nonce throws. */
    method SendChunk(part: bytes) returns (thrown: bool)
      requires Valid()
      modifies this
      ensures Valid() && count == old(count) + 1 && thrown == (old(count) >= LIMIT)
      ensures sink == if thrown then old(sink) else old(sink) + [SealedChunk(channel, old(count), part)]
    {
      var index := count;
      count := count + 1;
      if NonceThrows(index) {
        return true;
      }
      NonceSnoc(iv, index);
      nonces := nonces + [ChunkNonce(iv, index)];
      var sealed := Seal(channel, index, part);
      sink := sink + [U16(|sealed|) + sealed];
      return false;
    }

    /** Writes the slices of `plaintext` as far as nonces last; throws exactly when they do not last. */
    method Write(plaintext: bytes) returns (thrown: bool)
      requires Valid()
      modifies this
      ensures Valid()
      ensures var parts := Slices(plaintext);
              var k := Allowed(old(count), |parts|);
              && thrown == (k < |parts|)
              && sink == old(sink) + SealedChunks(channel, old(count), parts[..k])
              && count == old(count) + k + if thrown then 1 else 0
    {
      var parts := Cut(plaintext);
      ghost var start, before := count, sink;
      for done := 0 to |parts|
        invariant Valid() && done <= Allowed(start, |parts|) && count == start + done
        invariant sink == before + SealedChunks(channel, start, parts[..done])
      {
        SealedSnoc(channel, start, parts, done);
        thrown := SendChunk(parts[done]);
        if thrown {
          return;
        }
      }
      assert parts[..|parts|] == parts;
      return false;
    }

    method End()
      modifies `sink
      ensures sink == old(sink) + [U16(0)]
    {
      sink := sink + [U16(0)];
    }
  }

  /** The bytes of a whole body: the sealed slices of all writes, then the end marker. */
  function Body(c: Channel, writes: seq<bytes>): bytes {
    Flatten(SealedChunks(c, 0, AllSlices(writes)) + [U16(0)])
  }

  /** The end marker stops the reader and leaves what follows. */
  lemma EndMarkerStops(c: Channel, count: nat, rest: bytes)
    ensures ReadChunks(c, count, true, U16(0) + rest) == ([], Records.Stop(EndMarker(rest)))
  {
    ZeroSize(rest);
    ZeroSizeStops(c, count, U16(0) + rest);
    ReadStops(c, count, true, U16(0) + rest, EndMarker(rest));
  }

  lemma ZeroSize(rest: bytes)
    ensures var s := U16(0) + rest; FromU16(s[0], s[1]) == 0 && s[2..] == rest
  {
  }

  lemma ZeroSizeStops(c: Channel, count: nat, s: bytes)
    requires |s| >= 2 && FromU16(s[0], s[1]) == 0
    ensures NextChunk(c, count, true, s) == Records.Stop(EndMarker(s[2..]))
  {
  }

  /** Everything one side writes and the end marker reads back as its slices, then the end. */
  lemma BodyRoundTrip(aead: Aead, key: bytes, iv: Iv, writes: seq<bytes>, rest: bytes)
    requires Lawful(aead)
    ensures var c := BodyChannel(aead, key, iv);
            && ReadChunks(c, 0, true, Body(c, writes) + rest) == (AllSlices(writes), Records.Stop(EndMarker(rest)))
            && Flatten(AllSlices(writes)) == Flatten(writes)
  {
    AllSlicesFlatten(writes);
    MarkedRoundTrip(BodyChannel(aead, key, iv), AllSlices(writes), rest);
  }

  lemma MarkedRoundTrip(c: Channel, parts: seq<bytes>, rest: bytes)
    requires Lawful(c.aead) && Sliced(parts)
    ensures ReadChunks(c, 0, true, Flatten(SealedChunks(c, 0, parts) + [U16(0)]) + rest) == (parts, Records.Stop(EndMarker(rest)))
  {
    var chunks := SealedChunks(c, 0, parts);
    FlattenSnoc(chunks, U16(0));
    Associate(Flatten(chunks), U16(0), rest);
    StreamRoundTrip(c, 0, true, parts, U16(0) + rest);
    EndMarkerStops(c, |parts|, rest);
    assert parts + [] == parts;
  }
}
