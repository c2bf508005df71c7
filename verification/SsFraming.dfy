/** The Shadowsocks stream: salt, the sealed address, then sealed slices, each under the next counter value. */
module SsFraming {
  import opened Bytes
  import opened AeadFraming
  import Records

  function SsNonce(count: nat): bytes {
    LittleEndian(count, 8) + Repeat(0, 4)
  }

  /** The counter is a JavaScript number and stays far below 2^64, so no nonce comes back. */
  lemma SsNoncesDistinct(a: nat, b: nat)
    requires a != b && a < Power256(8) && b < Power256(8)
    ensures SsNonce(a) != SsNonce(b)
  {
    assert SsNonce(a)[..8] == LittleEndian(a, 8) && SsNonce(b)[..8] == LittleEndian(b, 8);
    LittleEndianReadsBack(a, 8);
    LittleEndianReadsBack(b, 8);
    SmallRemainder(a, Power256(8));
    SmallRemainder(b, Power256(8));
  }

  /** The nonce in bytes: the counter, least significant byte first, and four zeros. */
  lemma NonceBytes(count: nat)
    ensures var nonce := SsNonce(count);
            && |nonce| == 12 && (forall i: nat :: i < 8 ==> nonce[i] == count / Power256(i) % 256)
            && forall i :: 8 <= i < 12 ==> nonce[i] == 0
  {
    forall i: nat | i < 8
      ensures SsNonce(count)[i] == count / Power256(i) % 256
    {
      LittleEndianAt(count, 8, i);
    }
  }

  /** A chunk on the wire: the sealed length, and the slice sealed with its own length as additional data, both most
      significant byte first. */
  lemma ChunkBytes(aead: Aead, key: bytes, count: nat, part: bytes)
    requires Lawful(aead) && 1 <= |part| <= 16383
    ensures var sealed := aead.seal(key, SsNonce(count), part, [|part| / 256, |part| % 256]);
            SealedChunk(SsChannel(aead, key), count, part) == [(|part| + 16) / 256, (|part| + 16) % 256] + sealed
  {
    SmallRemainder(|part|, 65536);
    SmallRemainder(|part| + 16, 65536);
  }

  /** The additional data of a chunk is its plaintext length in two bytes. */
  function SsChannel(aead: Aead, key: bytes): Channel {
    Channel(aead, key, n => SsNonce(n), len => U16(len))
  }

  class SsWriter {
    const channel: Channel
    var counter: nat
    /** What was written to the socket. */
    var sent: bytes

    constructor (aead: Aead, key: bytes)
      ensures channel == SsChannel(aead, key) && counter == 0 && sent == []
    {
      channel := SsChannel(aead, key);
      counter, sent := 0, [];
    }

    /** The opening message: the salt in clear, then the address as the first chunk. */
    method Open(salt: bytes, address: bytes)
      modifies this
      ensures sent == old(sent) + salt + SealedChunk(channel, old(counter), address) && counter == old(counter) + 1
    {
      var first := Seal(channel, counter, address);
      counter := counter + 1;
      sent := sent + salt + (U16(|first|) + first);
    }

    method SendChunk(part: bytes)
      modifies this
      ensures sent == old(sent) + SealedChunk(channel, old(counter), part) && counter == old(counter) + 1
    {
      var sealed := Seal(channel, counter, part);
      counter := counter + 1;
      sent := sent + (U16(|sealed|) + sealed);
    }

    method Write(data: bytes)
      modifies this
      ensures var parts := Slices(data);
              && counter == old(counter) + |parts|
              && sent == old(sent) + Flatten(SealedChunks(channel, old(counter), parts))
    {
      var parts := Cut(data);
      for done := 0 to |parts|
        invariant counter == old(counter) + done
        invariant sent == old(sent) + Flatten(SealedChunks(channel, old(counter), parts[..done]))
      {
        SealedSnoc(channel, old(counter), parts, done);
        SendChunk(parts[done]);
      }
      assert parts[..|parts|] == parts;
    }
  }

  /** A whole connection as the client writes it: the opening message, then every write. */
  method SendAll(aead: Aead, key: bytes, salt: bytes, address: bytes, writes: seq<bytes>) returns (wire: bytes)
    ensures wire == Wire(SsChannel(aead, key), salt, address, writes)
  {
    var writer := new SsWriter(aead, key);
    writer.Open(salt, address);
    assert [] + salt == salt;
    ghost var c, opening := writer.channel, writer.sent;
    assert writes[..0] == [] && opening + [] == opening;
    for i := 0 to |writes|
      invariant writer.channel == c && writer.counter == 1 + |AllSlices(writes[..i])|
      invariant writer.sent == opening + Flatten(SealedChunks(c, 1, AllSlices(writes[..i])))
    {
      OneMoreWrite(c, opening, writes, i);
      writer.Write(writes[i]);
    }
    assert writes[..|writes|] == writes;
    return writer.sent;
  }

  lemma OneMoreWrite(c: Channel, opening: bytes, writes: seq<bytes>, i: nat)
    requires i < |writes|
    ensures var before, more := AllSlices(writes[..i]), Slices(writes[i]);
            && |AllSlices(writes[..i + 1])| == |before| + |more|
            && opening + Flatten(SealedChunks(c, 1, AllSlices(writes[..i + 1])))
               == opening + Flatten(SealedChunks(c, 1, before)) + Flatten(SealedChunks(c, 1 + |before|, more))
  {
    AllSlicesSnoc(writes, i);
    var before, more := AllSlices(writes[..i]), Slices(writes[i]);
    SealedAppend(c, 1, before, more);
    FlattenAppend(SealedChunks(c, 1, before), SealedChunks(c, 1 + |before|, more));
    Associate(opening, Flatten(SealedChunks(c, 1, before)), Flatten(SealedChunks(c, 1 + |before|, more)));
  }

  function Wire(c: Channel, salt: bytes, address: bytes, writes: seq<bytes>): bytes {
    salt + SealedChunk(c, 0, address) + Flatten(SealedChunks(c, 1, AllSlices(writes)))
  }

  /** A peer that skips the salt and reads chunk by chunk gets the address first and then every byte written. */
  lemma SsRoundTrip(aead: Aead, key: bytes, salt: bytes, address: bytes, writes: seq<bytes>)
    requires Lawful(aead) && 1 <= |address| <= SLICE
    ensures var c := SsChannel(aead, key);
            var got := ReadChunks(c, 0, false, Wire(c, salt, address, writes)[|salt|..]);
            && got.1 == Records.Stop(Starved)
            && got.0 != [] && got.0[0] == address && Flatten(got.0[1..]) == Flatten(writes)
  {
    var c := SsChannel(aead, key);
    var parts := [address] + AllSlices(writes);
    AllSlicesFlatten(writes);
    var chunks := SealedChunks(c, 0, parts);
    assert parts[1..] == AllSlices(writes);
    assert chunks == [SealedChunk(c, 0, address)] + SealedChunks(c, 1, AllSlices(writes));
    var wire := Wire(c, salt, address, writes);
    assert wire[|salt|..] == Flatten(chunks) + [];
    StreamRoundTrip(c, 0, false, parts, []);
    assert NextChunk(c, |parts|, false, []) == Records.Stop(Starved);
    assert ReadChunks(c, |parts|, false, []) == ([], Records.Stop(Starved));
    assert parts + [] == parts;
  }
}
