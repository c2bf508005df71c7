/** The VMess key derivation: nested HMACs over one shared inner state, against RFC 2104 and against the tower of
    aliased hash objects it was ported from. SHA-256 is an arbitrary function. */
module VmessKdf {
  import opened Bytes
  import Bits

  type Hash = bytes -> bytes

  /** `Buffer.from("VMess AEAD KDF")`, the key of the lowest level. */
  const KDF_BASE: bytes := [86, 77, 101, 115, 115, 32, 65, 69, 65, 68, 32, 75, 68, 70]

  const IPAD: byte := 0x36
  const OPAD: byte := 0x5c

  function XorEach(block: bytes, b: byte): (r: bytes)
    ensures |r| == |block|
  {
    seq(|block|, i requires 0 <= i < |block| => XorByte(block[i], b))
  }

  /** The 64-byte key block as the source builds it: zero padding, and truncation of longer keys. */
  function Block(key: bytes): (r: bytes)
    ensures |r| == 64
  {
    if |key| <= 64 then key + Repeat(0, 64 - |key|) else key[..64]
  }

  /** The key block of section 2 of RFC 2104: longer keys are hashed first. */
  function RfcBlock(h: Hash, key: bytes): bytes {
    if |key| <= 64 then Block(key) else Block(h(key))
  }

  /** HMAC over `h` for a given key block. */
  function Hmac(h: Hash, block: bytes, m: bytes): bytes {
    h(XorEach(block, OPAD) + h(XorEach(block, IPAD) + m))
  }

  /** HMAC whose hash is the HMAC below it, one level per block, the lowest level over `sha`. */
  function Nested(sha: Hash, blocks: seq<bytes>, m: bytes): bytes
    decreases |blocks|
  {
    if blocks == [] then sha(m)
    else
      var below := blocks[..|blocks| - 1];
      Hmac(x => Nested(sha, below, x), blocks[|blocks| - 1], m)
  }

  function Blocks(keys: seq<bytes>): (r: seq<bytes>)
    ensures |r| == |keys|
  {
    seq(|keys|, i requires 0 <= i < |keys| => Block(keys[i]))
  }

  /** The tower of section 2 of RFC 2104: every level hashes long keys with its own hash, the HMAC below it. */
  function RfcNested(sha: Hash, keys: seq<bytes>, m: bytes): bytes
    decreases |keys|
  {
    if keys == [] then sha(m)
    else
      var below := keys[..|keys| - 1];
      Hmac(x => RfcNested(sha, below, x), RfcBlock(x => RfcNested(sha, below, x), keys[|keys| - 1]), m)
  }

  /** The key blocks of that tower. */
  function RfcBlocks(sha: Hash, keys: seq<bytes>): (r: seq<bytes>)
    ensures |r| == |keys| && forall i :: 0 <= i < |r| ==> |r[i]| == 64
    decreases |keys|
  {
    if keys == [] then []
    else
      var below := keys[..|keys| - 1];
      RfcBlocks(sha, below) + [RfcBlock(x => RfcNested(sha, below, x), keys[|keys| - 1])]
  }

  lemma {:induction false} RfcNestedIsNested(sha: Hash, keys: seq<bytes>, m: bytes)
    ensures RfcNested(sha, keys, m) == Nested(sha, RfcBlocks(sha, keys), m)
    decreases |keys|
  {
    if keys != [] {
      var n := |keys| - 1;
      var below, block := keys[..n], RfcBlock(x => RfcNested(sha, keys[..n], x), keys[n]);
      var blocks := RfcBlocks(sha, keys);
      assert blocks[..n] == RfcBlocks(sha, below) && blocks[n] == block;
      var inner := XorEach(block, IPAD) + m;
      RfcNestedIsNested(sha, below, inner);
      RfcNestedIsNested(sha, below, XorEach(block, OPAD) + RfcNested(sha, below, inner));
    }
  }

  predicate ShortKeys(keys: seq<bytes>) {
    forall i :: 0 <= i < |keys| ==> |keys[i]| <= 64
  }

  lemma {:induction false} ShortBlocks(sha: Hash, keys: seq<bytes>)
    requires ShortKeys(keys)
    ensures RfcBlocks(sha, keys) == Blocks(keys)
    decreases |keys|
  {
    if keys != [] {
      var n := |keys| - 1;
      ShortBlocks(sha, keys[..n]);
      assert Blocks(keys) == Blocks(keys[..n]) + [Block(keys[n])];
    }
  }

  /** Keys of at most one block make the derivation a tower of RFC 2104 HMACs. */
  lemma ShortKeysAreRfc(sha: Hash, keys: seq<bytes>, m: bytes)
    requires ShortKeys(keys)
    ensures Nested(sha, Blocks(keys), m) == RfcNested(sha, keys, m)
  {
    ShortBlocks(sha, keys);
    RfcNestedIsNested(sha, keys, m);
  }

  predicate Wide(blocks: seq<bytes>) {
    forall i :: 0 <= i < |blocks| ==> |blocks[i]| == 64
  }

  lemma XorEachInjective(a: bytes, c: bytes, b: byte)
    requires XorEach(a, b) == XorEach(c, b)
    ensures a == c
  {
    assert |a| == |XorEach(a, b)| == |c|;
    forall i | 0 <= i < |a|
      ensures a[i] == c[i]
    {
      assert XorEach(a, b)[i] == XorEach(c, b)[i];
      XorByteTwice(a[i], b);
      XorByteTwice(c[i], b);
    }
  }

  lemma SameParts(a: bytes, b: bytes, x: bytes, y: bytes)
    requires |a| == |b| && a + x == b + y
    ensures a == b && x == y
  {
    assert (a + x)[..|a|] == a && (b + y)[..|b|] == b;
    assert (a + x)[|a|..] == x && (b + y)[|b|..] == y;
  }

  /** Over an injective hash, a tower of HMACs gives its blocks and its message away. */
  lemma {:induction false} NestedInjective(sha: Hash, a: seq<bytes>, b: seq<bytes>, m: bytes, n: bytes)
    requires forall x, y :: sha(x) == sha(y) ==> x == y
    requires |a| == |b| && Wide(a) && Wide(b) && Nested(sha, a, m) == Nested(sha, b, n)
    ensures a == b && m == n
    decreases |a|
  {
    if a != [] {
      var k := |a| - 1;
      var a', b', p, q := a[..k], b[..k], a[k], b[k];
      var x, y := Nested(sha, a', XorEach(p, IPAD) + m), Nested(sha, b', XorEach(q, IPAD) + n);
      NestedInjective(sha, a', b', XorEach(p, OPAD) + x, XorEach(q, OPAD) + y);
      SameParts(XorEach(p, OPAD), XorEach(q, OPAD), x, y);
      XorEachInjective(p, q, OPAD);
      NestedInjective(sha, a', b', XorEach(p, IPAD) + m, XorEach(q, IPAD) + n);
      SameParts(XorEach(p, IPAD), XorEach(q, IPAD), m, n);
      assert a == a' + [p] && b == b' + [q];
    }
  }

  /** A hash that puts one byte in front: injective, and never shorter than its input. */
  function Tagging(c: byte): Hash {
    x => [c] + x
  }

  lemma TaggingInjective(c: byte)
    ensures forall x, y :: Tagging(c)(x) == Tagging(c)(y) ==> x == y
  {
    forall x: bytes, y: bytes | Tagging(c)(x) == Tagging(c)(y)
      ensures x == y
    {
      SameParts([c], [c], x, y);
    }
  }

  /** The digest of a tower over it begins with that byte. */
  lemma {:induction false} TaggedDigest(c: byte, keys: seq<bytes>, m: bytes)
    ensures RfcNested(Tagging(c), keys, m) != [] && RfcNested(Tagging(c), keys, m)[0] == c
    decreases |keys|
  {
    if keys != [] {
      var n := |keys| - 1;
      var below := keys[..n];
      var block := RfcBlock(x => RfcNested(Tagging(c), keys[..n], x), keys[n]);
      var inner := RfcNested(Tagging(c), below, XorEach(block, IPAD) + m);
      TaggedDigest(c, below, XorEach(block, OPAD) + inner);
    }
  }

  /** A long key's block is not the one RFC 2104 asks for, over a hash that puts another byte in front. */
  lemma LongKeyDiffers(keys: seq<bytes>, i: nat, c: byte)
    requires i < |keys| && |keys[i]| > 64 && c != keys[i][0]
    ensures Blocks(keys) != RfcBlocks(Tagging(c), keys)
  {
    RfcBlockAt(Tagging(c), keys, i);
    TaggedDigest(c, keys[..i], keys[i]);
    assert Blocks(keys)[i][0] == keys[i][0];
    assert RfcBlocks(Tagging(c), keys)[i][0] == c;
  }

  lemma {:induction false} RfcBlockAt(sha: Hash, keys: seq<bytes>, i: nat)
    requires i < |keys| && |keys[i]| > 64
    ensures RfcBlocks(sha, keys)[i] == Block(RfcNested(sha, keys[..i], keys[i]))
    decreases |keys|
  {
    var n := |keys| - 1;
    if i < n {
      RfcBlockAt(sha, keys[..n], i);
      assert keys[..n][..i] == keys[..i];
    }
  }

  /** The derivation is the one of RFC 2104 for every hash and message exactly when no key is longer than a block. */
  lemma RfcIff(keys: seq<bytes>)
    ensures (forall sha: Hash, m: bytes :: Nested(sha, Blocks(keys), m) == RfcNested(sha, keys, m)) <==> ShortKeys(keys)
  {
    if ShortKeys(keys) {
      forall sha: Hash, m: bytes
        ensures Nested(sha, Blocks(keys), m) == RfcNested(sha, keys, m)
      {
        ShortKeysAreRfc(sha, keys, m);
      }
    } else {
      var i :| 0 <= i < |keys| && |keys[i]| > 64;
      var c: byte := if keys[i][0] == 0 then 1 else 0;
      LongKeyWitness(keys, i, c);
    }
  }

  lemma LongKeyWitness(keys: seq<bytes>, i: nat, c: byte)
    requires i < |keys| && |keys[i]| > 64 && c != keys[i][0]
    ensures Nested(Tagging(c), Blocks(keys), []) != RfcNested(Tagging(c), keys, [])
  {
    var sha := Tagging(c);
    RfcNestedIsNested(sha, keys, []);
    TaggingInjective(c);
    LongKeyDiffers(keys, i, c);
    if Nested(sha, Blocks(keys), []) == Nested(sha, RfcBlocks(sha, keys), []) {
      NestedInjective(sha, Blocks(keys), RfcBlocks(sha, keys), [], []);
    }
  }

  /** All inner pads of the given levels, lowest first: what the shared inner state starts with. */
  function Ipads(blocks: seq<bytes>): bytes {
    if blocks == [] then [] else Ipads(blocks[..|blocks| - 1]) + XorEach(blocks[|blocks| - 1], IPAD)
  }

  lemma PadByte(k: bytes, b: byte, i: nat)
    requires i < 64
    ensures XorEach(Block(k), b)[i] == if i < |k| then XorByte(b, k[i]) else b
  {
    Bits.XorCommutes(Block(k)[i], b, 8);
    if i >= |k| {
      assert Bits.Pow2(8) == 256;
      Bits.XorZero(b, 8);
    }
  }

  /** `pad64`: a buffer of the pad byte, with the key bytes exclusive-ored into its front. */
  method Pad64(keyBytes: bytes, padByte: byte) returns (buf: array<byte>)
    ensures fresh(buf) && buf[..] == XorEach(Block(keyBytes), padByte)
  {
    buf := new byte[64](_ => padByte);
    var n := Min(|keyBytes|, 64);
    for i := 0 to n
      invariant buf.Length == 64
      invariant forall j :: 0 <= j < 64 ==> buf[j] == if j < i then XorByte(padByte, keyBytes[j]) else padByte
    {
      buf[i] := XorByte(buf[i], keyBytes[i]);
    }
    forall j | 0 <= j < 64
      ensures buf[..][j] == XorEach(Block(keyBytes), padByte)[j]
    {
      PadByte(keyBytes, padByte, j);
    }
  }

  // ---- the state machine ------------------------------------------------------

  datatype Pad = Pad(ipad: bytes, opad: bytes)

  function PadOf(block: bytes): Pad {
    Pad(XorEach(block, IPAD), XorEach(block, OPAD))
  }

  /** The captured variables of `vmessKdf` and its inner function `sumLevel`. */
  class KdfMachine {
    const sha: Hash
    const pads: seq<Pad>
    ghost const blocks: seq<bytes>
    /** The one shared inner state, rewritten level by level. */
    var inner: bytes
    /** How often SHA-256 was computed. */
    var calls: nat

    ghost predicate Valid() {
      |pads| == |blocks| && forall i :: 0 <= i < |pads| ==> pads[i] == PadOf(blocks[i])
    }

    constructor (sha: Hash, pads: seq<Pad>, ghost blocks: seq<bytes>, key: bytes)
      requires |pads| == |blocks| && forall i :: 0 <= i < |pads| ==> pads[i] == PadOf(blocks[i])
      ensures Valid() && this.sha == sha && this.pads == pads && this.blocks == blocks
      ensures inner == Ipads(blocks) + key && calls == 0
    {
      this.sha, this.pads, this.blocks := sha, pads, blocks;
      IpadsOf(pads, blocks);
      inner := ConcatIpads(pads) + key;
      calls := 0;
    }

    method Sha256(b: bytes) returns (digest: bytes)
      modifies `calls
      ensures digest == sha(b) && calls == old(calls) + 1
    {
      calls := calls + 1;
      digest := sha(b);
    }

    /** One digest at the given level. `m` is the message that level has absorbed behind the pads below it. */
    method SumLevel(level: nat, ghost m: bytes) returns (digest: bytes)
      requires Valid() && level < |pads|
      requires inner == Ipads(blocks[..level + 1]) + m
      modifies this
      ensures digest == Nested(sha, blocks[..level + 1], m)
      ensures calls == old(calls) + Bits.Pow2(level + 1)
      decreases level
    {
      ghost var upTo, below := blocks[..level + 1], blocks[..level];
      assert upTo[..level] == below && upTo[level] == blocks[level];
      if level == 0 {
        digest := Sha256(inner);
        digest := Sha256(pads[0].opad + digest);
        LowestLevel(sha, upTo, m);
        assert Bits.Pow2(1) == 2;
        return;
      }
      ghost var inside := pads[level].ipad + m;
      assert inner == Ipads(below) + inside;
      var innerDigest := SumLevel(level - 1, inside);
      IpadsOf(pads[..level], below);
      inner := ConcatIpads(pads[..level]) + pads[level].opad + innerDigest;
      assert inner == Ipads(below) + (pads[level].opad + innerDigest);
      digest := SumLevel(level - 1, pads[level].opad + innerDigest);
    }
  }

  function ConcatIpads(pads: seq<Pad>): bytes {
    if pads == [] then [] else ConcatIpads(pads[..|pads| - 1]) + pads[|pads| - 1].ipad
  }

  lemma {:induction false} IpadsOf(pads: seq<Pad>, blocks: seq<bytes>)
    requires |pads| == |blocks| && forall i :: 0 <= i < |pads| ==> pads[i] == PadOf(blocks[i])
    ensures ConcatIpads(pads) == Ipads(blocks)
  {
    if pads != [] {
      IpadsOf(pads[..|pads| - 1], blocks[..|blocks| - 1]);
    }
  }

  lemma LowestLevel(sha: Hash, blocks: seq<bytes>, m: bytes)
    requires |blocks| == 1
    ensures Ipads(blocks) == XorEach(blocks[0], IPAD)
    ensures Nested(sha, blocks, m) == sha(XorEach(blocks[0], OPAD) + sha(XorEach(blocks[0], IPAD) + m))
  {
    assert blocks[..0] == [] && Ipads(blocks[..0]) == [];
    assert Ipads(blocks) == [] + XorEach(blocks[0], IPAD);
    assert forall x :: Nested(sha, blocks[..0], x) == sha(x);
  }

  /** `vmessKdf(key, ...paths)`: the tower of HMACs keyed by KDF_BASE and the paths, in 2^(n+1) hash computations. */
  method VmessKdf(sha: Hash, key: bytes, paths: seq<bytes>) returns (digest: bytes, calls: nat)
    ensures digest == Nested(sha, Blocks([KDF_BASE] + paths), key)
    ensures calls == Bits.Pow2(|paths| + 1)
  {
    ghost var blocks := Blocks([KDF_BASE] + paths);
    var ipad := Pad64(KDF_BASE, IPAD);
    var opad := Pad64(KDF_BASE, OPAD);
    var pads := [Pad(ipad[..], opad[..])];
    for i := 0 to |paths|
      invariant |pads| == i + 1 && forall j :: 0 <= j <= i ==> pads[j] == PadOf(blocks[j])
    {
      ipad := Pad64(paths[i], IPAD);
      opad := Pad64(paths[i], OPAD);
      assert blocks[i + 1] == Block(paths[i]);
      pads := pads + [Pad(ipad[..], opad[..])];
    }
    var machine := new KdfMachine(sha, pads, blocks, key);
    assert blocks[..|paths| + 1] == blocks;
    digest := machine.SumLevel(|paths|, key);
    calls := machine.calls;
  }

  // ---- the objects the derivation was ported from ---------------------------------

  /** A hash object: it may not be used again after `Sum` before it is reset. */
  class Sha {
    const sha: Hash
    var data: bytes
    var finished: bool

    constructor (sha: Hash)
      ensures this.sha == sha && data == [] && !finished
    {
      this.sha := sha;
      data, finished := [], false;
    }

    method Update(d: bytes)
      requires !finished
      modifies `data
      ensures data == old(data) + d
    {
      data := data + d;
    }

    method Sum() returns (digest: bytes)
      requires !finished
      modifies `finished
      ensures digest == sha(data) && finished
    {
      finished := true;
      digest := sha(data);
    }

    method Reset()
      modifies this
      ensures data == [] && !finished
    {
      data, finished := [], false;
    }
  }

  /** What an HMAC object holds as its inner and its outer hash. */
  datatype HashObject = Plain(s: Sha) | Keyed(h: GoHmac)

  /** An HMAC object. Above the lowest level its inner and outer hash are one and the same object, the HMAC below. */
  class GoHmac {
    const inner: HashObject
    const outer: HashObject
    const ipad: bytes
    const opad: bytes
    ghost const blocks: seq<bytes>
    ghost const base: Sha
    ghost const baseOuter: Sha
    ghost const sha: Hash

    ghost predicate Valid()
      decreases |blocks|
    {
      && blocks != [] && base != baseOuter && base.sha == baseOuter.sha == sha
      && ipad == XorEach(blocks[|blocks| - 1], IPAD) && opad == XorEach(blocks[|blocks| - 1], OPAD)
      && if |blocks| == 1 then inner == Plain(base) && outer == Plain(baseOuter)
         else
           && inner.Keyed? && outer == inner
           && var prev := inner.h;
              && prev.blocks == blocks[..|blocks| - 1] && prev.base == base && prev.baseOuter == baseOuter
              && prev.sha == sha && prev.Valid()
    }

    constructor Lowest(sha: Hash, key: bytes)
      ensures Valid() && this.sha == sha && blocks == [Block(key)] && fresh(base) && fresh(baseOuter)
      ensures base.data == Ipads(blocks) && !base.finished
    {
      var a := new Sha(sha);
      var b := new Sha(sha);
      var i := Pad64(key, IPAD);
      var o := Pad64(key, OPAD);
      inner, outer, ipad, opad := Plain(a), Plain(b), i[..], o[..];
      blocks, base, baseOuter, this.sha := [Block(key)], a, b, sha;
      new;
      a.Update(ipad);
      LowestLevel(sha, blocks, []);
    }

    constructor Over(prev: GoHmac, key: bytes)
      requires prev.Valid() && prev.base.data == Ipads(prev.blocks) && !prev.base.finished
      modifies prev.base
      ensures Valid() && sha == prev.sha && blocks == prev.blocks + [Block(key)]
      ensures base == prev.base && baseOuter == prev.baseOuter
      ensures base.data == Ipads(blocks) && !base.finished
    {
      var i := Pad64(key, IPAD);
      var o := Pad64(key, OPAD);
      inner, outer, ipad, opad := Keyed(prev), Keyed(prev), i[..], o[..];
      blocks, base, baseOuter, sha := prev.blocks + [Block(key)], prev.base, prev.baseOuter, prev.sha;
      new;
      assert blocks[..|blocks| - 1] == prev.blocks;
      prev.Update(ipad);
    }

    /** All levels feed one hash object at the bottom. */
    method Update(d: bytes)
      requires Valid() && !base.finished
      modifies base
      ensures base.data == old(base.data) + d && !base.finished
      decreases |blocks|
    {
      match inner
      case Plain(s) => s.Update(d);
      case Keyed(h) => h.Update(d);
    }

    /** Back to the pads of this level and all below. */
    method Reset()
      requires Valid()
      modifies base
      ensures base.data == Ipads(blocks) && !base.finished
      decreases |blocks|
    {
      match inner
      case Plain(s) =>
        s.Reset();
        s.Update(ipad);
        LowestLevel(sha, blocks, []);
      case Keyed(h) =>
        h.Reset();
        h.Update(ipad);
    }

    /** The digest of the message `m` absorbed so far, although inner and outer hash are the same object. */
    method Sum(ghost m: bytes) returns (digest: bytes)
      requires Valid() && base.data == Ipads(blocks) + m && !base.finished
      modifies base, baseOuter
      ensures digest == Nested(sha, blocks, m)
      decreases |blocks|, 1
    {
      match inner
      case Plain(s) => digest := SumLowest(m);
      case Keyed(h) => digest := SumOver(m);
    }

    method SumLowest(ghost m: bytes) returns (digest: bytes)
      requires Valid() && inner.Plain? && base.data == Ipads(blocks) + m && !base.finished
      modifies base, baseOuter
      ensures digest == Nested(sha, blocks, m)
    {
      var innerDigest := inner.s.Sum();
      outer.s.Reset();
      outer.s.Update(opad);
      outer.s.Update(innerDigest);
      assert [] + opad + innerDigest == opad + innerDigest;
      digest := outer.s.Sum();
      LowestLevel(sha, blocks, m);
    }

    method SumOver(ghost m: bytes) returns (digest: bytes)
      requires Valid() && inner.Keyed? && base.data == Ipads(blocks) + m && !base.finished
      modifies base, baseOuter
      ensures digest == Nested(sha, blocks, m)
      decreases |blocks|, 0
    {
      ghost var prev := inner.h.blocks;
      Associate(Ipads(prev), ipad, m);
      var innerDigest := inner.h.Sum(ipad + m);
      outer.h.Reset();
      outer.h.Update(opad);
      outer.h.Update(innerDigest);
      Associate(Ipads(prev), opad, innerDigest);
      digest := outer.h.Sum(opad + innerDigest);
    }
  }

  lemma BlocksPrefix(keys: seq<bytes>, i: nat)
    requires i < |keys|
    ensures Blocks(keys)[..i + 1] == Blocks(keys)[..i] + [Block(keys[i])]
  {
  }

  // ---- the digest in bytes --------------------------------------------------------------

  /** A block of section 2 of RFC 2104: the key bytes exclusive-ored with the pad byte, then the pad byte alone. */
  function PadBlock(key: bytes, pad: byte): bytes {
    seq(64, i requires 0 <= i < 64 => if i < |key| then XorByte(pad, key[i]) else pad)
  }

  lemma PadBlockIs(key: bytes, pad: byte)
    ensures PadBlock(key, pad) == XorEach(Block(key), pad)
  {
    forall i | 0 <= i < 64
      ensures PadBlock(key, pad)[i] == XorEach(Block(key), pad)[i]
    {
      PadByte(key, pad, i);
    }
  }

  /** The derivation without paths: one HMAC under the text "VMess AEAD KDF", with 0x36 inside and 0x5c outside. */
  lemma BaseDigest(sha: Hash, m: bytes)
    ensures var base: bytes := [86, 77, 101, 115, 115, 32, 65, 69, 65, 68, 32, 75, 68, 70];
            Nested(sha, Blocks([KDF_BASE]), m) == sha(PadBlock(base, 0x5c) + sha(PadBlock(base, 0x36) + m))
  {
    PadBlockIs(KDF_BASE, 0x36);
    PadBlockIs(KDF_BASE, 0x5c);
    LowestLevel(sha, Blocks([KDF_BASE]), m);
  }

  /** One more path is one more HMAC over the derivation below it. */
  lemma OnePathMore(sha: Hash, keys: seq<bytes>, path: bytes, m: bytes)
    ensures var below := (x: bytes) => Nested(sha, Blocks(keys), x);
            Nested(sha, Blocks(keys + [path]), m) == below(PadBlock(path, 0x5c) + below(PadBlock(path, 0x36) + m))
  {
    var blocks := Blocks(keys + [path]);
    assert blocks[..|keys|] == Blocks(keys) && blocks[|keys|] == Block(path);
    PadBlockIs(path, 0x36);
    PadBlockIs(path, 0x5c);
  }

  /** The same for the tower of RFC 2104, where a key longer than a block is hashed first. */
  lemma OneRfcLevelMore(sha: Hash, keys: seq<bytes>, key: bytes, m: bytes)
    ensures var below := (x: bytes) => RfcNested(sha, keys, x);
            var k := if |key| <= 64 then key else below(key);
            RfcNested(sha, keys + [key], m) == below(PadBlock(k, 0x5c) + below(PadBlock(k, 0x36) + m))
  {
    var k := if |key| <= 64 then key else RfcNested(sha, keys, key);
    assert (keys + [key])[..|keys|] == keys;
    PadBlockIs(k, 0x36);
    PadBlockIs(k, 0x5c);
  }

  /** The reference derivation with aliased objects. */
  method RefKdf(sha: Hash, key: bytes, paths: seq<bytes>) returns (digest: bytes)
    ensures digest == Nested(sha, Blocks([KDF_BASE] + paths), key)
  {
    ghost var keys := [KDF_BASE] + paths;
    var hmacf := new GoHmac.Lowest(sha, KDF_BASE);
    BlocksPrefix(keys, 0);
    assert Blocks(keys)[..0] == [];
    for i := 0 to |paths|
      invariant hmacf.Valid() && hmacf.sha == sha && hmacf.blocks == Blocks(keys)[..i + 1]
      invariant fresh(hmacf.base) && fresh(hmacf.baseOuter)
      invariant hmacf.base.data == Ipads(hmacf.blocks) && !hmacf.base.finished
    {
      BlocksPrefix(keys, i + 1);
      hmacf := new GoHmac.Over(hmacf, paths[i]);
    }
    assert Blocks(keys)[..|keys|] == Blocks(keys);
    hmacf.Update(key);
    digest := hmacf.Sum(key);
  }

  /** What the comparison script asserts for one example, for every hash function, key and path list. */
  method KdfCompare(sha: Hash, key: bytes, paths: seq<bytes>) returns (mine: bytes, ref: bytes)
    ensures mine == ref
    ensures ShortKeys(paths) ==> mine == RfcNested(sha, [KDF_BASE] + paths, key)
  {
    var calls;
    mine, calls := VmessKdf(sha, key, paths);
    ref := RefKdf(sha, key, paths);
    if ShortKeys(paths) {
      ShortKeysAreRfc(sha, [KDF_BASE] + paths, key);
    }
  }
}
