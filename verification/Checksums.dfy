/** The two checksums of the VMess header, as JavaScript computes them and as the changes they detect. */
module Checksums {
  import opened Bytes
  import opened Bits
  import opened JsInt

  const POLY: nat := 0xedb88320
  const ONES: nat := 0xffffffff
  const FNV_BASIS: nat := 0x811c9dc5
  const FNV_PRIME: nat := 0x01000193

  function Xor32(a: u32, b: u32): u32 {
    XorBound(a, b, 32);
    WordIsPow2();
    Xor(a, b, 32)
  }

  // ---- specifications on unsigned words -------------------------------------------

  /** One shift of the reflected CRC-32 of section 8 of RFC 1952. */
  function CrcBit(c: u32): u32 {
    Xor32(c / 2, if c % 2 != 0 then POLY else 0)
  }

  function CrcBits(c: u32, n: nat): u32
    decreases n
  {
    if n == 0 then c else CrcBits(CrcBit(c), n - 1)
  }

  /** The register after a message, started from `c`. */
  function Crc(c: u32, m: bytes): u32
    decreases |m|
  {
    if m == [] then c else Crc(CrcBits(Xor32(c, m[0]), 8), m[1..])
  }

  function Crc32(m: bytes): u32 {
    Xor32(Crc(ONES, m), ONES)
  }

  function FnvByte(h: u32, b: byte): u32 {
    Xor32(h, b) * FNV_PRIME % WORD
  }

  function Fnv(h: u32, m: bytes): u32
    decreases |m|
  {
    if m == [] then h else Fnv(FnvByte(h, m[0]), m[1..])
  }

  function Fnv1a(m: bytes): u32 {
    Fnv(FNV_BASIS, m)
  }

  // ---- the computation in JavaScript numbers -----------------------------------------

  function JsXor(a: int, b: int): int {
    Signed(Xor32(Unsigned(a), Unsigned(b)))
  }

  /** `a >>> 1` */
  function JsHalf(a: int): int {
    Unsigned(a) / 2
  }

  function JsImul(a: int, b: int): int {
    Signed(Unsigned(a) * Unsigned(b) % WORD)
  }

  /** The signed computation of the source agrees with the unsigned one. */
  method Crc32Js(buffer: bytes) returns (sum: int)
    ensures sum == Crc32(buffer)
  {
    var crc: int := ONES;
    SignedUnsigned(ONES);
    assert buffer[0..] == buffer;
    for i := 0 to |buffer|
      invariant Crc(Unsigned(crc), buffer[i..]) == Crc(ONES, buffer)
    {
      assert buffer[i..][0] == buffer[i] && buffer[i..][1..] == buffer[i + 1..];
      SignedUnsigned(buffer[i]);
      SignedUnsigned(Xor32(Unsigned(crc), buffer[i]));
      crc := JsXor(crc, buffer[i]);
      ghost var start := Unsigned(crc);
      for j := 0 to 8
        invariant CrcBits(Unsigned(crc), 8 - j) == CrcBits(start, 8)
      {
        var odd := Unsigned(crc) % 2;
        SignedUnsigned(CrcBit(Unsigned(crc)));
        SignedUnsigned(POLY);
        SignedUnsigned(Unsigned(crc) / 2);
        crc := JsXor(JsHalf(crc), if odd != 0 then POLY else 0);
      }
    }
    SignedUnsigned(Crc32(buffer));
    sum := Unsigned(JsXor(crc, ONES));
  }

  method Fnv1aJs(buffer: bytes) returns (sum: int)
    ensures sum == Fnv1a(buffer)
  {
    var hash: int := FNV_BASIS;
    SignedUnsigned(FNV_BASIS);
    assert buffer[0..] == buffer;
    for i := 0 to |buffer|
      invariant Fnv(Unsigned(hash), buffer[i..]) == Fnv(FNV_BASIS, buffer)
    {
      assert buffer[i..][0] == buffer[i] && buffer[i..][1..] == buffer[i + 1..];
      SignedUnsigned(buffer[i]);
      SignedUnsigned(FNV_PRIME);
      SignedUnsigned(Xor32(Unsigned(hash), buffer[i]));
      SignedUnsigned(FnvByte(Unsigned(hash), buffer[i]));
      hash := JsXor(hash, buffer[i]);
      hash := JsImul(hash, FNV_PRIME);
    }
    sum := Unsigned(hash);
  }

  // ---- injectivity --------------------------------------------------------------------

  lemma XorInjective(a: u32, b: u32, c: u32)
    ensures Xor32(a, c) == Xor32(b, c) ==> a == b
    ensures Xor32(c, a) == Xor32(c, b) ==> a == b
  {
    WordIsPow2();
    XorCancels(a, c, 32);
    XorCancels(b, c, 32);
    XorCommutes(a, c, 32);
    XorCommutes(b, c, 32);
  }

  /** The digit in front of all of `a` is decided by `b` alone. */
  lemma {:induction false} TopDigit(a: nat, b: nat, n: nat)
    requires n > 0 && a < Pow2(n - 1) && b < Pow2(n)
    ensures Xor(a, b, n) >= Pow2(n - 1) <==> b >= Pow2(n - 1)
  {
    if n > 1 {
      TopDigit(a / 2, b / 2, n - 1);
    }
  }

  /** One CRC shift is a bijection, because the polynomial has its top bit set. */
  lemma CrcBitInjective(c: u32, d: u32)
    requires CrcBit(c) == CrcBit(d)
    ensures c == d
  {
    WordIsPow2();
    var pc, pd := if c % 2 != 0 then POLY else 0, if d % 2 != 0 then POLY else 0;
    TopDigit(c / 2, pc, 32);
    TopDigit(d / 2, pd, 32);
    assert c % 2 == d % 2;
    XorInjective(c / 2, d / 2, pc);
  }

  lemma {:induction false} CrcBitsInjective(c: u32, d: u32, n: nat)
    requires CrcBits(c, n) == CrcBits(d, n)
    ensures c == d
    decreases n
  {
    if n > 0 {
      CrcBitsInjective(CrcBit(c), CrcBit(d), n - 1);
      CrcBitInjective(c, d);
    }
  }

  /** The same bytes appended never make two different registers equal again. */
  lemma {:induction false} CrcStateInjective(c: u32, d: u32, m: bytes)
    requires Crc(c, m) == Crc(d, m)
    ensures c == d
    decreases |m|
  {
    if m != [] {
      var x, y := Xor32(c, m[0]), Xor32(d, m[0]);
      CrcStateInjective(CrcBits(x, 8), CrcBits(y, 8), m[1..]);
      CrcBitsInjective(x, y, 8);
      XorInjective(c, d, m[0]);
    }
  }

  lemma {:induction false} CrcAppend(c: u32, a: bytes, b: bytes)
    ensures Crc(c, a + b) == Crc(Crc(c, a), b)
    decreases |a|
  {
    if a == [] {
      assert a + b == b;
    } else {
      assert (a + b)[1..] == a[1..] + b;
      CrcAppend(CrcBits(Xor32(c, a[0]), 8), a[1..], b);
    }
  }

  // ---- bursts ---------------------------------------------------------------------------

  lemma {:induction false} Widen(a: nat, b: nat, n: nat)
    requires a < Pow2(n) && b < Pow2(n)
    ensures Xor(a, b, n + 1) == Xor(a, b, n)
  {
    if n > 0 {
      Widen(a / 2, b / 2, n - 1);
    }
  }

  /** Bits above the lowest one only ride along with a shift. */
  lemma CrcBitCarries(x: u32, y: u32)
    requires y < 0x8000_0000
    ensures CrcBit(Xor32(x, 2 * y)) == Xor32(CrcBit(x), y)
  {
    WordIsPow2();
    var p := if x % 2 != 0 then POLY else 0;
    XorDigits(x, 2 * y, 32);
    Widen(x / 2, y, 31);
    assert Xor32(x, 2 * y) / 2 == Xor32(x / 2, y) && Xor32(x, 2 * y) % 2 == x % 2;
    XorAssociates(x / 2, y, p, 32);
    XorCommutes(y, p, 32);
    XorAssociates(x / 2, p, y, 32);
  }

  lemma Doubled(z: nat, n: nat)
    requires n > 0
    ensures z * Pow2(n) == 2 * (z * Pow2(n - 1))
  {
  }

  lemma {:induction false} CrcBitsCarry(x: u32, z: u32, n: nat)
    requires n <= 32 && z * Pow2(n) < WORD
    ensures CrcBits(Xor32(x, z * Pow2(n)), n) == Xor32(CrcBits(x, n), z)
    decreases n
  {
    if n > 0 {
      Doubled(z, n);
      var y := z * Pow2(n - 1);
      CrcBitCarries(x, y);
      CrcBitsCarry(CrcBit(x), z, n - 1);
    }
  }

  lemma {:induction false} CrcBitsAdd(x: u32, n: nat, k: nat)
    ensures CrcBits(CrcBits(x, n), k) == CrcBits(x, n + k)
    decreases n
  {
    if n > 0 {
      CrcBitsAdd(CrcBit(x), n - 1, k);
    }
  }

  /** The little-endian number of up to four bytes. */
  function Word(w: bytes): u32
    requires |w| <= 4
  {
    assert Power256(0) == 1 && Power256(1) == 256 && Power256(2) == 65536 && Power256(3) == 0x100_0000 && Power256(4) == WORD;
    FromLittleEndian(w)
  }

  /** Digits that do not overlap add up. */
  lemma {:induction false} XorDisjoint(a: nat, z: nat, k: nat, n: nat)
    requires k <= n && a < Pow2(k) && z * Pow2(k) < Pow2(n)
    ensures Xor(a, z * Pow2(k), n) == a + z * Pow2(k)
    decreases k
  {
    if k == 0 {
      XorCommutes(a, z, n);
      XorZero(z, n);
    } else {
      var y := z * Pow2(k - 1);
      assert z * Pow2(k) == 2 * y;
      XorDisjoint(a / 2, z, k - 1, n - 1);
      XorEven(a, y, n);
    }
  }

  lemma XorEven(a: nat, y: nat, n: nat)
    requires n > 0
    ensures Xor(a, 2 * y, n) == a % 2 + 2 * Xor(a / 2, y, n - 1)
  {
    XorDigits(a, 2 * y, n);
  }

  lemma WordFirst(w: bytes)
    requires 1 <= |w| <= 4
    ensures Word(w) == w[0] + Word(w[1..]) * 256
  {
  }

  /** Up to four bytes go through the register like one word exclusive-ored in front of all their shifts. */
  lemma {:induction false} CrcOfWord(c: u32, w: bytes)
    requires |w| <= 4
    ensures Crc(c, w) == CrcBits(Xor32(c, Word(w)), 8 * |w|)
    decreases |w|
  {
    if w == [] {
      WordIsPow2();
      XorZero(c, 32);
    } else {
      var b, rest := w[0], w[1..];
      WordFirst(w);
      CrcOfWord(CrcBits(Xor32(c, b), 8), rest);
      FrontByteShifts(c, b, Word(rest), 8 * |rest|, Word(w), 8 * |w|);
    }
  }

  lemma FrontByteShifts(c: u32, b: byte, z: u32, k: nat, word: u32, n: nat)
    requires word == b + z * 256 && n == 8 + k
    ensures CrcBits(Xor32(CrcBits(Xor32(c, b), 8), z), k) == CrcBits(Xor32(c, word), n)
  {
    ByteInFront(c, b, z);
    CrcBitsAdd(Xor32(c, word), 8, k);
  }

  /** One byte shifted through, then a word exclusive-ored in: the same as doing both at once. */
  lemma ByteInFront(c: u32, b: byte, z: u32)
    requires b + z * 256 < WORD
    ensures Xor32(CrcBits(Xor32(c, b), 8), z) == CrcBits(Xor32(c, b + z * 256), 8)
  {
    var y: u32 := z * 256;
    assert Xor32(b, y) == b + y by {
      WordIsPow2();
      XorDisjoint(b, z, 8, 32);
    }
    assert Xor32(Xor32(c, b), y) == Xor32(c, b + y) by {
      XorAssociates(c, b, y, 32);
    }
    CarryByte(Xor32(c, b), z);
  }

  lemma CarryByte(x: u32, z: u32)
    requires z * 256 < WORD
    ensures CrcBits(Xor32(x, z * 256), 8) == Xor32(CrcBits(x, 8), z)
  {
    WordIsPow2();
    CrcBitsCarry(x, z, 8);
  }

  /** CRC-32 detects every change confined to four consecutive bytes. */
  lemma CrcDetectsBursts(pre: bytes, w: bytes, v: bytes, post: bytes)
    requires |w| == |v| <= 4 && w != v
    ensures Crc32(pre + w + post) != Crc32(pre + v + post)
  {
    var s := Crc(ONES, pre);
    CrcAppend(ONES, pre + w, post);
    CrcAppend(ONES, pre, w);
    CrcAppend(ONES, pre + v, post);
    CrcAppend(ONES, pre, v);
    if Crc32(pre + w + post) == Crc32(pre + v + post) {
      XorInjective(Crc(ONES, pre + w + post), Crc(ONES, pre + v + post), ONES);
      CrcStateInjective(Crc(s, w), Crc(s, v), post);
      CrcOfWord(s, w);
      CrcOfWord(s, v);
      CrcBitsInjective(Xor32(s, Word(w)), Xor32(s, Word(v)), 8 * |w|);
      XorInjective(Word(w), Word(v), s);
      FromLittleEndianInjective(w, v);
    }
  }

  // ---- FNV-1a ------------------------------------------------------------------------------

  /** Multiplying by the odd prime is a bijection: 0x359c449b is its inverse. */
  lemma PrimeCancels(x: u32, y: u32)
    requires x * FNV_PRIME % WORD == y * FNV_PRIME % WORD
    ensures x == y
  {
    var k := x * FNV_PRIME / WORD - y * FNV_PRIME / WORD;
    assert (x - y) * FNV_PRIME == k * WORD;
    var t := k * 0x359c449b - (x - y) * 0x359c99;
    assert x - y == t * WORD;
  }

  lemma {:induction false} FnvStateInjective(g: u32, h: u32, m: bytes)
    requires Fnv(g, m) == Fnv(h, m)
    ensures g == h
    decreases |m|
  {
    if m != [] {
      FnvStateInjective(FnvByte(g, m[0]), FnvByte(h, m[0]), m[1..]);
      PrimeCancels(Xor32(g, m[0]), Xor32(h, m[0]));
      XorInjective(g, h, m[0]);
    }
  }

  lemma {:induction false} FnvAppend(h: u32, a: bytes, b: bytes)
    ensures Fnv(h, a + b) == Fnv(Fnv(h, a), b)
    decreases |a|
  {
    if a == [] {
      assert a + b == b;
    } else {
      assert (a + b)[1..] == a[1..] + b;
      FnvAppend(FnvByte(h, a[0]), a[1..], b);
    }
  }

  /** An exclusive or with few digits leaves the digits above alone. */
  lemma {:induction false} XorHigh(a: nat, b: nat, k: nat, n: nat)
    requires k <= n && a < Pow2(n) && b < Pow2(k)
    ensures Xor(a, b, n) / Pow2(k) == a / Pow2(k)
    decreases k
  {
    if k == 0 {
      XorZero(a, n);
    } else {
      XorHigh(a / 2, b / 2, k - 1, n - 1);
      XorDigits(a, b, n);
      DivTwice(Xor(a, b, n), Pow2(k - 1));
      DivTwice(a, Pow2(k - 1));
    }
  }

  lemma XorByteHigh(h: u32, b: byte)
    ensures Xor32(h, b) / 256 == h / 256
  {
    WordIsPow2();
    XorHigh(h, b, 8, 32);
  }

  /** Two products of words that differ in their lowest byte only differ above the lowest byte. */
  lemma ProductsSpread(x: u32, y: u32)
    requires x != y && x / 256 == y / 256
    ensures (x * FNV_PRIME % WORD) / 256 != (y * FNV_PRIME % WORD) / 256
  {
    var p, q := x * FNV_PRIME % WORD, y * FNV_PRIME % WORD;
    var k := x * FNV_PRIME / WORD - y * FNV_PRIME / WORD;
    Spread(x - y, p - q, k);
  }

  lemma Spread(d: int, e: int, k: int)
    requires d != 0 && -256 < d < 256 && d * FNV_PRIME == k * WORD + e
    ensures !(-256 < e < 256)
  {
    if -256 < e < 256 {
      SmallMultiple(d * 403 - e, k * 256 - d);
    }
  }

  lemma SmallMultiple(x: int, t: int)
    requires x == t * 0x100_0000 && -0x100_0000 < x < 0x100_0000
    ensures x == 0
  {
  }

  /** FNV-1a detects every change confined to two consecutive bytes. */
  lemma FnvDetectsBursts(pre: bytes, w: bytes, v: bytes, post: bytes)
    requires |w| == |v| <= 2 && w != v
    ensures Fnv1a(pre + w + post) != Fnv1a(pre + v + post)
  {
    var s := Fnv(FNV_BASIS, pre);
    FnvAppend(FNV_BASIS, pre + w, post);
    FnvAppend(FNV_BASIS, pre, w);
    FnvAppend(FNV_BASIS, pre + v, post);
    FnvAppend(FNV_BASIS, pre, v);
    if Fnv1a(pre + w + post) == Fnv1a(pre + v + post) {
      FnvStateInjective(Fnv(s, w), Fnv(s, v), post);
      FnvShort(s, w, v);
    }
  }

  lemma FnvByteInjective(g: u32, h: u32, b: byte, c: byte)
    requires FnvByte(g, b) == FnvByte(h, c)
    ensures g / 256 == h / 256
    ensures g == h ==> b == c
  {
    PrimeCancels(Xor32(g, b), Xor32(h, c));
    XorByteHigh(g, b);
    XorByteHigh(h, c);
    XorInjective(b, c, g);
  }

  lemma FnvByteSpreads(s: u32, b: byte, c: byte)
    requires b != c
    ensures FnvByte(s, b) / 256 != FnvByte(s, c) / 256
  {
    XorInjective(b, c, s);
    XorByteHigh(s, b);
    XorByteHigh(s, c);
    ProductsSpread(Xor32(s, b), Xor32(s, c));
  }

  lemma FnvTwo(s: u32, b: byte, c: byte)
    ensures Fnv(s, [b, c]) == FnvByte(FnvByte(s, b), c)
  {
    FnvAppend(s, [b], [c]);
    assert [b] + [c] == [b, c] && [b][1..] == [] && [c][1..] == [];
  }

  lemma TwoBytes(s: u32, a: byte, b: byte, c: byte, d: byte)
    requires FnvByte(FnvByte(s, a), b) == FnvByte(FnvByte(s, c), d)
    ensures a == c && b == d
  {
    FnvByteInjective(FnvByte(s, a), FnvByte(s, c), b, d);
    if a != c {
      FnvByteSpreads(s, a, c);
    }
  }

  lemma FnvShort(s: u32, w: bytes, v: bytes)
    requires |w| == |v| <= 2 && Fnv(s, w) == Fnv(s, v)
    ensures w == v
  {
    if |w| == 1 {
      FnvOne(s, w);
      FnvOne(s, v);
      FnvByteInjective(s, s, w[0], v[0]);
    } else if |w| == 2 {
      assert w == [w[0], w[1]] && v == [v[0], v[1]];
      FnvTwo(s, w[0], w[1]);
      FnvTwo(s, v[0], v[1]);
      TwoBytes(s, w[0], w[1], v[0], v[1]);
    }
  }

  lemma FnvOne(s: u32, w: bytes)
    requires |w| == 1
    ensures Fnv(s, w) == FnvByte(s, w[0])
  {
    assert w[1..] == [];
  }

  // ---- known answers --------------------------------------------------------------------

  lemma XorSelf(a: u32)
    ensures Xor32(a, 0) == a && Xor32(0, a) == a && Xor32(a, a) == 0
  {
    WordIsPow2();
    XorZero(a, 32);
    XorCommutes(a, 0, 32);
    XorAssociates(0, a, a, 32);
    XorCancels(0, a, 32);
  }

  /** Words whose digits do not overlap: either one is the other exclusive-ored with their sum. */
  lemma XorSplits(low: u32, high: u32, sum: u32, z: nat, k: nat)
    requires k <= 32 && low < Pow2(k) && high == z * Pow2(k) && sum == low + high
    ensures Xor32(sum, low) == high && Xor32(low, sum) == high && Xor32(sum, high) == low
  {
    WordIsPow2();
    XorDisjoint(low, z, k, 32);
    XorCommutes(low, high, 32);
    XorCancels(high, low, 32);
    XorCancels(low, high, 32);
    XorCommutes(sum, low, 32);
  }

  /** One shift of the register: the reflected polynomial of section 8 of RFC 1952. */
  lemma CrcBitOf(c: u32)
    ensures c % 2 == 0 ==> CrcBit(c) == c / 2
    ensures c % 2 == 1 ==> CrcBit(c) == Xor32(c / 2, 0xedb88320)
    ensures CrcBit(1) == 0xedb88320
  {
    XorSelf(c / 2);
    XorSelf(0xedb88320);
  }

  /** One byte more goes into the low end of the register, and eight shifts follow. */
  lemma CrcByteMore(c: u32, m: bytes, b: byte)
    ensures Crc(c, m + [b]) == CrcBits(Xor32(Crc(c, m), b), 8)
  {
    CrcAppend(c, m, [b]);
    assert [b][1..] == [];
  }

  /** A shift of an even word drops a zero. */
  lemma ZeroDrops(c: u32, half: u32, n: nat)
    requires c == 2 * half
    ensures CrcBits(c, n + 1) == CrcBits(half, n)
  {
    CrcBitOf(c);
  }

  /** Eight shifts drop eight zeros. */
  lemma EightShifts(c: u32, z: u32)
    requires c == 256 * z
    ensures CrcBits(c, 8) == z
  {
    ZeroDrops(c, 128 * z, 7);
    ZeroDrops(128 * z, 64 * z, 6);
    ZeroDrops(64 * z, 32 * z, 5);
    ZeroDrops(32 * z, 16 * z, 4);
    ZeroDrops(16 * z, 8 * z, 3);
    ZeroDrops(8 * z, 4 * z, 2);
    ZeroDrops(4 * z, 2 * z, 1);
    ZeroDrops(2 * z, z, 0);
  }

  /** The entry of the standard's table for the byte 128 is the polynomial. */
  lemma TableEntry(c: u32)
    requires c == 128
    ensures CrcBits(c, 8) == 0xedb88320
  {
    ZeroDrops(c, 64, 7);
    ZeroDrops(64, 32, 6);
    ZeroDrops(32, 16, 5);
    ZeroDrops(16, 8, 4);
    ZeroDrops(8, 4, 3);
    ZeroDrops(4, 2, 2);
    ZeroDrops(2, 1, 1);
    CrcBitOf(1);
    assert CrcBits(1, 1) == CrcBits(CrcBit(1), 0);
  }

  /** No byte has the checksum 0, and one byte of ones has 0xff000000. */
  lemma CrcKnownAnswers(m: bytes)
    ensures m == [] ==> Crc32(m) == 0
    ensures m == [0xff] ==> Crc32(m) == 0xff000000
  {
    var ones: u32 := ONES;
    XorSelf(ones);
    if m == [0xff] {
      var low: u32, high: u32, shifted: u32, top: u32 := 0xff, 0xffffff00, 0xffffff, 0xff000000;
      PowersOfTwo();
      XorSplits(low, high, ones, 0xffffff, 8);
      XorSplits(shifted, top, ones, 0xff, 24);
      EightShifts(high, shifted);
      CrcByteMore(ones, [], 0xff);
      assert [] + [0xff] == m;
      assert Crc(ones, m) == shifted;
    }
  }

  lemma PowersOfTwo()
    ensures Pow2(8) == 256 && Pow2(24) == 0x1000000
  {
    assert Pow2(8) == 256;
    assert Pow2(16) == 65536;
  }

  /** The hash starts from 0x811c9dc5, and every byte is exclusive-ored and multiplied in. */
  lemma FnvByteMore(m: bytes, b: byte)
    ensures Fnv1a([]) == 0x811c9dc5
    ensures Fnv1a(m + [b]) == Xor32(Fnv1a(m), b) * 0x01000193 % 0x1_0000_0000
  {
    FnvAppend(FNV_BASIS, m, [b]);
    assert [b][1..] == [];
  }

  /** The byte 0xc5 alone has the hash 0x400b2700. */
  lemma FnvKnownAnswer(basis: u32, b: byte)
    requires basis == 0x811c9dc5 && b == 0xc5
    ensures Fnv(basis, [b]) == 0x400b2700
  {
    OneByteHash(basis, b, 0x811c9d00, 0x811c9d);
    DivUnique(0x811c9d00 * 0x01000193, 0x1_0000_0000, 0x811d68, 0x400b2700);
  }

  /** A byte that equals the low byte of the register clears it. */
  lemma OneByteHash(h: u32, b: byte, high: u32, z: nat)
    requires h == b + high && high == z * 256
    ensures Fnv(h, [b]) == high * FNV_PRIME % WORD
  {
    PowersOfTwo();
    XorSplits(b, high, h, z, 8);
    assert [b][1..] == [];
  }
}
