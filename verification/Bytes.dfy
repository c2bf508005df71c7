/** Bytes, big-endian fields and concatenation of chunk lists: what every codec of the proxy is written in. */
module Bytes {
  import Bits

  type byte = x: int | 0 <= x < 256
  type bytes = seq<byte>

  datatype Option<+T> = None | Some(value: T)

  function Min(a: int, b: int): int {
    if a < b then a else b
  }

  /** A buffer of `n` equal bytes (`Buffer.alloc`, `make([]byte, n)`). */
  function Repeat(b: byte, n: nat): (r: bytes)
    ensures |r| == n
  {
    seq(n, _ => b)
  }

  function XorByte(a: byte, b: byte): byte {
    Bits.XorBound(a, b, 8);
    assert Bits.Pow2(8) == 256;
    Bits.Xor(a, b, 8)
  }

  lemma XorByteTwice(a: byte, b: byte)
    ensures XorByte(XorByte(a, b), b) == a
  {
    assert Bits.Pow2(8) == 256;
    Bits.XorCancels(a, b, 8);
  }

  /** The byte a writer puts on the wire for `n`: the low 8 bits. */
  function LowByte(n: nat): byte {
    if n < 256 then n else n % 256
  }

  /** The two bytes a writer puts on the wire for `n`; like the source it keeps the low 16 bits only. */
  function U16(n: nat): (r: bytes)
    ensures |r| == 2
  {
    [n % 65536 / 256, n % 256]
  }

  function FromU16(hi: byte, lo: byte): nat {
    hi * 256 + lo
  }

  /** What a reader makes of the field: the length modulo 2^16. */
  lemma U16ReadsBack(n: nat)
    ensures FromU16(U16(n)[0], U16(n)[1]) == n % 65536
    ensures n < 65536 ==> n % 65536 == n
  {
    LowBytes(n);
    assert U16(n)[0] == n % 65536 / 256 && U16(n)[1] == n % 256;
    if n < 65536 {
      SmallRemainder(n, 65536);
    }
  }

  /** Only the low 16 bits are written. */
  lemma U16Wraps(n: nat)
    ensures U16(n) == U16(n % 65536)
  {
    LowBytes(n);
    LowBytes(n % 65536);
  }

  lemma LowBytes(n: nat)
    ensures n % 65536 % 256 == n % 256 && n % 65536 % 65536 == n % 65536
    ensures n % 65536 / 256 * 256 + n % 256 == n % 65536
  {
    var q, r := n / 65536, n % 65536;
    Bits.DivUnique(n, 256, q * 256 + r / 256, r % 256);
  }

  function Power256(n: nat): (r: nat)
    ensures r > 0
  {
    if n == 0 then 1 else 256 * Power256(n - 1)
  }

  /** The low `n` bytes, most significant first. */
  function BigEndian(v: nat, n: nat): (r: bytes)
    ensures |r| == n
  {
    if n == 0 then [] else BigEndian(v / 256, n - 1) + [v % 256]
  }

  function FromBigEndian(s: bytes): nat {
    if s == [] then 0 else FromBigEndian(s[..|s| - 1]) * 256 + s[|s| - 1]
  }

  lemma {:induction false} BigEndianReadsBack(v: nat, n: nat)
    ensures FromBigEndian(BigEndian(v, n)) == v % Power256(n)
    decreases n
  {
    if n > 0 {
      BigEndianReadsBack(v / 256, n - 1);
      var front := BigEndian(v / 256, n - 1);
      assert BigEndian(v, n)[..n - 1] == front;
      ModStep(v, Power256(n - 1));
    }
  }

  /** Byte `k` of a big-endian field has the weight of the bytes behind it. */
  lemma {:induction false} BigEndianAt(v: nat, n: nat, k: nat)
    requires k < n
    ensures BigEndian(v, n)[k] == v / Power256(n - 1 - k) % 256
    decreases n
  {
    if k < n - 1 {
      BigEndianAt(v / 256, n - 1, k);
      DivTwice256(v, Power256(n - 2 - k));
    }
  }

  lemma DivTwice256(v: nat, p: nat)
    requires p > 0
    ensures v / 256 / p == v / (256 * p)
  {
    var q, r := v / 256 / p, v / 256 % p;
    assert v == q * (256 * p) + (r * 256 + v % 256);
    Bits.DivUnique(v, 256 * p, q, r * 256 + v % 256);
  }

  lemma ModStep(v: nat, p: nat)
    requires p > 0
    ensures v % (256 * p) == v / 256 % p * 256 + v % 256
  {
    var q, r := v / 256 / p, v / 256 % p;
    assert v == q * (256 * p) + (r * 256 + v % 256);
    Bits.DivUnique(v, 256 * p, q, r * 256 + v % 256);
  }

  lemma SmallRemainder(v: nat, m: nat)
    requires v < m
    ensures v % m == v
  {
    Bits.DivUnique(v, m, 0, v);
  }

  /** The low `k` bytes, least significant first (`writeBigUInt64LE` for eight). */
  function LittleEndian(n: nat, k: nat): (r: bytes)
    ensures |r| == k
  {
    if k == 0 then [] else [n % 256] + LittleEndian(n / 256, k - 1)
  }

  /** Byte `i` of a little-endian field has the weight of the bytes in front of it. */
  lemma {:induction false} LittleEndianAt(n: nat, k: nat, i: nat)
    requires i < k
    ensures LittleEndian(n, k)[i] == n / Power256(i) % 256
    decreases k
  {
    if i > 0 {
      LittleEndianAt(n / 256, k - 1, i - 1);
      DivTwice256(n, Power256(i - 1));
    }
  }

  function FromLittleEndian(s: bytes): (r: nat)
    ensures r < Power256(|s|)
  {
    if s == [] then 0 else s[0] + 256 * FromLittleEndian(s[1..])
  }

  lemma {:induction false} LittleEndianReadsBack(n: nat, k: nat)
    ensures FromLittleEndian(LittleEndian(n, k)) == n % Power256(k)
    decreases k
  {
    if k > 0 {
      LittleEndianReadsBack(n / 256, k - 1);
      assert LittleEndian(n, k)[1..] == LittleEndian(n / 256, k - 1);
      ModStep(n, Power256(k - 1));
    }
  }

  lemma {:induction false} FromLittleEndianInjective(a: bytes, b: bytes)
    requires |a| == |b| && FromLittleEndian(a) == FromLittleEndian(b)
    ensures a == b
  {
    if a != [] {
      FromLittleEndianInjective(a[1..], b[1..]);
      assert a == [a[0]] + a[1..] && b == [b[0]] + b[1..];
    }
  }

  /** `pattern` stands at position `i` of `s`. */
  predicate At<T(==)>(s: seq<T>, i: int, pattern: seq<T>) {
    0 <= i && i + |pattern| <= |s| && s[i..i + |pattern|] == pattern
  }

  predicate EndsWith<T(==)>(s: seq<T>, t: seq<T>) {
    |t| <= |s| && s[|s| - |t|..] == t
  }

  lemma Reassociate<T>(h: seq<T>, x: seq<T>, z: seq<T>, rest: seq<T>)
    ensures (h + (x + z)) + rest == h + (x + (z + rest))
  {
  }

  lemma Associate<T>(a: seq<T>, b: seq<T>, c: seq<T>)
    ensures (a + b) + c == a + (b + c)
  {
  }

  /** Concatenation of a list of chunks. */
  function Flatten<T>(chunks: seq<seq<T>>): seq<T> {
    if chunks == [] then [] else chunks[0] + Flatten(chunks[1..])
  }

  lemma {:induction false} FlattenAppend<T>(a: seq<seq<T>>, b: seq<seq<T>>)
    ensures Flatten(a + b) == Flatten(a) + Flatten(b)
  {
    if a == [] {
      assert a + b == b;
    } else {
      assert (a + b)[1..] == a[1..] + b;
      FlattenAppend(a[1..], b);
      Associate(a[0], Flatten(a[1..]), Flatten(b));
    }
  }

  lemma FlattenOne<T>(c: seq<T>)
    ensures Flatten([c]) == c
  {
    assert [c][1..] == [];
  }

  lemma FlattenCons<T>(c: seq<T>, rest: seq<seq<T>>)
    ensures Flatten([c] + rest) == c + Flatten(rest)
  {
    assert ([c] + rest)[1..] == rest;
  }

  lemma FlattenSnoc<T>(a: seq<seq<T>>, c: seq<T>)
    ensures Flatten(a + [c]) == Flatten(a) + c
  {
    FlattenAppend(a, [c]);
    FlattenOne(c);
  }
}
