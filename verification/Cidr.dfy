/** Address tests of the rule engine: masks for IPv4, a bit loop for IPv6, and the sorted tables. */
module Cidr {
  import opened Bits
  import opened JsInt

  // ---- IPv4 ---------------------------------------------------------------------

  function JsAnd(a: u32, b: u32): int {
    AndBound(a, b, 32);
    WordIsPow2();
    Signed(And(a, b, 32))
  }

  lemma {:induction false} AndBound(a: nat, b: nat, n: nat)
    ensures And(a, b, n) < Pow2(n)
  {
    if n > 0 {
      AndBound(a / 2, b / 2, n - 1);
    }
  }

  /** `(-1 << k) >>> 0` for a shift count in 0..31. */
  function ShiftedOnes(k: nat): u32
    requires k <= 31
  {
    Pow2Monotone(k, 31);
    WordIsPow2();
    WORD - Pow2(k)
  }

  /** The mask of a prefix length; JavaScript takes shift counts modulo 32. */
  function MaskOf(prefix: int): u32 {
    if prefix == 0 then 0 else ShiftedOnes((32 - prefix) % 32)
  }

  predicate Matches4(ip: u32, base: u32, prefix: int) {
    JsAnd(ip, MaskOf(prefix)) == JsAnd(base, MaskOf(prefix))
  }

  /** Two addresses have the same top `p` of `w` bits. */
  predicate SameTop(x: nat, y: nat, w: nat, p: nat)
    requires p <= w
  {
    x / Pow2(w - p) == y / Pow2(w - p)
  }

  /** The prefix length the mask really stands for: the given one from 0 to 32, and a remainder of it elsewhere. */
  function Effective(prefix: int): (p: nat)
    ensures p <= 32
    ensures 0 <= prefix <= 32 ==> p == prefix
  {
    if prefix == 0 then 0 else 32 - (32 - prefix) % 32
  }

  lemma DivPow2Step(x: nat, k: nat)
    requires k > 0
    ensures x / Pow2(k) == x / 2 / Pow2(k - 1)
    ensures x % Pow2(k) == 2 * (x / 2 % Pow2(k - 1)) + x % 2
  {
    var p := Pow2(k - 1);
    var q, r := x / 2 / p, x / 2 % p;
    assert x / 2 == q * p + r;
    assert x == q * (2 * p) + (2 * r + x % 2);
    DivUnique(x, 2 * p, q, 2 * r + x % 2);
  }

  /** A number with its low `k` bits cleared, bit by bit. */
  function Cleared(x: nat, k: nat): nat {
    if k == 0 then x else 2 * Cleared(x / 2, k - 1)
  }

  lemma {:induction false} ClearedBits(x: nat, k: nat)
    ensures Cleared(x, k) == x - x % Pow2(k)
    decreases k
  {
    if k == 0 {
      AllKept(x);
    } else {
      ClearedBits(x / 2, k - 1);
      DivPow2Step(x, k);
      Twice(x);
    }
  }

  lemma {:induction false} MaskClears(x: nat, k: nat, n: nat)
    requires k <= n && x < Pow2(n)
    ensures Pow2(k) <= Pow2(n) && And(x, Pow2(n) - Pow2(k), n) == Cleared(x, k)
    decreases n
  {
    Pow2Monotone(k, n);
    if k == 0 {
      AllOnes(x, n);
    } else {
      MaskClears(x / 2, k - 1, n - 1);
      AndEven(x, Pow2(n - 1) - Pow2(k - 1), n);
    }
  }

  /** Conjunction with a mask of leading ones clears the low `k` bits. */
  lemma AndMask(x: nat, k: nat, n: nat)
    requires k <= n && x < Pow2(n)
    ensures Pow2(k) <= Pow2(n) && And(x, Pow2(n) - Pow2(k), n) == x - x % Pow2(k)
  {
    MaskClears(x, k, n);
    ClearedBits(x, k);
  }

  lemma Twice(x: nat)
    ensures x == 2 * (x / 2) + x % 2
  {
  }

  lemma {:induction false} AllOnes(x: nat, n: nat)
    requires x < Pow2(n)
    ensures And(x, Pow2(n) - 1, n) == x
    decreases n
  {
    if n > 0 {
      Twice(x);
      AllOnes(x / 2, n - 1);
      AndOdd(x, Pow2(n - 1) - 1, n);
    }
  }

  lemma AndOdd(x: nat, half: nat, n: nat)
    requires n > 0
    ensures And(x, 2 * half + 1, n) == x % 2 + 2 * And(x / 2, half, n - 1)
  {
    HalfAndRest(1, half);
  }

  lemma AndEven(x: nat, half: nat, n: nat)
    requires n > 0
    ensures And(x, 2 * half, n) == 2 * And(x / 2, half, n - 1)
  {
    HalfAndRest(0, half);
  }

  lemma AllKept(x: nat)
    ensures x % Pow2(0) == 0
  {
  }

  lemma ClearedIff(x: nat, y: nat, p: nat)
    requires p > 0
    ensures x - x % p == y - y % p <==> x / p == y / p
  {
    assert x - x % p == p * (x / p) && y - y % p == p * (y / p);
    if p * (x / p) == p * (y / p) {
      DivUnique(p * (x / p), p, x / p, 0);
      DivUnique(p * (y / p), p, y / p, 0);
    }
  }

  lemma AndWithMask(x: u32, prefix: int)
    ensures And(x, MaskOf(prefix), 32) == x - x % Pow2(32 - Effective(prefix))
  {
    WordIsPow2();
    AndMask(x, 32 - Effective(prefix), 32);
    assert Pow2(32) - Pow2(32 - Effective(prefix)) == MaskOf(prefix);
  }

  /** The mask test decides whether the addresses have the same leading bits, for every integer prefix. */
  lemma MaskTestIff(ip: u32, base: u32, prefix: int)
    ensures Matches4(ip, base, prefix) <==> SameTop(ip, base, 32, Effective(prefix))
  {
    AndWithMask(ip, prefix);
    AndWithMask(base, prefix);
    ClearedIff(ip, base, Pow2(32 - Effective(prefix)));
  }

  datatype Row4 = Row4(base: u32, prefix: int)

  predicate InRow(ip: u32, r: Row4) {
    SameTop(ip, r.base, 32, Effective(r.prefix))
  }

  predicate SortedRows(rows: seq<Row4>) {
    forall i, j :: 0 <= i < j < |rows| ==> rows[i].base <= rows[j].base
  }

  /** The base has no bits behind its prefix. */
  predicate Normalised(r: Row4) {
    r.base % Pow2(32 - Effective(r.prefix)) == 0
  }

  predicate Contained(ip: u32, rows: seq<Row4>)
  {
    exists i :: 0 <= i < |rows| && InRow(ip, rows[i])
  }

  /** A row matches before the first row that starts above the address. */
  predicate FoundEarly(ip: u32, rows: seq<Row4>)
  {
    exists i :: 0 <= i < |rows| && InRow(ip, rows[i]) && forall j :: 0 <= j <= i ==> rows[j].base <= ip
  }

  method InCnCidr4(rows: seq<Row4>, ip: u32) returns (found: bool)
    ensures found <==> FoundEarly(ip, rows)
    ensures SortedRows(rows) && (forall i :: 0 <= i < |rows| ==> Normalised(rows[i])) ==> (found <==> Contained(ip, rows))
  {
    if SortedRows(rows) && forall i :: 0 <= i < |rows| ==> Normalised(rows[i]) {
      EarlyExitIsHarmless(ip, rows);
    }
    for k := 0 to |rows|
      invariant forall j :: 0 <= j < k ==> rows[j].base <= ip && !InRow(ip, rows[j])
    {
      var r := rows[k];
      if r.base > ip {
        return false;
      }
      MaskTestIff(ip, r.base, r.prefix);
      if Matches4(ip, r.base, r.prefix) {
        assert InRow(ip, rows[k]);
        return true;
      }
    }
    return false;
  }

  /** An address in a normalised row is not below its base. */
  lemma NormalisedBaseIsLeast(ip: u32, r: Row4)
    requires Normalised(r) && InRow(ip, r)
    ensures r.base <= ip
  {
    LeastOfBlock(ip, r.base, Pow2(32 - Effective(r.prefix)));
  }

  lemma LeastOfBlock(x: nat, base: nat, p: nat)
    requires p > 0 && base % p == 0 && x / p == base / p
    ensures base <= x
  {
    assert base == p * (base / p) && x == p * (x / p) + x % p;
  }

  /** Every block starts with a number that lies in it. */
  lemma StartOfBlock(base: nat, p: nat)
    requires p > 0 && base % p != 0
    ensures base - base % p >= 0 && (base - base % p) / p == base / p && base - base % p < base
  {
    assert base == p * (base / p) + base % p;
    DivUnique(base - base % p, p, base / p, 0);
  }

  /** On a sorted table of normalised rows the early exit changes nothing. */
  lemma EarlyExitIsHarmless(ip: u32, rows: seq<Row4>)
    requires SortedRows(rows) && forall i :: 0 <= i < |rows| ==> Normalised(rows[i])
    ensures FoundEarly(ip, rows) <==> Contained(ip, rows)
  {
    if Contained(ip, rows) {
      var i :| 0 <= i < |rows| && InRow(ip, rows[i]);
      NormalisedBaseIsLeast(ip, rows[i]);
      assert forall j :: 0 <= j <= i ==> rows[j].base <= ip;
    }
  }

  /** On a sorted table the early exit finds an address exactly when a row that starts at or below it contains it. */
  lemma SortedLookupIff(ip: u32, rows: seq<Row4>)
    requires SortedRows(rows)
    ensures FoundEarly(ip, rows) <==> exists i :: 0 <= i < |rows| && InRow(ip, rows[i]) && rows[i].base <= ip
  {
    forall i | 0 <= i < |rows| && InRow(ip, rows[i]) && rows[i].base <= ip
      ensures FoundEarly(ip, rows)
    {
      assert forall j :: 0 <= j <= i ==> rows[j].base <= ip;
    }
  }

  /** The part of a row's block below its base is covered by rows that start early enough. */
  predicate LowPartCovered(rows: seq<Row4>, k: nat)
    requires k < |rows|
  {
    forall ip: u32 :: InRow(ip, rows[k]) && ip < rows[k].base ==>
      exists i :: 0 <= i < |rows| && InRow(ip, rows[i]) && rows[i].base <= ip
  }

  /** A sorted table is looked up rightly for every address exactly when, for every row, the part of its block below its
      base is covered otherwise; a normalised row has no such part. */
  lemma EarlyExitRightIff(rows: seq<Row4>)
    requires SortedRows(rows)
    ensures (forall ip: u32 :: FoundEarly(ip, rows) <==> Contained(ip, rows))
            <==> forall k :: 0 <= k < |rows| ==> LowPartCovered(rows, k)
    ensures forall k :: 0 <= k < |rows| && Normalised(rows[k]) ==> LowPartCovered(rows, k)
  {
    forall ip: u32
      ensures FoundEarly(ip, rows) <==> exists i :: 0 <= i < |rows| && InRow(ip, rows[i]) && rows[i].base <= ip
    {
      SortedLookupIff(ip, rows);
    }
    if forall ip: u32 :: FoundEarly(ip, rows) <==> Contained(ip, rows) {
      RightIsCovered(rows);
    }
    if forall k :: 0 <= k < |rows| ==> LowPartCovered(rows, k) {
      CoveredIsRight(rows);
    }
    forall k, ip: u32 | 0 <= k < |rows| && Normalised(rows[k]) && InRow(ip, rows[k])
      ensures rows[k].base <= ip
    {
      NormalisedBaseIsLeast(ip, rows[k]);
    }
  }

  lemma RightIsCovered(rows: seq<Row4>)
    requires SortedRows(rows) && forall ip: u32 :: FoundEarly(ip, rows) <==> Contained(ip, rows)
    ensures forall k :: 0 <= k < |rows| ==> LowPartCovered(rows, k)
  {
    forall k, ip: u32 | 0 <= k < |rows| && InRow(ip, rows[k]) && ip < rows[k].base
      ensures exists i :: 0 <= i < |rows| && InRow(ip, rows[i]) && rows[i].base <= ip
    {
      assert Contained(ip, rows);
      SortedLookupIff(ip, rows);
    }
  }

  lemma CoveredIsRight(rows: seq<Row4>)
    requires SortedRows(rows) && forall k :: 0 <= k < |rows| ==> LowPartCovered(rows, k)
    ensures forall ip: u32 :: FoundEarly(ip, rows) <==> Contained(ip, rows)
  {
    forall ip: u32
      ensures FoundEarly(ip, rows) <==> Contained(ip, rows)
    {
      SortedLookupIff(ip, rows);
      if Contained(ip, rows) {
        var k :| 0 <= k < |rows| && InRow(ip, rows[k]);
        assert LowPartCovered(rows, k);
      }
    }
  }

  /** For a single row the early exit is right for every address exactly when the row is normalised. */
  lemma NormalisedIff(r: Row4)
    ensures (forall ip: u32 :: FoundEarly(ip, [r]) <==> Contained(ip, [r])) <==> Normalised(r)
  {
    if Normalised(r) {
      forall ip: u32
        ensures FoundEarly(ip, [r]) <==> Contained(ip, [r])
      {
        EarlyExitIsHarmless(ip, [r]);
      }
    } else {
      var p := Pow2(32 - Effective(r.prefix));
      StartOfBlock(r.base, p);
      var ip: u32 := r.base - r.base % p;
      assert InRow(ip, [r][0]);
      assert Contained(ip, [r]) && !FoundEarly(ip, [r]);
    }
  }

  // ---- IPv6 ---------------------------------------------------------------------

  /** Eight groups as the text readers make them; nothing there keeps a group below 65536. */
  type Groups = g: seq<nat> | |g| == 8 witness [0, 0, 0, 0, 0, 0, 0, 0]

  type Words = g: Groups | forall i :: 0 <= i < 8 ==> g[i] < 65536 witness [0, 0, 0, 0, 0, 0, 0, 0]

  /** What a bit test sees of the groups: their low 16 bits. */
  function Low(g: Groups): Words {
    seq(8, i requires 0 <= i < 8 => g[i] % 65536)
  }

  /** The address as one number. */
  function Address(g: Groups): (r: nat)
    ensures (forall i :: 0 <= i < 8 ==> g[i] < 65536) ==> r == Value(g)
  {
    assert (forall i :: 0 <= i < 8 ==> g[i] < 65536) ==> Low(g) == g;
    Value(Low(g))
  }

  /** `(groups[i] >> k) & 1`; a missing group counts as zero. */
  function GroupBit(g: Groups, i: nat, k: nat): nat {
    if i < 8 then g[i] / Pow2(k) % 2 else 0
  }

  /** Bit number `bit`, counted from the front of the address. */
  function BitAt(g: Groups, bit: nat): nat {
    GroupBit(g, bit / 16, 15 - bit % 16)
  }

  function Clamp(prefix: int): (p: nat)
    ensures p <= 128
  {
    if prefix < 0 then 0 else if prefix > 128 then 128 else prefix
  }

  function Value(g: seq<nat>): nat {
    if g == [] then 0 else Value(g[..|g| - 1]) * 65536 + g[|g| - 1]
  }

  method BitLoop(candidate: Groups, groups: Groups, prefix: int) returns (same: bool)
    ensures same <==> forall bit :: 0 <= bit < prefix ==> BitAt(candidate, bit) == BitAt(groups, bit)
    ensures same <==> SameTop(Address(candidate), Address(groups), 128, Clamp(prefix))
  {
    BitsIff(candidate, groups, prefix);
    var bit := 0;
    while bit < prefix
      invariant 0 <= bit && forall b :: 0 <= b < bit ==> BitAt(candidate, b) == BitAt(groups, b)
    {
      if GroupBit(candidate, bit / 16, 15 - bit % 16) != GroupBit(groups, bit / 16, 15 - bit % 16) {
        assert BitAt(candidate, bit) != BitAt(groups, bit);
        return false;
      }
      bit := bit + 1;
    }
    return true;
  }

  /** Dividing by two powers of two one after the other. */
  lemma {:induction false} DivPow2Twice(x: nat, a: nat, b: nat)
    ensures x / Pow2(a) / Pow2(b) == x / Pow2(a + b)
    decreases a
  {
    if a > 0 {
      DivPow2Step(x, a);
      DivPow2Step(x, a + b);
      DivPow2Twice(x / 2, a - 1, b);
    }
  }

  /** A bit below the width survives taking the remainder. */
  lemma {:induction false} BitOfRemainder(x: nat, k: nat, w: nat)
    requires k < w
    ensures x % Pow2(w) / Pow2(k) % 2 == x / Pow2(k) % 2
    decreases k
  {
    DivPow2Step(x, w);
    if k > 0 {
      var y := x % Pow2(w);
      HalfAndRest(x % 2, x / 2 % Pow2(w - 1));
      assert y / 2 == x / 2 % Pow2(w - 1);
      DivPow2Step(y, k);
      DivPow2Step(x, k);
      BitOfRemainder(x / 2, k - 1, w - 1);
    } else {
      HalfAndRest(x % 2, x / 2 % Pow2(w - 1));
    }
  }

  lemma Pow2Sixteen()
    ensures Pow2(16) == 65536
  {
    assert Pow2(8) == 256;
  }

  /** The i-th group of an address number. */
  lemma {:induction false} ValueGroup(g: seq<nat>, i: nat)
    requires i < |g| && forall j :: 0 <= j < |g| ==> g[j] < 65536
    ensures Value(g) / Pow2(16 * (|g| - 1 - i)) % 65536 == g[i]
    decreases |g|
  {
    var n := |g| - 1;
    var v := Value(g[..n]);
    DivUnique(Value(g), 65536, v, g[n]);
    if i == n {
      assert Pow2(0) == 1;
    } else {
      Pow2Sixteen();
      DivPow2Twice(Value(g), 16, 16 * (n - 1 - i));
      ValueGroup(g[..n], i);
      assert g[..n][i] == g[i];
    }
  }

  /** Bit number `b` of a `w`-bit number, counted from the front. */
  function FrontBit(x: nat, w: nat, b: nat): nat
    requires b < w
  {
    x / Pow2(w - 1 - b) % 2
  }

  lemma GroupBitOfValue(g: Words, i: nat, k: nat)
    requires i < 8 && k < 16
    ensures GroupBit(g, i, k) == Value(g) / Pow2(16 * (7 - i) + k) % 2
  {
    ValueGroup(g, i);
    BitOfGroup(Value(g), 16 * (7 - i), k, g[i]);
  }

  lemma BitOfGroup(x: nat, a: nat, k: nat, group: nat)
    requires k < 16 && x / Pow2(a) % 65536 == group
    ensures group / Pow2(k) % 2 == x / Pow2(a + k) % 2
  {
    Pow2Sixteen();
    BitOfRemainder(x / Pow2(a), k, 16);
    DivPow2Twice(x, a, k);
  }

  /** Bit number `bit` of the groups is bit number `bit` of the number. */
  lemma BitOfValue(g: Words, bit: nat)
    requires bit < 128
    ensures BitAt(g, bit) == FrontBit(Value(g), 128, bit)
  {
    var i, k := bit / 16, 15 - bit % 16;
    GroupBitOfValue(g, i, k);
    assert 16 * (7 - i) + k == 127 - bit;
  }

  lemma SameHalves(a: nat, b: nat)
    ensures a == b <==> a / 2 == b / 2 && a % 2 == b % 2
  {
    assert a == 2 * (a / 2) + a % 2 && b == 2 * (b / 2) + b % 2;
  }

  /** Extending a common front by one bit. */
  lemma SameTopStep(x: nat, y: nat, w: nat, p: nat)
    requires 0 < p <= w
    ensures SameTop(x, y, w, p) <==> SameTop(x, y, w, p - 1) && FrontBit(x, w, p - 1) == FrontBit(y, w, p - 1)
  {
    DivPow2Twice(x, w - p, 1);
    DivPow2Twice(y, w - p, 1);
    assert Pow2(1) == 2;
    SameHalves(x / Pow2(w - p), y / Pow2(w - p));
  }

  predicate SameFront(x: nat, y: nat, w: nat, p: nat)
    requires p <= w
  {
    forall b :: 0 <= b < p ==> FrontBit(x, w, b) == FrontBit(y, w, b)
  }

  /** Agreeing in the first `p` bits is agreeing in the number those bits make. */
  lemma {:induction false} LeadingBits(x: nat, y: nat, w: nat, p: nat)
    requires p <= w && x < Pow2(w) && y < Pow2(w)
    ensures SameFront(x, y, w, p) <==> SameTop(x, y, w, p)
    decreases p
  {
    if p == 0 {
      DivUnique(x, Pow2(w), 0, x);
      DivUnique(y, Pow2(w), 0, y);
    } else {
      LeadingBits(x, y, w, p - 1);
      SameTopStep(x, y, w, p);
      assert SameFront(x, y, w, p) <==> SameFront(x, y, w, p - 1) && FrontBit(x, w, p - 1) == FrontBit(y, w, p - 1);
    }
  }

  lemma {:induction false} ValueBound(g: seq<nat>)
    requires forall j :: 0 <= j < |g| ==> g[j] < 65536
    ensures Value(g) < Pow2(16 * |g|)
    decreases |g|
  {
    if g != [] {
      ValueBound(g[..|g| - 1]);
      Pow2Sum(16 * (|g| - 1), 16);
      Pow2Sixteen();
    }
  }

  lemma {:induction false} Pow2Sum(a: nat, b: nat)
    ensures Pow2(a + b) == Pow2(a) * Pow2(b)
    decreases b
  {
    if b > 0 {
      Pow2Sum(a, b - 1);
    }
  }

  /** Bits behind the address count as equal. */
  lemma SameBits(a: Words, b: Words, prefix: int)
    requires forall bit :: 0 <= bit < 128 ==> BitAt(a, bit) == FrontBit(Value(a), 128, bit) && BitAt(b, bit) == FrontBit(Value(b), 128, bit)
    ensures (forall bit :: 0 <= bit < prefix ==> BitAt(a, bit) == BitAt(b, bit))
            <==> SameFront(Value(a), Value(b), 128, Clamp(prefix))
  {
    forall bit | bit >= 128
      ensures BitAt(a, bit) == BitAt(b, bit)
    {
      assert bit / 16 >= 8;
    }
    var x, y, p := Value(a), Value(b), Clamp(prefix);
    if SameFront(x, y, 128, p) {
      forall bit | 0 <= bit < prefix
        ensures BitAt(a, bit) == BitAt(b, bit)
      {
        if bit < 128 {
          assert FrontBit(x, 128, bit) == FrontBit(y, 128, bit);
        }
      }
    }
  }

  lemma WordsBitsIff(a: Words, b: Words, prefix: int)
    ensures (forall bit :: 0 <= bit < prefix ==> BitAt(a, bit) == BitAt(b, bit))
            <==> SameTop(Value(a), Value(b), 128, Clamp(prefix))
  {
    ValueBound(a);
    ValueBound(b);
    LeadingBits(Value(a), Value(b), 128, Clamp(prefix));
    forall bit: nat | bit < 128
      ensures BitAt(a, bit) == FrontBit(Value(a), 128, bit) && BitAt(b, bit) == FrontBit(Value(b), 128, bit)
    {
      BitOfValue(a, bit);
      BitOfValue(b, bit);
    }
    SameBits(a, b, prefix);
  }

  lemma LowBit(g: Groups, bit: nat)
    ensures BitAt(g, bit) == BitAt(Low(g), bit)
  {
    if bit < 128 {
      Pow2Sixteen();
      BitOfRemainder(g[bit / 16], 15 - bit % 16, 16);
    } else {
      assert bit / 16 >= 8;
    }
  }

  /** The bit loop decides "same leading bits", with the prefix length cut to 0..128. */
  lemma BitsIff(a: Groups, b: Groups, prefix: int)
    ensures (forall bit :: 0 <= bit < prefix ==> BitAt(a, bit) == BitAt(b, bit))
            <==> SameTop(Address(a), Address(b), 128, Clamp(prefix))
  {
    WordsBitsIff(Low(a), Low(b), prefix);
    forall bit: nat
      ensures BitAt(a, bit) == BitAt(Low(a), bit) && BitAt(b, bit) == BitAt(Low(b), bit)
    {
      LowBit(a, bit);
      LowBit(b, bit);
    }
  }

  // ---- the IPv6 table -------------------------------------------------------------

  datatype Row6 = Row6(groups: Groups, prefix: int)

  /** The first group in which the addresses differ is smaller in `a`. */
  predicate Before(a: Groups, b: Groups) {
    exists i :: 0 <= i < 8 && a[i] < b[i] && a[..i] == b[..i]
  }

  predicate SortedRows6(rows: seq<Row6>) {
    forall i, j :: 0 <= i < j < |rows| ==> !Before(rows[j].groups, rows[i].groups)
  }

  predicate Listed(g: Groups, rows: seq<Row6>) {
    exists i :: 0 <= i < |rows| && rows[i].groups == g
  }

  predicate Contained6(g: Groups, rows: seq<Row6>) {
    exists i :: 0 <= i < |rows| && SameTop(Address(g), Address(rows[i].groups), 128, Clamp(rows[i].prefix))
  }

  /** The address is itself a listed network, before the first row that is ordered behind it. */
  predicate FoundEarly6(g: Groups, rows: seq<Row6>) {
    exists i :: 0 <= i < |rows| && rows[i].groups == g && forall j :: 0 <= j < i ==> !Before(g, rows[j].groups)
  }

  /** The table lookup as written skips every row whose network is not the address itself. */
  method InCnCidr6(rows: seq<Row6>, groups: Groups) returns (found: bool)
    ensures found <==> FoundEarly6(groups, rows)
    ensures SortedRows6(rows) ==> (found <==> Listed(groups, rows))
  {
    for k := 0 to |rows|
      invariant forall j :: 0 <= j < k ==> rows[j].groups != groups && !Before(groups, rows[j].groups)
    {
      var network := rows[k].groups;
      var before, equal := false, true;
      var i := 0;
      while i < 8 && equal
        invariant 0 <= i <= 8
        invariant equal ==> !before && groups[..i] == network[..i]
        invariant !equal ==> groups != network && before == Before(groups, network)
      {
        if groups[i] != network[i] {
          equal := false;
          before := groups[i] < network[i];
          FirstDifference(groups, network, i);
        }
        i := i + 1;
      }
      if before {
        return false;
      }
      if !equal {
        continue;
      }
      assert groups == network;
      NeverBeforeItself(groups);
      var matched := BitLoop(groups, network, rows[k].prefix);
      if matched {
        return true;
      }
    }
    return false;
  }

  lemma FirstDifference(a: Groups, b: Groups, i: nat)
    requires i < 8 && a[..i] == b[..i] && a[i] != b[i]
    ensures Before(a, b) <==> a[i] < b[i]
  {
    forall j | 0 <= j < i
      ensures a[j] == b[j]
    {
      assert a[..i][j] == a[j] && b[..i][j] == b[j];
    }
    forall j | i < j < 8
      ensures a[..j] != b[..j]
    {
      assert a[..j][i] == a[i] && b[..j][i] == b[i];
    }
  }

  lemma NeverBeforeItself(a: Groups)
    ensures !Before(a, a)
  {
  }

  /** An address inside a listed network is missed as soon as it is not itself a listed network. */
  lemma TableMissesInside()
    ensures var rows := [Row6([0x2408, 0, 0, 0, 0, 0, 0, 0], 20)];
            var inside := [0x2408, 0, 0, 0, 0, 0, 0, 1];
            SortedRows6(rows) && Contained6(inside, rows) && !Listed(inside, rows)
  {
    var rows := [Row6([0x2408, 0, 0, 0, 0, 0, 0, 0], 20)];
    var inside: Groups := [0x2408, 0, 0, 0, 0, 0, 0, 1];
    BitsIff(inside, rows[0].groups, 20);
    assert inside[7] != rows[0].groups[7];
    assert forall bit :: 0 <= bit < 20 ==> bit / 16 <= 1;
  }

  lemma {:induction false} ValueInjective(a: seq<nat>, b: seq<nat>)
    requires |a| == |b| && Value(a) == Value(b)
    requires forall j :: 0 <= j < |a| ==> a[j] < 65536 && b[j] < 65536
    ensures a == b
    decreases |a|
  {
    if a != [] {
      var n := |a| - 1;
      DivUnique(Value(a), 65536, Value(a[..n]), a[n]);
      DivUnique(Value(b), 65536, Value(b[..n]), b[n]);
      ValueInjective(a[..n], b[..n]);
      assert a == a[..n] + [a[n]] && b == b[..n] + [b[n]];
    }
  }

  /** The other address of a pair that differs in the last bit only. */
  function Sibling(g: Words): Words {
    g[7 := if g[7] % 2 == 0 then g[7] + 1 else g[7] - 1]
  }

  lemma SiblingIsInside(g: Words, p: nat)
    requires p < 128
    ensures Sibling(g) != g && SameTop(Value(Sibling(g)), Value(g), 128, p)
  {
    SiblingHalf(g);
    DivPow2Step(Value(g), 128 - p);
    DivPow2Step(Value(Sibling(g)), 128 - p);
  }

  lemma SiblingHalf(g: Words)
    ensures Sibling(g) != g && Value(Sibling(g)) / 2 == Value(g) / 2
  {
    var h := Sibling(g);
    assert h[..7] == g[..7];
    assert h[7] != g[7];
    PairHalf(g[7]);
    HalfOfLast(Value(g[..7]), g[7]);
    HalfOfLast(Value(g[..7]), h[7]);
  }

  lemma PairHalf(y: nat)
    ensures (if y % 2 == 0 then y + 1 else y - 1) / 2 == y / 2
  {
  }

  lemma HalfOfLast(x: nat, y: nat)
    ensures (x * 65536 + y) / 2 == x * 32768 + y / 2
  {
  }

  predicate InRow6(g: Words, r: Row6) {
    SameTop(Address(g), Address(r.groups), 128, Clamp(r.prefix))
  }

  /** A sorted table is looked up rightly for every address exactly when it lists every address of its networks. */
  lemma Lookup6RightIff(rows: seq<Row6>)
    requires SortedRows6(rows)
    ensures (forall g: Words :: FoundEarly6(g, rows) <==> Contained6(g, rows))
            <==> forall g: Words, i :: 0 <= i < |rows| && InRow6(g, rows[i]) ==> Listed(g, rows)
  {
    forall g: Words
      ensures FoundEarly6(g, rows) <==> Listed(g, rows)
      ensures Listed(g, rows) ==> Contained6(g, rows)
    {
      if i :| 0 <= i < |rows| && rows[i].groups == g {
        assert forall j :: 0 <= j < i ==> !Before(g, rows[j].groups);
        assert SameTop(Address(g), Address(rows[i].groups), 128, Clamp(rows[i].prefix));
      }
    }
    if forall g: Words, i :: 0 <= i < |rows| && InRow6(g, rows[i]) ==> Listed(g, rows) {
      forall g: Words | Contained6(g, rows)
        ensures Listed(g, rows)
      {
        var i :| 0 <= i < |rows| && SameTop(Address(g), Address(rows[i].groups), 128, Clamp(rows[i].prefix));
        assert InRow6(g, rows[i]);
      }
    }
    if forall g: Words :: FoundEarly6(g, rows) <==> Contained6(g, rows) {
      forall g: Words, i | 0 <= i < |rows| && InRow6(g, rows[i])
        ensures Listed(g, rows)
      {
        assert Contained6(g, rows);
      }
    }
  }

  lemma HostOnly(g: Words, r: Row6)
    requires (forall i :: 0 <= i < 8 ==> r.groups[i] < 65536) && r.prefix >= 128 && InRow6(g, r)
    ensures g == r.groups
  {
    ValueInjective(g, r.groups);
  }

  /** What one row asks for: every address of its network is its network address. */
  ghost predicate OnlyItself(r: Row6) {
    forall g: Words :: InRow6(g, r) ==> g == r.groups
  }

  lemma OnlyItselfIff(r: Row6)
    requires forall i :: 0 <= i < 8 ==> r.groups[i] < 65536
    ensures OnlyItself(r) <==> r.prefix >= 128
  {
    if r.prefix < 128 {
      SiblingIsInside(r.groups, Clamp(r.prefix));
      assert InRow6(Sibling(r.groups), r);
    } else {
      forall g: Words | InRow6(g, r)
        ensures g == r.groups
      {
        HostOnly(g, r);
      }
    }
  }

  lemma SingleRow(g: Words, r: Row6)
    ensures Listed(g, [r]) <==> g == r.groups
  {
    assert [r][0] == r;
  }

  lemma OneRow(r: Row6)
    ensures (forall g: Words, i :: 0 <= i < |[r]| && InRow6(g, [r][i]) ==> Listed(g, [r])) <==> OnlyItself(r)
  {
    assert [r][0] == r;
    if forall g: Words, i :: 0 <= i < |[r]| && InRow6(g, [r][i]) ==> Listed(g, [r]) {
      forall g: Words | InRow6(g, r)
        ensures g == r.groups
      {
        assert InRow6(g, [r][0]);
        SingleRow(g, r);
      }
    }
    if OnlyItself(r) {
      forall g: Words, i | 0 <= i < |[r]| && InRow6(g, [r][i])
        ensures Listed(g, [r])
      {
        SingleRow(g, r);
      }
    }
  }

  /** For a single network that is so exactly when it is a single address. */
  lemma HostRowIff(r: Row6)
    requires forall i :: 0 <= i < 8 ==> r.groups[i] < 65536
    ensures (forall g: Words :: FoundEarly6(g, [r]) <==> Contained6(g, [r])) <==> r.prefix >= 128
  {
    Lookup6RightIff([r]);
    OneRow(r);
    OnlyItselfIff(r);
  }
}
