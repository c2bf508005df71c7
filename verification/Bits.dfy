/** Bitwise operators on unsigned integers of a given width, read off the binary digits. */
module Bits {

  function Pow2(n: nat): (r: nat)
    ensures r > 0
  {
    if n == 0 then 1 else 2 * Pow2(n - 1)
  }

  lemma {:induction false} Pow2Monotone(m: nat, n: nat)
    requires m <= n
    ensures Pow2(m) <= Pow2(n)
    decreases n
  {
    if m < n {
      Pow2Monotone(m, n - 1);
    }
  }

  /** Exclusive or of the low `n` binary digits. */
  function Xor(a: nat, b: nat, n: nat): nat {
    if n == 0 then 0 else (if a % 2 == b % 2 then 0 else 1) + 2 * Xor(a / 2, b / 2, n - 1)
  }

  /** Conjunction of the low `n` binary digits. */
  function And(a: nat, b: nat, n: nat): nat {
    if n == 0 then 0 else (if a % 2 == 1 && b % 2 == 1 then 1 else 0) + 2 * And(a / 2, b / 2, n - 1)
  }

  /** The lowest digit of an exclusive or, and the rest of its digits. */
  lemma XorDigits(a: nat, b: nat, n: nat)
    requires n > 0
    ensures Xor(a, b, n) % 2 == if a % 2 == b % 2 then 0 else 1
    ensures Xor(a, b, n) / 2 == Xor(a / 2, b / 2, n - 1)
  {
    HalfAndRest(if a % 2 == b % 2 then 0 else 1, Xor(a / 2, b / 2, n - 1));
  }

  lemma HalfAndRest(low: nat, high: nat)
    requires low < 2
    ensures (low + 2 * high) % 2 == low && (low + 2 * high) / 2 == high
  {
  }

  /** Digit `k` of an exclusive or is set exactly if the digits of both numbers differ there. */
  lemma {:induction false} XorDigit(a: nat, b: nat, n: nat, k: nat)
    requires k < n
    ensures Xor(a, b, n) / Pow2(k) % 2 == if a / Pow2(k) % 2 == b / Pow2(k) % 2 then 0 else 1
    decreases k
  {
    XorDigits(a, b, n);
    if k > 0 {
      XorDigit(a / 2, b / 2, n - 1, k - 1);
      DivTwice(Xor(a, b, n), Pow2(k - 1));
      DivTwice(a, Pow2(k - 1));
      DivTwice(b, Pow2(k - 1));
    }
  }

  /** Digit `k` of a conjunction is set exactly if both numbers have it. */
  lemma {:induction false} AndDigit(a: nat, b: nat, n: nat, k: nat)
    requires k < n
    ensures And(a, b, n) / Pow2(k) % 2 == if a / Pow2(k) % 2 == 1 && b / Pow2(k) % 2 == 1 then 1 else 0
    decreases k
  {
    var low := if a % 2 == 1 && b % 2 == 1 then 1 else 0;
    HalfAndRest(low, And(a / 2, b / 2, n - 1));
    if k > 0 {
      AndDigit(a / 2, b / 2, n - 1, k - 1);
      DivTwice(And(a, b, n), Pow2(k - 1));
      DivTwice(a, Pow2(k - 1));
      DivTwice(b, Pow2(k - 1));
    }
  }

  lemma {:induction false} XorBound(a: nat, b: nat, n: nat)
    ensures Xor(a, b, n) < Pow2(n)
  {
    if n > 0 {
      XorBound(a / 2, b / 2, n - 1);
    }
  }

  lemma {:induction false} XorCommutes(a: nat, b: nat, n: nat)
    ensures Xor(a, b, n) == Xor(b, a, n)
  {
    if n > 0 {
      XorCommutes(a / 2, b / 2, n - 1);
    }
  }

  lemma {:induction false} XorAssociates(a: nat, b: nat, c: nat, n: nat)
    ensures Xor(Xor(a, b, n), c, n) == Xor(a, Xor(b, c, n), n)
  {
    if n > 0 {
      var ab, bc := Xor(a, b, n), Xor(b, c, n);
      XorDigits(a, b, n);
      XorDigits(b, c, n);
      XorAssociates(a / 2, b / 2, c / 2, n - 1);
      SameXor(ab, c, a, bc, n);
    }
  }

  /** Two exclusive ors agree when their lowest digits and the rest of their digits do. */
  lemma SameXor(a: nat, b: nat, c: nat, d: nat, n: nat)
    requires n > 0
    requires Xor(a / 2, b / 2, n - 1) == Xor(c / 2, d / 2, n - 1)
    requires a % 2 == b % 2 <==> c % 2 == d % 2
    ensures Xor(a, b, n) == Xor(c, d, n)
  {
  }

  lemma {:induction false} XorCancels(a: nat, b: nat, n: nat)
    requires a < Pow2(n)
    ensures Xor(Xor(a, b, n), b, n) == a
  {
    if n > 0 {
      XorDigits(a, b, n);
      XorCancels(a / 2, b / 2, n - 1);
    }
  }

  lemma {:induction false} XorZero(a: nat, n: nat)
    requires a < Pow2(n)
    ensures Xor(a, 0, n) == a
  {
    if n > 0 {
      XorZero(a / 2, n - 1);
    }
  }

  lemma MulGap(gap: int, d: int)
    requires d > 0
    ensures gap >= 1 ==> gap * d >= d
    ensures gap <= -1 ==> gap * d <= -d
  {
  }

  lemma DivUnique(x: int, d: nat, q: int, r: int)
    requires d > 0 && x == q * d + r && 0 <= r < d
    ensures x / d == q && x % d == r
  {
    var q' := x / d;
    var gap := q - q';
    assert q * d == q' * d + gap * d;
    MulGap(gap, d);
  }

  lemma DivTwice(x: nat, p: nat)
    requires p > 0
    ensures x / (2 * p) == x / 2 / p
  {
    var q, r := x / 2 / p, x / 2 % p;
    assert x == q * (2 * p) + (2 * r + x % 2);
    DivUnique(x, 2 * p, q, 2 * r + x % 2);
  }
}
